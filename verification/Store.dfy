/**
 * The persistent world of `mica/core.py`, with the SQLite tables replaced by
 * values: the `things` rows in ascending id (rowid) order, the `properties`
 * table as a map keyed by (object id, property name) — its UNIQUE(object_id,
 * name) constraint — and the `accounts` rows. Every accessor is a pure
 * function of the store, so a Thing's existence is re-checked on every call,
 * as the source re-queries on every call.
 */
module Store {
  import opened Wrappers
  import opened Text

  type Id = int

  /** A row of `things`; `location` is the nullable `location_id` column. */
  datatype Thing = Thing(id: Id, owner: Id, location: Option<Id>, name: string)

  /** A row of `accounts`: its own id, the character Thing it is bound to, and the plaintext password. */
  datatype Account = Account(id: Id, character: Id, password: string)

  type PropKey = (Id, string)

  datatype Tables = Tables(things: seq<Thing>, props: map<PropKey, string>, accounts: seq<Account>)

  /**
   * The `id INTEGER PRIMARY KEY` columns of `things` and `accounts` are rowid
   * aliases: a table scan returns the rows in ascending id order, so no id
   * occurs twice.
   */
  predicate Keyed(t: Tables) {
    && (forall i, j :: 0 <= i < j < |t.things| ==> t.things[i].id < t.things[j].id)
    && (forall i, j :: 0 <= i < j < |t.accounts| ==> t.accounts[i].id < t.accounts[j].id)
  }

  type Store = t: Tables | Keyed(t) witness Tables([], map[], [])

  // ---------------------------------------------------------------------------
  // Cardinality of a query result: `Mica._one_from_db`

  /** The three outcomes of `_one_from_db`: the single row, or one of its two exceptions. */
  datatype Cardinality<T> = One(row: T) | NotEnough | TooMany

  /**
   * sqlite3 binds a Python int as a signed 64-bit INTEGER; a parameter outside
   * that range makes the query raise OverflowError instead of running.
   */
  const MinSqlInt: int := -0x8000_0000_0000_0000
  const MaxSqlInt: int := 0x7FFF_FFFF_FFFF_FFFF

  predicate Bindable(n: int) {
    MinSqlInt <= n <= MaxSqlInt
  }

  /** A result computed through a query with an integer parameter, or the OverflowError of binding it. */
  datatype Binding<T> = Bound(value: T) | Overflow

  /** Exactly one row is returned as itself; none and several are errors. */
  function OneFromDb<T>(rows: seq<T>): (r: Cardinality<T>)
    ensures r.NotEnough? <==> |rows| == 0
    ensures r.TooMany? <==> |rows| > 1
    ensures r.One? <==> |rows| == 1
    ensures r.One? ==> rows == [r.row]
  {
    if |rows| < 1 then NotEnough
    else if |rows| > 1 then TooMany
    else One(rows[0])
  }

  // ---------------------------------------------------------------------------
  // Things

  /** The rows of `SELECT ... FROM things WHERE id=?`. */
  function ThingsWithId(things: seq<Thing>, id: Id): (r: seq<Thing>)
    ensures forall t :: t in r <==> t in things && t.id == id
  {
    if |things| == 0 then []
    else (if things[0].id == id then [things[0]] else []) + ThingsWithId(things[1..], id)
  }

  lemma {:induction false} NoneWithId(things: seq<Thing>, id: Id)
    requires forall k :: 0 <= k < |things| ==> things[k].id != id
    ensures ThingsWithId(things, id) == []
  {
    if |things| > 0 {
      NoneWithId(things[1..], id);
    }
  }

  lemma {:induction false} AtMostOneWithId(things: seq<Thing>, id: Id)
    requires forall i, j :: 0 <= i < j < |things| ==> things[i].id != things[j].id
    ensures |ThingsWithId(things, id)| <= 1
  {
    if |things| > 0 {
      AtMostOneWithId(things[1..], id);
      if things[0].id == id {
        NoneWithId(things[1..], id);
      }
    }
  }

  /**
   * `Mica.get_thing`: the Thing with this id, or None when there is none. The
   * source builds a `Thing`, whose constructor fetches the name with
   * `_one_from_db`; NotEnough becomes None.
   */
  function GetThing(s: Store, id: Id): (r: Option<Thing>)
    ensures r.Some? <==> exists t :: t in s.things && t.id == id
    ensures r.Some? ==> r.value in s.things && r.value.id == id
  {
    var rows := ThingsWithId(s.things, id);
    AtMostOneWithId(s.things, id);
    match OneFromDb(rows)
    case One(t) =>
      assert t in rows;
      Some(t)
    case NotEnough =>
      assert forall t :: t in s.things && t.id == id ==> t in rows;
      None
    case TooMany => assert false; None
  }

  /** Within a keyed store a Thing is the only one with its id. */
  lemma GetThingUnique(s: Store, t: Thing)
    requires t in s.things
    ensures GetThing(s, t.id) == Some(t)
  {
    var i :| 0 <= i < |s.things| && s.things[i] == t;
    var u := GetThing(s, t.id).value;
    var j :| 0 <= j < |s.things| && s.things[j] == u;
    assert i == j;
  }

  predicate Exists(s: Store, id: Id) {
    GetThing(s, id).Some?
  }

  /** The Thing's name as shown to users, with its id: `"%s [%d]" % (name, id)`. */
  function DisplayName(t: Thing): (r: string)
    ensures |r| > 0 && IsPrefix(t.name, r)
    ensures r[|r| - 1] == ']'
  {
    t.name + " [" + ShowInt(t.id) + "]"
  }

  /** The id is recoverable from a display name: it sits between the last '[' and the final ']'. */
  lemma DisplayNameId(t: Thing)
    ensures var r := DisplayName(t);
            var k := |t.name| + 2;
            r[k - 1] == '[' && '[' !in r[k..|r| - 1] && ParseInt(r[k..|r| - 1]) == Some(t.id)
  {
    var r := DisplayName(t);
    var k := |t.name| + 2;
    assert r[k..|r| - 1] == ShowInt(t.id);
    ParseShowInt(t.id);
  }

  // ---------------------------------------------------------------------------
  // Containment: `Thing.contents` and `Thing.location`

  /** The rows of `SELECT id FROM things WHERE location_id=?`, in store order. */
  function ContentThings(things: seq<Thing>, loc: Id): (r: seq<Thing>)
    ensures forall t :: t in r <==> t in things && t.location == Some(loc)
    ensures |r| <= |things|
  {
    if |things| == 0 then []
    else (if things[0].location == Some(loc) then [things[0]] else []) + ContentThings(things[1..], loc)
  }

  /** Store order is kept: the contents of a concatenation are the concatenated contents. */
  lemma {:induction false} ContentThingsAppend(a: seq<Thing>, b: seq<Thing>, loc: Id)
    ensures ContentThings(a + b, loc) == ContentThings(a, loc) + ContentThings(b, loc)
  {
    if |a| > 0 {
      ContentThingsAppend(a[1..], b, loc);
      assert (a + b)[0] == a[0];
      assert (a + b)[1..] == a[1..] + b;
      var head := if a[0].location == Some(loc) then [a[0]] else [];
      assert ContentThings(a + b, loc) == head + ContentThings(a[1..] + b, loc);
      assert ContentThings(a, loc) == head + ContentThings(a[1..], loc);
    } else {
      assert a + b == b;
    }
  }

  function IdsOf(ts: seq<Thing>): (r: seq<Id>)
    ensures |r| == |ts| && forall i :: 0 <= i < |ts| ==> r[i] == ts[i].id
  {
    if |ts| == 0 then [] else [ts[0].id] + IdsOf(ts[1..])
  }

  /**
   * `Thing.contents`: the ids of every Thing located here, in store order. The
   * filter at mica/core.py:88 compares against the builtin `id` rather than the
   * Thing's own id, so it never removes anything: a self-located Thing is part
   * of its own contents.
   */
  function Contents(s: Store, loc: Id): (r: seq<Id>)
    ensures forall x :: x in r <==> exists t :: t in s.things && t.id == x && t.location == Some(loc)
  {
    var ts := ContentThings(s.things, loc);
    var r := IdsOf(ts);
    assert forall t :: t in ts ==> t.id in r by {
      forall t | t in ts ensures t.id in r {
        var i :| 0 <= i < |ts| && ts[i] == t;
        assert r[i] == t.id;
      }
    }
    r
  }

  /** A self-located Thing (such as the seed's Nexus) lists itself among its contents. */
  lemma ContentsIncludesSelf(s: Store, t: Thing)
    requires t in s.things && t.location == Some(t.id)
    ensures t.id in Contents(s, t.id)
  {
  }

  /**
   * `Thing.location`: the id of the Thing this one is in, or None when this
   * Thing, its location column, or the Thing it names does not exist (the
   * query joins `things` with itself).
   */
  function Location(s: Store, id: Id): (r: Option<Id>)
    ensures r.Some? <==>
            && Exists(s, id)
            && GetThing(s, id).value.location.Some?
            && Exists(s, GetThing(s, id).value.location.value)
    ensures r.Some? ==> GetThing(s, id).value.location == Some(r.value)
  {
    // The source prints a trace line at mica/core.py:99 that formats the
    // builtin `id` with %d and would raise TypeError; the doc-comment's intent,
    // returning the location, is modelled.
    match GetThing(s, id)
    case None => None
    case Some(t) =>
      match t.location
      case None => None
      case Some(l) => if Exists(s, l) then Some(l) else None
  }

  // ---------------------------------------------------------------------------
  // Properties: Thing.__getitem__ / __setitem__ / __delitem__ / get

  /** Outcome of a subscript read: the value, or Python's KeyError. */
  datatype Lookup = Found(value: string) | KeyError

  /** `thing[key]`: the stored value, or KeyError when the Thing has no such property. */
  function GetProp(s: Store, id: Id, key: string): (r: Lookup)
    ensures r.Found? <==> (id, key) in s.props
    ensures r.Found? ==> r.value == s.props[(id, key)]
  {
    if (id, key) in s.props then Found(s.props[(id, key)]) else KeyError
  }

  /** `thing.get(key, default)`: never raises. */
  function GetPropOr(s: Store, id: Id, key: string, default: string): (r: string)
    ensures GetProp(s, id, key).KeyError? ==> r == default
    ensures GetProp(s, id, key).Found? ==> r == GetProp(s, id, key).value
  {
    match GetProp(s, id, key)
    case Found(v) => v
    case KeyError => default
  }

  /**
   * `thing[key] = value`: an upsert that never raises. Afterwards the key reads
   * back as `value`, and every other (thing, key) entry, every Thing and every
   * account is as before.
   */
  function SetProp(s: Store, id: Id, key: string, value: string): (r: Store)
    ensures GetProp(r, id, key) == Found(value)
    ensures forall i, k :: (i, k) != (id, key) ==> GetProp(r, i, k) == GetProp(s, i, k)
    ensures r.things == s.things && r.accounts == s.accounts
  {
    s.(props := s.props[(id, key) := value])
  }

  /** Outcome of `del thing[key]`: the new store, or KeyError with nothing written. */
  datatype Deletion = Deleted(store: Store) | DeleteKeyError

  /**
   * `del thing[key]`: KeyError exactly when the key is absent; otherwise only
   * that (thing, key) entry disappears.
   */
  function DeleteProp(s: Store, id: Id, key: string): (r: Deletion)
    ensures r.DeleteKeyError? <==> GetProp(s, id, key).KeyError?
    ensures r.Deleted? ==> GetProp(r.store, id, key).KeyError?
    ensures r.Deleted? ==> forall i, k :: (i, k) != (id, key) ==> GetProp(r.store, i, k) == GetProp(s, i, k)
    ensures r.Deleted? ==> r.store.things == s.things && r.store.accounts == s.accounts
  {
    // The source tests `self.get(key, None) is not None`; property values are
    // never NULL here, so that is the presence test.
    if GetProp(s, id, key).Found? then Deleted(s.(props := s.props - {(id, key)}))
    else DeleteKeyError
  }

  /** Setting a key and reading it back gives the value set, whether or not the key existed. */
  lemma SetThenGet(s: Store, id: Id, key: string, v: string, d: string)
    ensures GetProp(SetProp(s, id, key, v), id, key) == Found(v)
    ensures GetPropOr(SetProp(s, id, key, v), id, key, d) == v
  {
  }

  /** Setting twice keeps only the second value. */
  lemma SetOverwrites(s: Store, id: Id, key: string, v1: string, v2: string)
    ensures SetProp(SetProp(s, id, key, v1), id, key, v2) == SetProp(s, id, key, v2)
  {
  }

  /** After a successful delete the key reads as the default, without raising. */
  lemma DeleteThenGetOr(s: Store, id: Id, key: string, d: string)
    requires DeleteProp(s, id, key).Deleted?
    ensures GetPropOr(DeleteProp(s, id, key).store, id, key, d) == d
  {
  }

  /** Setting then deleting a key that was absent restores the store. */
  lemma SetThenDelete(s: Store, id: Id, key: string, v: string)
    requires GetProp(s, id, key).KeyError?
    ensures DeleteProp(SetProp(s, id, key, v), id, key) == Deleted(s)
  {
    assert s.props[(id, key) := v] - {(id, key)} == s.props;
  }

  // ---------------------------------------------------------------------------
  // Accounts: `Mica.get_account`

  /** The `(password, character_id)` row `get_account` returns. */
  datatype AccountRow = AccountRow(password: string, character: Id)

  predicate IsCharacter(s: Store, id: Id) {
    exists a :: a in s.accounts && a.character == id
  }

  /** `SELECT id FROM things WHERE name=? AND id IN (SELECT character_id FROM accounts)`. */
  function CharactersNamed(s: Store, things: seq<Thing>, name: string): (r: seq<Thing>)
    ensures forall t :: t in r <==> t in things && t.name == name && IsCharacter(s, t.id)
  {
    if |things| == 0 then []
    else (if things[0].name == name && IsCharacter(s, things[0].id) then [things[0]] else [])
         + CharactersNamed(s, things[1..], name)
  }

  /** `SELECT password, character_id FROM accounts WHERE id=?`. */
  function AccountsWithId(accounts: seq<Account>, id: Id): (r: seq<AccountRow>)
    ensures forall row :: row in r <==> exists a :: a in accounts && a.id == id && row == AccountRow(a.password, a.character)
  {
    if |accounts| == 0 then []
    else (if accounts[0].id == id then [AccountRow(accounts[0].password, accounts[0].character)] else [])
         + AccountsWithId(accounts[1..], id)
  }

  /** `SELECT password, character_id FROM accounts WHERE character_id=?`. */
  function AccountsOf(accounts: seq<Account>, character: Id): (r: seq<AccountRow>)
    ensures forall row :: row in r <==> exists a :: a in accounts && a.character == character && row == AccountRow(a.password, a.character)
  {
    if |accounts| == 0 then []
    else (if accounts[0].character == character then [AccountRow(accounts[0].password, accounts[0].character)] else [])
         + AccountsOf(accounts[1..], character)
  }

  /** `accounts.id` is the table's key, so the lookup at mica/core.py:246 finds at most one row. */
  lemma {:induction false} AtMostOneAccountWithId(accounts: seq<Account>, id: Id)
    requires forall i, j :: 0 <= i < j < |accounts| ==> accounts[i].id != accounts[j].id
    ensures |AccountsWithId(accounts, id)| <= 1
    ensures |AccountsWithId(accounts, id)| == 1 <==> exists a :: a in accounts && a.id == id
  {
    if |accounts| > 0 {
      AtMostOneAccountWithId(accounts[1..], id);
      if accounts[0].id == id {
        NoAccountWithId(accounts[1..], id);
      }
      assert accounts == [accounts[0]] + accounts[1..];
    }
  }

  lemma {:induction false} NoAccountWithId(accounts: seq<Account>, id: Id)
    requires forall k :: 0 <= k < |accounts| ==> accounts[k].id != id
    ensures AccountsWithId(accounts, id) == []
  {
    if |accounts| > 0 {
      NoAccountWithId(accounts[1..], id);
    }
  }

  /**
   * `get_account` as written: the second query at mica/core.py:246 matches the
   * character's Thing id against `accounts.id`, the account's own key, so it
   * returns whichever account happens to have that number. There is a row
   * exactly when one character has the name and some account's own id equals
   * that character's Thing id, and the row is that account's.
   */
  function GetAccountAsWritten(s: Store, name: string): (r: Option<AccountRow>)
    ensures r.Some? <==> |CharactersNamed(s, s.things, name)| == 1
                         && exists a :: a in s.accounts && a.id == CharactersNamed(s, s.things, name)[0].id
    ensures r.Some? ==> exists a :: a in s.accounts && a.id == CharactersNamed(s, s.things, name)[0].id
                                    && r.value == AccountRow(a.password, a.character)
  {
    match OneFromDb(CharactersNamed(s, s.things, name))
    case One(t) =>
      AtMostOneAccountWithId(s.accounts, t.id);
      (match OneFromDb(AccountsWithId(s.accounts, t.id))
       case One(row) =>
         assert row in AccountsWithId(s.accounts, t.id);
         Some(row)
       case _ => None)
    case _ => None
  }

  /**
   * `get_account` as intended: the unique account bound to the unique character
   * Thing with this name, or None. Several accounts bound to one character
   * (which the source would let escape as TooManyResults) also give None.
   */
  function GetAccount(s: Store, name: string): (r: Option<AccountRow>)
    ensures r.Some? ==> exists t :: t in s.things && t.name == name && t.id == r.value.character
    ensures r.Some? ==> exists a :: a in s.accounts && r.value == AccountRow(a.password, a.character)
    ensures r.Some? ==> Exists(s, r.value.character)
    ensures r.Some? <==> |CharactersNamed(s, s.things, name)| == 1
                         && |AccountsOf(s.accounts, CharactersNamed(s, s.things, name)[0].id)| == 1
  {
    match OneFromDb(CharactersNamed(s, s.things, name))
    case One(t) =>
      (match OneFromDb(AccountsOf(s.accounts, t.id))
       case One(row) =>
         assert row in AccountsOf(s.accounts, t.id);
         Some(row)
       case _ => None)
    case _ => None
  }

  /** A two-account store where account ids and character ids cross over. */
  const CrossedStore: Store := Tables([Thing(1, 1, None, "One"), Thing(5, 5, None, "Five")], map[],
                                      [Account(1, 5, "five-secret"), Account(2, 1, "one-secret")])

  /**
   * The query at mica/core.py:246 can hand back another character's account:
   * with account 1 bound to Thing 5 and account 2 bound to Thing 1 ("One"),
   * looking up "One" returns account 1's password and character 5, while the
   * intended lookup returns account 2's.
   */

  lemma GetAccountWrongRow()
    ensures GetAccountAsWritten(CrossedStore, "One") == Some(AccountRow("five-secret", 5))
    ensures GetAccount(CrossedStore, "One") == Some(AccountRow("one-secret", 1))
  {
    var s := CrossedStore;
    assert IsCharacter(s, 1) by { assert s.accounts[1] in s.accounts; }
    assert CharactersNamed(s, s.things[1..], "One") == [];
    assert CharactersNamed(s, s.things, "One") == [Thing(1, 1, None, "One")];
  }

  // ---------------------------------------------------------------------------
  // `Mica.setup_db`: the seed world

  const OneDesc := "A nameless, faceless, ageless, gender-neutral, culturally ambiguous embodiment of... well, it's not clear, really."
  const NexusDesc := "It is a place: that is about all you can be sure of."

  /** One (id 1) stands in the Nexus (id 2), which contains itself; account 1 is One's, password "potrzebie". */
  const Seed: Store := Tables(
    [Thing(1, 1, Some(2), "One"), Thing(2, 1, Some(2), "Nexus")],
    map[(1, "desc") := OneDesc, (2, "desc") := NexusDesc],
    [Account(1, 1, "potrzebie")])

  /** In the seed One stands in the Nexus, and the Nexus holds both Things. */
  lemma SeedWhereabouts()
    ensures GetThing(Seed, 2) == Some(Seed.things[1])
    ensures Location(Seed, 1) == Some(2)
    ensures ContentThings(Seed.things, 2) == Seed.things
    ensures forall d :: GetPropOr(Seed, 2, "desc", d) == NexusDesc
  {
    SeedPlaces();
    SeedNexusHolds();
    SeedNexusDesc();
  }

  lemma SeedPlaces()
    ensures GetThing(Seed, 2) == Some(Seed.things[1])
    ensures Location(Seed, 1) == Some(2)
  {
    GetThingUnique(Seed, Seed.things[0]);
    GetThingUnique(Seed, Seed.things[1]);
  }

  lemma SeedNexusHolds()
    ensures ContentThings(Seed.things, 2) == Seed.things
  {
    assert Seed.things[1..][1..] == [];
  }

  lemma SeedNexusDesc()
    ensures forall d :: GetPropOr(Seed, 2, "desc", d) == NexusDesc
  {
  }

  /** In the seed, "One" names exactly account 1's character, so both lookups agree. */
  lemma SeedAccount()
    ensures GetAccount(Seed, "One") == Some(AccountRow("potrzebie", 1))
    ensures GetAccountAsWritten(Seed, "One") == GetAccount(Seed, "One")
  {
    assert IsCharacter(Seed, 1) by { assert Seed.accounts[0] in Seed.accounts; }
    assert CharactersNamed(Seed, Seed.things[1..], "One") == [];
    assert CharactersNamed(Seed, Seed.things, "One") == [Seed.things[0]];
  }

  /** Nobody in the seed is called "Nobody": both lookups find no account. */
  lemma SeedNoAccount()
    ensures GetAccountAsWritten(Seed, "Nobody") == None
    ensures GetAccount(Seed, "Nobody") == None
  {
  }
}
