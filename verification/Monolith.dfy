/**
 * The earlier single-file server `mica.py`: a `things` table whose rows carry
 * their description in a `desc` column, `describe_thing`, and an echo-only
 * session (`on_connection`, `on_text`, `on_disconnection`).
 */
module Monolith {
  import opened Wrappers
  import opened Texts

  type Id = int

  /** A row of `things(id, owner_id, location_id, name, desc)`. */
  datatype Row = Row(id: Id, owner: Id, location: Option<Id>, name: string, desc: string)

  /** `id INTEGER PRIMARY KEY`: no two rows share an id. */
  predicate Keyed(rows: seq<Row>) {
    forall i, j :: 0 <= i < j < |rows| ==> rows[i].id != rows[j].id
  }

  type Table = rows: seq<Row> | Keyed(rows) witness []

  /** The tuple `describe_thing` returns: `(name, desc)` or `(name, desc, contents)`. */
  datatype Description = Brief(name: string, desc: string)
                       | Full(name: string, desc: string, contents: seq<Description>)

  /** The rows of `SELECT name, desc FROM things WHERE id=?`. */
  function RowsWithId(rows: seq<Row>, id: Id): (r: seq<Row>)
    ensures forall row :: row in r <==> row in rows && row.id == id
  {
    if |rows| == 0 then []
    else (if rows[0].id == id then [rows[0]] else []) + RowsWithId(rows[1..], id)
  }

  /** In a keyed table a row is the only one with its id (the source asserts `len(thing) <= 1`). */
  lemma {:induction false} OnlyRowWithId(rows: seq<Row>, row: Row)
    requires Keyed(rows) && row in rows
    ensures RowsWithId(rows, row.id) == [row]
  {
    if rows[0] == row {
      NoRowWithId(rows[1..], row.id);
    } else {
      OnlyRowWithId(rows[1..], row);
    }
  }

  lemma {:induction false} NoRowWithId(rows: seq<Row>, id: Id)
    requires forall k :: 0 <= k < |rows| ==> rows[k].id != id
    ensures RowsWithId(rows, id) == []
  {
    if |rows| > 0 {
      NoRowWithId(rows[1..], id);
    }
  }

  /** The rows located in `id` other than `id` itself, in table order. */
  function Inside(rows: seq<Row>, id: Id): (r: seq<Row>)
    ensures forall row :: row in r <==> row in rows && row.location == Some(id) && row.id != id
  {
    if |rows| == 0 then []
    else (if rows[0].location == Some(id) && rows[0].id != id then [rows[0]] else []) + Inside(rows[1..], id)
  }

  /**
   * `describe_thing(id, get_in)`: None exactly when no row has this id; the
   * bare (name, desc) pair when `get_in` is false; otherwise also a shallow
   * description of every Thing located here except the Thing itself. The
   * nested descriptions are asked for with `get_in` false, so the recursion is
   * one level deep and ends even when Things contain each other.
   */
  function DescribeThing(t: Table, id: Id, getIn: bool): (r: Option<Description>)
    ensures r.None? <==> forall row :: row in t ==> row.id != id
    ensures r.Some? ==> exists row :: row in t && row.id == id && r.value.name == row.name && r.value.desc == row.desc
    ensures r.Some? ==> r.value.name == RowsWithId(t, id)[0].name && r.value.desc == RowsWithId(t, id)[0].desc
    ensures r.Some? && !getIn ==> r.value.Brief?
    ensures r.Some? && getIn ==> r.value.Full? && Shallow(r.value.contents, Inside(t, id))
    decreases if getIn then 1 else 0, |t| + 1
  {
    var found := RowsWithId(t, id);
    if |found| == 0 then None
    else
      assert found[0] in found;
      if !getIn then Some(Brief(found[0].name, found[0].desc))
      else Some(Full(found[0].name, found[0].desc, DescribeContents(t, t, id)))
  }

  /** `ds` describes `rows` one for one, each by its name and description alone. */
  predicate Shallow(ds: seq<Description>, rows: seq<Row>) {
    |ds| == |rows| && forall i :: 0 <= i < |ds| ==> ds[i] == Brief(rows[i].name, rows[i].desc)
  }

  /** The loop at mica.py:60-62 over the rows of `rows` located in `id`. */
  function DescribeContents(t: Table, rows: seq<Row>, id: Id): (r: seq<Description>)
    requires forall row :: row in rows ==> row in t
    ensures Shallow(r, Inside(rows, id))
    decreases 1, |rows|
  {
    if |rows| == 0 then []
    else
      var rest := DescribeContents(t, rows[1..], id);
      if rows[0].location == Some(id) && rows[0].id != id then
        var d := DescribeThing(t, rows[0].id, false);
        OnlyRowWithId(t, rows[0]);
        ShallowCons(d.value, rows[0], rest, Inside(rows[1..], id));
        [d.value] + rest
      else rest
  }

  lemma ShallowCons(d: Description, row: Row, ds: seq<Description>, rows: seq<Row>)
    requires d == Brief(row.name, row.desc) && Shallow(ds, rows)
    ensures Shallow([d] + ds, [row] + rows)
  {
    forall i | 1 <= i < |ds| + 1
      ensures ([d] + ds)[i] == Brief(([row] + rows)[i].name, ([row] + rows)[i].desc)
    {
      assert ([d] + ds)[i] == ds[i - 1];
      assert ([row] + rows)[i] == rows[i - 1];
    }
  }

  /** In a keyed table the shallow description of a row's id is that row's name and description. */
  lemma DescribeOneRow(t: Table, row: Row)
    requires row in t
    ensures DescribeThing(t, row.id, false) == Some(Brief(row.name, row.desc))
  {
    OnlyRowWithId(t, row);
  }

  /** Every nested description is a leaf: descriptions are at most one level deep. */
  lemma DescriptionDepth(t: Table, id: Id, getIn: bool)
    requires DescribeThing(t, id, getIn).Some?
    ensures var d := DescribeThing(t, id, getIn).value;
            d.Full? ==> forall i :: 0 <= i < |d.contents| ==> d.contents[i].Brief?
  {
  }

  // ---------------------------------------------------------------------------
  // The echo session

  type Link = nat

  /** `client_states[link] = -1`: connected, not logged in. Nothing is written. */
  function OnConnection(states: map<Link, Id>, link: Link): (r: map<Link, Id>)
    ensures link in r && r[link] == -1
    ensures r.Keys == states.Keys + {link}
    ensures forall l :: l in states && l != link ==> r[l] == states[l]
  {
    states[link := -1]
  }

  /** `on_text` only echoes: the one line written is the received text plus the terminator. */
  function OnText(states: map<Link, Id>, link: Link, text: string): (written: seq<string>)
    requires link in states
    ensures |written| == 1 && EndsWithCrlf(written[0]) && written[0][..|written[0]| - 2] == text
  {
    [Line(text)]
  }

  /** `on_disconnection`: exactly this link's entry disappears. */
  function OnDisconnection(states: map<Link, Id>, link: Link): (r: map<Link, Id>)
    requires link in states
    ensures r.Keys == states.Keys - {link}
    ensures forall l :: l in r ==> r[l] == states[l]
  {
    states - {link}
  }

  /** A connection that comes and goes leaves the session table as it found it. */
  lemma ConnectThenDisconnect(states: map<Link, Id>, link: Link)
    requires link !in states
    ensures OnDisconnection(OnConnection(states, link), link) == states
  {
  }

  // ---------------------------------------------------------------------------
  // `setup_db`

  const OneDesc := "A nameless, faceless, ageless, gender-neutral, culturally ambiguous embodiment of... it's not clear, really.  Ultimate power over reality for one thing, but they don't seem to be trying to show this off."
  const NexusDesc := "It is a place: that is about all that can be ascertained."

  const Seed: Table := [Row(1, 1, Some(2), "One", OneDesc), Row(2, 1, Some(2), "Nexus", NexusDesc)]

  /** The Nexus sits inside itself, yet its description lists only One. */
  lemma SeedNexus()
    ensures DescribeThing(Seed, 2, true) == Some(Full("Nexus", NexusDesc, [Brief("One", OneDesc)]))
  {
    assert Inside(Seed[1..], 2) == [] by {
      assert Seed[1..][1..] == [];
    }
    assert Inside(Seed, 2) == [Seed[0]];
    OnlyRowWithId(Seed, Seed[1]);
    var d := DescribeThing(Seed, 2, true).value;
    assert d.contents == [Brief("One", OneDesc)] by {
      assert Shallow(d.contents, [Seed[0]]);
    }
  }
}
