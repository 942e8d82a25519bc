/**
 * Name resolution from a Thing's point of view: `Thing.resolve_many_things`,
 * `Thing.resolve_one_thing` and `Mica.pov_get_thing_by_name`.
 */
module Resolver {
  import opened Wrappers
  import opened Text
  import opened Store
  import opened Texts

  /** A `#n` token: the third rule, tried only after "me" and "here". */
  predicate IsIdToken(token: string) {
    token != "me" && token != "here" && |token| > 0 && token[0] == '#'
  }

  /** A token that falls through to the substring rule. */
  predicate IsNameToken(token: string) {
    token != "me" && token != "here" && !IsIdToken(token)
  }

  /**
   * Ids of the Things located in `holder` whose name contains `token`, in
   * store order; with keyed rows, each id at most once.
   */
  function NameMatches(things: seq<Thing>, holder: Id, token: string): (r: seq<Id>)
    ensures forall x :: x in r <==>
              exists t :: t in things && t.id == x && t.location == Some(holder) && Contains(t.name, token)
    ensures (forall i, j :: 0 <= i < j < |things| ==> things[i].id != things[j].id) ==>
              forall i, j :: 0 <= i < j < |r| ==> r[i] != r[j]
  {
    if |things| == 0 then []
    else
      var t := things[0];
      var rest := NameMatches(things[1..], holder, token);
      assert (forall i, j :: 0 <= i < j < |things| ==> things[i].id != things[j].id) ==> t.id !in rest by {
        if (forall i, j :: 0 <= i < j < |things| ==> things[i].id != things[j].id) && t.id in rest {
          assert false;
        }
      }
      (if t.location == Some(holder) && Contains(t.name, token) then [t.id] else []) + rest
  }

  /** A `#n` token whose number parses but cannot be bound as a query parameter. */
  predicate OverflowingToken(token: string) {
    IsIdToken(token) && ParseInt(token[1..]).Some? && !Bindable(ParseInt(token[1..]).value)
  }

  /**
   * `resolve_many_things`: the candidate ids for `token`, or None (the source's
   * bare `return None`). The rules are tried in order and the first that
   * applies decides:
   *   "me"   -> the actor itself;
   *   "here" -> the actor's location, or nothing when it has none;
   *   "#n"   -> Thing n if it exists; None when it does not or n is malformed;
   *             OverflowError, uncaught, when n does not fit in 64 bits;
   *   other  -> the Things the actor carries whose name contains the token, or
   *             None when the actor has no location.
   */
  function ResolveMany(s: Store, actor: Id, token: string): (r: Binding<Option<seq<Id>>>)
    ensures r.Overflow? <==> OverflowingToken(token)
    ensures token == "me" ==> r == Bound(Some([actor]))
    ensures token == "here" ==> r.Bound? && r.value.Some?
                                && (Location(s, actor).Some? ==> r.value.value == [Location(s, actor).value])
                                && (Location(s, actor).None? ==> r.value.value == [])
    ensures IsIdToken(token) && !OverflowingToken(token) ==>
              (r.value.Some? <==> ParseInt(token[1..]).Some? && Exists(s, ParseInt(token[1..]).value))
              && (r.value.Some? ==> r.value.value == [ParseInt(token[1..]).value])
    ensures IsNameToken(token) ==>
              r.Bound? && (r.value.Some? <==> Location(s, actor).Some?)
              && (r.value.Some? ==> forall x :: x in r.value.value <==>
                    exists t :: t in s.things && t.id == x && t.location == Some(actor) && Contains(t.name, token))
    ensures r.Bound? && r.value.Some? && (token != "me" || Exists(s, actor)) ==>
              forall x :: x in r.value.value ==> Exists(s, x)
  {
    // The source's `thing.strip()` discards its result, so the token is used unstripped.
    if token == "me" then Bound(Some([actor]))
    else if token == "here" then
      match Location(s, actor)
      case Some(l) => Bound(Some([l]))
      case None => Bound(Some([]))
    else if |token| > 0 && token[0] == '#' then
      // `int(thing[1:])` with a malformed number raises ValueError, which the
      // handler at mica/core.py:122 (`except ValueError():`) cannot catch; the
      // intended result, None, is modelled. A well-formed number is bound into
      // the query at mica/core.py:126, which raises OverflowError when it does
      // not fit; only NotEnoughResultsException is caught there.
      match ParseInt(token[1..])
      case None => Bound(None)
      case Some(n) =>
        if !Bindable(n) then Overflow
        else if Exists(s, n) then Bound(Some([n])) else Bound(None)
    else
      // The empty token would make `thing[0]` raise IndexError; it is taken by
      // the substring rule, which every name satisfies. Lines 134-136 pair the
      // name and id the wrong way round and test `thing in <id>`; the evident
      // intent, keeping the ids of carried Things whose name contains the
      // token, is modelled.
      match Location(s, actor)
      case None => Bound(None)
      case Some(_) => Bound(Some(NameMatches(s.things, actor, token)))
  }

  /**
   * `resolve_one_thing`: the 0/1/many policy of `_one_from_db` applied to the
   * candidates, with no candidate list at all counting as none; an
   * OverflowError from the candidates passes through.
   */
  function ResolveOne(s: Store, actor: Id, token: string): (r: Binding<Cardinality<Id>>)
    ensures r.Overflow? <==> OverflowingToken(token)
    ensures r.Bound? ==>
              && (r.value.NotEnough? <==> ResolveMany(s, actor, token).value.None?
                                          || ResolveMany(s, actor, token).value.value == [])
              && (r.value.TooMany? <==> ResolveMany(s, actor, token).value.Some?
                                        && |ResolveMany(s, actor, token).value.value| > 1)
              && (r.value.One? ==> ResolveMany(s, actor, token) == Bound(Some([r.value.row])))
  {
    // The final `assert results[0] is int` at mica/core.py:149 would always
    // fail; the doc-comment's single id is returned.
    match ResolveMany(s, actor, token)
    case Overflow => Overflow
    case Bound(None) => Bound(NotEnough)
    case Bound(Some(ids)) => Bound(OneFromDb(ids))
  }

  /** "me" always names exactly the actor. */
  lemma ResolveMe(s: Store, actor: Id)
    ensures ResolveOne(s, actor, "me") == Bound(One(actor))
  {
  }

  /**
   * "#n", with n written as `%d` would, names Thing n exactly when it exists,
   * and raises OverflowError when n does not fit in 64 bits.
   */
  lemma ResolveHash(s: Store, actor: Id, n: Id)
    ensures ResolveOne(s, actor, "#" + ShowInt(n)) ==
              if !Bindable(n) then Overflow else if Exists(s, n) then Bound(One(n)) else Bound(NotEnough)
  {
    var token := "#" + ShowInt(n);
    assert token[1..] == ShowInt(n);
    ParseShowInt(n);
    assert IsIdToken(token);
  }

  /**
   * `pov_get_thing_by_name`'s outcome: an id, the arguments of the
   * CommandProcessingError it raises, or the OverflowError it lets through.
   */
  datatype Resolution = Resolved(id: Id) | Unresolved(error: seq<string>) | Overflowed

  /**
   * `pov_get_thing_by_name`: resolve one Thing from the actor's point of view,
   * turning NotEnough into `thing404` naming the token and TooMany into
   * `thingOverflow`, each as a single-argument CommandProcessingError. Its
   * handlers catch neither OverflowError nor anything else.
   */
  function PovGetThingByName(s: Store, actor: Id, token: string): (r: Resolution)
    ensures r.Overflowed? <==> OverflowingToken(token)
    ensures r.Resolved? <==> ResolveOne(s, actor, token).Bound? && ResolveOne(s, actor, token).value.One?
    ensures r.Resolved? ==> ResolveMany(s, actor, token) == Bound(Some([r.id]))
    ensures ResolveOne(s, actor, token) == Bound(NotEnough) ==> r == Unresolved([Thing404(token)])
    ensures ResolveOne(s, actor, token) == Bound(TooMany) ==> r == Unresolved([ThingOverflow])
  {
    // The source calls `self.resolve_one_thing_for(pov, thing)`, which Mica
    // does not define; resolving from the character `pov` is the intent.
    match ResolveOne(s, actor, token)
    case Overflow => Overflowed
    case Bound(One(id)) => Resolved(id)
    case Bound(NotEnough) => Unresolved([Thing404(token)])
    case Bound(TooMany) => Unresolved([ThingOverflow])
  }
}
