/**
 * The command set of `mica/commands.py`: `implement` registers `look`, which
 * describes a Thing named by its argument, or the actor's location when the
 * argument is blank.
 */
module Commands {
  import opened Wrappers
  import opened Text
  import opened Store
  import opened Texts
  import opened Resolver
  import opened Session

  function DisplayNames(ts: seq<Thing>): (r: seq<string>)
    ensures |r| == |ts| && forall i :: 0 <= i < |ts| ==> r[i] == DisplayName(ts[i])
  {
    if |ts| == 0 then [] else [DisplayName(ts[0])] + DisplayNames(ts[1..])
  }

  /**
   * What `look` writes about an existing Thing, in this order: its display
   * name, its `desc` property (or the default), and — only when the Thing
   * contains anything — the comma-separated display names of its contents.
   */
  function Description(s: Store, t: Thing): (r: seq<string>)
    ensures 2 <= |r| <= 3
    ensures r[0] == Line(DisplayName(t))
    ensures r[1] == Line(GetPropOr(s, t.id, "desc", DescMissing))
    ensures |r| == 3 <==> |ContentThings(s.things, t.id)| > 0
    ensures |r| == 3 ==> r[2] == Line(JoinWith(DisplayNames(ContentThings(s.things, t.id)), ", "))
  {
    var names := DisplayNames(ContentThings(s.things, t.id));
    var contents := JoinWith(names, ", ");
    JoinWithEmpty(names, ", ");
    [Line(DisplayName(t)), Line(GetPropOr(s, t.id, "desc", DescMissing))]
    + (if |contents| > 0 then [Line(contents)] else [])
  }

  /**
   * `do_look`. The argument is stripped; a non-blank one is resolved from the
   * actor's point of view and a failure is raised as the resolver's
   * CommandProcessingError before anything is written. A blank one means the
   * actor's location; with none, `youAreNowhere` is written — without a line
   * terminator, as the source does — and nothing else. When the actor's own
   * Thing is gone, `me` is None and the handler raises on it; a `#n` that does
   * not fit in 64 bits raises the OverflowError of its query. Neither is a
   * CommandProcessingError. `look` never changes the store.
   */
  function Look(s: Store, actor: Id, arg: string): (o: Outcome)
    ensures o.store == s
    ensures Strip(arg) != "" && PovGetThingByName(s, actor, Strip(arg)).Unresolved? ==>
              o.written == [] && o.ending == ProcessingError(PovGetThingByName(s, actor, Strip(arg)).error)
    ensures Strip(arg) != "" && PovGetThingByName(s, actor, Strip(arg)).Resolved?
            && Exists(s, PovGetThingByName(s, actor, Strip(arg)).id) ==>
              o.ending.Returned? && o.written == Description(s, GetThing(s, PovGetThingByName(s, actor, Strip(arg)).id).value)
    ensures Strip(arg) != "" && PovGetThingByName(s, actor, Strip(arg)).Overflowed? ==>
              o.written == [] && o.ending.Uncaught?
    ensures Strip(arg) == "" && !Exists(s, actor) ==> o.written == [] && o.ending.Uncaught?
    ensures Strip(arg) == "" && Exists(s, actor) && Location(s, actor).None? ==>
              o.written == [YouAreNowhere] && o.ending.Returned?
    ensures Strip(arg) == "" && Location(s, actor).Some? ==>
              o.ending.Returned? && o.written == Description(s, GetThing(s, Location(s, actor).value).value)
    ensures o.ending.ProcessingError? ==> Strip(arg) != "" && PovGetThingByName(s, actor, Strip(arg)).Unresolved?
    ensures o.ending.Uncaught? ==> !Exists(s, actor) || OverflowingToken(Strip(arg))
  {
    // The source passes bare ids where it calls Thing methods (`tgt`, the
    // contents) and calls a `display_name` Thing does not define; the intent,
    // describing the Thing with that id by "name [id]", is modelled.
    var text := Strip(arg);
    if text != "" then
      match PovGetThingByName(s, actor, text)
      case Unresolved(e) => Outcome(s, [], ProcessingError(e))
      // The OverflowError of an unbindable `#n` escapes every handler.
      case Overflowed => Outcome(s, [], Uncaught)
      case Resolved(id) =>
        match GetThing(s, id)
        case Some(t) => Outcome(s, Description(s, t), Returned)
        // Only "me" can name a Thing that does not exist, when the actor
        // itself is gone; describing None raises, as `me.location()` does.
        case None => Outcome(s, [], Uncaught)
    else if !Exists(s, actor) then
      // `me` is None (mica/commands.py:13), so `me.location()` raises AttributeError.
      Outcome(s, [], Uncaught)
    else
      match Location(s, actor)
      case None => Outcome(s, [YouAreNowhere], Returned)
      case Some(l) => Outcome(s, Description(s, GetThing(s, l).value), Returned)
  }

  /** `commands.implement(m)`: registers `look` after whatever is already registered. */
  function Implement(cmds: seq<Command>): (r: seq<Command>)
    ensures |r| == |cmds| + 1 && r[..|cmds|] == cmds && r[|cmds|].name == "look"
  {
    Register(cmds, "look", Look)
  }

  /** The server as `mica/__main__.py` assembles it: the seed world, `look`, no links yet. */
  function Server(): (m: Mica)
    ensures m.store == Seed && |m.commands| == 1 && m.sessions == map[]
  {
    Mica(Seed, Implement([]), map[])
  }

  /** In the seed world One, looking around, sees the Nexus — which lists itself among its contents. */
  lemma SeedLookAround()
    ensures Look(Seed, 1, " ").written ==
            [Line("Nexus [2]"), Line(NexusDesc), Line("One [1], Nexus [2]")]
  {
    SeedLookTarget();
    SeedNexusDescription();
  }

  lemma SeedLookTarget()
    ensures Look(Seed, 1, " ").written == Description(Seed, Seed.things[1])
  {
    BlankStrips();
    SeedPlaces();
    assert Exists(Seed, 1) by { GetThingUnique(Seed, Seed.things[0]); }
    var o := Look(Seed, 1, " ");
    assert o.written == Description(Seed, GetThing(Seed, Location(Seed, 1).value).value);
  }

  /** A single space strips to nothing. */
  lemma BlankStrips()
    ensures Strip(" ") == ""
  {
    assert IsSpace(' ');
    assert TrimStart(" ") == TrimStart("");
  }

  lemma SeedNexusDescription()
    ensures Description(Seed, Seed.things[1]) == [Line("Nexus [2]"), Line(NexusDesc), Line("One [1], Nexus [2]")]
  {
    SeedWhereabouts();
    SeedListing();
  }

  lemma SeedListing()
    ensures DisplayName(Seed.things[1]) == "Nexus [2]"
    ensures JoinWith(DisplayNames(Seed.things), ", ") == "One [1], Nexus [2]"
  {
    SeedDisplayNames();
    assert ["One [1]", "Nexus [2]"][1..] == ["Nexus [2]"];
  }

  /** The display names of the two seeded Things. */
  lemma SeedDisplayNames()
    ensures DisplayName(Seed.things[0]) == "One [1]"
    ensures DisplayName(Seed.things[1]) == "Nexus [2]"
    ensures DisplayNames(Seed.things) == ["One [1]", "Nexus [2]"]
  {
    SeedIds();
    assert DisplayName(Seed.things[0]) == "One [1]";
    assert DisplayName(Seed.things[1]) == "Nexus [2]";
  }

  lemma SeedIds()
    ensures ShowInt(1) == "1" && ShowInt(2) == "2"
  {
    assert DigitChar(1) == '1' && DigitChar(2) == '2';
  }

  /** A new link must log in first: "look" is not understood until "connect One potrzebie" succeeds. */
  lemma SeedSession(link: Link)
    ensures var m0 := OnConnection(Server(), link).mica;
            && OnText(m0, link, "look").written == [Line(Cmd404)]
            && OnText(m0, link, "connect One hunter2").written == [Line(BadLogin)]
            && OnText(m0, link, "connect One hunter2").mica.sessions[link] == LoggedOut
            && OnText(m0, link, "connect One potrzebie").mica.sessions[link] == 1
  {
    var m0 := OnConnection(Server(), link).mica;
    assert !IsPrefix(Connect, "look");
    SeedWrongPassword(m0, link);
    SeedRightPassword(m0, link);
  }

  /** The two login lines of the seed session, taken apart. */
  lemma SeedLoginTexts()
    ensures "connect One hunter2" == Connect + " " + "One" + " " + "hunter2"
    ensures "connect One potrzebie" == Connect + " " + "One" + " " + "potrzebie"
    ensures ' ' !in "One" && ' ' !in "hunter2" && ' ' !in "potrzebie"
  {
  }

  lemma SeedWrongPassword(m: Mica, link: Link)
    requires m.store == Seed && link in m.sessions && m.sessions[link] == LoggedOut
    ensures OnText(m, link, "connect One hunter2").written == [Line(BadLogin)]
    ensures OnText(m, link, "connect One hunter2").mica.sessions == m.sessions
  {
    SeedLoginTexts();
    SeedAccount();
    ConnectNamePassword(m, link, "One", "hunter2");
  }

  lemma SeedRightPassword(m: Mica, link: Link)
    requires m.store == Seed && link in m.sessions && m.sessions[link] == LoggedOut
    ensures OnText(m, link, "connect One potrzebie").mica.sessions[link] == 1
  {
    SeedLoginTexts();
    SeedAccount();
    GetThingUnique(Seed, Seed.things[0]);
    ConnectNamePassword(m, link, "One", "potrzebie");
  }

  /**
   * A name without an account: "connect Nobody hunter2" aborts the event as
   * the code is written, where the intended login answers `badLogin`.
   */
  lemma SeedUnknownName(m: Mica, link: Link)
    requires m.store == Seed && link in m.sessions && m.sessions[link] == LoggedOut
    ensures OnText(m, link, "connect Nobody hunter2").aborted
    ensures TryLoginCorrected(m, link, "Nobody hunter2").written == [Line(BadLogin)]
  {
    SeedUnknownTexts();
    SeedNoAccount();
    ConnectNamePassword(m, link, "Nobody", "hunter2");
    UnknownWords(GetAccount, m, link, "Nobody", "hunter2");
  }

  /** The unknown-name login line, taken apart. */
  lemma SeedUnknownTexts()
    ensures "connect Nobody hunter2" == Connect + " " + "Nobody" + " " + "hunter2"
    ensures "Nobody hunter2" == "Nobody" + " " + "hunter2"
    ensures ' ' !in "Nobody" && ' ' !in "hunter2"
  {
  }

  /**
   * `look #n` by anyone, with n outside SQLite's 64-bit range, raises the
   * OverflowError of the id query and writes nothing.
   */
  lemma LookUnbindableId(s: Store, actor: Id, n: Id)
    requires !Bindable(n)
    ensures Look(s, actor, "#" + ShowInt(n)) == Outcome(s, [], Uncaught)
  {
    var token := "#" + ShowInt(n);
    assert token[|token| - 1] == ShowInt(n)[|ShowInt(n)| - 1];
    StripUnpadded(token);
    ResolveHash(s, actor, n);
  }

  /**
   * On the assembled server, dispatching "look #n" with n outside SQLite's
   * 64-bit range aborts the event: the OverflowError reaches the event loop,
   * and nothing is written or changed. `Session.OnText` hands a logged-in
   * link's line to exactly this dispatch.
   */
  lemma ServerLookUnbindableId(s: Store, actor: Id, n: Id)
    requires !Bindable(n)
    ensures Dispatch(Server().commands, s, actor, "look " + "#" + ShowInt(n)) == Dispatched(s, [], true)
  {
    var text := "look " + "#" + ShowInt(n);
    var cmds := Server().commands;
    LookHashText(ShowInt(n));
    assert cmds == [Command("look", Look)];
    assert FirstMatch(cmds, text) == Some(0);
    LookUnbindableId(s, actor, n);
    assert cmds[0].run(s, actor, "#" + ShowInt(n)) == Outcome(s, [], Uncaught);
    assert ErrorLines(Uncaught) == [];
  }

  /** "look #" followed by a word matches `look`, which receives "#" and the word. */
  lemma LookHashText(word: string)
    ensures IsPrefix("look", "look " + "#" + word)
    ensures DropFrom("look " + "#" + word, |"look"| + 1) == "#" + word
  {
    assert ("look " + "#" + word)[5..] == "#" + word;
  }
}
