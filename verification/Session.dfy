/**
 * The connection side of `Mica` in `mica/core.py`: the ordered command
 * registry built by `Mica.command`, the per-link state kept in
 * `client_states`, and the event handlers `on_connection`, `on_text`,
 * `_try_login` and `on_disconnection`. Each handler returns the new server
 * state and the strings written to the link, in order.
 */
module Session {
  import opened Wrappers
  import opened Text
  import opened Store
  import opened Texts

  /**
   * How a command handler ended: it returned, it raised CommandProcessingError
   * with these arguments, or it raised something else, which nothing between
   * the handler and the event loop of `mica/__main__.py` catches.
   */
  datatype Ending = Returned | ProcessingError(args: seq<string>) | Uncaught

  /**
   * What a command handler did: the store it leaves behind, the strings it
   * wrote, and how it ended. Writes made before a raise stay written.
   */
  datatype Outcome = Outcome(store: Store, written: seq<string>, ending: Ending)

  /** A command handler, called with the store, the actor's id and the text after the command name. */
  type Handler = (Store, Id, string) -> Outcome

  /** One `(command_name, function)` entry of `Mica._commands`. */
  datatype Command = Command(name: string, run: Handler)

  /** Links are opaque, unique and stable; any index type serves. */
  type Link = nat

  /** The `'character'` value of a link that has not logged in yet. */
  const LoggedOut: Id := -1

  datatype Mica = Mica(store: Store, commands: seq<Command>, sessions: map<Link, Id>)

  /**
   * The server state after an event, what was written to the event's link,
   * and whether an exception escaped the handler — which ends the server, since
   * the event loop catches nothing. An aborted event's state is the state at
   * the raise.
   */
  datatype Reply = Reply(mica: Mica, written: seq<string>, aborted: bool)

  // ---------------------------------------------------------------------------
  // The command registry

  /** `Mica.command(name)(fn)`: appends, so registration order is kept. */
  function Register(cmds: seq<Command>, name: string, run: Handler): (r: seq<Command>)
    ensures |r| == |cmds| + 1 && r[..|cmds|] == cmds
    ensures r[|cmds|].name == name && r[|cmds|].run == run
  {
    cmds + [Command(name, run)]
  }

  /**
   * The loop at mica/core.py:292-293: the index of the first command, in
   * registration order, whose name is a textual prefix of the line. There is
   * no word boundary: "look" also matches "lookout".
   */
  function FirstMatch(cmds: seq<Command>, text: string): (r: Option<nat>)
    ensures r.Some? ==> r.value < |cmds| && IsPrefix(cmds[r.value].name, text)
    ensures r.Some? ==> forall j :: 0 <= j < r.value ==> !IsPrefix(cmds[j].name, text)
    ensures r.None? <==> forall j :: 0 <= j < |cmds| ==> !IsPrefix(cmds[j].name, text)
  {
    if |cmds| == 0 then None
    else if IsPrefix(cmds[0].name, text) then Some(0)
    else
      match FirstMatch(cmds[1..], text)
      case None => None
      case Some(i) => Some(i + 1)
  }

  /**
   * Registering a command later never takes a line away from an earlier one,
   * and it receives exactly the lines no earlier command matches.
   */
  lemma RegisterKeepsEarlierMatches(cmds: seq<Command>, name: string, run: Handler, text: string)
    ensures FirstMatch(cmds, text).Some? ==> FirstMatch(Register(cmds, name, run), text) == FirstMatch(cmds, text)
    ensures FirstMatch(cmds, text).None? ==>
              FirstMatch(Register(cmds, name, run), text) == (if IsPrefix(name, text) then Some(|cmds|) else None)
  {
    FirstMatchAppend(cmds, Command(name, run), text);
  }

  /** The first match in a list with one command appended, by induction on the list. */
  lemma {:induction false} FirstMatchAppend(cmds: seq<Command>, c: Command, text: string)
    ensures FirstMatch(cmds + [c], text) ==
              if FirstMatch(cmds, text).Some? then FirstMatch(cmds, text)
              else if IsPrefix(c.name, text) then Some(|cmds|) else None
  {
    if |cmds| > 0 && !IsPrefix(cmds[0].name, text) {
      assert (cmds + [c])[1..] == cmds[1..] + [c];
      FirstMatchAppend(cmds[1..], c, text);
    }
  }

  /** Python's `repr` of a tuple of plain strings: `('a', 'b')`, with the trailing comma of `('a',)`. */
  function ArgsRepr(args: seq<string>): (r: string)
    ensures |r| >= 2 && r[0] == '(' && r[|r| - 1] == ')'
    ensures |args| == 0 <==> r == "()"
    ensures |args| >= 1 ==> IsPrefix("('" + args[0] + "'", r)
    ensures |args| == 1 <==> |r| >= 3 && r[|r| - 2] == ','
  {
    var q := Quoted(args);
    if |args| == 1 then "(" + q[0] + ",)"
    else if |args| == 0 then "(" + JoinWith(q, ", ") + ")"
    else
      var j := JoinWith(q, ", ");
      JoinWithAppend(q[..|q| - 1], ", ", q[|q| - 1]);
      assert q[..|q| - 1] + [q[|q| - 1]] == q;
      assert j[|j| - 1] == '\'';
      "(" + j + ")"
  }

  function Quoted(args: seq<string>): (r: seq<string>)
    ensures |r| == |args|
    ensures forall i :: 0 <= i < |r| ==> r[i] == "'" + args[i] + "'"
  {
    if |args| == 0 then [] else ["'" + args[0] + "'"] + Quoted(args[1..])
  }

  /**
   * The line written for a CommandProcessingError: its one argument as the
   * message, an argument dump when there are several, a generic text when there
   * are none.
   */
  function ErrorLine(args: seq<string>): (r: string)
    ensures EndsWithCrlf(r)
    ensures |args| == 1 ==> r == Line(args[0])
    ensures |args| > 1 ==> r == Line(CmdErrWithArgs(ArgsRepr(args)))
    ensures |args| == 0 ==> r == Line(CmdErrUnspecified)
  {
    if |args| == 1 then Line(args[0])
    else if |args| > 1 then Line(CmdErrWithArgs(ArgsRepr(args)))
    else Line(CmdErrUnspecified)
  }

  /** The lines `on_text` adds after a handler: one for a CommandProcessingError, none otherwise. */
  function ErrorLines(e: Ending): (r: seq<string>)
    ensures e.ProcessingError? <==> |r| == 1
    ensures e.ProcessingError? ==> r == [ErrorLine(e.args)]
  {
    match e
    case ProcessingError(args) => [ErrorLine(args)]
    case _ => []
  }

  datatype Dispatched = Dispatched(store: Store, written: seq<string>, aborted: bool)

  /**
   * Authenticated input (mica/core.py:292-305): the first matching command runs
   * once on the text after its name and one separator character, its
   * CommandProcessingError becomes one error line after what it wrote, and any
   * other exception escapes; with no match, `cmd404` is written and nothing
   * else happens.
   */
  function Dispatch(cmds: seq<Command>, s: Store, actor: Id, text: string): (r: Dispatched)
    ensures FirstMatch(cmds, text).None? ==> r == Dispatched(s, [Line(Cmd404)], false)
    ensures FirstMatch(cmds, text).Some? ==>
              var c := cmds[FirstMatch(cmds, text).value];
              var o := c.run(s, actor, DropFrom(text, |c.name| + 1));
              && r.store == o.store && r.written == o.written + ErrorLines(o.ending)
              && (r.aborted <==> o.ending.Uncaught?)
  {
    match FirstMatch(cmds, text)
    case None => Dispatched(s, [Line(Cmd404)], false)
    case Some(i) =>
      var o := cmds[i].run(s, actor, DropFrom(text, |cmds[i].name| + 1));
      Dispatched(o.store, o.written + ErrorLines(o.ending), o.ending.Uncaught?)
  }

  // ---------------------------------------------------------------------------
  // Logging in

  /** How `_try_login` finds the account for a name. */
  type AccountLookup = (Store, string) -> Option<AccountRow>

  /**
   * `args` is `<name> <password>` split on single spaces, and `lookup` gives
   * the name an account row with that password and character `c`.
   */
  predicate AcceptsVia(lookup: AccountLookup, s: Store, args: string, c: Id) {
    var parts := SplitOn(args, ' ');
    |parts| == 2 && lookup(s, parts[0]) == Some(AccountRow(parts[1], c))
  }

  /** Acceptance as the program decides it, through `get_account` as written. */
  predicate Accepts(s: Store, args: string, c: Id) {
    AcceptsVia(GetAccountAsWritten, s, args, c)
  }

  /** The login arguments split into exactly two parts exactly when they hold exactly one space. */
  lemma LoginArgsShape(args: string)
    ensures |SplitOn(args, ' ')| == 2 <==> Count(args, ' ') == 1
  {
    SplitCount(args, ' ');
  }

  /** The arguments are two space-separated words and `lookup` finds no account for the first. */
  predicate UnknownVia(lookup: AccountLookup, s: Store, args: string) {
    var parts := SplitOn(args, ' ');
    |parts| == 2 && lookup(s, parts[0]).None?
  }

  /** An unknown name, as the program decides it. */
  predicate Unknown(s: Store, args: string) {
    UnknownVia(GetAccountAsWritten, s, args)
  }

  /**
   * `_try_login` with the account lookup as a parameter, as written. The link
   * becomes logged in as character `c`, silently, exactly when the arguments
   * are accepted for `c` and Thing `c` exists. Two events abort with nothing
   * written or changed: a name without an account, whose None the code indexes
   * at mica/core.py:324, and an accepted character that does not exist, which
   * fails the assert at mica/core.py:325. Otherwise nothing changes and one
   * line says why: the usage text when there are not exactly two
   * space-separated parts, `badLogin` when the password is wrong.
   */
  function TryLoginVia(lookup: AccountLookup, m: Mica, link: Link, args: string): (r: Reply)
    requires link in m.sessions
    ensures r.mica.store == m.store && r.mica.commands == m.commands
    ensures r.mica.sessions.Keys == m.sessions.Keys
    ensures forall c :: AcceptsVia(lookup, m.store, args, c) && Exists(m.store, c) ==>
              r.mica.sessions == m.sessions[link := c] && r.written == [] && !r.aborted
    ensures forall c :: AcceptsVia(lookup, m.store, args, c) && !Exists(m.store, c) ==>
              r.mica == m && r.written == [] && r.aborted
    ensures UnknownVia(lookup, m.store, args) ==> r.mica == m && r.written == [] && r.aborted
    ensures (forall c :: !AcceptsVia(lookup, m.store, args, c)) && !UnknownVia(lookup, m.store, args) ==>
              r.mica == m && !r.aborted
    ensures (forall c :: !AcceptsVia(lookup, m.store, args, c)) && |SplitOn(args, ' ')| != 2 ==>
              r.written == [Line(CmdSyntax(ConnectUsage))]
    ensures (forall c :: !AcceptsVia(lookup, m.store, args, c)) && |SplitOn(args, ' ')| == 2
            && !UnknownVia(lookup, m.store, args) ==>
              r.written == [Line(BadLogin)]
    ensures r.mica.sessions[link] != m.sessions[link] ==> Exists(m.store, r.mica.sessions[link])
  {
    var parts := SplitOn(args, ' ');
    if |parts| != 2 then
      Reply(m, [Line(CmdSyntax(ConnectUsage))], false)
    else
      match lookup(m.store, parts[0])
      case None => Reply(m, [], true)
      case Some(acct) =>
        if acct.password == parts[1] then
          assert AcceptsVia(lookup, m.store, args, acct.character);
          if Exists(m.store, acct.character) then
            Reply(m.(sessions := m.sessions[link := acct.character]), [], false)
          else
            Reply(m, [], true)
        else
          Reply(m, [Line(BadLogin)], false)
  }

  /** `_try_login` as the program runs it: the account comes from `get_account` as written. */
  function TryLogin(m: Mica, link: Link, args: string): (r: Reply)
    requires link in m.sessions
    ensures forall c :: Accepts(m.store, args, c) && Exists(m.store, c) ==>
              r.mica.sessions == m.sessions[link := c] && r.written == [] && !r.aborted
    ensures forall c :: Accepts(m.store, args, c) && !Exists(m.store, c) ==> r.mica == m && r.aborted
    ensures Unknown(m.store, args) ==> r.mica == m && r.written == [] && r.aborted
    ensures (forall c :: !Accepts(m.store, args, c)) && !Unknown(m.store, args) ==>
              r.mica == m && !r.aborted && |r.written| == 1
  {
    var r := TryLoginVia(GetAccountAsWritten, m, link, args);
    assert forall c :: Accepts(m.store, args, c) == AcceptsVia(GetAccountAsWritten, m.store, args, c);
    r
  }

  /**
   * `_try_login` as intended: an unknown name is a bad login, and over the
   * corrected account lookup the account found is always bound to an existing
   * character, so the event never aborts. A link logs in exactly as the name's
   * own account allows; otherwise one line says why.
   */
  function TryLoginCorrected(m: Mica, link: Link, args: string): (r: Reply)
    requires link in m.sessions
    ensures !r.aborted
    ensures forall c :: AcceptsVia(GetAccount, m.store, args, c) ==>
              r.mica.sessions == m.sessions[link := c] && r.written == []
    ensures (forall c :: !AcceptsVia(GetAccount, m.store, args, c)) ==> r.mica == m && |r.written| == 1
    ensures UnknownVia(GetAccount, m.store, args) ==> r.written == [Line(BadLogin)]
  {
    var r := TryLoginVia(GetAccount, m, link, args);
    if r.aborted then
      Reply(m, [Line(BadLogin)], false)
    else
      r
  }

  // ---------------------------------------------------------------------------
  // Link events

  /** `on_connection`: the link starts logged out and is greeted. */
  function OnConnection(m: Mica, link: Link): (r: Reply)
    ensures link in r.mica.sessions && r.mica.sessions[link] == LoggedOut
    ensures r.mica.sessions.Keys == m.sessions.Keys + {link}
    ensures forall l :: l in m.sessions && l != link ==> r.mica.sessions[l] == m.sessions[l]
    ensures r.mica.store == m.store && r.mica.commands == m.commands
    ensures r.written == [Line(Welcome)] && !r.aborted
  {
    Reply(m.(sessions := m.sessions[link := LoggedOut]), [Line(Welcome)], false)
  }

  /** `on_disconnection`: exactly this link's entry disappears. */
  function OnDisconnection(m: Mica, link: Link): (r: Mica)
    requires link in m.sessions
    ensures r.sessions.Keys == m.sessions.Keys - {link}
    ensures forall l :: l in r.sessions ==> r.sessions[l] == m.sessions[l]
    ensures r.store == m.store && r.commands == m.commands
  {
    m.(sessions := m.sessions - {link})
  }

  /** A connection that comes and goes leaves the session table as it found it. */
  lemma ConnectThenDisconnect(m: Mica, link: Link)
    requires link !in m.sessions
    ensures OnDisconnection(OnConnection(m, link).mica, link).sessions == m.sessions
  {
  }

  /** The literal a logged-out line must start with. */
  const Connect := "connect"

  /**
   * `on_text`. A logged-out link can only log in: a line starting with
   * "connect" hands everything after "connect" and one more character to
   * `_try_login`, any other line gets `cmd404`. A logged-in link's line goes
   * to the dispatcher with its character as the actor, and its session is
   * left alone.
   */
  function OnText(m: Mica, link: Link, text: string): (r: Reply)
    requires link in m.sessions
    ensures r.mica.commands == m.commands
    ensures r.mica.sessions.Keys == m.sessions.Keys
    ensures forall l :: l in m.sessions && l != link ==> r.mica.sessions[l] == m.sessions[l]
    ensures m.sessions[link] != LoggedOut ==> r.mica.sessions == m.sessions
    ensures m.sessions[link] != LoggedOut ==>
              Dispatched(r.mica.store, r.written, r.aborted) == Dispatch(m.commands, m.store, m.sessions[link], text)
    ensures m.sessions[link] == LoggedOut ==> r.mica.store == m.store && |r.written| <= 1
    ensures m.sessions[link] == LoggedOut ==> forall i :: 0 <= i < |r.written| ==> EndsWithCrlf(r.written[i])
    ensures m.sessions[link] == LoggedOut && !IsPrefix(Connect, text) ==>
              r.written == [Line(Cmd404)] && r.mica.sessions == m.sessions && !r.aborted
    ensures m.sessions[link] == LoggedOut && r.mica.sessions[link] != LoggedOut ==>
              IsPrefix(Connect, text) && Exists(m.store, r.mica.sessions[link])
  {
    var state := m.sessions[link];
    if state == LoggedOut then
      if IsPrefix(Connect, text) then TryLogin(m, link, DropFrom(text, |Connect| + 1))
      else Reply(m, [Line(Cmd404)], false)
    else
      var d := Dispatch(m.commands, m.store, state, text);
      Reply(m.(store := d.store), d.written, d.aborted)
  }

  /**
   * A logged-out link logs in as `c` on "connect <name> <password>" exactly
   * when `get_account`, as written, accepts the credentials for `c` and Thing
   * `c` exists.
   */
  lemma LoginLine(m: Mica, link: Link, args: string, c: Id)
    requires link in m.sessions && m.sessions[link] == LoggedOut
    ensures OnText(m, link, Connect + " " + args).mica.sessions[link] == c && c != LoggedOut
            <==> Accepts(m.store, args, c) && Exists(m.store, c) && c != LoggedOut
  {
    var text := Connect + " " + args;
    assert IsPrefix(Connect, text);
    assert DropFrom(text, |Connect| + 1) == args;
    var r := OnText(m, link, text);
    if r.mica.sessions[link] == c && c != LoggedOut {
      var parts := SplitOn(args, ' ');
      if |parts| == 2 && GetAccountAsWritten(m.store, parts[0]).Some?
         && GetAccountAsWritten(m.store, parts[0]).value.password == parts[1] {
        assert Accepts(m.store, args, GetAccountAsWritten(m.store, parts[0]).value.character);
      } else {
        assert false;
      }
    }
  }

  /**
   * "connect <name> <password>" with space-free name and password, against the
   * row `get_account` returns as written: a name without a row aborts the
   * event; a matching password logs the link in as that row's character, or
   * aborts if that Thing does not exist; any other password leaves the link
   * logged out with one `badLogin` line.
   */
  lemma ConnectNamePassword(m: Mica, link: Link, name: string, pw: string)
    requires link in m.sessions && m.sessions[link] == LoggedOut
    requires ' ' !in name && ' ' !in pw
    ensures var r := OnText(m, link, Connect + " " + name + " " + pw);
            var acct := GetAccountAsWritten(m.store, name);
            && (acct.None? ==> r.mica == m && r.written == [] && r.aborted)
            && (acct.Some? && acct.value.password == pw && Exists(m.store, acct.value.character) ==>
                  r.mica.sessions == m.sessions[link := acct.value.character] && r.written == [] && !r.aborted)
            && (acct.Some? && acct.value.password == pw && !Exists(m.store, acct.value.character) ==>
                  r.mica == m && r.written == [] && r.aborted)
            && (acct.Some? && acct.value.password != pw ==>
                  r.mica.sessions == m.sessions && r.written == [Line(BadLogin)] && !r.aborted)
  {
    var args := name + " " + pw;
    LoginText(name, pw);
    var acct := GetAccountAsWritten(m.store, name);
    if acct.Some? && acct.value.password == pw {
      assert Accepts(m.store, args, acct.value.character);
    } else if acct.Some? {
      assert forall c :: !Accepts(m.store, args, c);
    }
  }

  /** "connect <name> <password>" hands `_try_login` the two words, which split apart again. */
  lemma LoginText(name: string, pw: string)
    requires ' ' !in name && ' ' !in pw
    ensures var text := Connect + " " + name + " " + pw;
            && IsPrefix(Connect, text)
            && DropFrom(text, |Connect| + 1) == name + " " + pw
            && SplitOn(name + " " + pw, ' ') == [name, pw]
  {
    var args := name + " " + pw;
    var text := Connect + " " + name + " " + pw;
    assert text == Connect + " " + args;
    assert DropFrom(text, |Connect| + 1) == args;
    SplitPrefix(name, pw, ' ');
    SplitNoSeparator(pw, ' ');
    assert name + [' '] + pw == args;
  }

  /**
   * Two space-free words whose account row carries the second as password log
   * the link in as that row's character when that Thing exists.
   */
  lemma LoginWords(lookup: AccountLookup, m: Mica, link: Link, name: string, pw: string, c: Id)
    requires link in m.sessions && ' ' !in name && ' ' !in pw
    requires lookup(m.store, name) == Some(AccountRow(pw, c)) && Exists(m.store, c)
    ensures TryLoginVia(lookup, m, link, name + " " + pw).mica.sessions[link] == c
  {
    LoginText(name, pw);
    assert AcceptsVia(lookup, m.store, name + " " + pw, c);
  }

  /** Two space-free words are refused with `badLogin` when the name's row carries another password. */
  lemma RefuseWords(lookup: AccountLookup, m: Mica, link: Link, name: string, pw: string)
    requires link in m.sessions && ' ' !in name && ' ' !in pw
    requires lookup(m.store, name).Some? && lookup(m.store, name).value.password != pw
    ensures TryLoginVia(lookup, m, link, name + " " + pw).written == [Line(BadLogin)]
  {
    LoginText(name, pw);
  }

  /** Two space-free words abort the event when the name has no row. */
  lemma UnknownWords(lookup: AccountLookup, m: Mica, link: Link, name: string, pw: string)
    requires link in m.sessions && ' ' !in name && ' ' !in pw
    requires lookup(m.store, name).None?
    ensures UnknownVia(lookup, m.store, name + " " + pw)
  {
    LoginText(name, pw);
  }

  /** The words used against the crossed store hold no space. */
  lemma CrossedWords()
    ensures ' ' !in "One" && ' ' !in "one-secret" && ' ' !in "five-secret"
  {
  }

  /**
   * The row mix-up of `get_account` reaches the login: with account 1 bound to
   * Thing 5 ("Five") and account 2 bound to Thing 1 ("One"), "connect One
   * five-secret" logs the link in as Five ...
   */
  lemma LoginWrongRow(link: Link)
    ensures var m := Mica(CrossedStore, [], map[link := LoggedOut]);
            TryLogin(m, link, "One" + " " + "five-secret").mica.sessions[link] == 5
  {
    var m := Mica(CrossedStore, [], map[link := LoggedOut]);
    GetAccountWrongRow();
    CrossedWords();
    GetThingUnique(CrossedStore, CrossedStore.things[1]);
    LoginWords(GetAccountAsWritten, m, link, "One", "five-secret", 5);
  }

  /** ... and One's own password is refused. */
  lemma LoginWrongRowRefuses(link: Link)
    ensures var m := Mica(CrossedStore, [], map[link := LoggedOut]);
            TryLogin(m, link, "One" + " " + "one-secret").written == [Line(BadLogin)]
  {
    var m := Mica(CrossedStore, [], map[link := LoggedOut]);
    GetAccountWrongRow();
    CrossedWords();
    RefuseWords(GetAccountAsWritten, m, link, "One", "one-secret");
  }

  /** On the same store the corrected login lets One in with One's own password ... */
  lemma LoginRightRow(link: Link)
    ensures var m := Mica(CrossedStore, [], map[link := LoggedOut]);
            TryLoginCorrected(m, link, "One" + " " + "one-secret").mica.sessions[link] == 1
  {
    var m := Mica(CrossedStore, [], map[link := LoggedOut]);
    GetAccountWrongRow();
    CrossedWords();
    GetThingUnique(CrossedStore, CrossedStore.things[0]);
    LoginWords(GetAccount, m, link, "One", "one-secret", 1);
  }

  /** ... and refuses it Five's. */
  lemma LoginRightRowRefuses(link: Link)
    ensures var m := Mica(CrossedStore, [], map[link := LoggedOut]);
            TryLoginCorrected(m, link, "One" + " " + "five-secret").written == [Line(BadLogin)]
  {
    var m := Mica(CrossedStore, [], map[link := LoggedOut]);
    GetAccountWrongRow();
    CrossedWords();
    RefuseWords(GetAccount, m, link, "One", "five-secret");
  }
}
