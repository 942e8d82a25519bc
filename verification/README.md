# mica in Dafny

A model of the core of **mica**, a small multi-user text world server (a MUD)
written in Python, with proofs about it. The model covers four parts.

- **The world and session engine** of `mica/core.py`:
  - Things, their property map, containment and location;
  - the `_one_from_db` exactly-one policy, `get_thing` and `get_account`;
  - the point-of-view name resolver;
  - the per-link login state machine;
  - the ordered, prefix-matching command dispatcher with its translation of
    `CommandProcessingError` into one output line;
  - the seed world of `setup_db`.
- **The `look` command** of `mica/commands.py`.
- **The earlier single-file server `mica.py`**: `describe_thing`, the echo
  session and its seed world.
- **The transport's line discipline** in `mica/net_helpers.py`, which is
  identical to `net_helpers.py`:
  - the telnet-command stripping and newline framing of `read`;
  - `flush`, which only ever offers complete lines to `send`;
  - `write`.

The SQLite database becomes an immutable value:
- `things` and `accounts` rows are sequences in ascending id order, the order
  of a scan of a rowid table, so no id occurs twice;
- `properties` is a map keyed by (object id, name);
- a subset type `Store` carries the primary-key constraints.

Every handler is a pure function that returns:
- the new server state;
- the strings it wrote to the link, in order.

A command handler is a function value, and the command registry is a sequence
of (name, handler) pairs. The socket does not appear:
- `read` is a function of the bytes already received;
- `send` is a scripted sequence of replies (`Sent(n)`, `WouldBlock`, `OsError`).

Modules, one per file:

| module | models |
|---|---|
| `Wrappers` | `Option`, for Python's value-or-`None` returns |
| `Text` | the Python `str` operations the server uses: prefix test by slicing, `split(' ')`, `strip()`, `in`, `int()`, `%d`, `", ".join` |
| `Texts` | the `texts` message table and `Mica.line` |
| `Store` | Things, properties, containment, `_one_from_db`, `get_thing`, `get_account`, the seed |
| `Resolver` | `resolve_many_things`, `resolve_one_thing`, `pov_get_thing_by_name` |
| `Session` | `command`, `on_text` dispatch, `_try_login`, `on_connection`, `on_disconnection` |
| `Commands` | `do_look`, `implement`, the assembled server |
| `Monolith` | `mica.py`: `describe_thing`, the echo session, its seed |
| `Bytes`, `Utf8` | bytes, `b''.join`, `bytes.index`, `str.encode('utf-8')` |
| `LineBuffer` | `read` (stripping and framing), `flush`, `write`, and a corrected decoder |

An exception other than `CommandProcessingError` escapes `on_text`. The event
loop does not catch it, so the server ends. The model marks such an event as
aborted (`Reply.aborted`, `Ending.Uncaught`) and keeps the state as it was at
the raise. The events that abort this way are:
- "connect" with a name that has no account: `get_account` returns `None`,
  and indexing it at mica/core.py:324 raises TypeError;
- "connect" whose account is bound to a character id with no Thing: the
  assert at mica/core.py:325 fails;
- `look` by a character whose Thing is gone: `me` is `None`
  (mica/commands.py:13), and `me.location()` at mica/commands.py:21 raises
  AttributeError;
- `look #n` whose n does not fit in a signed 64-bit integer: binding n into
  the query at mica/core.py:126 raises OverflowError, and the handler there
  catches only NotEnoughResultsException (mica/core.py:128).

At the following sites the Python would crash on every input that reaches
them. The model follows the intent that the doc-comment states, and a comment
at that spot says so:
- the `print` at mica/core.py:99;
- `except ValueError():` at mica/core.py:122;
- the swapped tuple at mica/core.py:134-136;
- `assert results[0] is int` at mica/core.py:149;
- `tgt` as a bare id in `do_look`;
- the undefined `display_name`, `descMissing` and `resolve_one_thing_for`.

Elsewhere the model does what the code does:
- `contents()` includes a self-located Thing, because the filter at
  mica/core.py:88 compares with the builtin `id`;
- command names match as bare textual prefixes, with no word boundary, so
  "look" also takes "lookout";
- dispatch has no commit or rollback: a handler's writes stand, whether or not
  it raised;
- `get_account` returns `None` for an ambiguous name;
- the login looks the account up as `get_account` is written
  (`Session.TryLogin`). The corrected login, `Session.TryLoginCorrected`, is
  modelled beside it.

## Model

| member | source | states |
|---|---|---|
| Store.OneFromDb | mica/core.py:224-235 | no rows is NotEnough, more than one is TooMany, exactly one is returned as itself; each iff |
| Store.GetThing | mica/core.py:252-258 | Some iff a Thing with that id is stored, and then it is that Thing |
| Store.GetThingUnique | mica/core.py:42-48 | in a keyed store every stored Thing is what `get_thing` returns for its id |
| Store.GetProp | mica/core.py:50-60 | `thing[key]` finds a value iff that (thing, key) entry is stored, and the value is that entry's; otherwise KeyError |
| Store.DisplayName | mica/commands.py:26 | the display name starts with the Thing's name and ends with `]` |
| Store.DisplayNameId | mica/core.py:152-154 | the id can be read back from the display name: it parses from between the last `[` and the final `]` |
| Store.ContentThings | mica/core.py:87 | exactly the stored Things located here |
| Store.ContentThingsAppend | mica/core.py:87-90 | store order is kept: the contents of a concatenation are the concatenated contents |
| Store.Contents | mica/core.py:82-91 | an id is in `contents()` iff some stored Thing with that id is located here; nothing is filtered out |
| Store.ContentsIncludesSelf | mica/core.py:88 | a self-located Thing is among its own contents |
| Store.Location | mica/core.py:93-100 | Some iff the Thing exists, has a location, and that location exists; the value is that location |
| Store.GetPropOr | mica/core.py:75-80 | `get` gives the stored value when the key is present and the default when it is absent; it never raises |
| Store.SetProp | mica/core.py:62-65 | an upsert: the key reads back as the value set, and every other (thing, key) entry, Thing and account is unchanged |
| Store.DeleteProp | mica/core.py:67-73 | KeyError iff the key is absent; otherwise only that (thing, key) entry disappears |
| Store.SetThenGet | mica/core.py:50-65 | setting and then reading, with or without a default, gives the value set |
| Store.SetOverwrites | mica/core.py:62-65 | setting twice equals setting the second value once |
| Store.DeleteThenGetOr | mica/core.py:67-80 | after a successful delete, `get` returns the default |
| Store.SetThenDelete | mica/core.py:62-73 | setting an absent key and then deleting it restores the store |
| Store.CharactersNamed | mica/core.py:241 | exactly the Things with this name that some account is bound to |
| Store.AccountsWithId | mica/core.py:246 | exactly the account rows whose own id is the one given |
| Store.AccountsOf | mica/core.py:246 | exactly the account rows bound to the given character |
| Store.AtMostOneAccountWithId | mica/core.py:246-249 | because `accounts.id` is the key, the query as written finds at most one row, and one iff an account has that id |
| Store.GetAccountAsWritten | mica/core.py:237-250 | as written: Some iff exactly one character has the name and some account's own id equals that character's Thing id; the row is that account's password and character |
| Store.GetAccount | mica/core.py:237-250 | Some iff exactly one character has the name and exactly one account is bound to it; the row is that account's, for an existing Thing of that name |
| Store.GetAccountWrongRow | mica/core.py:246 | an input where the query as written returns another character's account and the corrected one does not |
| Store.SeedWhereabouts | mica/core.py:186-190 | in the seed One is in the Nexus, the Nexus holds both Things, and the Nexus's `desc` is its text |
| Store.SeedPlaces | mica/core.py:186-190 | in the seed, `get_thing(2)` is the Nexus and One is located in 2 |
| Store.SeedNexusHolds | mica/core.py:186-190 | in the seed, the Nexus holds both seeded Things, itself included |
| Store.SeedNexusDesc | mica/core.py:186-190 | in the seed, the Nexus's `desc` is its text, whatever the default |
| Store.SeedAccount | mica/core.py:193 | in the seed, "One" logs in with "potrzebie" as character 1, and both lookups agree |
| Store.SeedNoAccount | mica/core.py:240-244 | in the seed, neither lookup finds an account for the name "Nobody" |
| Resolver.NameMatches | mica/core.py:131-137 | exactly the ids of Things the actor carries whose name contains the token, each once when ids are unique |
| Resolver.ResolveMany | mica/core.py:102-137 | rule precedence: "me" is the actor; "here" is the location or nothing; the query raises OverflowError iff the token is `#n` with n outside the signed 64-bit range; otherwise `#n` is n iff Thing n exists; any other token is the carried Things whose name contains it, or no result without a location; every id returned exists |
| Resolver.ResolveOne | mica/core.py:139-150 | the OverflowError passes through; otherwise the 0/1/many policy over the candidates, with no result counting as none |
| Resolver.ResolveMe | mica/core.py:107-110 | "me" resolves to exactly the actor |
| Resolver.ResolveHash | mica/core.py:119-129 | `#n` raises OverflowError when n does not fit in 64 bits; otherwise it resolves to n iff Thing n exists, and to nothing otherwise |
| Resolver.PovGetThingByName | mica/core.py:344-358 | a single match is returned; none raises `thing404` naming the token; several raise `thingOverflow`; the OverflowError escapes iff the token is an unbindable `#n` |
| Session.Register | mica/core.py:336-342 | registration appends: earlier commands keep their order and the new one is last |
| Session.FirstMatch | mica/core.py:292-293 | the first command, in registration order, whose name is a prefix of the line; None iff no name is |
| Session.FirstMatchAppend | mica/core.py:292-293 | with one command appended, the first match is the old one if there was one, else the new command if its name is a prefix, else none |
| Session.RegisterKeepsEarlierMatches | mica/core.py:292-293 | registering later never takes a line from an earlier command; the new command gets exactly the lines nobody matched before |
| Session.ArgsRepr | mica/core.py:300 | `repr(e.args)` is parenthesised; it is "()" iff there are no arguments; it starts with the first argument quoted; it ends in ",)" iff there is exactly one |
| Session.ErrorLine | mica/core.py:296-302 | one argument is written as the message, several as the `cmdErrWithArgs` dump, none as `cmdErrUnspecified`; every line ends in CRLF |
| Session.ErrorLines | mica/core.py:294-302 | a `CommandProcessingError` adds exactly one line, its error line; returning normally or raising anything else adds none |
| Session.Dispatch | mica/core.py:292-305 | the first matching command runs once on the text after its name and one separator; its `CommandProcessingError` becomes one line after its output; the event aborts iff the handler raised anything else; no match writes `cmd404` and changes nothing |
| Session.LoginArgsShape | mica/core.py:317-318 | the arguments split into exactly two parts iff they hold exactly one space |
| Session.TryLoginVia | mica/core.py:314-330 | for any account lookup: an accepted pair logs the link in as `c`, silently, when Thing `c` exists, and aborts at the assert when it does not; a name without an account aborts; otherwise nothing changes and one line is written, the usage text for the wrong number of parts and `badLogin` for a wrong password; a changed session always names an existing Thing |
| Session.TryLogin | mica/core.py:314-330 | the same over `get_account` as written: an accepted pair logs in, or aborts at mica/core.py:325; an unknown name aborts at mica/core.py:324; anything else changes nothing and writes one line |
| Session.TryLoginCorrected | mica/core.py:314-330 | the intended login over the corrected lookup: it never aborts; it logs the link in as `c` iff the pair is accepted for `c`; otherwise one line and no change, `badLogin` for an unknown name |
| Session.LoginWords | mica/core.py:317-327 | two space-free words whose row carries the second as password log the link in as that row's existing character |
| Session.RefuseWords | mica/core.py:328-330 | two space-free words whose row carries another password write `badLogin` |
| Session.UnknownWords | mica/core.py:317-324 | two space-free words whose name has no row are an unknown name, on which the login as written aborts |
| Session.LoginWrongRow | mica/core.py:246 | with crossed account and Thing ids, "One five-secret" logs the link in as character 5 through the lookup as written |
| Session.LoginWrongRowRefuses | mica/core.py:246 | in the same store, One's own password "one-secret" is refused as written |
| Session.LoginRightRow | mica/core.py:246 | in the same store, the corrected login takes "One one-secret" as character 1 |
| Session.LoginRightRowRefuses | mica/core.py:246 | in the same store, the corrected login refuses "One five-secret" |
| Session.OnConnection | mica/core.py:272-276 | the new link is logged out (-1), the other links are untouched, and the welcome line is written |
| Session.OnDisconnection | mica/core.py:307-312 | exactly that link's entry is removed |
| Session.ConnectThenDisconnect | mica/core.py:272-311 | connecting and then disconnecting a new link leaves the session table as it was |
| Session.OnText | mica/core.py:278-305 | logged out: only "connect…" reaches `_try_login`, anything else writes `cmd404` and keeps the state, at most one line is written, and a login only lands on an existing Thing; logged in: the line is dispatched with the character as actor, aborting iff dispatch aborts, and the session is untouched |
| Session.LoginLine | mica/core.py:284-287 | "connect " + args logs a logged-out link in as `c` iff `get_account` as written accepts args for `c` and Thing `c` exists |
| Session.ConnectNamePassword | mica/core.py:314-330 | "connect name pw" against the row `get_account` returns as written: no row aborts; a matching password logs in as the row's character, or aborts if that Thing is missing; another password writes `badLogin` and keeps the state |
| Texts.Line | mica/core.py:268-270 | a line is the text followed by CRLF and nothing else |
| Texts.LineInjective | mica/core.py:268-270 | the written line determines its text |
| Commands.DisplayNames | mica/commands.py:28 | one display name per content Thing, in order |
| Commands.Description | mica/commands.py:26-30 | display name, then `desc` or the default, then the joined contents, written iff there are any contents |
| Commands.Look | mica/commands.py:12-30 | the argument is stripped; a failed resolution raises the resolver's error before anything is written; a resolved Thing is described; a blank argument describes the location, or writes only `youAreNowhere` without one; a blank `look` by an actor whose Thing is gone, and an unbindable `#n`, raise uncaught, and nothing else does; a processing error means a non-blank, unresolved argument; the store is unchanged |
| Commands.Implement | mica/commands.py:10-12 | `look` is registered after the existing commands |
| Commands.Server | mica/__main__.py:30-32 | the server starts with the seed world, `look` as its only command, and no links |
| Commands.LookUnbindableId | mica/core.py:119-128 | `look #n` with n outside the signed 64-bit range writes nothing and raises uncaught |
| Commands.ServerLookUnbindableId | mica/core.py:292-305 | through the assembled server's dispatch, "look #n" with such an n aborts the event, writes nothing and changes nothing |
| Commands.LookHashText | mica/core.py:293-295 | "look #w" matches the `look` command, which receives "#w" |
| Commands.BlankStrips | mica/commands.py:16 | a lone space strips to the empty argument |
| Commands.SeedLookAround | mica/commands.py:20-30 | in the seed, One's bare `look` writes the Nexus, its description, and "One [1], Nexus [2]" |
| Commands.SeedLookTarget | mica/commands.py:20-21 | a blank argument targets the actor's location |
| Commands.SeedNexusDescription | mica/commands.py:26-30 | the Nexus's description lines in the seed, the Nexus among its own contents |
| Commands.SeedListing | mica/commands.py:28 | the joined contents line of the Nexus |
| Commands.SeedDisplayNames | mica/commands.py:26 | the display names of the two seeded Things |
| Commands.SeedSession | mica/core.py:284-330 | a fresh link's "look" gets `cmd404`; a wrong password gets `badLogin` and stays logged out; "potrzebie" logs in as One |
| Commands.SeedWrongPassword | mica/core.py:328-330 | the wrong seed password writes `badLogin` and keeps the state |
| Commands.SeedRightPassword | mica/core.py:324-327 | the right seed password logs in as character 1 |
| Commands.SeedUnknownName | mica/core.py:321-324 | in the seed, "connect Nobody hunter2" aborts as written, and the corrected login answers `badLogin` |
| Monolith.RowsWithId | mica.py:51 | exactly the rows with this id |
| Monolith.OnlyRowWithId | mica.py:52 | in a keyed table a row's id selects that row alone |
| Monolith.Inside | mica.py:60-61 | exactly the rows located here other than the Thing itself |
| Monolith.DescribeThing | mica.py:47-64 | None iff no row has the id; without `get_in` just (name, desc); with it also a shallow description of every other Thing located here |
| Monolith.DescribeContents | mica.py:59-62 | one (name, desc) pair per contained row, in table order |
| Monolith.DescribeOneRow | mica.py:56-57 | the shallow description of a stored row is its own (name, desc) |
| Monolith.DescriptionDepth | mica.py:62 | nested descriptions are leaves: the recursion is one level deep |
| Monolith.OnConnection | mica.py:96-97 | the new link maps to -1, the others are untouched, and nothing is written |
| Monolith.OnText | mica.py:101-104 | exactly one line is written: the received text followed by CRLF |
| Monolith.OnDisconnection | mica.py:106-108 | exactly that link's entry is removed |
| Monolith.ConnectThenDisconnect | mica.py:96-108 | connecting and then disconnecting a new link restores the table |
| Monolith.SeedNexus | mica.py:59-64 | the self-located Nexus describes only One as its contents |
| Text.DropFrom | mica/core.py:287 | `text[n:]` is the rest after the first n characters, and empty past the end |
| Text.SplitOn | mica/core.py:317 | `split(' ')` gives at least one part, and no part holds the separator |
| Text.JoinSplit | mica/core.py:317 | joining the parts of a split gives back the text |
| Text.SplitJoin | mica/core.py:317 | splitting a join of separator-free parts gives back the parts |
| Text.SplitCount | mica/core.py:317-318 | a split has one more part than the text has separators |
| Text.Strip | mica/commands.py:16 | `strip()` removes only whitespace, from both ends, and leaves no whitespace at either end |
| Text.StripUnpadded | mica/commands.py:16 | a text with no whitespace at either end strips to itself |
| Text.StripIdempotent | mica/commands.py:16 | stripping twice equals stripping once |
| Text.Contains | mica/core.py:136 | the empty needle is in every text; a needle that is in a text is no longer than it |
| Text.ContainsOccurs | mica/core.py:136 | the substring test holds iff the needle occurs at some position |
| Text.ParseInt | mica/core.py:121 | `int()` accepts exactly the digit strings with an optional sign; the value is the digit value, negated after a minus |
| Text.ShowInt | mica/core.py:154 | `%d` of a non-negative integer is all digits, of a negative one a minus followed by digits; it never holds `[` |
| Text.ParseShowInt | mica/core.py:119-126 | `int()` reads back every `%d` rendering |
| Text.JoinWith | mica/commands.py:28 | joining nothing gives ""; otherwise the join starts with the first part |
| Text.JoinWithAppend | mica/commands.py:28 | joining one more part appends the separator and that part |
| Text.JoinWithLength | mica/commands.py:28 | a join is as long as its parts plus one separator between each two |
| Text.JoinWithEmpty | mica/commands.py:28-29 | a join of non-empty names is empty iff there are no names |
| Utf8.Encode | mica/net_helpers.py:37-38 | `str.encode('utf-8')` gives one to four bytes per character |
| Utf8.EncodeChar | mica/net_helpers.py:37-38 | one to four bytes; one byte, the character itself, iff it is below 0x80; otherwise a lead byte and continuation bytes |
| Utf8.CodePointEncodeChar | mica/net_helpers.py:37-38 | decoding a character's bytes gives the character back |
| Utf8.EncodeAppend | mica/net_helpers.py:37-41 | encoding distributes over concatenation |
| Utf8.EncodeNewline | mica/net_helpers.py:37-42 | the encoding contains byte 10 iff the text contains a newline |
| Utf8.EncodeAscii | mica/net_helpers.py:37-38 | ASCII text encodes byte for byte |
| Bytes.IndexOf | mica/net_helpers.py:137 | `index` finds the first occurrence |
| LineBuffer.Step | mica/net_helpers.py:114-130 | one byte of the scan: a command opens on 255 outside one and stays open on WILL/WONT/DO/DONT inside one; a byte is kept iff it is 255 inside a command or any other byte outside one, the kept byte is that byte, and what was kept before stays |
| LineBuffer.Strip | mica/net_helpers.py:109-130 | the stripped bytes are never more than the input; an input without 255 comes through unchanged, outside a command |
| LineBuffer.StripFromAppend | mica/net_helpers.py:113-130 | stripping a concatenation is stripping the second part from where the first left off |
| LineBuffer.StripFromExtends | mica/net_helpers.py:113-130 | the scan only appends to what it has kept |
| LineBuffer.NoIacPassesThrough | mica/net_helpers.py:125-129 | a stream with no 255 passes through unchanged and ends outside a command |
| LineBuffer.StripNoLonger | mica/net_helpers.py:113-130 | the stripped output is never longer than the input |
| LineBuffer.EscapedIac | mica/net_helpers.py:116-118 | IAC IAC yields one literal 255 and leaves command mode |
| LineBuffer.TwoByteCommandDropped | mica/net_helpers.py:121-124 | IAC plus a non-verb byte is dropped whole |
| LineBuffer.NegotiationDropped | mica/net_helpers.py:119-120 | IAC WILL/WONT/DO/DONT x is dropped whole |
| LineBuffer.SplitLines | mica/net_helpers.py:136-139 | each line ends with its only newline, the rest has none, and lines followed by the rest spell the input |
| LineBuffer.SplitLinesUnique | mica/net_helpers.py:136-139 | that framing is the only one with those properties |
| LineBuffer.SplitLinesAppend | mica/net_helpers.py:136-141 | framing the kept rest with more bytes continues the earlier framing |
| LineBuffer.Read | mica/net_helpers.py:109-149 | all lines are complete; the kept buffer has no newline and ends with 255 when the scan ended in a command; lines plus buffer, minus that 255, are the stripped bytes |
| LineBuffer.StripLoop | mica/net_helpers.py:113-130 | the scanning loop computes the stripped bytes and the final command state |
| LineBuffer.SplitLoop | mica/net_helpers.py:136-141 | the splitting loop computes the unique framing |
| LineBuffer.LineCutOff | mica/net_helpers.py:137-139 | cutting the first line off the rest keeps every piece a line and the bytes unchanged |
| LineBuffer.ReadBuffered | mica/net_helpers.py:109-151 | the two loops and the IAC re-add together compute `Read` |
| LineBuffer.TrailingIacWithoutCommand | mica/net_helpers.py:141-149 | a kept buffer can end with 255 although the scan ended outside a command |
| LineBuffer.RereadLosesLiteralIac | mica/net_helpers.py:141-149 | an input where re-stripping the kept buffer loses a literal 255 and the bytes around it |
| LineBuffer.Feed | mica/net_helpers.py:113-149 | the corrected decoder returns complete lines and keeps no newline pending |
| LineBuffer.FeedChunked | mica/net_helpers.py:113-149 | however the input is cut into reads, the corrected decoder yields the same lines and state |
| LineBuffer.FeedFreshIsRead | mica/net_helpers.py:109-141 | on a first read the corrected decoder and `read` return the same lines |
| LineBuffer.RescanKept | mica/net_helpers.py:141-149 | when the kept line holds no literal 255, stripping the buffer `read` kept gives the corrected decoder's command state and pending bytes |
| LineBuffer.RereadAgreesWithoutLiteralIac | mica/net_helpers.py:141-149 | when the kept line holds no literal 255, `read` resumes exactly like the corrected decoder |
| LineBuffer.FirstLineOfIsLine | mica/net_helpers.py:51-52 | when the buffer holds a newline, `buffer[:t+1]` is the prefix of it that ends at its first newline |
| LineBuffer.Flush | mica/net_helpers.py:44-61 | what is dropped is a prefix and the rest stays queued; only lines are offered, the first being the buffer up to its first newline; the loop stops on the first error; it stops for want of a line iff none is left |
| LineBuffer.FlushOffersLines | mica/net_helpers.py:49-53 | with honest sends, the i-th offer is the first line of the buffer after the bytes the earlier sends reported |
| LineBuffer.FlushOffersAt | mica/net_helpers.py:49-53 | the same, through `OfferAt`, by induction over the replies |
| LineBuffer.FlushSendsWhatIsReported | mica/net_helpers.py:49-53 | with honest sends, exactly the bytes reported sent are dropped |
| LineBuffer.FlushKeepsPartialLine | mica/net_helpers.py:49-53 | with honest sends, nothing after the last newline is ever sent |
| LineBuffer.Write | mica/net_helpers.py:35-42 | sent bytes plus kept bytes are the old buffer plus the data; the loop stops for want of a line iff none is left |
| LineBuffer.WriteTextIsEncoded | mica/net_helpers.py:37-38 | writing text is writing its UTF-8 bytes |
| LineBuffer.WriteLineOffers | mica/net_helpers.py:35-42 | writing text that contains a newline offers a complete line to `send` |

## Left out

- Sockets. `recv`, `attach_socket` and disconnect handling are not modelled, and neither is the receive loop of `read` (mica/net_helpers.py:72-94). `read` is a function of the bytes already received.
- `send` is a finite script of replies. When the script runs out, the model stops with `ScriptExhausted`, where the socket would be asked again.
- UTF-8 decoding of received lines (mica/net_helpers.py:138) is not modelled. Lines stay as bytes.
- `write_str`, `write_line` and `TextLine` are not modelled. They are the same queue-then-flush as `write`.
- SQL text, `_calldb`, `_from_db`, `_commitdb` and `logging` are not modelled. The tables are values, and every query is the function that filters them.
- NULL property values are not modelled. In the source a property whose value is NULL counts as absent: `__delitem__` raises KeyError for it, by its `is not None` test. The model has no such entry.
- Thing.name: at mica/core.py:48 `_one_from_db` returns the whole one-column row, a 1-tuple, not a string. The model stores the name string, which is what the display code expects.
- The schema statements of `setup_db` are not modelled, and neither is the unused `links` table. Only the seeded rows are.
- The event loop, command-line parsing and process start are not modelled (mica/__main__.py, mica.py:67-80 and mica.py:112-157). `Commands.Server` stands for the assembly at mica/__main__.py:30-32.
- Text.ParseInt: accepts an optional sign and ASCII digits only. Python's `int()` also allows surrounding whitespace, underscores and non-ASCII digits. From Python 3.11 it also refuses more than 4300 digits with ValueError, which the model does not: such a `#n` overflows at the binding instead. As written the event aborts either way, because `except ValueError():` at mica/core.py:122 itself raises.
- Session.ErrorLine: `repr` of the arguments is shown as single-quoted strings without Python's escaping.
- Texts.DescMissing is this model's own wording. The source looks up `texts['descMissing']`, which its table lacks.
- Resolver.ResolveMany: the empty token, where `thing[0]` would raise IndexError, goes to the substring rule.
- Store.GetAccount: several accounts bound to one character give None. The corrected `character_id` query would let TooManyResults escape there. The query as written cannot raise it, because `accounts.id` is the key (`Store.AtMostOneAccountWithId`).
- LineBuffer.Read: the buffer ends with 255 when the scan ended inside a command, but not only then. A literal 255 at the end of an unfinished line also leaves one (`LineBuffer.TrailingIacWithoutCommand`).
- Not modelled, because the code has none of them: transactions, movement and exits, permissions, password hashing, renaming, broadcasts.

## Findings

| source | as written | input that shows it | evidently intended | confidence | as-written member | corrected member |
|---|---|---|---|---|---|---|
| mica/core.py:246 | the account is looked up by `accounts.id = <character's Thing id>` | Things 1 "One" and 5 "Five"; account 1 bound to Thing 5, account 2 bound to Thing 1; `get_account("One")` returns account 1's password and character 5 | look the account up by `character_id` | high; not executed | Store.GetAccountAsWritten, Store.GetAccountWrongRow, Session.TryLogin, Session.LoginWrongRow | Store.GetAccount, Session.TryLoginCorrected, Session.LoginRightRow |
| mica/core.py:321-324 | `acct[0]` is read without checking that `get_account` found an account | "connect Nobody hunter2" on the seed world: `get_account` returns `None`, indexing it raises TypeError, and the event loop ends | write `badLogin`, as for a wrong password | high; not executed | Session.TryLogin, Commands.SeedUnknownName | Session.TryLoginCorrected, Commands.SeedUnknownName |
| mica/net_helpers.py:141-149 | the unfinished line is kept already stripped, and the next `read` strips it again | "a" IAC IAC "b" in one read, then "\n" in the next, yields the line "a\n"; in one read the same bytes yield "a" 255 "b\n" | keep the scan state and the stripped pending bytes, and never re-strip them | high; not executed | LineBuffer.Read, LineBuffer.RereadLosesLiteralIac | LineBuffer.Feed, LineBuffer.FeedChunked |
