/**
 * The `texts` table of fixed user-facing messages from `mica/core.py`, the
 * `%s` substitutions the server applies to some of them, and `Mica.line`.
 */
module Texts {

  const Welcome := "Welcome.  Type `connect <name> <password>' to connect."
  const BadLogin := "I'm sorry, but those credentials were not right."
  const Cmd404 := "I don't understand what you mean."
  /** `thingOverflow` keeps its `%s`: the source raises it without substituting anything. */
  const ThingOverflow := "`%s' is ambiguous -- I can't tell which thing you mean."
  const CmdErrUnspecified := "[!!] There was a problem processing your command, but no explanation has been provided. Please bother your local developers."
  const YouAreNowhere := "You... erm... don't seem to actually be in a location that exists.  This is, um, honestly, really embarrassing and we're not sure what to do about it."
  const BeforeListingContents := "You can see: "

  /**
   * The default description `look` shows for a Thing without a `desc`
   * property. The source looks up a `descMissing` key that its `texts` table
   * does not define; the wording here is this model's.
   */
  const DescMissing := "You see nothing special."

  /** The usage string `_try_login` substitutes into `cmdSyntax`. */
  const ConnectUsage := "connect <username> <password>"

  /** `texts['thing404'] % name`. */
  function Thing404(name: string): string {
    "I can't find any such thing as `" + name + "'."
  }

  /** `texts['cmdSyntax'] % usage`. */
  function CmdSyntax(usage: string): string {
    "That command needs to be written similar to `" + usage + "'."
  }

  /** `texts['cmdErrWithArgs'] % dump`. */
  function CmdErrWithArgs(dump: string): string {
    "[!!] There was a problem processing your command, but the arguments weren't as expected: " + dump
  }

  const Crlf := "\r\n"

  predicate EndsWithCrlf(s: string) {
    |s| >= 2 && s[|s| - 2..] == Crlf
  }

  /** `Mica.line`: the text followed by the line terminator, and nothing else. */
  function Line(text: string): (r: string)
    ensures EndsWithCrlf(r) && r[..|r| - 2] == text
  {
    text + Crlf
  }

  /** A written line determines its text: `Line` is injective. */
  lemma LineInjective(a: string, b: string)
    requires Line(a) == Line(b)
    ensures a == b
  {
    assert a == Line(a)[..|Line(a)| - 2];
  }
}
