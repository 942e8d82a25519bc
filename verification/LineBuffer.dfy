/**
 * `LineBufferingSocketContainer` of `mica/net_helpers.py` (also shipped,
 * byte for byte, as `net_helpers.py`), without the socket: the decoding half
 * of `read` as a function of the bytes already received, and `flush`/`write`
 * against a scripted sequence of `send` replies.
 */
module LineBuffer {
  import opened Bytes
  import Utf8

  const IAC: byte := 255
  const DONT: byte := 254
  const DO: byte := 253
  const WONT: byte := 252
  const WILL: byte := 251
  /** `linesep`: the record separator, ASCII newline. */
  const NEWLINE: byte := 10

  // ---------------------------------------------------------------------------
  // Removing telnet commands (mica/net_helpers.py:109-130)

  /** The scan's state after some prefix of the buffer: inside a command or not, and the bytes kept so far. */
  datatype Scan = Scan(inCommand: bool, out: seq<byte>)

  /**
   * One turn of the scanning loop. Outside a command IAC opens one and any
   * other byte is kept. Inside a command a second IAC is a literal 255 and
   * closes it, WILL/WONT/DO/DONT keep it open, and anything else closes it and
   * is dropped.
   */
  function Step(s: Scan, b: byte): (r: Scan)
    ensures r.inCommand <==> (!s.inCommand && b == IAC) || (s.inCommand && WILL <= b <= DONT)
    ensures |s.out| <= |r.out| <= |s.out| + 1 && r.out[..|s.out|] == s.out
    ensures |r.out| == |s.out| + 1 <==> (s.inCommand <==> b == IAC)
    ensures |r.out| == |s.out| + 1 ==> r.out[|s.out|] == b
  {
    if s.inCommand then
      if b == IAC then Scan(false, s.out + [IAC])
      else if WILL <= b <= DONT then s
      else Scan(false, s.out)
    else if b == IAC then Scan(true, s.out)
    else Scan(false, s.out + [b])
  }

  /** The scan continued from `s` over every byte of `buf`, first to last. */
  function StripFrom(s: Scan, buf: seq<byte>): (r: Scan)
  {
    if |buf| == 0 then s else Step(StripFrom(s, buf[..|buf| - 1]), buf[|buf| - 1])
  }

  /** The scan of a whole buffer, starting outside any command with nothing kept. */
  function Strip(buf: seq<byte>): (r: Scan)
    ensures |r.out| <= |buf|
    ensures IAC !in buf ==> r == Scan(false, buf)
  {
    var r := StripFrom(Scan(false, []), buf);
    StripNoLonger(Scan(false, []), buf);
    assert IAC !in buf ==> r == Scan(false, buf) by {
      if IAC !in buf {
        NoIacPassesThrough([], buf);
        assert [] + buf == buf;
      }
    }
    r
  }

  /** Scanning a concatenation is scanning the first part, then the second from where it left off. */
  lemma {:induction false} StripFromAppend(s: Scan, a: seq<byte>, b: seq<byte>)
    ensures StripFrom(s, a + b) == StripFrom(StripFrom(s, a), b)
  {
    if |b| == 0 {
      assert a + b == a;
    } else {
      StripFromAppend(s, a, b[..|b| - 1]);
      assert (a + b)[..|a + b| - 1] == a + b[..|b| - 1];
    }
  }

  /** The scan only ever appends to what it has kept, and what it appends does not depend on it. */
  lemma {:induction false} StripFromExtends(c: bool, kept: seq<byte>, buf: seq<byte>)
    ensures StripFrom(Scan(c, kept), buf).inCommand == StripFrom(Scan(c, []), buf).inCommand
    ensures StripFrom(Scan(c, kept), buf).out == kept + StripFrom(Scan(c, []), buf).out
  {
    if |buf| > 0 {
      StripFromExtends(c, kept, buf[..|buf| - 1]);
    }
  }

  /** A stream without IAC passes through unchanged, and the scan ends outside any command. */
  lemma {:induction false} NoIacPassesThrough(kept: seq<byte>, buf: seq<byte>)
    requires IAC !in buf
    ensures StripFrom(Scan(false, kept), buf) == Scan(false, kept + buf)
  {
    if |buf| > 0 {
      NoIacPassesThrough(kept, buf[..|buf| - 1]);
      assert buf == buf[..|buf| - 1] + [buf[|buf| - 1]];
    }
  }

  /** The stripped output is never longer than the input. */
  lemma {:induction false} StripNoLonger(s: Scan, buf: seq<byte>)
    ensures |StripFrom(s, buf).out| <= |s.out| + |buf|
  {
    if |buf| > 0 {
      StripNoLonger(s, buf[..|buf| - 1]);
    }
  }

  /** Scanning one byte is one step. */
  lemma StripOne(s: Scan, b: byte)
    ensures StripFrom(s, [b]) == Step(s, b)
  {
    assert [b][..0] == [];
  }

  /** Outside a command, IAC IAC is one literal 255. */
  lemma EscapedIac(s: Scan)
    requires !s.inCommand
    ensures StripFrom(s, [IAC, IAC]) == Scan(false, s.out + [IAC])
  {
    StripFromAppend(s, [IAC], [IAC]);
    StripOne(s, IAC);
    StripOne(Scan(true, s.out), IAC);
    assert [IAC] + [IAC] == [IAC, IAC];
  }

  /** Outside a command, IAC followed by a byte that is neither IAC nor an option verb removes both. */
  lemma TwoByteCommandDropped(s: Scan, x: byte)
    requires !s.inCommand && x != IAC && !(WILL <= x <= DONT)
    ensures StripFrom(s, [IAC, x]) == s
  {
    StripFromAppend(s, [IAC], [x]);
    StripOne(s, IAC);
    StripOne(Scan(true, s.out), x);
    assert [IAC] + [x] == [IAC, x];
  }

  /** Outside a command, an option negotiation IAC WILL/WONT/DO/DONT x disappears whole. */
  lemma NegotiationDropped(s: Scan, verb: byte, x: byte)
    requires !s.inCommand && WILL <= verb <= DONT && x != IAC && !(WILL <= x <= DONT)
    ensures StripFrom(s, [IAC, verb, x]) == s
  {
    StripFromAppend(s, [IAC], [verb, x]);
    StripOne(s, IAC);
    StripFromAppend(Scan(true, s.out), [verb], [x]);
    StripOne(Scan(true, s.out), verb);
    StripOne(Scan(true, s.out), x);
    assert [IAC] + [verb, x] == [IAC, verb, x];
    assert [verb] + [x] == [verb, x];
  }

  // ---------------------------------------------------------------------------
  // Framing lines (mica/net_helpers.py:136-141)

  /** A received line: it ends with the newline and holds no other. */
  predicate IsLine(l: seq<byte>) {
    |l| > 0 && l[|l| - 1] == NEWLINE && NEWLINE !in l[..|l| - 1]
  }

  predicate AllLines(ls: seq<seq<byte>>) {
    forall i :: 0 <= i < |ls| ==> IsLine(ls[i])
  }

  datatype Framing = Framing(lines: seq<seq<byte>>, rest: seq<byte>)

  /** Cut the bytes after each newline: the complete lines, in order, and the unfinished tail. */
  function SplitLines(b: seq<byte>): (r: Framing)
    ensures AllLines(r.lines) && NEWLINE !in r.rest
    ensures Concat(r.lines) + r.rest == b
    decreases |b|
  {
    if NEWLINE !in b then Framing([], b)
    else
      var t := IndexOf(b, NEWLINE);
      var f := SplitLines(b[t + 1..]);
      FirstLine(b, t, f);
      Framing([b[..t + 1]] + f.lines, f.rest)
  }

  /** Putting the first line in front of the framing of what follows it frames the whole. */
  lemma FirstLine(b: seq<byte>, t: nat, f: Framing)
    requires t < |b| && b[t] == NEWLINE && NEWLINE !in b[..t]
    requires AllLines(f.lines) && Concat(f.lines) + f.rest == b[t + 1..]
    ensures AllLines([b[..t + 1]] + f.lines)
    ensures Concat([b[..t + 1]] + f.lines) + f.rest == b
  {
    var ls := [b[..t + 1]] + f.lines;
    assert b[..t + 1][..t] == b[..t];
    assert ls[0] == b[..t + 1] && ls[1..] == f.lines;
    assert Concat(ls) == b[..t + 1] + Concat(f.lines);
    assert b == b[..t + 1] + b[t + 1..];
  }

  /**
   * The framing is the only one possible: any list of lines followed by a
   * newline-free tail that spells `b` is `SplitLines(b)`.
   */
  lemma {:induction false} SplitLinesUnique(b: seq<byte>, lines: seq<seq<byte>>, rest: seq<byte>)
    requires AllLines(lines) && NEWLINE !in rest && Concat(lines) + rest == b
    ensures SplitLines(b) == Framing(lines, rest)
    decreases |lines|
  {
    if |lines| == 0 {
      assert b == rest;
    } else {
      var l := lines[0];
      assert b == l + (Concat(lines[1..]) + rest);
      assert NEWLINE in b by { assert b[|l| - 1] == NEWLINE; }
      var t := IndexOf(b, NEWLINE);
      assert t == |l| - 1 by {
        assert b[..|l| - 1] == l[..|l| - 1];
      }
      assert b[..t + 1] == l;
      assert b[t + 1..] == Concat(lines[1..]) + rest;
      SplitLinesUnique(b[t + 1..], lines[1..], rest);
      assert [l] + lines[1..] == lines;
    }
  }

  /** Framing what was left over together with more bytes continues the earlier framing. */
  lemma SplitLinesAppend(a: seq<byte>, q: seq<byte>)
    ensures var fa := SplitLines(a);
            var fb := SplitLines(fa.rest + q);
            SplitLines(a + q) == Framing(fa.lines + fb.lines, fb.rest)
  {
    var fa := SplitLines(a);
    var fb := SplitLines(fa.rest + q);
    var lines := fa.lines + fb.lines;
    AllLinesAppend(fa.lines, fb.lines);
    ConcatAppend(fa.lines, fb.lines);
    RegroupLines(Concat(fa.lines), fa.rest, Concat(fb.lines), fb.rest, q);
    SplitLinesUnique(a + q, lines, fb.rest);
  }

  lemma AllLinesAppend(a: seq<seq<byte>>, b: seq<seq<byte>>)
    requires AllLines(a) && AllLines(b)
    ensures AllLines(a + b)
  {
    forall i | 0 <= i < |a + b|
      ensures IsLine((a + b)[i])
    {
      if i < |a| {
        assert (a + b)[i] == a[i];
      } else {
        assert (a + b)[i] == b[i - |a|];
      }
    }
  }

  /** The regrouping behind `SplitLinesAppend`: (x + y) + z == a + q when x + r == a and y + z == r + q. */
  lemma RegroupLines(x: seq<byte>, r: seq<byte>, y: seq<byte>, z: seq<byte>, q: seq<byte>)
    requires y + z == r + q
    ensures (x + y) + z == (x + r) + q
  {
    calc {
      (x + y) + z;
      x + (y + z);
      x + (r + q);
      (x + r) + q;
    }
  }

  // ---------------------------------------------------------------------------
  // `read`, as written

  /** What `read` returns (the lines) and leaves in the receive buffer. */
  datatype ReadResult = ReadResult(lines: seq<seq<byte>>, buffer: seq<byte>)

  /**
   * `read` after the receive loop: strip the buffer, frame the stripped bytes,
   * and keep the unfinished tail — plus an IAC when the scan ended inside a
   * command, so that the next call re-enters command mode.
   */
  function Read(recv: seq<byte>): (r: ReadResult)
    ensures AllLines(r.lines) && NEWLINE !in r.buffer
    ensures Strip(recv).inCommand ==> |r.buffer| > 0 && r.buffer[|r.buffer| - 1] == IAC
    ensures Concat(r.lines) + (if Strip(recv).inCommand then r.buffer[..|r.buffer| - 1] else r.buffer)
            == Strip(recv).out
  {
    var s := Strip(recv);
    var f := SplitLines(s.out);
    ReadResult(f.lines, if s.inCommand then f.rest + [IAC] else f.rest)
  }

  /** The first loop of `read` (mica/net_helpers.py:113-130): drop telnet commands from the buffered bytes. */
  method StripLoop(recv: seq<byte>) returns (stripped: seq<byte>, inCommand: bool)
    ensures Scan(inCommand, stripped) == Strip(recv)
  {
    stripped := [];
    inCommand := false;
    var x := 0;
    while x < |recv|
      invariant 0 <= x <= |recv|
      invariant Scan(inCommand, stripped) == Strip(recv[..x])
    {
      assert recv[..x + 1][..x] == recv[..x];
      assert recv[x..x + 1] == [recv[x]];
      if inCommand {
        if recv[x] == IAC {
          stripped := stripped + [IAC];
          inCommand := false;
        } else if recv[x] <= DONT && recv[x] >= WILL {
        } else {
          inCommand := false;
        }
      } else {
        if recv[x] == IAC {
          inCommand := true;
        } else {
          stripped := stripped + recv[x..x + 1];
        }
      }
      x := x + 1;
    }
    assert recv[..x] == recv;
  }

  /** The second loop of `read` (mica/net_helpers.py:136-139): cut off complete lines, keep the rest. */
  method SplitLoop(stripped: seq<byte>) returns (lines: seq<seq<byte>>, rest: seq<byte>)
    ensures Framing(lines, rest) == SplitLines(stripped)
    ensures AllLines(lines) && NEWLINE !in rest
  {
    lines := [];
    rest := stripped;
    while NEWLINE in rest
      invariant AllLines(lines)
      invariant Concat(lines) + rest == stripped
      decreases |rest|
    {
      var line := FirstLineOf(rest);
      LineCutOff(lines, rest);
      lines := lines + [line];
      rest := rest[|line|..];
    }
    SplitLinesUnique(stripped, lines, rest);
  }

  /** Moving the first line of the unfinished bytes onto the complete lines keeps both loop invariants. */
  lemma LineCutOff(lines: seq<seq<byte>>, rest: seq<byte>)
    requires NEWLINE in rest && AllLines(lines)
    ensures |FirstLineOf(rest)| <= |rest|
    ensures AllLines(lines + [FirstLineOf(rest)])
    ensures Concat(lines + [FirstLineOf(rest)]) + rest[|FirstLineOf(rest)|..] == Concat(lines) + rest
  {
    var line := FirstLineOf(rest);
    FirstLineOfIsLine(rest);
    ConcatAppend(lines, [line]);
    assert rest == line + rest[|line|..];
    AllLinesAppend(lines, [line]);
  }

  /**
   * `read` over the buffered bytes, loop by loop: the same lines and the same
   * buffer as `Read`, with every line newline-terminated.
   */
  method ReadBuffered(recv: seq<byte>) returns (lines: seq<seq<byte>>, buffer: seq<byte>)
    ensures ReadResult(lines, buffer) == Read(recv)
    ensures AllLines(lines) && NEWLINE !in buffer
  {
    var stripped, inCommand := StripLoop(recv);
    lines, buffer := SplitLoop(stripped);
    if inCommand {
      buffer := buffer + [IAC];
    }
  }

  /**
   * The kept buffer can end with 255 although the scan ended outside any
   * command: a literal 255 (IAC IAC) at the end of an unfinished line. So a
   * trailing 255 follows from an open command, but does not imply one.
   */
  lemma TrailingIacWithoutCommand()
    ensures !Strip([IAC, IAC]).inCommand && Read([IAC, IAC]).buffer == [IAC]
  {
    EscapedIac(Scan(false, []));
    assert [] + [IAC] == [IAC];
    SplitLinesUnique([IAC], [], [IAC]);
  }

  /** Scanning from a clean state, a byte other than IAC is kept. */
  lemma StripsPlain(x: byte)
    requires x != IAC
    ensures Strip([x]) == Scan(false, [x])
  {
    StripOne(Scan(false, []), x);
  }

  /** x IAC IAC y strips to x 255 y. */
  lemma StripsEscapedIac(x: byte, y: byte)
    requires x != IAC && y != IAC
    ensures Strip([x, IAC, IAC, y]) == Scan(false, [x, IAC, y])
  {
    StripsPlain(x);
    StripFromAppend(Scan(false, []), [x], [IAC, IAC]);
    EscapedIac(Scan(false, [x]));
    assert [x] + [IAC, IAC] == [x, IAC, IAC];
    StripFromAppend(Scan(false, []), [x, IAC, IAC], [y]);
    StripOne(Scan(false, [x, IAC]), y);
    assert [x, IAC, IAC] + [y] == [x, IAC, IAC, y];
  }

  /** x IAC y newline, with y no command byte, strips to x newline. */
  lemma StripsDroppedCommand(x: byte, y: byte)
    requires x != IAC && y != IAC && !(WILL <= y <= DONT)
    ensures Strip([x, IAC, y, NEWLINE]) == Scan(false, [x, NEWLINE])
  {
    StripsPlain(x);
    StripFromAppend(Scan(false, []), [x], [IAC, y]);
    TwoByteCommandDropped(Scan(false, [x]), y);
    assert [x] + [IAC, y] == [x, IAC, y];
    StripFromAppend(Scan(false, []), [x, IAC, y], [NEWLINE]);
    StripOne(Scan(false, [x]), NEWLINE);
    assert [x, IAC, y] + [NEWLINE] == [x, IAC, y, NEWLINE];
  }

  /** Appending a plain byte to a scan that ended outside any command keeps it. */
  lemma StripsThenPlain(b: seq<byte>, y: byte)
    requires !Strip(b).inCommand && y != IAC
    ensures Strip(b + [y]) == Scan(false, Strip(b).out + [y])
  {
    StripFromAppend(Scan(false, []), b, [y]);
    StripOne(Strip(b), y);
  }

  /**
   * The kept tail holds stripped bytes, but the next `read` strips it again:
   * a literal 255 (sent as IAC IAC) in an unfinished line is taken for the
   * start of a command the second time round. Receiving "a" IAC IAC "b" and
   * then the newline yields the line "a\n", while the same bytes in one read
   * yield "a" 255 "b\n".
   */
  lemma RereadLosesLiteralIac()
    ensures Read([97, IAC, IAC, 98]) == ReadResult([], [97, IAC, 98])
    ensures Read([97, IAC, 98, NEWLINE]).lines == [[97, NEWLINE]]
    ensures Read([97, IAC, IAC, 98, NEWLINE]).lines == [[97, IAC, 98, NEWLINE]]
  {
    ReadEscapedPartial();
    ReadEscapedLine();
    ReadRereadLine();
  }

  lemma ReadEscapedPartial()
    ensures Read([97, IAC, IAC, 98]) == ReadResult([], [97, IAC, 98])
  {
    StripsEscapedIac(97, 98);
    SplitLinesUnique([97, IAC, 98], [], [97, IAC, 98]);
  }

  lemma ReadEscapedLine()
    ensures Read([97, IAC, IAC, 98, NEWLINE]).lines == [[97, IAC, 98, NEWLINE]]
  {
    StripsEscapedIac(97, 98);
    StripsThenPlain([97, IAC, IAC, 98], NEWLINE);
    assert [97, IAC, IAC, 98] + [NEWLINE] == [97, IAC, IAC, 98, NEWLINE];
    assert Strip([97, IAC, IAC, 98, NEWLINE]) == Scan(false, [97, IAC, 98, NEWLINE]);
    SplitLinesUnique([97, IAC, 98, NEWLINE], [[97, IAC, 98, NEWLINE]], []);
  }

  lemma ReadRereadLine()
    ensures Read([97, IAC, 98, NEWLINE]).lines == [[97, NEWLINE]]
  {
    StripsDroppedCommand(97, 98);
    SplitLinesUnique([97, NEWLINE], [[97, NEWLINE]], []);
  }

  // ---------------------------------------------------------------------------
  // `read`, corrected: the decoder keeps its state instead of re-scanning

  /** Whether the last scan ended inside a command, and the stripped bytes of the unfinished line. */
  datatype Decoder = Decoder(inCommand: bool, pending: seq<byte>)

  const Fresh := Decoder(false, [])

  datatype Fed = Fed(lines: seq<seq<byte>>, decoder: Decoder)

  /** Decode newly received bytes, resuming the scan where the last one stopped. */
  function Feed(d: Decoder, data: seq<byte>): (r: Fed)
    ensures AllLines(r.lines) && NEWLINE !in r.decoder.pending
  {
    var s := StripFrom(Scan(d.inCommand, d.pending), data);
    var f := SplitLines(s.out);
    Fed(f.lines, Decoder(s.inCommand, f.rest))
  }

  /**
   * However the input is cut into reads, the decoder yields the same lines and
   * ends in the same state as if it had all arrived at once.
   */
  lemma FeedChunked(d: Decoder, a: seq<byte>, b: seq<byte>)
    ensures var first := Feed(d, a);
            var second := Feed(first.decoder, b);
            Feed(d, a + b) == Fed(first.lines + second.lines, second.decoder)
  {
    var start := Scan(d.inCommand, d.pending);
    StripFromAppend(start, a, b);
    var sa := StripFrom(start, a);
    var fa := SplitLines(sa.out);
    StripFromExtends(sa.inCommand, sa.out, b);
    StripFromExtends(sa.inCommand, fa.rest, b);
    var q := StripFrom(Scan(sa.inCommand, []), b).out;
    SplitLinesAppend(sa.out, q);
  }

  /** On the first read the corrected decoder and `read` agree. */
  lemma FeedFreshIsRead(recv: seq<byte>)
    ensures Feed(Fresh, recv).lines == Read(recv).lines
  {
  }

  /**
   * `read` resumes correctly whenever the unfinished line it kept holds no
   * literal 255: re-reading that buffer with new bytes gives the corrected
   * decoder's lines and state.
   */
  lemma RereadAgreesWithoutLiteralIac(a: seq<byte>, b: seq<byte>)
    requires IAC !in Feed(Fresh, a).decoder.pending
    ensures var d := Feed(Fresh, a).decoder;
            var r := Read(Read(a).buffer + b);
            && r.lines == Feed(d, b).lines
            && r.buffer == Feed(d, b).decoder.pending + (if Feed(d, b).decoder.inCommand then [IAC] else [])
  {
    var d := Feed(Fresh, a).decoder;
    var rest := d.pending;
    var buf := Read(a).buffer;
    RescanKept(a);
    StripFromAppend(Scan(false, []), buf, b);
    var s := StripFrom(Scan(d.inCommand, rest), b);
    assert Strip(buf + b) == s;
    var f := SplitLines(s.out);
    assert Feed(d, b) == Fed(f.lines, Decoder(s.inCommand, f.rest));
    assert Read(buf + b) == ReadResult(f.lines, if s.inCommand then f.rest + [IAC] else f.rest);
  }

  /** Without a literal 255 in it, scanning the kept buffer again restores the decoder's state. */
  lemma RescanKept(a: seq<byte>)
    requires IAC !in Feed(Fresh, a).decoder.pending
    ensures Strip(Read(a).buffer) == Scan(Feed(Fresh, a).decoder.inCommand, Feed(Fresh, a).decoder.pending)
  {
    var d := Feed(Fresh, a).decoder;
    var rest := d.pending;
    var buf := Read(a).buffer;
    NoIacPassesThrough([], rest);
    if d.inCommand {
      assert buf == rest + [IAC];
      StripFromAppend(Scan(false, []), rest, [IAC]);
    } else {
      assert buf == rest;
    }
  }

  // ---------------------------------------------------------------------------
  // `flush` and `write` (mica/net_helpers.py:35-61)

  /** What one `socket.send` call did: sent `n` bytes, or raised BlockingIOError or OSError. */
  datatype SendReply = Sent(n: nat) | WouldBlock | OsError

  /** Why the flush loop stopped. */
  datatype Stop = NoCompleteLine | Blocked | Failed | ScriptExhausted

  /** The chunks offered to `send`, how many bytes it took, what stays buffered, and why the loop ended. */
  datatype Flushed = Flushed(offered: seq<seq<byte>>, sent: nat, buffer: seq<byte>, stop: Stop)

  /** Every `send` reply consumed reported no more than the chunk it was offered. */
  predicate Honest(replies: seq<SendReply>, offered: seq<seq<byte>>) {
    forall i :: 0 <= i < |offered| && i < |replies| && replies[i].Sent? ==> replies[i].n <= |offered[i]|
  }

  /** The byte count the first `count` replies report. */
  function Reported(replies: seq<SendReply>, count: nat): nat {
    if |replies| == 0 || count == 0 then 0
    else (if replies[0].Sent? then replies[0].n else 0) + Reported(replies[1..], count - 1)
  }

  /**
   * After `count` replies of the script the loop stopped for `stop`'s reason:
   * every reply but the last was a successful send, and the loop ends on an
   * error exactly when the last reply was that error.
   */
  predicate EndedBy(replies: seq<SendReply>, count: nat, stop: Stop) {
    && count <= |replies|
    && (forall i :: 0 <= i < count - 1 ==> replies[i].Sent?)
    && (stop.Blocked? <==> count > 0 && replies[count - 1].WouldBlock?)
    && (stop.Failed? <==> count > 0 && replies[count - 1].OsError?)
    && (stop.ScriptExhausted? ==> count == |replies|)
  }

  lemma EndedAfterSent(replies: seq<SendReply>, count: nat, stop: Stop)
    requires |replies| > 0 && replies[0].Sent? && EndedBy(replies[1..], count, stop)
    ensures EndedBy(replies, count + 1, stop)
  {
    forall i | 0 <= i < count
      ensures replies[i].Sent?
    {
      if i > 0 {
        assert replies[i] == replies[1..][i - 1];
      }
    }
  }

  /**
   * The buffer up to and including its first newline: the one line it starts
   * with, or all of it when it holds no newline.
   */
  function FirstLineOf(b: seq<byte>): seq<byte> {
    if |b| == 0 then []
    else if b[0] == NEWLINE then [b[0]]
    else [b[0]] + FirstLineOf(b[1..])
  }

  /** A buffer holding a newline starts with exactly one line, `FirstLineOf` it; without one, it is all unfinished. */
  lemma {:induction false} FirstLineOfIsLine(b: seq<byte>)
    ensures NEWLINE in b ==> IsLine(FirstLineOf(b)) && |FirstLineOf(b)| <= |b| && FirstLineOf(b) == b[..|FirstLineOf(b)|]
    ensures NEWLINE !in b ==> FirstLineOf(b) == b
  {
    if |b| > 0 && b[0] != NEWLINE {
      FirstLineOfIsLine(b[1..]);
      assert b == [b[0]] + b[1..];
    }
  }

  /**
   * `flush`: while a complete line is buffered, offer the buffer up to and
   * including its first newline and drop as many bytes as `send` reports
   * (`self.__b_send_buffer[n_bytes:]`, so never more than there are); stop at
   * the first BlockingIOError or OSError. `replies` scripts the socket; when
   * it runs out the model stops, where the socket would be asked again.
   */
  function Flush(buffer: seq<byte>, replies: seq<SendReply>): (r: Flushed)
    ensures FlushedFrom(buffer, replies, r)
    ensures |r.offered| > 0 ==> NEWLINE in buffer && r.offered[0] == FirstLineOf(buffer)
    decreases |replies|
  {
    if NEWLINE !in buffer then Flushed([], 0, buffer, NoCompleteLine)
    else if |replies| == 0 then Flushed([], 0, buffer, ScriptExhausted)
    else
      var chunk := FirstLineOf(buffer);
      FirstLineOfIsLine(buffer);
      if replies[0].WouldBlock? then Flushed([chunk], 0, buffer, Blocked)
      else if replies[0].OsError? then Flushed([chunk], 0, buffer, Failed)
      else
        var k := if replies[0].n <= |buffer| then replies[0].n else |buffer|;
        var r := Flush(buffer[k..], replies[1..]);
        FlushedAfterSent(buffer, replies, chunk, k, r);
        Flushed([chunk] + r.offered, k + r.sent, r.buffer, r.stop)
  }

  /**
   * What `flush` leaves behind: the bytes dropped are a prefix of the buffer
   * and the rest stays queued; the chunks offered are lines; the loop stopped
   * for the reason the replies give; and it stops for want of a complete line
   * exactly when none is left.
   */
  predicate FlushedFrom(buffer: seq<byte>, replies: seq<SendReply>, r: Flushed) {
    && r.sent <= |buffer| && r.buffer == buffer[r.sent..]
    && AllLines(r.offered) && EndedBy(replies, |r.offered|, r.stop)
    && (r.stop.NoCompleteLine? <==> NEWLINE !in r.buffer)
  }

  /** One successful send of `k` bytes of the line `chunk`, then the rest of the loop. */
  lemma FlushedAfterSent(buffer: seq<byte>, replies: seq<SendReply>, chunk: seq<byte>, k: nat, r: Flushed)
    requires |replies| > 0 && replies[0].Sent? && IsLine(chunk) && k <= |buffer|
    requires FlushedFrom(buffer[k..], replies[1..], r)
    ensures FlushedFrom(buffer, replies, Flushed([chunk] + r.offered, k + r.sent, r.buffer, r.stop))
  {
    assert buffer[k..][r.sent..] == buffer[k + r.sent..];
    EndedAfterSent(replies, |r.offered|, r.stop);
    var all := [chunk] + r.offered;
    assert forall i :: 1 <= i < |all| ==> all[i] == r.offered[i - 1];
  }

  /** The facts about one successful send that both lemmas below rely on. */
  lemma FlushSentStep(buffer: seq<byte>, replies: seq<SendReply>)
    requires NEWLINE in buffer && |replies| > 0 && replies[0].Sent?
    requires Honest(replies, Flush(buffer, replies).offered)
    ensures replies[0].n <= |FirstLineOf(buffer)| <= |buffer|
    ensures var r := Flush(buffer, replies);
            var r' := Flush(buffer[replies[0].n..], replies[1..]);
            && Honest(replies[1..], r'.offered)
            && r.sent == replies[0].n + r'.sent
            && r.offered == [FirstLineOf(buffer)] + r'.offered
  {
    var chunk := FirstLineOf(buffer);
    FirstLineOfIsLine(buffer);
    var n := replies[0].n;
    var k := if n <= |buffer| then n else |buffer|;
    var r' := Flush(buffer[k..], replies[1..]);
    assert Flush(buffer, replies) == Flushed([chunk] + r'.offered, k + r'.sent, r'.buffer, r'.stop);
    HonestTail(replies, chunk, r'.offered);
    assert k == n;
    assert replies[0].n <= |FirstLineOf(buffer)| <= |buffer|;
    assert Flush(buffer, replies).offered == [FirstLineOf(buffer)] + Flush(buffer[replies[0].n..], replies[1..]).offered;
    assert Flush(buffer, replies).sent == replies[0].n + Flush(buffer[replies[0].n..], replies[1..]).sent;
    assert r' == Flush(buffer[replies[0].n..], replies[1..]);
  }

  /** Honesty about a run of offers is honesty about its first offer and about the rest. */
  lemma HonestTail(replies: seq<SendReply>, chunk: seq<byte>, offered: seq<seq<byte>>)
    requires |replies| > 0 && Honest(replies, [chunk] + offered)
    ensures replies[0].Sent? ==> replies[0].n <= |chunk|
    ensures Honest(replies[1..], offered)
  {
    var all := [chunk] + offered;
    assert all[0] == chunk;
    forall i | 0 <= i < |offered| && i < |replies[1..]| && replies[1..][i].Sent?
      ensures replies[1..][i].n <= |offered[i]|
    {
      assert all[i + 1] == offered[i];
    }
  }

  /** When every `send` reported no more than it was offered, `flush` dropped exactly the bytes reported. */
  lemma {:induction false} FlushSendsWhatIsReported(buffer: seq<byte>, replies: seq<SendReply>)
    requires Honest(replies, Flush(buffer, replies).offered)
    ensures Flush(buffer, replies).sent == Reported(replies, |Flush(buffer, replies).offered|)
    decreases |replies|
  {
    if NEWLINE !in buffer || |replies| == 0 {
    } else if !replies[0].Sent? {
      assert Reported(replies[1..], 0) == 0;
    } else {
      FlushSentStep(buffer, replies);
      FlushSendsWhatIsReported(buffer[replies[0].n..], replies[1..]);
    }
  }

  /**
   * When every `send` reported no more than it was offered, each chunk `flush`
   * offers is the first line of what is left of the buffer once the bytes the
   * earlier replies reported are gone: the loop always offers the head of the
   * queue, never bytes it has already sent and never anything out of order.
   */
  lemma FlushOffersLines(buffer: seq<byte>, replies: seq<SendReply>, i: nat)
    requires Honest(replies, Flush(buffer, replies).offered)
    requires i < |Flush(buffer, replies).offered|
    ensures Reported(replies, i) <= |buffer|
    ensures Flush(buffer, replies).offered[i] == FirstLineOf(buffer[Reported(replies, i)..])
  {
    FlushOffersAt(buffer, replies, i);
  }

  /** `FlushOffersLines`, by induction on the replies, stated through `OfferAt`. */
  lemma {:induction false} FlushOffersAt(buffer: seq<byte>, replies: seq<SendReply>, i: nat)
    requires Honest(replies, Flush(buffer, replies).offered)
    requires i < |Flush(buffer, replies).offered|
    ensures OfferAt(buffer, replies, i, Flush(buffer, replies).offered[i])
    decreases |replies|
  {
    if i == 0 {
      assert buffer[0..] == buffer;
    } else {
      LaterOffer(buffer, replies, i);
      var rest := buffer[replies[0].n..];
      FlushOffersAt(rest, replies[1..], i - 1);
      ShiftOffer(buffer, replies, i, rest, Flush(rest, replies[1..]).offered[i - 1]);
    }
  }

  /** `o` is the first line left in `buffer` once the bytes the first `i` replies report are gone. */
  predicate OfferAt(buffer: seq<byte>, replies: seq<SendReply>, i: nat, o: seq<byte>) {
    Reported(replies, i) <= |buffer| && o == FirstLineOf(buffer[Reported(replies, i)..])
  }

  /**
   * An offer after the first comes from the loop that resumes, after a
   * successful send, on the rest of the buffer.
   */
  lemma LaterOffer(buffer: seq<byte>, replies: seq<SendReply>, i: nat)
    requires Honest(replies, Flush(buffer, replies).offered)
    requires 0 < i < |Flush(buffer, replies).offered|
    ensures NEWLINE in buffer && |replies| > 0 && replies[0].Sent? && replies[0].n <= |buffer|
    ensures var r' := Flush(buffer[replies[0].n..], replies[1..]);
            && Honest(replies[1..], r'.offered) && i - 1 < |r'.offered|
            && Flush(buffer, replies).offered[i] == r'.offered[i - 1]
  {
    assert NEWLINE in buffer && |replies| > 0 && replies[0].Sent?;
    FlushSentStep(buffer, replies);
  }

  /** The first line after `m` more bytes of the rest is the first line after `n + m` bytes of the buffer. */
  lemma ShiftOffer(buffer: seq<byte>, replies: seq<SendReply>, i: nat, rest: seq<byte>, o: seq<byte>)
    requires |replies| > 0 && replies[0].Sent? && replies[0].n <= |buffer| && i > 0
    requires rest == buffer[replies[0].n..] && OfferAt(rest, replies[1..], i - 1, o)
    ensures OfferAt(buffer, replies, i, o)
  {
    var n := replies[0].n;
    var m := Reported(replies[1..], i - 1);
    assert rest[m..] == buffer[n + m..];
  }

  /**
   * When every `send` reported no more than it was offered, a newline follows
   * the last byte `flush` dropped: nothing after the buffer's last newline is
   * ever sent.
   */
  lemma {:induction false} FlushKeepsPartialLine(buffer: seq<byte>, replies: seq<SendReply>)
    requires Honest(replies, Flush(buffer, replies).offered)
    ensures var r := Flush(buffer, replies);
            r.sent == 0 || NEWLINE in buffer[r.sent - 1..]
    decreases |replies|
  {
    if NEWLINE in buffer && |replies| > 0 && replies[0].Sent? {
      FlushSentStep(buffer, replies);
      FirstLineOfIsLine(buffer);
      var t := |FirstLineOf(buffer)| - 1;
      var k := replies[0].n;
      var r' := Flush(buffer[k..], replies[1..]);
      FlushKeepsPartialLine(buffer[k..], replies[1..]);
      NewlineAfter(buffer, t, k, r'.sent);
    }
  }

  /** Dropping `k` bytes, no further than a newline at `t`, and then `m` more keeps a newline at or after the last dropped byte. */
  lemma NewlineAfter(buffer: seq<byte>, t: nat, k: nat, m: nat)
    requires t < |buffer| && buffer[t] == NEWLINE && k <= t + 1 && k + m <= |buffer|
    requires m == 0 || NEWLINE in buffer[k..][m - 1..]
    ensures k + m == 0 || NEWLINE in buffer[k + m - 1..]
  {
    if m == 0 {
      if k > 0 {
        assert buffer[k - 1..][t - (k - 1)] == NEWLINE;
      }
    } else {
      assert buffer[k..][m - 1..] == buffer[k + m - 1..];
    }
  }

  /** What `write` accepts: text, which it encodes, or bytes. */
  datatype Data = Text(text: string) | Raw(bytes: seq<byte>)

  function Payload(d: Data): seq<byte> {
    match d
    case Text(s) => Utf8.Encode(s)
    case Raw(b) => b
  }

  /**
   * `write`: queue the data after what is already buffered — text as UTF-8 —
   * then flush. Nothing is lost or reordered: what was sent followed by what
   * stays buffered is the old buffer followed by the data.
   */
  function Write(buffer: seq<byte>, data: Data, replies: seq<SendReply>): (r: Flushed)
    ensures r.sent <= |buffer| + |Payload(data)| && r.buffer == (buffer + Payload(data))[r.sent..]
    ensures r.stop.NoCompleteLine? <==> NEWLINE !in r.buffer
  {
    Flush(buffer + Payload(data), replies)
  }

  /** Writing text is writing its UTF-8 encoding as bytes. */
  lemma WriteTextIsEncoded(buffer: seq<byte>, t: string, replies: seq<SendReply>)
    ensures Write(buffer, Text(t), replies) == Write(buffer, Raw(Utf8.Encode(t)), replies)
  {
  }

  /** Writing a text that ends a line to an empty buffer makes a complete line available to `send`. */
  lemma WriteLineOffers(s: string, replies: seq<SendReply>)
    requires |replies| > 0 && '\n' in s
    ensures |Write([], Text(s), replies).offered| >= 1
  {
    Utf8.EncodeNewline(s);
    assert [] + Utf8.Encode(s) == Utf8.Encode(s);
  }
}
