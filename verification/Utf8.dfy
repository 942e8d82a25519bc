/**
 * UTF-8 encoding of text (`str.encode('utf-8')`), which `write` applies to
 * text before queueing it. Dafny's `char` is a Unicode scalar value, so every
 * character has an encoding.
 */
module Utf8 {
  import opened Bytes

  /** Marks a continuation byte, `10xxxxxx`. */
  predicate IsContinuation(b: byte) { 0x80 <= b < 0xC0 }

  /** How many bytes the sequence starting with lead byte `b` has. */
  function SequenceLength(b: byte): nat {
    if b < 0x80 then 1 else if b < 0xE0 then 2 else if b < 0xF0 then 3 else 4
  }

  /**
   * The one to four bytes of a character: one byte, itself, below 0x80; else a
   * lead byte that announces the length and continuation bytes, so no byte of a
   * longer sequence is ASCII.
   */
  function EncodeChar(c: char): (r: seq<byte>)
    ensures 1 <= |r| <= 4 && |r| == SequenceLength(r[0])
    ensures (c as int) < 0x80 <==> |r| == 1
    ensures |r| == 1 ==> r[0] as int == c as int
    ensures |r| > 1 ==> 0xC2 <= r[0] && forall i :: 1 <= i < |r| ==> IsContinuation(r[i])
  {
    var n := c as int;
    var n1, n2, n3 := n / 64, n / 64 / 64, n / 64 / 64 / 64;
    if n < 0x80 then [n as byte]
    else if n < 0x800 then [(0xC0 + n1) as byte, (0x80 + n % 64) as byte]
    else if n < 0x10000 then [(0xE0 + n2) as byte, (0x80 + n1 % 64) as byte, (0x80 + n % 64) as byte]
    else [(0xF0 + n3) as byte, (0x80 + n2 % 64) as byte, (0x80 + n1 % 64) as byte, (0x80 + n % 64) as byte]
  }

  /** The scalar value carried by one well-formed encoded sequence. */
  function CodePoint(bs: seq<byte>): int
    requires 1 <= |bs| <= 4
  {
    if |bs| == 1 then bs[0] as int
    else if |bs| == 2 then (bs[0] as int - 0xC0) * 64 + (bs[1] as int - 0x80)
    else if |bs| == 3 then ((bs[0] as int - 0xE0) * 64 + (bs[1] as int - 0x80)) * 64 + (bs[2] as int - 0x80)
    else (((bs[0] as int - 0xF0) * 64 + (bs[1] as int - 0x80)) * 64 + (bs[2] as int - 0x80)) * 64 + (bs[3] as int - 0x80)
  }

  /** Decoding a character's encoding gives the character back. */
  lemma CodePointEncodeChar(c: char)
    ensures CodePoint(EncodeChar(c)) == c as int
  {
  }

  /** `s.encode('utf-8')`. */
  function Encode(s: string): (r: seq<byte>)
    ensures |s| <= |r| <= 4 * |s|
  {
    if |s| == 0 then [] else EncodeChar(s[0]) + Encode(s[1..])
  }

  lemma {:induction false} EncodeAppend(a: string, b: string)
    ensures Encode(a + b) == Encode(a) + Encode(b)
  {
    if |a| > 0 {
      EncodeAppend(a[1..], b);
      assert (a + b)[1..] == a[1..] + b;
    } else {
      assert a + b == b;
    }
  }

  /** The newline byte appears in the encoding exactly where the text has a newline. */
  lemma {:induction false} EncodeNewline(s: string)
    ensures (10 as byte in Encode(s)) <==> '\n' in s
  {
    if |s| > 0 {
      EncodeNewline(s[1..]);
      var e := EncodeChar(s[0]);
      assert Encode(s) == e + Encode(s[1..]);
      assert 10 as byte in e <==> s[0] == '\n';
      assert s == [s[0]] + s[1..];
    }
  }

  /** Text below 0x80 encodes byte for byte. */
  lemma {:induction false} EncodeAscii(s: string)
    requires forall i :: 0 <= i < |s| ==> (s[i] as int) < 0x80
    ensures |Encode(s)| == |s|
    ensures forall i :: 0 <= i < |s| ==> Encode(s)[i] as int == s[i] as int
  {
    if |s| > 0 {
      EncodeAscii(s[1..]);
    }
  }
}
