/** Bytes and the few operations on byte strings the transport uses. */
module Bytes {

  newtype byte = x: int | 0 <= x < 256

  /** Concatenation of a list of chunks, `b''.join(chunks)`. */
  function Concat<T>(chunks: seq<seq<T>>): seq<T> {
    if |chunks| == 0 then [] else chunks[0] + Concat(chunks[1..])
  }

  lemma {:induction false} ConcatAppend<T>(a: seq<seq<T>>, b: seq<seq<T>>)
    ensures Concat(a + b) == Concat(a) + Concat(b)
  {
    if |a| == 0 {
      assert a + b == b;
    } else {
      ConcatAppend(a[1..], b);
      assert (a + b)[0] == a[0];
      assert (a + b)[1..] == a[1..] + b;
      assert Concat(a + b) == a[0] + Concat(a[1..] + b);
    }
  }

  /** `bs.index(b)`: the position of the first occurrence. */
  function IndexOf(bs: seq<byte>, b: byte): (t: nat)
    requires b in bs
    ensures t < |bs| && bs[t] == b && b !in bs[..t]
  {
    if bs[0] == b then 0
    else
      var t := IndexOf(bs[1..], b) + 1;
      assert bs[..t] == [bs[0]] + bs[1..][..t - 1];
      t
  }
}
