/** The two `bytearray` operations the binary image relies on, with Python's
    index normalisation: `b[i]` and the slice assignment `b[lo:hi] = r`. */
module PyBytes {
  import opened Base

  /** A slice bound `i` normalised against a sequence of length n: a
      negative bound counts from the end, and the result is clamped to
      [0, n]. */
  function SliceBound(i: int, n: nat): (r: nat)
    ensures r <= n
    ensures 0 <= i <= n ==> r == i
    ensures i > n ==> r == n
  {
    if i < 0 then (if i + n < 0 then 0 else i + n)
    else if i > n then n
    else i
  }

  /** `b[lo:hi] = r` on a bytearray: the normalised slice (an upper bound
      below the lower one is raised to it) is replaced by r, so the length
      changes whenever the slice and r differ in size. */
  function SliceAssign(b: seq<byte>, lo: int, hi: int, r: seq<byte>): (res: seq<byte>)
    ensures hi - lo == |r| ==> |res| >= |b|
    ensures 0 <= lo && hi == lo + |r| && hi <= |b| ==>
              |res| == |b| &&
              forall k :: 0 <= k < |b| ==> res[k] == if lo <= k < hi then r[k - lo] else b[k]
  {
    var l := SliceBound(lo, |b|);
    var h := if SliceBound(hi, |b|) < l then l else SliceBound(hi, |b|);
    b[..l] + r + b[h..]
  }

  /** `b[i]`: a negative index counts from the end; IndexError outside
      [-|b|, |b|). */
  function Index(b: seq<byte>, i: int): (r: Result<byte>)
    ensures r.Success? <==> -|b| <= i < |b|
    ensures 0 <= i < |b| ==> r == Success(b[i])
    ensures -|b| <= i < 0 ==> r == Success(b[i + |b|])
    ensures r.Failure? ==> r.error == IndexError
  {
    if 0 <= i < |b| then Success(b[i])
    else if -|b| <= i < 0 then Success(b[i + |b|])
    else Failure(IndexError)
  }

  /** Appending bytes keeps the byte at a non-negative index of the prefix,
      and the suffix's bytes move up by the prefix's length. */
  lemma IndexAppend(b: seq<byte>, c: seq<byte>, i: int)
    requires 0 <= i
    ensures i < |b| ==> Index(b + c, i) == Index(b, i)
    ensures Index(b + c, |b| + i) == Index(c, i)
  {
  }
}
