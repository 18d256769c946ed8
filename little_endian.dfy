/** Python's `int.to_bytes(size, 'little')` for unsigned values, with the
    decoding `int.from_bytes(s, 'little')` as its reference inverse. */
module LittleEndian {
  import opened Base

  /** 256 to the power n: the number of values that fit in n bytes. */
  function Pow256(n: nat): (r: nat)
    ensures r > 0
  {
    if n == 0 then 1 else 256 * Pow256(n - 1)
  }

  /** The unsigned value of a little-endian byte string. */
  function FromBytes(s: seq<byte>): (n: nat)
    ensures n < Pow256(|s|)
  {
    if s == [] then 0 else s[0] + 256 * FromBytes(s[1..])
  }

  /** n written as exactly `size` little-endian bytes; n must fit. */
  function Encode(n: nat, size: nat): (s: seq<byte>)
    requires n < Pow256(size)
    ensures |s| == size && FromBytes(s) == n
  {
    if size == 0 then []
    else
      DivMod256(n, Pow256(size - 1));
      var lo := n % 256;
      var rest := Encode(n / 256, size - 1);
      var s := [lo] + rest;
      assert s[0] == lo && s[1..] == rest;
      s
  }

  /** Splitting a value into its low byte and the rest. */
  lemma DivMod256(n: nat, p: nat)
    requires n < 256 * p
    ensures n / 256 < p && n == n % 256 + 256 * (n / 256) && n % 256 < 256
  {
  }

  /** `size` zero bytes (`b'\x00' * size`). */
  function Zeros(size: nat): (s: seq<byte>)
    ensures |s| == size && forall k :: 0 <= k < size ==> s[k] == 0
  {
    seq(size, _ => 0)
  }

  /** `n.to_bytes(size, 'little')`: OverflowError for a negative n and for
      an n that does not fit in `size` bytes, never a truncation. */
  function ToBytes(n: int, size: nat): (r: Result<seq<byte>>)
    ensures r.Success? <==> 0 <= n < Pow256(size)
    ensures r.Success? ==> |r.value| == size && FromBytes(r.value) == n
    ensures r.Failure? ==> r.error == OverflowError
  {
    if 0 <= n < Pow256(size) then Success(Encode(n, size)) else Failure(OverflowError)
  }

  /** Decoding then encoding gives back the bytes: the encoding is onto and
      one-to-one on strings of a given length. */
  lemma {:induction false} EncodeFromBytes(s: seq<byte>)
    ensures Encode(FromBytes(s), |s|) == s
  {
    if s != [] {
      var n := FromBytes(s);
      var t := FromBytes(s[1..]);
      assert n == s[0] + 256 * t;
      SplitLowByte(n, s[0], t);
      EncodeFromBytes(s[1..]);
      assert Encode(n, |s|) == [n % 256] + Encode(t, |s| - 1);
    }
  }

  /** The low byte and the rest of a value are unique. */
  lemma SplitLowByte(n: nat, lo: nat, hi: nat)
    requires lo < 256 && n == lo + 256 * hi
    ensures n % 256 == lo && n / 256 == hi
  {
  }

  /** Two values that fit encode alike exactly when they are equal. */
  lemma EncodeInjective(m: nat, n: nat, size: nat)
    requires m < Pow256(size) && n < Pow256(size)
    ensures Encode(m, size) == Encode(n, size) <==> m == n
  {
  }

  /** The unbound placeholder is the encoding of offset 0. */
  lemma {:induction false} ZerosEncodeZero(size: nat)
    ensures Encode(0, size) == Zeros(size)
  {
    if size > 0 {
      ZerosEncodeZero(size - 1);
      assert Zeros(size) == [0] + Zeros(size - 1);
    }
  }
}
