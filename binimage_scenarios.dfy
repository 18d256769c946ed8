/** Whole runs of the binary image, each with its outcome stated as a
    postcondition: the cases of test_binimage.py, and a cycle of three
    3-byte images, each embedding a pointer to the next one's first byte,
    merged into one image in two different orders. */
module BinImageScenarios {
  import opened Base
  import opened LittleEndian
  import opened BinImage

  /** b"01234567" */
  const Digits: seq<byte> := [0x30, 0x31, 0x32, 0x33, 0x34, 0x35, 0x36, 0x37]

  /** A fresh image holding init, with one pointer of width size to its
      offset i. */
  method Mint(init: seq<byte>, size: nat, i: int) returns (img: BinaryImage, p: Pointer)
    ensures fresh(img) && fresh(p)
    ensures img.bytes == init && img.refsFrom == [p] && img.refsTo == []
    ensures p.size == size && p.dest == Some(Location(img, i)) && p.uses == []
  {
    img := new BinaryImage(init);
    p := img.PointerAt(size, i);
  }

  /** `img.extend(p)` for a pointer whose bytes render as rep. */
  method Embed(img: BinaryImage, p: Pointer, rep: seq<byte>)
    requires p.Repr() == Success(rep)
    modifies img, p`uses
    ensures img.bytes == old(img.bytes) + rep
    ensures img.refsFrom == old(img.refsFrom) && img.refsTo == old(img.refsTo) + [p]
    ensures p.uses == old(p.uses) + [Location(img, |old(img.bytes)|)]
  {
    var r := img.Extend(PointerArg(p), {}, {});
  }

  /** Resolving a pointer whose only use is the placeholder at the end of
      init writes the encoding of its offset there. */
  method ResolvePlaceholder(img: BinaryImage, p: Pointer, init: seq<byte>, d: nat) returns (r: Outcome)
    requires d < Pow256(p.size) && p.dest == Some(Location(img, d))
    requires p.uses == [Location(img, |init|)] && img.bytes == init + Zeros(p.size)
    modifies img`bytes
    ensures r == Pass && img.bytes == init + Encode(d, p.size)
  {
    r := p.Resolve({}, {});
    DeferredWriteIsLiteral(init, img, p.size, d);
  }

  /** A pointer minted by an image points at the byte it was minted for,
      renders that offset, and is recorded in refsFrom only. */
  method PointerAtScenario() returns (p: Pointer, rep: Result<seq<byte>>, from: seq<Pointer>, to: seq<Pointer>, at: Result<Option<byte>>)
    ensures rep.Success? && rep.value == [0x04, 0x00, 0x00, 0x00]
    ensures from == [p] && to == []
    ensures at.Success? && at.value == Some(0x34)
  {
    var bi := new BinaryImage(Digits);
    p := bi.PointerAt(4, 4);
    rep := p.Repr();
    EncodeFromBytes([0x04, 0x00, 0x00, 0x00]);
    from, to := bi.refsFrom, bi.refsTo;
    at := p.GetByteAt();
  }

  /** Extending with a bound pointer appends its rendered offset and records
      it in refsTo only. */
  method ExtendPointerScenario() returns (p: Pointer, bytes: seq<byte>, from: seq<Pointer>, to: seq<Pointer>)
    ensures bytes == Digits + [0x04, 0x00, 0x00, 0x00]
    ensures from == [] && to == [p]
  {
    var bi := new BinaryImage(Digits);
    p := new Pointer(4, Some(Location(bi, 4)));
    var r := bi.Extend(PointerArg(p), {}, {});
    EncodeFromBytes([0x04, 0x00, 0x00, 0x00]);
    bytes, from, to := bi.bytes, bi.refsFrom, bi.refsTo;
  }

  /** An unbound pointer is appended as zeros and cannot be resolved; once
      bound, resolving writes its offset over the zeros. */
  method ResolveBasicScenario() returns (placeholder: seq<byte>, first: Outcome, second: Outcome, bytes: seq<byte>)
    ensures placeholder == Digits + [0x00, 0x00, 0x00, 0x00]
    ensures first == Fail(ValueError(NoDestinationMsg))
    ensures second == Pass
    ensures bytes == Digits + [0x04, 0x00, 0x00, 0x00]
  {
    var bi := new BinaryImage(Digits);
    var p := new Pointer(4, None);
    Embed(bi, p, Zeros(4));
    placeholder := bi.bytes;
    assert Zeros(4) == [0x00, 0x00, 0x00, 0x00];
    first := p.Resolve({}, {});
    p.SetDest(bi, 4);
    second := ResolvePlaceholder(bi, p, Digits, 4);
    bytes := bi.bytes;
    EncodeFromBytes([0x04, 0x00, 0x00, 0x00]);
  }

  /** Combining b"0123" with b"4567": the survivor holds all eight bytes and
      both pointers, the second now 4 bytes further on, and each still reads
      the byte it was minted for. */
  method CombineBasicScenario() returns (bytes: seq<byte>, from: seq<Pointer>, to: seq<Pointer>,
                                         d1: Option<Location>, d2: Option<Location>,
                                         before1: Result<Option<byte>>, before2: Result<Option<byte>>,
                                         after1: Result<Option<byte>>, after2: Result<Option<byte>>)
    ensures bytes == Digits && |from| == 2 && to == []
    ensures d1.Some? && d1.value.idx == 1 && d2.Some? && d2.value.idx == 6
    ensures before1 == after1 == Success(Some(0x31))
    ensures before2 == after2 == Success(Some(0x36))
  {
    var bi1, p1 := Mint(Digits[..4], 4, 1);
    var bi2, p2 := Mint(Digits[4..], 4, 2);
    before1, before2 := p1.GetByteAt(), p2.GetByteAt();
    assert p2 in bi2.refsFrom && Count(bi2.refsFrom, p2) == 1;
    bi1.Combine(bi2, {}, {});
    assert Digits[..4] + Digits[4..] == Digits;
    bytes, from, to := bi1.bytes, bi1.refsFrom, bi1.refsTo;
    d1, d2 := p1.dest, p2.dest;
    after1, after2 := p1.GetByteAt(), p2.GetByteAt();
  }

  /** Appending a placeholder, binding it and resolving it gives the same
      bytes as appending the offset's encoding directly. */
  method DeferredMatchesLiteral(init: seq<byte>, size: nat, d: nat) returns (deferred: seq<byte>, literal: seq<byte>, resolved: Outcome)
    requires d < Pow256(size)
    ensures resolved == Pass
    ensures deferred == literal == init + Encode(d, size)
  {
    var a := new BinaryImage(init);
    var p := new Pointer(size, None);
    Embed(a, p, Zeros(size));
    p.SetDest(a, d);
    resolved := ResolvePlaceholder(a, p, init, d);
    deferred := a.bytes;

    var b := new BinaryImage(init);
    var r := b.Extend(BytesArg(Encode(d, size)), {}, {});
    literal := b.bytes;
  }

  /** Three 3-byte images b"012", b"345", b"678", each with a 1-byte pointer
      to its own first byte, each embedding the next image's pointer. */
  method BuildCycle() returns (a: BinaryImage, b: BinaryImage, c: BinaryImage, pa: Pointer, pb: Pointer, pc: Pointer)
    ensures fresh(a) && fresh(b) && fresh(c) && fresh(pa) && fresh(pb) && fresh(pc)
    ensures a != b && b != c && a != c && pa != pb && pb != pc && pa != pc
    ensures a.bytes == [0x30, 0x31, 0x32, 0x00] && b.bytes == [0x33, 0x34, 0x35, 0x00] && c.bytes == [0x36, 0x37, 0x38, 0x00]
    ensures a.refsFrom == [pa] && b.refsFrom == [pb] && c.refsFrom == [pc]
    ensures a.refsTo == [pb] && b.refsTo == [pc] && c.refsTo == [pa]
    ensures pa.size == 1 && pb.size == 1 && pc.size == 1
    ensures pa.dest == Some(Location(a, 0)) && pb.dest == Some(Location(b, 0)) && pc.dest == Some(Location(c, 0))
    ensures pa.uses == [Location(c, 3)] && pb.uses == [Location(a, 3)] && pc.uses == [Location(b, 3)]
  {
    a, pa := Mint([0x30, 0x31, 0x32], 1, 0);
    b, pb := Mint([0x33, 0x34, 0x35], 1, 0);
    c, pc := Mint([0x36, 0x37, 0x38], 1, 0);
    assert Encode(0, 1) == [0x00];
    Embed(a, pb, [0x00]);
    Embed(b, pc, [0x00]);
    Embed(c, pa, [0x00]);
  }

  /** After absorbing the second and third image into the first and
      resolving every pointer, each placeholder holds its target's offset in
      the merged image. */
  method ThreeWayChainScenario() returns (bytes: seq<byte>, ra: Outcome, rb: Outcome, rc: Outcome)
    ensures ra == Pass && rb == Pass && rc == Pass
    ensures bytes == [0x30, 0x31, 0x32, 0x04, 0x33, 0x34, 0x35, 0x08, 0x36, 0x37, 0x38, 0x00]
  {
    var a, b, c, pa, pb, pc := BuildCycle();
    MergeInto(a, b, c, pa, pb, pc);
    ra, rb, rc := ResolveMerged(a, pa, pb, pc);
    bytes := a.bytes;
  }

  /** `a.combine(b)` then `a.combine(c)` on the cycle: every destination and
      every use ends up in a. */
  method MergeInto(a: BinaryImage, b: BinaryImage, c: BinaryImage, pa: Pointer, pb: Pointer, pc: Pointer)
    requires a != b && b != c && a != c && pa != pb && pb != pc && pa != pc
    requires a.bytes == [0x30, 0x31, 0x32, 0x00] && b.bytes == [0x33, 0x34, 0x35, 0x00] && c.bytes == [0x36, 0x37, 0x38, 0x00]
    requires b.refsFrom == [pb] && c.refsFrom == [pc] && b.refsTo == [pc] && c.refsTo == [pa]
    requires pa.dest == Some(Location(a, 0)) && pb.dest == Some(Location(b, 0)) && pc.dest == Some(Location(c, 0))
    requires pa.uses == [Location(c, 3)] && pb.uses == [Location(a, 3)] && pc.uses == [Location(b, 3)]
    modifies a, pb`dest, pc`dest, pa`uses, pc`uses
    ensures a.bytes == [0x30, 0x31, 0x32, 0x00, 0x33, 0x34, 0x35, 0x00, 0x36, 0x37, 0x38, 0x00]
    ensures pa.dest == Some(Location(a, 0)) && pb.dest == Some(Location(a, 4)) && pc.dest == Some(Location(a, 8))
    ensures pa.uses == [Location(a, 11)] && pb.uses == [Location(a, 3)] && pc.uses == [Location(a, 7)]
  {
    assert pb in b.refsFrom && pc in b.refsTo && Count(b.refsFrom, pb) == 1;
    a.Combine(b, {}, {});
    assert pc in c.refsFrom && pa in c.refsTo && Count(c.refsFrom, pc) == 1;
    a.Combine(c, {}, {});
  }

  /** The final pass over the merged chain. */
  method ResolveMerged(a: BinaryImage, pa: Pointer, pb: Pointer, pc: Pointer) returns (ra: Outcome, rb: Outcome, rc: Outcome)
    requires a.bytes == [0x30, 0x31, 0x32, 0x00, 0x33, 0x34, 0x35, 0x00, 0x36, 0x37, 0x38, 0x00]
    requires pa.size == 1 && pb.size == 1 && pc.size == 1
    requires pa.dest == Some(Location(a, 0)) && pb.dest == Some(Location(a, 4)) && pc.dest == Some(Location(a, 8))
    requires pa.uses == [Location(a, 11)] && pb.uses == [Location(a, 3)] && pc.uses == [Location(a, 7)]
    modifies a`bytes
    ensures ra == Pass && rb == Pass && rc == Pass
    ensures a.bytes == [0x30, 0x31, 0x32, 0x04, 0x33, 0x34, 0x35, 0x08, 0x36, 0x37, 0x38, 0x00]
  {
    ra := ResolveByte(a, pa, 11, 0);
    rb := ResolveByte(a, pb, 3, 4);
    rc := ResolveByte(a, pc, 7, 8);
  }

  /** Resolving a 1-byte pointer with a single use in its own image stores
      the destination offset at that use. */
  method ResolveByte(a: BinaryImage, p: Pointer, i: nat, d: nat) returns (r: Outcome)
    requires p.size == 1 && d < 256 && i < |a.bytes|
    requires p.dest == Some(Location(a, d)) && p.uses == [Location(a, i)]
    modifies a`bytes
    ensures r == Pass
    ensures a.bytes == old(a.bytes)[i := d]
  {
    ghost var b := a.bytes;
    r := p.Resolve({}, {});
    EncodeFromBytes([d]);
    WriteOneUse(b, Location(a, i), 1, [d]);
    assert a.bytes == b[..i] + [d] + b[i + 1..];
  }

  /** The same three images merged as a chain, the third into the second and
      then the second into the first: combine carries only refsFrom over, so
      the pointer embedded in the third image keeps its use in the absorbed
      second image and cannot be resolved; the other two can. */
  method ChainedCombineScenario() returns (stale: seq<Location>, absorbed: BinaryImage, ra: Outcome, rb: Outcome, rc: Outcome)
    ensures stale == [Location(absorbed, 7)]
    ensures ra == Fail(ValueError(UnresolvedUsesMsg))
    ensures rb == Pass && rc == Pass
  {
    var a, b, c, pa, pb, pc := BuildCycle();
    MergeChain(a, b, c, pa, pb, pc);
    stale, absorbed := pa.uses, b;
    assert !pa.Consolidated();
    ra := pa.Resolve({}, {});
    rb := ResolveByte(a, pb, 3, 4);
    rc := ResolveByte(a, pc, 7, 8);
  }

  /** `b.combine(c)` then `a.combine(b)` on the cycle: every pointer ends up
      bound into a, and pa's only use is still in b. */
  method MergeChain(a: BinaryImage, b: BinaryImage, c: BinaryImage, pa: Pointer, pb: Pointer, pc: Pointer)
    requires a != b && b != c && a != c && pa != pb && pb != pc && pa != pc
    requires a.bytes == [0x30, 0x31, 0x32, 0x00] && b.bytes == [0x33, 0x34, 0x35, 0x00] && c.bytes == [0x36, 0x37, 0x38, 0x00]
    requires a.refsFrom == [pa] && b.refsFrom == [pb] && c.refsFrom == [pc]
    requires a.refsTo == [pb] && b.refsTo == [pc] && c.refsTo == [pa]
    requires pa.size == 1 && pb.size == 1 && pc.size == 1
    requires pa.dest == Some(Location(a, 0)) && pb.dest == Some(Location(b, 0)) && pc.dest == Some(Location(c, 0))
    requires pa.uses == [Location(c, 3)] && pb.uses == [Location(a, 3)] && pc.uses == [Location(b, 3)]
    modifies a, b, pa, pb, pc
    ensures a.bytes == [0x30, 0x31, 0x32, 0x00, 0x33, 0x34, 0x35, 0x00, 0x36, 0x37, 0x38, 0x00]
    ensures pa.uses == [Location(b, 7)] && pb.uses == [Location(a, 3)] && pc.uses == [Location(a, 7)]
    ensures pa.dest == Some(Location(a, 0)) && pb.dest == Some(Location(a, 4)) && pc.dest == Some(Location(a, 8))
  {
    AbsorbThird(b, c, pa, pb, pc);
    assert pb in b.refsFrom && pc in b.refsFrom && pc in b.refsTo;
    assert Count(b.refsFrom, pb) == 1 && Count(b.refsFrom, pc) == 1;
    a.Combine(b, {}, {});
  }

  /** The first step of the chain, `b.combine(c)`. */
  method AbsorbThird(b: BinaryImage, c: BinaryImage, pa: Pointer, pb: Pointer, pc: Pointer)
    requires b != c && pa != pb && pb != pc && pa != pc
    requires b.bytes == [0x33, 0x34, 0x35, 0x00] && c.bytes == [0x36, 0x37, 0x38, 0x00]
    requires b.refsFrom == [pb] && c.refsFrom == [pc]
    requires b.refsTo == [pc] && c.refsTo == [pa]
    requires pc.dest == Some(Location(c, 0)) && pa.uses == [Location(c, 3)]
    modifies b, pc`dest, pa`uses
    ensures b.bytes == [0x33, 0x34, 0x35, 0x00, 0x36, 0x37, 0x38, 0x00]
    ensures b.refsFrom == [pb, pc] && b.refsTo == [pc]
    ensures pc.dest == Some(Location(b, 4)) && pa.uses == [Location(b, 7)]
  {
    assert pc in c.refsFrom && pa in c.refsTo && Count(c.refsFrom, pc) == 1;
    b.Combine(c, {}, {});
  }
}
