/** A relocatable binary image: a growable byte buffer holding fixed-width
    placeholder pointers whose value is written in once their destination
    is known, and which can absorb another image while rebasing every
    pointer that refers into it. */
module BinImage {
  import opened Base
  import opened LittleEndian
  import opened PyBytes

  /** A byte offset in an image. In the source a Location is a mutable
      record, but each use is created fresh and held by one pointer, so
      rewriting it in place is the same as replacing it in the pointer's
      list of uses. */
  datatype Location = Location(image: BinaryImage, idx: int)

  /** What `BinaryImage.extend` can be given. */
  datatype Extension =
    | ImageArg(image: BinaryImage)
    | PointerArg(pointer: Pointer)
    | BytesArg(data: seq<byte>)

  /** A use at u can hold `size` bytes of an image of length len. */
  predicate Fits(u: Location, size: nat, len: nat)
  {
    0 <= u.idx && u.idx + size <= len
  }

  /** The whole-system invariant: every use of every pointer of ps lies in
      an image of imgs and has room for the pointer's bytes there. */
  ghost predicate UsesFit(ps: set<Pointer>, imgs: set<BinaryImage>)
    reads ps`uses, imgs`bytes
  {
    forall p, u {:trigger u in p.uses, p in ps} :: p in ps && u in p.uses ==>
      u.image in imgs && Fits(u, p.size, |u.image.bytes|)
  }

  /** UsesFit as it will hold once `img` has grown to length len. */
  ghost predicate FitAfterAppend(ps: set<Pointer>, imgs: set<BinaryImage>, img: BinaryImage, len: nat)
    reads ps`uses, imgs`bytes
  {
    forall p, u {:trigger u in p.uses, p in ps} :: p in ps && u in p.uses ==>
      u.image in imgs && Fits(u, p.size, if u.image == img then len else |u.image.bytes|)
  }

  /** Under the invariant, every use of a consolidated pointer fits in its
      destination's image, which is what the writes of resolve need. */
  lemma UsesFitAllFit(ps: set<Pointer>, imgs: set<BinaryImage>, p: Pointer)
    requires UsesFit(ps, imgs) && p in ps && p.Consolidated()
    ensures AllFit(p.uses, p.size, |p.dest.value.image.bytes|)
  {
  }

  // ---------------------------------------------------------------------
  // What combine does to the bookkeeping, as functions of the old state

  /** The bound pointers of ps, in order (those combine moves). */
  function Bound(ps: seq<Pointer>): (r: seq<Pointer>)
    reads set p | p in ps
    ensures forall j :: 0 <= j < |r| ==> r[j] in ps && r[j].dest.Some?
    ensures forall j :: 0 <= j < |ps| && ps[j].dest.Some? ==> ps[j] in r
  {
    if ps == [] then []
    else
      var last := ps[|ps| - 1];
      Bound(ps[..|ps| - 1]) + if last.dest.Some? then [last] else []
  }

  /** Bound keeps the order of the list: the bound pointers of a list
      split in two are those of the first part followed by those of the
      second. */
  lemma {:induction false} BoundConcat(ps: seq<Pointer>, qs: seq<Pointer>)
    ensures Bound(ps + qs) == Bound(ps) + Bound(qs)
  {
    if qs == [] {
      assert ps + qs == ps;
    } else {
      var init, last := qs[..|qs| - 1], qs[|qs| - 1];
      assert (ps + qs)[..|ps + qs| - 1] == ps + init;
      BoundConcat(ps, init);
    }
  }

  /** Bound keeps every bound pointer as often as it is listed, and drops
      every unbound one. */
  lemma {:induction false} BoundCount(ps: seq<Pointer>, q: Pointer)
    ensures Count(Bound(ps), q) == if q in ps && q.dest.Some? then Count(ps, q) else 0
  {
    if ps != [] {
      var init, last := ps[..|ps| - 1], ps[|ps| - 1];
      var tail := if last.dest.Some? then [last] else [];
      BoundCount(init, q);
      CountAppend(Bound(init), tail, q);
      assert q in ps <==> q in init || q == last by {
        if q in ps {
          var j :| 0 <= j < |ps| && ps[j] == q;
          if j < |ps| - 1 { assert init[j] == q; }
        }
      }
    }
  }

  /** Counting in a list with at most one more element. */
  lemma CountAppend(xs: seq<Pointer>, tail: seq<Pointer>, q: Pointer)
    requires |tail| <= 1
    ensures Count(xs + tail, q) == Count(xs, q) + if tail != [] && tail[0] == q then 1 else 0
  {
    if tail == [] {
      assert xs + tail == xs;
    } else {
      assert (xs + tail)[..|xs|] == xs;
    }
  }

  /** How many times p is listed in ps. */
  function Count(ps: seq<Pointer>, p: Pointer): (k: nat)
    ensures k <= |ps|
    ensures k > 0 <==> p in ps
  {
    if ps == [] then 0
    else Count(ps[..|ps| - 1], p) + if ps[|ps| - 1] == p then 1 else 0
  }

  /** Counting in the first i + 1 elements adds the i-th to the count in
      the first i. */
  lemma CountPrefix(ps: seq<Pointer>, i: nat, p: Pointer)
    requires i < |ps|
    ensures Count(ps[..i + 1], p) == Count(ps[..i], p) + if ps[i] == p then 1 else 0
  {
    assert ps[..i + 1][..i] == ps[..i];
  }

  /** Count is the multiplicity of p in the multiset of ps. */
  lemma {:induction false} CountIsMultiplicity(ps: seq<Pointer>, p: Pointer)
    ensures Count(ps, p) == multiset(ps)[p]
  {
    if ps != [] {
      var init, last := ps[..|ps| - 1], ps[|ps| - 1];
      assert ps == init + [last];
      CountIsMultiplicity(init, p);
    }
  }

  /** A destination after being rebased k times into `img` by an image of
      length n: an unbound destination stays unbound. */
  function Shifted(d: Option<Location>, k: nat, img: BinaryImage, n: nat): (r: Option<Location>)
    ensures r.Some? <==> d.Some?
    ensures k > 0 && r.Some? ==> r.value.image == img
    ensures k == 1 && d.Some? ==> r == Some(Location(img, d.value.idx + n))
  {
    if k == 0 || d.None? then d else Some(Location(img, Shifted(d, k - 1, img, n).value.idx + n))
  }

  /** Rebasing a bound destination k > 0 times moves it k * n bytes on. */
  lemma {:induction false} ShiftedOffset(d: Option<Location>, k: nat, img: BinaryImage, n: nat)
    requires d.Some?
    ensures Shifted(d, k, img, n).value.idx == d.value.idx + k * n
  {
    if k > 0 {
      ShiftedOffset(d, k - 1, img, n);
      assert k * n == (k - 1) * n + n;
    }
  }

  /** A use after `to` (of length n) absorbs `from`. */
  function RebaseOne(u: Location, from: BinaryImage, to: BinaryImage, n: nat): (r: Location)
    ensures u.image == from ==> r.image == to && r.idx == u.idx + n
    ensures u.image != from ==> r == u
    ensures from != to ==> r.image != from
  {
    if u.image == from then Location(to, u.idx + n) else u
  }

  /** The uses of a pointer after `to` (of length n) absorbs `from`: the uses
      in `from` move into `to`, n bytes further on, and the others stay. */
  function Rebased(us: seq<Location>, from: BinaryImage, to: BinaryImage, n: nat): (r: seq<Location>)
    ensures |r| == |us|
    ensures forall j :: 0 <= j < |us| && us[j].image == from ==> r[j] == Location(to, us[j].idx + n)
    ensures forall j :: 0 <= j < |us| && us[j].image != from ==> r[j] == us[j]
  {
    seq(|us|, j requires 0 <= j < |us| => RebaseOne(us[j], from, to, n))
  }

  /** Rebasing twice is rebasing once: after the first pass no use is left
      in `from`, so a pointer listed twice is shifted only once. */
  lemma RebasedIdempotent(us: seq<Location>, from: BinaryImage, to: BinaryImage, n: nat)
    requires from != to
    ensures Rebased(Rebased(us, from, to, n), from, to, n) == Rebased(us, from, to, n)
    ensures forall u :: u in Rebased(us, from, to, n) ==> u.image != from
  {
  }

  // ---------------------------------------------------------------------
  // What resolve does to the bytes, as functions of the old bytes

  /** The bytes after writing `rep` at every use in turn, each write a
      slice assignment `b[idx:idx+size] = rep`. */
  function WriteUses(b: seq<byte>, us: seq<Location>, size: nat, rep: seq<byte>): (r: seq<byte>)
    ensures |rep| == size ==> |r| >= |b|
  {
    if us == [] then b
    else
      var u := us[|us| - 1];
      SliceAssign(WriteUses(b, us[..|us| - 1], size, rep), u.idx, u.idx + size, rep)
  }

  /** Writing at the first i + 1 uses is writing at the first i, then at
      the next one. */
  lemma WriteUsesPrefix(b: seq<byte>, us: seq<Location>, i: nat, size: nat, rep: seq<byte>)
    requires i < |us|
    ensures WriteUses(b, us[..i + 1], size, rep) ==
      SliceAssign(WriteUses(b, us[..i], size, rep), us[i].idx, us[i].idx + size, rep)
  {
    assert us[..i + 1][..i] == us[..i];
  }

  predicate AllFit(us: seq<Location>, size: nat, len: nat)
  {
    forall u :: u in us ==> Fits(u, size, len)
  }

  predicate Covers(u: Location, size: nat, k: int)
  {
    u.idx <= k < u.idx + size
  }

  /** Reference definition of the byte left at position k: the last use
      whose window covers k decides it; a position no window covers keeps
      its old byte. */
  function ByteAfter(b: seq<byte>, us: seq<Location>, size: nat, rep: seq<byte>, k: nat): byte
    requires k < |b| && |rep| == size
  {
    if us == [] then b[k]
    else
      var u := us[|us| - 1];
      if Covers(u, size, k) then rep[k - u.idx]
      else ByteAfter(b, us[..|us| - 1], size, rep, k)
  }

  /** When every use fits, the writes keep the length and leave at each
      position the byte the reference definition gives. */
  lemma {:induction false} WriteUsesAt(b: seq<byte>, us: seq<Location>, size: nat, rep: seq<byte>)
    requires |rep| == size && AllFit(us, size, |b|)
    ensures |WriteUses(b, us, size, rep)| == |b|
    ensures forall k :: 0 <= k < |b| ==> WriteUses(b, us, size, rep)[k] == ByteAfter(b, us, size, rep, k)
  {
    if us != [] {
      var init, last := us[..|us| - 1], us[|us| - 1];
      assert AllFit(init, size, |b|) by {
        forall u | u in init ensures Fits(u, size, |b|) {
          assert u in us;
        }
      }
      WriteUsesAt(b, init, size, rep);
      var prev := WriteUses(b, init, size, rep);
      assert last in us;
      assert WriteUses(b, us, size, rep) == SliceAssign(prev, last.idx, last.idx + size, rep);
      forall k | 0 <= k < |b| ensures WriteUses(b, us, size, rep)[k] == ByteAfter(b, us, size, rep, k) {
        assert ByteAfter(b, init, size, rep, k) == prev[k];
      }
    }
  }

  /** A position no use covers keeps its byte. */
  lemma {:induction false} ByteAfterUncovered(b: seq<byte>, us: seq<Location>, size: nat, rep: seq<byte>, k: nat)
    requires k < |b| && |rep| == size
    requires forall u :: u in us ==> !Covers(u, size, k)
    ensures ByteAfter(b, us, size, rep, k) == b[k]
  {
    if us != [] {
      var init := us[..|us| - 1];
      assert us[|us| - 1] in us;
      assert forall u :: u in init ==> u in us;
      ByteAfterUncovered(b, init, size, rep, k);
    }
  }

  /** A covered position holds `rep` read at its offset in one of the uses
      that cover it, whatever the old bytes were. */
  lemma {:induction false} ByteAfterCovered(b: seq<byte>, c: seq<byte>, us: seq<Location>, size: nat, rep: seq<byte>, k: nat)
    requires k < |b| && k < |c| && |rep| == size
    requires exists u :: u in us && Covers(u, size, k)
    ensures ByteAfter(b, us, size, rep, k) == ByteAfter(c, us, size, rep, k)
    ensures exists u :: u in us && Covers(u, size, k) && ByteAfter(b, us, size, rep, k) == rep[k - u.idx]
  {
    var init := us[..|us| - 1];
    var last := us[|us| - 1];
    assert us == init + [last];
    if !Covers(last, size, k) {
      var w :| w in us && Covers(w, size, k);
      assert w in init;
      ByteAfterCovered(b, c, init, size, rep, k);
      var v :| v in init && Covers(v, size, k) && ByteAfter(b, init, size, rep, k) == rep[k - v.idx];
      assert v in us;
    }
  }

  /** Resolving twice with nothing changed in between leaves the same bytes. */
  lemma WriteUsesIdempotent(b: seq<byte>, us: seq<Location>, size: nat, rep: seq<byte>)
    requires |rep| == size && AllFit(us, size, |b|)
    ensures WriteUses(WriteUses(b, us, size, rep), us, size, rep) == WriteUses(b, us, size, rep)
  {
    var once := WriteUses(b, us, size, rep);
    WriteUsesAt(b, us, size, rep);
    WriteUsesAt(once, us, size, rep);
    var twice := WriteUses(once, us, size, rep);
    forall k | 0 <= k < |b| ensures twice[k] == once[k] {
      if exists u :: u in us && Covers(u, size, k) {
        ByteAfterCovered(once, b, us, size, rep, k);
      } else {
        ByteAfterUncovered(once, us, size, rep, k);
      }
    }
  }

  /** No two uses overlap unless they are at the same offset. */
  predicate NoPartialOverlap(us: seq<Location>, size: nat)
  {
    forall u, w :: u in us && w in us ==>
      u.idx == w.idx || u.idx + size <= w.idx || w.idx + size <= u.idx
  }

  /** Without partial overlaps, a position in a use's window holds `rep`
      read at its offset in that window. */
  lemma {:induction false} ByteInWindow(b: seq<byte>, us: seq<Location>, size: nat, rep: seq<byte>, u: Location, k: nat)
    requires k < |b| && |rep| == size && u in us && Covers(u, size, k) && NoPartialOverlap(us, size)
    ensures ByteAfter(b, us, size, rep, k) == rep[k - u.idx]
  {
    var init, last := us[..|us| - 1], us[|us| - 1];
    assert us == init + [last];
    if Covers(last, size, k) {
      assert last in us;
    } else {
      assert u in init;
      assert NoPartialOverlap(init, size) by {
        forall v, x | v in init && x in init
          ensures v.idx == x.idx || v.idx + size <= x.idx || x.idx + size <= v.idx
        {
          assert v in us && x in us;
        }
      }
      ByteInWindow(b, init, size, rep, u, k);
    }
  }

  /** `w` is `b` with every use's window holding exactly `rep` and every
      byte outside the windows unchanged. */
  predicate Windowed(b: seq<byte>, w: seq<byte>, us: seq<Location>, size: nat, rep: seq<byte>)
  {
    && |w| == |b|
    && (forall u :: u in us ==> 0 <= u.idx && u.idx + size <= |w| && w[u.idx..u.idx + size] == rep)
    && (forall k :: 0 <= k < |b| && (forall u :: u in us ==> !Covers(u, size, k)) ==> w[k] == b[k])
  }

  /** When every use fits and no two overlap partially, every use's window
      holds exactly `rep` afterwards, and every other byte is unchanged. */
  lemma WriteUsesWindows(b: seq<byte>, us: seq<Location>, size: nat, rep: seq<byte>)
    requires |rep| == size && AllFit(us, size, |b|) && NoPartialOverlap(us, size)
    ensures Windowed(b, WriteUses(b, us, size, rep), us, size, rep)
  {
    var w := WriteUses(b, us, size, rep);
    WriteUsesAt(b, us, size, rep);
    forall u | u in us ensures w[u.idx..u.idx + size] == rep {
      assert Fits(u, size, |b|);
      forall k | u.idx <= k < u.idx + size ensures w[k] == rep[k - u.idx] {
        ByteInWindow(b, us, size, rep, u, k);
      }
    }
    forall k | 0 <= k < |b| && (forall u :: u in us ==> !Covers(u, size, k)) ensures w[k] == b[k] {
      ByteAfterUncovered(b, us, size, rep, k);
    }
  }

  /** Writes at uses that all fit keep the length, and land in their
      windows when no two uses overlap partially. */
  lemma WrittenInPlace(b: seq<byte>, w: seq<byte>, us: seq<Location>, size: nat, rep: seq<byte>)
    requires |rep| == size && AllFit(us, size, |b|) && w == WriteUses(b, us, size, rep)
    ensures |w| == |b|
    ensures NoPartialOverlap(us, size) ==> Windowed(b, w, us, size, rep)
  {
    WriteUsesAt(b, us, size, rep);
    if NoPartialOverlap(us, size) {
      WriteUsesWindows(b, us, size, rep);
    }
  }

  /** Writing at a single use that fits replaces exactly its window. */
  lemma WriteOneUse(b: seq<byte>, u: Location, size: nat, rep: seq<byte>)
    requires |rep| == size && Fits(u, size, |b|)
    ensures WriteUses(b, [u], size, rep) == b[..u.idx] + rep + b[u.idx + size..]
  {
  }

  /** Appending a placeholder and later writing a value into it gives the
      same bytes as appending the value's encoding in the first place. */
  lemma DeferredWriteIsLiteral(b: seq<byte>, img: BinaryImage, size: nat, d: nat)
    requires d < Pow256(size)
    ensures WriteUses(b + Zeros(size), [Location(img, |b|)], size, Encode(d, size)) == b + Encode(d, size)
  {
  }

  // ---------------------------------------------------------------------
  // The two classes

  /** A growable byte buffer with the pointers into it (refsFrom) and the
      pointers embedded in it as placeholder bytes (refsTo). */
  class BinaryImage {
    var bytes: seq<byte>
    var refsFrom: seq<Pointer>
    var refsTo: seq<Pointer>

    constructor (init: seq<byte>)
      ensures bytes == init && refsFrom == [] && refsTo == []
    {
      bytes := init;
      refsFrom := [];
      refsTo := [];
    }

    /** A new pointer of width `size` to offset i of this image, recorded
        as the last of the pointers into it. */
    method PointerAt(size: nat, i: int) returns (p: Pointer)
      modifies this`refsFrom
      ensures fresh(p) && p.size == size && p.dest == Some(Location(this, i)) && p.uses == []
      ensures refsFrom == old(refsFrom) + [p]
      ensures 0 <= i < |bytes| ==> p.GetByteAt() == Success(Some(bytes[i]))
    {
      p := new Pointer(size, Some(Location(this, i)));
      refsFrom := refsFrom + [p];
    }

    /** Appends raw bytes, or a pointer's rendered bytes with a use recorded
        at the old end; an image is refused with a TypeError. */
    method Extend(v: Extension, ghost ps: set<Pointer>, ghost imgs: set<BinaryImage>) returns (r: Outcome)
      modifies this, (if v.PointerArg? then {v.pointer} else {})`uses
      ensures v.ImageArg? ==> r == Fail(TypeError(CombineOnlyMsg)) && unchanged(this)
      ensures v.BytesArg? ==>
        && r == Pass
        && bytes == old(bytes) + v.data
        && refsFrom == old(refsFrom) && refsTo == old(refsTo)
      ensures v.PointerArg? ==>
        var p := v.pointer;
        && p.uses == old(p.uses) + [Location(this, |old(bytes)|)]
        && refsTo == old(refsTo) + [p]
        && refsFrom == old(refsFrom)
        && (p.Repr().Success? ==> r == Pass && bytes == old(bytes) + p.Repr().value)
        && (p.Repr().Failure? ==> r == Fail(OverflowError) && bytes == old(bytes))
      ensures old(UsesFit(ps, imgs)) && this in imgs && r.Pass? ==> UsesFit(ps, imgs)
    {
      if v.ImageArg? {
        r := Fail(TypeError(CombineOnlyMsg));
      } else if v.PointerArg? {
        var p := v.pointer;
        p.AddUse(this, |bytes|);
        refsTo := refsTo + [p];
        var rep := p.Repr();
        if rep.Failure? {
          r := Fail(rep.error);
        } else {
          bytes := bytes + rep.value;
          r := Pass;
        }
      } else {
        bytes := bytes + v.data;
        r := Pass;
      }
      if old(UsesFit(ps, imgs)) && this in imgs && r.Pass? {
        forall q, u {:trigger u in q.uses, q in ps} | q in ps && u in q.uses ensures u.image in imgs && Fits(u, q.size, |u.image.bytes|) {
          if !(v.PointerArg? && q == v.pointer && u == Location(this, |old(bytes)|)) {
            assert u in old(q.uses);
          }
        }
      }
    }

    /** Absorbs v: the bound pointers into v now point into this image,
        shifted by its old length, and join refsFrom; the uses in v of the
        pointers embedded in v move likewise; v's bytes are appended. v is
        only read, and v's refsTo is not carried over. */
    method Combine(v: BinaryImage, ghost ps: set<Pointer>, ghost imgs: set<BinaryImage>)
      requires v != this
      modifies this, (set p | p in v.refsFrom)`dest, (set p | p in v.refsTo)`uses
      ensures unchanged(v)
      ensures bytes == old(bytes) + v.bytes
      ensures refsFrom == old(refsFrom + Bound(v.refsFrom))
      ensures refsTo == old(refsTo)
      ensures forall p {:trigger p in v.refsFrom} :: p in v.refsFrom ==>
        p.dest == Shifted(old(p.dest), Count(v.refsFrom, p), this, |old(bytes)|)
      ensures forall p {:trigger p in v.refsTo} :: p in v.refsTo ==> p.uses == Rebased(old(p.uses), v, this, |old(bytes)|)
      ensures forall p, u {:trigger u in p.uses, p in v.refsTo} :: p in v.refsTo && u in p.uses ==> u.image != v
      ensures old(UsesFit(ps, imgs)) && this in imgs ==> UsesFit(ps, imgs)
    {
      var n := |bytes|;
      MoveDestinations(v.refsFrom, n);
      assert UsesFit(ps, imgs) == old(UsesFit(ps, imgs));
      MoveUses(v, n, ps, imgs);
      AppendImage(v, ps, imgs);
    }

    /** The last step of combine: v's bytes are appended. */
    method AppendImage(v: BinaryImage, ghost ps: set<Pointer>, ghost imgs: set<BinaryImage>)
      requires v != this
      modifies this`bytes
      ensures bytes == old(bytes) + v.bytes
      ensures old(FitAfterAppend(ps, imgs, this, |bytes| + |v.bytes|)) ==> UsesFit(ps, imgs)
    {
      bytes := bytes + v.bytes;
    }

    /** The first pass of combine: every bound pointer listed in v's
        refsFrom is pointed into this image, n bytes further on (once per
        time it is listed), and appended to refsFrom. */
    method MoveDestinations(ps: seq<Pointer>, n: nat)
      modifies this`refsFrom, (set p | p in ps)`dest
      ensures refsFrom == old(refsFrom + Bound(ps))
      ensures forall p {:trigger p in ps} :: p in ps ==> p.dest == Shifted(old(p.dest), Count(ps, p), this, n)
    {
      var i := 0;
      while i < |ps|
        invariant 0 <= i <= |ps|
        invariant refsFrom == old(refsFrom + Bound(ps[..i]))
        invariant forall p {:trigger p in ps} :: p in ps ==> p.dest == Shifted(old(p.dest), Count(ps[..i], p), this, n)
      {
        var p := ps[i];
        assert ps[..i + 1][..i] == ps[..i];
        assert p.dest.Some? == old(p.dest).Some?;
        label L:
        MoveDestination(p, n);
        forall q: Pointer {:trigger q in ps} | q in ps
          ensures q.dest == Shifted(old(q.dest), Count(ps[..i + 1], q), this, n)
        {
          CountPrefix(ps, i, q);
          if q != p {
            assert q.dest == old@L(q.dest);
          }
        }
        i := i + 1;
      }
      assert ps[..i] == ps;
    }

    /** One step of the first pass: a bound p is pointed into this image, n
        bytes further on than its old offset, and appended to refsFrom. */
    method MoveDestination(p: Pointer, n: nat)
      modifies this`refsFrom, p`dest
      ensures old(p.dest).Some? ==>
        p.dest == Some(Location(this, n + old(p.dest).value.idx)) && refsFrom == old(refsFrom) + [p]
      ensures old(p.dest).None? ==> p.dest == old(p.dest) && refsFrom == old(refsFrom)
    {
      if p.dest.Some? {
        p.SetDest(this, n + p.dest.value.idx);
        refsFrom := refsFrom + [p];
      }
    }

    /** The second pass of combine: every use in v of a pointer listed in
        v's refsTo moves into this image, n bytes further on. */
    method MoveUses(v: BinaryImage, n: nat, ghost ps: set<Pointer>, ghost imgs: set<BinaryImage>)
      requires v != this && n == |bytes|
      modifies (set p | p in v.refsTo)`uses
      ensures forall p {:trigger p in v.refsTo} :: p in v.refsTo ==> p.uses == Rebased(old(p.uses), v, this, n)
      ensures forall p, u {:trigger u in p.uses, p in v.refsTo} :: p in v.refsTo && u in p.uses ==> u.image != v
      ensures old(UsesFit(ps, imgs)) && this in imgs ==> FitAfterAppend(ps, imgs, this, n + |v.bytes|)
    {
      var i := 0;
      while i < |v.refsTo|
        invariant 0 <= i <= |v.refsTo|
        invariant forall p {:trigger p in v.refsTo} :: p in v.refsTo ==>
          p.uses == if p in v.refsTo[..i] then Rebased(old(p.uses), v, this, n) else old(p.uses)
      {
        var p := v.refsTo[i];
        assert v.refsTo[..i + 1] == v.refsTo[..i] + [p];
        p.MoveUses(v, this, n);
        RebasedIdempotent(old(p.uses), v, this, n);
        i := i + 1;
      }
      assert v.refsTo[..i] == v.refsTo;
      forall p {:trigger p in v.refsTo} | p in v.refsTo ensures forall u :: u in p.uses ==> u.image != v {
        RebasedIdempotent(old(p.uses), v, this, n);
      }
      if old(UsesFit(ps, imgs)) && this in imgs {
        forall q, u {:trigger u in q.uses, q in ps} | q in ps && u in q.uses
          ensures u.image in imgs && Fits(u, q.size, if u.image == this then n + |v.bytes| else |u.image.bytes|)
        {
          if q in v.refsTo {
            var j :| 0 <= j < |q.uses| && q.uses[j] == u;
            var w := old(q.uses)[j];
            assert w in old(q.uses);
          } else {
            assert u in old(q.uses);
          }
        }
      }
    }
  }

  /** A fixed-width placeholder for the offset of its destination, with the
      places it has been written to. */
  class Pointer {
    const size: nat
    var dest: Option<Location>
    var uses: seq<Location>

    constructor (size: nat, dest: Option<Location>)
      ensures this.size == size && this.dest == dest && uses == []
    {
      this.size := size;
      this.dest := dest;
      uses := [];
    }

    /** The pointer's bytes: `size` zero bytes while unbound, otherwise the
        destination offset in `size` little-endian bytes, OverflowError when
        it does not fit. */
    function Repr(): (r: Result<seq<byte>>)
      reads this`dest
      ensures r.Success? ==> |r.value| == size
      ensures dest.None? ==> r == Success(Zeros(size))
      ensures dest.Some? ==> (r.Success? <==> 0 <= dest.value.idx < Pow256(size))
      ensures dest.Some? && r.Success? ==> FromBytes(r.value) == dest.value.idx
      ensures r.Failure? ==> r.error == OverflowError
    {
      if dest.None? then Success(Zeros(size)) else ToBytes(dest.value.idx, size)
    }

    /** The byte at the destination (None when unbound); the index follows
        Python's, so a negative offset counts from the end. */
    function GetByteAt(): (r: Result<Option<byte>>)
      reads this`dest, (if dest.Some? then {dest.value.image} else {})`bytes
      ensures dest.None? <==> r == Success(None)
      ensures dest.Some? && 0 <= dest.value.idx < |dest.value.image.bytes| ==>
        r == Success(Some(dest.value.image.bytes[dest.value.idx]))
      ensures dest.Some? && -|dest.value.image.bytes| <= dest.value.idx < 0 ==>
        r == Success(Some(dest.value.image.bytes[dest.value.idx + |dest.value.image.bytes|]))
      ensures dest.Some? && (dest.value.idx >= |dest.value.image.bytes| || dest.value.idx < -|dest.value.image.bytes|) ==>
        r == Failure(IndexError)
    {
      match dest
      case None => Success(None)
      case Some(loc) =>
        match Index(loc.image.bytes, loc.idx)
        case Success(b) => Success(Some(b))
        case Failure(e) => Failure(e)
    }

    method AddUse(image: BinaryImage, idx: int)
      modifies this`uses
      ensures uses == old(uses) + [Location(image, idx)]
    {
      uses := uses + [Location(image, idx)];
    }

    /** Binds (or rebinds) the destination; the uses are not touched. */
    method SetDest(image: BinaryImage, idx: int)
      modifies this`dest
      ensures dest == Some(Location(image, idx))
    {
      dest := Some(Location(image, idx));
    }

    /** Moves the uses in `from` into `to`, n bytes further on, rewriting
        them one by one in place. */
    method MoveUses(from: BinaryImage, to: BinaryImage, n: nat)
      modifies this`uses
      ensures uses == Rebased(old(uses), from, to, n)
    {
      var j := 0;
      while j < |uses|
        invariant 0 <= j <= |uses| == |old(uses)|
        invariant forall k :: 0 <= k < |uses| ==>
          uses[k] == if k < j then RebaseOne(old(uses)[k], from, to, n) else old(uses)[k]
      {
        var use := uses[j];
        if use.image == from {
          uses := uses[j := Location(to, use.idx + n)];
        }
        j := j + 1;
      }
    }

    /** Bound, and every use is in the destination's image. */
    predicate Consolidated()
      reads this`dest, this`uses
      ensures Consolidated() ==> dest.Some? && forall i :: 0 <= i < |uses| ==> uses[i].image == dest.value.image
    {
      dest.Some? && forall u :: u in uses ==> u.image == dest.value.image
    }

    /** Writes the pointer's bytes at every use. Fails without writing
        anything when unbound, when a use lies in another image than the
        destination, or when the offset does not fit in `size` bytes. */
    method Resolve(ghost ps: set<Pointer>, ghost imgs: set<BinaryImage>) returns (r: Outcome)
      modifies (if dest.Some? then {dest.value.image} else {})`bytes
      ensures dest.None? ==> r == Fail(ValueError(NoDestinationMsg))
      ensures dest.Some? && !Consolidated() ==> r == Fail(ValueError(UnresolvedUsesMsg))
      ensures Consolidated() && uses != [] && Repr().Failure? ==> r == Fail(OverflowError)
      ensures r.Pass? <==> Consolidated() && (uses == [] || Repr().Success?)
      ensures dest.Some? && (r.Fail? || uses == []) ==> dest.value.image.bytes == old(dest.value.image.bytes)
      ensures r.Pass? && uses != [] ==>
        dest.value.image.bytes == WriteUses(old(dest.value.image.bytes), uses, size, Repr().value)
      ensures dest.Some? ==> |dest.value.image.bytes| >= |old(dest.value.image.bytes)|
      ensures old(UsesFit(ps, imgs)) ==> UsesFit(ps, imgs)
      ensures old(UsesFit(ps, imgs)) && this in ps && dest.Some? ==>
        |dest.value.image.bytes| == |old(dest.value.image.bytes)|
      ensures old(UsesFit(ps, imgs)) && this in ps && r.Pass? && uses != [] && NoPartialOverlap(uses, size) ==>
        Windowed(old(dest.value.image.bytes), dest.value.image.bytes, uses, size, Repr().value)
    {
      if dest.None? {
        return Fail(ValueError(NoDestinationMsg));
      }
      var img := dest.value.image;
      if !(forall u :: u in uses ==> u.image == img) {
        return Fail(ValueError(UnresolvedUsesMsg));
      }
      ghost var fit := UsesFit(ps, imgs) && this in ps;
      if fit {
        UsesFitAllFit(ps, imgs, this);
      }
      r := WriteAtUses(img);
      if fit && r.Pass? && uses != [] {
        WrittenInPlace(old(img.bytes), img.bytes, uses, size, Repr().value);
      }
      if old(UsesFit(ps, imgs)) {
        forall q, u {:trigger u in q.uses, q in ps} | q in ps && u in q.uses ensures u.image in imgs && Fits(u, q.size, |u.image.bytes|) {
          assert u in old(q.uses);
        }
      }
    }

    /** The writing loop of resolve, once the checks have passed: the
        pointer's bytes, rendered afresh for each use, go to each use in
        turn. */
    method WriteAtUses(img: BinaryImage) returns (r: Outcome)
      requires Consolidated() && dest.value.image == img
      modifies img`bytes
      ensures r.Pass? <==> uses == [] || Repr().Success?
      ensures r.Fail? ==> r == Fail(OverflowError)
      ensures r.Fail? || uses == [] ==> img.bytes == old(img.bytes)
      ensures r.Pass? && uses != [] ==> img.bytes == WriteUses(old(img.bytes), uses, size, Repr().value)
      ensures |img.bytes| >= |old(img.bytes)|
    {
      ghost var rendered := if Repr().Success? then Repr().value else [];
      var i := 0;
      while i < |uses|
        invariant 0 <= i <= |uses|
        invariant i > 0 ==> Repr() == Success(rendered)
        invariant img.bytes == WriteUses(old(img.bytes), uses[..i], size, rendered)
      {
        var rep := Repr();
        if rep.Failure? {
          return Fail(rep.error);
        }
        var use := uses[i];
        assert use in uses && use.image == img;
        WriteUsesPrefix(old(img.bytes), uses, i, size, rendered);
        use.image.bytes := SliceAssign(use.image.bytes, use.idx, use.idx + size, rep.value);
        i := i + 1;
      }
      assert uses[..i] == uses;
      r := Pass;
    }
  }

  /** combine as seen by one pointer: a pointer listed once in v's refsFrom
      and bound to a byte of v, or a pointer combine does not move that is
      bound to a byte of `a` at a non-negative offset or to any other image,
      reads the same byte afterwards. */
  method CombineKeepsByte(a: BinaryImage, v: BinaryImage, p: Pointer)
    requires a != v && p.dest.Some?
    requires p in v.refsFrom ==> Count(v.refsFrom, p) == 1 && p.dest.value.image == v && 0 <= p.dest.value.idx < |v.bytes|
    requires p !in v.refsFrom && p.dest.value.image == a ==> 0 <= p.dest.value.idx < |a.bytes|
    modifies a, (set q | q in v.refsFrom)`dest, (set q | q in v.refsTo)`uses
    ensures p.GetByteAt() == old(p.GetByteAt())
  {
    var n := |a.bytes|;
    var d := p.dest.value;
    a.Combine(v, {}, {});
    if p in v.refsFrom {
      assert p.dest == Some(Location(a, d.idx + n));
      IndexAppend(old(a.bytes), v.bytes, d.idx);
    } else if d.image == a {
      IndexAppend(old(a.bytes), v.bytes, d.idx);
    }
  }

  /** Resolving twice in succession gives the same outcome both times and
      leaves the bytes the first resolve left; the invariant is what makes
      every write fit. */
  method ResolveTwice(p: Pointer, ghost ps: set<Pointer>, ghost imgs: set<BinaryImage>) returns (first: Outcome, second: Outcome)
    requires UsesFit(ps, imgs) && p in ps
    modifies (if p.dest.Some? then {p.dest.value.image} else {})`bytes
    ensures second == first
    ensures p.dest.None? ==> first == Fail(ValueError(NoDestinationMsg))
    ensures first.Pass? <==> p.Consolidated() && (p.uses == [] || p.Repr().Success?)
    ensures first.Pass? && p.uses != [] ==>
      p.dest.value.image.bytes == WriteUses(old(p.dest.value.image.bytes), p.uses, p.size, p.Repr().value)
    ensures p.dest.Some? && (first.Fail? || p.uses == []) ==> p.dest.value.image.bytes == old(p.dest.value.image.bytes)
    ensures UsesFit(ps, imgs)
  {
    if p.Consolidated() {
      UsesFitAllFit(ps, imgs, p);
    }
    first := p.Resolve(ps, imgs);
    second := p.Resolve(ps, imgs);
    if first.Pass? && p.uses != [] {
      WriteUsesIdempotent(old(p.dest.value.image.bytes), p.uses, p.size, p.Repr().value);
    }
  }

}
