/** The memory system calls: contiguous `memmove`, its chunked form, and `memcpy`. */
module MemOps {
  import opened Words
  import opened MemoryMap
  import opened ChunkIterator
  import opened ChunkedMove
  import opened Translation
  import opened VmReference

  /** Reading at `src` and writing at `dst`. */
  function MoveWalk(m: seq<Region>, dst: u64, src: u64, n: u64): Walk {
    Walk(m, Load, src, Store, dst, n)
  }

  // ----- What a move means on the fields of the regions

  lemma GoodMeaning(m: seq<Region>, size: nat, dst: u64, src: u64, n: u64, i: int)
    requires WellFormed(m, size)
    ensures AccessibleAt(m, Load, src, i) <==> Readable(m, src, i)
    ensures MoveWalk(m, dst, src, n).Good(i) <==> Readable(m, src, i) && Writable(m, dst, i)
  {
    AccessibleMeaning(m, size, Load, src + i);
    AccessibleMeaning(m, size, Store, dst + i);
  }

  /** A move is a copy of the bytes behind the source to the bytes behind the destination. */
  lemma MovedMeaning(w: Walk, before: seq<byte>, after: seq<byte>, from: int, to: int)
    requires WellFormed(w.m, |before|) && Moved(w, before, after, from, to)
    ensures BytesCopied(w.m, before, after, w.src, w.dst, from, to)
  {
    forall i, s, d | from <= i < to && ByteAt(w.m, w.src, i, s) && ByteAt(w.m, w.dst, i, d)
      ensures 0 <= s < |before| && 0 <= d < |before| && after[d] == before[s]
    {
      ByteAtMeaning(w.m, |before|, w.src, i, s);
      ByteAtMeaning(w.m, |before|, w.dst, i, d);
      assert Arrived(w, before, after, i);
    }
    forall h | 0 <= h < |before| && forall i :: from <= i < to ==> !ByteAt(w.m, w.dst, i, h)
      ensures after[h] == before[h]
    {
      assert Kept(w, before, after, from, to, h);
      if i :| from <= i < to && HostAt(w.m, w.dst, i) == h {
        ByteAtMeaning(w.m, |before|, w.dst, i, h);
      }
    }
  }

  lemma ReadableByte(m: seq<Region>, base: int, i: int) returns (h: int)
    requires Readable(m, base, i)
    ensures ByteAt(m, base, i, h)
  {
    var r :| r in m && r.vmStart <= base + i < r.vmEnd;
    h := r.host + (base + i - r.vmStart);
  }

  /** A copy of mapped bytes determines the final memory. */
  lemma CopyUnique(m: seq<Region>, before: seq<byte>, after1: seq<byte>, after2: seq<byte>, src: int, dst: int,
                   from: int, to: int)
    requires BytesCopied(m, before, after1, src, dst, from, to) && BytesCopied(m, before, after2, src, dst, from, to)
    requires forall i :: from <= i < to ==> Readable(m, src, i)
    ensures after1 == after2
  {
    hide ByteAt, Readable;
    forall h | 0 <= h < |before|
      ensures after1[h] == after2[h]
    {
      if i :| from <= i < to && ByteAt(m, dst, i, h) {
        var s := ReadableByte(m, src, i);
        assert after1[h] == before[s] && after2[h] == before[s];
      }
    }
  }

  /** A move to writable bytes changes no byte behind a read-only region. */
  lemma MovedKeepsReadOnly(w: Walk, before: seq<byte>, after: seq<byte>, from: int, to: int)
    requires WellFormed(w.m, |before|) && Moved(w, before, after, from, to)
    requires w.dstAccess == Store && forall i :: from <= i < to ==> w.Good(i)
    ensures ReadOnlyKept(w.m, before, after)
  {
    forall r, h | r in w.m && !r.writable && r.host <= h < r.host + (r.vmEnd - r.vmStart) && h < |before|
      ensures after[h] == before[h]
    {
      var a := r.vmStart + (h - r.host);
      RegionUnique(w.m, |before|, a, r);
      assert Kept(w, before, after, from, to, h);
      if i :| from <= i < to && HostAt(w.m, w.dst, i) == h {
        assert w.Good(i);
        HostInjective(w.m, |before|, a, w.dst + i);
      }
    }
  }

  lemma GoodsMeaning(w: Walk, size: nat)
    requires WellFormed(w.m, size) && w.srcAccess == Load && w.dstAccess == Store
    ensures forall i :: w.Good(i) <==> Readable(w.m, w.src, i) && Writable(w.m, w.dst, i)
    ensures forall i :: AccessibleAt(w.m, Load, w.src, i) <==> Readable(w.m, w.src, i)
  {
    hide Readable, Writable;
    forall i
      ensures w.Good(i) <==> Readable(w.m, w.src, i) && Writable(w.m, w.dst, i)
      ensures AccessibleAt(w.m, Load, w.src, i) <==> Readable(w.m, w.src, i)
    {
      GoodMeaning(w.m, size, w.dst, w.src, w.n, i);
    }
  }

  /** Where a walk ends, and with which result. */
  lemma WalkEnd(w: Walk, size: nat, reverse: bool)
    requires WellFormed(w.m, size) && w.srcAccess == Load && w.dstAccess == Store
    ensures WalkResult(w, reverse).Ok? <==>
            w.InRange() && forall i :: 0 <= i < w.n ==> Readable(w.m, w.src, i) && Writable(w.m, w.dst, i)
    ensures w.InRange() ==>
              var (from, to) := WalkExtent(w, reverse);
              0 <= from <= to <= w.n && forall i :: from <= i < to ==> w.Good(i)
    ensures WalkResult(w, reverse).Ok? ==> WalkExtent(w, reverse) == (0, w.n)
  {
    hide Readable, Writable, AccessibleAt;
    GoodsMeaning(w, size);
  }

  /** The first bad pair ends a walk. */
  lemma WalkStops(w: Walk, size: nat, reverse: bool, k: int)
    requires WellFormed(w.m, size) && w.srcAccess == Load && w.dstAccess == Store && w.InRange()
    requires FirstBad(w.m, w.src, w.dst, w.n, reverse, k)
    ensures WalkExtent(w, reverse) == if reverse then (k + 1, w.n) else (0, k)
    ensures WalkResult(w, reverse) == Err(if Readable(w.m, w.src, k) then AccessViolation(Store, w.dst, w.n)
                                          else AccessViolation(Load, w.src, w.n))
  {
    hide Readable, Writable, AccessibleAt, WalkExtent, WalkResult;
    GoodsMeaning(w, size);
    if reverse {
      FirstBadPair(w, reverse, 0, k + 1);
    } else {
      FirstBadPair(w, reverse, k, w.n);
    }
  }

  /** What a walk in a safe direction has done, on the fields of the regions. */
  lemma WalkMeaning(w: Walk, reverse: bool, before: seq<byte>, after: seq<byte>)
    requires WellFormed(w.m, |before|) && w.srcAccess == Load && w.dstAccess == Store
    requires |after| == |before| && (w.InRange() ==> DirectionSafe(w, reverse))
    requires DirectionSafe(w, reverse) ==> Moved(w, before, after, WalkExtent(w, reverse).0, WalkExtent(w, reverse).1)
    requires !w.InRange() ==> after == before
    ensures ReadOnlyKept(w.m, before, after)
    ensures WalkResult(w, reverse).Ok? <==>
            w.InRange() && forall i :: 0 <= i < w.n ==> Readable(w.m, w.src, i) && Writable(w.m, w.dst, i)
    ensures WalkResult(w, reverse).Ok? ==> BytesCopied(w.m, before, after, w.src, w.dst, 0, w.n)
    ensures w.InRange() ==>
              forall k :: FirstBad(w.m, w.src, w.dst, w.n, reverse, k) ==>
                && WalkResult(w, reverse) == Err(if Readable(w.m, w.src, k) then AccessViolation(Store, w.dst, w.n)
                                                 else AccessViolation(Load, w.src, w.n))
                && if reverse then BytesCopied(w.m, before, after, w.src, w.dst, k + 1, w.n)
                   else BytesCopied(w.m, before, after, w.src, w.dst, 0, k)
  {
    hide Moved, BytesCopied, Readable, Writable, WalkResult, WalkExtent, AccessibleAt;
    WalkEnd(w, |before|, reverse);
    if w.InRange() {
      var (from, to) := WalkExtent(w, reverse);
      MovedMeaning(w, before, after, from, to);
      MovedKeepsReadOnly(w, before, after, from, to);
      forall k | FirstBad(w.m, w.src, w.dst, w.n, reverse, k)
        ensures WalkExtent(w, reverse) == if reverse then (k + 1, w.n) else (0, k)
        ensures WalkResult(w, reverse) == Err(if Readable(w.m, w.src, k) then AccessViolation(Store, w.dst, w.n)
                                              else AccessViolation(Load, w.src, w.n))
      {
        WalkStops(w, |before|, reverse, k);
      }
    }
  }

  /** `memmove` when either range may span several regions. On success the destination holds the
      initial source bytes, however the ranges overlap and the regions are laid out. On an
      inaccessible byte, exactly the good pairs before it are moved (after it, when going
      backwards). On address overflow nothing is. */
  method MemmoveNonContiguous(m: seq<Region>, mem: array<byte>, dst: u64, src: u64, n: u64)
    returns (r: Result<u64, EbpfError>, ghost calls: nat)
    requires WellFormed(m, mem.Length)
    modifies mem
    ensures var w := MoveWalk(m, dst, src, n);
            && (r.Ok? <==> w.InRange() && w.AllGood())
            && (r.Ok? ==> r.value == 0 && Moved(w, old(mem[..]), mem[..], 0, n))
            && (src + n >= 0x1_0000_0000_0000_0000 || dst + n >= 0x1_0000_0000_0000_0000 ==>
                  && mem[..] == old(mem[..])
                  && r == Err(if src + n >= 0x1_0000_0000_0000_0000 then AccessViolation(Load, src, n)
                              else AccessViolation(Store, dst, n)))
            && (w.InRange() && r.Err? && !(src <= dst < src + n) ==>
                  && Moved(w, old(mem[..]), mem[..], 0, w.GoodUntil(0))
                  && w.GoodUntil(0) < n && r.error == w.Blame(w.GoodUntil(0)))
            && (w.InRange() && r.Err? && src <= dst < src + n ==>
                  && Moved(w, old(mem[..]), mem[..], w.GoodSince(n), n)
                  && w.GoodSince(n) > 0 && r.error == w.Blame(w.GoodSince(n) - 1))
    // every copy finishes a piece of one side at least
    ensures r.Ok? ==>
              var srcPieces, dstPieces := |Tiles(m, Load, src, src + n)|, |Tiles(m, Store, dst, dst + n)|;
              && srcPieces <= calls && dstPieces <= calls
              && (0 < n ==> calls <= srcPieces + dstPieces - 1) && (n == 0 ==> calls == 0)
    // the same on the fields of the regions
    ensures r.Ok? <==> src + n < 0x1_0000_0000_0000_0000 && dst + n < 0x1_0000_0000_0000_0000
                       && forall i :: 0 <= i < n ==> Readable(m, src, i) && Writable(m, dst, i)
    ensures r.Ok? ==> BytesCopied(m, old(mem[..]), mem[..], src, dst, 0, n)
    ensures src + n < 0x1_0000_0000_0000_0000 && dst + n < 0x1_0000_0000_0000_0000 ==>
              forall k :: FirstBad(m, src, dst, n, src <= dst < src + n, k) ==>
                && r == Err(if Readable(m, src, k) then AccessViolation(Store, dst, n)
                            else AccessViolation(Load, src, n))
                && if src <= dst < src + n then BytesCopied(m, old(mem[..]), mem[..], src, dst, k + 1, n)
                   else BytesCopied(m, old(mem[..]), mem[..], src, dst, 0, k)
    ensures forall q, h :: q in m && !q.writable && q.host <= h < q.host + (q.vmEnd - q.vmStart) && h < mem.Length ==>
              mem[h] == old(mem[h])
  {
    hide Moved, BytesCopied, Readable, Writable, AccessibleAt;
    var reverse := WrappingSub(dst, src) < n;
    var w := MoveWalk(m, dst, src, n);
    if w.InRange() {
      WrappingTestPicksASafeDirection(w);
    }
    ghost var before := mem[..];
    r, calls := IterMemoryPairChunks(w, reverse, mem);
    WalkMeaning(w, reverse, before, mem[..]);
  }

  lemma SlicesMove(w: Walk, before: seq<byte>, srcHost: nat, dstHost: nat)
    requires WellFormed(w.m, |before|) && srcHost + w.n <= |before| && dstHost + w.n <= |before|
    requires forall x :: w.src <= x < w.src + w.n ==>
               Accessible(w.m, w.srcAccess, x) && HostOf(w.m, x) == srcHost + (x - w.src)
    requires forall x :: w.dst <= x < w.dst + w.n ==>
               Accessible(w.m, w.dstAccess, x) && HostOf(w.m, x) == dstHost + (x - w.dst)
    ensures Moved(w, before, Spliced(before, srcHost, dstHost, w.n), 0, w.n)
  {
    WellFormedIsInjective(w.m, |before|);
    assert Moved(w, before, before, 0, 0);
    MovedExtends(w, before, before, 0, 0, 0, w.n, srcHost, dstHost);
  }

  /** `memmove` for ranges that each lie in one region. */
  method Memmove(m: seq<Region>, mem: array<byte>, dst: u64, src: u64, n: u64)
    returns (r: Result<u64, Error>)
    requires WellFormed(m, mem.Length)
    modifies mem
    ensures r.Ok? <==> n == 0 || ((exists q :: q in m && q.writable && q.vmStart <= dst && dst + n <= q.vmEnd)
                                  && exists q :: q in m && q.vmStart <= src && src + n <= q.vmEnd)
    ensures r.Ok? ==> r.value == 0 && Moved(MoveWalk(m, dst, src, n), old(mem[..]), mem[..], 0, n)
    ensures r.Ok? ==> BytesCopied(m, old(mem[..]), mem[..], src, dst, 0, n)
    ensures r.Err? ==> mem[..] == old(mem[..])
    ensures r.Err? ==>
              r.error == Ebpf(if exists q :: q in m && q.writable && q.vmStart <= dst && dst + n <= q.vmEnd
                              then AccessViolation(Load, src, n) else AccessViolation(Store, dst, n))
    ensures forall q, h :: q in m && !q.writable && q.host <= h < q.host + (q.vmEnd - q.vmStart) && h < mem.Length ==>
              mem[h] == old(mem[h])
  {
    ByteSliceMeaning(m, mem.Length, Store, dst, n);
    ByteSliceMeaning(m, mem.Length, Load, src, n);
    var dstSlice :- TranslateSlice(m, Store, dst, n, 1);
    var srcSlice :- TranslateSlice(m, Load, src, n, 1);
    ghost var w, before := MoveWalk(m, dst, src, n), mem[..];
    SlicesMove(w, before, srcSlice.host, dstSlice.host);
    PtrCopy(mem, srcSlice.host, dstSlice.host, n);
    MovedMeaning(w, before, mem[..], 0, n);
    MovedKeepsReadOnly(w, before, mem[..], 0, n);
    return Ok(0);
  }

  /** The chunked form refines the contiguous one: where the contiguous one succeeds, so does the
      chunked one, and any two moves of the same request leave the same memory. */
  lemma ChunkedRefinesContiguous(m: seq<Region>, size: nat, dst: u64, src: u64, n: u64,
                                 before: seq<byte>, contiguous: seq<byte>, chunked: seq<byte>)
    requires WellFormed(m, size) && InOneRegion(m, Store, dst, n) && InOneRegion(m, Load, src, n)
    requires Moved(MoveWalk(m, dst, src, n), before, contiguous, 0, n)
    ensures MoveWalk(m, dst, src, n).InRange() && MoveWalk(m, dst, src, n).AllGood()
    ensures Moved(MoveWalk(m, dst, src, n), before, chunked, 0, n) <==> chunked == contiguous
  {
    ByteSliceMeaning(m, size, Store, dst, n);
    ByteSliceMeaning(m, size, Load, src, n);
    var w := MoveWalk(m, dst, src, n);
    AllGoodIsAllAccessible(w);
    if Moved(w, before, chunked, 0, n) {
      MovedUnique(w, before, contiguous, chunked, 0, n);
    }
  }

  /** `memcpy`: refuses overlapping virtual ranges, then moves. */
  method SyscallMemcpy(m: seq<Region>, mem: array<byte>, dst: u64, src: u64, n: u64)
    returns (r: Result<u64, Error>)
    requires WellFormed(m, mem.Length)
    modifies mem
    ensures r == Err(CopyOverlapping) <==> 0 < n && src < dst + n && dst < src + n
    ensures r.Ok? <==> n == 0 || ((dst + n <= src || src + n <= dst)
                                  && (exists q :: q in m && q.writable && q.vmStart <= dst && dst + n <= q.vmEnd)
                                  && exists q :: q in m && q.vmStart <= src && src + n <= q.vmEnd)
    ensures r.Err? && (dst + n <= src || src + n <= dst) ==>
              r.error == Ebpf(if exists q :: q in m && q.writable && q.vmStart <= dst && dst + n <= q.vmEnd
                              then AccessViolation(Load, src, n) else AccessViolation(Store, dst, n))
    ensures r.Ok? ==> r.value == 0 && Moved(MoveWalk(m, dst, src, n), old(mem[..]), mem[..], 0, n)
    ensures r.Ok? ==> BytesCopied(m, old(mem[..]), mem[..], src, dst, 0, n)
    ensures r.Err? ==> mem[..] == old(mem[..])
    ensures forall q, h :: q in m && !q.writable && q.host <= h < q.host + (q.vmEnd - q.vmStart) && h < mem.Length ==>
              mem[h] == old(mem[h])
  {
    OverlapTestMeaning(src, n, dst, n);
    if !IsNonoverlapping(src, n, dst, n) {
      return Err(CopyOverlapping);
    }
    // disjoint virtual ranges; the copy below would cope with overlapping host bytes as well
    r := Memmove(m, mem, dst, src, n);
  }
}
