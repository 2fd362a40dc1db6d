/** `memmove` over ranges that may span many regions: two chunk iterators walked in lockstep,
    copying pairs of equal length, forwards or backwards. */
module ChunkedMove {
  import opened Words
  import opened Bytes
  import opened MemoryMap
  import opened ChunkIterator
  import opened VmReference

  // ----- What a move is

  function HostAt(m: seq<Region>, base: int, i: int): int {
    HostOf(m, base + i)
  }

  lemma ByteAtMeaning(m: seq<Region>, size: nat, base: int, i: int, h: nat)
    requires WellFormed(m, size)
    ensures HostAt(m, base, i) == h <==> ByteAt(m, base, i, h)
  {
    HostOfMeaning(m, size, base + i, h);
  }

  predicate AccessibleAt(m: seq<Region>, access: AccessType, base: int, i: int) {
    Accessible(m, access, base + i)
  }

  /** A request to walk the `n` bytes at `src` and at `dst` in pairs. */
  datatype Walk = Walk(m: seq<Region>, srcAccess: AccessType, src: u64, dstAccess: AccessType, dst: u64, n: u64) {

    /** Neither range runs past the last 64-bit address. */
    predicate InRange() {
      src + n < TWO_TO_THE_64 && dst + n < TWO_TO_THE_64
    }

    predicate Good(i: int) {
      AccessibleAt(m, srcAccess, src, i) && AccessibleAt(m, dstAccess, dst, i)
    }

    ghost predicate AllGood() {
      forall i :: 0 <= i < n ==> Good(i)
    }

    /** End of the longest run of good pairs that starts at `i`. */
    function GoodUntil(i: nat): (k: nat)
      requires i <= n
      ensures i <= k <= n && (forall j :: i <= j < k ==> Good(j)) && (k < n ==> !Good(k))
      decreases n - i
    {
      hide AccessibleAt;
      if i == n || !Good(i) then i else GoodUntil(i + 1)
    }

    /** Start of the longest run of good pairs that ends before `i`. */
    function GoodSince(i: nat): (k: nat)
      requires i <= n
      ensures k <= i && (forall j :: k <= j < i ==> Good(j)) && (0 < k ==> !Good(k - 1))
    {
      hide AccessibleAt;
      if i == 0 || !Good(i - 1) then i else GoodSince(i - 1)
    }

    /** The error for a bad pair: the source is looked at first, and the whole range is named. */
    function Blame(i: int): EbpfError {
      if !AccessibleAt(m, srcAccess, src, i) then AccessViolation(srcAccess, src, n)
      else AccessViolation(dstAccess, dst, n)
    }
  }

  /** Host byte `h` backs one of the destination bytes from..to. */
  ghost predicate Written(w: Walk, from: int, to: int, h: int) {
    exists i :: from <= i < to && HostAt(w.m, w.dst, i) == h
  }

  /** Byte `i` of the destination now holds what byte `i` of the source held. */
  ghost predicate Arrived(w: Walk, before: seq<byte>, after: seq<byte>, i: int)
    requires |after| == |before|
  {
    && 0 <= HostAt(w.m, w.src, i) < |before| && 0 <= HostAt(w.m, w.dst, i) < |before|
    && after[HostAt(w.m, w.dst, i)] == before[HostAt(w.m, w.src, i)]
  }

  /** Host byte `h` is as it was, unless it backs one of the destination bytes from..to. */
  ghost predicate Kept(w: Walk, before: seq<byte>, after: seq<byte>, from: int, to: int, h: nat)
    requires h < |after| == |before|
  {
    !Written(w, from, to, h) ==> after[h] == before[h]
  }

  /** `after` is `before` with bytes from..to of the destination replaced by the bytes that the
      source held in `before`, and nothing else changed. */
  ghost predicate Moved(w: Walk, before: seq<byte>, after: seq<byte>, from: int, to: int) {
    && |after| == |before|
    && (forall i :: from <= i < to ==> Arrived(w, before, after, i))
    && (forall h :: 0 <= h < |before| ==> Kept(w, before, after, from, to, h))
  }

  lemma NothingMoved(w: Walk, before: seq<byte>, k: int)
    ensures Moved(w, before, before, k, k)
  {
  }

  /** The specification leaves no freedom: it determines the final memory. */
  lemma MovedUnique(w: Walk, before: seq<byte>, after1: seq<byte>, after2: seq<byte>, from: int, to: int)
    requires Moved(w, before, after1, from, to) && Moved(w, before, after2, from, to)
    ensures after1 == after2
  {
    forall h | 0 <= h < |before|
      ensures after1[h] == after2[h]
    {
      assert Kept(w, before, after1, from, to, h) && Kept(w, before, after2, from, to, h);
      if Written(w, from, to, h) {
        var i :| from <= i < to && HostAt(w.m, w.dst, i) == h;
        assert Arrived(w, before, after1, i) && Arrived(w, before, after2, i);
      }
    }
  }

  /** No byte is overwritten before it has been read: going forwards, the destination must not
      start inside the source; going backwards, the source must not start inside the
      destination. */
  predicate DirectionSafe(w: Walk, reverse: bool) {
    if reverse then !(w.dst < w.src < w.dst + w.n) else !(w.src < w.dst < w.src + w.n)
  }

  /** The wrapping comparison that picks the direction is true exactly when the destination
      starts inside the source, taking a source that runs past the last address to go on at
      address 0. When the source does not, the choice is always safe. */
  lemma WrappingTestPicksASafeDirection(w: Walk)
    ensures WrappingSub(w.dst, w.src) < w.n <==>
            w.src <= w.dst < w.src + w.n || w.dst + TWO_TO_THE_64 < w.src + w.n
    ensures w.src + w.n <= TWO_TO_THE_64 ==> DirectionSafe(w, WrappingSub(w.dst, w.src) < w.n)
  {
  }

  // ----- One pair of pieces

  /** `s` after a raw copy of `len` bytes from `src` to `dst`. */
  function Spliced(s: seq<byte>, src: nat, dst: nat, len: nat): seq<byte>
    requires src + len <= |s| && dst + len <= |s|
  {
    Put(s, dst, s[src..src + len])
  }

  /** `std::ptr::copy`: the source bytes are all read before any is written. */
  method PtrCopy(mem: array<byte>, src: nat, dst: nat, len: nat)
    requires src + len <= mem.Length && dst + len <= mem.Length
    modifies mem
    ensures mem[..] == Spliced(old(mem[..]), src, dst, len)
  {
    forall i | 0 <= i < len {
      mem[dst + i] := mem[src + i];
    }
    assert mem[..] == Spliced(old(mem[..]), src, dst, len);
  }

  /** Bytes p..p+len of a range lie at consecutive host bytes from `host` on. */
  ghost predicate Contiguous(m: seq<Region>, base: int, p: int, len: int, host: int) {
    forall i :: p <= i < p + len ==> HostAt(m, base, i) == host + (i - p)
  }

  /** A piece that is about to be copied: `len` good pairs from `p` on, at host bytes `srcHost`
      and `dstHost`, next to the pairs from..to that were moved before, whose destination it
      does not read. */
  ghost predicate NextPiece(w: Walk, size: nat, from: int, to: int, p: int, len: nat, srcHost: nat, dstHost: nat) {
    && from <= to && (p == to || p + len == from)
    && srcHost + len <= size && dstHost + len <= size
    && Contiguous(w.m, w.src, p, len, srcHost) && Contiguous(w.m, w.dst, p, len, dstHost)
    && (forall i :: p <= i < p + len ==> w.Good(i))
    && (from < to ==> Apart(w.dst + from, w.dst + to, w.src + p, w.src + p + len))
  }

  /** Mapped addresses have their own host bytes. */
  ghost predicate Injective(m: seq<Region>, size: nat) {
    && (forall a :: Find(m, a).Some? ==> 0 <= HostOf(m, a) < size)
    && (forall a, b :: Find(m, a).Some? && HostOf(m, a) == HostOf(m, b) ==> a == b)
  }

  lemma WellFormedIsInjective(m: seq<Region>, size: nat)
    requires WellFormed(m, size)
    ensures Injective(m, size)
  {
    forall a, b | Find(m, a).Some?
      ensures 0 <= HostOf(m, a) < size && (HostOf(m, a) == HostOf(m, b) ==> a == b)
    {
      HostInjective(m, size, a, b);
    }
  }

  lemma SourceIntact(w: Walk, before: seq<byte>, mid: seq<byte>, from: int, to: int,
                     p: int, len: nat, srcHost: nat, dstHost: nat, j: int)
    requires Injective(w.m, |before|) && Moved(w, before, mid, from, to)
    requires NextPiece(w, |before|, from, to, p, len, srcHost, dstHost) && p <= j < p + len
    ensures mid[srcHost + (j - p)] == before[HostAt(w.m, w.src, j)]
  {
    assert w.Good(j) && HostAt(w.m, w.src, j) == srcHost + (j - p);
    assert Kept(w, before, mid, from, to, srcHost + (j - p));
    if Written(w, from, to, HostAt(w.m, w.src, j)) {
      assert false;
    }
  }

  lemma MovedKept(w: Walk, before: seq<byte>, mid: seq<byte>, from: int, to: int,
                  p: int, len: nat, srcHost: nat, dstHost: nat, i: int)
    requires Injective(w.m, |before|) && Moved(w, before, mid, from, to)
    requires NextPiece(w, |before|, from, to, p, len, srcHost, dstHost) && from <= i < to
    requires Arrived(w, before, mid, i)
    ensures Spliced(mid, srcHost, dstHost, len)[HostAt(w.m, w.dst, i)] == before[HostAt(w.m, w.src, i)]
  {
    var h := HostAt(w.m, w.dst, i);
    var j := p + (h - dstHost);
    assert p <= j < p + len ==> w.Good(j) && HostAt(w.m, w.dst, j) == h;
  }

  /** Copying the next piece moves the union of what was moved and that piece. */
  lemma MovedExtends(w: Walk, before: seq<byte>, mid: seq<byte>, from: int, to: int,
                     p: int, len: nat, srcHost: nat, dstHost: nat)
    requires Injective(w.m, |before|) && Moved(w, before, mid, from, to)
    requires NextPiece(w, |before|, from, to, p, len, srcHost, dstHost)
    ensures Moved(w, before, Spliced(mid, srcHost, dstHost, len), Min(from, p), Max(to, p + len))
  {
    var after := Spliced(mid, srcHost, dstHost, len);
    var from', to' := Min(from, p), Max(to, p + len);
    forall i | from' <= i < to'
      ensures Arrived(w, before, after, i)
    {
      if p <= i < p + len {
        SourceIntact(w, before, mid, from, to, p, len, srcHost, dstHost, i);
        assert after[dstHost + (i - p)] == mid[srcHost + (i - p)];
      } else {
        assert Arrived(w, before, mid, i);
        MovedKept(w, before, mid, from, to, p, len, srcHost, dstHost, i);
      }
    }
    forall h | 0 <= h < |before|
      ensures Kept(w, before, after, from', to', h)
    {
      assert Kept(w, before, mid, from, to, h);
      if dstHost <= h < dstHost + len {
        assert HostAt(w.m, w.dst, p + (h - dstHost)) == h;
      }
    }
  }

  // ----- One side of the walk

  datatype Fetched = Piece(chunk: Chunk) | Exhausted | Failed(error: EbpfError)

  /** One side has its bytes a..b left, split between the current piece and the iterator, whose
      bounds are `start` and `end`. */
  ghost predicate Side(m: seq<Region>, access: AccessType, base: u64, n: u64, reverse: bool, a: int, b: int,
                       current: Option<Chunk>, start: u64, end: u64)
  {
    && 0 <= a <= b <= n && start <= end
    && (current.Some? ==> current.value.Fits(m, access))
    && if reverse then
         && a == 0 && start == base
         && match current {
              case None => end == base + b
              case Some(c) => c.vmAddr == end && c.End() == base + b
            }
       else
         && b == n && end == base + n
         && match current {
              case None => start == base + a
              case Some(c) => c.vmAddr == base + a && c.End() == start
            }
  }

  /** Pieces not yet finished: the current one and those still in the iterator. */
  function PiecesLeft(m: seq<Region>, access: AccessType, current: Option<Chunk>, start: u64, end: u64): nat {
    |Tiles(m, access, start, end)| + if current.Some? then 1 else 0
  }

  /** The next byte that one side has to offer. */
  function Frontier(reverse: bool, a: int, b: int): int {
    if reverse then b - 1 else a
  }

  /** Keeps the current piece, or moves on to the next one. */
  method MemoryChunk(it: MemoryChunkIterator, current: Option<Chunk>, reverse: bool,
                     ghost size: nat, ghost base: u64, ghost n: u64, ghost a: int, ghost b: int)
    returns (f: Fetched)
    requires WellFormed(it.mapping, size) && it.Ranges(it.mapping, it.accessType, base, n)
    requires Side(it.mapping, it.accessType, base, n, reverse, a, b, current, it.vmAddrStart, it.vmAddrEnd)
    modifies it
    ensures it.Ranges(it.mapping, it.accessType, base, n)
    ensures f.Exhausted? <==> a == b
    ensures f.Failed? ==>
              && !AccessibleAt(it.mapping, it.accessType, base, Frontier(reverse, a, b))
              && f.error == AccessViolation(it.accessType, base, n)
    ensures f.Piece? ==>
              && Side(it.mapping, it.accessType, base, n, reverse, a, b, Some(f.chunk), it.vmAddrStart, it.vmAddrEnd)
    ensures f.Piece? && AllAccessible(it.mapping, it.accessType, base, base + n) ==>
              && PiecesLeft(it.mapping, it.accessType, Some(f.chunk), it.vmAddrStart, it.vmAddrEnd)
                 == old(PiecesLeft(it.mapping, it.accessType, current, it.vmAddrStart, it.vmAddrEnd))
    ensures f.Exhausted? ==> it.vmAddrStart == it.vmAddrEnd && current.None?
  {
    if current.Some? {
      return Piece(current.value);
    }
    var item;
    if reverse {
      if AllAccessible(it.mapping, it.accessType, base, base + n) && it.vmAddrStart < it.vmAddrEnd {
        TilesFromTheBack(it.mapping, size, it.accessType, it.vmAddrStart, it.vmAddrEnd);
      }
      item := it.NextBack();
    } else {
      item := it.Next();
    }
    match item
    case None => return Exhausted;
    case Some(Ok(chunk)) => return Piece(chunk);
    case Some(Err(e)) => return Failed(e);
  }

  /** The bytes of a piece at offset p..p+len of a range: accessible, and consecutive in host
      memory from the address that `VmToHost` returns. */
  lemma PieceHost(m: seq<Region>, size: nat, access: AccessType, base: u64, c: Chunk, p: int, len: u64)
    requires WellFormed(m, size) && c.Fits(m, access)
    requires c.vmAddr <= base + p && base + p + len <= c.End() && 0 < len
    ensures c.region.VmToHost(base + p, len).Ok?
    ensures c.region.VmToHost(base + p, len).value + len <= size
    ensures Contiguous(m, base, p, len, c.region.VmToHost(base + p, len).value)
    ensures forall i :: p <= i < p + len ==> AccessibleAt(m, access, base, i)
  {
    var k :| 0 <= k < |m| && m[k] == c.region;
    assert Backed(m, size, k);
    forall i | p <= i < p + len
      ensures Find(m, base + i) == Some(c.region) && AccessibleAt(m, access, base, i)
      ensures HostAt(m, base, i) == c.region.host + (base + p - c.region.vmStart) + (i - p)
    {
      RegionUnique(m, size, base + i, c.region);
    }
  }

  // ----- The walk

  /** The pairs that get processed. */
  function WalkExtent(w: Walk, reverse: bool): (nat, nat) {
    if !w.InRange() then (0, 0)
    else if reverse then (w.GoodSince(w.n), w.n)
    else (0, w.GoodUntil(0))
  }

  function WalkResult(w: Walk, reverse: bool): Result<u64, EbpfError> {
    if w.src + w.n >= TWO_TO_THE_64 then Err(AccessViolation(w.srcAccess, w.src, w.n))
    else if w.dst + w.n >= TWO_TO_THE_64 then Err(AccessViolation(w.dstAccess, w.dst, w.n))
    else
      var (from, to) := WalkExtent(w, reverse);
      if to - from == w.n then Ok(0)
      else Err(w.Blame(if reverse then from - 1 else to))
  }

  /** The walk ends where the first bad pair is met. */
  lemma FirstBadPair(w: Walk, reverse: bool, a: int, b: int)
    requires w.InRange() && 0 <= a < b <= w.n && (if reverse then a == 0 else b == w.n)
    requires forall i :: 0 <= i < a || b <= i < w.n ==> w.Good(i)
    requires !w.Good(Frontier(reverse, a, b))
    ensures WalkExtent(w, reverse) == if reverse then (b, w.n) else (0, a)
    ensures WalkResult(w, reverse) == Err(w.Blame(Frontier(reverse, a, b)))
  {
  }

  lemma NoBadPair(w: Walk, reverse: bool)
    requires w.InRange() && w.AllGood()
    ensures WalkExtent(w, reverse) == (0, w.n) && WalkResult(w, reverse) == Ok(0)
  {
  }

  lemma AllGoodIsAllAccessible(w: Walk)
    ensures w.AllGood() <==>
              && AllAccessible(w.m, w.srcAccess, w.src, w.src + w.n)
              && AllAccessible(w.m, w.dstAccess, w.dst, w.dst + w.n)
  {
    if w.AllGood() {
      forall a | w.src <= a < w.src + w.n
        ensures Accessible(w.m, w.srcAccess, a)
      {
        assert w.Good(a - w.src);
      }
      forall a | w.dst <= a < w.dst + w.n
        ensures Accessible(w.m, w.dstAccess, a)
      {
        assert w.Good(a - w.dst);
      }
    }
  }

  /** Progress of a walk over a fully accessible range: every copy finishes a piece of at least
      one side, and the last one finishes a piece of each. */
  ghost predicate Progress(w: Walk, calls: nat, srcLeft: nat, dstLeft: nat, finished: bool)
    requires w.InRange()
  {
    var srcPieces := |Tiles(w.m, w.srcAccess, w.src, w.src + w.n)|;
    var dstPieces := |Tiles(w.m, w.dstAccess, w.dst, w.dst + w.n)|;
    && srcPieces <= calls + srcLeft && dstPieces <= calls + dstLeft
    && calls + srcLeft + dstLeft + (if finished && 0 < w.n then 1 else 0) <= srcPieces + dstPieces
  }

  /** Bounds on the number of copies of a complete walk. */
  ghost predicate CallsBounded(w: Walk, calls: nat)
    requires w.InRange()
  {
    var srcPieces := |Tiles(w.m, w.srcAccess, w.src, w.src + w.n)|;
    var dstPieces := |Tiles(w.m, w.dstAccess, w.dst, w.dst + w.n)|;
    && srcPieces <= calls && dstPieces <= calls
    && (0 < w.n ==> calls <= srcPieces + dstPieces - 1)
    && (w.n == 0 ==> calls == 0)
  }

  /** The pairs still to be processed once `len` more of a..b have been. */
  function Taken(reverse: bool, a: int, b: int, len: int): (int, int) {
    if reverse then (a, b - len) else (a + len, b)
  }

  /** All pairs but a..b have been moved. */
  ghost predicate MovedOutside(w: Walk, before: seq<byte>, after: seq<byte>, reverse: bool, a: int, b: int) {
    if reverse then Moved(w, before, after, b, w.n) else Moved(w, before, after, 0, a)
  }

  /** Offset of the first pair that a copy of `len` pairs handles. */
  function TakenAt(reverse: bool, a: int, b: int, len: int): int {
    if reverse then b - len else a
  }

  /** Copying the next `len` pairs in a safe direction: nothing read has been overwritten. */
  lemma MovedOutsideExtends(w: Walk, reverse: bool, before: seq<byte>, mid: seq<byte>, a: int, b: int,
                            len: nat, srcHost: nat, dstHost: nat)
    requires WellFormed(w.m, |before|) && DirectionSafe(w, reverse) && MovedOutside(w, before, mid, reverse, a, b)
    requires 0 <= a && a + len <= b <= w.n && (if reverse then a == 0 else b == w.n)
    requires srcHost + len <= |before| && dstHost + len <= |before|
    requires Contiguous(w.m, w.src, TakenAt(reverse, a, b, len), len, srcHost)
    requires Contiguous(w.m, w.dst, TakenAt(reverse, a, b, len), len, dstHost)
    requires forall i :: TakenAt(reverse, a, b, len) <= i < TakenAt(reverse, a, b, len) + len ==> w.Good(i)
    ensures var (a', b') := Taken(reverse, a, b, len);
            MovedOutside(w, before, Spliced(mid, srcHost, dstHost, len), reverse, a', b')
  {
    WellFormedIsInjective(w.m, |before|);
    if reverse {
      MovedExtends(w, before, mid, b, w.n, b - len, len, srcHost, dstHost);
    } else {
      MovedExtends(w, before, mid, 0, a, a, len, srcHost, dstHost);
    }
  }

  /** What is left of a piece after `len` bytes of it, taken from its end when going backwards. */
  function AfterTaking(c: Chunk, len: u64, reverse: bool): Option<Chunk> {
    var remaining := SaturatingSub(c.remaining, len);
    var vmAddr := if reverse then c.vmAddr else SaturatingAdd(c.vmAddr, len);
    if remaining == 0 then None else Some(Chunk(c.region, vmAddr, remaining))
  }

  /** Where the first `len` bytes of a piece start, or the last ones when going backwards. */
  function TakenFrom(c: Chunk, len: u64, reverse: bool): u64 {
    if reverse then SaturatingSub(SaturatingAdd(c.vmAddr, c.remaining), len) else c.vmAddr
  }

  lemma TakingKeepsSide(m: seq<Region>, access: AccessType, base: u64, n: u64, reverse: bool, a: int, b: int,
                        c: Chunk, start: u64, end: u64, len: u64)
    requires Side(m, access, base, n, reverse, a, b, Some(c), start, end)
    requires 0 < len <= c.remaining
    ensures if reverse then Side(m, access, base, n, reverse, a, b - len, AfterTaking(c, len, reverse), start, end)
            else Side(m, access, base, n, reverse, a + len, b, AfterTaking(c, len, reverse), start, end)
    ensures TakenFrom(c, len, reverse) == base + TakenAt(reverse, a, b, len)
    ensures PiecesLeft(m, access, AfterTaking(c, len, reverse), start, end)
         == PiecesLeft(m, access, Some(c), start, end) - if len == c.remaining then 1 else 0
  {
  }

  /** Copies `len` bytes from one piece to the other, with pairs a..b still to be processed.
      `VmToHost` cannot fail here, as both ranges lie within their pieces. */
  method CopyBetween(w: Walk, reverse: bool, mem: array<byte>, src: Chunk, dst: Chunk, len: u64,
                  ghost before: seq<byte>, ghost a: int, ghost b: int)
    requires WellFormed(w.m, mem.Length) && |before| == mem.Length
    requires src.Fits(w.m, w.srcAccess) && dst.Fits(w.m, w.dstAccess)
    requires 0 < len <= src.remaining && len <= dst.remaining
    requires TakenFrom(src, len, reverse) == w.src + TakenAt(reverse, a, b, len)
    requires TakenFrom(dst, len, reverse) == w.dst + TakenAt(reverse, a, b, len)
    requires 0 <= a && a + len <= b <= w.n && (if reverse then a == 0 else b == w.n)
    modifies mem
    ensures var (a', b') := Taken(reverse, a, b, len);
            && (forall i :: a <= i < a' || b' <= i < b ==> w.Good(i))
            && (DirectionSafe(w, reverse) && old(MovedOutside(w, before, mem[..], reverse, a, b)) ==>
                  MovedOutside(w, before, mem[..], reverse, a', b'))
  {
    ghost var p := TakenAt(reverse, a, b, len);
    PieceHost(w.m, mem.Length, w.srcAccess, w.src, src, p, len);
    PieceHost(w.m, mem.Length, w.dstAccess, w.dst, dst, p, len);
    assert forall i :: p <= i < p + len ==> w.Good(i);
    var srcHost := src.region.VmToHost(TakenFrom(src, len, reverse), len).value;
    var dstHost := dst.region.VmToHost(TakenFrom(dst, len, reverse), len).value;
    if DirectionSafe(w, reverse) && MovedOutside(w, before, mem[..], reverse, a, b) {
      MovedOutsideExtends(w, reverse, before, mem[..], a, b, len, srcHost, dstHost);
    }
    PtrCopy(mem, srcHost, dstHost, len);
  }

  datatype Step = Copied(len: u64) | Finished | Aborted(error: EbpfError)

  /** A copy leaves one piece fewer on a side when it finishes the side's current piece. */
  ghost predicate Shrinks(before: nat, after: nat, finishes: bool) {
    after == before - if finishes then 1 else 0
  }

  /** Copies as many bytes as both pieces have, and gives back what is left of the pieces. The
      iterators' bounds only matter to the proof. */
  method CopyPair(w: Walk, reverse: bool, mem: array<byte>, src: Chunk, dst: Chunk,
                  ghost before: seq<byte>, ghost a: int, ghost b: int,
                  ghost srcStart: u64, ghost srcEnd: u64, ghost dstStart: u64, ghost dstEnd: u64)
    returns (len: u64, srcRest: Option<Chunk>, dstRest: Option<Chunk>)
    requires WellFormed(w.m, mem.Length) && |before| == mem.Length
    requires Side(w.m, w.srcAccess, w.src, w.n, reverse, a, b, Some(src), srcStart, srcEnd)
    requires Side(w.m, w.dstAccess, w.dst, w.n, reverse, a, b, Some(dst), dstStart, dstEnd)
    modifies mem
    ensures 0 < len <= b - a && len == Min(src.remaining, dst.remaining)
    ensures var (a', b') := Taken(reverse, a, b, len);
            && Side(w.m, w.srcAccess, w.src, w.n, reverse, a', b', srcRest, srcStart, srcEnd)
            && Side(w.m, w.dstAccess, w.dst, w.n, reverse, a', b', dstRest, dstStart, dstEnd)
            && (forall i :: a <= i < a' || b' <= i < b ==> w.Good(i))
            && (DirectionSafe(w, reverse) && old(MovedOutside(w, before, mem[..], reverse, a, b)) ==>
                  MovedOutside(w, before, mem[..], reverse, a', b'))
    ensures Shrinks(PiecesLeft(w.m, w.srcAccess, Some(src), srcStart, srcEnd),
                    PiecesLeft(w.m, w.srcAccess, srcRest, srcStart, srcEnd), len == src.remaining)
    ensures Shrinks(PiecesLeft(w.m, w.dstAccess, Some(dst), dstStart, dstEnd),
                    PiecesLeft(w.m, w.dstAccess, dstRest, dstStart, dstEnd), len == dst.remaining)
    ensures len == b - a ==> len == src.remaining == dst.remaining
  {
    len := if src.remaining <= dst.remaining then src.remaining else dst.remaining;
    TakingKeepsSide(w.m, w.srcAccess, w.src, w.n, reverse, a, b, src, srcStart, srcEnd, len);
    TakingKeepsSide(w.m, w.dstAccess, w.dst, w.n, reverse, a, b, dst, dstStart, dstEnd, len);
    CopyBetween(w, reverse, mem, src, dst, len, before, a, b);
    srcRest, dstRest := AfterTaking(src, len, reverse), AfterTaking(dst, len, reverse);
  }

  /** One turn of the pairing loop, with pairs a..b still to be processed: fetch a piece on each
      side, copy as many bytes as both have, and give the rest of the two pieces back. */
  method PairStep(w: Walk, reverse: bool, mem: array<byte>,
                  srcIter: MemoryChunkIterator, dstIter: MemoryChunkIterator,
                  srcChunk: Option<Chunk>, dstChunk: Option<Chunk>,
                  ghost before: seq<byte>, ghost a: int, ghost b: int)
    returns (step: Step, srcRest: Option<Chunk>, dstRest: Option<Chunk>, ghost srcDone: bool, ghost dstDone: bool)
    requires WellFormed(w.m, mem.Length) && |before| == mem.Length && srcIter != dstIter
    requires srcIter.Ranges(w.m, w.srcAccess, w.src, w.n) && dstIter.Ranges(w.m, w.dstAccess, w.dst, w.n)
    requires Side(w.m, w.srcAccess, w.src, w.n, reverse, a, b, srcChunk, srcIter.vmAddrStart, srcIter.vmAddrEnd)
    requires Side(w.m, w.dstAccess, w.dst, w.n, reverse, a, b, dstChunk, dstIter.vmAddrStart, dstIter.vmAddrEnd)
    modifies mem, srcIter, dstIter
    ensures srcIter.Ranges(w.m, w.srcAccess, w.src, w.n) && dstIter.Ranges(w.m, w.dstAccess, w.dst, w.n)
    ensures step.Finished? <==> a == b
    ensures !step.Copied? ==> mem[..] == old(mem[..])
    ensures step.Aborted? ==>
              && !w.Good(Frontier(reverse, a, b)) && step.error == w.Blame(Frontier(reverse, a, b))
    ensures step.Copied? ==>
              var (a', b') := Taken(reverse, a, b, step.len);
              && 0 < step.len <= b - a
              && Side(w.m, w.srcAccess, w.src, w.n, reverse, a', b', srcRest, srcIter.vmAddrStart, srcIter.vmAddrEnd)
              && Side(w.m, w.dstAccess, w.dst, w.n, reverse, a', b', dstRest, dstIter.vmAddrStart, dstIter.vmAddrEnd)
              && (forall i :: a <= i < a' || b' <= i < b ==> w.Good(i))
              && (DirectionSafe(w, reverse) && old(MovedOutside(w, before, mem[..], reverse, a, b)) ==>
                    MovedOutside(w, before, mem[..], reverse, a', b'))
    // a copy finishes a piece of one side at least, and the last copy a piece of each
    ensures step.Copied? ==> (srcDone || dstDone) && (step.len == b - a ==> srcDone && dstDone)
    ensures step.Copied? && AllAccessible(w.m, w.srcAccess, w.src, w.src + w.n) ==>
              Shrinks(old(PiecesLeft(w.m, w.srcAccess, srcChunk, srcIter.vmAddrStart, srcIter.vmAddrEnd)),
                      PiecesLeft(w.m, w.srcAccess, srcRest, srcIter.vmAddrStart, srcIter.vmAddrEnd), srcDone)
    ensures step.Copied? && AllAccessible(w.m, w.dstAccess, w.dst, w.dst + w.n) ==>
              Shrinks(old(PiecesLeft(w.m, w.dstAccess, dstChunk, dstIter.vmAddrStart, dstIter.vmAddrEnd)),
                      PiecesLeft(w.m, w.dstAccess, dstRest, dstIter.vmAddrStart, dstIter.vmAddrEnd), dstDone)
  {
    hide Moved, Tiles, HostAt, Apart;
    srcRest, dstRest, srcDone, dstDone := None, None, false, false;
    var srcFetched := MemoryChunk(srcIter, srcChunk, reverse, mem.Length, w.src, w.n, a, b);
    match srcFetched
    case Exhausted => step := Finished;
    case Failed(e) => step := Aborted(e);
    case Piece(src) =>
      var dstFetched := MemoryChunk(dstIter, dstChunk, reverse, mem.Length, w.dst, w.n, a, b);
      match dstFetched
      case Exhausted => step := Finished;
      case Failed(e) =>
        step := Aborted(e);
        assert AccessibleAt(w.m, w.srcAccess, w.src, Frontier(reverse, a, b)) by {
          PieceHost(w.m, mem.Length, w.srcAccess, w.src, src, Frontier(reverse, a, b), 1);
        }
      case Piece(dst) =>
        var chunkLen;
        chunkLen, srcRest, dstRest :=
          CopyPair(w, reverse, mem, src, dst, before, a, b,
                   srcIter.vmAddrStart, srcIter.vmAddrEnd, dstIter.vmAddrStart, dstIter.vmAddrEnd);
        srcDone, dstDone := chunkLen == src.remaining, chunkLen == dst.remaining;
        step := Copied(chunkLen);
  }

  /** Walks both ranges in pairs of pieces and copies every pair. Nothing is assumed about the
      direction; memory is as specified when the direction is safe. */
  method IterMemoryPairChunks(w: Walk, reverse: bool, mem: array<byte>)
    returns (r: Result<u64, EbpfError>, ghost calls: nat)
    requires WellFormed(w.m, mem.Length)
    modifies mem
    ensures r == WalkResult(w, reverse)
    ensures DirectionSafe(w, reverse) ==>
              Moved(w, old(mem[..]), mem[..], WalkExtent(w, reverse).0, WalkExtent(w, reverse).1)
    ensures !w.InRange() ==> mem[..] == old(mem[..])
    ensures r.Ok? ==> w.InRange() && CallsBounded(w, calls)
  {
    hide Moved, Accessible;
    calls := 0;
    NothingMoved(w, mem[..], 0);
    NothingMoved(w, mem[..], w.n);
    var srcNew := MemoryChunkIterator.New(w.m, w.srcAccess, w.src, w.n);
    if srcNew.Err? {
      return Err(srcNew.error), 0;
    }
    var dstNew := MemoryChunkIterator.New(w.m, w.dstAccess, w.dst, w.n);
    if dstNew.Err? {
      return Err(dstNew.error), 0;
    }
    var srcIter, dstIter := srcNew.value, dstNew.value;
    var srcChunk: Option<Chunk>, dstChunk: Option<Chunk> := None, None;

    // pairs a..b are still to be processed
    ghost var a, b: int := 0, w.n;
    ghost var before := mem[..];
    AllGoodIsAllAccessible(w);
    while true
      invariant srcIter != dstIter && fresh(srcIter) && fresh(dstIter)
      invariant srcIter.Ranges(w.m, w.srcAccess, w.src, w.n) && dstIter.Ranges(w.m, w.dstAccess, w.dst, w.n)
      invariant Side(w.m, w.srcAccess, w.src, w.n, reverse, a, b, srcChunk, srcIter.vmAddrStart, srcIter.vmAddrEnd)
      invariant Side(w.m, w.dstAccess, w.dst, w.n, reverse, a, b, dstChunk, dstIter.vmAddrStart, dstIter.vmAddrEnd)
      invariant forall i :: 0 <= i < a || b <= i < w.n ==> w.Good(i)
      invariant DirectionSafe(w, reverse) ==> MovedOutside(w, before, mem[..], reverse, a, b)
      invariant w.AllGood() ==>
                  Progress(w, calls, PiecesLeft(w.m, w.srcAccess, srcChunk, srcIter.vmAddrStart, srcIter.vmAddrEnd),
                           PiecesLeft(w.m, w.dstAccess, dstChunk, dstIter.vmAddrStart, dstIter.vmAddrEnd), a == b)
      decreases b - a
    {
      var step;
      ghost var srcDone, dstDone;
      step, srcChunk, dstChunk, srcDone, dstDone :=
        PairStep(w, reverse, mem, srcIter, dstIter, srcChunk, dstChunk, before, a, b);
      match step
      case Finished =>
        break;
      case Aborted(e) =>
        FirstBadPair(w, reverse, a, b);
        return Err(e), calls;
      case Copied(len) =>
        calls := calls + 1;
        a, b := Taken(reverse, a, b, len).0, Taken(reverse, a, b, len).1;
    }
    NoBadPair(w, reverse);
    return Ok(0), calls;
  }
}
