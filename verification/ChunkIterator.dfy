/** The double-ended iterator that cuts a virtual range into pieces of one region each. */
module ChunkIterator {
  import opened Words
  import opened MemoryMap
  import opened Sequences

  /** `remaining` bytes from `vmAddr` on, all in `region`. */
  datatype Chunk = Chunk(region: Region, vmAddr: u64, remaining: u64) {
    function End(): int {
      vmAddr + remaining
    }

    /** A usable piece: non-empty, inside one region of the map, with the access allowed. */
    ghost predicate Fits(m: seq<Region>, access: AccessType) {
      && region in m && (access == Store ==> region.writable)
      && 0 < remaining && region.vmStart <= vmAddr && vmAddr + remaining <= region.vmEnd
    }
  }

  /** The longest piece that starts at `lo`, stays in one region and stops by `hi`. */
  function FrontPiece(m: seq<Region>, lo: u64, hi: u64): Chunk
    requires lo < hi && Find(m, lo).Some?
  {
    var r := Find(m, lo).value;
    Chunk(r, lo, Min(r.vmEnd, hi) - lo)
  }

  /** The longest piece that ends at `hi`, stays in one region and starts no earlier than `lo`. */
  function BackPiece(m: seq<Region>, lo: u64, hi: u64): Chunk
    requires lo < hi && Find(m, hi - 1).Some?
  {
    var r := Find(m, hi - 1).value;
    Chunk(r, Max(r.vmStart, lo), hi - Max(r.vmStart, lo))
  }

  type Item = Option<Result<Chunk, EbpfError>>

  class MemoryChunkIterator {
    const mapping: seq<Region>
    const accessType: AccessType
    const initialVmAddr: u64
    const len: u64
    var vmAddrStart: u64
    // one past the last address left
    var vmAddrEnd: u64

    constructor (mapping: seq<Region>, accessType: AccessType, vmAddr: u64, len: u64, end: u64)
      ensures this.mapping == mapping && this.accessType == accessType
      ensures initialVmAddr == vmAddr && this.len == len
      ensures vmAddrStart == vmAddr && vmAddrEnd == end
    {
      this.mapping, this.accessType, initialVmAddr, this.len := mapping, accessType, vmAddr, len;
      vmAddrStart, vmAddrEnd := vmAddr, end;
    }

    static method New(mapping: seq<Region>, accessType: AccessType, vmAddr: u64, len: u64)
      returns (r: Result<MemoryChunkIterator, EbpfError>)
      ensures r.Ok? <==> vmAddr + len < TWO_TO_THE_64
      ensures r.Ok? ==>
                && fresh(r.value) && r.value.Ranges(mapping, accessType, vmAddr, len)
                && r.value.vmAddrStart == vmAddr && r.value.vmAddrEnd == vmAddr + len
      ensures r.Err? ==> r.error == AccessViolation(accessType, vmAddr, len)
    {
      match CheckedAdd(vmAddr, len)
      case None =>
        return Err(AccessViolation(accessType, vmAddr, len));
      case Some(end) =>
        var it := new MemoryChunkIterator(mapping, accessType, vmAddr, len, end);
        return Ok(it);
    }

    /** The iterator walks [vmAddr, vmAddr + len) and what is left is a part of that range. */
    ghost predicate Ranges(m: seq<Region>, access: AccessType, vmAddr: u64, n: u64)
      reads this
    {
      && mapping == m && accessType == access && initialVmAddr == vmAddr && len == n
      && vmAddr <= vmAddrStart <= vmAddrEnd <= vmAddr + n
    }

    /** Looks a region up; a failure is reported for the whole range the iterator was made for. */
    method FindRegion(vmAddr: u64) returns (r: Result<Region, EbpfError>)
      ensures r.Ok? <==> Accessible(mapping, accessType, vmAddr)
      ensures r.Ok? ==> Find(mapping, vmAddr) == Some(r.value)
      ensures r.Err? ==> r.error == AccessViolation(accessType, initialVmAddr, len)
    {
      r := Lookup(mapping, accessType, vmAddr);
      match r
      case Ok(_) =>
      case Err(AccessViolation(access, _, _)) =>
        r := Err(AccessViolation(access, initialVmAddr, len));
      case Err(_) =>
    }

    method Next() returns (item: Item)
      requires vmAddrStart <= vmAddrEnd
      modifies this
      ensures old(vmAddrStart) <= vmAddrStart <= vmAddrEnd == old(vmAddrEnd)
      ensures item.None? <==> old(vmAddrStart) == old(vmAddrEnd)
      ensures item.None? ==> vmAddrStart == old(vmAddrStart)
      ensures item.Some? ==> (item.value.Ok? <==> Accessible(mapping, accessType, old(vmAddrStart)))
      ensures item.Some? && item.value.Ok? ==>
                && item.value.value.Fits(mapping, accessType)
                && item.value.value == FrontPiece(mapping, old(vmAddrStart), vmAddrEnd)
                && vmAddrStart == item.value.value.End()
      ensures item.Some? && item.value.Err? ==>
                && item.value.error == AccessViolation(accessType, initialVmAddr, len)
                && vmAddrStart == vmAddrEnd
    {
      if vmAddrStart == vmAddrEnd {
        return None;
      }
      var found := FindRegion(vmAddrStart);
      if found.Err? {
        vmAddrStart := vmAddrEnd;
        return Some(Err(found.error));
      }
      var region := found.value;
      var vmAddr := vmAddrStart;
      var chunkLen;
      if region.vmEnd <= vmAddrEnd {
        // up to the end of the region
        chunkLen := SaturatingSub(region.vmEnd, vmAddrStart);
        vmAddrStart := region.vmEnd;
      } else {
        // the range ends first
        chunkLen := SaturatingSub(vmAddrEnd, vmAddrStart);
        vmAddrStart := vmAddrEnd;
      }
      return Some(Ok(Chunk(region, vmAddr, chunkLen)));
    }

    method NextBack() returns (item: Item)
      requires vmAddrStart <= vmAddrEnd
      modifies this
      ensures old(vmAddrStart) <= vmAddrStart <= vmAddrEnd <= old(vmAddrEnd)
      ensures item.None? <==> old(vmAddrStart) == old(vmAddrEnd)
      ensures item.None? ==> vmAddrEnd == old(vmAddrEnd)
      ensures item.Some? ==>
                (item.value.Ok? <==> Accessible(mapping, accessType, old(vmAddrEnd) - 1))
      ensures item.Some? && item.value.Ok? ==>
                && item.value.value.Fits(mapping, accessType)
                && item.value.value == BackPiece(mapping, old(vmAddrStart), old(vmAddrEnd))
                && vmAddrStart == old(vmAddrStart) && vmAddrEnd == item.value.value.vmAddr
      ensures item.Some? && item.value.Err? ==>
                && item.value.error == AccessViolation(accessType, initialVmAddr, len)
                && vmAddrStart == vmAddrEnd == old(vmAddrEnd)
    {
      if vmAddrStart == vmAddrEnd {
        return None;
      }
      var found := FindRegion(SaturatingSub(vmAddrEnd, 1));
      if found.Err? {
        vmAddrStart := vmAddrEnd;
        return Some(Err(found.error));
      }
      var region := found.value;
      var chunkLen;
      if region.vmStart >= vmAddrStart {
        // back to the start of the region
        chunkLen := SaturatingSub(vmAddrEnd, region.vmStart);
        vmAddrEnd := region.vmStart;
      } else {
        // the range starts later
        chunkLen := SaturatingSub(vmAddrEnd, vmAddrStart);
        vmAddrEnd := vmAddrStart;
      }
      return Some(Ok(Chunk(region, vmAddrEnd, chunkLen)));
    }
  }

  // ----- What the iterator yields

  ghost predicate AllAccessible(m: seq<Region>, access: AccessType, lo: int, hi: int) {
    forall a :: lo <= a < hi ==> Accessible(m, access, a)
  }

  /** `cs` cuts [lo, hi) into adjacent ascending pieces, each usable, none extendable: two
      neighbours always lie in different regions. */
  ghost predicate Tiling(m: seq<Region>, access: AccessType, lo: int, hi: int, cs: seq<Chunk>) {
    && (forall i :: 0 <= i < |cs| ==> cs[i].Fits(m, access))
    && (forall i, j :: 0 <= i < |cs| && j == i + 1 && j < |cs| ==>
          cs[i].End() == cs[j].vmAddr && cs[i].region != cs[j].region)
    && (if cs == [] then lo == hi else cs[0].vmAddr == lo && cs[|cs| - 1].End() == hi)
  }

  /** The pieces of [lo, hi) in ascending order, up to the first inaccessible byte. */
  function Tiles(m: seq<Region>, access: AccessType, lo: u64, hi: u64): seq<Chunk>
    decreases hi - lo
  {
    if hi <= lo || !Accessible(m, access, lo) then []
    else
      var c := FrontPiece(m, lo, hi);
      [c] + Tiles(m, access, c.End(), hi)
  }

  lemma TilingNothing(m: seq<Region>, access: AccessType, at: int)
    ensures Tiling(m, access, at, at, [])
  {
  }

  lemma TilingCons(m: seq<Region>, access: AccessType, c: Chunk, hi: u64, cs: seq<Chunk>)
    requires c.Fits(m, access) && Tiling(m, access, c.End(), hi, cs)
    requires cs != [] ==> cs[0].region != c.region
    ensures Tiling(m, access, c.vmAddr, hi, [c] + cs)
  {
    var longer := [c] + cs;
    assert forall i :: 0 < i < |longer| ==> longer[i] == cs[i - 1];
  }

  lemma {:induction false} TilesMakeATiling(m: seq<Region>, size: nat, access: AccessType, lo: u64, hi: u64)
    requires WellFormed(m, size) && lo <= hi && AllAccessible(m, access, lo, hi)
    ensures Tiling(m, access, lo, hi, Tiles(m, access, lo, hi))
    decreases hi - lo
  {
    hide Tiling;
    if lo < hi {
      assert Accessible(m, access, lo);
      var c := FrontPiece(m, lo, hi);
      TilesMakeATiling(m, size, access, c.End(), hi);
      TilingCons(m, access, c, hi, Tiles(m, access, c.End(), hi));
    } else {
      TilingNothing(m, access, lo);
    }
  }

  lemma {:induction false} TilingBounds(m: seq<Region>, access: AccessType, lo: int, hi: int, cs: seq<Chunk>)
    requires Tiling(m, access, lo, hi, cs) && cs != []
    ensures lo < cs[0].End() <= hi
    ensures Tiling(m, access, cs[0].End(), hi, cs[1..])
    ensures |cs| > 1 ==> cs[0].End() < hi
    decreases |cs|
  {
    if |cs| > 1 {
      assert cs[0].End() == cs[1].vmAddr;
      var rest := cs[1..];
      assert forall i :: 0 <= i < |rest| ==> rest[i] == cs[i + 1];
      TilingBounds(m, access, cs[0].End(), hi, cs[1..]);
    }
  }

  /** There is only one way to cut a range into unextendable pieces. */
  lemma {:induction false} TilingUnique(m: seq<Region>, size: nat, access: AccessType, lo: u64, hi: u64, cs: seq<Chunk>)
    requires WellFormed(m, size) && lo <= hi && Tiling(m, access, lo, hi, cs)
    ensures cs == Tiles(m, access, lo, hi)
    decreases |cs|
  {
    if cs != [] {
      var c := cs[0];
      RegionUnique(m, size, lo, c.region);
      TilingBounds(m, access, lo, hi, cs);
      if |cs| > 1 {
        assert cs[0].End() == cs[1].vmAddr;
        if c.End() < c.region.vmEnd {
          // the second piece would still lie in the first one's region
          RegionUnique(m, size, c.End(), c.region);
          RegionUnique(m, size, c.End(), cs[1].region);
        }
        assert c == FrontPiece(m, lo, hi);
      }
      TilingUnique(m, size, access, c.End(), hi, cs[1..]);
    }
  }

  /** Either one piece is the whole range, or cutting off the first piece leaves the last piece
      as it was, and cutting off the last piece leaves the first as it was. */
  lemma EndPieces(m: seq<Region>, size: nat, access: AccessType, lo: u64, hi: u64)
    requires WellFormed(m, size) && lo < hi
    requires Accessible(m, access, lo) && Accessible(m, access, hi - 1)
    ensures var first, last := FrontPiece(m, lo, hi), BackPiece(m, lo, hi);
            if first.End() == hi then last == first
            else
              && lo < first.End() <= last.vmAddr < hi
              && last == BackPiece(m, first.End(), hi)
              && first == FrontPiece(m, lo, last.vmAddr)
  {
    var first, last := FrontPiece(m, lo, hi), BackPiece(m, lo, hi);
    if first.region.Covers(hi - 1) {
      RegionUnique(m, size, hi - 1, first.region);
    } else if last.region.Covers(first.End() - 1) {
      RegionUnique(m, size, first.End() - 1, first.region);
      RegionUnique(m, size, first.End() - 1, last.region);
      assert false;
    }
  }

  /** The same pieces arise when the range is cut from its end. */
  lemma {:induction false} TilesFromTheBack(m: seq<Region>, size: nat, access: AccessType, lo: u64, hi: u64)
    requires WellFormed(m, size) && lo < hi && AllAccessible(m, access, lo, hi)
    ensures Accessible(m, access, hi - 1)
    ensures var c := BackPiece(m, lo, hi);
            Tiles(m, access, lo, hi) == Tiles(m, access, lo, c.vmAddr) + [c]
    decreases hi - lo
  {
    assert Accessible(m, access, lo) && Accessible(m, access, hi - 1);
    EndPieces(m, size, access, lo, hi);
    var first, last := FrontPiece(m, lo, hi), BackPiece(m, lo, hi);
    if first.End() < hi {
      TilesFromTheBack(m, size, access, first.End(), hi);
    }
  }

  // ----- Any interleaving of front and back pulls

  datatype Pull = PullFront | PullBack

  /** Pieces pulled from the front and from the back, each in the order pulled, and what is
      left of the range in between. */
  datatype Sweep = Sweep(front: seq<Chunk>, lo: u64, hi: u64, back: seq<Chunk>)

  /** What an iterator over [lo, hi) yields when it is pulled as `schedule` says. */
  function Drive(m: seq<Region>, access: AccessType, lo: u64, hi: u64, schedule: seq<Pull>): Sweep
    decreases |schedule|
  {
    if schedule == [] || hi <= lo then Sweep([], lo, hi, [])
    else match schedule[0]
      case PullFront =>
        if !Accessible(m, access, lo) then Sweep([], hi, hi, [])
        else
          var c := FrontPiece(m, lo, hi);
          var rest := Drive(m, access, c.End(), hi, schedule[1..]);
          rest.(front := [c] + rest.front)
      case PullBack =>
        if !Accessible(m, access, hi - 1) then Sweep([], hi, hi, [])
        else
          var c := BackPiece(m, lo, hi);
          var rest := Drive(m, access, lo, c.vmAddr, schedule[1..]);
          rest.(back := [c] + rest.back)
  }

  /** Pulls an iterator as a schedule says: it yields what `Drive` lists and is left where `Drive`
      stops, over a whole schedule. */
  method PullAll(it: MemoryChunkIterator, schedule: seq<Pull>) returns (front: seq<Chunk>, back: seq<Chunk>)
    requires it.vmAddrStart <= it.vmAddrEnd
    modifies it
    ensures Sweep(front, it.vmAddrStart, it.vmAddrEnd, back)
         == Drive(it.mapping, it.accessType, old(it.vmAddrStart), old(it.vmAddrEnd), schedule)
    decreases |schedule|
  {
    front, back := [], [];
    if schedule == [] {
      return;
    }
    var item;
    if schedule[0] == PullFront {
      item := it.Next();
    } else {
      item := it.NextBack();
    }
    if item.None? || item.value.Err? {
      return;
    }
    front, back := PullAll(it, schedule[1..]);
    if schedule[0] == PullFront {
      front := [item.value.value] + front;
    } else {
      back := [item.value.value] + back;
    }
  }

  /** The front pieces, the pieces of the unvisited interval and the reversed back pieces are
      together the tiles of the range. */
  ghost predicate Tiled(m: seq<Region>, access: AccessType, tiles: seq<Chunk>, s: Sweep) {
    s.front + Tiles(m, access, s.lo, s.hi) + Reversed(s.back) == tiles
  }

  lemma TiledFront(m: seq<Region>, access: AccessType, c: Chunk, tiles: seq<Chunk>, s: Sweep)
    requires Tiled(m, access, tiles, s)
    ensures Tiled(m, access, [c] + tiles, s.(front := [c] + s.front))
  {
    var middle := Tiles(m, access, s.lo, s.hi);
    assert ([c] + s.front) + middle + Reversed(s.back) == [c] + (s.front + middle + Reversed(s.back));
  }

  lemma TiledBack(m: seq<Region>, access: AccessType, c: Chunk, tiles: seq<Chunk>, s: Sweep)
    requires Tiled(m, access, tiles, s)
    ensures Tiled(m, access, tiles + [c], s.(back := [c] + s.back))
  {
    var middle := Tiles(m, access, s.lo, s.hi);
    ReversedCons(c, s.back);
    assert s.front + middle + (Reversed(s.back) + [c]) == (s.front + middle + Reversed(s.back)) + [c];
  }

  /** However the pulls are interleaved, the pieces seen and those still to come are the tiles of
      the range; and enough pulls visit all of it. */
  lemma {:induction false} SweepTiles(m: seq<Region>, size: nat, access: AccessType, lo: u64, hi: u64,
                                       schedule: seq<Pull>)
    requires WellFormed(m, size) && lo <= hi && AllAccessible(m, access, lo, hi)
    ensures var s := Drive(m, access, lo, hi, schedule);
            && lo <= s.lo <= s.hi <= hi
            && Tiled(m, access, Tiles(m, access, lo, hi), s)
            && |s.front| + |s.back| == Min(|schedule|, |Tiles(m, access, lo, hi)|)
            && (|Tiles(m, access, lo, hi)| <= |schedule| ==> s.lo == s.hi)
    decreases |schedule|
  {
    if schedule == [] || lo == hi {
    } else if schedule[0] == PullFront {
      assert Accessible(m, access, lo);
      var c := FrontPiece(m, lo, hi);
      SweepTiles(m, size, access, c.End(), hi, schedule[1..]);
      TiledFront(m, access, c, Tiles(m, access, c.End(), hi), Drive(m, access, c.End(), hi, schedule[1..]));
    } else {
      TilesFromTheBack(m, size, access, lo, hi);
      var c := BackPiece(m, lo, hi);
      SweepTiles(m, size, access, lo, c.vmAddr, schedule[1..]);
      TiledBack(m, access, c, Tiles(m, access, lo, c.vmAddr), Drive(m, access, lo, c.vmAddr, schedule[1..]));
    }
  }

  lemma {:induction false} OneSidedSweeps(m: seq<Region>, access: AccessType, lo: u64, hi: u64, schedule: seq<Pull>)
    ensures PullBack !in schedule ==> Drive(m, access, lo, hi, schedule).back == []
    ensures PullFront !in schedule ==> Drive(m, access, lo, hi, schedule).front == []
    decreases |schedule|
  {
    if schedule == [] || hi <= lo {
    } else if schedule[0] == PullFront {
      if Accessible(m, access, lo) {
        OneSidedSweeps(m, access, FrontPiece(m, lo, hi).End(), hi, schedule[1..]);
      }
    } else if Accessible(m, access, hi - 1) {
      OneSidedSweeps(m, access, lo, BackPiece(m, lo, hi).vmAddr, schedule[1..]);
    }
  }

  /** Pulling only from the front lists the tiles; pulling only from the back lists exactly
      the same tiles in reverse. */
  lemma ForwardAndBackwardAgree(m: seq<Region>, size: nat, access: AccessType, lo: u64, hi: u64, k: nat)
    requires WellFormed(m, size) && lo <= hi && AllAccessible(m, access, lo, hi)
    requires |Tiles(m, access, lo, hi)| <= k
    ensures Drive(m, access, lo, hi, seq(k, _ => PullFront)).front == Tiles(m, access, lo, hi)
    ensures Reversed(Drive(m, access, lo, hi, seq(k, _ => PullBack)).back) == Tiles(m, access, lo, hi)
  {
    var fronts, backs := seq(k, _ => PullFront), seq(k, _ => PullBack);
    SweepTiles(m, size, access, lo, hi, fronts);
    OneSidedSweeps(m, access, lo, hi, fronts);
    SweepTiles(m, size, access, lo, hi, backs);
    OneSidedSweeps(m, access, lo, hi, backs);
    var s := Drive(m, access, lo, hi, backs);
    assert Tiles(m, access, s.lo, s.hi) == [];
  }
}
