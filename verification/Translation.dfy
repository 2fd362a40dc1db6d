/** The pure helpers that the system calls share: the overlap test and slice translation. */
module Translation {
  import opened Words
  import opened MemoryMap

  datatype Error =
    | Ebpf(error: EbpfError)
    | CopyOverlapping
    | BadSeeds
    | ReturnDataTooLarge(len: u64, max: u64)

  // ----- The overlap test

  /** Two ranges are accepted when their distance is at least the length of the lower one. */
  predicate IsNonoverlapping(src: u64, srcLen: u64, dst: u64, dstLen: u64) {
    if src > dst then SaturatingSub(src, dst) >= dstLen else SaturatingSub(dst, src) >= srcLen
  }

  predicate Within(a: int, start: int, len: int) {
    start <= a < start + len
  }

  ghost predicate Disjoint(src: u64, srcLen: u64, dst: u64, dstLen: u64) {
    forall a :: !(Within(a, src, srcLen) && Within(a, dst, dstLen))
  }

  /** The test decides disjointness for all ranges but one kind: an empty range that lies within
      the other one is disjoint from it and rejected all the same. */
  lemma OverlapTestMeaning(src: u64, srcLen: u64, dst: u64, dstLen: u64)
    ensures IsNonoverlapping(src, srcLen, dst, dstLen) ==> Disjoint(src, srcLen, dst, dstLen)
    ensures (IsNonoverlapping(src, srcLen, dst, dstLen) <==> Disjoint(src, srcLen, dst, dstLen)) <==>
            && !(srcLen == 0 && Within(src, dst + 1, dstLen - 1))
            && !(dstLen == 0 && Within(dst, src, srcLen))
  {
    if 0 < srcLen && 0 < dstLen && !IsNonoverlapping(src, srcLen, dst, dstLen) {
      var a := Max(src, dst);
      assert Within(a, src, srcLen) && Within(a, dst, dstLen);
    }
  }

  // ----- Slices

  /** A host slice of `count` elements. The empty slice points nowhere in particular. */
  datatype Slice = Slice(host: nat, count: u64)

  function TranslateSlice(m: seq<Region>, access: AccessType, vmAddr: u64, len: u64, elementSize: u64)
    : Result<Slice, Error>
  {
    if len == 0 then Ok(Slice(0, 0))
    else
      match Translate(m, access, vmAddr, SaturatingMul(len, elementSize))
      case Ok(host) => Ok(Slice(host, len))
      case Err(e) => Err(Ebpf(e))
  }

  /** The whole range lies in one region that allows the access. */
  ghost predicate InOneRegion(m: seq<Region>, access: AccessType, a: u64, len: u64) {
    || len == 0
    || exists r :: r in m && (access == Store ==> r.writable) && r.vmStart <= a && a + len <= r.vmEnd
  }

  /** Byte slices: translation succeeds exactly on ranges within one region, and yields the host
      bytes behind the range. */
  lemma ByteSliceMeaning(m: seq<Region>, size: nat, access: AccessType, a: u64, len: u64)
    requires WellFormed(m, size)
    ensures TranslateSlice(m, access, a, len, 1).Ok? <==> InOneRegion(m, access, a, len)
    ensures TranslateSlice(m, access, a, len, 1).Ok? ==>
              var slice := TranslateSlice(m, access, a, len, 1).value;
              && slice.count == len && slice.host + len <= size
              && forall x :: a <= x < a + len ==>
                   Accessible(m, access, x) && HostOf(m, x) == slice.host + (x - a)
    ensures TranslateSlice(m, access, a, len, 1).Err? ==>
              TranslateSlice(m, access, a, len, 1) == Err(Ebpf(AccessViolation(access, a, len)))
  {
    if len > 0 {
      TranslateMeaning(m, size, access, a, len);
    }
  }

  /** The saturating product never lets a slice through that is longer than its region: the host
      bytes of all `len` elements are in memory, for every element size. */
  lemma SliceCoversItsElements(m: seq<Region>, size: nat, access: AccessType, a: u64, len: u64, elementSize: u64)
    requires WellFormed(m, size) && size < TWO_TO_THE_64 - 1 && 0 < elementSize
    requires TranslateSlice(m, access, a, len, elementSize).Ok?
    ensures TranslateSlice(m, access, a, len, elementSize).value.host + len * elementSize <= size
  {
    if len > 0 {
      assert len * elementSize > 0;
      TranslateMeaning(m, size, access, a, SaturatingMul(len, elementSize));
    }
  }
}
