/** The address space a program sees: a list of regions, each backed by a run of host bytes.
    This is the library contract that the memory syscalls rely on. */
module MemoryMap {
  import opened Words

  datatype AccessType = Load | Store

  datatype EbpfError =
    | AccessViolation(accessType: AccessType, vmAddr: u64, len: u64)
    | InvalidVirtualAddress(addr: u64)

  /** Virtual bytes [vmStart, vmEnd) live at host bytes [host, host + vmEnd - vmStart). */
  datatype Region = Region(vmStart: u64, vmEnd: u64, host: nat, writable: bool) {

    predicate Covers(a: int) {
      vmStart <= a < vmEnd
    }

    predicate Allows(access: AccessType) {
      access == Load || writable
    }

    /** Host address of [vmAddr, vmAddr + len), if the whole range lies in this region. */
    function VmToHost(vmAddr: u64, len: u64): Result<nat, EbpfError> {
      if vmAddr < vmStart then Err(InvalidVirtualAddress(vmAddr))
      else
        var beginOffset := vmAddr - vmStart;
        match CheckedAdd(beginOffset, len)
        case Some(endOffset) =>
          if endOffset <= SaturatingSub(vmEnd, vmStart) then Ok(host + beginOffset)
          else Err(InvalidVirtualAddress(vmAddr))
        case None => Err(InvalidVirtualAddress(vmAddr))
    }
  }

  predicate Apart(lo1: int, hi1: int, lo2: int, hi2: int) {
    hi1 <= lo2 || hi2 <= lo1
  }

  /** Region `i` of the map lies within the host memory of `size` bytes. */
  ghost predicate Backed(m: seq<Region>, size: nat, i: nat)
    requires i < |m|
  {
    m[i].vmStart <= m[i].vmEnd && m[i].host + (m[i].vmEnd - m[i].vmStart) <= size
  }

  /** Regions `i` and `j` share no virtual address and no host byte. */
  ghost predicate Separate(m: seq<Region>, i: nat, j: nat)
    requires i < |m| && j < |m|
  {
    && Apart(m[i].vmStart, m[i].vmEnd, m[j].vmStart, m[j].vmEnd)
    && Apart(m[i].host, m[i].host + (m[i].vmEnd - m[i].vmStart),
             m[j].host, m[j].host + (m[j].vmEnd - m[j].vmStart))
  }

  ghost predicate WellFormed(m: seq<Region>, size: nat) {
    && (forall i :: 0 <= i < |m| ==> Backed(m, size, i))
    && (forall i, j :: 0 <= i < |m| && 0 <= j < |m| && i != j ==> Separate(m, i, j))
  }

  /** Regions that follow one another in virtual and in host memory, without overlap. */
  lemma AscendingIsWellFormed(m: seq<Region>, size: nat)
    requires forall r :: r in m ==> r.vmStart <= r.vmEnd && r.host + (r.vmEnd - r.vmStart) <= size
    requires forall i, j :: 0 <= i < j < |m| ==>
               m[i].vmEnd <= m[j].vmStart && m[i].host + (m[i].vmEnd - m[i].vmStart) <= m[j].host
    ensures WellFormed(m, size)
  {
  }

  /** The region holding address `a`. */
  function Find(m: seq<Region>, a: int): (r: Option<Region>)
    ensures r.Some? ==> r.value in m && r.value.Covers(a)
    ensures r.None? ==> forall q :: q in m ==> !q.Covers(a)
  {
    if m == [] then None
    else if m[0].Covers(a) then Some(m[0])
    else Find(m[1..], a)
  }

  predicate Accessible(m: seq<Region>, access: AccessType, a: int) {
    var r := Find(m, a);
    r.Some? && r.value.Allows(access)
  }

  /** The library's region lookup: the region of `a`, provided the access is allowed. */
  function Lookup(m: seq<Region>, access: AccessType, a: u64): Result<Region, EbpfError> {
    if Accessible(m, access, a) then Ok(Find(m, a).value) else Err(AccessViolation(access, a, 0))
  }

  /** The library's translation of a whole range, which must lie in one region. */
  function Translate(m: seq<Region>, access: AccessType, a: u64, len: u64): Result<nat, EbpfError> {
    var region := Lookup(m, access, a);
    if region.Ok? && region.value.VmToHost(a, len).Ok? then region.value.VmToHost(a, len)
    else Err(AccessViolation(access, a, len))
  }

  /** The host byte behind address `a`, or -1 when nothing is mapped there. */
  function HostOf(m: seq<Region>, a: int): int {
    var r := Find(m, a);
    if r.Some? then r.value.host + (a - r.value.vmStart) else -1
  }

  lemma RegionUnique(m: seq<Region>, size: nat, a: int, r: Region)
    requires WellFormed(m, size) && r in m && r.Covers(a)
    ensures Find(m, a) == Some(r)
  {
    var q := Find(m, a).value;
    var i :| 0 <= i < |m| && m[i] == q;
    var j :| 0 <= j < |m| && m[j] == r;
    assert i != j ==> Separate(m, i, j);
  }

  /** An address can be accessed exactly when some region holds it, a writable one for a store. */
  lemma AccessibleMeaning(m: seq<Region>, size: nat, access: AccessType, a: int)
    requires WellFormed(m, size)
    ensures Accessible(m, access, a) <==>
            exists r :: r in m && (access == Store ==> r.writable) && r.vmStart <= a < r.vmEnd
  {
    if r :| r in m && (access == Store ==> r.writable) && r.vmStart <= a < r.vmEnd {
      RegionUnique(m, size, a, r);
    }
  }

  /** The host byte behind an address is as far into the host bytes of its region as the address is
      into the region. */
  lemma HostOfMeaning(m: seq<Region>, size: nat, a: int, h: nat)
    requires WellFormed(m, size)
    ensures HostOf(m, a) == h <==>
            exists r :: r in m && r.vmStart <= a < r.vmEnd && h == r.host + (a - r.vmStart)
  {
    if r :| r in m && r.vmStart <= a < r.vmEnd && h == r.host + (a - r.vmStart) {
      RegionUnique(m, size, a, r);
    }
    if HostOf(m, a) == h {
      assert Find(m, a).value in m;
    }
  }

  /** Different virtual addresses never share a host byte, and every host byte is in memory. */
  lemma HostInjective(m: seq<Region>, size: nat, a: int, b: int)
    requires WellFormed(m, size) && Find(m, a).Some?
    ensures 0 <= HostOf(m, a) < size
    ensures a != b ==> HostOf(m, a) != HostOf(m, b)
  {
    var q := Find(m, a).value;
    var i :| 0 <= i < |m| && m[i] == q;
    assert Backed(m, size, i);
    if Find(m, b).Some? {
      var r := Find(m, b).value;
      var j :| 0 <= j < |m| && m[j] == r;
      assert i != j ==> Separate(m, i, j);
    }
  }

  /** Translating a non-empty range succeeds exactly when one region holds all of it and allows
      the access; the bytes of the range are then consecutive host bytes from the result on. */
  lemma TranslateMeaning(m: seq<Region>, size: nat, access: AccessType, a: u64, len: u64)
    requires WellFormed(m, size) && len > 0
    ensures Translate(m, access, a, len).Ok? <==>
            exists r :: r in m && (access == Store ==> r.writable) && r.vmStart <= a && a + len <= r.vmEnd
    ensures Translate(m, access, a, len).Ok? ==>
              forall x :: a <= x < a + len ==>
                Accessible(m, access, x) && HostOf(m, x) == Translate(m, access, a, len).value + (x - a)
    ensures Translate(m, access, a, len).Ok? ==> Translate(m, access, a, len).value + len <= size
    ensures Translate(m, access, a, len).Err? ==>
              Translate(m, access, a, len).error == AccessViolation(access, a, len)
  {
    if r :| r in m && (access == Store ==> r.writable) && r.vmStart <= a && a + len <= r.vmEnd {
      RegionUnique(m, size, a, r);
    }
    if Translate(m, access, a, len).Ok? {
      var r := Find(m, a).value;
      var i :| 0 <= i < |m| && m[i] == r;
      assert Backed(m, size, i);
      forall x | a <= x < a + len
        ensures Find(m, x) == Some(r)
      {
        RegionUnique(m, size, x, r);
      }
    }
  }
}
