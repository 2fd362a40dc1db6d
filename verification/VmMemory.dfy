/** What a program's memory holds, seen through its regions. */
module VmMemory {
  import opened Words
  import opened Bytes
  import opened MemoryMap
  import opened Translation
  import opened ChunkedMove
  import opened LayoutReference
  import opened VmReference

  /** The bytes at virtual addresses a..a+n. */
  ghost predicate Holds(m: seq<Region>, memory: seq<byte>, a: u64, bytes: seq<byte>) {
    forall k :: 0 <= k < |bytes| ==> 0 <= HostAt(m, a, k) < |memory| && memory[HostAt(m, a, k)] == bytes[k]
  }

  /** Host bytes `host` on, behind which all of the bytes from `a` on are. */
  lemma HoldsHost(m: seq<Region>, memory: seq<byte>, a: int, host: nat, bytes: seq<byte>)
    requires WellFormed(m, |memory|) && host + |bytes| <= |memory| && memory[host..host + |bytes|] == bytes
    requires forall k :: 0 <= k < |bytes| ==> HostAt(m, a, k) == host + k
    ensures HoldsBytes(m, memory, a, bytes)
  {
    forall k | 0 <= k < |bytes|
      ensures HoldsByte(m, memory, a, k, bytes[k])
    {
      ByteAtMeaning(m, |memory|, a, k, host + k);
      assert memory[host..host + |bytes|][k] == memory[host + k];
    }
  }

  /** Memory holds only one string of a given length at an address. */
  lemma HoldsUnique(m: seq<Region>, memory: seq<byte>, a: int, bytes1: seq<byte>, bytes2: seq<byte>)
    requires WellFormed(m, |memory|) && |bytes1| == |bytes2|
    requires HoldsBytes(m, memory, a, bytes1) && HoldsBytes(m, memory, a, bytes2)
    ensures bytes1 == bytes2
  {
    forall k | 0 <= k < |bytes1|
      ensures bytes1[k] == bytes2[k]
    {
      assert HoldsByte(m, memory, a, k, bytes1[k]) && HoldsByte(m, memory, a, k, bytes2[k]);
      var h1 :| 0 <= h1 < |memory| && ByteAt(m, a, k, h1) && memory[h1] == bytes1[k];
      var h2 :| 0 <= h2 < |memory| && ByteAt(m, a, k, h2) && memory[h2] == bytes2[k];
      ByteAtMeaning(m, |memory|, a, k, h1);
      ByteAtMeaning(m, |memory|, a, k, h2);
    }
  }

  lemma HoldsWordUnique(m: seq<Region>, memory: seq<byte>, a: int, v1: nat, v2: nat)
    requires WellFormed(m, |memory|) && HoldsWord(m, memory, a, v1) && HoldsWord(m, memory, a, v2)
    ensures v1 == v2
  {
    var bytes1: seq<byte> :| |bytes1| == 8 && HoldsBytes(m, memory, a, bytes1) && Word(bytes1, 0) == v1;
    var bytes2: seq<byte> :| |bytes2| == 8 && HoldsBytes(m, memory, a, bytes2) && Word(bytes2, 0) == v2;
    HoldsUnique(m, memory, a, bytes1, bytes2);
  }

  lemma HoldsMeaning(m: seq<Region>, memory: seq<byte>, a: u64, bytes: seq<byte>)
    requires WellFormed(m, |memory|)
    ensures Holds(m, memory, a, bytes) <==> HoldsBytes(m, memory, a, bytes)
  {
    forall k | 0 <= k < |bytes|
      ensures 0 <= HostAt(m, a, k) < |memory| && memory[HostAt(m, a, k)] == bytes[k] <==>
              HoldsByte(m, memory, a, k, bytes[k])
    {
      if 0 <= HostAt(m, a, k) {
        ByteAtMeaning(m, |memory|, a, k, HostAt(m, a, k));
      }
      if HoldsByte(m, memory, a, k, bytes[k]) {
        var h :| 0 <= h < |memory| && ByteAt(m, a, k, h) && memory[h] == bytes[k];
        ByteAtMeaning(m, |memory|, a, k, h);
      }
    }
  }

  ghost predicate Behind(m: seq<Region>, a: int, len: int, h: int) {
    exists k :: 0 <= k < len && HostAt(m, a, k) == h
  }

  lemma BehindMeaning(m: seq<Region>, size: nat, a: int, len: int, h: nat)
    requires WellFormed(m, size)
    ensures Behind(m, a, len, h) <==> exists k :: 0 <= k < len && ByteAt(m, a, k, h)
  {
    forall k
      ensures HostAt(m, a, k) == h <==> ByteAt(m, a, k, h)
    {
      ByteAtMeaning(m, size, a, k, h);
    }
  }

  /** A host byte behind a read-only region is not behind a range that can be written. */
  lemma NotBehindWritable(m: seq<Region>, size: nat, a: u64, len: u64, q: Region, h: int)
    requires WellFormed(m, size) && InOneRegion(m, Store, a, len)
    requires q in m && !q.writable && q.host <= h < q.host + (q.vmEnd - q.vmStart)
    ensures !Behind(m, a, len, h)
  {
    var x := q.vmStart + (h - q.host);
    RegionUnique(m, size, x, q);
    if Behind(m, a, len, h) {
      var k :| 0 <= k < len && HostAt(m, a, k) == h;
      var r :| r in m && r.writable && r.vmStart <= a && a + len <= r.vmEnd;
      RegionUnique(m, size, a + k, r);
      HostInjective(m, size, x, a + k);
    }
  }

  /** Storing to ranges that can be written changes no byte behind a read-only region. */
  lemma StoredKeepsReadOnly(m: seq<Region>, before: seq<byte>, after: seq<byte>, a: u64, n: u64, b: u64, k: u64)
    requires WellFormed(m, |before|) && |after| == |before|
    requires InOneRegion(m, Store, a, n) && InOneRegion(m, Store, b, k)
    requires forall h :: 0 <= h < |before| && !Behind(m, a, n, h) && !Behind(m, b, k, h) ==> after[h] == before[h]
    ensures ReadOnlyKept(m, before, after)
  {
    hide Behind, InOneRegion;
    forall q, h | q in m && !q.writable && q.host <= h < q.host + (q.vmEnd - q.vmStart) && h < |before|
      ensures after[h] == before[h]
    {
      NotBehindWritable(m, |before|, a, n, q, h);
      NotBehindWritable(m, |before|, b, k, q, h);
    }
  }

  /** Virtual bytes a..a+|bytes| now hold `bytes`, and no other host byte changed. */
  ghost predicate Stored(m: seq<Region>, before: seq<byte>, after: seq<byte>, a: u64, bytes: seq<byte>) {
    && |after| == |before|
    && (forall k :: 0 <= k < |bytes| ==>
          0 <= HostAt(m, a, k) < |before| && after[HostAt(m, a, k)] == bytes[k])
    && (forall h :: 0 <= h < |before| && !Behind(m, a, |bytes|, h) ==> after[h] == before[h])
  }

  lemma StoredUnique(m: seq<Region>, before: seq<byte>, after1: seq<byte>, after2: seq<byte>, a: u64, bytes: seq<byte>)
    requires Stored(m, before, after1, a, bytes) && Stored(m, before, after2, a, bytes)
    ensures after1 == after2
  {
    forall h | 0 <= h < |before|
      ensures after1[h] == after2[h]
    {
      if Behind(m, a, |bytes|, h) {
        var k :| 0 <= k < |bytes| && HostAt(m, a, k) == h;
        assert after1[h] == bytes[k] && after2[h] == bytes[k];
      }
    }
  }

  lemma PatchStores(m: seq<Region>, before: seq<byte>, a: u64, bytes: seq<byte>, host: nat)
    requires WellFormed(m, |before|) && host + |bytes| <= |before|
    requires forall x :: a <= x < a + |bytes| ==> HostOf(m, x) == host + (x - a)
    ensures Stored(m, before, Put(before, host, bytes), a, bytes)
    ensures forall h :: Behind(m, a, |bytes|, h) <==> host <= h < host + |bytes|
  {
    forall h
      ensures Behind(m, a, |bytes|, h) <==> host <= h < host + |bytes|
    {
      if host <= h < host + |bytes| {
        assert HostAt(m, a, h - host) == h;
      }
    }
  }

  /** Two mapped ranges overlap in host memory exactly when they overlap as virtual ranges. */
  lemma RangesOverlap(m: seq<Region>, size: nat, a: u64, n: u64, b: u64, k: u64, aHost: nat, bHost: nat)
    requires WellFormed(m, size) && size < TWO_TO_THE_64 && 0 < n && 0 < k
    requires aHost + n <= size && bHost + k <= size
    requires forall x :: a <= x < a + n ==> Accessible(m, Store, x) && HostOf(m, x) == aHost + (x - a)
    requires forall x :: b <= x < b + k ==> Accessible(m, Store, x) && HostOf(m, x) == bHost + (x - b)
    ensures IsNonoverlapping(aHost, n, bHost, k) <==> Apart(a, a + n, b, b + k)
    ensures IsNonoverlapping(aHost, n, bHost, k) ==> Apart(aHost, aHost + n, bHost, bHost + k)
  {
    OverlapTestMeaning(aHost, n, bHost, k);
    if !IsNonoverlapping(aHost, n, bHost, k) {
      var h := Max(aHost, bHost);
      var x, y := a + (h - aHost), b + (h - bHost);
      assert HostOf(m, x) == h && HostOf(m, y) == h;
      HostInjective(m, size, x, y);
    }
    if !Apart(a, a + n, b, b + k) {
      var x := Max(a, b);
      assert Within(HostOf(m, x), aHost, n) && Within(HostOf(m, x), bHost, k);
    }
  }
}
