/** What a program may do with its memory and what a copy of bytes is, stated on the fields of the
    regions alone. The statements here do not depend on how regions are looked up. */
module VmReference {
  import opened Words
  import opened MemoryMap
  import opened LayoutReference

  /** Byte `i` from `base` on lies in a region. */
  ghost predicate Readable(m: seq<Region>, base: int, i: int) {
    exists r :: r in m && r.vmStart <= base + i < r.vmEnd
  }

  /** Byte `i` from `base` on lies in a writable region. */
  ghost predicate Writable(m: seq<Region>, base: int, i: int) {
    exists r :: r in m && r.writable && r.vmStart <= base + i < r.vmEnd
  }

  /** Host byte `h` is byte `i` from `base` on. */
  ghost predicate ByteAt(m: seq<Region>, base: int, i: int, h: int) {
    exists r :: r in m && r.vmStart <= base + i < r.vmEnd && h == r.host + (base + i - r.vmStart)
  }

  /** Bytes from..to at `dst` now hold what those at `src` held, and no other host byte changed. */
  ghost predicate BytesCopied(m: seq<Region>, before: seq<byte>, after: seq<byte>, src: int, dst: int,
                              from: int, to: int)
  {
    && |after| == |before|
    && (forall i, s, d :: from <= i < to && ByteAt(m, src, i, s) && ByteAt(m, dst, i, d) ==>
          0 <= s < |before| && 0 <= d < |before| && after[d] == before[s])
    && (forall h :: 0 <= h < |before| && (forall i :: from <= i < to ==> !ByteAt(m, dst, i, h)) ==>
          after[h] == before[h])
  }

  /** Pair `k` of `n` is the first that cannot be copied, counting from the last one when `reverse`. */
  ghost predicate FirstBad(m: seq<Region>, src: int, dst: int, n: int, reverse: bool, k: int) {
    && 0 <= k < n && !(Readable(m, src, k) && Writable(m, dst, k))
    && if reverse then forall i :: k < i < n ==> Readable(m, src, i) && Writable(m, dst, i)
       else forall i :: 0 <= i < k ==> Readable(m, src, i) && Writable(m, dst, i)
  }

  /** No host byte behind a read-only region differs. */
  ghost predicate ReadOnlyKept(m: seq<Region>, before: seq<byte>, after: seq<byte>) {
    && |after| == |before|
    && forall r, h :: r in m && !r.writable && r.host <= h < r.host + (r.vmEnd - r.vmStart) && h < |before| ==>
         after[h] == before[h]
  }

  /** Byte `i` from `a` on is `v`. */
  ghost predicate HoldsByte(m: seq<Region>, memory: seq<byte>, a: int, i: int, v: byte) {
    exists h :: 0 <= h < |memory| && ByteAt(m, a, i, h) && memory[h] == v
  }

  /** The bytes from `a` on. */
  ghost predicate HoldsBytes(m: seq<Region>, memory: seq<byte>, a: int, bytes: seq<byte>) {
    forall k :: 0 <= k < |bytes| ==> HoldsByte(m, memory, a, k, bytes[k])
  }

  /** The little-endian word at `a`. */
  ghost predicate HoldsWord(m: seq<Region>, memory: seq<byte>, a: int, v: nat) {
    exists bytes: seq<byte> :: |bytes| == 8 && HoldsBytes(m, memory, a, bytes) && Word(bytes, 0) == v
  }

  /** Entry `k` of the list of slices at `a` has the address `addr` and the length `len`. */
  ghost predicate SliceAt(m: seq<Region>, memory: seq<byte>, a: int, k: int, addr: nat, len: nat) {
    HoldsWord(m, memory, a + 16 * k, addr) && HoldsWord(m, memory, a + 16 * k + 8, len)
  }
}
