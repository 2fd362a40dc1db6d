/** The byte layout of a program's input: how accounts, instruction data and the program id are
    laid out, and how updates and reads act on the bytes. */
module AccountLayout {
  import opened Words
  import opened Accounts
  import opened Bytes

  const NON_DUP_MARKER: byte := 255
  const MAX_PERMITTED_DATA_INCREASE: nat := 10240
  const BPF_ALIGN_OF_U128: nat := 8

  // ----- Images

  /** What one slot of the buffer holds. `data` fills the slot. */
  datatype Entry = Entry(key: Pubkey, owner: Pubkey, lamports: u64, data: seq<byte>,
                         signer: bool, writable: bool, executable: bool, rentEpoch: u64)

  datatype State = State(entries: seq<Entry>, instruction: seq<byte>, programId: Pubkey)

  function Repeated(n: nat, value: byte): (s: seq<byte>)
    ensures |s| == n && forall k :: 0 <= k < n ==> s[k] == value
  {
    seq(n, _ => value)
  }

  function Zeros(n: nat): (s: seq<byte>)
    ensures |s| == n
  {
    Repeated(n, 0)
  }

  function BoolByte(b: bool): byte {
    if b then 1 else 0
  }

  /** Distance from `n` to the next multiple of eight. */
  function AlignOffset(n: nat): (a: nat)
    ensures a < BPF_ALIGN_OF_U128
  {
    (BPF_ALIGN_OF_U128 - n % BPF_ALIGN_OF_U128) % BPF_ALIGN_OF_U128
  }

  function RoundUp(n: nat): nat {
    n + AlignOffset(n)
  }

  function Flags(signer: bool, writable: bool, executable: bool): (s: seq<byte>)
    ensures |s| == 8
  {
    [NON_DUP_MARKER, BoolByte(signer), BoolByte(writable), BoolByte(executable)] + Zeros(4)
  }

  function Header(e: Entry): (s: seq<byte>)
    ensures |s| == 88
  {
    Flags(e.signer, e.writable, e.executable) + e.key + e.owner + Le64(e.lamports) + Le64(|e.data|)
  }

  function SlotSize(dataSize: nat): nat {
    88 + dataSize + AlignOffset(dataSize) + MAX_PERMITTED_DATA_INCREASE + 8
  }

  function Image(e: Entry): (s: seq<byte>)
    ensures |s| == SlotSize(|e.data|)
  {
    Header(e) + e.data + Zeros(MAX_PERMITTED_DATA_INCREASE + AlignOffset(|e.data|)) + Le64(e.rentEpoch)
  }

  function Images(entries: seq<Entry>): seq<byte> {
    if entries == [] then []
    else Images(entries[..|entries| - 1]) + Image(entries[|entries| - 1])
  }

  function Serialize(s: State): seq<byte> {
    Le64(|s.entries|) + Images(s.entries) + Le64(|s.instruction|) + s.instruction + s.programId
  }

  // ----- Offsets

  function SlotsSize(sizes: seq<u64>): nat {
    if sizes == [] then 0 else SlotsSize(sizes[..|sizes| - 1]) + SlotSize(sizes[|sizes| - 1])
  }

  /** Where slot `i` starts; for `i == |sizes|`, where the instruction starts. */
  function Offset(sizes: seq<u64>, i: nat): nat
    requires i <= |sizes|
  {
    8 + SlotsSize(sizes[..i])
  }

  function BufferSize(sizes: seq<u64>, instructionSize: nat): nat {
    Offset(sizes, |sizes|) + 8 + instructionSize + 32
  }

  /** The state has one entry per size, each filling its slot, and a full-size instruction. */
  ghost predicate Fits(sizes: seq<u64>, instructionSize: nat, s: State) {
    && |s.entries| == |sizes| && |s.instruction| == instructionSize
    && forall i :: 0 <= i < |sizes| ==> |s.entries[i].data| == sizes[i]
  }

  lemma {:induction false} ImagesLength(sizes: seq<u64>, entries: seq<Entry>)
    requires |entries| == |sizes| && forall i :: 0 <= i < |sizes| ==> |entries[i].data| == sizes[i]
    ensures |Images(entries)| == SlotsSize(sizes)
    decreases |sizes|
  {
    if sizes != [] {
      ImagesLength(sizes[..|sizes| - 1], entries[..|sizes| - 1]);
    }
  }

  /** The size that is computed up front is the length of the serialized state. */
  lemma SerializedLength(sizes: seq<u64>, instructionSize: nat, s: State)
    requires Fits(sizes, instructionSize, s)
    ensures |Serialize(s)| == BufferSize(sizes, instructionSize)
  {
    ImagesLength(sizes, s.entries);
    assert sizes[..|sizes|] == sizes;
  }

  lemma NextOffset(sizes: seq<u64>, i: nat)
    requires i < |sizes|
    ensures Offset(sizes, i + 1) == Offset(sizes, i) + SlotSize(sizes[i])
  {
    assert sizes[..i + 1][..i] == sizes[..i];
  }

  /** Slots follow one another without overlap. */
  lemma {:induction false} SlotsDisjoint(sizes: seq<u64>, i: nat, j: nat)
    requires i < j <= |sizes|
    ensures Offset(sizes, i) + SlotSize(sizes[i]) <= Offset(sizes, j)
    decreases j
  {
    NextOffset(sizes, j - 1);
    if i < j - 1 {
      SlotsDisjoint(sizes, i, j - 1);
    }
  }

  lemma AddAligned(a: nat, b: nat)
    requires a % 8 == 0 && b % 8 == 0
    ensures (a + b) % 8 == 0
  {
    assert a + b == 8 * (a / 8 + b / 8);
  }

  lemma SlotSizeAligned(n: nat)
    ensures SlotSize(n) % 8 == 0 && RoundUp(n) % 8 == 0
  {
    var q, r := n / 8, n % 8;
    assert n == 8 * q + r;
    assert RoundUp(n) == if r == 0 then 8 * q else 8 * (q + 1);
    AddAligned(RoundUp(n), 88 + MAX_PERMITTED_DATA_INCREASE + 8);
  }

  /** Account offsets, data starts and the instruction's offset are multiples of eight. */
  lemma {:induction false} OffsetsAligned(sizes: seq<u64>, i: nat)
    requires i <= |sizes|
    ensures Offset(sizes, i) % 8 == 0 && (Offset(sizes, i) + 88) % 8 == 0
    decreases i
  {
    hide SlotSize;
    if i > 0 {
      OffsetsAligned(sizes, i - 1);
      NextOffset(sizes, i - 1);
      SlotSizeAligned(sizes[i - 1]);
      AddAligned(Offset(sizes, i - 1), SlotSize(sizes[i - 1]));
    }
    AddAligned(Offset(sizes, i), 88);
  }

  // ----- Writing

  /** Writing at a position, or appending when there is none. */
  function Emit(s: seq<byte>, at: Option<nat>, bytes: seq<byte>): seq<byte>
    requires at.Some? ==> at.value + |bytes| <= |s|
  {
    match at
    case Some(a) => Put(s, a, bytes)
    case None => s + bytes
  }

  function Skip(at: Option<nat>, n: nat): Option<nat> {
    match at
    case Some(a) => Some(a + n)
    case None => None
  }

  /** Two writes one after the other are one write, in place and appending alike. */
  lemma EmitEmit(s: seq<byte>, at: Option<nat>, b1: seq<byte>, b2: seq<byte>)
    requires at.Some? ==> at.value + |b1| + |b2| <= |s|
    ensures Emit(Emit(s, at, b1), Skip(at, |b1|), b2) == Emit(s, at, b1 + b2)
  {
  }

  lemma EmitNothing(s: seq<byte>, at: Option<nat>)
    requires at.Some? ==> at.value <= |s|
    ensures Emit(s, at, []) == s
  {
  }

  lemma PutLeft(a: seq<byte>, b: seq<byte>, at: nat, bytes: seq<byte>)
    requires at + |bytes| <= |a|
    ensures Put(a + b, at, bytes) == Put(a, at, bytes) + b
  {
  }

  lemma PutRight(a: seq<byte>, b: seq<byte>, at: nat, bytes: seq<byte>)
    requires at + |bytes| <= |b|
    ensures Put(a + b, |a| + at, bytes) == a + Put(b, at, bytes)
  {
  }

  lemma PutInside(a: seq<byte>, b: seq<byte>, c: seq<byte>, at: nat, bytes: seq<byte>)
    requires at + |bytes| <= |b|
    ensures Put(a + b + c, |a| + at, bytes) == a + Put(b, at, bytes) + c
  {
    PutLeft(a + b, c, |a| + at, bytes);
    PutRight(a, b, at, bytes);
  }

  lemma PutAll(b: seq<byte>, bytes: seq<byte>)
    requires |b| == |bytes|
    ensures Put(b, 0, bytes) == bytes
  {
  }

  /** Replacing one image in the middle of the images is replacing one entry. */
  lemma {:induction false} PutImage(sizes: seq<u64>, entries: seq<Entry>, i: nat, e: Entry)
    requires |entries| == |sizes| && forall k :: 0 <= k < |sizes| ==> |entries[k].data| == sizes[k]
    requires i < |sizes| && |e.data| == sizes[i]
    ensures SlotsSize(sizes[..i]) + SlotSize(sizes[i]) <= |Images(entries)|
    ensures Put(Images(entries), SlotsSize(sizes[..i]), Image(e)) == Images(entries[i := e])
    decreases |sizes|
  {
    hide Image, Put, SlotSize;
    var n := |sizes| - 1;
    var sizes', entries' := sizes[..n], entries[..n];
    ImagesLength(sizes', entries');
    var front, last, image := Images(entries'), Image(entries[n]), Image(e);
    if i < n {
      PutImage(sizes', entries', i, e);
      assert sizes'[..i] == sizes[..i];
      assert entries[i := e][..n] == entries'[i := e];
      PutLeft(front, last, SlotsSize(sizes[..i]), image);
    } else {
      assert entries[i := e][..n] == entries';
      PutRight(front, last, 0, image);
      PutAll(last, image);
    }
  }
}
