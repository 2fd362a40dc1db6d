/** The input format of a program, byte by byte, with every offset and constant written out. The
    statements here do not depend on how the buffer is written or read. */
module LayoutReference {
  import opened Words
  import opened Accounts

  /** Four bytes, the lowest first. */
  function Half(b: seq<byte>, at: nat): nat
    requires at + 4 <= |b|
  {
    b[at] + 0x100 * (b[at + 1] as nat) + 0x1_0000 * (b[at + 2] as nat) + 0x100_0000 * (b[at + 3] as nat)
  }

  /** The little-endian word at `at`. */
  function Word(b: seq<byte>, at: nat): nat
    requires at + 8 <= |b|
  {
    Half(b, at) + 0x1_0000_0000 * Half(b, at + 4)
  }

  ghost predicate ZeroBytes(b: seq<byte>, from: nat, to: nat) {
    to <= |b| && forall k :: from <= k < to ==> b[k] == 0
  }

  /** Bytes that fill `n` up to a multiple of eight. */
  function Padding(n: nat): nat {
    if n % 8 == 0 then 0 else 8 - n % 8
  }

  /** Bytes of a slot with room for `size` bytes of data. */
  function SlotLength(size: nat): nat {
    88 + size + Padding(size) + 10240 + 8
  }

  /** The slot at `o`, with room for `size` bytes, holds the account. */
  ghost predicate SlotHolds(b: seq<byte>, o: nat, size: nat, key: Pubkey, account: Account,
                            signer: bool, writable: bool, executable: bool)
  {
    var n, last := |account.data|, o + 88 + size + Padding(size) + 10240;
    && n <= size && last + 8 <= |b|
    && b[o] == 255
    && b[o + 1] == (if signer then 1 else 0)
    && b[o + 2] == (if writable then 1 else 0)
    && b[o + 3] == (if executable then 1 else 0)
    && ZeroBytes(b, o + 4, o + 8)
    && b[o + 8..o + 40] == key
    && b[o + 40..o + 72] == account.owner
    && Word(b, o + 72) == account.lamports
    && Word(b, o + 80) == size
    && b[o + 88..o + 88 + n] == account.data
    && ZeroBytes(b, o + 88 + n, last)
    && Word(b, last) == account.rentEpoch
  }

  /** The buffers differ in bytes from..to at most. */
  ghost predicate SameOutside(before: seq<byte>, after: seq<byte>, from: nat, to: nat) {
    |after| == |before| && forall k :: 0 <= k < |before| && !(from <= k < to) ==> after[k] == before[k]
  }

  /** The slots follow one another from byte 8 on, then come the instruction's length, its bytes and
      the program id. */
  ghost predicate Offsets(sizes: seq<u64>, instructionSize: nat, accountOffsets: seq<nat>, instructionOffset: nat,
                          programIdOffset: nat, length: nat)
  {
    && |accountOffsets| == |sizes|
    && (if sizes == [] then instructionOffset == 8
        else
          && accountOffsets[0] == 8
          && instructionOffset == accountOffsets[|sizes| - 1] + SlotLength(sizes[|sizes| - 1]))
    && (forall i, j :: 0 <= i && j == i + 1 && j < |sizes| ==>
          accountOffsets[j] == accountOffsets[i] + SlotLength(sizes[i]))
    && programIdOffset == instructionOffset + 8 + instructionSize
    && length == programIdOffset + 32
  }

  /** Bytes of all slots together. */
  function SlotsLength(sizes: seq<u64>): nat {
    if sizes == [] then 0 else SlotsLength(sizes[..|sizes| - 1]) + SlotLength(sizes[|sizes| - 1])
  }

  /** Zeros written for an empty slot: their number is computed in a word that wraps. */
  function FillCount(size: u64): nat {
    (size + Padding(size) + 10240) % 0x1_0000_0000_0000_0000
  }

  /** Bytes written for empty slots. */
  function WrittenLength(sizes: seq<u64>): nat {
    if sizes == [] then 0
    else WrittenLength(sizes[..|sizes| - 1]) + 88 + FillCount(sizes[|sizes| - 1]) + 8
  }

  /** A new input: the number of accounts, all-default accounts, a zero instruction and program id. */
  ghost predicate EmptyInput(b: seq<byte>, sizes: seq<u64>, instructionSize: nat, accountOffsets: seq<nat>,
                             instructionOffset: nat, programIdOffset: nat)
  {
    var none: Pubkey := seq(32, _ => 0);
    && Offsets(sizes, instructionSize, accountOffsets, instructionOffset, programIdOffset, |b|)
    && |b| == 8 + SlotsLength(sizes) + 8 + instructionSize + 32
    && Word(b, 0) == |sizes|
    && (forall i :: 0 <= i < |sizes| ==>
          SlotHolds(b, accountOffsets[i], sizes[i], none, Account(0, [], none, false, 0), false, false, false))
    && Word(b, instructionOffset) == instructionSize
    && ZeroBytes(b, instructionOffset + 8, |b|)
  }

  lemma DigitUnique(x: byte, y: byte, high: nat, high': nat)
    requires x + 0x100 * high == y + 0x100 * high'
    ensures x == y && high == high'
  {
  }

  lemma HalfUnique(b: seq<byte>, c: seq<byte>, at: nat)
    requires at + 4 <= |b| && at + 4 <= |c| && Half(b, at) == Half(c, at)
    ensures forall k :: at <= k < at + 4 ==> b[k] == c[k]
  {
    var b1, b2, b3: nat, c1, c2, c3: nat := b[at + 1], b[at + 2], b[at + 3], c[at + 1], c[at + 2], c[at + 3];
    DigitUnique(b[at], c[at], b1 + 0x100 * (b2 + 0x100 * b3), c1 + 0x100 * (c2 + 0x100 * c3));
    DigitUnique(b1, c1, b2 + 0x100 * b3, c2 + 0x100 * c3);
    DigitUnique(b2, c2, b3, c3);
  }

  lemma HalfBound(b: seq<byte>, at: nat)
    requires at + 4 <= |b|
    ensures Half(b, at) < 0x1_0000_0000
  {
  }

  /** A word determines its bytes. */
  lemma WordUnique(b: seq<byte>, c: seq<byte>, at: nat)
    requires at + 8 <= |b| && at + 8 <= |c| && Word(b, at) == Word(c, at)
    ensures forall k :: at <= k < at + 8 ==> b[k] == c[k]
  {
    hide Half;
    HalfBound(b, at);
    HalfBound(c, at);
    HalfUnique(b, c, at);
    HalfUnique(b, c, at + 4);
  }

  lemma SameBytes(b: seq<byte>, c: seq<byte>, at: nat, bytes: seq<byte>)
    requires at + |bytes| <= |b| && at + |bytes| <= |c|
    requires b[at..at + |bytes|] == bytes && c[at..at + |bytes|] == bytes
    ensures forall k :: at <= k < at + |bytes| ==> b[k] == c[k]
  {
    assert forall k :: at <= k < at + |bytes| ==> b[k] == bytes[k - at] && c[k] == bytes[k - at];
  }

  /** An update determines the buffer. */
  lemma SlotUnique(before: seq<byte>, b: seq<byte>, c: seq<byte>, o: nat, size: nat, key: Pubkey, account: Account,
                   signer: bool, writable: bool, executable: bool)
    requires SlotHolds(b, o, size, key, account, signer, writable, executable)
    requires SlotHolds(c, o, size, key, account, signer, writable, executable)
    requires SameOutside(before, b, o, o + SlotLength(size)) && SameOutside(before, c, o, o + SlotLength(size))
    ensures b == c
  {
    hide Word, Padding;
    var n, last := |account.data|, o + 88 + size + Padding(size) + 10240;
    WordUnique(b, c, o + 72);
    WordUnique(b, c, o + 80);
    WordUnique(b, c, last);
    SameBytes(b, c, o + 8, key);
    SameBytes(b, c, o + 40, account.owner);
    SameBytes(b, c, o + 88, account.data);
    forall k | 0 <= k < |before|
      ensures b[k] == c[k]
    {
    }
  }
}
