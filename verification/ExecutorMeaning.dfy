/** What the operations of the executor leave in the buffer and read from it, byte by byte. */
module ExecutorMeaning {
  import opened Words
  import opened Accounts
  import opened Bytes
  import opened AccountLayout
  import opened ExecutorSpec
  import opened LayoutReference

  // ----- Sizes

  lemma SlotLengths(size: nat)
    ensures AlignOffset(size) == Padding(size) && SlotSize(size) == SlotLength(size)
  {
  }

  /** Where the parts of the buffer are. */
  lemma OffsetsMeaning(l: Layout, accountOffsets: seq<nat>)
    requires |accountOffsets| == |l.sizes|
    requires forall i :: 0 <= i < |l.sizes| ==> accountOffsets[i] == l.AccountOffset(i)
    ensures Offsets(l.sizes, l.instructionSize, accountOffsets, l.InstructionOffset(), l.ProgramIdOffset(), l.Size())
  {
    hide SlotSize, SlotLength;
    forall i | 0 <= i < |l.sizes|
      ensures l.AccountOffset(i + 1) == l.AccountOffset(i) + SlotLength(l.sizes[i])
    {
      NextOffset(l.sizes, i);
      SlotLengths(l.sizes[i]);
    }
    assert l.sizes[..0] == [];
    if l.sizes != [] {
      var last := |l.sizes| - 1;
      assert l.AccountOffset(last + 1) == l.AccountOffset(last) + SlotLength(l.sizes[last]);
    }
    forall i, j | 0 <= i && j == i + 1 && j < |l.sizes|
      ensures accountOffsets[j] == accountOffsets[i] + SlotLength(l.sizes[i])
    {
      assert l.AccountOffset(i + 1) == l.AccountOffset(i) + SlotLength(l.sizes[i]);
    }
  }

  lemma {:induction false} SlotsLengths(sizes: seq<u64>)
    ensures SlotsSize(sizes) == SlotsLength(sizes)
    decreases |sizes|
  {
    hide SlotSize, SlotLength;
    if sizes != [] {
      SlotsLengths(sizes[..|sizes| - 1]);
      SlotLengths(sizes[|sizes| - 1]);
    }
  }

  lemma TotalLength(sizes: seq<u64>, instructionSize: nat)
    ensures BufferSize(sizes, instructionSize) == 8 + SlotsLength(sizes) + 8 + instructionSize + 32
  {
    assert sizes[..|sizes|] == sizes;
    SlotsLengths(sizes);
  }

  lemma {:induction false} SlotsAreNotEmpty(sizes: seq<u64>)
    ensures |sizes| <= SlotsSize(sizes)
    decreases |sizes|
  {
    if sizes != [] {
      SlotsAreNotEmpty(sizes[..|sizes| - 1]);
    }
  }

  // ----- Slots

  lemma HeaderBytes(e: Entry)
    ensures var h := Header(e);
            && h[0] == 255 && h[1] == (if e.signer then 1 else 0) && h[2] == (if e.writable then 1 else 0)
            && h[3] == (if e.executable then 1 else 0) && ZeroBytes(h, 4, 8)
            && h[8..40] == e.key && h[40..72] == e.owner
            && h[72..80] == Le64(e.lamports) && h[80..88] == Le64(|e.data|)
  {
    hide Encode;
  }

  /** An image is the slot's bytes as the format lays them out. */
  lemma ImageHolds(size: u64, key: Pubkey, account: Account, signer: bool, writable: bool, executable: bool)
    requires |account.data| <= size
    ensures SlotHolds(Image(EntryOf(size, key, account, signer, writable, executable)), 0, size,
                      key, account, signer, writable, executable)
  {
    hide Le64, Word, Padding;
    var e := EntryOf(size, key, account, signer, writable, executable);
    var n, h, b := |account.data|, Header(e), Image(e);
    SlotLengths(size);
    var last := 88 + size + Padding(size) + 10240;
    HeaderBytes(e);
    assert b[..88] == h;
    assert b[0..4] == h[0..4] && b[4..8] == h[4..8];
    assert b[8..40] == h[8..40] && b[40..72] == h[40..72] && b[72..80] == h[72..80] && b[80..88] == h[80..88];
    assert b[last..last + 8] == Le64(account.rentEpoch);
    WrittenWord(b, 72, account.lamports);
    WrittenWord(b, 80, size);
    WrittenWord(b, last, account.rentEpoch);
    assert b[88..88 + n] == account.data;
  }

  lemma WordInside(b: seq<byte>, o: nat, n: nat, at: nat)
    requires o + n <= |b| && at + 8 <= n
    ensures Word(b[o..o + n], at) == Word(b, o + at)
  {
  }

  /** A slot holds what its bytes hold. */
  lemma SlotMoves(b: seq<byte>, o: nat, size: nat, key: Pubkey, account: Account,
                  signer: bool, writable: bool, executable: bool)
    requires o + SlotLength(size) <= |b|
    requires SlotHolds(b[o..o + SlotLength(size)], 0, size, key, account, signer, writable, executable)
    ensures SlotHolds(b, o, size, key, account, signer, writable, executable)
  {
    hide Word, Padding;
    var length := SlotLength(size);
    var slot := b[o..o + length];
    WordInside(b, o, length, 72);
    WordInside(b, o, length, 80);
    WordInside(b, o, length, length - 8);
    Nested(b, o, length, 8, 40);
    Nested(b, o, length, 40, 72);
    Nested(b, o, length, 88, 88 + |account.data|);
    assert forall k :: 0 <= k < length ==> slot[k] == b[o + k];
    assert forall k :: o <= k < o + length ==> b[k] == slot[k - o];
  }

  lemma PutHolds(before: seq<byte>, o: nat, size: u64, key: Pubkey, account: Account,
                 signer: bool, writable: bool, executable: bool)
    requires |account.data| <= size && o + SlotSize(size) <= |before|
    ensures var after := Put(before, o, Image(EntryOf(size, key, account, signer, writable, executable)));
            && SlotHolds(after, o, size, key, account, signer, writable, executable)
            && SameOutside(before, after, o, o + SlotLength(size))
  {
    hide Image, SlotHolds;
    SlotLengths(size);
    var image := Image(EntryOf(size, key, account, signer, writable, executable));
    var after := Put(before, o, image);
    ImageHolds(size, key, account, signer, writable, executable);
    assert after[o..o + SlotLength(size)] == image;
    SlotMoves(after, o, size, key, account, signer, writable, executable);
  }

  // ----- Operations

  /** An accepted update of an account fills its slot and changes nothing else; a rejected one changes
      nothing. */
  lemma AccountStepMeaning(l: Layout, before: seq<byte>, i: nat, key: Pubkey, account: Account,
                           signer: bool, writable: bool, executable: bool)
    requires |before| == l.Size() && i < |l.sizes|
    ensures var after := BufferStep(l, before, UpdateAccount(i, key, account, signer, writable, executable));
            var o, size := l.AccountOffset(i), l.sizes[i];
            if |account.data| <= size then
              && SlotHolds(after, o, size, key, account, signer, writable, executable)
              && SameOutside(before, after, o, o + SlotLength(size))
            else after == before
  {
    hide Image, SlotHolds, SlotLength, SlotSize, EntryOf;
    if |account.data| <= l.sizes[i] {
      SlotsDisjoint(l.sizes, i, |l.sizes|);
      PutHolds(before, l.AccountOffset(i), l.sizes[i], key, account, signer, writable, executable);
    }
  }

  /** An accepted instruction is written behind the size of its place; the bytes after it stay. */
  lemma InstructionStepMeaning(l: Layout, before: seq<byte>, instruction: seq<byte>)
    requires |before| == l.Size()
    ensures var after := BufferStep(l, before, UpdateInstruction(instruction));
            var o, n := l.InstructionOffset(), |instruction|;
            if n <= l.instructionSize then
              && |after| == |before| && Word(after, o) == l.instructionSize
              && after[o + 8..o + 8 + n] == instruction
              && SameOutside(before, after, o, o + 8 + n)
            else after == before
  {
    hide Le64, Word, Offset;
    var after := BufferStep(l, before, UpdateInstruction(instruction));
    var o, n := l.InstructionOffset(), |instruction|;
    if n <= l.instructionSize {
      assert after[o..o + 8] == Le64(l.instructionSize);
      WrittenWord(after, o, l.instructionSize);
      assert after[o + 8..o + 8 + n] == instruction;
    }
  }

  lemma ProgramStepMeaning(l: Layout, before: seq<byte>, programId: Pubkey, loads: bool)
    requires |before| == l.Size()
    ensures var after := BufferStep(l, before, UpdateProgram(programId, loads));
            var o := l.ProgramIdOffset();
            if loads then after[o..o + 32] == programId && SameOutside(before, after, o, o + 32)
            else after == before
  {
    hide Offset;
  }

  // ----- States

  /** The bytes of a state: its slots hold its entries, and its instruction and program id follow. */
  lemma StateBytes(l: Layout, s: State)
    requires Fits(l.sizes, l.instructionSize, s)
    ensures var b, o, p := Serialize(s), l.InstructionOffset(), l.ProgramIdOffset();
            && |b| == l.Size() == p + 32 && p == o + 8 + l.instructionSize
            && b[0..8] == Le64(|l.sizes|) && b[o..o + 8] == Le64(l.instructionSize)
            && b[o + 8..p] == s.instruction && b[p..p + 32] == s.programId
  {
    hide Images, Le64;
    SerializedLength(l.sizes, l.instructionSize, s);
    ImagesLength(l.sizes, s.entries);
    assert l.sizes[..|l.sizes|] == l.sizes;
  }

  lemma StateSlot(l: Layout, s: State, i: nat, account: Account)
    requires Fits(l.sizes, l.instructionSize, s) && i < |l.sizes| && |account.data| <= l.sizes[i]
    requires var e, n := s.entries[i], |account.data|;
             && e.owner == account.owner && e.lamports == account.lamports && e.rentEpoch == account.rentEpoch
             && e.data[..n] == account.data && ZeroBytes(e.data, n, |e.data|)
    ensures var e := s.entries[i];
            SlotHolds(Serialize(s), l.AccountOffset(i), l.sizes[i], e.key, account, e.signer, e.writable, e.executable)
  {
    hide Serialize, SlotHolds, Image, BufferStep;
    var e := s.entries[i];
    assert e.data == account.data + Zeros(|e.data| - |account.data|);
    // writing what is there already changes nothing
    var op := UpdateAccount(i, e.key, account, e.signer, e.writable, e.executable);
    assert Step(l, s, op) == s;
    StepRefines(l, s, op);
    AccountStepMeaning(l, Serialize(s), i, e.key, account, e.signer, e.writable, e.executable);
  }

  /** The bytes of the initial state. */
  lemma InitialBytes(l: Layout, accountOffsets: seq<nat>)
    requires |accountOffsets| == |l.sizes| < TWO_TO_THE_64
    requires forall i :: 0 <= i < |l.sizes| ==> accountOffsets[i] == l.AccountOffset(i)
    ensures EmptyInput(Serialize(InitialState(l)), l.sizes, l.instructionSize, accountOffsets,
                       l.InstructionOffset(), l.ProgramIdOffset())
  {
    hide Serialize, SlotHolds, Le64, Word, Offsets;
    var s, none: Pubkey := InitialState(l), seq(32, _ => 0);
    var b, o, p := Serialize(s), l.InstructionOffset(), l.ProgramIdOffset();
    StateBytes(l, s);
    OffsetsMeaning(l, accountOffsets);
    TotalLength(l.sizes, l.instructionSize);
    WrittenWord(b, 0, |l.sizes|);
    WrittenWord(b, o, l.instructionSize);
    forall i | 0 <= i < |l.sizes|
      ensures SlotHolds(b, accountOffsets[i], l.sizes[i], none, Account(0, [], none, false, 0), false, false, false)
    {
      StateSlot(l, s, i, Account(0, [], none, false, 0));
    }
    assert forall k :: o + 8 <= k < p ==> b[k] == b[o + 8..p][k - (o + 8)];
    assert forall k :: p <= k < p + 32 ==> b[k] == b[p..p + 32][k - p];
  }

  // ----- Reading

  /** What a reader returns for the slot at `at`, whatever the buffer holds. */
  lemma ReadMeaning(b: seq<byte>, at: nat)
    requires at + 88 <= |b|
    ensures var n, r := Word(b, at + 80), ReadAccount(b, at);
            var last := at + 88 + n + Padding(n) + 10240;
            && (r.None? <==> |b| < last + 8)
            && (r.Some? ==>
                  && r.value.owner == b[at + 40..at + 72] && r.value.lamports == Word(b, at + 72)
                  && r.value.data == b[at + 88..at + 88 + n]
                  && (r.value.executable <==> b[at + 3] == 1)
                  && r.value.rentEpoch == Word(b, last))
  {
    hide WordAt, Word;
    WordIsLittleEndian(b, at + 80);
    WordIsLittleEndian(b, at + 72);
    var n := Word(b, at + 80);
    SlotLengths(n);
    if at + 88 + n + Padding(n) + 10240 + 8 <= |b| {
      WordIsLittleEndian(b, at + 88 + n + Padding(n) + 10240);
    }
  }
}
