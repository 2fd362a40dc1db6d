/** The executor of a single instruction: its input buffer is laid out once and then updated in
    place, account by account. */
module InstructionExecution {
  import opened Words
  import opened Accounts
  import opened Bytes
  import opened AccountLayout
  import opened AlignedMemory
  import opened ExecutorSpec
  import opened Construction
  import opened LayoutReference
  import opened ExecutorMeaning

  datatype ExecutorError = InvalidInstruction | InvalidAccount | ProgramNotLoadable

  /** Slot sizes: a list, or one size for every slot. */
  datatype AccountSizes = PerAccount(sizes: seq<u64>) | Uniform(count: u64, each: u64) {

    function Len(): nat {
      match this
      case PerAccount(sizes) => |sizes|
      case Uniform(count, _) => count
    }

    function Size(i: nat): u64
      requires i < Len()
    {
      match this
      case PerAccount(sizes) => sizes[i]
      case Uniform(_, each) => each
    }

    function ToSeq(): (s: seq<u64>)
      ensures match this
              case PerAccount(sizes) => s == sizes
              case Uniform(count, each) => |s| == count && forall i :: 0 <= i < count ==> s[i] == each
      ensures |s| == Len() && forall i :: 0 <= i < |s| ==> s[i] == Size(i)
    {
      seq(Len(), i requires 0 <= i < Len() => Size(i))
    }
  }

  /** A write of `n` bytes is possible: inside the filled bytes, or within the capacity. */
  ghost predicate Room(buffer: AlignedBuffer, at: Option<nat>, n: nat)
    reads buffer
  {
    && buffer.Valid()
    && match at
       case Some(a) => a + n <= buffer.len
       case None => buffer.len + n <= buffer.mem.Length
  }

  /** Writes bytes in place or appends them. A flag or a word is written as its little-endian bytes. */
  method WriteAll(buffer: AlignedBuffer, at: Option<nat>, value: seq<byte>) returns (next: nat)
    requires Room(buffer, at, |value|)
    modifies buffer, buffer.mem
    ensures buffer.Valid() && buffer.Contents() == Emit(old(buffer.Contents()), at, value)
    ensures next == if at.Some? then at.value + |value| else buffer.len
  {
    match at
    case Some(a) =>
      buffer.Overwrite(a, value);
      return a + |value|;
    case None =>
      buffer.WriteAllUnchecked(value);
      return buffer.len;
  }

  method FillWrite(buffer: AlignedBuffer, at: Option<nat>, num: nat, value: byte)
    returns (next: Result<nat, CapacityError>)
    requires buffer.Valid() && (at.Some? ==> at.value + num <= buffer.len)
    modifies buffer, buffer.mem
    ensures buffer.Valid()
    ensures next.Ok? <==> old(Room(buffer, at, num))
    ensures next.Ok? ==>
              && buffer.Contents() == Emit(old(buffer.Contents()), at, Repeated(num, value))
              && next.value == if at.Some? then at.value + num else buffer.len
    ensures next.Err? ==> buffer.Contents() == old(buffer.Contents())
  {
    match at
    case Some(a) =>
      buffer.Overwrite(a, Repeated(num, value));
      return Ok(a + num);
    case None =>
      var _ :- buffer.FillWrite(num, value);
      return Ok(buffer.len);
  }

  /** A record of `total` bytes is being written to a buffer that held `before`: `done` is
      written and `at` is where the rest goes. */
  ghost predicate Writing(buffer: AlignedBuffer, before: seq<byte>, start: Option<nat>, at: Option<nat>,
                          done: seq<byte>, total: nat)
    reads buffer, buffer.mem
  {
    && buffer.Valid() && |done| <= total && at == Skip(start, |done|)
    && (if start.Some? then start.value + total <= |before| else |before| + total <= buffer.mem.Length)
    && buffer.Contents() == Emit(before, start, done)
  }

  /** One field of a record, and the position of the next one: `at` only moves when writing in place. */
  method WriteField(buffer: AlignedBuffer, at: Option<nat>, value: seq<byte>,
                    ghost before: seq<byte>, ghost start: Option<nat>, ghost done: seq<byte>, ghost total: nat)
    returns (next: nat, at': Option<nat>)
    requires Writing(buffer, before, start, at, done, total) && |done| + |value| <= total
    modifies buffer, buffer.mem
    ensures Writing(buffer, before, start, at', done + value, total)
    ensures next == if at.Some? then at.value + |value| else buffer.len
  {
    EmitEmit(before, start, done, value);
    next := WriteAll(buffer, at, value);
    at' := if at.Some? then Some(next) else None;
  }

  /** A field of zeros. Within the room there is, filling never fails. */
  method FillField(buffer: AlignedBuffer, at: Option<nat>, num: nat,
                   ghost before: seq<byte>, ghost start: Option<nat>, ghost done: seq<byte>, ghost total: nat)
    returns (at': Option<nat>)
    requires Writing(buffer, before, start, at, done, total) && |done| + num <= total
    modifies buffer, buffer.mem
    ensures Writing(buffer, before, start, at', done + Zeros(num), total)
  {
    EmitEmit(before, start, done, Zeros(num));
    var filled := FillWrite(buffer, at, num, 0);
    at' := if at.Some? then Some(filled.value) else None;
  }

  lemma FlagsInOrder(signer: bool, writable: bool, executable: bool)
    ensures [NON_DUP_MARKER] + [BoolByte(signer)] + [BoolByte(writable)] + [BoolByte(executable)] + Zeros(4)
         == Flags(signer, writable, executable)
  {
    hide Repeated, BoolByte;
  }

  /** The marker, the three flags and the reserved bytes. */
  method WriteFlags(buffer: AlignedBuffer, start: Option<nat>, signer: bool, writable: bool, executable: bool,
                    ghost total: nat)
    returns (at: Option<nat>)
    requires Room(buffer, start, total) && 8 <= total
    modifies buffer, buffer.mem
    ensures Writing(buffer, old(buffer.Contents()), start, at, Flags(signer, writable, executable), total)
  {
    hide BoolByte, Put, Repeated;
    ghost var c, m := buffer.Contents(), [NON_DUP_MARKER];
    EmitNothing(c, start);
    var _, at1 := WriteField(buffer, start, [NON_DUP_MARKER], c, start, [], total);
    assert [] + m == m;
    var _, at2 := WriteField(buffer, at1, [BoolByte(signer)], c, start, m, total);
    ghost var f2 := m + [BoolByte(signer)];
    var _, at3 := WriteField(buffer, at2, [BoolByte(writable)], c, start, f2, total);
    ghost var f3 := f2 + [BoolByte(writable)];
    var _, at4 := WriteField(buffer, at3, [BoolByte(executable)], c, start, f3, total);
    ghost var f4 := f3 + [BoolByte(executable)];
    var _, at5 := WriteField(buffer, at4, Zeros(4), c, start, f4, total);
    FlagsInOrder(signer, writable, executable);
    return at5;
  }

  /** Everything up to the data. */
  method WriteHeader(buffer: AlignedBuffer, start: Option<nat>, ghost e: Entry, dataSize: u64, key: Pubkey,
                     owner: Pubkey, lamports: u64, signer: bool, writable: bool, executable: bool, ghost total: nat)
    returns (at: Option<nat>)
    requires Room(buffer, start, total) && 88 <= total
    requires e.key == key && e.owner == owner && e.lamports == lamports && |e.data| == dataSize
    requires e.signer == signer && e.writable == writable && e.executable == executable
    modifies buffer, buffer.mem
    ensures Writing(buffer, old(buffer.Contents()), start, at, Header(e), total)
  {
    ghost var c := buffer.Contents();
    ghost var f5 := Flags(signer, writable, executable);
    var at5 := WriteFlags(buffer, start, signer, writable, executable, total);
    var _, at6 := WriteField(buffer, at5, key, c, start, f5, total);
    ghost var f6 := f5 + key;
    var _, at7 := WriteField(buffer, at6, owner, c, start, f6, total);
    ghost var f7 := f6 + owner;
    var _, at8 := WriteField(buffer, at7, Le64(lamports), c, start, f7, total);
    ghost var f8 := f7 + Le64(lamports);
    var _, at9 := WriteField(buffer, at8, Le64(dataSize), c, start, f8, total);
    assert f8 + Le64(dataSize) == Header(e);
    return at9;
  }

  lemma PadSplit(front: seq<byte>, data: seq<byte>, m: nat, n: nat)
    ensures front + data + Zeros(m + n) == front + (data + Zeros(m)) + Zeros(n)
  {
  }

  /** Writes the image of an account, in place or appending: both emit the same bytes. The data
      length that is stored is the slot's, and the data is zero-padded to it. */
  method WriteAccount(buffer: AlignedBuffer, accountSize: u64, start: Option<nat>, key: Pubkey, account: Account,
                      signer: bool, writable: bool, executable: bool)
    returns (next: nat)
    requires |account.data| <= accountSize
    requires Room(buffer, start, SlotSize(accountSize))
    modifies buffer, buffer.mem
    ensures buffer.Valid()
    ensures buffer.Contents() == Emit(old(buffer.Contents()), start,
                                      Image(EntryOf(accountSize, key, account, signer, writable, executable)))
    ensures next == if start.Some? then start.value + SlotSize(accountSize) else buffer.len
  {
    hide Header, Repeated, Emit, Le64, AlignOffset;
    ghost var c, total := buffer.Contents(), SlotSize(accountSize);
    ghost var e := EntryOf(accountSize, key, account, signer, writable, executable);
    var at := WriteHeader(buffer, start, e, accountSize, key, account.owner, account.lamports,
                          signer, writable, executable, total);
    var _, at1 := WriteField(buffer, at, account.data, c, start, Header(e), total);
    var tail := MAX_PERMITTED_DATA_INCREASE + AlignOffset(accountSize);
    var at2 := FillField(buffer, at1, accountSize - |account.data| + tail, c, start, Header(e) + account.data, total);
    PadSplit(Header(e), account.data, accountSize - |account.data|, tail);
    var n, _ := WriteField(buffer, at2, Le64(account.rentEpoch), c, start, Header(e) + e.data + Zeros(tail), total);
    return n;
  }

  /** The marker, the flags and the reserved bytes of an empty slot, appended one by one. */
  method WriteEmptyFlags(buffer: AlignedBuffer)
    requires Room(buffer, None, 8)
    modifies buffer, buffer.mem
    ensures buffer.Valid() && buffer.Contents() == old(buffer.Contents()) + Flags(false, false, false)
  {
    hide Repeated, Put;
    ghost var c := buffer.Contents();
    var _ := WriteAll(buffer, None, [NON_DUP_MARKER]);
    var _ := WriteAll(buffer, None, [0]);
    var _ := WriteAll(buffer, None, [0]);
    var _ := WriteAll(buffer, None, [0]);
    var _ := WriteAll(buffer, None, Zeros(4));
    assert buffer.Contents() == c + Flags(false, false, false);
  }

  lemma Regroup(c: seq<byte>, f: seq<byte>, k: seq<byte>, o: seq<byte>, l: seq<byte>, d: seq<byte>)
    ensures c + f + k + o + l + d == c + (f + k + o + l + d)
  {
  }

  /** The header of an empty slot, appended field by field. */
  method WriteEmptyHeader(buffer: AlignedBuffer, ghost e: Entry, dataSize: u64, ghost total: nat)
    requires Room(buffer, None, total) && 88 <= total && e == EmptyEntry(dataSize)
    modifies buffer, buffer.mem
    ensures Writing(buffer, old(buffer.Contents()), None, None, Header(e), total)
  {
    hide Repeated, Le64, Put, Flags;
    ghost var c := buffer.Contents();
    WriteEmptyFlags(buffer);
    var _ := WriteAll(buffer, None, DefaultPubkey());
    var _ := WriteAll(buffer, None, DefaultPubkey());
    var _ := WriteAll(buffer, None, Le64(0));
    var _ := WriteAll(buffer, None, Le64(dataSize));
    Regroup(c, Flags(false, false, false), DefaultPubkey(), DefaultPubkey(), Le64(0), Le64(dataSize));
  }

  /** Appends an empty slot. The source appends the header and the last word without a check; the
      model stops where that would leave the capacity. */
  method WriteEmptyAccount(buffer: AlignedBuffer, dataSize: u64) returns (outcome: Outcome)
    requires buffer.Valid()
    modifies buffer, buffer.mem
    ensures buffer.Valid() && outcome == AppendSlot(old(buffer.len), dataSize, buffer.mem.Length)
    ensures outcome.Done? ==> buffer.Contents() == old(buffer.Contents()) + Record(dataSize)
  {
    hide Header, Repeated, Le64, AlignOffset, Put;
    ghost var c, e := buffer.Contents(), EmptyEntry(dataSize);
    if buffer.mem.Length < buffer.len + 88 {
      return Overrun;
    }
    WriteEmptyHeader(buffer, e, dataSize, 88);
    var num := FillLength(dataSize);
    var filled := FillWrite(buffer, None, num, 0);
    if filled.Err? {
      return FillFailed;
    }
    if buffer.mem.Length < buffer.len + 8 {
      return Overrun;
    }
    var _ := WriteAll(buffer, None, Le64(0));
    assert c + Header(e) + Zeros(num) + Le64(0) == c + (Header(e) + Zeros(num) + Le64(0));
    return Done;
  }

  lemma AddSlotSize(sum: nat, dataSize: u64)
    ensures var data := WrappingAdd(WrappingAdd(8, dataSize), AlignOffset(dataSize));
            var slot := WrappingAdd(data, MAX_PERMITTED_DATA_INCREASE);
            WrappingAdd(WrappingAdd(WrappingAdd(WrappingAdd(Wrap(sum), 1), 79), slot), 8)
            == Wrap(sum + SlotSize(dataSize))
  {
    hide Wrap, WrappingAdd, AlignOffset;
    var a := AlignOffset(dataSize);
    SmallWrap(8);
    WrapPlus(8, dataSize);
    WrapPlus(8 + dataSize, a);
    WrapPlus(8 + dataSize + a, MAX_PERMITTED_DATA_INCREASE);
    WrapPlus(sum, 1);
    WrapPlus(sum + 1, 79);
    WrapPlus(sum + 80, 8 + dataSize + a + MAX_PERMITTED_DATA_INCREASE);
    WrapPlus(sum + 80 + (8 + dataSize + a + MAX_PERMITTED_DATA_INCREASE), 8);
  }

  lemma AddTrailerSize(sum: nat, instructionSize: u64)
    ensures WrappingAdd(WrappingAdd(Wrap(sum), WrappingAdd(8, instructionSize)), 32)
         == Wrap(sum + 8 + instructionSize + 32)
  {
    hide Wrap, WrappingAdd;
    SmallWrap(8);
    WrapPlus(8, instructionSize);
    WrapPlus(sum, 8 + instructionSize);
    WrapPlus(sum + (8 + instructionSize), 32);
  }

  /** The size of the buffer, computed slot by slot before anything is written, in words that wrap. */
  method ComputeSize(instructionSize: u64, accountSizes: AccountSizes) returns (size: u64)
    ensures size == ComputedSize(accountSizes.ToSeq(), instructionSize)
  {
    hide Zeros, Wrap, AlignOffset;
    ghost var sizes := accountSizes.ToSeq();
    size := 8;
    SmallWrap(8);
    for i := 0 to accountSizes.Len()
      invariant size == Wrap(Offset(sizes, i))
    {
      NextOffset(sizes, i);
      var dataSize := accountSizes.Size(i);
      var alignOffset := AlignOffset(dataSize);
      AddSlotSize(Offset(sizes, i), dataSize);
      size := WrappingAdd(size, 1);                                // the marker
      size := WrappingAdd(size, 1 + 1 + 1 + 4 + 32 + 32 + 8);      // up to the length word
      size := WrappingAdd(size, WrappingAdd(WrappingAdd(WrappingAdd(8, dataSize), alignOffset),
                                            MAX_PERMITTED_DATA_INCREASE));
      size := WrappingAdd(size, 8);                                // the last word
    }
    AddTrailerSize(Offset(sizes, |sizes|), instructionSize);
    size := WrappingAdd(size, WrappingAdd(8, instructionSize));
    size := WrappingAdd(size, 32);                                 // the key at the end
  }

  lemma NoRecords(sizes: seq<u64>, capacity: nat)
    ensures Records(sizes[..0]) == [] && RecordsSize(sizes[..0]) == 0
    ensures AppendSlots(sizes[..0], capacity) == if capacity < 8 then Overrun else Done
  {
  }

  lemma NextRecord(sizes: seq<u64>, i: nat, capacity: nat)
    requires i < |sizes|
    ensures Records(sizes[..i + 1]) == Records(sizes[..i]) + Record(sizes[i])
    ensures AppendSlots(sizes[..i], capacity) == Done ==>
              AppendSlots(sizes[..i + 1], capacity) == AppendSlot(8 + RecordsSize(sizes[..i]), sizes[i], capacity)
  {
    hide Record, AppendSlot;
    assert sizes[..i + 1][..i] == sizes[..i];
  }

  /** The number of accounts, then one empty slot after the other. */
  method WriteSlots(buffer: AlignedBuffer, accountSizes: AccountSizes)
    returns (outcome: Outcome, accountOffsets: seq<nat>)
    requires buffer.Valid() && buffer.len == 0
    modifies buffer, buffer.mem
    ensures buffer.Valid() && outcome == AppendSlots(accountSizes.ToSeq(), buffer.mem.Length)
    ensures outcome.Done? ==>
              var sizes := accountSizes.ToSeq();
              && buffer.Contents() == Le64(|sizes|) + Records(sizes)
              && |accountOffsets| == |sizes|
              && forall i :: 0 <= i < |sizes| ==> accountOffsets[i] == 8 + RecordsSize(sizes[..i])
  {
    hide Record, Records, AlignOffset, Le64, RecordSize, RecordsSize, AppendSlot, AppendSlots, Put;
    ghost var sizes := accountSizes.ToSeq();
    accountOffsets := [];
    NoRecords(sizes, buffer.mem.Length);
    if buffer.mem.Length < 8 {
      FirstFailureStays(sizes, buffer.mem.Length, 0);
      return Overrun, [];
    }
    var _ := WriteAll(buffer, None, Le64(accountSizes.Len()));
    for i := 0 to accountSizes.Len()
      invariant buffer.Valid() && AppendSlots(sizes[..i], buffer.mem.Length) == Done
      invariant buffer.Contents() == Le64(|sizes|) + Records(sizes[..i])
      invariant |accountOffsets| == i && forall k :: 0 <= k < i ==> accountOffsets[k] == 8 + RecordsSize(sizes[..k])
    {
      NextRecord(sizes, i, buffer.mem.Length);
      accountOffsets := accountOffsets + [buffer.len];
      outcome := WriteEmptyAccount(buffer, accountSizes.Size(i));
      if outcome != Done {
        FirstFailureStays(sizes, buffer.mem.Length, i + 1);
        return outcome, [];
      }
    }
    assert sizes[..|sizes|] == sizes;
    return Done, accountOffsets;
  }

  /** The instruction's length, its zeroed bytes and the default program id. */
  method WriteTrailer(buffer: AlignedBuffer, instructionSize: u64)
    returns (outcome: Outcome, instructionOffset: nat, programIdOffset: nat)
    requires buffer.Valid()
    modifies buffer, buffer.mem
    ensures buffer.Valid() && outcome == AppendTrailer(old(buffer.len), instructionSize, buffer.mem.Length)
    ensures instructionOffset == old(buffer.len)
    ensures outcome.Done? ==>
              && programIdOffset == old(buffer.len) + 8 + instructionSize
              && buffer.Contents()
                 == old(buffer.Contents()) + Le64(instructionSize) + Zeros(instructionSize) + DefaultPubkey()
  {
    hide Repeated, Le64, Put;
    instructionOffset, programIdOffset := buffer.len, 0;
    if buffer.mem.Length < buffer.len + 8 {
      return Overrun, instructionOffset, programIdOffset;
    }
    var _ := WriteAll(buffer, None, Le64(instructionSize));
    var filled := FillWrite(buffer, None, instructionSize, 0);
    if filled.Err? {
      return FillFailed, instructionOffset, programIdOffset;
    }
    programIdOffset := buffer.len;
    if buffer.mem.Length < buffer.len + 32 {
      return Overrun, instructionOffset, programIdOffset;
    }
    var _ := WriteAll(buffer, None, DefaultPubkey());
    return Done, instructionOffset, programIdOffset;
  }

  /** What is written for a layout that fits is its initial state, slot for slot. */
  lemma InitialBuffer(sizes: seq<u64>, instructionSize: u64)
    ensures var l := Layout(sizes, instructionSize);
            BufferSize(sizes, instructionSize) < TWO_TO_THE_64 ==>
              && Build(sizes, instructionSize) == Done
              && WrittenSize(sizes, instructionSize) == l.Size()
              && (forall i :: 0 <= i < |sizes| ==> 8 + RecordsSize(sizes[..i]) == l.AccountOffset(i))
              && 8 + RecordsSize(sizes) == l.InstructionOffset()
              && Fits(sizes, instructionSize, InitialState(l))
              && Serialize(InitialState(l))
                 == Le64(|sizes|) + Records(sizes) + Le64(instructionSize) + Zeros(instructionSize) + DefaultPubkey()
  {
    hide RecordSize, SlotSize, RecordsSize, SlotsSize, Build, Le64, Repeated;
    if BufferSize(sizes, instructionSize) < TWO_TO_THE_64 {
      var entries := InitialState(Layout(sizes, instructionSize)).entries;
      FittingLayoutIsBuilt(sizes, instructionSize);
      RecordsAreImages(sizes, entries);
      assert sizes[..|sizes|] == sizes;
      forall i | 0 <= i <= |sizes|
        ensures RecordsSize(sizes[..i]) == SlotsSize(sizes[..i])
      {
        RecordsAreSlots(sizes[..i]);
      }
    }
  }

  lemma BuiltBytes(l: Layout, accountOffsets: seq<nat>)
    ensures && |accountOffsets| == |l.sizes| && l.Size() < TWO_TO_THE_64
            && (forall i :: 0 <= i < |l.sizes| ==> accountOffsets[i] == l.AccountOffset(i)) ==>
              EmptyInput(Serialize(InitialState(l)), l.sizes, l.instructionSize, accountOffsets,
                         l.InstructionOffset(), l.ProgramIdOffset())
  {
    hide Serialize, InitialState, EmptyInput;
    TotalLength(l.sizes, l.instructionSize);
    SlotsLengths(l.sizes);
    SlotsAreNotEmpty(l.sizes);
    if && |accountOffsets| == |l.sizes| && l.Size() < TWO_TO_THE_64
       && forall i :: 0 <= i < |l.sizes| ==> accountOffsets[i] == l.AccountOffset(i) {
      InitialBytes(l, accountOffsets);
    }
  }

  /** A construction returns an executor or an error; nothing can be said once an unchecked append
      has left the capacity. */
  datatype NewResult = Built(executor: InstructionExecutor) | Failed | Undefined

  class InstructionExecutor {
    const layout: Layout
    const accountSizes: AccountSizes
    const accountOffsets: seq<nat>
    const instructionOffset: nat
    const programIdOffset: nat
    const buffer: AlignedBuffer
    // the loaded program
    var executable: bool
    var programId: Pubkey
    // what the buffer represents, as long as only updates have written to it
    ghost var state: State

    /** The buffer has its size and the offsets point at the slots; what it holds does not matter. */
    ghost predicate Shaped()
      reads this, buffer
    {
      && layout.sizes == accountSizes.ToSeq()
      && buffer.Valid() && buffer.len == layout.Size()
      && |accountOffsets| == |layout.sizes|
      && (forall i :: 0 <= i < |accountOffsets| ==> accountOffsets[i] == layout.AccountOffset(i))
      && instructionOffset == layout.InstructionOffset() && programIdOffset == layout.ProgramIdOffset()
      && Fits(layout.sizes, layout.instructionSize, state)
    }

    /** The buffer is the serialization of the abstract state. */
    ghost predicate Represents()
      reads this, buffer, buffer.mem
    {
      Shaped() && buffer.Contents() == Serialize(state)
    }

    constructor Assemble(layout: Layout, accountSizes: AccountSizes, accountOffsets: seq<nat>,
                         instructionOffset: nat, programIdOffset: nat, buffer: AlignedBuffer)
      ensures this.layout == layout && this.accountSizes == accountSizes && this.buffer == buffer
      ensures this.accountOffsets == accountOffsets
      ensures this.instructionOffset == instructionOffset && this.programIdOffset == programIdOffset
      ensures !executable && programId == DefaultPubkey() && state == InitialState(layout)
    {
      this.layout, this.accountSizes, this.buffer := layout, accountSizes, buffer;
      this.accountOffsets := accountOffsets;
      this.instructionOffset, this.programIdOffset := instructionOffset, programIdOffset;
      executable, programId, state := false, DefaultPubkey(), InitialState(layout);
    }

    /** Lays the buffer out, for all sizes. When the layout has less than 2^64 bytes, the computed
        size is exactly what gets written, so no unchecked append leaves the capacity and no fill
        fails, and the buffer is the serialization of the initial state. `Build` says how every
        other construction ends; one that is completed does not have its layout's shape. */
    static method New(instructionSize: u64, accountSizes: AccountSizes) returns (r: NewResult)
      ensures var sizes := accountSizes.ToSeq();
              match Build(sizes, instructionSize)
              case FillFailed => r == Failed
              case Overrun => r == Undefined
              case Done =>
                && r.Built? && fresh(r.executor) && fresh(r.executor.buffer) && fresh(r.executor.buffer.mem)
                && r.executor.layout == Layout(sizes, instructionSize) && !r.executor.executable
                && r.executor.buffer.Valid()
                && r.executor.buffer.len == r.executor.buffer.mem.Length == WrittenSize(sizes, instructionSize)
                && (BufferSize(sizes, instructionSize) < TWO_TO_THE_64 ==>
                      r.executor.Represents() && r.executor.state == InitialState(r.executor.layout))
                && (BufferSize(sizes, instructionSize) >= TWO_TO_THE_64 ==> !r.executor.Shaped())
      // the same byte by byte
      ensures var sizes := accountSizes.ToSeq();
              8 + SlotsLength(sizes) + 8 + instructionSize + 32 < 0x1_0000_0000_0000_0000 ==>
                && r.Built? && r.executor.layout.sizes == sizes && r.executor.layout.instructionSize == instructionSize
                && !r.executor.executable && r.executor.programId == seq(32, _ => 0)
                && r.executor.buffer.Valid()
                && EmptyInput(r.executor.buffer.Contents(), sizes, instructionSize, r.executor.accountOffsets,
                              r.executor.instructionOffset, r.executor.programIdOffset)
    {
      hide AppendSlots, RecordsSize, Records, Serialize, BufferSize, ComputedSize, EmptyInput;
      var sizes := accountSizes.ToSeq();
      DoneExactlyWhenWrittenFits(sizes, instructionSize);
      InitialBuffer(sizes, instructionSize);
      TotalLength(sizes, instructionSize);
      var size := ComputeSize(instructionSize, accountSizes);
      var buffer := new AlignedBuffer.WithCapacity(size);
      var slots, accountOffsets := WriteSlots(buffer, accountSizes);
      if slots != Done {
        return if slots == Overrun then Undefined else Failed;
      }
      var trailer, instructionOffset, programIdOffset := WriteTrailer(buffer, instructionSize);
      if trailer != Done {
        return if trailer == Overrun then Undefined else Failed;
      }
      var executor := new InstructionExecutor.Assemble(Layout(sizes, instructionSize), accountSizes, accountOffsets,
                                                       instructionOffset, programIdOffset, buffer);
      BuiltBytes(executor.layout, accountOffsets);
      return Built(executor);
    }

    /** Loads a program and stores its id. `loads` says whether the ELF loader and the compiler
        accept it. */
    method UpdateProgram(programId: Pubkey, loads: bool) returns (r: Result<(), ExecutorError>)
      requires Shaped()
      modifies this, buffer, buffer.mem
      ensures Shaped()
      ensures buffer.Contents() == BufferStep(layout, old(buffer.Contents()), Op.UpdateProgram(programId, loads))
      ensures state == Step(layout, old(state), Op.UpdateProgram(programId, loads))
      ensures old(Represents()) ==> Represents()
      ensures r == if loads then Ok(()) else Err(ProgramNotLoadable)
      ensures executable == (old(executable) || loads)
      ensures this.programId == if loads then programId else old(this.programId)
      ensures loads ==>
                && |buffer.Contents()| == programIdOffset + 32 && buffer.Contents()[programIdOffset..] == programId
                && SameOutside(old(buffer.Contents()), buffer.Contents(), programIdOffset, programIdOffset + 32)
      ensures !loads ==> buffer.Contents() == old(buffer.Contents())
    {
      hide Image, Serialize;
      ghost var op := Op.UpdateProgram(programId, loads);
      StepRefines(layout, state, op);
      ProgramStepMeaning(layout, buffer.Contents(), programId, loads);
      if !loads {
        return Err(ProgramNotLoadable);
      }
      executable := true;
      this.programId := programId;
      var _ := WriteAll(buffer, Some(programIdOffset), programId);
      state := Step(layout, state, op);
      return Ok(());
    }

    method UpdateInstruction(instruction: seq<byte>) returns (r: Result<(), ExecutorError>)
      requires Shaped()
      modifies this`state, buffer, buffer.mem
      ensures Shaped()
      ensures buffer.Contents() == BufferStep(layout, old(buffer.Contents()), Op.UpdateInstruction(instruction))
      ensures state == Step(layout, old(state), Op.UpdateInstruction(instruction))
      ensures old(Represents()) ==> Represents()
      ensures r == if |instruction| <= layout.instructionSize then Ok(()) else Err(InvalidInstruction)
      ensures r.Ok? ==>
                var b, o, n := buffer.Contents(), instructionOffset, |instruction|;
                && o + 8 + n <= |b| && Word(b, o) == layout.instructionSize && b[o + 8..o + 8 + n] == instruction
                && SameOutside(old(buffer.Contents()), b, o, o + 8 + n)
      ensures r.Err? ==> buffer.Contents() == old(buffer.Contents())
    {
      hide Image, Serialize, Encode, Word;
      ghost var op := Op.UpdateInstruction(instruction);
      StepRefines(layout, state, op);
      InstructionStepMeaning(layout, buffer.Contents(), instruction);
      if |instruction| > layout.instructionSize {
        return Err(InvalidInstruction);
      }
      EmitEmit(buffer.Contents(), Some(instructionOffset), Le64(layout.instructionSize), instruction);
      var _ := WriteAll(buffer, Some(instructionOffset), Le64(layout.instructionSize));
      var _ := WriteAll(buffer, Some(instructionOffset + 8), instruction);
      state := Step(layout, state, op);
      return Ok(());
    }

    method UpdateAccount(i: nat, key: Pubkey, account: Account, signer: bool, writable: bool, executable: bool)
      returns (r: Result<(), ExecutorError>)
      requires Shaped() && i < |layout.sizes|
      modifies this`state, buffer, buffer.mem
      ensures Shaped()
      ensures var op := Op.UpdateAccount(i, key, account, signer, writable, executable);
              && buffer.Contents() == BufferStep(layout, old(buffer.Contents()), op)
              && state == Step(layout, old(state), op)
      ensures old(Represents()) ==> Represents()
      ensures r == if |account.data| <= layout.sizes[i] then Ok(()) else Err(InvalidAccount)
      ensures r.Ok? ==>
                var b, o, size := buffer.Contents(), accountOffsets[i], layout.sizes[i];
                && SlotHolds(b, o, size, key, account, signer, writable, executable)
                && SameOutside(old(buffer.Contents()), b, o, o + SlotLength(size))
      ensures r.Err? ==> buffer.Contents() == old(buffer.Contents())
    {
      hide Image, Serialize, SlotSize, SlotHolds, SlotLength;
      ghost var op := Op.UpdateAccount(i, key, account, signer, writable, executable);
      StepRefines(layout, state, op);
      AccountStepMeaning(layout, buffer.Contents(), i, key, account, signer, writable, executable);
      var accountSize := accountSizes.Size(i);
      if |account.data| > accountSize {
        return Err(InvalidAccount);
      }
      TargetInside(layout, op);
      var _ := WriteAccount(buffer, accountSize, Some(accountOffsets[i]), key, account, signer, writable, executable);
      state := Step(layout, state, op);
      return Ok(());
    }

    /** Reads account `i` back, following the stored data length. A length that leads out of the
        buffer makes a slice operation panic, which is the result None here. */
    method GetAccount(i: nat) returns (r: Option<Account>)
      requires Shaped() && i < |layout.sizes|
      ensures |buffer.Contents()| >= layout.AccountOffset(i) + 88
      ensures r == ReadAccount(buffer.Contents(), layout.AccountOffset(i))
      ensures var b, o := buffer.Contents(), accountOffsets[i];
              && o + 88 <= |b|
              && var n := Word(b, o + 80);
              && var last := o + 88 + n + Padding(n) + 10240;
              && (r.None? <==> |b| < last + 8)
              && (r.Some? ==>
                    && r.value.owner == b[o + 40..o + 72] && r.value.lamports == Word(b, o + 72)
                    && r.value.data == b[o + 88..o + 88 + n]
                    && (r.value.executable <==> b[o + 3] == 1)
                    && r.value.rentEpoch == Word(b, last))
    {
      hide Decode, Offset, Fits, Word, Padding, Serialize;
      SlotInside(layout, i);
      ReadMeaning(buffer.Contents(), accountOffsets[i]);
      var bytes := buffer.mem[..buffer.len];
      var offset := accountOffsets[i] + 3;
      var executable := bytes[offset] == 1;
      offset := offset + 37;
      var owner := KeyAt(bytes, offset);
      offset := offset + 32;
      var lamports := WordAt(bytes, offset);
      offset := offset + 8;
      var dataLen := WordAt(bytes, offset);
      offset := offset + 8;
      if |bytes| < offset + dataLen {
        return None;
      }
      var data := bytes[offset..offset + dataLen];
      offset := offset + dataLen;
      var alignOffset := AlignOffset(dataLen);
      offset := offset + alignOffset + MAX_PERMITTED_DATA_INCREASE;
      if |bytes| < offset + 8 {
        return None;
      }
      var rentEpoch := WordAt(bytes, offset);
      return Some(Account(lamports, data, owner, executable, rentEpoch));
    }
  }
}
