/** How laying out the input buffer ends for all sizes, including those whose total does not fit in
    a word. The total is then computed modulo 2^64, and so is the padding of a very large slot. */
module Construction {
  import opened Words
  import opened Accounts
  import opened Bytes
  import opened AccountLayout
  import opened ExecutorSpec
  import opened ExecutorMeaning
  import opened LayoutReference

  /** The buffer is complete; or a checked fill fails; or an unchecked append would leave the
      capacity, after which nothing can be said. */
  datatype Outcome = Done | FillFailed | Overrun

  /** The capacity that is asked for. */
  function ComputedSize(sizes: seq<u64>, instructionSize: nat): u64 {
    Wrap(BufferSize(sizes, instructionSize))
  }

  /** The zeros that an empty slot is filled with, as computed. */
  function FillLength(dataSize: u64): u64 {
    WrappingAdd(WrappingAdd(dataSize, MAX_PERMITTED_DATA_INCREASE), AlignOffset(dataSize))
  }

  function RecordSize(dataSize: u64): nat {
    88 + FillLength(dataSize) + 8
  }

  /** The bytes that are written for an empty slot. */
  function Record(dataSize: u64): (s: seq<byte>)
    ensures |s| == RecordSize(dataSize)
  {
    Header(EmptyEntry(dataSize)) + Zeros(FillLength(dataSize)) + Le64(0)
  }

  function RecordsSize(sizes: seq<u64>): nat {
    if sizes == [] then 0 else RecordsSize(sizes[..|sizes| - 1]) + RecordSize(sizes[|sizes| - 1])
  }

  function Records(sizes: seq<u64>): (s: seq<byte>)
    ensures |s| == RecordsSize(sizes)
  {
    if sizes == [] then [] else Records(sizes[..|sizes| - 1]) + Record(sizes[|sizes| - 1])
  }

  /** What gets written altogether, if nothing stops it. */
  function WrittenSize(sizes: seq<u64>, instructionSize: nat): nat {
    8 + RecordsSize(sizes) + 8 + instructionSize + 32
  }

  // ----- How it ends

  /** Appending one empty slot to `at` bytes. */
  function AppendSlot(at: nat, dataSize: u64, capacity: nat): Outcome {
    if capacity < at + 88 then Overrun
    else if capacity < at + 88 + FillLength(dataSize) then FillFailed
    else if capacity < at + RecordSize(dataSize) then Overrun
    else Done
  }

  function AppendSlots(sizes: seq<u64>, capacity: nat): Outcome {
    if sizes == [] then if capacity < 8 then Overrun else Done
    else
      var before := sizes[..|sizes| - 1];
      if AppendSlots(before, capacity) != Done then AppendSlots(before, capacity)
      else AppendSlot(8 + RecordsSize(before), sizes[|sizes| - 1], capacity)
  }

  function AppendTrailer(at: nat, instructionSize: nat, capacity: nat): Outcome {
    if capacity < at + 8 then Overrun
    else if capacity < at + 8 + instructionSize then FillFailed
    else if capacity < at + 8 + instructionSize + 32 then Overrun
    else Done
  }

  function Build(sizes: seq<u64>, instructionSize: nat): Outcome {
    var capacity := ComputedSize(sizes, instructionSize);
    if AppendSlots(sizes, capacity) != Done then AppendSlots(sizes, capacity)
    else AppendTrailer(8 + RecordsSize(sizes), instructionSize, capacity)
  }

  /** The first failure ends the construction. */
  lemma {:induction false} FirstFailureStays(sizes: seq<u64>, capacity: nat, i: nat)
    requires i <= |sizes| && AppendSlots(sizes[..i], capacity) != Done
    ensures AppendSlots(sizes, capacity) == AppendSlots(sizes[..i], capacity)
    decreases |sizes|
  {
    hide AppendSlot, RecordsSize;
    if i == |sizes| {
      assert sizes[..i] == sizes;
    } else {
      assert sizes[..|sizes| - 1][..i] == sizes[..i];
      FirstFailureStays(sizes[..|sizes| - 1], capacity, i);
    }
  }

  lemma {:induction false} SlotsDoneWhenTheyFit(sizes: seq<u64>, capacity: nat)
    ensures AppendSlots(sizes, capacity) == Done <==> 8 + RecordsSize(sizes) <= capacity
    decreases |sizes|
  {
    hide FillLength;
    if sizes != [] {
      SlotsDoneWhenTheyFit(sizes[..|sizes| - 1], capacity);
    }
  }

  // ----- Against the layout

  lemma UnfoldAdd(x: u64, y: u64)
    ensures WrappingAdd(x, y) == Wrap(x + y)
  {
    hide Wrap;
  }

  lemma FillLengthWraps(d: u64)
    ensures FillLength(d) == Wrap(d + AlignOffset(d) + MAX_PERMITTED_DATA_INCREASE)
    ensures Wrap(RecordSize(d)) == Wrap(SlotSize(d))
  {
    hide Wrap, WrappingAdd, AlignOffset;
    var a := AlignOffset(d);
    var f := d + a + MAX_PERMITTED_DATA_INCREASE;
    SmallWrap(d);
    WrapPlus(d, MAX_PERMITTED_DATA_INCREASE);
    WrapPlus(d + MAX_PERMITTED_DATA_INCREASE, a);
    WrapPlus(f, 96);
    assert WrappingAdd(Wrap(f), 96) == Wrap(Wrap(f) + 96) by { UnfoldAdd(Wrap(f), 96); }
  }

  lemma {:induction false} WrittenIsComputedModulo(sizes: seq<u64>)
    ensures Wrap(RecordsSize(sizes)) == Wrap(SlotsSize(sizes))
    decreases |sizes|
  {
    hide RecordSize, SlotSize, Wrap;
    if sizes != [] {
      var init, d := sizes[..|sizes| - 1], sizes[|sizes| - 1];
      WrittenIsComputedModulo(init);
      FillLengthWraps(d);
      WrapSum(RecordsSize(init), RecordSize(d));
      WrapSum(SlotsSize(init), SlotSize(d));
    }
  }

  /** For all sizes: the construction is completed exactly when what it writes is less than 2^64
      bytes, and then it fills its capacity to the last byte. */
  lemma DoneExactlyWhenWrittenFits(sizes: seq<u64>, instructionSize: nat)
    ensures Build(sizes, instructionSize) == Done <==> WrittenSize(sizes, instructionSize) < TWO_TO_THE_64
    ensures Build(sizes, instructionSize) == Done ==>
              ComputedSize(sizes, instructionSize) == WrittenSize(sizes, instructionSize)
  {
    hide AppendSlots, RecordsSize, SlotsSize;
    var capacity := ComputedSize(sizes, instructionSize);
    assert sizes[..|sizes|] == sizes;
    WrittenIsComputedModulo(sizes);
    WrapSum(RecordsSize(sizes), 48 + instructionSize);
    WrapSum(SlotsSize(sizes), 48 + instructionSize);
    assert capacity == Wrap(WrittenSize(sizes, instructionSize));
    SlotsDoneWhenTheyFit(sizes, capacity);
  }

  lemma UnfoldWrap(n: nat)
    ensures Wrap(n) == n % 0x1_0000_0000_0000_0000
  {
  }

  lemma RecordLength(d: u64)
    ensures FillLength(d) == FillCount(d)
  {
    hide Wrap, WrappingAdd;
    FillLengthWraps(d);
    SlotLengths(d);
    UnfoldWrap(d + AlignOffset(d) + MAX_PERMITTED_DATA_INCREASE);
  }

  lemma {:induction false} RecordsLength(sizes: seq<u64>)
    ensures RecordsSize(sizes) == WrittenLength(sizes)
    decreases |sizes|
  {
    hide FillLength, FillCount;
    if sizes != [] {
      var d := sizes[|sizes| - 1];
      RecordsLength(sizes[..|sizes| - 1]);
      RecordLength(d);
    }
  }

  /** The capacity ends within the zeros of slot `i`. */
  ghost predicate EndsInFill(sizes: seq<u64>, i: nat, capacity: nat)
    requires i < |sizes|
  {
    var at := 8 + WrittenLength(sizes[..i]) + 88;
    at <= capacity < at + FillCount(sizes[i])
  }

  lemma {:induction false} FillFailsWhenCapacityEndsThere(sizes: seq<u64>, capacity: nat)
    ensures AppendSlots(sizes, capacity) == FillFailed <==>
            exists i :: 0 <= i < |sizes| && EndsInFill(sizes, i, capacity)
    decreases |sizes|
  {
    hide FillLength, FillCount;
    if sizes != [] {
      var n := |sizes| - 1;
      var before := sizes[..n];
      FillFailsWhenCapacityEndsThere(before, capacity);
      SlotsDoneWhenTheyFit(before, capacity);
      RecordsLength(before);
      RecordLength(sizes[n]);
      forall i | 0 <= i < n
        ensures EndsInFill(before, i, capacity) <==> EndsInFill(sizes, i, capacity)
      {
        assert before[..i] == sizes[..i];
      }
      if AppendSlots(before, capacity) == Done {
        assert EndsInFill(sizes, n, capacity) <==> AppendSlots(sizes, capacity) == FillFailed;
      } else if AppendSlots(before, capacity) == FillFailed {
        var i :| 0 <= i < n && EndsInFill(before, i, capacity);
        assert EndsInFill(sizes, i, capacity);
      }
    }
  }

  /** For all sizes, how the construction ends, in numbers alone: it is completed when all that is
      written has less than 2^64 bytes, a fill fails when the capacity ends within the zeros of a slot or
      of the instruction, and everything else overruns the capacity. */
  lemma Endings(sizes: seq<u64>, instructionSize: nat)
    ensures var capacity := (8 + SlotsLength(sizes) + 8 + instructionSize + 32) % 0x1_0000_0000_0000_0000;
            var written := 8 + WrittenLength(sizes);
            && (Build(sizes, instructionSize) == Done <==> written + 8 + instructionSize + 32 < 0x1_0000_0000_0000_0000)
            && (Build(sizes, instructionSize) == FillFailed <==>
                  || (exists i :: 0 <= i < |sizes| && EndsInFill(sizes, i, capacity))
                  || written + 8 <= capacity < written + 8 + instructionSize)
  {
    hide AppendSlots, EndsInFill;
    var capacity := ComputedSize(sizes, instructionSize);
    TotalLength(sizes, instructionSize);
    RecordsLength(sizes);
    DoneExactlyWhenWrittenFits(sizes, instructionSize);
    FillFailsWhenCapacityEndsThere(sizes, capacity);
    SlotsDoneWhenTheyFit(sizes, capacity);
  }

  /** The computed size is the size of the layout exactly when that is less than 2^64. */
  lemma ComputedIsLayoutExactlyWhenItFits(sizes: seq<u64>, instructionSize: nat)
    ensures ComputedSize(sizes, instructionSize) == BufferSize(sizes, instructionSize) <==>
            BufferSize(sizes, instructionSize) < TWO_TO_THE_64
  {
  }

  lemma RecordAtMostSlot(d: u64)
    ensures RecordSize(d) <= SlotSize(d)
    ensures RecordSize(d) == SlotSize(d) <==> d + AlignOffset(d) + MAX_PERMITTED_DATA_INCREASE < TWO_TO_THE_64
  {
    FillLengthWraps(d);
  }

  lemma {:induction false} RecordsAtMostSlots(sizes: seq<u64>)
    ensures RecordsSize(sizes) <= SlotsSize(sizes)
    ensures RecordsSize(sizes) == SlotsSize(sizes) <==>
            forall i :: 0 <= i < |sizes| ==> RecordSize(sizes[i]) == SlotSize(sizes[i])
    decreases |sizes|
  {
    hide RecordSize, SlotSize;
    if sizes != [] {
      var n := |sizes| - 1;
      RecordsAtMostSlots(sizes[..n]);
      RecordAtMostSlot(sizes[n]);
      assert forall i :: 0 <= i < n ==> sizes[..n][i] == sizes[i];
    }
  }

  lemma {:induction false} SlotInSlots(sizes: seq<u64>, i: nat)
    requires i < |sizes|
    ensures SlotSize(sizes[i]) <= SlotsSize(sizes)
    decreases |sizes|
  {
    hide SlotSize;
    if i < |sizes| - 1 {
      SlotInSlots(sizes[..|sizes| - 1], i);
    }
  }

  lemma SlotFits(d: u64)
    requires SlotSize(d) < TWO_TO_THE_64
    ensures RecordSize(d) == SlotSize(d)
  {
    RecordAtMostSlot(d);
  }

  /** When the layout fits, nothing wraps: the construction is completed, and every slot starts
      where the layout has it. */
  lemma FittingLayoutIsBuilt(sizes: seq<u64>, instructionSize: nat)
    requires BufferSize(sizes, instructionSize) < TWO_TO_THE_64
    ensures Build(sizes, instructionSize) == Done
    ensures forall i :: 0 <= i < |sizes| ==> RecordSize(sizes[i]) == SlotSize(sizes[i])
    ensures WrittenSize(sizes, instructionSize) == BufferSize(sizes, instructionSize)
  {
    hide RecordSize, SlotSize, RecordsSize, SlotsSize, Build;
    assert sizes[..|sizes|] == sizes;
    forall i | 0 <= i < |sizes|
      ensures RecordSize(sizes[i]) == SlotSize(sizes[i])
    {
      SlotInSlots(sizes, i);
      SlotFits(sizes[i]);
    }
    RecordsAtMostSlots(sizes);
    DoneExactlyWhenWrittenFits(sizes, instructionSize);
  }

  lemma {:induction false} RecordsAreSlots(sizes: seq<u64>)
    requires forall i :: 0 <= i < |sizes| ==> RecordSize(sizes[i]) == SlotSize(sizes[i])
    ensures RecordsSize(sizes) == SlotsSize(sizes)
    decreases |sizes|
  {
    hide RecordSize, SlotSize;
    if sizes != [] {
      RecordsAreSlots(sizes[..|sizes| - 1]);
    }
  }

  lemma ZerosSplit(front: seq<byte>, m: nat, n: nat)
    ensures front + Zeros(m + n) == front + Zeros(m) + Zeros(n)
  {
  }

  lemma RecordIsImage(d: u64)
    requires RecordSize(d) == SlotSize(d)
    ensures Record(d) == Image(EmptyEntry(d))
  {
    hide Header, Le64, Repeated;
    var tail := MAX_PERMITTED_DATA_INCREASE + AlignOffset(d);
    assert FillLength(d) == d + tail;
    ZerosSplit(Header(EmptyEntry(d)), d, tail);
  }

  /** Records that did not wrap are the images of empty slots. */
  lemma {:induction false} RecordsAreImages(sizes: seq<u64>, entries: seq<Entry>)
    requires |entries| == |sizes|
    requires forall i :: 0 <= i < |sizes| ==>
               entries[i] == EmptyEntry(sizes[i]) && RecordSize(sizes[i]) == SlotSize(sizes[i])
    ensures Records(sizes) == Images(entries)
    decreases |sizes|
  {
    hide Record, Image, RecordSize, SlotSize, EmptyEntry;
    if sizes != [] {
      var n := |sizes| - 1;
      RecordsAreImages(sizes[..n], entries[..n]);
      RecordIsImage(sizes[n]);
    }
  }

  // ----- Sizes that wrap

  lemma OneSlot(d: u64)
    ensures BufferSize([d], 0) == 48 + SlotSize(d)
    ensures forall capacity: nat ::
              AppendSlots([d], capacity) == if capacity < 8 then Overrun else AppendSlot(8, d, capacity)
    ensures RecordsSize([d]) == RecordSize(d)
  {
    hide SlotSize, RecordSize, AppendSlot;
    assert [d][..1] == [d];
    assert [d][..0] == [];
    assert SlotsSize([d]) == SlotsSize([d][..0]) + SlotSize(d);
    assert RecordsSize([d]) == RecordsSize([d][..0]) + RecordSize(d);
  }

  /** One slot of 2^64 - 10376 bytes: the layout has 2^64 + 8 bytes, a capacity of 8 is asked for,
      and the first header is appended past it. */
  lemma WrappedTotalOverruns()
    ensures var sizes: seq<u64> := [TWO_TO_THE_64 - 10376];
            && BufferSize(sizes, 0) == TWO_TO_THE_64 + 8
            && ComputedSize(sizes, 0) == 8 && Build(sizes, 0) == Overrun
  {
    OneSlot(TWO_TO_THE_64 - 10376);
  }

  /** One slot of 2^64 - 10240 bytes: its padding wraps as well, so that a buffer of 144 bytes is
      completed for it, far smaller than its layout. */
  lemma WrappedPaddingIsBuilt()
    ensures var sizes: seq<u64> := [TWO_TO_THE_64 - 10240];
            && BufferSize(sizes, 0) == TWO_TO_THE_64 + 144
            && ComputedSize(sizes, 0) == 144 && Build(sizes, 0) == Done
  {
    OneSlot(TWO_TO_THE_64 - 10240);
  }
}
