/** What the operations of the instruction executor do, on the abstract state and on the bytes,
    and how whole sequences of them behave. */
module ExecutorSpec {
  import opened Words
  import opened Accounts
  import opened Bytes
  import opened AccountLayout

  datatype Op =
    | UpdateProgram(programId: Pubkey, loads: bool)
    | UpdateInstruction(instruction: seq<byte>)
    | UpdateAccount(i: nat, key: Pubkey, account: Account, signer: bool, writable: bool, executable: bool)

  /** The fixed layout of one executor. */
  datatype Layout = Layout(sizes: seq<u64>, instructionSize: u64) {

    function AccountOffset(i: nat): nat
      requires i <= |sizes|
    {
      Offset(sizes, i)
    }

    function InstructionOffset(): nat {
      Offset(sizes, |sizes|)
    }

    function ProgramIdOffset(): nat {
      InstructionOffset() + 8 + instructionSize
    }

    function Size(): nat {
      BufferSize(sizes, instructionSize)
    }

    predicate Accepts(op: Op) {
      match op
      case UpdateProgram(_, loads) => loads
      case UpdateInstruction(instruction) => |instruction| <= instructionSize
      case UpdateAccount(i, _, account, _, _, _) => i < |sizes| && |account.data| <= sizes[i]
    }
  }

  // ----- The abstract state

  /** The entry an update leaves in a slot: the account's data, zero-padded to the slot's size. */
  function EntryOf(size: nat, key: Pubkey, account: Account, signer: bool, writable: bool, executable: bool): (e: Entry)
    requires |account.data| <= size
    ensures |e.data| == size
  {
    Entry(key, account.owner, account.lamports, account.data + Zeros(size - |account.data|),
          signer, writable, executable, account.rentEpoch)
  }

  function DefaultAccount(): Account {
    Account(0, [], DefaultPubkey(), false, 0)
  }

  function EmptyEntry(size: nat): Entry {
    Entry(DefaultPubkey(), DefaultPubkey(), 0, Zeros(size), false, false, false, 0)
  }

  function InitialState(l: Layout): State {
    State(seq(|l.sizes|, i requires 0 <= i < |l.sizes| => EmptyEntry(l.sizes[i])),
          Zeros(l.instructionSize), DefaultPubkey())
  }

  /** A rejected update changes nothing. An accepted instruction keeps the old bytes past its end. */
  function Step(l: Layout, s: State, op: Op): (s': State)
    requires Fits(l.sizes, l.instructionSize, s)
    ensures Fits(l.sizes, l.instructionSize, s')
  {
    if !l.Accepts(op) then s
    else match op
      case UpdateProgram(programId, _) => s.(programId := programId)
      case UpdateInstruction(instruction) =>
        s.(instruction := instruction + s.instruction[|instruction|..])
      case UpdateAccount(i, key, account, signer, writable, executable) =>
        s.(entries := s.entries[i := EntryOf(l.sizes[i], key, account, signer, writable, executable)])
  }

  function Run(l: Layout, s: State, ops: seq<Op>): (s': State)
    requires Fits(l.sizes, l.instructionSize, s)
    ensures Fits(l.sizes, l.instructionSize, s')
    decreases |ops|
  {
    if ops == [] then s else Run(l, Step(l, s, ops[0]), ops[1..])
  }

  // ----- The bytes

  /** Where an accepted operation writes. */
  function Target(l: Layout, op: Op): nat
    requires l.Accepts(op)
  {
    match op
    case UpdateProgram(_, _) => l.ProgramIdOffset()
    case UpdateInstruction(_) => l.InstructionOffset()
    case UpdateAccount(i, _, _, _, _, _) => l.AccountOffset(i)
  }

  /** What an accepted operation writes. */
  function Payload(l: Layout, op: Op): seq<byte>
    requires l.Accepts(op)
  {
    match op
    case UpdateProgram(programId, _) => programId
    case UpdateInstruction(instruction) => Le64(l.instructionSize) + instruction
    case UpdateAccount(i, key, account, signer, writable, executable) =>
      Image(EntryOf(l.sizes[i], key, account, signer, writable, executable))
  }

  lemma TargetInside(l: Layout, op: Op)
    requires l.Accepts(op)
    ensures Target(l, op) + |Payload(l, op)| <= l.Size()
  {
    if op.UpdateAccount? {
      SlotsDisjoint(l.sizes, op.i, |l.sizes|);
    }
  }

  function BufferStep(l: Layout, buffer: seq<byte>, op: Op): (buffer': seq<byte>)
    requires |buffer| == l.Size()
    ensures |buffer'| == |buffer|
  {
    if !l.Accepts(op) then buffer
    else
      TargetInside(l, op);
      Put(buffer, Target(l, op), Payload(l, op))
  }

  function BufferRun(l: Layout, buffer: seq<byte>, ops: seq<Op>): (buffer': seq<byte>)
    requires |buffer| == l.Size()
    ensures |buffer'| == |buffer|
    decreases |ops|
  {
    if ops == [] then buffer else BufferRun(l, BufferStep(l, buffer, ops[0]), ops[1..])
  }

  // ----- The bytes follow the state

  lemma StepOnProgram(l: Layout, s: State, op: Op)
    requires Fits(l.sizes, l.instructionSize, s) && op.UpdateProgram? && l.Accepts(op)
    ensures |Serialize(s)| == l.Size() && Serialize(Step(l, s, op)) == BufferStep(l, Serialize(s), op)
  {
    SerializedLength(l.sizes, l.instructionSize, s);
    var front := Le64(|s.entries|) + Images(s.entries) + Le64(|s.instruction|) + s.instruction;
    assert |front| == l.ProgramIdOffset();
    PutRight(front, s.programId, 0, op.programId);
  }

  lemma SerializeAroundInstruction(s: State)
    ensures Serialize(s)
         == Le64(|s.entries|) + Images(s.entries) + (Le64(|s.instruction|) + s.instruction) + s.programId
  {
    hide Images, Le64;
  }

  lemma PutPrefix(word: seq<byte>, tail: seq<byte>, data: seq<byte>)
    requires |data| <= |tail|
    ensures Put(word + tail, 0, word + data) == word + (data + tail[|data|..])
  {
  }

  lemma StepOnInstruction(l: Layout, s: State, op: Op)
    requires Fits(l.sizes, l.instructionSize, s) && op.UpdateInstruction? && l.Accepts(op)
    ensures |Serialize(s)| == l.Size() && Serialize(Step(l, s, op)) == BufferStep(l, Serialize(s), op)
  {
    hide Serialize, Images, Le64, Put;
    SerializedLength(l.sizes, l.instructionSize, s);
    ImagesLength(l.sizes, s.entries);
    var front, word, data := Le64(|s.entries|) + Images(s.entries), Le64(l.instructionSize), op.instruction;
    assert l.sizes[..|l.sizes|] == l.sizes;
    assert |front| == l.InstructionOffset();
    SerializeAroundInstruction(s);
    SerializeAroundInstruction(Step(l, s, op));
    PutInside(front, word + s.instruction, s.programId, 0, word + data);
    PutPrefix(word, s.instruction, data);
  }

  lemma SerializeAsThreeParts(s: State)
    ensures Serialize(s)
         == Le64(|s.entries|) + Images(s.entries) + (Le64(|s.instruction|) + s.instruction + s.programId)
  {
  }

  lemma StepOnAccount(l: Layout, s: State, op: Op)
    requires Fits(l.sizes, l.instructionSize, s) && op.UpdateAccount? && l.Accepts(op)
    ensures |Serialize(s)| == l.Size() && Serialize(Step(l, s, op)) == BufferStep(l, Serialize(s), op)
  {
    hide Image;
    SerializedLength(l.sizes, l.instructionSize, s);
    var count, images := Le64(|s.entries|), Images(s.entries);
    var rest := Le64(|s.instruction|) + s.instruction + s.programId;
    var e := EntryOf(l.sizes[op.i], op.key, op.account, op.signer, op.writable, op.executable);
    var image, at := Image(e), SlotsSize(l.sizes[..op.i]);
    PutImage(l.sizes, s.entries, op.i, e);
    SerializeAsThreeParts(s);
    SerializeAsThreeParts(s.(entries := s.entries[op.i := e]));
    PutInside(count, images, rest, at, image);
  }

  /** One operation on the bytes of a state gives the bytes of the next state. */
  lemma StepRefines(l: Layout, s: State, op: Op)
    requires Fits(l.sizes, l.instructionSize, s)
    ensures |Serialize(s)| == l.Size() && Serialize(Step(l, s, op)) == BufferStep(l, Serialize(s), op)
  {
    SerializedLength(l.sizes, l.instructionSize, s);
    if l.Accepts(op) {
      match op
      case UpdateProgram(_, _) => StepOnProgram(l, s, op);
      case UpdateInstruction(_) => StepOnInstruction(l, s, op);
      case UpdateAccount(_, _, _, _, _, _) => StepOnAccount(l, s, op);
    }
  }

  /** Over a whole life: after any sequence of operations on the bytes of a state, the buffer is
      the serialization of the abstract state that the same sequence leads to. */
  lemma {:induction false} RunRefines(l: Layout, s: State, ops: seq<Op>)
    requires Fits(l.sizes, l.instructionSize, s)
    ensures |Serialize(s)| == l.Size() && Serialize(Run(l, s, ops)) == BufferRun(l, Serialize(s), ops)
    decreases |ops|
  {
    SerializedLength(l.sizes, l.instructionSize, s);
    if ops != [] {
      StepRefines(l, s, ops[0]);
      RunRefines(l, Step(l, s, ops[0]), ops[1..]);
    }
  }

  /** Updating a slot with the default account restores its initial image. */
  lemma DefaultAccountRestoresSlot(l: Layout, s: State, i: nat)
    requires Fits(l.sizes, l.instructionSize, s) && i < |l.sizes|
    ensures var s' := Step(l, s, UpdateAccount(i, DefaultPubkey(), DefaultAccount(), false, false, false));
            s'.entries == s.entries[i := InitialState(l).entries[i]]
  {
    assert [] + Zeros(l.sizes[i]) == Zeros(l.sizes[i]);
  }

  // ----- Frames

  /** The operation, if accepted, is an update of account `i`. */
  predicate Touches(l: Layout, op: Op, i: nat) {
    l.Accepts(op) && op.UpdateAccount? && op.i == i
  }

  lemma SlotInside(l: Layout, i: nat)
    requires i < |l.sizes|
    ensures l.AccountOffset(i) + SlotSize(l.sizes[i]) <= l.InstructionOffset() < l.Size()
    ensures 88 < SlotSize(l.sizes[i])
  {
    SlotsDisjoint(l.sizes, i, |l.sizes|);
  }

  function Slot(l: Layout, buffer: seq<byte>, i: nat): (slot: seq<byte>)
    requires |buffer| == l.Size() && i < |l.sizes|
    ensures |slot| == SlotSize(l.sizes[i])
  {
    SlotsDisjoint(l.sizes, i, |l.sizes|);
    buffer[l.AccountOffset(i)..l.AccountOffset(i) + SlotSize(l.sizes[i])]
  }

  lemma PutElsewhere(s: seq<byte>, at: nat, bytes: seq<byte>, lo: nat, hi: nat)
    requires at + |bytes| <= |s| && lo <= hi <= |s| && (hi <= at || at + |bytes| <= lo)
    ensures Put(s, at, bytes)[lo..hi] == s[lo..hi]
  {
  }

  /** An operation on anything but account `i` leaves slot `i` as it was. */
  lemma StepKeepsSlot(l: Layout, buffer: seq<byte>, op: Op, i: nat)
    requires |buffer| == l.Size() && i < |l.sizes| && !Touches(l, op, i)
    ensures Slot(l, BufferStep(l, buffer, op), i) == Slot(l, buffer, i)
  {
    hide Image;
    SlotsDisjoint(l.sizes, i, |l.sizes|);
    if l.Accepts(op) {
      TargetInside(l, op);
      if op.UpdateAccount? {
        if op.i < i {
          SlotsDisjoint(l.sizes, op.i, i);
        } else {
          SlotsDisjoint(l.sizes, i, op.i);
        }
      }
      var lo := l.AccountOffset(i);
      PutElsewhere(buffer, Target(l, op), Payload(l, op), lo, lo + SlotSize(l.sizes[i]));
    }
  }

  lemma {:induction false} RunKeepsSlot(l: Layout, buffer: seq<byte>, ops: seq<Op>, i: nat)
    requires |buffer| == l.Size() && i < |l.sizes|
    requires forall k :: 0 <= k < |ops| ==> !Touches(l, ops[k], i)
    ensures Slot(l, BufferRun(l, buffer, ops), i) == Slot(l, buffer, i)
    decreases |ops|
  {
    if ops != [] {
      StepKeepsSlot(l, buffer, ops[0], i);
      RunKeepsSlot(l, BufferStep(l, buffer, ops[0]), ops[1..], i);
    }
  }

  /** An accepted update puts the new image into its slot, whatever was there before. */
  lemma StepFillsSlot(l: Layout, buffer: seq<byte>, op: Op, i: nat)
    requires |buffer| == l.Size() && i < |l.sizes| && Touches(l, op, i)
    ensures op.UpdateAccount? && op.i == i && l.Accepts(op)
    ensures Slot(l, BufferStep(l, buffer, op), i) == Payload(l, op)
  {
    hide Image;
    SlotsDisjoint(l.sizes, i, |l.sizes|);
  }

  // ----- Order of updates

  /** The operations write to the same place: the same account, or both the instruction or both the
      program id. */
  predicate SamePlace(a: Op, b: Op) {
    match (a, b)
    case (UpdateProgram(_, _), UpdateProgram(_, _)) => true
    case (UpdateInstruction(_), UpdateInstruction(_)) => true
    case (UpdateAccount(i, _, _, _, _, _), UpdateAccount(j, _, _, _, _, _)) => i == j
    case _ => false
  }

  lemma PlacesDisjoint(l: Layout, a: Op, b: Op)
    requires l.Accepts(a) && l.Accepts(b) && !SamePlace(a, b)
    ensures Target(l, a) + |Payload(l, a)| <= Target(l, b) || Target(l, b) + |Payload(l, b)| <= Target(l, a)
  {
    hide Image;
    if a.UpdateAccount? {
      SlotsDisjoint(l.sizes, a.i, if b.UpdateAccount? && a.i < b.i then b.i else |l.sizes|);
    }
    if b.UpdateAccount? {
      SlotsDisjoint(l.sizes, b.i, if a.UpdateAccount? && b.i < a.i then a.i else |l.sizes|);
    }
  }

  lemma PutsCommute(s: seq<byte>, i: nat, a: seq<byte>, j: nat, b: seq<byte>)
    requires i + |a| <= |s| && j + |b| <= |s| && (i + |a| <= j || j + |b| <= i)
    ensures Put(Put(s, i, a), j, b) == Put(Put(s, j, b), i, a)
  {
    var ab, ba := Put(Put(s, i, a), j, b), Put(Put(s, j, b), i, a);
    assert forall k :: 0 <= k < |s| ==> ab[k] == ba[k];
  }

  /** Operations on different places can be swapped, whatever the buffer holds. */
  lemma UpdatesCommute(l: Layout, buffer: seq<byte>, a: Op, b: Op)
    requires |buffer| == l.Size() && !SamePlace(a, b)
    ensures BufferStep(l, BufferStep(l, buffer, a), b) == BufferStep(l, BufferStep(l, buffer, b), a)
  {
    hide Put, Target, Payload, Offset;
    if l.Accepts(a) && l.Accepts(b) {
      TargetInside(l, a);
      TargetInside(l, b);
      PlacesDisjoint(l, a, b);
      PutsCommute(buffer, Target(l, a), Payload(l, a), Target(l, b), Payload(l, b));
    }
  }

  lemma PutTwice(s: seq<byte>, at: nat, a: seq<byte>, b: seq<byte>)
    requires |a| == |b| && at + |a| <= |s|
    ensures Put(Put(s, at, a), at, b) == Put(s, at, b)
  {
  }

  /** Of two accepted updates of one account, only the later one shows. */
  lemma LastUpdateWins(l: Layout, buffer: seq<byte>, a: Op, b: Op)
    requires |buffer| == l.Size() && a.UpdateAccount? && b.UpdateAccount? && SamePlace(a, b)
    requires l.Accepts(a) && l.Accepts(b)
    ensures BufferStep(l, BufferStep(l, buffer, a), b) == BufferStep(l, buffer, b)
  {
    hide Put, Image, Offset;
    TargetInside(l, a);
    TargetInside(l, b);
    PutTwice(buffer, Target(l, b), Payload(l, a), Payload(l, b));
  }

  // ----- Reading an account back

  /** Where a reader looks for the rent epoch of the slot at `at`, given the data length it read. */
  function RentEpochAt(at: nat, dataLen: nat): nat {
    at + 88 + dataLen + AlignOffset(dataLen) + MAX_PERMITTED_DATA_INCREASE
  }

  /** What a reader makes of the slot at `at`; nothing, if the length it finds leads it out of the
      buffer. */
  function ReadAccount(buffer: seq<byte>, at: nat): Option<Account>
    requires at + 88 <= |buffer|
  {
    var dataLen := WordAt(buffer, at + 80);
    if |buffer| < at + 88 + dataLen || |buffer| < RentEpochAt(at, dataLen) + 8 then None
    else Some(Account(WordAt(buffer, at + 72), buffer[at + 88..at + 88 + dataLen], KeyAt(buffer, at + 40),
                      buffer[at + 3] == 1, WordAt(buffer, RentEpochAt(at, dataLen))))
  }

  lemma HeaderFields(e: Entry)
    ensures var header := Header(e);
            && header[3] == BoolByte(e.executable) && header[40..72] == e.owner
            && header[72..80] == Le64(e.lamports) && header[80..88] == Le64(|e.data|)
  {
  }

  /** The fields of an image are where the reader expects them. */
  lemma ImageFields(e: Entry)
    ensures var image := Image(e);
            && image[3] == BoolByte(e.executable)
            && image[40..72] == e.owner && image[72..80] == Le64(e.lamports)
            && image[80..88] == Le64(|e.data|) && image[88..88 + |e.data|] == e.data
            && image[RentEpochAt(0, |e.data|)..RentEpochAt(0, |e.data|) + 8] == Le64(e.rentEpoch)
            && |image| == RentEpochAt(0, |e.data|) + 8
  {
    var header, image := Header(e), Image(e);
    var tail := e.data + Zeros(MAX_PERMITTED_DATA_INCREASE + AlignOffset(|e.data|)) + Le64(e.rentEpoch);
    assert image == header + tail;
    HeaderFields(e);
    assert image[40..72] == header[40..72] && image[72..80] == header[72..80] && image[80..88] == header[80..88];
    assert image[88..] == tail;
  }

  lemma Nested(s: seq<byte>, at: nat, n: nat, lo: nat, hi: nat)
    requires at + n <= |s| && lo <= hi <= n
    ensures s[at..at + n][lo..hi] == s[at + lo..at + hi]
  {
    var inner, outer := s[at..at + n][lo..hi], s[at + lo..at + hi];
    assert forall k :: 0 <= k < |inner| ==> inner[k] == outer[k];
  }

  lemma ReadImage(buffer: seq<byte>, at: nat, e: Entry)
    requires |e.data| < TWO_TO_THE_64
    requires at + |Image(e)| <= |buffer| && buffer[at..at + |Image(e)|] == Image(e)
    ensures ReadAccount(buffer, at) == Some(Account(e.lamports, e.data, e.owner, e.executable, e.rentEpoch))
  {
    ImageFields(e);
    WordRoundTrip(|e.data|);
    WordRoundTrip(e.lamports);
    WordRoundTrip(e.rentEpoch);
    var n, r := |Image(e)|, RentEpochAt(0, |e.data|);
    Nested(buffer, at, n, 40, 72);
    Nested(buffer, at, n, 72, 80);
    Nested(buffer, at, n, 80, 88);
    Nested(buffer, at, n, 88, 88 + |e.data|);
    Nested(buffer, at, n, r, r + 8);
    assert buffer[at + 3] == Image(e)[3];
  }

  /** A slot that holds an entry's image reads back as that entry. */
  lemma ReadSlot(l: Layout, buffer: seq<byte>, i: nat, e: Entry)
    requires |buffer| == l.Size() && i < |l.sizes| && |e.data| == l.sizes[i]
    requires Slot(l, buffer, i) == Image(e)
    ensures l.AccountOffset(i) + 88 <= l.Size()
    ensures ReadAccount(buffer, l.AccountOffset(i))
         == Some(Account(e.lamports, e.data, e.owner, e.executable, e.rentEpoch))
  {
    hide Image, ReadAccount;
    SlotsDisjoint(l.sizes, i, |l.sizes|);
    ReadImage(buffer, l.AccountOffset(i), e);
  }

  /** Round trip: whatever the buffer held before (a program may have run on it), an accepted
      update of account `i`, followed by any operations that do not update it again, reads back
      as that account, with its data zero-padded and the flag that was given. */
  lemma RoundTrip(l: Layout, buffer: seq<byte>, op: Op, later: seq<Op>)
    requires |buffer| == l.Size() && op.UpdateAccount? && l.Accepts(op)
    requires forall k :: 0 <= k < |later| ==> !Touches(l, later[k], op.i)
    ensures l.AccountOffset(op.i) + 88 <= l.Size()
    ensures var size := l.sizes[op.i];
            ReadAccount(BufferRun(l, BufferStep(l, buffer, op), later), l.AccountOffset(op.i))
            == Some(op.account.(data := op.account.data + Zeros(size - |op.account.data|), executable := op.executable))
  {
    hide Image, BufferRun, BufferStep, ReadAccount, Slot, Offset, BufferSize, SlotSize, Zeros;
    StepFillsSlot(l, buffer, op, op.i);
    RunKeepsSlot(l, BufferStep(l, buffer, op), later, op.i);
    ReadSlot(l, BufferRun(l, BufferStep(l, buffer, op), later), op.i,
             EntryOf(l.sizes[op.i], op.key, op.account, op.signer, op.writable, op.executable));
  }

  /** A slot holds exactly the data that was given, and the instruction's place exactly the
      instruction that was given, only when they fill it: shorter data is padded, and a shorter
      instruction is followed by the tail of an earlier one. */
  lemma ExactOnlyWhenFull(l: Layout, s: State, op: Op)
    requires Fits(l.sizes, l.instructionSize, s) && l.Accepts(op)
    ensures op.UpdateAccount? ==>
              (Step(l, s, op).entries[op.i].data == op.account.data <==> |op.account.data| == l.sizes[op.i])
    ensures op.UpdateInstruction? ==>
              (Step(l, s, op).instruction == op.instruction <==> |op.instruction| == l.instructionSize)
  {
  }

  /** Whatever a program has written over slot `i`: the reader looks for the rent epoch where
      updates put it exactly when the length it finds and the slot's size round up to the same
      multiple of eight, and then it stays inside the slot and returns the slot's last word. */
  lemma RentEpochFoundExactlyWhenLengthsRoundAlike(l: Layout, buffer: seq<byte>, i: nat)
    requires |buffer| == l.Size() && i < |l.sizes|
    ensures l.AccountOffset(i) + SlotSize(l.sizes[i]) <= l.Size()
    ensures var at, size := l.AccountOffset(i), l.sizes[i];
            var dataLen := WordAt(buffer, at + 80);
            && (RentEpochAt(at, dataLen) == RentEpochAt(at, size) <==> RoundUp(dataLen) == RoundUp(size))
            && (RoundUp(dataLen) == RoundUp(size) ==>
                  && at + 88 + dataLen <= at + SlotSize(size)
                  && ReadAccount(buffer, at).Some?
                  && ReadAccount(buffer, at).value.rentEpoch == WordAt(buffer, at + SlotSize(size) - 8))
  {
    SlotsDisjoint(l.sizes, i, |l.sizes|);
  }

  /** A program may write anything but the last eight bytes of a slot that was updated: as long as
      the length it leaves rounds up like the slot's size, the rent epoch that was given comes back. */
  lemma RentEpochSurvivesAProgram(l: Layout, buffer: seq<byte>, op: Op, later: seq<byte>)
    requires |buffer| == |later| == l.Size() && op.UpdateAccount? && l.Accepts(op)
    ensures l.AccountOffset(op.i) + 88 <= l.Size()
    ensures var n := SlotSize(l.sizes[op.i]);
            var left, was := Slot(l, later, op.i), Slot(l, BufferStep(l, buffer, op), op.i);
            left[n - 8..] == was[n - 8..] && RoundUp(WordAt(left, 80)) == RoundUp(l.sizes[op.i]) ==>
              var read := ReadAccount(later, l.AccountOffset(op.i));
              read.Some? && read.value.rentEpoch == op.account.rentEpoch
  {
    hide Image, BufferStep, ReadAccount, Offset, Decode, Encode;
    var at, n := l.AccountOffset(op.i), SlotSize(l.sizes[op.i]);
    var e := EntryOf(l.sizes[op.i], op.key, op.account, op.signer, op.writable, op.executable);
    SlotInside(l, op.i);
    Nested(later, at, n, 80, 88);
    Nested(later, at, n, n - 8, n);
    RentEpochFoundExactlyWhenLengthsRoundAlike(l, later, op.i);
    StepFillsSlot(l, buffer, op, op.i);
    ImageFields(e);
    assert Slot(l, later, op.i)[n - 8..] == Slot(l, later, op.i)[n - 8..n];
    assert Image(e)[n - 8..] == Image(e)[n - 8..n];
    WordRoundTrip(op.account.rentEpoch);
  }

  /** Reading from the bytes of any state gives the fields of its entry. */
  lemma ReadState(l: Layout, s: State, i: nat)
    requires Fits(l.sizes, l.instructionSize, s) && i < |l.sizes|
    ensures |Serialize(s)| == l.Size() && l.AccountOffset(i) + 88 <= l.Size()
    ensures var e := s.entries[i];
            ReadAccount(Serialize(s), l.AccountOffset(i))
            == Some(Account(e.lamports, e.data, e.owner, e.executable, e.rentEpoch))
  {
    hide Image, Serialize, ReadAccount, Slot, Offset, BufferSize, Put;
    var e := s.entries[i];
    // writing what is there already changes nothing
    var account := Account(e.lamports, e.data, e.owner, e.executable, e.rentEpoch);
    var op := UpdateAccount(i, e.key, account, e.signer, e.writable, e.executable);
    assert e.data + Zeros(0) == e.data;
    assert Step(l, s, op) == s;
    StepRefines(l, s, op);
    StepFillsSlot(l, Serialize(s), op, i);
    ReadSlot(l, Serialize(s), i, e);
  }
}
