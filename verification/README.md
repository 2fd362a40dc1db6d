# A verified model of solana-bpf-simulator

solana-bpf-simulator runs a Solana program locally. This project models the parts of it where
several pieces of code must agree on offsets, lengths and indices, and proves what they promise.

**Memory moves** (`Words`, `MemoryMap`, `VmReference`, `ChunkIterator`, `ChunkedMove`, `Translation`,
`MemOps`).
A program's virtual memory is a list of regions, each backed by a run of bytes of one host array.
A double-ended iterator cuts a virtual range into pieces of one region each. `memmove` over ranges
that may span regions walks two such iterators in lockstep, in the direction that a wrapping
subtraction picks, and copies pieces of equal length. The specification is the C library's
`memmove` (section 7.24.2.2 of ISO/IEC 9899:2011): `Moved` says that the destination holds the
initial source bytes and that nothing else changed. The chunked form is proved to meet it for every
layout and every overlap, to stop exactly at the first bad byte, and to refine the contiguous form
behind `memcpy`. `VmReference` says once more, on the fields of the regions alone, which bytes can be
read and written, what a copy is and what memory holds; the contracts of the moves are stated in these terms
as well.

**The input buffer** (`Bytes`, `AccountLayout`, `ExecutorSpec`, `LayoutReference`, `ExecutorMeaning`,
`Construction`, `AlignedMemory`, `InstructionExecution`). The executor of one instruction lays its input out once and then updates
accounts, instruction and program id in place. The size computed up front, the appending writer, the
in-place writer and the offset reader are proved to agree on one layout, over whole sequences of
operations. How the construction ends is stated for all sizes, also those whose sum wraps. `LayoutReference`
writes the format down byte by byte, with every offset and constant, without the writer or the reader;
`ExecutorMeaning` connects the two, and the executor's methods promise both.

**Owner chains** (`OwnerChain`, `TransactionLoader`). Loading a transaction follows the owner of
each instruction's program up to the native loader, in five hops at most, appends the loader
accounts it meets and records chains of indices. The chains and the list of accounts are proved
right whatever the fetch function answers from call to call (`LoadedOk`). When it answers from a fixed
map, `Walk` and `PlanFor` say exactly what is loaded; their meaning is stated with `OwnerAt`, the j-th
owner above an account, and `LoadsExactly` and `ChainIsOwners` state the whole result with `OwnerAt` alone.

**Smaller pieces** (`ProgramLoader`, `Translation`, `VmMemory`, `ProgramAddress`, `ReturnData`): the sorted list of programs
a batch needs, the overlap test, the search for a program address, and return data.

Conventions. Words are subset types of `int`; wrapping, saturation, checked addition and truncating
casts are written out. `usize` has 64 bits. What libraries do is stated as follows: regions are
disjoint in virtual and in host memory (`WellFormed`); looking an address up yields the region that
holds it, if the access is allowed (`Lookup`); translating a range demands that one region holds all
of it (`Translate`); a raw copy reads everything before it writes (`PtrCopy`). The fetch function is
a function of the number of the call and the key; `ProgramLoader` takes it as a fixed map. A slice operation that would panic is the result `None` of `GetAccount`; an account
index that would panic is a precondition.

What the proofs turned up about the code:
- The size of the input buffer is summed in words that wrap, in a release build. The capacity is right
  exactly when the layout has less than 2^64 bytes (`ComputedIsLayoutExactlyWhenItFits`). One slot of
  2^64 - 10376 bytes asks for a capacity of 8 and then appends a header past it
  (`WrappedTotalOverruns`); for one of 2^64 - 10240 bytes the padding wraps too and a buffer of 144 bytes
  is completed (`WrappedPaddingIsBuilt`). `DoneExactlyWhenWrittenFits` separates the cases for all sizes.
- The overlap test rejects some ranges that do not overlap: an empty range inside another one
  (`OverlapTestMeaning` gives the exact condition). Its callers pass two equal or two non-zero lengths,
  for which it is exact.
- `GetReturnData` writes the data before it looks at the place for the program id, so a failing call
  may already have changed memory.
- The search for a program address never tries bump 0.
- An instruction that is shorter than its place is followed by the tail of an earlier one, under the
  full length (`ExactOnlyWhenFull`).
- `get_account` finds the rent epoch only while the data length a program left in the slot rounds up
  to the same multiple of eight as the slot's size.
- Recorded chains are casts to sixteen bits, exact only for chains within the first 65536 accounts
  (`TruncationIsExact`).

## Model

| member | source | states |
|---|---|---|
| MemoryMap.RegionUnique | src/instruction_executor/syscalls/mem_ops.rs:198-216 | an address is in one region only, so a lookup has one answer |
| MemoryMap.HostInjective | src/instruction_executor/syscalls/mem_ops.rs:129-132 | different mapped addresses have different host bytes, all of them in memory |
| MemoryMap.AccessibleMeaning | src/instruction_executor/syscalls/mem_ops.rs:198-216 | an address can be accessed exactly when some region holds it, a writable one for a store |
| MemoryMap.HostOfMeaning | src/instruction_executor/syscalls/mem_ops.rs:129-132 | the host byte behind an address is as far into the host bytes of its region as the address is into the region |
| MemoryMap.AscendingIsWellFormed | src/instruction_executor/mod.rs:225-239 | regions laid out one after the other, as for a run of a program, meet what is demanded of a memory map |
| MemoryMap.TranslateMeaning | src/instruction_executor/syscalls/mod.rs:39-49 | a range translates exactly when one region holds all of it, a writable one for a store, and its bytes are then consecutive host bytes |
| ChunkIterator.MemoryChunkIterator.New | src/instruction_executor/syscalls/mem_ops.rs:176-196 | an iterator exists exactly when the range does not run past the last address; the error names the range |
| ChunkIterator.MemoryChunkIterator.FindRegion | src/instruction_executor/syscalls/mem_ops.rs:198-216 | a failed lookup is reported for the whole range the iterator was made for |
| ChunkIterator.MemoryChunkIterator.Next | src/instruction_executor/syscalls/mem_ops.rs:219-251 | yields the longest single-region piece at the front and shrinks the range by exactly that; an inaccessible byte ends the iteration with one error |
| ChunkIterator.MemoryChunkIterator.NextBack | src/instruction_executor/syscalls/mem_ops.rs:253-281 | the same from the back |
| ChunkIterator.TilesMakeATiling | src/instruction_executor/syscalls/mem_ops.rs:219-251 | on an accessible range, repeated `next` yields non-empty, adjacent, ascending pieces of one region each that cover the range, no two neighbours from one region |
| ChunkIterator.TilingUnique | src/instruction_executor/syscalls/mem_ops.rs:219-281 | there is only one way to cut a range into such pieces |
| ChunkIterator.TilesFromTheBack | src/instruction_executor/syscalls/mem_ops.rs:253-281 | the piece that `next_back` yields is the last of the pieces of `next` |
| ChunkIterator.SweepTiles | src/instruction_executor/syscalls/mem_ops.rs:219-281 | under any interleaving of `next` and `next_back` (which PullAll ties to the iterator), front pieces, unvisited interval and reversed back pieces tile the range; enough pulls visit all of it |
| ChunkIterator.PullAll | src/instruction_executor/syscalls/mem_ops.rs:219-281 | pulling the iterator itself as a whole schedule says yields exactly the pieces of `Drive` and leaves the bounds where `Drive` stops |
| ChunkIterator.ForwardAndBackwardAgree | src/instruction_executor/syscalls/mem_ops.rs:219-281 | `next_back` alone yields exactly the reverse of what `next` alone yields |
| ChunkedMove.WrappingTestPicksASafeDirection | src/instruction_executor/syscalls/mem_ops.rs:45 | the wrapping comparison holds exactly when the destination starts inside the source (or the source overflows), and the direction it picks never overwrites an unread byte |
| ChunkedMove.MovedUnique | src/instruction_executor/syscalls/mem_ops.rs:39-59 | the specification of a move determines the final memory |
| MemOps.MovedMeaning | src/instruction_executor/syscalls/mem_ops.rs:39-59 | a move copies the bytes behind the source to the bytes behind the destination, both given by the fields of the regions |
| MemOps.CopyUnique | src/instruction_executor/syscalls/mem_ops.rs:39-59 | such a copy determines the final memory |
| MemOps.MovedKeepsReadOnly | src/instruction_executor/syscalls/mem_ops.rs:39-59 | a move to writable bytes changes no host byte behind a read-only region |
| MemOps.WalkMeaning | src/instruction_executor/syscalls/mem_ops.rs:61-163 | what a walk in a safe direction returns and has copied, on the fields of the regions: everything, or exactly the pairs before the first bad one, which names the error |
| ChunkedMove.MovedExtends | src/instruction_executor/syscalls/mem_ops.rs:54-57 | copying a piece next to what has been moved moves the union, if the piece does not read what was overwritten |
| ChunkedMove.MovedOutsideExtends | src/instruction_executor/syscalls/mem_ops.rs:113-139 | in a safe direction the next piece never reads an overwritten byte, forwards and backwards |
| ChunkedMove.PieceHost | src/instruction_executor/syscalls/mem_ops.rs:113-133 | `vm_to_host` never fails on a part of a piece, and yields the consecutive host bytes of that part |
| ChunkedMove.MemoryChunk | src/instruction_executor/syscalls/mem_ops.rs:85-104 | keeps the current piece or fetches the next; runs dry exactly when no byte is left; fails exactly at an inaccessible next byte |
| ChunkedMove.PairStep | src/instruction_executor/syscalls/mem_ops.rs:106-160 | both sides always have the same bytes left, so the loop ends only when both are exhausted; a turn makes progress, finishes a piece of at least one side and moves exactly its bytes |
| ChunkedMove.IterMemoryPairChunks | src/instruction_executor/syscalls/mem_ops.rs:61-163 | processes exactly the good pairs before the first bad one in its direction, reports that pair, and makes at most (source pieces + destination pieces - 1) copies |
| ChunkedMove.FirstBadPair | src/instruction_executor/syscalls/mem_ops.rs:93-100 | a failing fetch is at the end of the longest good prefix (suffix, when reversed), and the source is blamed first |
| MemOps.MemmoveNonContiguous | src/instruction_executor/syscalls/mem_ops.rs:39-163 | Ok exactly when neither range overflows, every source byte lies in a region and every destination byte in a writable one; then the destination holds the initial source bytes and nothing else changed, for every layout and overlap, in at most (source pieces + destination pieces - 1) copies. Otherwise the first bad pair in the direction taken names the error, source first, exactly the pairs before it are copied, and an overflow leaves memory alone. No byte behind a read-only region ever changes |
| MemOps.Memmove | src/instruction_executor/syscalls/mem_ops.rs:11-37 | succeeds exactly when n is 0, or one writable region holds the destination and one region the source; otherwise names the destination or the source and changes nothing; no byte behind a read-only region ever changes |
| MemOps.ChunkedRefinesContiguous | src/instruction_executor/syscalls/mem_ops.rs:11-59 | where the contiguous form succeeds the chunked form does too, with the same final memory and no other |
| MemOps.SyscallMemcpy | src/instruction_executor/syscalls/mem_ops.rs:283-302 | refuses exactly the non-empty overlapping ranges; otherwise succeeds exactly when n is 0, or one writable region holds the destination and one region the source, and then copies the bytes and nothing else; no byte behind a read-only region ever changes |
| Translation.OverlapTestMeaning | src/instruction_executor/syscalls/mod.rs:295-306 | the test accepts only disjoint ranges, and decides disjointness exactly when no empty range lies within the other one |
| Translation.ByteSliceMeaning | src/instruction_executor/syscalls/mod.rs:102-125 | a byte slice translates exactly when it is empty or one region holds it, to the host bytes behind it |
| Translation.SliceCoversItsElements | src/instruction_executor/syscalls/mod.rs:114-124 | the saturating size never lets a slice through that is longer than its region |
| Bytes.WordRoundTrip | src/instruction_executor/mod.rs:275-280 | a word reads back from the little-endian bytes it was written as |
| Bytes.WordIsLittleEndian | src/instruction_executor/mod.rs:275-280 | a word is read with its lowest byte first, digit by digit |
| AccountLayout.SerializedLength | src/instruction_executor/mod.rs:70-88 | the size of the layout is the length of every serialized state |
| AccountLayout.SlotsDisjoint | src/instruction_executor/mod.rs:92-97 | slots follow one another in increasing order without overlap |
| AccountLayout.OffsetsAligned | src/instruction_executor/mod.rs:71-99 | every slot, every data start and the instruction start at a multiple of eight |
| ExecutorMeaning.OffsetsMeaning | src/instruction_executor/mod.rs:92-103 | the first slot is at byte 8, each next one 88 + size + padding + 10240 + 8 bytes further, then come the instruction, after its word of length, and 32 bytes of program id |
| ExecutorMeaning.TotalLength | src/instruction_executor/mod.rs:70-88 | the size of the layout as the sum of these numbers |
| ExecutorMeaning.ImageHolds | src/instruction_executor/mod.rs:361-405 | the bytes of a slot one by one: 255, signer, writable, executable, four zeros, key, owner, lamports, the size of the slot, the data, zeros, the rent epoch |
| LayoutReference.SlotUnique | src/instruction_executor/mod.rs:177-206 | these bytes and those outside the slot determine the buffer |
| AccountLayout.EmitEmit | src/instruction_executor/mod.rs:329-358 | two writes in a row are one write of the joined bytes, appending and in place alike |
| AccountLayout.PutImage | src/instruction_executor/mod.rs:194-205 | writing an image over a slot replaces that entry among all entries |
| AlignedMemory.AlignedBuffer.FillWrite | src/instruction_executor/mod.rs:322-325 | appends copies of a byte exactly when they fit in the capacity |
| InstructionExecution.ComputeSize | src/instruction_executor/mod.rs:70-88 | the loop computes the size of the layout modulo 2^64 |
| Construction.ComputedIsLayoutExactlyWhenItFits | src/instruction_executor/mod.rs:70-90 | the computed size is the size of the layout exactly when that is less than 2^64 |
| Construction.DoneExactlyWhenWrittenFits | src/instruction_executor/mod.rs:70-104 | for all sizes, the construction is completed exactly when what it writes has less than 2^64 bytes, and then fills its capacity to the last byte |
| Construction.Endings | src/instruction_executor/mod.rs:70-104 | for all sizes, how the construction ends, in numbers alone: a fill fails exactly when the capacity ends within the zeros of a slot or of the instruction |
| Construction.FittingLayoutIsBuilt | src/instruction_executor/mod.rs:70-104 | for a layout of less than 2^64 bytes nothing wraps and the construction is completed |
| Construction.WrappedTotalOverruns | src/instruction_executor/mod.rs:70-97 | a size for which the computed capacity is 8 and the first header is appended past it |
| Construction.WrappedPaddingIsBuilt | src/instruction_executor/mod.rs:418-424 | a size whose padding wraps too, so that a buffer far smaller than the layout is completed |
| InstructionExecution.FillWrite | src/instruction_executor/mod.rs:310-327 | fills in place or appends; fails exactly when appending exceeds the capacity |
| InstructionExecution.WriteAll | src/instruction_executor/mod.rs:329-358 | writes in place or appends, and returns the position after the bytes |
| InstructionExecution.WriteAccount | src/instruction_executor/mod.rs:360-405 | in both modes emits the same image: the slot's size as length, and the data zero-padded to it |
| InstructionExecution.WriteEmptyAccount | src/instruction_executor/mod.rs:407-427 | for any capacity, how appending an empty slot ends, and the bytes it appends; Construction.RecordIsImage says they are the image of the all-default account |
| Construction.RecordIsImage | src/instruction_executor/mod.rs:407-427 | unless its padding wraps, the bytes of an empty slot are the image of the all-default account |
| InstructionExecution.WriteSlots | src/instruction_executor/mod.rs:92-97 | for any capacity, how appending all slots ends, with the offset at which each starts |
| InstructionExecution.InstructionExecutor.New | src/instruction_executor/mod.rs:65-136 | for all sizes, ends as `Build` says; when the layout has less than 2^64 bytes the buffer is the serialization of the initial state and fills its capacity exactly: byte by byte, the count, an all-default account in every slot at the offset recorded for it, the instruction size, and zeros |
| InstructionExecution.InstructionExecutor.UpdateProgram | src/instruction_executor/mod.rs:138-157 | the 32 bytes of the program id are the given ones and every other byte is as before; nothing changes when the program does not load |
| InstructionExecution.InstructionExecutor.UpdateInstruction | src/instruction_executor/mod.rs:159-175 | Ok exactly when the instruction is no longer than its place: the word there is the size of the place, the next bytes are the instruction, and every other byte, the old tail included, is as before; an error changes nothing |
| InstructionExecution.InstructionExecutor.UpdateAccount | src/instruction_executor/mod.rs:177-206 | Ok exactly when the data is no longer than the slot: every byte of the slot is as the format says (marker, signer, writable, executable, zeros, key, owner, lamports, slot size, data, zeros, rent epoch) and every other byte is as before; an error changes nothing |
| InstructionExecution.InstructionExecutor.GetAccount | src/instruction_executor/mod.rs:267-308 | for any buffer contents: the fields at their places in the slot, the data by the stored length, and the rent epoch where that length leads; None exactly when it leads out of the buffer |
| InstructionExecution.AccountSizes.ToSeq | src/instruction_executor/account_sizes.rs:6-23 | the sizes are the list itself, or as many copies of one size as the count says |
| ExecutorMeaning.AccountStepMeaning | src/instruction_executor/mod.rs:177-206 | what one account operation does to the bytes, in the terms of the format |
| ExecutorMeaning.InstructionStepMeaning | src/instruction_executor/mod.rs:159-175 | what one instruction operation does to the bytes, in the terms of the format |
| ExecutorMeaning.StateSlot | src/instruction_executor/mod.rs:361-405 | in the bytes of every state each slot holds its entry, in the terms of the format |
| ExecutorMeaning.InitialBytes | src/instruction_executor/mod.rs:90-104 | the bytes of the initial state, in the terms of the format |
| ExecutorMeaning.ReadMeaning | src/instruction_executor/mod.rs:267-308 | what the reader returns for any bytes, in the terms of the format |
| ExecutorSpec.StepRefines | src/instruction_executor/mod.rs:138-206 | one operation on the bytes of a state gives the bytes of the next state |
| ExecutorSpec.RunRefines | src/instruction_executor/mod.rs:138-206 | after any sequence of operations the buffer is the serialization of the abstract state |
| ExecutorSpec.StepKeepsSlot | src/instruction_executor/mod.rs:138-206 | an operation on anything else leaves a slot as it was |
| ExecutorSpec.UpdatesCommute | src/instruction_executor/mod.rs:138-206 | operations on different places can be swapped, whatever the buffer holds |
| ExecutorSpec.LastUpdateWins | src/instruction_executor/mod.rs:177-206 | of two accepted updates of one account only the later one shows |
| ExecutorSpec.RoundTrip | src/instruction_executor/mod.rs:177-308 | an account that was written, with any later operations on other things, reads back with its owner, lamports, rent epoch, the given flag and zero-padded data, whatever the buffer held before |
| ExecutorSpec.ReadImage | src/instruction_executor/mod.rs:267-308 | the reader's offsets are the writer's: an image reads back as its entry |
| ExecutorSpec.ReadState | src/instruction_executor/mod.rs:267-308 | reading account `i` from the bytes of any state gives the fields of its entry |
| ExecutorSpec.DefaultAccountRestoresSlot | src/instruction_executor/mod.rs:407-427 | updating a slot with the default account restores its initial entry |
| ExecutorSpec.ExactOnlyWhenFull | src/instruction_executor/mod.rs:159-206 | a slot holds exactly the given data, and the instruction's place exactly the given instruction, exactly when they fill it |
| ExecutorSpec.RentEpochFoundExactlyWhenLengthsRoundAlike | src/instruction_executor/mod.rs:267-299 | for any contents, the reader looks for the rent epoch where updates put it exactly when the length it found and the slot's size round up alike, and then stays inside the slot |
| ExecutorSpec.RentEpochSurvivesAProgram | src/instruction_executor/mod.rs:267-299 | after an update and any later contents that keep the slot's last eight bytes, a length that rounds up like the slot's size gives back the rent epoch that was written |
| OwnerChain.WalkMeaning | src/message_executor/loader/transaction_loader.rs:54-92 | a walk succeeds exactly when the native loader is among the first owners, and is too deep exactly when those can all be fetched and none is the native loader |
| OwnerChain.WalkPath | src/message_executor/loader/transaction_loader.rs:54-90 | a walk returns the owners below the native loader in order, none of which is the native loader, so the key check can only fire on the first hop |
| OwnerChain.WalkError | src/message_executor/loader/transaction_loader.rs:82-92 | a failing walk is too deep if all its owners could be followed, and lacks a program account otherwise |
| OwnerChain.ResolveMeaning | src/message_executor/loader/transaction_loader.rs:54-93 | a program resolves exactly when it is the native loader or has it among owners 0 to 4; it is too deep exactly when owner 5 can be reached and none of owners 0 to 4 is the native loader |
| OwnerChain.PathMeaning | src/message_executor/loader/transaction_loader.rs:54-90 | the path of a program has exactly the owners between it and the native loader |
| OwnerChain.PlanExistsExactlyWhenAllResolve | src/message_executor/loader/transaction_loader.rs:50-93 | the loaders of a message load exactly when every program is the native loader or has it among the first five owners |
| OwnerChain.TooDeepExactlyWhen | src/message_executor/loader/transaction_loader.rs:50-93 | the call chain is too deep exactly when some program's first five owners can be fetched without meeting the native loader and all instructions before it resolve |
| OwnerChain.PlanLoaders | src/message_executor/loader/transaction_loader.rs:73-89 | at most four accounts are appended per instruction, each on some instruction's path |
| OwnerChain.LoadersMeaning | src/message_executor/loader/transaction_loader.rs:73-89 | the accounts appended are exactly the owners between the programs and the native loader |
| OwnerChain.ChainMeaning | src/message_executor/loader/transaction_loader.rs:51-90 | a chain is empty exactly for the native loader; otherwise one to five entries end at the program and start at an account of the native loader, each later entry owned by the key of the one before |
| OwnerChain.ChainStable | src/message_executor/loader/transaction_loader.rs:73-89 | appending accounts changes no chain recorded before |
| TransactionLoader.LoadMessageAccounts | src/message_executor/loader/transaction_loader.rs:34-46 | whatever is answered, the accounts follow the message's keys; under fixed answers it fails exactly when some key has no account |
| TransactionLoader.ResolveInstruction | src/message_executor/loader/transaction_loader.rs:50-93 | whatever is answered, the chain of one instruction is right and at most four distinct accounts are appended; under fixed answers it is the chain that `Resolve` gives, with its errors |
| TransactionLoader.LoadTransactionAccounts | src/message_executor/loader/transaction_loader.rs:28-109 | whatever is answered: message keys first and in order, then distinct answers, each the owner of an account before it, at most four per instruction, and every chain right in the final accounts, its owners taken from the appended ones. Under fixed answers, for instructions that name the message's own accounts: fails for a key without an account; otherwise succeeds exactly when every program is the native loader or has it among owners 0 to 4; the first program that does not decides the error, too deep exactly when owner 5 can be reached and none of owners 0 to 4 is the native loader; the accounts appended are exactly the owners in between, and every chain lists its program and its owners in order |
| TransactionLoader.LoadMeaning | src/message_executor/loader/transaction_loader.rs:66-108 | whatever is answered, with at most 65536 accounts the recorded sixteen-bit indices themselves are right chains |
| TransactionLoader.ChainOwners | src/message_executor/loader/transaction_loader.rs:51-90 | under fixed answers a right chain has, from its last entry on, the program and its owners 0, 1, 2 and so on, up to the one below the native loader |
| TransactionLoader.ChainOkInMore | src/message_executor/loader/transaction_loader.rs:73-89 | a right chain stays right when accounts are appended, whatever they are |
| TransactionLoader.TruncationIsExact | src/message_executor/loader/transaction_loader.rs:66 | the cast to sixteen bits keeps a chain exactly when all its indices fit |
| ProgramLoader.BinarySearch | src/message_executor/loader/program_loader.rs:48 | finds the key, or the place where it belongs |
| ProgramLoader.LessMeaning | src/message_executor/loader/program_loader.rs:48 | one key is before another exactly when it is smaller in the first byte in which they differ |
| ProgramLoader.InsertKey | src/message_executor/loader/program_loader.rs:48-51 | keeps the list strictly sorted and adds the key unless it is there |
| ProgramLoader.SortedUnique | src/message_executor/loader/program_loader.rs:40-66 | a strictly sorted list is determined by its elements |
| ProgramLoader.CollectMissing | src/message_executor/loader/program_loader.rs:40-66 | fails exactly when a mentioned key has no account; otherwise lists, in increasing order of the first differing byte, exactly the builtins and the mentioned keys whose account a program owner owns |
| ProgramLoader.MissingIsCanonical | src/message_executor/loader/program_loader.rs:40-66 | the list is the same for every order of messages, keys and builtins |
| ProgramLoader.FailureIsCanonical | src/message_executor/loader/program_loader.rs:42-46 | whether the collection fails does not depend on the order either |
| VmMemory.RangesOverlap | src/instruction_executor/syscalls/mod.rs:347-354 | the overlap test on host addresses decides the overlap of the virtual ranges |
| VmMemory.HoldsMeaning | src/instruction_executor/syscalls/mod.rs:102-125 | what memory holds at an address, on the fields of the regions |
| VmMemory.StoredKeepsReadOnly | src/instruction_executor/syscalls/mod.rs:338-357 | storing to writable ranges changes no byte behind a read-only region |
| ProgramAddress.SeedsMeaning | src/instruction_executor/syscalls/mod.rs:276-290 | all seeds are read exactly when each is short enough and in one region, and each is then what memory holds there |
| ProgramAddress.RefIsStored | src/instruction_executor/syscalls/mod.rs:266-286 | entry k of the list of slices has the word at 16k as its address and the word at 16k + 8 as its length, and no others |
| ProgramAddress.FirstBadSeed | src/instruction_executor/syscalls/mod.rs:276-290 | the first seed that cannot be read decides the error |
| ProgramAddress.InputsMeaning | src/instruction_executor/syscalls/mod.rs:258-293 | the inputs are read exactly when the list of slices is in one region and has at most sixteen entries, every slice (its address the word at 16k, its length the word at 16k + 8) is at most 32 bytes long and in one region, and so is the program id; seed k is then what memory holds at its address; the first obstacle is reported |
| ProgramAddress.StoreResult | src/instruction_executor/syscalls/mod.rs:338-357 | stores bump and address and nothing else, or names the first obstacle and changes nothing; no byte behind a read-only region changes |
| ProgramAddress.ResultUnique | src/instruction_executor/syscalls/mod.rs:338-357 | what StoreResult promises determines its result and the final memory |
| ProgramAddress.TryFindProgramAddress | src/instruction_executor/syscalls/mod.rs:308-364 | from the inputs in memory, stores the largest bump in 1..=255 for which the seeds followed by the bump have an address, with that address; returns 1 exactly when there is none; every error leaves memory alone |
| ReturnData.SetReturnData | src/instruction_executor/syscalls/mod.rs:366-400 | succeeds exactly when at most 1024 bytes are named and they are in one region, and then remembers them for the running program; otherwise says which of the two failed and changes nothing |
| ReturnData.GetReturnData | src/instruction_executor/syscalls/mod.rs:402-455 | stores as much of the data as there is room for, then the program id; says exactly what memory holds after each error |

## Left out

- ChunkedMove.IterMemoryPairChunks: the callback is fixed to the byte copy of `memmove_non_contiguous`, its only caller; the loop body is the method PairStep.
- InstructionExecution.WriteAccount: returns a position and no error, because filling is proved never to fail within the room there is; its header is written by two helper methods.
- InstructionExecution.InstructionExecutor.New: wraps as a release build does, where a debug build panics; what follows an append past the capacity is undefined and not modelled; failing to allocate and registering the system calls are not either.
- InstructionExecution.InstructionExecutor.UpdateAccount: like the other updates and GetAccount, is stated for executors whose layout has less than 2^64 bytes; New says when a completed one does not.
- InstructionExecution.InstructionExecutor.UpdateProgram: whether the ELF loader and the compiler accept the program is a parameter; the executable itself is a flag.
- ProgramAddress.TryFindProgramAddress: the derivation of an address from seeds and a program is a parameter; a slice in memory is an address word and a length word.
- MemoryMap.WellFormed: gapped and copy-on-write regions are not modelled; the lookup is a contract, not the library's search.
- Translation.TranslateSlice: alignment and size checks are off in this program's context and not modelled.
- MemoryMap.EbpfError: access violations in the stack are not told apart from others, and region names and frame numbers are dropped.
- ProgramLoader.CollectMissing: the fetch function is a fixed map; the constant criteria and counts stored beside the keys are dropped; binary search stands for the library's.
- TransactionLoader.LoadTransactionAccounts: the statement with `OwnerAt` alone is for instructions that name one of the message's own accounts, as every sanitized message does; for an index into the accounts appended before, the plan of the message says what is loaded.
- OwnerChain.Env: which programs resolve, and to what, is stated for a fixed fetch map; for a fetch function that changes its answers only the shape of the result is; the contents of the instructions account are a parameter.
- Running a program, ELF loading and JIT compilation: library code; a run is any change to the buffer's bytes, which RoundTrip, GetAccount and the rent epoch lemma allow for.
- Program loading and the program cache: dispatch into runtime libraries.
- Logging, abort and panic calls, the clock sysvar, UTF-8 handling, the command line and RPC: input, output and one-line dispatch.
