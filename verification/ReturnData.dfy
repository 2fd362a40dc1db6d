/** The return data of a program, and the system calls that set and get it. */
module ReturnData {
  import opened Words
  import opened Accounts
  import opened Bytes
  import opened MemoryMap
  import opened Translation
  import opened VmMemory
  import opened VmReference

  const MAX_RETURN_DATA: u64 := 1024

  class InvokeContext {
    var programId: Pubkey
    var returnProgram: Pubkey
    var returnData: seq<byte>

    constructor ()
      ensures programId == returnProgram == DefaultPubkey() && returnData == []
    {
      programId, returnProgram, returnData := DefaultPubkey(), DefaultPubkey(), [];
    }
  }

  /** Remembers what the program's memory holds at `addr`, for the program that is running. */
  method SetReturnData(context: InvokeContext, m: seq<Region>, mem: array<byte>, addr: u64, len: u64)
    returns (r: Result<u64, Error>)
    requires WellFormed(m, mem.Length)
    modifies context`returnProgram, context`returnData
    ensures r.Ok? <==> len <= 1024 && (len == 0 || exists q :: q in m && q.vmStart <= addr && addr + len <= q.vmEnd)
    ensures r.Err? ==>
              r.error == if 1024 < len then ReturnDataTooLarge(len, 1024) else Ebpf(AccessViolation(Load, addr, len))
    ensures r.Ok? ==>
              && r.value == 0 && context.returnProgram == context.programId
              && |context.returnData| == len && HoldsBytes(m, mem[..], addr, context.returnData)
    ensures r.Err? ==> unchanged(context)
  {
    if len > MAX_RETURN_DATA {
      return Err(ReturnDataTooLarge(len, MAX_RETURN_DATA));
    }
    ByteSliceMeaning(m, mem.Length, Load, addr, len);
    var returnData: seq<byte> := [];
    if len != 0 {
      var slice :- TranslateSlice(m, Load, addr, len, 1);
      returnData := mem[slice.host..slice.host + len];
      HoldsHost(m, mem[..], addr, slice.host, returnData);
    }
    context.returnProgram, context.returnData := context.programId, returnData;
    return Ok(0);
  }

  /** Gives a program as much of the return data as it has room for, and the id of the program that
      set it. The data is written before the place for the id is looked at: when that place is
      not writable, or overlaps the data, the call fails with the data already written. */
  method GetReturnData(context: InvokeContext, m: seq<Region>, mem: array<byte>,
                       addr: u64, length: u64, programIdAddr: u64)
    returns (r: Result<u64, Error>)
    requires WellFormed(m, mem.Length) && mem.Length < TWO_TO_THE_64 && |context.returnData| <= 1024
    modifies mem
    ensures var n := Min(length, |context.returnData|);
            var data := context.returnData[..n];
            if n == 0 then r == Ok(|context.returnData|) && mem[..] == old(mem[..])
            else if !InOneRegion(m, Store, addr, n) then
              r == Err(Ebpf(AccessViolation(Store, addr, n))) && mem[..] == old(mem[..])
            else if !InOneRegion(m, Store, programIdAddr, 32) then
              r == Err(Ebpf(AccessViolation(Store, programIdAddr, 32))) && Stored(m, old(mem[..]), mem[..], addr, data)
            else if addr < programIdAddr + 32 && programIdAddr < addr + n then
              r == Err(CopyOverlapping) && Stored(m, old(mem[..]), mem[..], addr, data)
            else
              && r == Ok(|context.returnData|)
              && Holds(m, mem[..], addr, data) && Holds(m, mem[..], programIdAddr, context.returnProgram)
              && forall h :: 0 <= h < mem.Length && !Behind(m, addr, n, h) && !Behind(m, programIdAddr, 32, h) ==>
                   mem[..][h] == old(mem[..])[h]
    ensures ReadOnlyKept(m, old(mem[..]), mem[..])
  {
    hide Put, TranslateSlice, IsNonoverlapping, InOneRegion, Accessible;
    var n: u64 := if length <= |context.returnData| then length else |context.returnData|;
    if n != 0 {
      ghost var before := mem[..];
      ByteSliceMeaning(m, mem.Length, Store, addr, n);
      ByteSliceMeaning(m, mem.Length, Store, programIdAddr, 32);
      var toSlice :- TranslateSlice(m, Store, addr, n, 1);
      PatchStores(m, mem[..], addr, context.returnData[..n], toSlice.host);
      CopyFromSlice(mem, toSlice.host, context.returnData[..n]);
      StoredKeepsReadOnly(m, before, mem[..], addr, n, addr, n);
      var programIdSlice :- TranslateSlice(m, Store, programIdAddr, 32, 1);
      RangesOverlap(m, mem.Length, addr, n, programIdAddr, 32, toSlice.host, programIdSlice.host);
      if !IsNonoverlapping(toSlice.host, n, programIdSlice.host, 32) {
        return Err(CopyOverlapping);
      }
      PatchStores(m, mem[..], programIdAddr, context.returnProgram, programIdSlice.host);
      CopyFromSlice(mem, programIdSlice.host, context.returnProgram);
      StoredKeepsReadOnly(m, before, mem[..], addr, n, programIdAddr, 32);
    }
    // all of the data counts, however little there was room for
    return Ok(|context.returnData|);
  }
}
