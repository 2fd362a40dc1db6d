/** The search for a program address: reading its inputs from a program's memory, trying bump seeds,
    and storing the result. */
module ProgramAddress {
  import opened Words
  import opened Accounts
  import opened Bytes
  import opened MemoryMap
  import opened Translation
  import opened VmMemory
  import opened ChunkedMove
  import opened VmReference
  import opened LayoutReference

  const MAX_SEEDS: u64 := 16
  const MAX_SEED_LEN: u64 := 32
  const SEED_REF_SIZE: u64 := 16

  // ----- Inputs

  /** A slice in a program's memory: its address and length, two words. */
  datatype SeedRef = SeedRef(addr: u64, len: u64)

  datatype Inputs = Inputs(seeds: seq<seq<byte>>, programId: Pubkey)

  function SeedRefs(memory: seq<byte>, host: nat, count: nat): (refs: seq<SeedRef>)
    requires host + count * SEED_REF_SIZE <= |memory|
    ensures |refs| == count
  {
    seq(count, k requires 0 <= k < count =>
      SeedRef(WordAt(memory, host + k * SEED_REF_SIZE), WordAt(memory, host + k * SEED_REF_SIZE + 8)))
  }

  function TranslateSeed(m: seq<Region>, memory: seq<byte>, ref: SeedRef): Result<seq<byte>, Error>
    requires WellFormed(m, |memory|)
  {
    if ref.len > MAX_SEED_LEN then Err(BadSeeds)
    else
      match TranslateSlice(m, Load, ref.addr, ref.len, 1)
      case Err(e) => Err(e)
      case Ok(slice) =>
        ByteSliceMeaning(m, |memory|, Load, ref.addr, ref.len);
        Ok(memory[slice.host..slice.host + slice.count])
  }

  /** The seeds in order, or the first error. */
  function TranslateSeeds(m: seq<Region>, memory: seq<byte>, refs: seq<SeedRef>): Result<seq<seq<byte>>, Error>
    requires WellFormed(m, |memory|)
  {
    if refs == [] then Ok([])
    else
      match TranslateSeed(m, memory, refs[0])
      case Err(e) => Err(e)
      case Ok(seed) =>
        match TranslateSeeds(m, memory, refs[1..])
        case Err(e) => Err(e)
        case Ok(rest) => Ok([seed] + rest)
  }

  function TranslateInputs(m: seq<Region>, memory: seq<byte>, seedsAddr: u64, seedsLen: u64, programIdAddr: u64)
    : Result<Inputs, Error>
    requires WellFormed(m, |memory|) && |memory| < TWO_TO_THE_64 - 1
  {
    match TranslateSlice(m, Load, seedsAddr, seedsLen, SEED_REF_SIZE)
    case Err(e) => Err(e)
    case Ok(untranslated) =>
      if untranslated.count > MAX_SEEDS then Err(BadSeeds)
      else
        SliceCoversItsElements(m, |memory|, Load, seedsAddr, seedsLen, SEED_REF_SIZE);
        match TranslateSeeds(m, memory, SeedRefs(memory, untranslated.host, untranslated.count))
        case Err(e) => Err(e)
        case Ok(seeds) =>
          match TranslateSlice(m, Load, programIdAddr, 32, 1)
          case Err(e) => Err(e)
          case Ok(slice) =>
            ByteSliceMeaning(m, |memory|, Load, programIdAddr, 32);
            Ok(Inputs(seeds, KeyAt(memory, slice.host)))
  }

  /** A slice that can be a seed: at most 32 bytes long, and in one region. */
  ghost predicate SeedReadable(m: seq<Region>, addr: u64, len: u64) {
    len <= 32 && (len == 0 || exists q :: q in m && q.vmStart <= addr && addr + len <= q.vmEnd)
  }

  /** The first `count` entries of the list at `a` can be seeds. */
  ghost predicate SeedsReadable(m: seq<Region>, memory: seq<byte>, a: u64, count: nat) {
    forall k: nat, addr: u64, len: u64 ::
      k < count && SliceAt(m, memory, a, k, addr, len) ==> SeedReadable(m, addr, len)
  }

  /** The seed is what memory holds where entry `k` of the list at `a` points. */
  ghost predicate SeedAt(m: seq<Region>, memory: seq<byte>, a: u64, k: nat, seed: seq<byte>) {
    exists addr: u64 :: SliceAt(m, memory, a, k, addr, |seed|) && HoldsBytes(m, memory, addr, seed)
  }

  ghost predicate SeedOk(m: seq<Region>, ref: SeedRef) {
    ref.len <= MAX_SEED_LEN && InOneRegion(m, Load, ref.addr, ref.len)
  }

  /** The seed is what memory holds where the reference points. */
  ghost predicate SeedIs(m: seq<Region>, memory: seq<byte>, ref: SeedRef, seed: seq<byte>) {
    |seed| == ref.len && Holds(m, memory, ref.addr, seed)
  }

  lemma SeedMeaning(m: seq<Region>, memory: seq<byte>, ref: SeedRef)
    requires WellFormed(m, |memory|)
    ensures TranslateSeed(m, memory, ref).Ok? <==> SeedOk(m, ref)
    ensures TranslateSeed(m, memory, ref).Ok? ==> SeedIs(m, memory, ref, TranslateSeed(m, memory, ref).value)
    ensures TranslateSeed(m, memory, ref).Err? ==>
              TranslateSeed(m, memory, ref).error
              == if ref.len > MAX_SEED_LEN then BadSeeds else Ebpf(AccessViolation(Load, ref.addr, ref.len))
  {
    ByteSliceMeaning(m, |memory|, Load, ref.addr, ref.len);
  }

  /** All seeds are read exactly when every reference is short enough and points into one region,
      and each is then what memory holds there. */
  lemma {:induction false} SeedsMeaning(m: seq<Region>, memory: seq<byte>, refs: seq<SeedRef>)
    requires WellFormed(m, |memory|)
    ensures TranslateSeeds(m, memory, refs).Ok? <==> forall k :: 0 <= k < |refs| ==> SeedOk(m, refs[k])
    ensures TranslateSeeds(m, memory, refs).Ok? ==>
              var seeds := TranslateSeeds(m, memory, refs).value;
              |seeds| == |refs| && forall k :: 0 <= k < |refs| ==> SeedIs(m, memory, refs[k], seeds[k])
    decreases |refs|
  {
    hide TranslateSeed, SeedOk, SeedIs;
    if refs != [] {
      SeedMeaning(m, memory, refs[0]);
      SeedsMeaning(m, memory, refs[1..]);
      assert forall k :: 0 < k < |refs| ==> refs[k] == refs[1..][k - 1];
      assert forall k :: 0 <= k < |refs| - 1 ==> refs[1..][k] == refs[k + 1];
    }
  }

  /** The first seed that cannot be read decides the error. */
  lemma {:induction false} FirstBadSeed(m: seq<Region>, memory: seq<byte>, refs: seq<SeedRef>, k: nat)
    requires WellFormed(m, |memory|) && k < |refs| && !SeedOk(m, refs[k])
    requires forall j :: 0 <= j < k ==> SeedOk(m, refs[j])
    ensures TranslateSeeds(m, memory, refs)
         == Err(if refs[k].len > 32 then BadSeeds else Ebpf(AccessViolation(Load, refs[k].addr, refs[k].len)))
    decreases |refs|
  {
    hide TranslateSeed, SeedOk;
    SeedMeaning(m, memory, refs[0]);
    if k > 0 {
      FirstBadSeed(m, memory, refs[1..], k - 1);
    }
  }

  lemma BadSeedAt(m: seq<Region>, memory: seq<byte>, refs: seq<SeedRef>, k: nat)
    requires WellFormed(m, |memory|) && k < |refs| && !SeedReadable(m, refs[k].addr, refs[k].len)
    requires forall j :: 0 <= j < k ==> SeedOk(m, refs[j])
    ensures TranslateSeeds(m, memory, refs)
         == Err(if refs[k].len > 32 then BadSeeds else Ebpf(AccessViolation(Load, refs[k].addr, refs[k].len)))
  {
    FirstBadSeed(m, memory, refs, k);
  }

  lemma WordBehind(m: seq<Region>, memory: seq<byte>, a: int, host: nat)
    requires WellFormed(m, |memory|) && host + 8 <= |memory|
    requires forall x :: a <= x < a + 8 ==> HostOf(m, x) == host + (x - a)
    ensures HoldsWord(m, memory, a, WordAt(memory, host))
  {
    hide Word, HostOf;
    var bytes := memory[host..host + 8];
    HoldsHost(m, memory, a, host, bytes);
    WordIsLittleEndian(bytes, 0);
    assert bytes[0..8] == bytes;
  }

  /** Entry `k` has the address and the length of the reference, and no others. */
  ghost predicate ListedAt(m: seq<Region>, memory: seq<byte>, a: u64, k: nat, ref: SeedRef) {
    && SliceAt(m, memory, a, k, ref.addr, ref.len)
    && forall addr: u64, len: u64 :: SliceAt(m, memory, a, k, addr, len) ==> addr == ref.addr && len == ref.len
  }

  /** The references are the entries of the list at `a`. */
  ghost predicate ListedAs(m: seq<Region>, memory: seq<byte>, a: u64, refs: seq<SeedRef>) {
    forall k :: 0 <= k < |refs| ==> ListedAt(m, memory, a, k, refs[k])
  }

  /** The references that are read are the entries that memory holds. */
  lemma RefIsStored(m: seq<Region>, memory: seq<byte>, seedsAddr: u64, host: nat, count: nat, k: nat)
    requires WellFormed(m, |memory|) && host + count * SEED_REF_SIZE <= |memory| && k < count
    requires forall x :: seedsAddr <= x < seedsAddr + count * SEED_REF_SIZE ==> HostOf(m, x) == host + (x - seedsAddr)
    ensures ListedAt(m, memory, seedsAddr, k, SeedRefs(memory, host, count)[k])
  {
    hide WordAt, HostOf, HoldsWord;
    var ref := SeedRefs(memory, host, count)[k];
    WordBehind(m, memory, seedsAddr + 16 * k, host + 16 * k);
    WordBehind(m, memory, seedsAddr + 16 * k + 8, host + 16 * k + 8);
    forall addr: u64, len: u64 | SliceAt(m, memory, seedsAddr, k, addr, len)
      ensures addr == ref.addr && len == ref.len
    {
      HoldsWordUnique(m, memory, seedsAddr + 16 * k, addr, ref.addr);
      HoldsWordUnique(m, memory, seedsAddr + 16 * k + 8, len, ref.len);
    }
  }

  /** Where the list of seeds lies in one region, its entries are the references that are read. */
  lemma ListIsStored(m: seq<Region>, memory: seq<byte>, seedsAddr: u64, seedsLen: u64)
    requires WellFormed(m, |memory|) && |memory| < TWO_TO_THE_64 - 1 && seedsLen <= 16
    requires TranslateSlice(m, Load, seedsAddr, seedsLen, SEED_REF_SIZE).Ok?
    ensures var host := TranslateSlice(m, Load, seedsAddr, seedsLen, SEED_REF_SIZE).value.host;
            && host + seedsLen * SEED_REF_SIZE <= |memory|
            && ListedAs(m, memory, seedsAddr, SeedRefs(memory, host, seedsLen))
  {
    hide SeedRefs, ListedAt, HostOf;
    SliceCoversItsElements(m, |memory|, Load, seedsAddr, seedsLen, SEED_REF_SIZE);
    if seedsLen > 0 {
      TranslateMeaning(m, |memory|, Load, seedsAddr, seedsLen * SEED_REF_SIZE);
      var host := TranslateSlice(m, Load, seedsAddr, seedsLen, SEED_REF_SIZE).value.host;
      forall k | 0 <= k < seedsLen
        ensures ListedAt(m, memory, seedsAddr, k, SeedRefs(memory, host, seedsLen)[k])
      {
        RefIsStored(m, memory, seedsAddr, host, seedsLen, k);
      }
    }
  }

  lemma ReadablePrefix(m: seq<Region>, memory: seq<byte>, seedsAddr: u64, refs: seq<SeedRef>, count: nat)
    requires ListedAs(m, memory, seedsAddr, refs) && count <= |refs|
    ensures SeedsReadable(m, memory, seedsAddr, count) <==> forall k :: 0 <= k < count ==> SeedOk(m, refs[k])
  {
    hide SliceAt;
    if SeedsReadable(m, memory, seedsAddr, count) {
      forall k | 0 <= k < count
        ensures SeedOk(m, refs[k])
      {
        assert ListedAt(m, memory, seedsAddr, k, refs[k]);
      }
    }
    if forall k :: 0 <= k < count ==> SeedOk(m, refs[k]) {
      forall k: nat, addr: u64, len: u64 | k < count && SliceAt(m, memory, seedsAddr, k, addr, len)
        ensures SeedReadable(m, addr, len)
      {
        assert ListedAt(m, memory, seedsAddr, k, refs[k]) && SeedOk(m, refs[k]);
      }
    }
  }

  /** The list in terms of memory alone. */
  lemma ListMeaning(m: seq<Region>, memory: seq<byte>, seedsAddr: u64, refs: seq<SeedRef>)
    requires WellFormed(m, |memory|)
    requires ListedAs(m, memory, seedsAddr, refs)
    ensures var seeds := TranslateSeeds(m, memory, refs);
            && (seeds.Ok? <==> SeedsReadable(m, memory, seedsAddr, |refs|))
            && (seeds.Ok? ==>
                  && |seeds.value| == |refs|
                  && forall k :: 0 <= k < |refs| ==> SeedAt(m, memory, seedsAddr, k, seeds.value[k]))
            && forall k: nat, addr: u64, len: u64 ::
                 && k < |refs| && SliceAt(m, memory, seedsAddr, k, addr, len) && !SeedReadable(m, addr, len)
                 && SeedsReadable(m, memory, seedsAddr, k) ==>
                   seeds == Err(if len > 32 then BadSeeds else Ebpf(AccessViolation(Load, addr, len)))
  {
    hide SliceAt, TranslateSeeds, HoldsBytes, Holds, SeedsReadable, SeedOk;
    SeedsMeaning(m, memory, refs);
    ReadablePrefix(m, memory, seedsAddr, refs, |refs|);
    var seeds := TranslateSeeds(m, memory, refs);
    if seeds.Ok? {
      forall k | 0 <= k < |refs|
        ensures SeedAt(m, memory, seedsAddr, k, seeds.value[k])
      {
        assert ListedAt(m, memory, seedsAddr, k, refs[k]) && SeedIs(m, memory, refs[k], seeds.value[k]);
        HoldsMeaning(m, memory, refs[k].addr, seeds.value[k]);
      }
    }
    forall k: nat, addr: u64, len: u64
      | && k < |refs| && SliceAt(m, memory, seedsAddr, k, addr, len) && !SeedReadable(m, addr, len)
        && SeedsReadable(m, memory, seedsAddr, k)
      ensures seeds == Err(if len > 32 then BadSeeds else Ebpf(AccessViolation(Load, addr, len)))
    {
      assert ListedAt(m, memory, seedsAddr, k, refs[k]);
      ReadablePrefix(m, memory, seedsAddr, refs, k);
      BadSeedAt(m, memory, refs, k);
    }
  }

  /** The inputs are read exactly when the list of slices is in one region and has at most sixteen
      entries, every slice is at most 32 bytes long and in one region, and so is the program id.
      Seed `k` is then what memory holds where entry `k` points. The first obstacle is reported. */
  lemma InputsMeaning(m: seq<Region>, memory: seq<byte>, seedsAddr: u64, seedsLen: u64, programIdAddr: u64)
    requires WellFormed(m, |memory|) && |memory| < TWO_TO_THE_64 - 1
    ensures var inputs := TranslateInputs(m, memory, seedsAddr, seedsLen, programIdAddr);
            var total := if 16 * seedsLen < 0x1_0000_0000_0000_0000 then 16 * seedsLen else 0xFFFF_FFFF_FFFF_FFFF;
            var listed := seedsLen == 0 || exists q :: q in m && q.vmStart <= seedsAddr && seedsAddr + total <= q.vmEnd;
            var named := exists q :: q in m && q.vmStart <= programIdAddr && programIdAddr + 32 <= q.vmEnd;
            && (inputs.Ok? <==> listed && seedsLen <= 16 && SeedsReadable(m, memory, seedsAddr, seedsLen) && named)
            && (inputs.Ok? ==>
                  && |inputs.value.seeds| == seedsLen
                  && (forall k :: 0 <= k < seedsLen ==> SeedAt(m, memory, seedsAddr, k, inputs.value.seeds[k]))
                  && HoldsBytes(m, memory, programIdAddr, inputs.value.programId))
            && (!listed ==> inputs == Err(Ebpf(AccessViolation(Load, seedsAddr, total))))
            && (listed && seedsLen > 16 ==> inputs == Err(BadSeeds))
            && (listed && seedsLen <= 16 ==>
                  && (forall k: nat, addr: u64, len: u64 ::
                        && k < seedsLen && SliceAt(m, memory, seedsAddr, k, addr, len) && !SeedReadable(m, addr, len)
                        && SeedsReadable(m, memory, seedsAddr, k) ==>
                          inputs == Err(if len > 32 then BadSeeds else Ebpf(AccessViolation(Load, addr, len))))
                  && (SeedsReadable(m, memory, seedsAddr, seedsLen) && !named ==>
                        inputs == Err(Ebpf(AccessViolation(Load, programIdAddr, 32)))))
  {
    hide SeedsReadable, SeedAt, SliceAt, TranslateSeeds, SeedRefs, SeedReadable, HoldsBytes;
    ByteSliceMeaning(m, |memory|, Load, programIdAddr, 32);
    if seedsLen > 0 {
      TranslateMeaning(m, |memory|, Load, seedsAddr, SaturatingMul(seedsLen, SEED_REF_SIZE));
    }
    var list := TranslateSlice(m, Load, seedsAddr, seedsLen, SEED_REF_SIZE);
    if list.Ok? && seedsLen <= 16 {
      ListIsStored(m, memory, seedsAddr, seedsLen);
      var refs := SeedRefs(memory, list.value.host, seedsLen);
      ListMeaning(m, memory, seedsAddr, refs);
      var inputs := TranslateInputs(m, memory, seedsAddr, seedsLen, programIdAddr);
      if inputs.Ok? {
        HoldsMeaning(m, memory, programIdAddr, inputs.value.programId);
      }
    }
  }

  // ----- The search

  /** The derivation of an address from seeds and a program, which not all seeds have. */
  type Derivation = (seq<seq<byte>>, Pubkey) -> Option<Pubkey>

  /** Storing the result: the bump's place is looked at first, then the address's, then whether they
      overlap; only then is anything written. */
  ghost predicate StoredResult(m: seq<Region>, before: seq<byte>, after: seq<byte>, bump: byte, address: Pubkey,
                               addressAddr: u64, bumpSeedAddr: u64, r: Result<u64, Error>)
  {
    if !InOneRegion(m, Store, bumpSeedAddr, 1) then
      r == Err(Ebpf(AccessViolation(Store, bumpSeedAddr, 1))) && after == before
    else if !InOneRegion(m, Store, addressAddr, 32) then
      r == Err(Ebpf(AccessViolation(Store, addressAddr, 32))) && after == before
    else if addressAddr <= bumpSeedAddr < addressAddr + 32 then
      r == Err(CopyOverlapping) && after == before
    else
      && r == Ok(0) && |after| == |before|
      && Holds(m, after, bumpSeedAddr, [bump]) && Holds(m, after, addressAddr, address)
      && forall h :: 0 <= h < |before| && !Behind(m, bumpSeedAddr, 1, h) && !Behind(m, addressAddr, 32, h) ==>
           after[h] == before[h]
  }

  /** The result and the final memory are determined. */
  lemma ResultUnique(m: seq<Region>, before: seq<byte>, after1: seq<byte>, after2: seq<byte>, bump: byte,
                     address: Pubkey, addressAddr: u64, bumpSeedAddr: u64, r1: Result<u64, Error>,
                     r2: Result<u64, Error>)
    requires StoredResult(m, before, after1, bump, address, addressAddr, bumpSeedAddr, r1)
    requires StoredResult(m, before, after2, bump, address, addressAddr, bumpSeedAddr, r2)
    ensures after1 == after2 && r1 == r2
  {
    if r1.Ok? {
      forall h | 0 <= h < |before|
        ensures after1[h] == after2[h]
      {
        if Behind(m, bumpSeedAddr, 1, h) {
          assert HostAt(m, bumpSeedAddr, 0) == h;
          assert after1[h] == [bump][0] && after2[h] == [bump][0];
        } else if Behind(m, addressAddr, 32, h) {
          var k :| 0 <= k < 32 && HostAt(m, addressAddr, k) == h;
          assert after1[h] == address[k] && after2[h] == address[k];
        }
      }
    }
  }

  method StoreResult(m: seq<Region>, mem: array<byte>, bump: byte, address: Pubkey,
                     addressAddr: u64, bumpSeedAddr: u64)
    returns (r: Result<u64, Error>)
    requires WellFormed(m, mem.Length) && mem.Length < TWO_TO_THE_64
    modifies mem
    ensures StoredResult(m, old(mem[..]), mem[..], bump, address, addressAddr, bumpSeedAddr, r)
    ensures ReadOnlyKept(m, old(mem[..]), mem[..])
  {
    hide Put, TranslateSlice, IsNonoverlapping, InOneRegion, Accessible;
    ghost var before := mem[..];
    ByteSliceMeaning(m, mem.Length, Store, bumpSeedAddr, 1);
    ByteSliceMeaning(m, mem.Length, Store, addressAddr, 32);
    var bumpSlice :- TranslateSlice(m, Store, bumpSeedAddr, 1, 1);
    var addressSlice :- TranslateSlice(m, Store, addressAddr, 32, 1);
    RangesOverlap(m, mem.Length, bumpSeedAddr, 1, addressAddr, 32, bumpSlice.host, addressSlice.host);
    if !IsNonoverlapping(bumpSlice.host, 1, addressSlice.host, 32) {
      return Err(CopyOverlapping);
    }
    PatchStores(m, mem[..], bumpSeedAddr, [bump], bumpSlice.host);
    CopyFromSlice(mem, bumpSlice.host, [bump]);
    PatchStores(m, mem[..], addressAddr, address, addressSlice.host);
    CopyFromSlice(mem, addressSlice.host, address);
    StoredKeepsReadOnly(m, before, mem[..], bumpSeedAddr, 1, addressAddr, 32);
    return Ok(0);
  }

  /** Tries the bump seeds from 255 down to 1. The largest bump that has an address is stored with
      that address; bump 0 is never tried, and a search that finds nothing writes nothing. */
  method TryFindProgramAddress(m: seq<Region>, mem: array<byte>, derive: Derivation, seedsAddr: u64, seedsLen: u64,
                               programIdAddr: u64, addressAddr: u64, bumpSeedAddr: u64)
    returns (r: Result<u64, Error>, ghost found: byte)
    requires WellFormed(m, mem.Length) && mem.Length < TWO_TO_THE_64 - 1
    modifies mem
    ensures match TranslateInputs(m, old(mem[..]), seedsAddr, seedsLen, programIdAddr)
            case Err(e) => r == Err(e) && mem[..] == old(mem[..])
            case Ok(inputs) =>
              && (forall b: byte :: found < b ==> derive(inputs.seeds + [[b]], inputs.programId).None?)
              && (found == 0 ==> r == Ok(1) && mem[..] == old(mem[..]))
              && (found > 0 ==>
                    && derive(inputs.seeds + [[found]], inputs.programId).Some?
                    && var address := derive(inputs.seeds + [[found]], inputs.programId).value;
                    StoredResult(m, old(mem[..]), mem[..], found, address, addressAddr, bumpSeedAddr, r))
    ensures ReadOnlyKept(m, old(mem[..]), mem[..])
  {
    hide TranslateInputs, StoredResult;
    found := 0;
    var inputs :- TranslateInputs(m, mem[..], seedsAddr, seedsLen, programIdAddr);
    var bumpSeed: byte := 255;
    for i := 0 to 255
      invariant bumpSeed == 255 - i && mem[..] == old(mem[..])
      invariant forall b: byte :: bumpSeed < b ==> derive(inputs.seeds + [[b]], inputs.programId).None?
    {
      var derived := derive(inputs.seeds + [[bumpSeed]], inputs.programId);
      if derived.Some? {
        found := bumpSeed;
        r := StoreResult(m, mem, bumpSeed, derived.value, addressAddr, bumpSeedAddr);
        return r, found;
      }
      bumpSeed := SaturatingSub(bumpSeed, 1);
    }
    return Ok(1), 0;
  }
}
