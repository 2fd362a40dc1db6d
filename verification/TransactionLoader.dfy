/** Loading the accounts of a transaction: the message's own accounts, and for every instruction
    the chain of owners from its program up to the native loader. */
module TransactionLoader {
  import opened Words
  import opened Accounts
  import opened OwnerChain
  import opened Sequences

  /** A cast to sixteen bits drops the high bits. */
  function Truncate(i: nat): u16 {
    i % 0x1_0000
  }

  function Truncated(chain: seq<nat>): seq<u16> {
    seq(|chain|, i requires 0 <= i < |chain| => Truncate(chain[i]))
  }

  datatype LoadedTransaction = LoadedTransaction(accounts: seq<Loaded>, programIndices: seq<seq<u16>>)

  function Position(entries: seq<Loaded>, key: Pubkey): (r: Option<nat>)
    ensures match r
            case None => forall i :: 0 <= i < |entries| ==> entries[i].key != key
            case Some(p) => p < |entries| && entries[p].key == key && forall i :: 0 <= i < p ==> entries[i].key != key
  {
    if entries == [] then None
    else if entries[0].key == key then Some(0)
    else match Position(entries[1..], key)
      case None => None
      case Some(p) => Some(p + 1)
  }

  lemma PositionIsIndexOf(env: Env, loaders: seq<Pubkey>, key: Pubkey)
    requires Fetched(env, loaders)
    ensures Position(LoaderAccounts(env, loaders), key)
         == if key in loaders then Some(IndexOf(loaders, key)) else None
  {
    hide IndexOf, Position;
    var entries := LoaderAccounts(env, loaders);
    assert forall i :: 0 <= i < |loaders| ==> entries[i].key == loaders[i];
  }

  // ----- Fetching

  /** The fetch function may answer differently every time: this is the answer to the call with the
      given number. */
  type Fetch = (nat, Pubkey) -> Option<Account>

  /** All answers come from one fixed map. */
  ghost predicate FetchesFrom(g: Fetch, fetch: map<Pubkey, Account>) {
    forall call, key :: g(call, key) == if key in fetch then Some(fetch[key]) else None
  }

  /** The account is an answer that the fetch function gave for its key. */
  ghost predicate Answered(g: Fetch, entry: Loaded) {
    exists call :: g(call, entry.key) == Some(entry.account)
  }

  /** Account `i` is the owner of an account before it. */
  ghost predicate OwnsEarlier(accounts: seq<Loaded>, i: nat)
    requires i < |accounts|
  {
    exists k :: 0 <= k < i && accounts[k].account.owner == accounts[i].key
  }

  /** Loader accounts follow the first `start` accounts: answers of the fetch function, under
      distinct keys, each the owner of an account before it. */
  ghost predicate Suffixed(g: Fetch, accounts: seq<Loaded>, start: nat) {
    && start <= |accounts|
    && (forall i :: start <= i < |accounts| ==> OwnsEarlier(accounts, i))
    && (forall i :: start <= i < |accounts| ==> Answered(g, accounts[i]))
    && (forall i, j :: start <= i < j < |accounts| ==> accounts[i].key != accounts[j].key)
  }

  // ----- Chains, whatever the answers

  /** Some hops into a walk: `chain` has the entries recorded so far, and `index` is the account
      that comes next, the owner of the first of them. */
  ghost predicate ChainSoFar(nativeLoader: Pubkey, accounts: seq<Loaded>, program: nat, index: nat, chain: seq<nat>) {
    if chain == [] then index == program
    else
      && ChainLinked(accounts, program, chain)
      && accounts[program].key != nativeLoader
      && index < |accounts| && accounts[index].key != nativeLoader
      && accounts[index].key == accounts[chain[0]].account.owner
  }

  lemma ChainPush(nativeLoader: Pubkey, accounts: seq<Loaded>, program: nat, index: nat, chain: seq<nat>)
    requires ChainSoFar(nativeLoader, accounts, program, index, chain)
    requires index < |accounts| && accounts[index].key != nativeLoader
    ensures ChainLinked(accounts, program, [index] + chain) && accounts[program].key != nativeLoader
  {
    var longer := [index] + chain;
    assert forall i :: 0 < i < |longer| ==> longer[i] == chain[i - 1];
  }

  lemma LinkedInMore(accounts: seq<Loaded>, more: seq<Loaded>, program: nat, chain: seq<nat>)
    requires accounts <= more && ChainLinked(accounts, program, chain)
    ensures ChainLinked(more, program, chain)
  {
  }

  /** Appending accounts keeps the meaning of a chain. */
  lemma ChainOkInMore(nativeLoader: Pubkey, accounts: seq<Loaded>, more: seq<Loaded>, program: nat, chain: seq<nat>)
    requires accounts <= more && ChainOk(nativeLoader, accounts, program, chain)
    ensures ChainOk(nativeLoader, more, program, chain)
  {
    if chain != [] {
      LinkedInMore(accounts, more, program, chain);
    }
  }

  /** The next hop: the current entry is recorded, and its owner is the account at `index'`. */
  lemma ChainHop(nativeLoader: Pubkey, accounts: seq<Loaded>, accounts': seq<Loaded>, program: nat,
                 index: nat, chain: seq<nat>, index': nat)
    requires ChainSoFar(nativeLoader, accounts, program, index, chain) && accounts <= accounts'
    requires index < |accounts| && accounts[index].key != nativeLoader
    requires index' < |accounts'| && accounts'[index'].key == accounts[index].account.owner != nativeLoader
    ensures ChainSoFar(nativeLoader, accounts', program, index', [index] + chain)
  {
    ChainPush(nativeLoader, accounts, program, index, chain);
    LinkedInMore(accounts, accounts', program, [index] + chain);
  }

  /** All entries of a chain but the program itself are loader accounts. */
  ghost predicate OwnersAppended(start: nat, chain: seq<nat>) {
    forall i :: 0 <= i < |chain| - 1 ==> start <= chain[i]
  }

  // ----- The walk of one instruction, when the answers are fixed

  /** A walk that went past `done` before it came to `rest`. */
  function Past(done: seq<Pubkey>, rest: Result<seq<Pubkey>, TransactionError>): Result<seq<Pubkey>, TransactionError> {
    match rest
    case Ok(path) => Ok(done + path)
    case Err(e) => Err(e)
  }

  lemma PastNothing(rest: Result<seq<Pubkey>, TransactionError>)
    ensures Past([], rest) == rest
  {
    if rest.Ok? {
      assert [] + rest.value == rest.value;
    }
  }

  lemma PastOneMore(env: Env, done: seq<Pubkey>, owner: Pubkey, hops: nat)
    requires 0 < hops && owner in env.fetch && owner != env.ids.nativeLoader
    ensures Past(done, Walk(env, owner, hops)) == Past(done + [owner], Walk(env, env.fetch[owner].owner, hops - 1))
  {
    var rest := Walk(env, env.fetch[owner].owner, hops - 1);
    if rest.Ok? {
      assert done + ([owner] + rest.value) == (done + [owner]) + rest.value;
    }
  }

  /** The state of the walk after `|done|` owners: `all` loaders are appended, `index` is where the
      last owner (or the program) is, and `chain` has the indices before it. */
  ghost predicate Walking(env: Env, own: seq<Loaded>, loaders: seq<Pubkey>, program: nat, done: seq<Pubkey>,
                          accounts: seq<Loaded>, index: nat, chain: seq<nat>)
  {
    && (forall i :: 0 <= i < |done| ==> done[i] in env.fetch && done[i] != env.ids.nativeLoader)
    && var all := AddNew(loaders, done);
    && Fetched(env, all) && accounts == own + LoaderAccounts(env, all)
    && var nodes := Nodes(|own|, program, all, done);
    && index == nodes[|done|] && chain == Reversed(nodes[..|done|])
  }

  lemma WalkingStart(env: Env, own: seq<Loaded>, loaders: seq<Pubkey>, program: nat)
    requires Fetched(env, loaders)
    ensures Walking(env, own, loaders, program, [], own + LoaderAccounts(env, loaders), program, [])
    ensures AddNew(loaders, []) == loaders
  {
  }

  /** The indices of a walk, once its current node is recorded too. */
  lemma WalkingChain(env: Env, own: seq<Loaded>, loaders: seq<Pubkey>, program: nat, done: seq<Pubkey>,
                     accounts: seq<Loaded>, index: nat, chain: seq<nat>)
    requires Walking(env, own, loaders, program, done, accounts, index, chain)
    ensures [index] + chain == Reversed(Nodes(|own|, program, AddNew(loaders, done), done))
  {
    hide AddNew, IndexOf, Reversed;
    var nodes := Nodes(|own|, program, AddNew(loaders, done), done);
    assert nodes == nodes[..|done|] + [index];
    ReversedSnoc(nodes[..|done|], index);
  }

  /** Appending an owner to the path keeps the nodes that were there. */
  lemma NodesGrow(start: nat, program: nat, all: seq<Pubkey>, all': seq<Pubkey>, done: seq<Pubkey>, owner: Pubkey)
    requires all <= all' && forall k :: k in done ==> k in all
    ensures var nodes' := Nodes(start, program, all', done + [owner]);
            && nodes'[..|done| + 1] == Nodes(start, program, all, done)
            && nodes'[|done| + 1] == start + IndexOf(all', owner)
  {
    hide IndexOf;
    forall i | 0 <= i < |done|
      ensures IndexOf(all', done[i]) == IndexOf(all, done[i])
    {
      assert done[i] in done;
      IndexOfStable(all, all', done[i]);
    }
  }

  lemma AppendLoader(env: Env, all: seq<Pubkey>, owner: Pubkey)
    requires Fetched(env, all) && owner in env.fetch && owner !in all
    ensures Fetched(env, all + [owner]) && IndexOf(all + [owner], owner) == |all|
    ensures LoaderAccounts(env, all + [owner]) == LoaderAccounts(env, all) + [Loaded(owner, env.fetch[owner])]
    ensures |LoaderAccounts(env, all)| == |all|
  {
    hide IndexOf;
    assert (all + [owner])[|all|] == owner;
  }

  lemma AddOne(env: Env, loaders: seq<Pubkey>, done: seq<Pubkey>, owner: Pubkey)
    requires Fetched(env, loaders) && (forall i :: 0 <= i < |done| ==> done[i] in env.fetch) && owner in env.fetch
    ensures var all, all' := AddNew(loaders, done), AddNew(loaders, done + [owner]);
            && Fetched(env, all) && (forall k :: k in done ==> k in all)
            && all' == if owner in all then all else all + [owner]
  {
    assert (done + [owner])[..|done|] == done;
    AddNewMeaning(env, loaders, done);
  }

  /** The accounts once `owner` has been looked for, and where it is in them. */
  function AccountsWith(env: Env, all: seq<Pubkey>, accounts: seq<Loaded>, owner: Pubkey): seq<Loaded>
    requires owner in env.fetch
  {
    if owner in all then accounts else accounts + [Loaded(owner, env.fetch[owner])]
  }

  function IndexWith(all: seq<Pubkey>, start: nat, accounts: seq<Loaded>, owner: Pubkey): nat {
    if owner in all then start + IndexOf(all, owner) else |accounts|
  }

  lemma AccountsWithOwner(env: Env, own: seq<Loaded>, all: seq<Pubkey>, owner: Pubkey)
    requires Fetched(env, all) && owner in env.fetch
    ensures var accounts := own + LoaderAccounts(env, all);
            var all' := if owner in all then all else all + [owner];
            && Fetched(env, all')
            && AccountsWith(env, all, accounts, owner) == own + LoaderAccounts(env, all')
            && IndexWith(all, |own|, accounts, owner) == |own| + IndexOf(all', owner)
  {
    hide IndexOf, LoaderAccounts, Fetched;
    if owner !in all {
      AppendLoader(env, all, owner);
      assert own + (LoaderAccounts(env, all) + [Loaded(owner, env.fetch[owner])])
          == (own + LoaderAccounts(env, all)) + [Loaded(owner, env.fetch[owner])];
    }
  }

  /** One more owner: where it is, and what the walk looks like from there. */
  lemma WalkingStep(env: Env, own: seq<Loaded>, loaders: seq<Pubkey>, program: nat, done: seq<Pubkey>,
                    accounts: seq<Loaded>, index: nat, chain: seq<nat>, owner: Pubkey)
    requires Fetched(env, loaders)
    requires Walking(env, own, loaders, program, done, accounts, index, chain)
    requires owner in env.fetch && owner != env.ids.nativeLoader
    ensures var all := AddNew(loaders, done);
            Walking(env, own, loaders, program, done + [owner], AccountsWith(env, all, accounts, owner),
                    IndexWith(all, |own|, accounts, owner), [index] + chain)
  {
    hide IndexOf, Reversed, AddNew, Nodes, LoaderAccounts, Fetched, AccountsWith, IndexWith;
    AddOne(env, loaders, done, owner);
    var all, all', done' := AddNew(loaders, done), AddNew(loaders, done + [owner]), done + [owner];
    AccountsWithOwner(env, own, all, owner);
    WalkingChain(env, own, loaders, program, done, accounts, index, chain);
    NodesGrow(|own|, program, all, all', done, owner);
    assert |done'| == |done| + 1;
    assert [index] + chain == Reversed(Nodes(|own|, program, all', done')[..|done'|]);
  }

  lemma TruncatedEntries(chain: seq<nat>)
    ensures |Truncated(chain)| == |chain|
    ensures forall j :: 0 <= j < |chain| ==> Truncated(chain)[j] == chain[j] % 0x1_0000
  {
  }

  lemma TruncatedCons(index: nat, chain: seq<nat>)
    ensures Truncated([index] + chain) == [Truncate(index)] + Truncated(chain)
  {
  }

  // ----- The walk of one instruction

  /** The answers are fixed, and the accounts are the message's own and those of `loaders`. */
  ghost predicate FixedStart(g: Fetch, env: Env, start: seq<Loaded>, builtinsStart: nat,
                             own: seq<Loaded>, loaders: seq<Pubkey>)
  {
    && FetchesFrom(g, env.fetch) && Fetched(env, loaders)
    && start == own + LoaderAccounts(env, loaders) && builtinsStart == |own|
  }

  /** What fixed answers lead to: the program resolves as `Resolve` says, with the loaders on its
      path appended and their chain recorded. */
  ghost predicate ResolvedAs(env: Env, start: seq<Loaded>, program: nat, own: seq<Loaded>, loaders: seq<Pubkey>,
                             r: Result<seq<u16>, TransactionError>, accounts: seq<Loaded>, exact: seq<nat>)
  {
    match Resolve(env, ProgramAt(start, program))
    case Err(e) => r == Err(e)
    case Ok(route) =>
      var all := AddNew(loaders, PathOf(route));
      && Fetched(env, all) && accounts == own + LoaderAccounts(env, all)
      && exact == Chain(|own|, program, all, route) && r == Ok(Truncated(exact))
  }

  /** Invariant of the walk under fixed answers, after `|done|` owners. */
  ghost predicate FixedWalk(env: Env, start: seq<Loaded>, program: nat, own: seq<Loaded>, loaders: seq<Pubkey>,
                            done: seq<Pubkey>, accounts: seq<Loaded>, index: nat, exact: seq<nat>)
  {
    && |done| <= MAX_HOPS && Walking(env, own, loaders, program, done, accounts, index, exact)
    && (done == [] ==> accounts == start && index == program)
    && (done != [] ==>
          && program < |start| && start[program].key != env.ids.nativeLoader
          && index < |accounts| && accounts[index].key != env.ids.nativeLoader
          && Walk(env, start[program].account.owner, MAX_HOPS)
             == Past(done, Walk(env, accounts[index].account.owner, MAX_HOPS - |done|)))
  }

  lemma FixedWalkHere(env: Env, start: seq<Loaded>, program: nat, own: seq<Loaded>, loaders: seq<Pubkey>,
                      done: seq<Pubkey>, accounts: seq<Loaded>, index: nat, exact: seq<nat>)
    requires FixedWalk(env, start, program, own, loaders, done, accounts, index, exact)
    ensures done == [] ==> ProgramAt(start, program) == (if index < |accounts| then Some(accounts[index]) else None)
    ensures done != [] ==> index < |accounts|
    ensures index < |accounts| && accounts[index].key != env.ids.nativeLoader ==>
              && program < |start| && start[program].key != env.ids.nativeLoader
              && Walk(env, start[program].account.owner, MAX_HOPS)
                 == Past(done, Walk(env, accounts[index].account.owner, MAX_HOPS - |done|))
  {
    hide Walk, Walking, Past;
    if index < |accounts| {
      PastNothing(Walk(env, accounts[index].account.owner, MAX_HOPS));
    }
  }

  /** The program is the native loader, or not there at all. */
  lemma FixedWalkEndsAtOnce(env: Env, start: seq<Loaded>, program: nat, own: seq<Loaded>, loaders: seq<Pubkey>,
                            done: seq<Pubkey>, accounts: seq<Loaded>, index: nat, exact: seq<nat>,
                            r: Result<seq<u16>, TransactionError>)
    requires Fetched(env, loaders) && |exact| == |done|
    requires FixedWalk(env, start, program, own, loaders, done, accounts, index, exact)
    requires if index < |accounts| then accounts[index].key == env.ids.nativeLoader && r == Ok([])
             else r == Err(ProgramAccountNotFound)
    ensures ResolvedAs(env, start, program, own, loaders, r, accounts, exact)
  {
    hide Walk, Nodes, IndexOf, Reversed;
    FixedWalkHere(env, start, program, own, loaders, done, accounts, index, exact);
    WalkingStart(env, own, loaders, program);
    assert Truncated([]) == [];
  }

  /** The current node's owner is the native loader. */
  lemma FixedWalkArrives(env: Env, start: seq<Loaded>, program: nat, own: seq<Loaded>, loaders: seq<Pubkey>,
                         done: seq<Pubkey>, accounts: seq<Loaded>, index: nat, exact: seq<nat>)
    requires FixedWalk(env, start, program, own, loaders, done, accounts, index, exact)
    requires |done| < MAX_HOPS && index < |accounts| && accounts[index].key != env.ids.nativeLoader
    requires accounts[index].account.owner == env.ids.nativeLoader
    ensures ResolvedAs(env, start, program, own, loaders, Ok(Truncated([index] + exact)), accounts, [index] + exact)
  {
    hide Nodes, IndexOf, AddNew, Reversed, Truncated;
    FixedWalkHere(env, start, program, own, loaders, done, accounts, index, exact);
    WalkingChain(env, own, loaders, program, done, accounts, index, exact);
    assert done + [] == done;
  }

  /** The current node's owner cannot be fetched, or there are no hops left. */
  lemma FixedWalkFails(env: Env, start: seq<Loaded>, program: nat, own: seq<Loaded>, loaders: seq<Pubkey>,
                       done: seq<Pubkey>, accounts: seq<Loaded>, index: nat, exact: seq<nat>,
                       anyAccounts: seq<Loaded>, anyChain: seq<nat>)
    requires FixedWalk(env, start, program, own, loaders, done, accounts, index, exact)
    requires index < |accounts| && accounts[index].key != env.ids.nativeLoader
    requires |done| < MAX_HOPS ==>
               accounts[index].account.owner !in env.fetch && accounts[index].account.owner != env.ids.nativeLoader
    ensures var e := if |done| < MAX_HOPS then ProgramAccountNotFound else CallChainTooDeep;
            ResolvedAs(env, start, program, own, loaders, Err(e), anyAccounts, anyChain)
  {
    hide Nodes, IndexOf, AddNew, Reversed, Truncated, Walking;
    FixedWalkHere(env, start, program, own, loaders, done, accounts, index, exact);
  }

  /** One hop. */
  lemma FixedWalkHop(env: Env, start: seq<Loaded>, program: nat, own: seq<Loaded>, loaders: seq<Pubkey>,
                     done: seq<Pubkey>, accounts: seq<Loaded>, index: nat, exact: seq<nat>,
                     accounts': seq<Loaded>, index': nat)
    requires Fetched(env, loaders)
    requires FixedWalk(env, start, program, own, loaders, done, accounts, index, exact)
    requires |done| < MAX_HOPS && index < |accounts| && accounts[index].key != env.ids.nativeLoader
    requires var owner := accounts[index].account.owner;
             && owner in env.fetch && owner != env.ids.nativeLoader
             && accounts' == AccountsWith(env, AddNew(loaders, done), accounts, owner)
             && index' == IndexWith(AddNew(loaders, done), |own|, accounts, owner)
             && index' < |accounts'| && accounts'[index'] == Loaded(owner, env.fetch[owner])
    ensures FixedWalk(env, start, program, own, loaders, done + [accounts[index].account.owner],
                      accounts', index', [index] + exact)
  {
    hide Walking, AddNew, Past, Walk, AccountsWith, IndexWith;
    var owner := accounts[index].account.owner;
    FixedWalkHere(env, start, program, own, loaders, done, accounts, index, exact);
    WalkingStep(env, own, loaders, program, done, accounts, index, exact, owner);
    PastOneMore(env, done, owner, MAX_HOPS - |done|);
  }

  /** Where the walk finds an owner under fixed answers. */
  lemma FixedFind(env: Env, own: seq<Loaded>, loaders: seq<Pubkey>, program: nat, done: seq<Pubkey>,
                  accounts: seq<Loaded>, index: nat, exact: seq<nat>, owner: Pubkey)
    requires Walking(env, own, loaders, program, done, accounts, index, exact)
    ensures |own| <= |accounts|
    ensures var all := AddNew(loaders, done);
            && Position(accounts[|own|..], owner) == (if owner in all then Some(IndexOf(all, owner)) else None)
            && (owner in all ==>
                  && owner in env.fetch && |own| + IndexOf(all, owner) < |accounts|
                  && accounts[|own| + IndexOf(all, owner)] == Loaded(owner, env.fetch[owner]))
  {
    hide IndexOf, Position, Nodes, AddNew, Reversed;
    var all := AddNew(loaders, done);
    PositionIsIndexOf(env, all, owner);
    assert accounts[|own|..] == LoaderAccounts(env, all);
  }

  lemma FixedWalkStart(env: Env, own: seq<Loaded>, loaders: seq<Pubkey>, program: nat)
    requires Fetched(env, loaders)
    ensures var start := own + LoaderAccounts(env, loaders);
            FixedWalk(env, start, program, own, loaders, [], start, program, [])
  {
    WalkingStart(env, own, loaders, program);
  }

  lemma FixedWalkFind(env: Env, start: seq<Loaded>, program: nat, own: seq<Loaded>, loaders: seq<Pubkey>,
                      done: seq<Pubkey>, accounts: seq<Loaded>, index: nat, exact: seq<nat>, owner: Pubkey)
    requires FixedWalk(env, start, program, own, loaders, done, accounts, index, exact)
    ensures var all := AddNew(loaders, done);
            && |own| <= |accounts|
            && Position(accounts[|own|..], owner)
               == (if owner in all then Some(IndexWith(all, |own|, accounts, owner) - |own|) else None)
            && (owner in all ==>
                  && owner in env.fetch && IndexWith(all, |own|, accounts, owner) < |accounts|
                  && accounts[IndexWith(all, |own|, accounts, owner)] == Loaded(owner, env.fetch[owner]))
  {
    hide Walking, Walk, Past, AddNew, IndexOf, Position;
    FixedFind(env, own, loaders, program, done, accounts, index, exact, owner);
  }

  lemma StartOfChain(nativeLoader: Pubkey, accounts: seq<Loaded>, program: nat)
    ensures ChainSoFar(nativeLoader, accounts, program, program, [])
    ensures Truncated([]) == []
  {
  }

  lemma NothingRecorded(nativeLoader: Pubkey, accounts: seq<Loaded>, program: nat, index: nat)
    requires ChainSoFar(nativeLoader, accounts, program, index, [])
    requires index < |accounts| && accounts[index].key == nativeLoader
    ensures ChainOk(nativeLoader, accounts, program, []) && Truncated([]) == []
  {
  }

  lemma LinkedChainOk(nativeLoader: Pubkey, accounts: seq<Loaded>, program: nat, chain: seq<nat>)
    requires ChainLinked(accounts, program, chain) && |chain| <= MAX_HOPS
    requires accounts[program].key != nativeLoader && accounts[chain[0]].account.owner == nativeLoader
    ensures ChainOk(nativeLoader, accounts, program, chain)
  {
  }

  /** An answer under a key that is not there yet extends the loader accounts. */
  lemma AnswerAppends(g: Fetch, call: nat, accounts: seq<Loaded>, start: nat, entry: Loaded)
    requires Suffixed(g, accounts, start) && g(call, entry.key) == Some(entry.account)
    requires Position(accounts[start..], entry.key).None?
    requires exists k :: 0 <= k < |accounts| && accounts[k].account.owner == entry.key
    ensures Suffixed(g, accounts + [entry], start)
  {
    hide Position;
    assert Answered(g, entry);
    var all := accounts + [entry];
    forall i | start <= i < |all|
      ensures OwnsEarlier(all, i)
    {
      if i < |accounts| {
        assert OwnsEarlier(accounts, i);
        var k :| 0 <= k < i && accounts[k].account.owner == accounts[i].key;
        assert all[k].account.owner == all[i].key;
      } else {
        var k :| 0 <= k < |accounts| && accounts[k].account.owner == entry.key;
        assert all[k].account.owner == all[i].key;
      }
    }
    forall i | start <= i < |accounts|
      ensures accounts[i].key != entry.key
    {
      assert accounts[start..][i - start] == accounts[i];
    }
  }

  /** Follows one instruction's owners, appending the loader accounts that are not there yet. The
      chain is right whatever the fetch function answers; under fixed answers the result is the one
      that `Resolve` describes. `fetch`, `own` and `loaders` only matter to that last part. */
  method ResolveInstruction(g: Fetch, calls: nat, ids: Ids, start: seq<Loaded>, builtinsStart: nat, program: byte,
                            ghost fetch: map<Pubkey, Account>, ghost own: seq<Loaded>, ghost loaders: seq<Pubkey>)
    returns (r: Result<seq<u16>, TransactionError>, accounts: seq<Loaded>, calls': nat, ghost exact: seq<nat>)
    requires Suffixed(g, start, builtinsStart)
    ensures start <= accounts && Suffixed(g, accounts, builtinsStart)
    ensures r.Ok? ==>
              && |accounts| <= |start| + 4
              && ChainOk(ids.nativeLoader, accounts, program, exact) && r.value == Truncated(exact)
              && OwnersAppended(builtinsStart, exact)
    ensures r.Err? ==> r.error == ProgramAccountNotFound || r.error == CallChainTooDeep
    ensures FixedStart(g, Env(fetch, ids), start, builtinsStart, own, loaders) ==>
              ResolvedAs(Env(fetch, ids), start, program, own, loaders, r, accounts, exact)
  {
    hide ResolvedAs, Truncated, Position, FixedWalk, AddNew, ChainSoFar, Answered, ChainLinked;
    ghost var env := Env(fetch, ids);
    ghost var fixed := FixedStart(g, env, start, builtinsStart, own, loaders);
    ghost var done: seq<Pubkey> := [];
    accounts, calls', exact := start, calls, [];
    var accountIndices: seq<u16> := [];
    var programIndex: nat := program;
    if fixed {
      FixedWalkStart(env, own, loaders, program);
    }
    StartOfChain(ids.nativeLoader, accounts, program);
    for hop := 0 to MAX_HOPS
      invariant |done| == |exact| == hop && accountIndices == Truncated(exact)
      invariant start <= accounts && Suffixed(g, accounts, builtinsStart) && |accounts| <= |start| + hop
      invariant ChainSoFar(ids.nativeLoader, accounts, program, programIndex, exact)
      invariant fixed ==> FixedWalk(env, start, program, own, loaders, done, accounts, programIndex, exact)
      invariant hop > 0 ==> programIndex < |accounts| && accounts[programIndex].key != ids.nativeLoader
      invariant OwnersAppended(builtinsStart, exact) && (hop > 0 ==> builtinsStart <= programIndex)
    {
      if programIndex >= |accounts| {
        if fixed {
          FixedWalkEndsAtOnce(env, start, program, own, loaders, done, accounts, programIndex, exact,
                              Err(ProgramAccountNotFound));
        }
        return Err(ProgramAccountNotFound), accounts, calls', exact;
      }
      var Loaded(programId, programAccount) := accounts[programIndex];

      // nothing to record for the native loader, which only the first hop can meet here
      if programId == ids.nativeLoader {
        NothingRecorded(ids.nativeLoader, accounts, program, programIndex);
        if fixed {
          FixedWalkEndsAtOnce(env, start, program, own, loaders, done, accounts, programIndex, exact, Ok([]));
        }
        return Ok(accountIndices), accounts, calls', exact;
      }

      TruncatedCons(programIndex, exact);
      accountIndices := [Truncate(programIndex)] + accountIndices;
      ghost var before := exact;
      exact := [programIndex] + exact;
      ChainPush(ids.nativeLoader, accounts, program, programIndex, before);

      var owner := programAccount.owner;
      if owner == ids.nativeLoader {
        LinkedChainOk(ids.nativeLoader, accounts, program, exact);
        if fixed {
          FixedWalkArrives(env, start, program, own, loaders, done, accounts, programIndex, before);
        }
        return Ok(accountIndices), accounts, calls', exact;
      }

      if fixed {
        FixedWalkFind(env, start, program, own, loaders, done, accounts, programIndex, before, owner);
      }
      ghost var accountsBefore, indexBefore := accounts, programIndex;
      match Position(accounts[builtinsStart..], owner) {
        case Some(ownerIndex) =>
          programIndex := builtinsStart + ownerIndex;
        case None =>
          var answer := g(calls', owner);
          calls' := calls' + 1;
          match answer {
            case None =>
              if fixed {
                FixedWalkFails(env, start, program, own, loaders, done, accounts, programIndex, before,
                               accounts, exact);
              }
              return Err(ProgramAccountNotFound), accounts, calls', exact;
            case Some(account) =>
              AnswerAppends(g, calls' - 1, accounts, builtinsStart, Loaded(owner, account));
              programIndex := |accounts|;
              accounts := accounts + [Loaded(owner, account)];
          }
      }
      ChainHop(ids.nativeLoader, accountsBefore, accounts, program, indexBefore, before, programIndex);
      if fixed {
        FixedWalkHop(env, start, program, own, loaders, done, accountsBefore, indexBefore, before,
                     accounts, programIndex);
      }
      done := done + [owner];
    }
    if fixed {
      FixedWalkFails(env, start, program, own, loaders, done, accounts, programIndex, exact, accounts, exact);
    }
    return Err(CallChainTooDeep), accounts, calls', exact;
  }

  // ----- The whole load

  /** The account loaded for a key of the message: the constructed one for the instructions sysvar,
      otherwise an answer of the fetch function. */
  ghost predicate OwnAccount(g: Fetch, ids: Ids, key: Pubkey, entry: Loaded) {
    && entry.key == key
    && if key == ids.instructionsSysvar then entry.account == ids.instructionsAccount else Answered(g, entry)
  }

  lemma NotAllFetchable(g: Fetch, ids: Ids, keys: seq<Pubkey>, i: nat, call: nat)
    requires i < |keys| && keys[i] != ids.instructionsSysvar && g(call, keys[i]) == None
    ensures forall fetch :: FetchesFrom(g, fetch) ==> !AllFetchable(Env(fetch, ids), keys)
  {
    forall fetch | FetchesFrom(g, fetch)
      ensures !AllFetchable(Env(fetch, ids), keys)
    {
      assert FetchKey(Env(fetch, ids), keys[i]).None?;
    }
  }

  lemma OwnAccountsAreMessageAccounts(g: Fetch, ids: Ids, keys: seq<Pubkey>, accounts: seq<Loaded>)
    requires |accounts| == |keys| && forall i :: 0 <= i < |keys| ==> OwnAccount(g, ids, keys[i], accounts[i])
    ensures forall fetch :: FetchesFrom(g, fetch) ==>
              var env := Env(fetch, ids);
              AllFetchable(env, keys) && accounts == MessageAccounts(env, keys)
  {
    forall fetch | FetchesFrom(g, fetch)
      ensures AllFetchable(Env(fetch, ids), keys) && accounts == MessageAccounts(Env(fetch, ids), keys)
    {
      var env := Env(fetch, ids);
      forall i | 0 <= i < |keys|
        ensures FetchKey(env, keys[i]) == Some(accounts[i].account)
      {
        assert OwnAccount(g, ids, keys[i], accounts[i]);
        if keys[i] != ids.instructionsSysvar {
          var call :| g(call, accounts[i].key) == Some(accounts[i].account);
        }
      }
    }
  }

  /** The accounts of the message's keys, in order. */
  method LoadMessageAccounts(g: Fetch, ids: Ids, keys: seq<Pubkey>)
    returns (r: Result<seq<Loaded>, TransactionError>, calls: nat)
    ensures r.Ok? ==>
              && |r.value| == |keys|
              && forall i :: 0 <= i < |keys| ==> OwnAccount(g, ids, keys[i], r.value[i])
    ensures r.Err? ==> r.error == AccountNotFound && exists call, i :: 0 <= i < |keys| && g(call, keys[i]) == None
    ensures forall fetch :: FetchesFrom(g, fetch) ==>
              var env := Env(fetch, ids);
              r == if AllFetchable(env, keys) then Ok(MessageAccounts(env, keys)) else Err(AccountNotFound)
  {
    var accounts: seq<Loaded> := [];
    calls := 0;
    for i := 0 to |keys|
      invariant |accounts| == i
      invariant forall k :: 0 <= k < i ==> OwnAccount(g, ids, keys[k], accounts[k])
    {
      var key := keys[i];
      if key == ids.instructionsSysvar {
        accounts := accounts + [Loaded(key, ids.instructionsAccount)];
      } else {
        var answer := g(calls, key);
        calls := calls + 1;
        if answer.None? {
          NotAllFetchable(g, ids, keys, i, calls - 1);
          return Err(AccountNotFound), calls;
        }
        accounts := accounts + [Loaded(key, answer.value)];
      }
    }
    OwnAccountsAreMessageAccounts(g, ids, keys, accounts);
    return Ok(accounts), calls;
  }

  /** What a load returns whatever the fetch function answers, in terms of its accounts alone: the
      message's keys in order, then answers under distinct keys, at most four per instruction; and
      every chain is right in the final accounts, also those recorded before later accounts were
      appended, and takes owners from the loader accounts. The recorded indices are the chains cast to
      sixteen bits. */
  ghost predicate LoadedOk(g: Fetch, ids: Ids, keys: seq<Pubkey>, programs: seq<byte>, tx: LoadedTransaction,
                           exact: seq<seq<nat>>)
  {
    && |keys| <= |tx.accounts| <= |keys| + 4 * |programs|
    && (forall i :: 0 <= i < |keys| ==> OwnAccount(g, ids, keys[i], tx.accounts[i]))
    && Suffixed(g, tx.accounts, |keys|)
    && |tx.programIndices| == |exact| == |programs|
    && (forall i :: 0 <= i < |programs| ==>
          && ChainOk(ids.nativeLoader, tx.accounts, programs[i], exact[i]) && OwnersAppended(|keys|, exact[i])
          && |tx.programIndices[i]| == |exact[i]|
          && forall j :: 0 <= j < |exact[i]| ==> tx.programIndices[i][j] == exact[i][j] % 0x1_0000)
  }

  /** The recorded indices are the chain exactly when all of it fits in sixteen bits. */
  lemma TruncationIsExact(chain: seq<nat>)
    ensures Truncated(chain) == chain <==> forall i :: 0 <= i < |chain| ==> chain[i] < 0x1_0000
  {
    assert forall i :: 0 <= i < |chain| ==> (Truncated(chain)[i] == chain[i] <==> chain[i] < 0x1_0000);
    if Truncated(chain) == chain {
      assert forall i :: 0 <= i < |chain| ==> Truncated(chain)[i] == chain[i];
    }
  }

  /** With at most 65536 accounts the recorded indices themselves are right, whatever the fetch
      function answered. */
  lemma LoadMeaning(g: Fetch, ids: Ids, keys: seq<Pubkey>, programs: seq<byte>, tx: LoadedTransaction,
                    exact: seq<seq<nat>>)
    requires LoadedOk(g, ids, keys, programs, tx, exact) && |tx.accounts| <= 0x1_0000
    ensures forall i :: 0 <= i < |programs| ==>
              ChainOk(ids.nativeLoader, tx.accounts, programs[i], tx.programIndices[i])
  {
    forall i | 0 <= i < |programs|
      ensures tx.programIndices[i] == exact[i]
    {
      assert ChainOk(ids.nativeLoader, tx.accounts, programs[i], exact[i]);
      TruncationIsExact(exact[i]);
    }
  }

  lemma LoadedShape(g: Fetch, ids: Ids, keys: seq<Pubkey>, programs: seq<byte>, tx: LoadedTransaction,
                    exact: seq<seq<nat>>)
    requires LoadedOk(g, ids, keys, programs, tx, exact)
    ensures |tx.programIndices| == |programs| && forall i :: 0 <= i < |programs| ==> |tx.programIndices[i]| <= 5
  {
    forall i | 0 <= i < |programs|
      ensures |tx.programIndices[i]| <= 5
    {
      assert ChainOk(ids.nativeLoader, tx.accounts, programs[i], exact[i]);
    }
  }

  // ----- The whole load, when the answers are fixed

  /** The first error ends the load. */
  lemma {:induction false} FirstErrorStays(env: Env, own: seq<Loaded>, programs: seq<byte>, i: nat)
    requires i <= |programs| && PlanFor(env, own, programs[..i]).Err?
    ensures PlanFor(env, own, programs) == Err(PlanFor(env, own, programs[..i]).error)
    decreases |programs|
  {
    if i == |programs| {
      assert programs[..i] == programs;
    } else {
      assert programs[..|programs| - 1][..i] == programs[..i];
      FirstErrorStays(env, own, programs[..|programs| - 1], i);
    }
  }

  /** Every chain recorded so far is the chain of its instruction, given the loaders appended so far. */
  ghost predicate ChainsAre(start: nat, programs: seq<byte>, plan: Plan, exact: seq<seq<nat>>)
    requires |exact| == |plan.routes| <= |programs|
  {
    forall i :: 0 <= i < |exact| ==> exact[i] == Chain(start, programs[i], plan.loaders, plan.routes[i])
  }

  /** The load so far follows the plan of the first `n` instructions. */
  ghost predicate Planned(env: Env, own: seq<Loaded>, programs: seq<byte>, n: nat, accounts: seq<Loaded>,
                          exact: seq<seq<nat>>)
    requires |exact| == n <= |programs|
  {
    match PlanFor(env, own, programs[..n])
    case Err(_) => false
    case Ok(plan) =>
      accounts == own + LoaderAccounts(env, plan.loaders) && ChainsAre(|own|, programs, plan, exact)
  }

  lemma ChainsGrow(env: Env, own: seq<Loaded>, programs: seq<byte>, n: nat, exact: seq<seq<nat>>, chain: seq<nat>)
    requires n < |programs| && PlanFor(env, own, programs[..n + 1]).Ok?
    requires PlanFor(env, own, programs[..n]).Ok? && |exact| == n
    requires ChainsAre(|own|, programs, PlanFor(env, own, programs[..n]).value, exact)
    requires var plan := PlanFor(env, own, programs[..n + 1]).value;
             chain == Chain(|own|, programs[n], plan.loaders, plan.routes[n])
    ensures ChainsAre(|own|, programs, PlanFor(env, own, programs[..n + 1]).value, exact + [chain])
  {
    hide PlanFor, Chain;
    var upTo := programs[..n + 1];
    assert upTo[..n] == programs[..n];
    PlanStep(env, own, upTo);
    PlanRoutes(env, own, programs[..n]);
    var before, plan := PlanFor(env, own, programs[..n]).value, PlanFor(env, own, upTo).value;
    forall i | 0 <= i < n
      ensures exact[i] == Chain(|own|, programs[i], plan.loaders, plan.routes[i])
    {
      assert RouteOk(env, own, before.loaders, programs[..n][i], before.routes[i]);
      ChainStable(|own|, programs[i], before.loaders, plan.loaders, before.routes[i]);
    }
  }

  lemma PlanNext(env: Env, own: seq<Loaded>, programs: seq<byte>, n: nat)
    requires n < |programs| && PlanFor(env, own, programs[..n]).Ok?
    ensures var plan := PlanFor(env, own, programs[..n]).value;
            match Resolve(env, ProgramAt(own + LoaderAccounts(env, plan.loaders), programs[n]))
            case Err(e) => PlanFor(env, own, programs[..n + 1]) == Err(e)
            case Ok(route) =>
              PlanFor(env, own, programs[..n + 1])
              == Ok(Plan(AddNew(plan.loaders, PathOf(route)), plan.routes + [route]))
  {
    hide AddNew, Resolve;
    assert programs[..n + 1][..n] == programs[..n];
  }

  /** One more instruction of a planned load. */
  lemma PlannedNext(env: Env, own: seq<Loaded>, programs: seq<byte>, n: nat, before: seq<Loaded>,
                    exact: seq<seq<nat>>, r: Result<seq<u16>, TransactionError>, accounts: seq<Loaded>,
                    chain: seq<nat>)
    requires n < |programs| && |exact| == n && Planned(env, own, programs, n, before, exact)
    requires ResolvedAs(env, before, programs[n], own, PlanFor(env, own, programs[..n]).value.loaders,
                        r, accounts, chain)
    ensures r.Ok? ==> Planned(env, own, programs, n + 1, accounts, exact + [chain])
    ensures r.Err? ==> PlanFor(env, own, programs) == Err(r.error)
  {
    hide PlanFor, Resolve, AddNew, Chain, ChainsAre, LoaderAccounts, Fetched;
    PlanNext(env, own, programs, n);
    if r.Ok? {
      ChainsGrow(env, own, programs, n, exact, chain);
    } else {
      FirstErrorStays(env, own, programs, n + 1);
    }
  }

  /** What a load returns under fixed answers: the plan of the message, or its first error. */
  ghost predicate LoadedAsPlanned(env: Env, keys: seq<Pubkey>, programs: seq<byte>,
                                  r: Result<LoadedTransaction, TransactionError>, exact: seq<seq<nat>>)
  {
    if !AllFetchable(env, keys) then r == Err(AccountNotFound)
    else
      var own := MessageAccounts(env, keys);
      match PlanFor(env, own, programs)
      case Err(e) => r == Err(e)
      case Ok(plan) =>
        && r.Ok? && r.value.accounts == own + LoaderAccounts(env, plan.loaders)
        && |exact| == |programs| && ChainsAre(|own|, programs, plan, exact)
  }

  lemma NothingPlanned(env: Env, own: seq<Loaded>, programs: seq<byte>)
    ensures Planned(env, own, programs, 0, own, [])
  {
    assert programs[..0] == [];
    assert own + [] == own;
  }

  /** The loaders that a planned load has appended. */
  ghost function LoadersSoFar(env: Env, own: seq<Loaded>, programs: seq<byte>, n: nat, accounts: seq<Loaded>,
                              exact: seq<seq<nat>>): (loaders: seq<Pubkey>)
    requires |exact| == n <= |programs| && Planned(env, own, programs, n, accounts, exact)
    ensures PlanFor(env, own, programs[..n]).Ok? && loaders == PlanFor(env, own, programs[..n]).value.loaders
    ensures Fetched(env, loaders) && accounts == own + LoaderAccounts(env, loaders)
  {
    PlanFor(env, own, programs[..n]).value.loaders
  }

  lemma PlannedToTheEnd(env: Env, own: seq<Loaded>, programs: seq<byte>, accounts: seq<Loaded>, exact: seq<seq<nat>>)
    requires |exact| == |programs| && Planned(env, own, programs, |programs|, accounts, exact)
    ensures PlanFor(env, own, programs).Ok?
    ensures var plan := PlanFor(env, own, programs).value;
            accounts == own + LoaderAccounts(env, plan.loaders) && ChainsAre(|own|, programs, plan, exact)
  {
    assert programs[..|programs|] == programs;
  }

  /** The account that a key of the message names. */
  function Own(env: Env, key: Pubkey): Loaded
    requires key == env.ids.instructionsSysvar || key in env.fetch
  {
    Loaded(key, if key == env.ids.instructionsSysvar then env.ids.instructionsAccount else env.fetch[key])
  }

  /** The key of an account from `start` on. */
  ghost predicate Appended(accounts: seq<Loaded>, start: nat, key: Pubkey) {
    exists i :: start <= i < |accounts| && accounts[i].key == key
  }

  /** A load under fixed answers, for instructions that name the message's own accounts. It fails for a
      key without an account. Otherwise it succeeds exactly when every program is the native loader or
      has it among the first five owners above it, and the first program that does not decides the
      error: too deep when its first five owners can all be fetched and none is the native loader. The
      accounts appended are exactly the owners between the programs and the native loader. */
  ghost predicate LoadsExactly(env: Env, keys: seq<Pubkey>, programs: seq<byte>,
                               r: Result<LoadedTransaction, TransactionError>)
  {
    && (r == Err(AccountNotFound) <==>
          exists i :: 0 <= i < |keys| && keys[i] != env.ids.instructionsSysvar && keys[i] !in env.fetch)
    && (r != Err(AccountNotFound) && (forall i :: 0 <= i < |programs| ==> programs[i] < |keys|) ==>
          && (r.Ok? <==> forall i :: 0 <= i < |programs| ==> Resolves(env, Own(env, keys[programs[i]])))
          && (r == Err(CallChainTooDeep) <==>
                exists i :: 0 <= i < |programs| && TooDeep(env, Own(env, keys[programs[i]]))
                            && forall k :: 0 <= k < i ==> Resolves(env, Own(env, keys[programs[k]])))
          && (r.Err? ==> r.error == CallChainTooDeep || r.error == ProgramAccountNotFound)
          && (r.Ok? ==>
                && |keys| <= |r.value.accounts|
                && (forall i :: 0 <= i < |keys| ==> r.value.accounts[i] == Own(env, keys[i]))
                && (forall i :: |keys| <= i < |r.value.accounts| ==>
                      r.value.accounts[i].key in env.fetch
                      && r.value.accounts[i].account == env.fetch[r.value.accounts[i].key])
                && forall key :: Appended(r.value.accounts, |keys|, key) <==>
                                 exists i :: 0 <= i < |programs| && Above(env, Own(env, keys[programs[i]]), key)))
  }

  lemma {:induction false} PlanErrors(env: Env, own: seq<Loaded>, programs: seq<byte>)
    ensures PlanFor(env, own, programs).Err? ==>
              PlanFor(env, own, programs).error in {CallChainTooDeep, ProgramAccountNotFound}
    decreases |programs|
  {
    if programs != [] {
      var n := |programs| - 1;
      PlanErrors(env, own, programs[..n]);
      if PlanFor(env, own, programs[..n]).Ok? {
        var loaders := PlanFor(env, own, programs[..n]).value.loaders;
        var program := ProgramAt(own + LoaderAccounts(env, loaders), programs[n]);
        if program.Some? && Walk(env, program.value.account.owner, MAX_HOPS).Err? {
          WalkError(env, program.value.account.owner, MAX_HOPS);
        }
      }
    }
  }

  lemma OwnAccounts(env: Env, keys: seq<Pubkey>)
    ensures AllFetchable(env, keys) <==>
            !exists i :: 0 <= i < |keys| && keys[i] != env.ids.instructionsSysvar && keys[i] !in env.fetch
    ensures AllFetchable(env, keys) ==>
              forall i :: 0 <= i < |keys| ==> MessageAccounts(env, keys)[i] == Own(env, keys[i])
  {
    assert AllFetchable(env, keys) <==> forall i :: 0 <= i < |keys| ==> FetchKey(env, keys[i]).Some?;
  }

  /** How a planned load ends. */
  lemma PlannedEnd(env: Env, keys: seq<Pubkey>, programs: seq<byte>)
    requires AllFetchable(env, keys) && forall i :: 0 <= i < |programs| ==> programs[i] < |keys|
    ensures var plan := PlanFor(env, MessageAccounts(env, keys), programs);
            && (plan.Ok? <==> forall i :: 0 <= i < |programs| ==> Resolves(env, Own(env, keys[programs[i]])))
            && (plan == Err(CallChainTooDeep) <==>
                  exists i :: 0 <= i < |programs| && TooDeep(env, Own(env, keys[programs[i]]))
                              && forall k :: 0 <= k < i ==> Resolves(env, Own(env, keys[programs[k]])))
  {
    hide PlanFor, Resolves, TooDeep, Own, AllFetchable;
    OwnAccounts(env, keys);
    var own := MessageAccounts(env, keys);
    PlanExistsExactlyWhenAllResolve(env, own, programs);
    TooDeepExactlyWhen(env, own, programs);
    assert forall i :: 0 <= i < |programs| ==> own[programs[i]] == Own(env, keys[programs[i]]);
    forall i | 0 <= i < |programs|
      ensures AllResolve(env, own, programs[..i]) <==>
              forall k :: 0 <= k < i ==> Resolves(env, Own(env, keys[programs[k]]))
    {
      assert forall k :: 0 <= k < i ==> programs[..i][k] == programs[k];
    }
  }

  lemma AppendedAreLoaders(env: Env, own: seq<Loaded>, loaders: seq<Pubkey>, key: Pubkey)
    requires Fetched(env, loaders)
    ensures Appended(own + LoaderAccounts(env, loaders), |own|, key) <==> key in loaders
  {
    var accounts := own + LoaderAccounts(env, loaders);
    if key in loaders {
      var i :| 0 <= i < |loaders| && loaders[i] == key;
      assert accounts[|own| + i].key == key;
    }
    if Appended(accounts, |own|, key) {
      var i :| |own| <= i < |accounts| && accounts[i].key == key;
      assert loaders[i - |own|] == key;
    }
  }

  /** Which accounts a planned load appends. */
  lemma PlannedAccounts(env: Env, keys: seq<Pubkey>, programs: seq<byte>, key: Pubkey)
    requires AllFetchable(env, keys) && forall i :: 0 <= i < |programs| ==> programs[i] < |keys|
    requires PlanFor(env, MessageAccounts(env, keys), programs).Ok?
    ensures var own := MessageAccounts(env, keys);
            Appended(own + LoaderAccounts(env, PlanFor(env, own, programs).value.loaders), |keys|, key) <==>
            exists i :: 0 <= i < |programs| && Above(env, Own(env, keys[programs[i]]), key)
  {
    hide PlanFor, Above, Own, AllFetchable, Appended, LoaderAccounts, Fetched;
    OwnAccounts(env, keys);
    var own := MessageAccounts(env, keys);
    LoadersMeaning(env, own, programs, key);
    AppendedAreLoaders(env, own, PlanFor(env, own, programs).value.loaders, key);
    assert forall i :: 0 <= i < |programs| ==> own[programs[i]] == Own(env, keys[programs[i]]);
  }

  lemma {:induction false} OwnerAbove(env: Env, owner: Pubkey, j: nat, k: Pubkey)
    requires OwnerAt(env, owner, j) == Some(k) && k in env.fetch
    ensures OwnerAt(env, owner, j + 1) == Some(env.fetch[k].owner)
    decreases j
  {
    if j > 0 {
      OwnerAbove(env, env.fetch[owner].owner, j - 1, k);
    }
  }

  /** The chain of an instruction, from its last entry on: the program, then its owners in order, up to
      the one that the native loader owns. */
  ghost predicate ChainIsOwners(env: Env, accounts: seq<Loaded>, program: Loaded, chain: seq<nat>) {
    && (forall i :: 0 <= i < |chain| ==> chain[i] < |accounts|)
    && (chain == [] <==> program.key == env.ids.nativeLoader)
    && (chain != [] ==>
          && accounts[chain[|chain| - 1]] == program
          && OwnerAt(env, program.account.owner, |chain| - 1) == Some(env.ids.nativeLoader)
          && forall j :: 0 <= j < |chain| - 1 ==>
               OwnerAt(env, program.account.owner, j) == Some(accounts[chain[|chain| - 2 - j]].key))
  }

  lemma {:induction false} ChainOwner(env: Env, accounts: seq<Loaded>, start: nat, program: nat, chain: seq<nat>,
                                      j: nat)
    requires ChainLinked(accounts, program, chain) && OwnersAppended(start, chain) && j < |chain|
    requires forall i :: start <= i < |accounts| ==>
               accounts[i].key in env.fetch && accounts[i].account == env.fetch[accounts[i].key]
    ensures OwnerAt(env, accounts[program].account.owner, j) == Some(accounts[chain[|chain| - 1 - j]].account.owner)
    decreases j
  {
    if j > 0 {
      ChainOwner(env, accounts, start, program, chain, j - 1);
      var i := |chain| - 1 - j;
      assert accounts[chain[i + 1]].account.owner == accounts[chain[i]].key;
      OwnerAbove(env, accounts[program].account.owner, j - 1, accounts[chain[i]].key);
    }
  }

  /** A right chain under fixed answers. */
  lemma ChainOwners(env: Env, accounts: seq<Loaded>, start: nat, program: nat, chain: seq<nat>)
    requires ChainOk(env.ids.nativeLoader, accounts, program, chain) && OwnersAppended(start, chain)
    requires forall i :: start <= i < |accounts| ==>
               accounts[i].key in env.fetch && accounts[i].account == env.fetch[accounts[i].key]
    ensures ChainIsOwners(env, accounts, accounts[program], chain)
  {
    if chain != [] {
      ChainOwner(env, accounts, start, program, chain, |chain| - 1);
      forall j | 0 <= j < |chain| - 1
        ensures OwnerAt(env, accounts[program].account.owner, j) == Some(accounts[chain[|chain| - 2 - j]].key)
      {
        ChainOwner(env, accounts, start, program, chain, j);
        var i := |chain| - 2 - j;
        assert accounts[chain[i + 1]].account.owner == accounts[chain[i]].key;
      }
    }
  }

  /** All chains of a load under fixed answers. */
  lemma LoadedChains(env: Env, keys: seq<Pubkey>, programs: seq<byte>,
                     r: Result<LoadedTransaction, TransactionError>, exact: seq<seq<nat>>)
    requires LoadedAsPlanned(env, keys, programs, r, exact) && r.Ok? && |exact| == |programs|
    requires forall i :: 0 <= i < |programs| ==>
               && ChainOk(env.ids.nativeLoader, r.value.accounts, programs[i], exact[i])
               && OwnersAppended(|keys|, exact[i])
    ensures forall i :: 0 <= i < |programs| ==>
              && programs[i] < |r.value.accounts|
              && ChainIsOwners(env, r.value.accounts, r.value.accounts[programs[i]], exact[i])
  {
    hide PlanFor, ChainsAre, ChainIsOwners, ChainLinked, OwnersAppended;
    forall i | 0 <= i < |programs|
      ensures programs[i] < |r.value.accounts|
      ensures ChainIsOwners(env, r.value.accounts, r.value.accounts[programs[i]], exact[i])
    {
      ChainOwners(env, r.value.accounts, |keys|, programs[i], exact[i]);
    }
  }

  lemma PlannedMeaning(env: Env, keys: seq<Pubkey>, programs: seq<byte>,
                       r: Result<LoadedTransaction, TransactionError>, exact: seq<seq<nat>>)
    requires LoadedAsPlanned(env, keys, programs, r, exact)
    ensures LoadsExactly(env, keys, programs, r)
  {
    hide PlanFor, Resolves, TooDeep, Above, Own, AllFetchable, ChainsAre, Appended;
    OwnAccounts(env, keys);
    if AllFetchable(env, keys) {
      PlanErrors(env, MessageAccounts(env, keys), programs);
      if forall i :: 0 <= i < |programs| ==> programs[i] < |keys| {
        PlannedEnd(env, keys, programs);
        if r.Ok? {
          forall key
            ensures Appended(r.value.accounts, |keys|, key) <==>
                    exists i :: 0 <= i < |programs| && Above(env, Own(env, keys[programs[i]]), key)
          {
            PlannedAccounts(env, keys, programs, key);
          }
        }
      }
    }
  }

  /** Loads the accounts of a transaction. What `LoadedOk` says holds whatever the fetch function
      answers; when it answers from the fixed map `fetch`, the result is the plan of the message. */
  method LoadTransactionAccounts(g: Fetch, ids: Ids, keys: seq<Pubkey>, programs: seq<byte>,
                                 ghost fetch: map<Pubkey, Account>)
    returns (r: Result<LoadedTransaction, TransactionError>, ghost exact: seq<seq<nat>>)
    ensures r.Ok? ==> LoadedOk(g, ids, keys, programs, r.value, exact)
    ensures r.Ok? ==>
              var accounts := r.value.accounts;
              && |keys| <= |accounts| <= |keys| + 4 * |programs|
              && (forall i :: 0 <= i < |keys| ==> accounts[i].key == keys[i])
              && (forall i, j :: |keys| <= i < j < |accounts| ==> accounts[i].key != accounts[j].key)
              && |r.value.programIndices| == |programs|
              && (forall i :: 0 <= i < |programs| ==> |r.value.programIndices[i]| <= 5)
    ensures FetchesFrom(g, fetch) ==> LoadedAsPlanned(Env(fetch, ids), keys, programs, r, exact)
    ensures (forall call, key :: g(call, key) == if key in fetch then Some(fetch[key]) else None) ==>
              && LoadsExactly(Env(fetch, ids), keys, programs, r)
              && (r.Ok? ==>
                    && |exact| == |programs|
                    && forall i :: 0 <= i < |programs| ==>
                         && programs[i] < |r.value.accounts|
                         && ChainIsOwners(Env(fetch, ids), r.value.accounts, r.value.accounts[programs[i]], exact[i]))
  {
    hide LoadsExactly, ChainIsOwners, Answered, ChainOk, Truncated, AllFetchable, MessageAccounts, ResolvedAs, Planned;
    ghost var env := Env(fetch, ids);
    ghost var fixed := FetchesFrom(g, fetch);
    exact := [];
    var loaded, calls := LoadMessageAccounts(g, ids, keys);
    if loaded.Err? {
      if fixed {
        PlannedMeaning(env, keys, programs, Err(loaded.error), []);
      }
      return Err(loaded.error), [];
    }
    var accounts := loaded.value;
    ghost var own := accounts;
    var builtinsStart := |accounts|;
    var programIndices: seq<seq<u16>> := [];
    if fixed {
      NothingPlanned(env, own, programs);
    }
    for i := 0 to |programs|
      invariant own <= accounts && |accounts| <= |own| + 4 * i && Suffixed(g, accounts, |own|)
      invariant |programIndices| == |exact| == i
      invariant forall k :: 0 <= k < i ==>
                  && ChainOk(ids.nativeLoader, accounts, programs[k], exact[k]) && OwnersAppended(|own|, exact[k])
                  && programIndices[k] == Truncated(exact[k])
      invariant fixed ==> Planned(env, own, programs, i, accounts, exact)
    {
      ghost var before := accounts;
      ghost var loaders := if fixed then LoadersSoFar(env, own, programs, i, accounts, exact) else [];
      var resolved;
      ghost var chain;
      resolved, accounts, calls, chain :=
        ResolveInstruction(g, calls, ids, accounts, builtinsStart, programs[i], fetch, own, loaders);
      if fixed {
        PlannedNext(env, own, programs, i, before, exact, resolved, accounts, chain);
      }
      if resolved.Err? {
        if fixed {
          PlannedMeaning(env, keys, programs, Err(resolved.error), exact);
        }
        return Err(resolved.error), exact;
      }
      forall k | 0 <= k < i
        ensures ChainOk(ids.nativeLoader, accounts, programs[k], exact[k])
      {
        ChainOkInMore(ids.nativeLoader, before, accounts, programs[k], exact[k]);
      }
      programIndices := programIndices + [resolved.value];
      exact := exact + [chain];
    }
    forall k | 0 <= k < |programs|
      ensures |programIndices[k]| == |exact[k]|
      ensures forall j :: 0 <= j < |exact[k]| ==> programIndices[k][j] == exact[k][j] % 0x1_0000
    {
      TruncatedEntries(exact[k]);
    }
    if fixed {
      PlannedToTheEnd(env, own, programs, accounts, exact);
      PlannedMeaning(env, keys, programs, Ok(LoadedTransaction(accounts, programIndices)), exact);
      LoadedChains(env, keys, programs, Ok(LoadedTransaction(accounts, programIndices)), exact);
    }
    LoadedShape(g, ids, keys, programs, LoadedTransaction(accounts, programIndices), exact);
    return Ok(LoadedTransaction(accounts, programIndices)), exact;
  }
}
