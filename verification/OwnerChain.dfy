/** Which owner chains a transaction's instructions have, and which loader accounts they need. */
module OwnerChain {
  import opened Words
  import opened Accounts
  import opened Sequences

  /** An account with the key it was loaded under. */
  datatype Loaded = Loaded(key: Pubkey, account: Account)

  /** The well-known keys and contents that the runtime supplies. */
  datatype Ids = Ids(nativeLoader: Pubkey, instructionsSysvar: Pubkey, instructionsAccount: Account)

  /** What a load depends on besides the message, when fetching a key always gives the same answer. */
  datatype Env = Env(fetch: map<Pubkey, Account>, ids: Ids)

  const MAX_HOPS: nat := 5

  // ----- Owners

  /** The owner `j` steps above `owner`, if every owner below it can be fetched. */
  function OwnerAt(env: Env, owner: Pubkey, j: nat): Option<Pubkey>
    decreases j
  {
    if j == 0 then Some(owner)
    else if owner !in env.fetch then None
    else OwnerAt(env, env.fetch[owner].owner, j - 1)
  }

  /** Follows owners up to the native loader, looking at no more than `hops` of them. Returns the
      owners before it. */
  function Walk(env: Env, owner: Pubkey, hops: nat): Result<seq<Pubkey>, TransactionError>
    decreases hops
  {
    if hops == 0 then Err(CallChainTooDeep)
    else if owner == env.ids.nativeLoader then Ok([])
    else if owner !in env.fetch then Err(ProgramAccountNotFound)
    else
      match Walk(env, env.fetch[owner].owner, hops - 1)
      case Ok(rest) => Ok([owner] + rest)
      case Err(e) => Err(e)
  }

  /** A successful walk returns the owners below the native loader, in order. */
  lemma {:induction false} WalkPath(env: Env, owner: Pubkey, hops: nat)
    requires Walk(env, owner, hops).Ok?
    ensures var path := Walk(env, owner, hops).value;
            && |path| < hops && OwnerAt(env, owner, |path|) == Some(env.ids.nativeLoader)
            && forall i :: 0 <= i < |path| ==>
                 OwnerAt(env, owner, i) == Some(path[i]) && path[i] in env.fetch && path[i] != env.ids.nativeLoader
    decreases hops
  {
    if owner != env.ids.nativeLoader {
      var next := env.fetch[owner].owner;
      WalkPath(env, next, hops - 1);
      var path, rest := Walk(env, owner, hops).value, Walk(env, next, hops - 1).value;
      assert forall i :: 0 < i < |path| ==> path[i] == rest[i - 1];
    }
  }

  lemma {:induction false} WalkFinds(env: Env, owner: Pubkey, hops: nat, j: nat)
    requires j < hops && OwnerAt(env, owner, j) == Some(env.ids.nativeLoader)
    ensures Walk(env, owner, hops).Ok?
    decreases hops
  {
    if owner != env.ids.nativeLoader {
      WalkFinds(env, env.fetch[owner].owner, hops - 1, j - 1);
    }
  }

  lemma {:induction false} WalkError(env: Env, owner: Pubkey, hops: nat)
    requires Walk(env, owner, hops).Err?
    ensures Walk(env, owner, hops).error
         == if OwnerAt(env, owner, hops).Some? then CallChainTooDeep else ProgramAccountNotFound
    decreases hops
  {
    if 0 < hops && owner in env.fetch {
      WalkError(env, env.fetch[owner].owner, hops - 1);
    }
  }

  /** A walk succeeds exactly when the native loader is among the first owners, every owner below
      it being fetchable; it is too deep exactly when those owners can all be fetched and none is
      the native loader. */
  lemma WalkMeaning(env: Env, owner: Pubkey, hops: nat)
    ensures Walk(env, owner, hops).Ok? <==>
            exists j :: 0 <= j < hops && OwnerAt(env, owner, j) == Some(env.ids.nativeLoader)
    ensures Walk(env, owner, hops) == Err(CallChainTooDeep) <==>
            && OwnerAt(env, owner, hops).Some?
            && forall j :: 0 <= j < hops ==> OwnerAt(env, owner, j) != Some(env.ids.nativeLoader)
  {
    if j :| 0 <= j < hops && OwnerAt(env, owner, j) == Some(env.ids.nativeLoader) {
      WalkFinds(env, owner, hops, j);
    }
    if Walk(env, owner, hops).Ok? {
      WalkPath(env, owner, hops);
    } else {
      WalkError(env, owner, hops);
    }
  }

  /** Entry `i` of a path is owned by the entry after it, and the last one by the native loader. */
  ghost predicate Linked(env: Env, path: seq<Pubkey>, i: nat)
    requires i < |path|
  {
    && path[i] in env.fetch
    && env.fetch[path[i]].owner == if i + 1 < |path| then path[i + 1] else env.ids.nativeLoader
  }

  lemma {:induction false} WalkLinks(env: Env, owner: Pubkey, hops: nat)
    requires Walk(env, owner, hops).Ok?
    ensures var path := Walk(env, owner, hops).value;
            && (if path == [] then owner == env.ids.nativeLoader else owner == path[0])
            && forall i :: 0 <= i < |path| ==> Linked(env, path, i)
    decreases hops
  {
    if owner != env.ids.nativeLoader {
      var next := env.fetch[owner].owner;
      WalkLinks(env, next, hops - 1);
      var path, rest := Walk(env, owner, hops).value, Walk(env, next, hops - 1).value;
      forall i | 0 <= i < |path|
        ensures Linked(env, path, i)
      {
        assert i > 0 ==> Linked(env, rest, i - 1);
      }
    }
  }

  // ----- Instructions

  /** How an instruction's program resolves: None when it is the native loader itself, otherwise
      the owners between the program and the native loader. */
  type Route = Option<seq<Pubkey>>

  function PathOf(route: Route): seq<Pubkey> {
    match route
    case None => []
    case Some(path) => path
  }

  function Resolve(env: Env, program: Option<Loaded>): Result<Route, TransactionError> {
    match program
    case None => Err(ProgramAccountNotFound)
    case Some(p) =>
      if p.key == env.ids.nativeLoader then Ok(None)
      else
        match Walk(env, p.account.owner, MAX_HOPS)
        case Ok(path) => Ok(Some(path))
        case Err(e) => Err(e)
  }

  // ----- The accounts of a transaction

  function FetchKey(env: Env, key: Pubkey): Option<Account> {
    if key == env.ids.instructionsSysvar then Some(env.ids.instructionsAccount)
    else if key in env.fetch then Some(env.fetch[key])
    else None
  }

  ghost predicate AllFetchable(env: Env, keys: seq<Pubkey>) {
    forall i :: 0 <= i < |keys| ==> FetchKey(env, keys[i]).Some?
  }

  /** The message's own accounts, in the order of its keys. */
  function MessageAccounts(env: Env, keys: seq<Pubkey>): seq<Loaded>
    requires AllFetchable(env, keys)
  {
    seq(|keys|, i requires 0 <= i < |keys| => Loaded(keys[i], FetchKey(env, keys[i]).value))
  }

  /** Loader accounts come from the fetch function, and from nowhere else. */
  ghost predicate Fetched(env: Env, loaders: seq<Pubkey>) {
    && (forall i :: 0 <= i < |loaders| ==> loaders[i] in env.fetch)
    && (forall i, j :: 0 <= i < j < |loaders| ==> loaders[i] != loaders[j])
  }

  function LoaderAccounts(env: Env, loaders: seq<Pubkey>): seq<Loaded>
    requires Fetched(env, loaders)
  {
    seq(|loaders|, i requires 0 <= i < |loaders| => Loaded(loaders[i], env.fetch[loaders[i]]))
  }

  function AddNew(loaders: seq<Pubkey>, path: seq<Pubkey>): seq<Pubkey> {
    if path == [] then loaders
    else
      var before := AddNew(loaders, path[..|path| - 1]);
      var last := path[|path| - 1];
      if last in before then before else before + [last]
  }

  lemma {:induction false} AddNewMeaning(env: Env, loaders: seq<Pubkey>, path: seq<Pubkey>)
    requires Fetched(env, loaders) && forall i :: 0 <= i < |path| ==> path[i] in env.fetch
    ensures var all := AddNew(loaders, path);
            && Fetched(env, all) && loaders <= all
            && |all| <= |loaders| + |path|
            && forall k :: k in all <==> k in loaders || k in path
    decreases |path|
  {
    if path != [] {
      AddNewMeaning(env, loaders, path[..|path| - 1]);
      assert path == path[..|path| - 1] + [path[|path| - 1]];
    }
  }

  /** The first place of a key, or the length of the list. */
  function IndexOf(keys: seq<Pubkey>, key: Pubkey): (i: nat)
    ensures i <= |keys| && (forall j :: 0 <= j < i ==> keys[j] != key)
    ensures if key in keys then i < |keys| && keys[i] == key else i == |keys|
  {
    if keys == [] then 0 else if keys[0] == key then 0 else 1 + IndexOf(keys[1..], key)
  }

  lemma ResolvedPathIsFetched(env: Env, program: Option<Loaded>)
    ensures Resolve(env, program).Ok? ==>
              var path := PathOf(Resolve(env, program).value);
              |path| < MAX_HOPS && forall i :: 0 <= i < |path| ==> path[i] in env.fetch
  {
    if program.Some? {
      if Resolve(env, program).Ok? && program.value.key != env.ids.nativeLoader {
        WalkPath(env, program.value.account.owner, MAX_HOPS);
      }
    }
  }

  /** The account that an instruction names, among the message's accounts and the loader accounts
      appended so far. */
  function ProgramAt(accounts: seq<Loaded>, index: nat): Option<Loaded> {
    if index < |accounts| then Some(accounts[index]) else None
  }

  /** The loader accounts to append and how every instruction resolves, or the first error. */
  datatype Plan = Plan(loaders: seq<Pubkey>, routes: seq<Route>)

  function PlanFor(env: Env, own: seq<Loaded>, programs: seq<byte>): (r: Result<Plan, TransactionError>)
    ensures r.Ok? ==> Fetched(env, r.value.loaders) && |r.value.routes| == |programs|
  {
    if programs == [] then Ok(Plan([], []))
    else
      var n := |programs| - 1;
      match PlanFor(env, own, programs[..n])
      case Err(e) => Err(e)
      case Ok(plan) =>
        match Resolve(env, ProgramAt(own + LoaderAccounts(env, plan.loaders), programs[n]))
        case Err(e) => Err(e)
        case Ok(route) =>
          ResolvedPathIsFetched(env, ProgramAt(own + LoaderAccounts(env, plan.loaders), programs[n]));
          AddNewMeaning(env, plan.loaders, PathOf(route));
          Ok(Plan(AddNew(plan.loaders, PathOf(route)), plan.routes + [route]))
  }

  // ----- Chains of indices

  /** Indices of the program and of the owners above it. */
  function Nodes(start: nat, index: nat, loaders: seq<Pubkey>, path: seq<Pubkey>): (nodes: seq<nat>)
    ensures |nodes| == |path| + 1 && nodes[0] == index
  {
    [index] + seq(|path|, i requires 0 <= i < |path| => start + IndexOf(loaders, path[i]))
  }

  /** The indices that are recorded for an instruction: topmost owner first, program last. */
  function Chain(start: nat, index: nat, loaders: seq<Pubkey>, route: Route): seq<nat> {
    match route
    case None => []
    case Some(path) => Reversed(Nodes(start, index, loaders, path))
  }

  /** The entries of a non-empty chain: it ends at the program, and the owner of each later entry is
      the key of the entry before it. */
  ghost predicate ChainLinked(accounts: seq<Loaded>, program: nat, chain: seq<nat>) {
    && chain != [] && chain[|chain| - 1] == program
    && (forall i :: 0 <= i < |chain| ==> chain[i] < |accounts|)
    && (forall i, j :: 0 <= i < |chain| && j == i + 1 && j < |chain| ==>
          accounts[chain[j]].account.owner == accounts[chain[i]].key)
  }

  /** What a recorded chain means, in terms of the transaction's accounts alone: it is empty
      exactly for the native loader; otherwise it has one to five entries, ends at the program,
      starts at an account owned by the native loader, and the owner of each later entry is the
      key of the entry before it. */
  ghost predicate ChainOk(nativeLoader: Pubkey, accounts: seq<Loaded>, program: nat, chain: seq<nat>) {
    && program < |accounts|
    && (chain == [] <==> accounts[program].key == nativeLoader)
    && |chain| <= 5
    && (chain != [] ==>
          ChainLinked(accounts, program, chain) && accounts[chain[0]].account.owner == nativeLoader)
  }

  /** The instruction resolves along `route`, and all loaders on the route have been appended. */
  ghost predicate RouteOk(env: Env, own: seq<Loaded>, loaders: seq<Pubkey>, index: nat, route: Route)
    requires Fetched(env, loaders)
  {
    && Resolve(env, ProgramAt(own + LoaderAccounts(env, loaders), index)) == Ok(route)
    && forall k :: k in PathOf(route) ==> k in loaders
  }

  /** Node `i + 1` is the account of the path's entry `i`. */
  lemma NodeIsLoader(env: Env, own: seq<Loaded>, loaders: seq<Pubkey>, index: nat, path: seq<Pubkey>, i: nat)
    requires Fetched(env, loaders) && i < |path| && path[i] in loaders
    ensures var accounts, node := own + LoaderAccounts(env, loaders), Nodes(|own|, index, loaders, path)[i + 1];
            node < |accounts| && accounts[node] == Loaded(path[i], env.fetch[path[i]])
  {
  }

  /** Node `i` is an account, owned by the next node's key or, for the last one, by the native
      loader. */
  ghost predicate NodeOk(env: Env, accounts: seq<Loaded>, nodes: seq<nat>, i: nat)
    requires i < |nodes|
  {
    && nodes[i] < |accounts|
    && if i + 1 == |nodes| then accounts[nodes[i]].account.owner == env.ids.nativeLoader
       else nodes[i + 1] < |accounts| && accounts[nodes[i]].account.owner == accounts[nodes[i + 1]].key
  }

  lemma ReversedNodes(env: Env, accounts: seq<Loaded>, nodes: seq<nat>)
    requires 0 < |nodes| <= MAX_HOPS && forall i :: 0 <= i < |nodes| ==> NodeOk(env, accounts, nodes, i)
    requires nodes[0] < |accounts| && accounts[nodes[0]].key != env.ids.nativeLoader
    ensures ChainOk(env.ids.nativeLoader, accounts, nodes[0], Reversed(nodes))
  {
    var chain, n := Reversed(nodes), |nodes|;
    assert NodeOk(env, accounts, nodes, 0) && NodeOk(env, accounts, nodes, n - 1);
    assert forall i :: 0 <= i < n ==> NodeOk(env, accounts, nodes, n - 1 - i) && chain[i] == nodes[n - 1 - i];
  }

  lemma EmptyChainOk(nativeLoader: Pubkey, accounts: seq<Loaded>, program: nat)
    requires program < |accounts| && accounts[program].key == nativeLoader
    ensures ChainOk(nativeLoader, accounts, program, [])
  {
  }

  lemma RouteNodeOk(env: Env, own: seq<Loaded>, loaders: seq<Pubkey>, index: nat, path: seq<Pubkey>, i: nat)
    requires Fetched(env, loaders) && RouteOk(env, own, loaders, index, Some(path)) && i <= |path|
    ensures NodeOk(env, own + LoaderAccounts(env, loaders), Nodes(|own|, index, loaders, path), i)
  {
    hide IndexOf;
    var accounts := own + LoaderAccounts(env, loaders);
    WalkLinks(env, accounts[index].account.owner, MAX_HOPS);
    if i > 0 {
      assert path[i - 1] in PathOf(Some(path)) && Linked(env, path, i - 1);
      NodeIsLoader(env, own, loaders, index, path, i - 1);
    }
    if i < |path| {
      assert path[i] in PathOf(Some(path));
      NodeIsLoader(env, own, loaders, index, path, i);
    }
  }

  lemma ChainMeaning(env: Env, own: seq<Loaded>, loaders: seq<Pubkey>, index: nat, route: Route)
    requires Fetched(env, loaders) && RouteOk(env, own, loaders, index, route)
    ensures ChainOk(env.ids.nativeLoader, own + LoaderAccounts(env, loaders), index,
                    Chain(|own|, index, loaders, route))
  {
    hide IndexOf, Reversed, ChainOk, Nodes, NodeOk;
    var accounts := own + LoaderAccounts(env, loaders);
    match route
    case None =>
      EmptyChainOk(env.ids.nativeLoader, accounts, index);
    case Some(path) =>
      var nodes := Nodes(|own|, index, loaders, path);
      WalkPath(env, accounts[index].account.owner, MAX_HOPS);
      forall i | 0 <= i < |nodes|
        ensures NodeOk(env, accounts, nodes, i)
      {
        RouteNodeOk(env, own, loaders, index, path, i);
      }
      ReversedNodes(env, accounts, nodes);
  }

  lemma IndexOfStable(keys: seq<Pubkey>, more: seq<Pubkey>, key: Pubkey)
    requires keys <= more && key in keys
    ensures IndexOf(more, key) == IndexOf(keys, key)
  {
    assert more[IndexOf(keys, key)] == key;
    assert forall j :: 0 <= j < IndexOf(keys, key) ==> more[j] != key;
  }

  lemma NodesStable(start: nat, index: nat, loaders: seq<Pubkey>, more: seq<Pubkey>, path: seq<Pubkey>)
    requires loaders <= more && forall k :: k in path ==> k in loaders
    ensures Nodes(start, index, more, path) == Nodes(start, index, loaders, path)
  {
    hide IndexOf;
    var nodes, nodes' := Nodes(start, index, loaders, path), Nodes(start, index, more, path);
    forall i | 0 <= i < |nodes|
      ensures nodes[i] == nodes'[i]
    {
      if i > 0 {
        assert path[i - 1] in path;
        IndexOfStable(loaders, more, path[i - 1]);
      }
    }
  }

  /** Appending loader accounts changes no chain that was recorded before. */
  lemma ChainStable(start: nat, index: nat, loaders: seq<Pubkey>, more: seq<Pubkey>, route: Route)
    requires loaders <= more && forall k :: k in PathOf(route) ==> k in loaders
    ensures Chain(start, index, more, route) == Chain(start, index, loaders, route)
  {
    hide IndexOf, Reversed;
    if route.Some? {
      NodesStable(start, index, loaders, more, route.value);
    }
  }

  // ----- Whole messages

  lemma RouteStable(env: Env, own: seq<Loaded>, loaders: seq<Pubkey>, more: seq<Pubkey>, index: nat, route: Route)
    requires Fetched(env, loaders) && Fetched(env, more) && loaders <= more
    requires RouteOk(env, own, loaders, index, route)
    ensures RouteOk(env, own, more, index, route)
  {
    var accounts, all := own + LoaderAccounts(env, loaders), own + LoaderAccounts(env, more);
    assert index < |accounts| ==> accounts[index] == all[index];
  }

  /** The last instruction of a plan. */
  lemma PlanStep(env: Env, own: seq<Loaded>, programs: seq<byte>)
    requires programs != [] && PlanFor(env, own, programs).Ok?
    ensures var n := |programs| - 1;
            && PlanFor(env, own, programs[..n]).Ok?
            && var before, plan := PlanFor(env, own, programs[..n]).value, PlanFor(env, own, programs).value;
            && before.loaders <= plan.loaders && plan.routes == before.routes + [plan.routes[n]]
            && RouteOk(env, own, plan.loaders, programs[n], plan.routes[n])
            && |plan.loaders| <= |before.loaders| + 4
            && forall k :: k in plan.loaders ==> k in before.loaders || k in PathOf(plan.routes[n])
  {
    var n := |programs| - 1;
    var before, plan := PlanFor(env, own, programs[..n]).value, PlanFor(env, own, programs).value;
    var accounts, all := own + LoaderAccounts(env, before.loaders), own + LoaderAccounts(env, plan.loaders);
    ResolvedPathIsFetched(env, ProgramAt(accounts, programs[n]));
    AddNewMeaning(env, before.loaders, PathOf(plan.routes[n]));
    assert programs[n] < |accounts| ==> accounts[programs[n]] == all[programs[n]];
  }

  /** An instruction before the last one still resolves as recorded. */
  lemma EarlierRoute(env: Env, own: seq<Loaded>, programs: seq<byte>, i: nat)
    requires i < |programs| - 1 && PlanFor(env, own, programs).Ok?
    requires PlanFor(env, own, programs[..|programs| - 1]).Ok?
    requires var before := PlanFor(env, own, programs[..|programs| - 1]).value;
             RouteOk(env, own, before.loaders, programs[..|programs| - 1][i], before.routes[i])
    ensures var plan := PlanFor(env, own, programs).value;
            RouteOk(env, own, plan.loaders, programs[i], plan.routes[i])
  {
    hide PlanFor, RouteOk;
    PlanStep(env, own, programs);
    var before, plan := PlanFor(env, own, programs[..|programs| - 1]).value, PlanFor(env, own, programs).value;
    RouteStable(env, own, before.loaders, plan.loaders, programs[i], before.routes[i]);
  }

  /** Every instruction of a plan still resolves as recorded once all loader accounts are appended. */
  lemma {:induction false} PlanRoutes(env: Env, own: seq<Loaded>, programs: seq<byte>)
    requires PlanFor(env, own, programs).Ok?
    ensures var plan := PlanFor(env, own, programs).value;
            forall i :: 0 <= i < |programs| ==> RouteOk(env, own, plan.loaders, programs[i], plan.routes[i])
    decreases |programs|
  {
    hide PlanFor, RouteOk;
    if programs != [] {
      var n := |programs| - 1;
      PlanStep(env, own, programs);
      PlanRoutes(env, own, programs[..n]);
      var plan := PlanFor(env, own, programs).value;
      forall i | 0 <= i < |programs|
        ensures RouteOk(env, own, plan.loaders, programs[i], plan.routes[i])
      {
        if i < n {
          EarlierRoute(env, own, programs, i);
        }
      }
    }
  }

  /** Four accounts at most are appended per instruction, and every one of them is on some
      instruction's path. */
  lemma {:induction false} PlanLoaders(env: Env, own: seq<Loaded>, programs: seq<byte>)
    requires PlanFor(env, own, programs).Ok?
    ensures var plan := PlanFor(env, own, programs).value;
            && |plan.loaders| <= 4 * |programs|
            && forall k :: k in plan.loaders ==> exists i :: 0 <= i < |programs| && k in PathOf(plan.routes[i])
    decreases |programs|
  {
    if programs != [] {
      var n := |programs| - 1;
      PlanLoaders(env, own, programs[..n]);
      PlanStep(env, own, programs);
      var before, plan := PlanFor(env, own, programs[..n]).value, PlanFor(env, own, programs).value;
      forall k | k in plan.loaders
        ensures exists i :: 0 <= i < |programs| && k in PathOf(plan.routes[i])
      {
        if k in before.loaders {
          var i :| 0 <= i < n && k in PathOf(before.routes[i]);
          assert plan.routes[i] == before.routes[i];
        } else {
          assert k in PathOf(plan.routes[n]);
        }
      }
    }
  }

  /** A program that resolves: it is the native loader, or the native loader is among the first
      five owners above it, every owner in between being fetchable. */
  ghost predicate Resolves(env: Env, program: Loaded) {
    || program.key == env.ids.nativeLoader
    || exists j :: 0 <= j < 5 && OwnerAt(env, program.account.owner, j) == Some(env.ids.nativeLoader)
  }

  /** The first five owners above the program can be fetched, and none is the native loader. */
  ghost predicate TooDeep(env: Env, program: Loaded) {
    && program.key != env.ids.nativeLoader
    && OwnerAt(env, program.account.owner, 5).Some?
    && forall j :: 0 <= j < 5 ==> OwnerAt(env, program.account.owner, j) != Some(env.ids.nativeLoader)
  }

  /** `k` is one of the owners between the program and the native loader. */
  ghost predicate Above(env: Env, program: Loaded, k: Pubkey) {
    && program.key != env.ids.nativeLoader
    && exists j :: 0 <= j < 5 && OwnerAt(env, program.account.owner, j) == Some(k)
                   && forall i :: 0 <= i <= j ==> OwnerAt(env, program.account.owner, i) != Some(env.ids.nativeLoader)
  }

  /** The path of a program that resolves has exactly the owners between it and the native loader. */
  lemma PathMeaning(env: Env, program: Loaded, k: Pubkey)
    requires Resolve(env, Some(program)).Ok?
    ensures k in PathOf(Resolve(env, Some(program)).value) <==> Above(env, program, k)
  {
    hide Walk;
    if program.key != env.ids.nativeLoader {
      var owner, path := program.account.owner, PathOf(Resolve(env, Some(program)).value);
      WalkPath(env, owner, MAX_HOPS);
      if k in path {
        var j :| 0 <= j < |path| && path[j] == k;
        assert OwnerAt(env, owner, j) == Some(k);
        forall i | 0 <= i <= j
          ensures OwnerAt(env, owner, i) != Some(env.ids.nativeLoader)
        {
          assert OwnerAt(env, owner, i) == Some(path[i]);
        }
      }
      if Above(env, program, k) {
        var j :| 0 <= j < 5 && OwnerAt(env, owner, j) == Some(k)
                 && forall i :: 0 <= i <= j ==> OwnerAt(env, owner, i) != Some(env.ids.nativeLoader);
        assert j < |path|;
        assert OwnerAt(env, owner, j) == Some(path[j]);
      }
    }
  }

  lemma ResolveMeaning(env: Env, program: Loaded)
    ensures Resolve(env, Some(program)).Ok? <==> Resolves(env, program)
    ensures Resolve(env, Some(program)) == Err(CallChainTooDeep) <==> TooDeep(env, program)
    ensures Resolve(env, Some(program)) == Ok(None) <==> program.key == env.ids.nativeLoader
    ensures TooDeep(env, program) ==> !Resolves(env, program)
  {
    WalkMeaning(env, program.account.owner, MAX_HOPS);
  }

  /** The first instruction that does not resolve decides the error. */
  lemma PlanAfter(env: Env, own: seq<Loaded>, programs: seq<byte>)
    requires programs != [] && programs[|programs| - 1] < |own|
    ensures var n := |programs| - 1;
            var before, plan := PlanFor(env, own, programs[..n]), PlanFor(env, own, programs);
            && (plan.Ok? <==> before.Ok? && Resolves(env, own[programs[n]]))
            && (plan == Err(CallChainTooDeep) <==>
                  before == Err(CallChainTooDeep) || (before.Ok? && TooDeep(env, own[programs[n]])))
  {
    var n := |programs| - 1;
    ResolveMeaning(env, own[programs[n]]);
    if PlanFor(env, own, programs[..n]).Ok? {
      var accounts := own + LoaderAccounts(env, PlanFor(env, own, programs[..n]).value.loaders);
      assert accounts[programs[n]] == own[programs[n]];
    }
  }

  ghost predicate AllResolve(env: Env, own: seq<Loaded>, programs: seq<byte>)
    requires forall i :: 0 <= i < |programs| ==> programs[i] < |own|
  {
    forall i :: 0 <= i < |programs| ==> Resolves(env, own[programs[i]])
  }

  lemma PlanForNothing(env: Env, own: seq<Loaded>)
    ensures PlanFor(env, own, []) == Ok(Plan([], []))
  {
  }

  /** For a message whose instructions name its own accounts: the load of the loaders succeeds
      exactly when every instruction's program resolves. */
  lemma {:induction false} PlanExistsExactlyWhenAllResolve(env: Env, own: seq<Loaded>, programs: seq<byte>)
    requires forall i :: 0 <= i < |programs| ==> programs[i] < |own|
    ensures PlanFor(env, own, programs).Ok? <==> AllResolve(env, own, programs)
    decreases |programs|
  {
    hide Resolves, PlanFor;
    if programs == [] {
      PlanForNothing(env, own);
    } else {
      var n := |programs| - 1;
      PlanExistsExactlyWhenAllResolve(env, own, programs[..n]);
      PlanAfter(env, own, programs);
      assert forall i :: 0 <= i < n ==> programs[..n][i] == programs[i];
    }
  }

  /** For such a message, the call chain is too deep exactly when the first five owners of some
      instruction's program can all be fetched without meeting the native loader, and all
      instructions before it resolve. */
  lemma {:induction false} TooDeepExactlyWhen(env: Env, own: seq<Loaded>, programs: seq<byte>)
    requires forall i :: 0 <= i < |programs| ==> programs[i] < |own|
    ensures PlanFor(env, own, programs) == Err(CallChainTooDeep) <==>
            exists i :: 0 <= i < |programs| && TooDeep(env, own[programs[i]]) && AllResolve(env, own, programs[..i])
    decreases |programs|
  {
    hide Resolves, TooDeep, PlanFor, AllResolve;
    if programs == [] {
      PlanForNothing(env, own);
    } else {
      var n := |programs| - 1;
      var init := programs[..n];
      TooDeepExactlyWhen(env, own, init);
      PlanExistsExactlyWhenAllResolve(env, own, init);
      PlanAfter(env, own, programs);
      assert forall i :: 0 <= i < n ==> init[i] == programs[i] && init[..i] == programs[..i];
    }
  }

  /** The loaders of a plan are the owners between the programs and the native loader. */
  lemma LoadersMeaning(env: Env, own: seq<Loaded>, programs: seq<byte>, k: Pubkey)
    requires PlanFor(env, own, programs).Ok? && forall i :: 0 <= i < |programs| ==> programs[i] < |own|
    ensures k in PlanFor(env, own, programs).value.loaders <==>
            exists i :: 0 <= i < |programs| && Above(env, own[programs[i]], k)
  {
    hide PlanFor, Resolve, Above;
    var plan := PlanFor(env, own, programs).value;
    PlanRoutes(env, own, programs);
    PlanLoaders(env, own, programs);
    var accounts := own + LoaderAccounts(env, plan.loaders);
    forall i | 0 <= i < |programs|
      ensures k in PathOf(plan.routes[i]) <==> Above(env, own[programs[i]], k)
      ensures k in PathOf(plan.routes[i]) ==> k in plan.loaders
    {
      assert RouteOk(env, own, plan.loaders, programs[i], plan.routes[i]);
      assert accounts[programs[i]] == own[programs[i]];
      PathMeaning(env, own[programs[i]], k);
    }
  }
}
