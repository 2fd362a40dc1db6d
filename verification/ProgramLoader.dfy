/** Which programs a batch of messages needs: a list without duplicates, kept sorted by
    binary-search insertion. */
module ProgramLoader {
  import opened Words
  import opened Accounts

  // ----- The order of keys

  /** Keys are compared byte by byte. */
  predicate Less(a: seq<byte>, b: seq<byte>) {
    if a == [] || b == [] then a == [] && b != []
    else a[0] < b[0] || (a[0] == b[0] && Less(a[1..], b[1..]))
  }

  lemma {:induction false} LessTransitive(a: seq<byte>, b: seq<byte>, c: seq<byte>)
    requires Less(a, b) && Less(b, c)
    ensures Less(a, c)
    decreases |a|
  {
    if a != [] && a[0] == b[0] == c[0] {
      LessTransitive(a[1..], b[1..], c[1..]);
    }
  }

  lemma {:induction false} LessTotal(a: seq<byte>, b: seq<byte>)
    ensures (if Less(a, b) then 1 else 0) + (if Less(b, a) then 1 else 0) + (if a == b then 1 else 0) == 1
    decreases |a|
  {
    if a != [] && b != [] && a[0] == b[0] {
      LessTotal(a[1..], b[1..]);
      assert a == [a[0]] + a[1..] && b == [b[0]] + b[1..];
    }
  }

  /** `a` is smaller in the first byte in which the two differ. */
  ghost predicate FirstDifferenceBelow(a: seq<byte>, b: seq<byte>) {
    exists d :: 0 <= d < |a| && d < |b| && a[..d] == b[..d] && a[d] < b[d]
  }

  lemma {:induction false} LessMeaning(a: seq<byte>, b: seq<byte>)
    requires |a| == |b|
    ensures Less(a, b) <==> FirstDifferenceBelow(a, b)
    decreases |a|
  {
    if a != [] {
      LessMeaning(a[1..], b[1..]);
      if FirstDifferenceBelow(a[1..], b[1..]) && a[0] == b[0] {
        var d :| 0 <= d < |a[1..]| && a[1..][..d] == b[1..][..d] && a[1..][d] < b[1..][d];
        assert a[..d + 1] == [a[0]] + a[1..][..d] && b[..d + 1] == [b[0]] + b[1..][..d];
      }
      if FirstDifferenceBelow(a, b) {
        var d :| 0 <= d < |a| && a[..d] == b[..d] && a[d] < b[d];
        if d > 0 {
          assert a[..d][0] == a[0] && b[..d][0] == b[0];
          assert a[1..][..d - 1] == a[..d][1..] && b[1..][..d - 1] == b[..d][1..];
          assert a[1..][d - 1] < b[1..][d - 1];
        }
      }
    }
  }

  ghost predicate Sorted(keys: seq<Pubkey>) {
    forall i, j :: 0 <= i < j < |keys| ==> Less(keys[i], keys[j])
  }

  lemma FirstIsLeast(a: seq<Pubkey>, b: seq<Pubkey>)
    requires Sorted(a) && a != [] && b != [] && b[0] in a
    ensures a[0] == b[0] || Less(a[0], b[0])
  {
  }

  /** A strictly sorted list is determined by its elements. */
  lemma {:induction false} SortedUnique(a: seq<Pubkey>, b: seq<Pubkey>)
    requires Sorted(a) && Sorted(b) && forall k :: k in a <==> k in b
    ensures a == b
    decreases |a|
  {
    if a == [] {
      assert forall k :: k !in b;
      assert forall i :: 0 <= i < |b| ==> b[i] in b;
    } else {
      assert a[0] in b;
      FirstIsLeast(a, b);
      FirstIsLeast(b, a);
      LessTotal(a[0], b[0]);
      LessTotal(a[0], a[0]);
      assert forall k :: k in a[1..] ==> Less(a[0], k);
      assert forall k :: k in b[1..] ==> Less(a[0], k);
      forall k
        ensures k in a[1..] <==> k in b[1..]
      {
        assert k in a <==> k == a[0] || k in a[1..];
        assert k in b <==> k == b[0] || k in b[1..];
      }
      SortedUnique(a[1..], b[1..]);
    }
  }

  // ----- Insertion

  /** Searches a sorted list: the place of the key, or else where to insert it. */
  method BinarySearch(keys: seq<Pubkey>, key: Pubkey) returns (r: Result<nat, nat>)
    requires Sorted(keys)
    ensures r.Ok? ==> r.value < |keys| && keys[r.value] == key
    ensures r.Err? ==>
              && r.error <= |keys|
              && (forall i :: 0 <= i < r.error ==> Less(keys[i], key))
              && (forall i :: r.error <= i < |keys| ==> Less(key, keys[i]))
  {
    var lo, hi := 0, |keys|;
    while lo < hi
      invariant 0 <= lo <= hi <= |keys|
      invariant forall i :: 0 <= i < lo ==> Less(keys[i], key)
      invariant forall i :: hi <= i < |keys| ==> Less(key, keys[i])
    {
      var mid := (lo + hi) / 2;
      LessTotal(keys[mid], key);
      if keys[mid] == key {
        return Ok(mid);
      } else if Less(keys[mid], key) {
        forall i | 0 <= i < mid
          ensures Less(keys[i], key)
        {
          LessTransitive(keys[i], keys[mid], key);
        }
        lo := mid + 1;
      } else {
        forall i | mid < i < |keys|
          ensures Less(key, keys[i])
        {
          LessTransitive(key, keys[mid], keys[i]);
        }
        hi := mid;
      }
    }
    return Err(lo);
  }

  lemma SortedInsert(keys: seq<Pubkey>, i: nat, key: Pubkey)
    requires Sorted(keys) && i <= |keys|
    requires forall k :: 0 <= k < i ==> Less(keys[k], key)
    requires forall k :: i <= k < |keys| ==> Less(key, keys[k])
    ensures var inserted := keys[..i] + [key] + keys[i..];
            Sorted(inserted) && forall k :: k in inserted <==> k in keys || k == key
  {
    hide Less;
    assert keys == keys[..i] + keys[i..];
  }

  /** Inserts the key in its place, unless it is there. */
  method InsertKey(keys: seq<Pubkey>, key: Pubkey) returns (keys': seq<Pubkey>)
    requires Sorted(keys)
    ensures Sorted(keys')
    ensures forall k :: k in keys' <==> k in keys || k == key
  {
    hide Less;
    var found := BinarySearch(keys, key);
    match found
    case Ok(_) =>
      return keys;
    case Err(i) =>
      SortedInsert(keys, i, key);
      return keys[..i] + [key] + keys[i..];
  }

  // ----- The missing programs

  /** The key's account is owned by one of the program owners. */
  predicate IsProgram(fetch: map<Pubkey, Account>, owners: set<Pubkey>, key: Pubkey) {
    key in fetch && fetch[key].owner in owners
  }

  ghost predicate Mentioned(messages: seq<seq<Pubkey>>, key: Pubkey) {
    exists i :: 0 <= i < |messages| && key in messages[i]
  }

  ghost predicate AllFetched(fetch: map<Pubkey, Account>, messages: seq<seq<Pubkey>>) {
    forall i :: 0 <= i < |messages| ==> forall k :: k in messages[i] ==> k in fetch
  }

  /** The specification: sorted, and exactly the programs that the messages mention together with
      the builtins. */
  ghost predicate Missing(fetch: map<Pubkey, Account>, owners: set<Pubkey>, builtins: set<Pubkey>,
                          messages: seq<seq<Pubkey>>, keys: seq<Pubkey>)
  {
    && Sorted(keys)
    && forall k :: k in keys <==> (Mentioned(messages, k) && IsProgram(fetch, owners, k)) || k in builtins
  }

  /** The programs among one message's keys. */
  method AddMessage(fetch: map<Pubkey, Account>, owners: set<Pubkey>, message: seq<Pubkey>, keys: seq<Pubkey>)
    returns (r: Result<seq<Pubkey>, TransactionError>)
    requires Sorted(keys)
    ensures r.Ok? <==> forall k :: k in message ==> k in fetch
    ensures r.Ok? ==>
              && Sorted(r.value)
              && forall k :: k in r.value <==> k in keys || (k in message && IsProgram(fetch, owners, k))
  {
    var missing := keys;
    for i := 0 to |message|
      invariant Sorted(missing)
      invariant forall k :: k in message[..i] ==> k in fetch
      invariant forall k :: k in missing <==> k in keys || (k in message[..i] && IsProgram(fetch, owners, k))
    {
      var key := message[i];
      assert message[..i + 1] == message[..i] + [key];
      if key !in fetch {
        assert key in message;
        return Err(AccountNotFound);
      }
      if fetch[key].owner in owners {
        missing := InsertKey(missing, key);
      }
    }
    assert message[..|message|] == message;
    return Ok(missing);
  }

  lemma MentionedNext(messages: seq<seq<Pubkey>>, i: nat)
    requires i < |messages|
    ensures forall k :: Mentioned(messages[..i + 1], k) <==> Mentioned(messages[..i], k) || k in messages[i]
  {
    var upTo, next := messages[..i], messages[..i + 1];
    forall k
      ensures Mentioned(next, k) <==> Mentioned(upTo, k) || k in messages[i]
    {
      if Mentioned(next, k) {
        var m :| 0 <= m < |next| && k in next[m];
        assert m < i ==> k in upTo[m];
      }
      if Mentioned(upTo, k) {
        var m :| 0 <= m < |upTo| && k in upTo[m];
        assert k in next[m];
      }
      if k in messages[i] {
        assert k in next[i];
      }
    }
  }

  lemma MissingMeaning(fetch: map<Pubkey, Account>, owners: set<Pubkey>, builtins: set<Pubkey>,
                       messages: seq<seq<Pubkey>>, keys: seq<Pubkey>)
    requires Missing(fetch, owners, builtins, messages, keys)
    ensures forall i, j :: 0 <= i < j < |keys| ==> FirstDifferenceBelow(keys[i], keys[j])
    ensures forall key :: key in keys <==>
              key in builtins || (key in fetch && fetch[key].owner in owners
                                  && exists message :: message in messages && key in message)
  {
    forall i, j | 0 <= i < j < |keys|
      ensures FirstDifferenceBelow(keys[i], keys[j])
    {
      LessMeaning(keys[i], keys[j]);
    }
  }

  /** Collects the programs of all messages and the builtins, which come from a set in no
      particular order. */
  method CollectMissing(fetch: map<Pubkey, Account>, owners: set<Pubkey>, builtins: set<Pubkey>,
                        messages: seq<seq<Pubkey>>)
    returns (r: Result<seq<Pubkey>, TransactionError>)
    ensures r.Ok? <==> AllFetched(fetch, messages)
    ensures r.Ok? ==> Missing(fetch, owners, builtins, messages, r.value)
    ensures r.Err? ==> r.error == AccountNotFound
    // the same without the order and the owners by name
    ensures r.Ok? <==> forall message, key :: message in messages && key in message ==> key in fetch
    ensures r.Ok? ==>
              && (forall i, j :: 0 <= i < j < |r.value| ==> FirstDifferenceBelow(r.value[i], r.value[j]))
              && forall key :: key in r.value <==>
                   key in builtins || (key in fetch && fetch[key].owner in owners
                                       && exists message :: message in messages && key in message)
  {
    hide Less, FirstDifferenceBelow;
    var missing: seq<Pubkey> := [];
    for i := 0 to |messages|
      invariant Sorted(missing)
      invariant forall m :: 0 <= m < i ==> forall k :: k in messages[m] ==> k in fetch
      invariant forall k :: k in missing <==> Mentioned(messages[..i], k) && IsProgram(fetch, owners, k)
    {
      var added := AddMessage(fetch, owners, messages[i], missing);
      if added.Err? {
        return Err(AccountNotFound);
      }
      MentionedNext(messages, i);
      missing := added.value;
    }
    assert messages[..|messages|] == messages;
    ghost var programs := missing;
    var rest := builtins;
    while rest != {}
      invariant Sorted(missing) && rest <= builtins
      invariant forall k :: k in missing <==> k in programs || (k in builtins && k !in rest)
      decreases rest
    {
      var builtin :| builtin in rest;
      missing := InsertKey(missing, builtin);
      rest := rest - {builtin};
    }
    MissingMeaning(fetch, owners, builtins, messages, missing);
    return Ok(missing);
  }

  /** The result does not depend on the order of the messages, of the keys within them, or of the
      builtins: batches that mention the same keys get the same list. */
  lemma MissingIsCanonical(fetch: map<Pubkey, Account>, owners: set<Pubkey>, builtins: set<Pubkey>,
                           messages1: seq<seq<Pubkey>>, messages2: seq<seq<Pubkey>>,
                           keys1: seq<Pubkey>, keys2: seq<Pubkey>)
    requires forall k :: Mentioned(messages1, k) <==> Mentioned(messages2, k)
    requires Missing(fetch, owners, builtins, messages1, keys1)
    requires Missing(fetch, owners, builtins, messages2, keys2)
    ensures keys1 == keys2
  {
    SortedUnique(keys1, keys2);
  }

  lemma FailureNeedsMissingKey(fetch: map<Pubkey, Account>, messages: seq<seq<Pubkey>>)
    ensures AllFetched(fetch, messages) <==> forall k :: Mentioned(messages, k) ==> k in fetch
  {
    if forall k :: Mentioned(messages, k) ==> k in fetch {
      forall i | 0 <= i < |messages|
        ensures forall k :: k in messages[i] ==> k in fetch
      {
        assert forall k :: k in messages[i] ==> Mentioned(messages, k);
      }
    }
  }

  /** Nor does it depend on the order whether the collection fails. */
  lemma FailureIsCanonical(fetch: map<Pubkey, Account>, messages1: seq<seq<Pubkey>>, messages2: seq<seq<Pubkey>>)
    requires forall k :: Mentioned(messages1, k) <==> Mentioned(messages2, k)
    ensures AllFetched(fetch, messages1) <==> AllFetched(fetch, messages2)
  {
    FailureNeedsMissingKey(fetch, messages1);
    FailureNeedsMissingKey(fetch, messages2);
  }
}
