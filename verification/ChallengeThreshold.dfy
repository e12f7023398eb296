/** The weight threshold of a challenge: VerifyChallengeTxThreshold of txnbuild/transaction.go. */
module ChallengeThreshold {
  import opened Arithmetic
  import opened Challenge
  import opened Sequences
  import opened SignerOrder
  import opened Wrappers

  // ----- Adding weights -----

  /** The weights added up in 32 bits, in the order listed. */
  ghost function WeightOf<K>(found: seq<K>, summary: map<K, int32>): int32
    requires forall s :: s in found ==> s in summary
  {
    if found == [] then 0 else
    var n := |found| - 1;
    ToInt32(WeightOf(found[..n], summary) + summary[found[n]])
  }

  /** The true total weight. */
  ghost function Total<K>(found: set<K>, summary: map<K, int32>): int
    requires found <= summary.Keys
  {
    if found == {} then 0 else
    var s :| s in found;
    summary[s] + Total(found - {s}, summary)
  }

  lemma {:induction false} TotalWithout<K>(found: set<K>, summary: map<K, int32>, x: K)
    requires found <= summary.Keys && x in found
    ensures Total(found, summary) == summary[x] + Total(found - {x}, summary)
    decreases |found|
  {
    var s :| s in found && Total(found, summary) == summary[s] + Total(found - {s}, summary);
    if s != x {
      TotalWithout(found - {s}, summary, x);
      TotalWithout(found - {x}, summary, s);
      assert found - {s} - {x} == found - {x} - {s};
    }
  }

  lemma TotalOfNone<K>(summary: map<K, int32>)
    ensures Total({}, summary) == 0
  {
  }

  lemma WrapTwice(x: int, y: int)
    ensures ToInt32(ToInt32(x) + y) == ToInt32(x + y)
  {
    var k := WrapsBy(x);
    hide ToInt32;
    SameWrap(x + y, k);
  }

  lemma WrapsBy(x: int) returns (k: int)
    ensures ToInt32(x) == x + 0x1_0000_0000 * k
  {
    k := -(x / 0x1_0000_0000) - (if x % 0x1_0000_0000 > MAX_INT32 then 1 else 0);
  }

  lemma SameWrap(x: int, k: int)
    ensures ToInt32(x + 0x1_0000_0000 * k) == ToInt32(x)
  {
    assert (x + 0x1_0000_0000 * k) / 0x1_0000_0000 == x / 0x1_0000_0000 + k;
  }

  lemma ElementsWithoutLast<T(!new)>(xs: seq<T>)
    requires Distinct(xs) && xs != []
    ensures var n := |xs| - 1;
      && Distinct(xs[..n]) && xs[n] in Elements(xs)
      && Elements(xs[..n]) == Elements(xs) - {xs[n]}
      && (forall x :: x in xs[..n] ==> x in xs)
  {
    assert xs == xs[..|xs| - 1] + [xs[|xs| - 1]];
  }

  /** Adding in 32 bits gives the true total, wrapped once, in any order. */
  lemma {:induction false} WeightIsWrappedTotal<K(!new)>(found: seq<K>, summary: map<K, int32>)
    requires Distinct(found) && forall s :: s in found ==> s in summary
    ensures WeightOf(found, summary) == ToInt32(Total(Elements(found), summary))
  {
    assert ToInt32(0) == 0;
    hide ToInt32, Total, Distinct;
    if found == [] {
      assert Elements(found) == {};
      TotalOfNone(summary);
    } else {
      var n := |found| - 1;
      ElementsWithoutLast(found);
      hide Elements;
      WeightIsWrappedTotal(found[..n], summary);
      TotalWithout(Elements(found), summary, found[n]);
      WrapTwice(Total(Elements(found[..n]), summary), summary[found[n]]);
    }
  }

  type Summary = map<string, int32>

  ghost predicate Enumerates(order: seq<string>, keys: set<string>) {
    Distinct(order) && Elements(order) == keys
  }

  ghost function ThresholdOutcome(k: Scheme, read: Option<Transaction>, server: string, threshold: nat,
                                  summary: Summary, order: seq<string>): Outcome
    requires Elements(order) <= summary.Keys
  {
    var r := SignersOutcome(k, read, server, order);
    FoundAmong(k, read, server, order);
    if r.error.Some? then Outcome([], r.error) else
    var weight := WeightOf(r.found, summary);
    if weight < threshold then Outcome([], Some(BelowThreshold(weight))) else r
  }

  lemma FoundAmong(k: Scheme, read: Option<Transaction>, server: string, signers: seq<string>)
    ensures forall s :: s in SignersOutcome(k, read, server, signers).found ==> s in Elements(signers)
    ensures Distinct(SignersOutcome(k, read, server, signers).found)
  {
    hide IsAddress, IsAccountKey, FoundSet;
  }

  /** No client can be blocked, or the challenge is refused in any order. */
  ghost predicate Settled(k: Scheme, read: Option<Transaction>, server: string, signers: seq<string>) {
    read.Some? ==>
      || Unblockable(k, read.value, server, Clients(server, signers))
      || !CanBeAccepted(k, read.value, server, signers)
  }

  method AddWeights<K(==)>(found: seq<K>, summary: map<K, int32>) returns (weight: int32)
    requires forall s :: s in found ==> s in summary
    ensures weight == WeightOf(found, summary)
  {
    hide ToInt32;
    weight := 0;
    for n := 0 to |found|
      invariant weight == WeightOf(found[..n], summary)
    {
      assert found[..n + 1][..n] == found[..n];
      weight := ToInt32(weight + summary[found[n]]);
    }
    assert found[..|found|] == found;
  }

  /** Ranging over a set visits its elements once each, in no particular order. */
  method AnyOrder<K(!new, ==)>(keys: set<K>) returns (order: seq<K>)
    ensures Distinct(order) && Elements(order) == keys
  {
    order := [];
    var rest := keys;
    while rest != {}
      invariant Distinct(order)
      invariant rest !! Elements(order) && rest + Elements(order) == keys
      decreases |rest|
    {
      var s :| s in rest;
      order, rest := order + [s], rest - {s};
    }
  }

  lemma EnumerationsAgree(keys: set<string>, xs: seq<string>, ys: seq<string>)
    requires Enumerates(xs, keys)
    ensures Enumerates(ys, keys) <==> Distinct(ys) && SameSigners(ys, xs)
    ensures SameSigners(xs, ys) <==> SameSigners(ys, xs)
  {
    hide Distinct;
    assert forall x :: x in xs <==> x in Elements(xs);
    assert forall y :: y in ys <==> y in Elements(ys);
  }

  lemma SameIfUnblockable(k: Scheme, read: Option<Transaction>, server: string, threshold: nat,
                          summary: Summary, xs: seq<string>, ys: seq<string>)
    requires read.Some? ==> Unblockable(k, read.value, server, Clients(server, xs))
    requires Enumerates(xs, summary.Keys) && Enumerates(ys, summary.Keys)
    ensures var r := ThresholdOutcome(k, read, server, threshold, summary, xs);
      var t := ThresholdOutcome(k, read, server, threshold, summary, ys);
      r.error == t.error && SameSigners(r.found, t.found)
  {
    EnumerationsAgree(summary.Keys, xs, ys);
    OrderIrrelevant(k, read, server, xs, ys);
    FoundAmong(k, read, server, xs);
    FoundAmong(k, read, server, ys);
    var r, t := SignersOutcome(k, read, server, xs), SignersOutcome(k, read, server, ys);
    hide SignersOutcome;
    assert Elements(r.found) == Elements(t.found);
    WeightIsWrappedTotal(r.found, summary);
    WeightIsWrappedTotal(t.found, summary);
  }

  /** The verdict is the same for every order in which the summary's keys are visited, if no client can
      be blocked or the challenge cannot be accepted. */
  lemma ThresholdOrderIrrelevant(k: Scheme, read: Option<Transaction>, server: string, threshold: nat,
                                 summary: Summary, xs: seq<string>, ys: seq<string>)
    requires Settled(k, read, server, xs)
    requires Enumerates(xs, summary.Keys) && Enumerates(ys, summary.Keys)
    ensures var r := ThresholdOutcome(k, read, server, threshold, summary, xs);
      var t := ThresholdOutcome(k, read, server, threshold, summary, ys);
      r.error == t.error && SameSigners(r.found, t.found)
  {
    if read.Some? && !Unblockable(k, read.value, server, Clients(server, xs)) {
      assert SameSigners([], []);
      EnumerationsAgree(summary.Keys, xs, ys);
      EnumerationsAgree(summary.Keys, xs, xs);
      assert !Accepted(k, read.value, server, xs) && !Accepted(k, read.value, server, ys);
      SameFailure(k, read.value, server, xs, ys);
      hide SignersOutcome, CanBeAccepted, SameSigners, Distinct;
    } else {
      SameIfUnblockable(k, read, server, threshold, summary, xs, ys);
    }
  }

  /** The keys of the summary are visited in an arbitrary order; when no client can be blocked or the
      challenge cannot be accepted, every other order would have given the same verdict and found the
      same signers. */
  method VerifyChallengeTxThreshold(k: Scheme, read: Option<Transaction>, server: string, threshold: nat,
                                    summary: Summary) returns (r: Outcome)
    requires threshold < 256
    ensures exists order :: Enumerates(order, summary.Keys) && r == ThresholdOutcome(k, read, server, threshold, summary, order)
    ensures forall order :: Enumerates(order, summary.Keys) && Settled(k, read, server, order) ==>
        var t := ThresholdOutcome(k, read, server, threshold, summary, order);
        r.error == t.error && SameSigners(r.found, t.found)
  {
    hide SignersOutcome, Elements, Distinct, Settled;
    var signers := AnyOrder(summary.Keys);
    var verified := VerifyChallengeTxSigners(k, read, server, signers);
    FoundAmong(k, read, server, signers);
    if verified.error.Some? {
      r := Outcome([], verified.error);
    } else {
      var weight := AddWeights(verified.found, summary);
      r := if weight < threshold then Outcome([], Some(BelowThreshold(weight))) else verified;
    }
    assert Enumerates(signers, summary.Keys) && r == ThresholdOutcome(k, read, server, threshold, summary, signers);
    hide ThresholdOutcome;
    forall order | Enumerates(order, summary.Keys) && Settled(k, read, server, order)
      ensures r.error == ThresholdOutcome(k, read, server, threshold, summary, order).error
      ensures SameSigners(r.found, ThresholdOutcome(k, read, server, threshold, summary, order).found)
    {
      ThresholdOrderIrrelevant(k, read, server, threshold, summary, order, signers);
    }
  }

  // ----- Exactly when the order of the keys does not matter -----

  /** Whatever the weights and the threshold are, every order of the keys gives the same verdict. */
  ghost predicate SameVerdict(k: Scheme, tx: Transaction, server: string, keys: set<string>) {
    forall threshold: nat, summary: Summary, xs, ys ::
      threshold < 256 && summary.Keys == keys && Enumerates(xs, keys) && Enumerates(ys, keys) ==>
        ThresholdOutcome(k, Some(tx), server, threshold, summary, xs).error ==
        ThresholdOutcome(k, Some(tx), server, threshold, summary, ys).error
  }

  lemma SameIf(k: Scheme, tx: Transaction, server: string, keys: set<string>, signers: seq<string>)
    requires Enumerates(signers, keys)
    requires Settled(k, Some(tx), server, signers)
    ensures SameVerdict(k, tx, server, keys)
  {
    hide SignersOutcome, WeightOf, Settled, ThresholdOutcome, Distinct, Elements;
    forall threshold: nat, summary: Summary, xs, ys |
      threshold < 256 && summary.Keys == keys && Enumerates(xs, keys) && Enumerates(ys, keys)
      ensures ThresholdOutcome(k, Some(tx), server, threshold, summary, xs).error ==
              ThresholdOutcome(k, Some(tx), server, threshold, summary, ys).error
    {
      ThresholdOrderIrrelevant(k, Some(tx), server, threshold, summary, signers, xs);
      ThresholdOrderIrrelevant(k, Some(tx), server, threshold, summary, signers, ys);
    }
  }

  /** A weight of one for c and of nothing for everybody else. */
  ghost predicate OnlyCounts<K(!new)>(summary: map<K, int32>, c: K) {
    c in summary && forall s :: s in summary ==> summary[s] == if s == c then 1 else 0
  }

  lemma {:induction false} WeightIfOnlyCounts<K(!new)>(found: seq<K>, summary: map<K, int32>, c: K)
    requires OnlyCounts(summary, c) && Distinct(found) && forall s :: s in found ==> s in summary
    ensures WeightOf(found, summary) == if c in found then 1 else 0
  {
    assert ToInt32(0) == 0 && ToInt32(1) == 1;
    hide ToInt32;
    if found != [] {
      var n := |found| - 1;
      assert found == found[..n] + [found[n]];
      WeightIfOnlyCounts(found[..n], summary, c);
    }
  }

  /** If only c counts, a threshold of nothing is met whenever the signers are accepted, and a threshold
      of one exactly if c is also found. */
  lemma VerdictIfOnlyCounts(k: Scheme, tx: Transaction, server: string, summary: Summary, order: seq<string>, c: string)
    requires OnlyCounts(summary, c) && Enumerates(order, summary.Keys) && c in Clients(server, order)
    ensures var error := ThresholdOutcome(k, Some(tx), server, 0, summary, order).error;
      error == None <==> Accepted(k, tx, server, order)
    ensures var error := ThresholdOutcome(k, Some(tx), server, 1, summary, order).error;
      error == None <==> Accepted(k, tx, server, order) && c in FoundSet(k, tx, [server] + Clients(server, order))
  {
    var r := SignersOutcome(k, Some(tx), server, order);
    FoundAmong(k, Some(tx), server, order);
    if Accepted(k, tx, server, order) {
      FoundIfAccepted(k, tx, server, order, c);
      hide SignersOutcome, OnlyCounts, FoundSet, Clients;
      WeightIfOnlyCounts(r.found, summary, c);
    }
    hide SignersOutcome, OnlyCounts, FoundSet, Clients;
  }

  lemma FoundIfAccepted(k: Scheme, tx: Transaction, server: string, order: seq<string>, c: string)
    requires Accepted(k, tx, server, order) && c in Clients(server, order)
    ensures c in SignersOutcome(k, Some(tx), server, order).found <==> c in FoundSet(k, tx, [server] + Clients(server, order))
  {
    hide FoundSet, Clients, IsAddress, AllAddresses;
  }

  /** A client that can be blocked in a challenge that can be accepted: there are weights, a threshold and
      two orders of the keys of which one passes and the other does not. */
  lemma OrderDecides(k: Scheme, tx: Transaction, server: string, keys: set<string>, signers: seq<string>, c: string)
      returns (threshold: nat, summary: Summary, xs: seq<string>, ys: seq<string>)
    requires Enumerates(signers, keys) && CanBeAccepted(k, tx, server, signers)
    requires c in Clients(server, signers) && Blockable(k, tx, server, Clients(server, signers), c)
    ensures threshold < 256 && summary.Keys == keys && Enumerates(xs, keys) && Enumerates(ys, keys)
    ensures ThresholdOutcome(k, Some(tx), server, threshold, summary, xs).error == None
    ensures ThresholdOutcome(k, Some(tx), server, threshold, summary, ys).error != None
  {
    hide *;
    ClientIsKey(server, keys, signers, c);
    summary := CountOnly(keys, c);
    var first, blocked := FirstAndBlocked(k, tx, server, signers, c);
    xs := AcceptedOrder(k, tx, server, signers);
    EnumerationsAgree(keys, signers, xs);
    EnumerationsAgree(keys, signers, first);
    EnumerationsAgree(keys, signers, blocked);
    SameHasClient(server, signers, xs, c);
    VerdictIfOnlyCounts(k, tx, server, summary, xs, c);
    VerdictIfOnlyCounts(k, tx, server, summary, first, c);
    VerdictIfOnlyCounts(k, tx, server, summary, blocked, c);
    if !Accepted(k, tx, server, first) {
      threshold, ys := 0, first;
    } else if !Accepted(k, tx, server, blocked) {
      threshold, ys := 0, blocked;
    } else {
      threshold, xs, ys := 1, first, blocked;
    }
  }

  lemma CountOnly<K(!new)>(keys: set<K>, c: K) returns (summary: map<K, int32>)
    requires c in keys
    ensures summary.Keys == keys && OnlyCounts(summary, c)
  {
    summary := map s | s in keys :: if s == c then 1 else 0;
  }

  lemma ClientIsKey(server: string, keys: set<string>, signers: seq<string>, c: string)
    requires Enumerates(signers, keys) && c in Clients(server, signers)
    ensures c in keys
  {
    hide Clients, Distinct;
    assert c in Elements(signers);
  }

  lemma SameHasClient(server: string, xs: seq<string>, ys: seq<string>, c: string)
    requires SameSigners(ys, xs) && c in Clients(server, xs)
    ensures c in Clients(server, ys)
  {
    hide Clients, IsAccountKey;
  }

  lemma AcceptedOrder(k: Scheme, tx: Transaction, server: string, signers: seq<string>) returns (order: seq<string>)
    requires CanBeAccepted(k, tx, server, signers)
    ensures Distinct(order) && SameSigners(order, signers) && Accepted(k, tx, server, order)
  {
    order :| Distinct(order) && SameSigners(order, signers) && Accepted(k, tx, server, order);
  }

  /** An order with the client first, in which it is found, and one in which it is blocked. */
  lemma FirstAndBlocked(k: Scheme, tx: Transaction, server: string, signers: seq<string>, c: string)
      returns (first: seq<string>, blocked: seq<string>)
    requires c in Clients(server, signers) && Blockable(k, tx, server, Clients(server, signers), c)
    ensures Distinct(first) && SameSigners(first, signers) && Distinct(blocked) && SameSigners(blocked, signers)
    ensures c in Clients(server, first) && c in FoundSet(k, tx, [server] + Clients(server, first))
    ensures c in Clients(server, blocked) && c !in FoundSet(k, tx, [server] + Clients(server, blocked))
  {
    assert HasOpen(k, tx, server, c);
    hide *;
    var ds := BlockingOrder(k, tx, server, Clients(server, signers), c);
    assert Distinct([c]) && Distinct(ds + [c]) by {
      DistinctTogether(ds, [c]);
    }
    first, blocked := Completed([c], signers), Completed(ds + [c], signers);
    CompletedSame([c], signers);
    CompletedSame(ds + [c], signers);
    ClientsStart(server, [c], first);
    ClientsStart(server, ds + [c], blocked);
    SameHasClient(server, signers, first, c);
    SameHasClient(server, signers, blocked, c);
    FirstIsFound(k, tx, server, Clients(server, first), c);
  }

  /** Every order gives the same verdict, whatever the weights and the threshold, exactly if no client
      can be blocked or the challenge cannot be accepted. */
  lemma SameVerdictExactly(k: Scheme, tx: Transaction, server: string, keys: set<string>, signers: seq<string>)
    requires Enumerates(signers, keys)
    ensures SameVerdict(k, tx, server, keys) <==> Settled(k, Some(tx), server, signers)
  {
    if Settled(k, Some(tx), server, signers) {
      hide *;
      SameIf(k, tx, server, keys, signers);
    } else {
      var clients := Clients(server, signers);
      var c :| c in clients && Blockable(k, tx, server, clients, c);
      hide SignersOutcome, WeightOf, CanBeAccepted, ThresholdOutcome, Distinct, Elements, Clients, Blockable, Enumerates;
      var threshold, summary, xs, ys := OrderDecides(k, tx, server, keys, signers, c);
    }
  }

  /** If nobody signs twice, the verdict on a challenge that can be accepted depends on the order exactly
      if two clients share a signature that the server did not make. */
  lemma SignedOnceSameVerdict(k: Scheme, tx: Transaction, server: string, keys: set<string>, signers: seq<string>)
    requires Enumerates(signers, keys) && CanBeAccepted(k, tx, server, signers)
    requires SignsOnce(k, tx, [server] + Clients(server, signers))
    ensures SameVerdict(k, tx, server, keys) <==> NoneShared(k, tx, server, Clients(server, signers))
  {
    SameVerdictExactly(k, tx, server, keys, signers);
    hide SameVerdict, Unblockable, CanBeAccepted, SignsOnce, NoneShared, Enumerates;
    SignedOnceExactly(k, tx, server, Clients(server, signers));
  }

  /** Exactly when the threshold check passes: the true total, wrapped to 32 bits, reaches it.  With
      weights that are not negative, passing means that the true total reaches the threshold; when
      the total fits in 32 bits the two are the same. */
  lemma ThresholdMet(k: Scheme, read: Option<Transaction>, server: string, threshold: nat, summary: Summary,
                     order: seq<string>)
    requires Elements(order) <= summary.Keys
    requires SignersOutcome(k, read, server, order).error == None
    ensures var r := ThresholdOutcome(k, read, server, threshold, summary, order);
      var found := Elements(SignersOutcome(k, read, server, order).found);
      && found <= summary.Keys
      && var total := Total(found, summary);
      && (r.error == None <==> ToInt32(total) >= threshold)
      && r.found == (if r.error == None then SignersOutcome(k, read, server, order).found else [])
      && ((forall s :: s in found ==> summary[s] >= 0) && r.error == None ==> total >= threshold)
      && (-0x8000_0000 <= total <= MAX_INT32 ==> (r.error == None <==> total >= threshold))
  {
    FoundAmong(k, read, server, order);
    var found := SignersOutcome(k, read, server, order).found;
    hide SignersOutcome;
    WeightIsWrappedTotal(found, summary);
    if forall s :: s in Elements(found) ==> summary[s] >= 0 {
      TotalNotNegative(Elements(found), summary);
    }
  }

  lemma {:induction false} TotalNotNegative<K>(found: set<K>, summary: map<K, int32>)
    requires found <= summary.Keys && forall s :: s in found ==> summary[s] >= 0
    ensures Total(found, summary) >= 0
  {
    if found != {} {
      var s :| s in found && Total(found, summary) == summary[s] + Total(found - {s}, summary);
      TotalNotNegative(found - {s}, summary);
    }
  }

  // ----- Weights that wrap around -----

  lemma TotalOfTwo<K>(a: K, b: K, summary: map<K, int32>)
    requires a != b && a in summary && b in summary
    ensures Total({a, b}, summary) == summary[a] as int + summary[b] as int
  {
    TotalWithout({a, b}, summary, a);
    assert {a, b} - {a} == {b} && {b} - {b} == {};
    TotalWithout({b}, summary, b);
  }

  /** A and b both signed and nobody else but the server did. */
  ghost predicate BothSigned(k: Scheme, tx: Transaction, server: string, a: string, b: string, order: seq<string>) {
    && a != b && Enumerates(order, {a, b})
    && SignersOutcome(k, Some(tx), server, order).error == None
    && Elements(SignersOutcome(k, Some(tx), server, order).found) == {a, b}
  }

  /** Whoever the two clients that signed are: with negative weights a total far below the threshold
      passes, and with positive weights that overflow a total far above it is refused. */
  lemma WrappedTotals(k: Scheme, tx: Transaction, server: string, a: string, b: string, order: seq<string>)
    requires BothSigned(k, tx, server, a, b, order)
    ensures var low: Summary := map[a := -0x8000_0000, b := -0x7fff_fffe];
      && Total({a, b}, low) < 2
      && ThresholdOutcome(k, Some(tx), server, 2, low, order).error == None
    ensures var high: Summary := map[a := 0x7fff_ffff, b := 1];
      && Total({a, b}, high) >= 2
      && ThresholdOutcome(k, Some(tx), server, 2, high, order).error == Some(BelowThreshold(-0x8000_0000))
  {
    var found := SignersOutcome(k, Some(tx), server, order).found;
    FoundAmong(k, Some(tx), server, order);
    hide SignersOutcome, Total, Distinct, Elements, WeightOf;
    WeightOfTwo(found, a, b, map[a := -0x8000_0000, b := -0x7fff_fffe]);
    WeightOfTwo(found, a, b, map[a := 0x7fff_ffff, b := 1]);
  }

  lemma WeightOfTwo<K(!new)>(found: seq<K>, a: K, b: K, summary: map<K, int32>)
    requires a != b && a in summary && b in summary
    requires Distinct(found) && Elements(found) == {a, b}
    ensures forall s :: s in found ==> s in summary
    ensures Total({a, b}, summary) == summary[a] as int + summary[b] as int
    ensures WeightOf(found, summary) == ToInt32(summary[a] as int + summary[b] as int)
  {
    hide Total, WeightOf, ToInt32, Distinct;
    assert forall s :: s in found ==> s in Elements(found);
    WeightIsWrappedTotal(found, summary);
    TotalOfTwo(a, b, summary);
  }
}
