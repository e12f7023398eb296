/** When the order in which signers are listed matters to the signatures they are matched with.

    The server is always matched first and takes its first signature.  The other signatures are open
    to the clients, which take them greedily in the order listed. */
module SignerOrder {
  import opened Challenge
  import opened Sequences
  import opened Wrappers

  ghost predicate SameSigners(xs: seq<string>, ys: seq<string>) {
    forall s :: s in xs <==> s in ys
  }

  // ----- Open signatures -----

  /** Signature i is the server's first. */
  ghost predicate ServerTakes(k: Scheme, tx: Transaction, server: string, i: nat) {
    Matches(k, tx, server, i) && forall j: nat :: j < i ==> !Matches(k, tx, server, j)
  }

  /** Signature i is by s and the server leaves it. */
  ghost predicate Open(k: Scheme, tx: Transaction, server: string, s: string, i: nat) {
    Matches(k, tx, s, i) && !ServerTakes(k, tx, server, i)
  }

  ghost predicate HasOpen(k: Scheme, tx: Transaction, server: string, s: string) {
    exists i :: Open(k, tx, server, s, i)
  }

  /** Open signatures given out one for one to clients that made them, so that no client that gets one
      has a lower one that is not given out. */
  ghost predicate GivenOut(k: Scheme, tx: Transaction, server: string, clients: seq<string>, m: map<nat, string>) {
    && (forall i :: i in m ==> m[i] in clients && Open(k, tx, server, m[i], i))
    && (forall i, j :: i in m && j in m && m[i] == m[j] ==> i == j)
    && (forall i, j: nat :: i in m && j < i && Open(k, tx, server, m[i], j) ==> j in m)
  }

  /** All open signatures of c, which has some, can be given out to other clients. */
  ghost predicate Blockable(k: Scheme, tx: Transaction, server: string, clients: seq<string>, c: string) {
    HasOpen(k, tx, server, c) && exists m :: Blocks(k, tx, server, clients, c, m)
  }

  ghost predicate Blocks(k: Scheme, tx: Transaction, server: string, clients: seq<string>, c: string,
                         m: map<nat, string>) {
    && GivenOut(k, tx, server, clients, m)
    && (forall i :: i in m ==> m[i] != c)
    && (forall i :: Open(k, tx, server, c, i) ==> i in m)
  }

  /** No client can be blocked. */
  ghost predicate Unblockable(k: Scheme, tx: Transaction, server: string, clients: seq<string>) {
    forall c :: c in clients ==> !Blockable(k, tx, server, clients, c)
  }

  // ----- The greedy assignment, one signer at a time -----

  lemma FirstFreeIsLowest(k: Scheme, tx: Transaction, signer: string, taken: seq<Option<nat>>, i: nat)
    ensures var r := FirstFree(k, tx, signer, taken, i);
      r.Some? ==> forall j :: i <= j < r.value && Matches(k, tx, signer, j) ==> Some(j) in taken
    decreases |tx.signatures| - i
  {
    hide Matches;
    if i < |tx.signatures| && !(Some(i) !in taken && Matches(k, tx, signer, i)) {
      FirstFreeIsLowest(k, tx, signer, taken, i + 1);
    }
  }

  /** What a signer takes depends only on the signers before it. */
  lemma {:induction false} AssignAt(k: Scheme, tx: Transaction, signers: seq<string>, p: nat)
    requires p < |signers|
    ensures var a := Assign(k, tx, signers);
      && a[..p] == Assign(k, tx, signers[..p])
      && a[p] == FirstFree(k, tx, signers[p], a[..p], 0)
  {
    hide FirstFree, Matches;
    var n := |signers| - 1;
    if p < n {
      AssignAt(k, tx, signers[..n], p);
      assert signers[..n][..p] == signers[..p];
    }
  }

  lemma AssignLast(k: Scheme, tx: Transaction, signers: seq<string>, s: string)
    ensures var a := Assign(k, tx, signers); Assign(k, tx, signers + [s]) == a + [FirstFree(k, tx, s, a, 0)]
  {
    hide FirstFree;
    assert (signers + [s])[..|signers|] == signers;
  }

  lemma FoundAt(k: Scheme, tx: Transaction, signers: seq<string>, p: nat)
    requires Distinct(signers) && p < |signers|
    ensures signers[p] in FoundSet(k, tx, signers) <==> Assign(k, tx, signers)[p].Some?
  {
    hide Assign;
  }

  lemma ServerTakesFirst(k: Scheme, tx: Transaction, server: string, clients: seq<string>)
    ensures forall i: nat :: Assign(k, tx, [server] + clients)[0] == Some(i) <==> ServerTakes(k, tx, server, i)
  {
    var signers := [server] + clients;
    AssignAt(k, tx, signers, 0);
    var a := Assign(k, tx, signers);
    assert a[..0] == [];
    FirstFreeIsLowest(k, tx, server, [], 0);
    hide Assign, FirstFree, Matches;
  }

  // ----- What a run gives out -----

  /** A client takes its lowest open signature that no client before it took. */
  lemma TakesLowestOpen(k: Scheme, tx: Transaction, server: string, clients: seq<string>, q: nat)
    requires q < |clients|
    ensures var a := Assign(k, tx, [server] + clients);
      && (a[q + 1].None? ==> forall j: nat :: Open(k, tx, server, clients[q], j) ==> Some(j) in a[1..q + 1])
      && (a[q + 1].Some? ==>
          && Open(k, tx, server, clients[q], a[q + 1].value)
          && a[q + 1] !in a[1..q + 1]
          && forall j: nat :: j < a[q + 1].value && Open(k, tx, server, clients[q], j) ==> Some(j) in a[1..q + 1])
  {
    var signers := [server] + clients;
    var a := Assign(k, tx, signers);
    ServerTakesFirst(k, tx, server, clients);
    AssignAt(k, tx, signers, q + 1);
    FirstFreeIsLowest(k, tx, signers[q + 1], a[..q + 1], 0);
    assert a[..q + 1] == [a[0]] + a[1..q + 1];
    hide Assign, Matches, FirstFree, ServerTakes;
  }

  lemma GiveOneMore(k: Scheme, tx: Transaction, server: string, clients: seq<string>, m: map<nat, string>, i: nat,
                    s: string)
    requires GivenOut(k, tx, server, clients, m) && i !in m
    requires s in clients && (forall j :: j in m ==> m[j] != s) && Open(k, tx, server, s, i)
    requires forall j: nat :: j < i && Open(k, tx, server, s, j) ==> j in m
    ensures GivenOut(k, tx, server, clients, m[i := s])
  {
    hide Open;
  }

  /** The signatures the first n clients take. */
  lemma {:induction false} Takers(k: Scheme, tx: Transaction, server: string, clients: seq<string>, n: nat)
      returns (m: map<nat, string>)
    requires Distinct(clients) && n <= |clients|
    ensures GivenOut(k, tx, server, clients, m)
    ensures forall i :: i in m ==> m[i] in clients[..n]
    ensures forall i: nat :: i in m <==> Some(i) in Assign(k, tx, [server] + clients)[1..n + 1]
  {
    var a := Assign(k, tx, [server] + clients);
    if n == 0 {
      m := map[];
    } else {
      var q := n - 1;
      m := Takers(k, tx, server, clients, q);
      TakesLowestOpen(k, tx, server, clients, q);
      hide Assign, Open, GivenOut;
      assert a[1..q + 2] == a[1..q + 1] + [a[q + 1]];
      assert clients[..q + 1] == clients[..q] + [clients[q]];
      if a[q + 1].Some? {
        assert clients[q] !in clients[..q];
        GiveOneMore(k, tx, server, clients, m, a[q + 1].value, clients[q]);
        m := m[a[q + 1].value := clients[q]];
      }
    }
  }

  // ----- Who is found -----

  /** A client that is not found has no open signature or is blocked by those before it. */
  lemma FoundUnlessBlocked(k: Scheme, tx: Transaction, server: string, clients: seq<string>, c: string)
    requires Distinct(clients) && server !in clients && c in clients
    ensures c in FoundSet(k, tx, [server] + clients) ==> HasOpen(k, tx, server, c)
    ensures HasOpen(k, tx, server, c) && c !in FoundSet(k, tx, [server] + clients) ==>
      Blockable(k, tx, server, clients, c)
  {
    var q: nat :| q < |clients| && clients[q] == c;
    TakesLowestOpen(k, tx, server, clients, q);
    ClientAt(k, tx, server, clients, q);
    if HasOpen(k, tx, server, c) && c !in FoundSet(k, tx, [server] + clients) {
      var m := Takers(k, tx, server, clients, q);
      hide Open, GivenOut, Assign, FoundSet;
      assert c !in clients[..q];
      assert Blocks(k, tx, server, clients, c, m);
    }
    hide Assign, FoundSet, Blockable, Open;
  }

  lemma ClientAt(k: Scheme, tx: Transaction, server: string, clients: seq<string>, q: nat)
    requires Distinct(clients) && server !in clients && q < |clients|
    ensures clients[q] in FoundSet(k, tx, [server] + clients) <==> Assign(k, tx, [server] + clients)[q + 1].Some?
  {
    hide Assign, FoundSet;
    OneBefore(server, clients);
    FoundAt(k, tx, [server] + clients, q + 1);
  }

  // ----- An order that gives out as wanted -----

  lemma FirstFreeIs(k: Scheme, tx: Transaction, signer: string, taken: seq<Option<nat>>, i: nat)
    requires Matches(k, tx, signer, i) && Some(i) !in taken
    requires forall j: nat :: j < i && Matches(k, tx, signer, j) ==> Some(j) in taken
    ensures FirstFree(k, tx, signer, taken, 0) == Some(i)
  {
    FirstFreeIsLowest(k, tx, signer, taken, 0);
    hide FirstFree, Matches;
  }

  /** The clients that get a signature below b, listed by the signature they get: each takes it. */
  lemma {:induction false} GiveOut(k: Scheme, tx: Transaction, server: string, clients: seq<string>, m: map<nat, string>,
                                   b: nat)
      returns (ds: seq<string>)
    requires GivenOut(k, tx, server, clients, m)
    ensures Distinct(ds)
    ensures forall d :: d in ds ==> exists j :: j in m && j < b && m[j] == d
    ensures var a := Assign(k, tx, [server] + ds);
      && (forall j: nat :: Some(j) in a[1..] <==> j in m && j < b)
      && (forall p :: 1 <= p < |a| ==> a[p].Some?)
  {
    if b == 0 {
      ds := [];
    } else {
      var i := b - 1;
      ds := GiveOut(k, tx, server, clients, m, i);
      if i in m {
        var a := Assign(k, tx, [server] + ds);
        GiveNext(k, tx, server, clients, m, i, ds);
        hide Assign, GivenOut;
        assert (a + [Some(i)])[1..] == a[1..] + [Some(i)];
        ds := ds + [m[i]];
      }
    }
  }

  lemma GiveNext(k: Scheme, tx: Transaction, server: string, clients: seq<string>, m: map<nat, string>, i: nat,
                 ds: seq<string>)
    requires GivenOut(k, tx, server, clients, m) && i in m && Distinct(ds)
    requires forall d :: d in ds ==> exists j :: j in m && j < i && m[j] == d
    requires forall j: nat :: Some(j) in Assign(k, tx, [server] + ds)[1..] <==> j in m && j < i
    ensures Assign(k, tx, [server] + (ds + [m[i]])) == Assign(k, tx, [server] + ds) + [Some(i)]
    ensures Distinct(ds + [m[i]])
  {
    var a := Assign(k, tx, [server] + ds);
    ServerTakesFirst(k, tx, server, ds);
    hide Assign, ServerTakes, Matches;
    assert a == [a[0]] + a[1..];
    assert m[i] !in ds;
    FirstFreeIs(k, tx, m[i], a, i);
    hide GivenOut, Open;
    assert [server] + (ds + [m[i]]) == ([server] + ds) + [m[i]];
    AssignLast(k, tx, [server] + ds, m[i]);
  }

  /** A client listed first is found if it has an open signature. */
  lemma FirstIsFound(k: Scheme, tx: Transaction, server: string, clients: seq<string>, c: string)
    requires Distinct(clients) && server !in clients && [c] <= clients && HasOpen(k, tx, server, c)
    ensures c in FoundSet(k, tx, [server] + clients)
  {
    assert c == clients[0];
    TakesLowestOpen(k, tx, server, clients, 0);
    ClientAt(k, tx, server, clients, 0);
    hide Assign, FoundSet, Open;
  }

  /** A client listed after those that block it is not found. */
  lemma BlockedIsNotFound(k: Scheme, tx: Transaction, server: string, clients: seq<string>, c: string,
                          ds: seq<string>, m: map<nat, string>)
    requires Distinct(clients) && server !in clients && ds + [c] <= clients
    requires forall i :: Open(k, tx, server, c, i) ==> i in m
    requires forall i: nat :: i in m ==> Some(i) in Assign(k, tx, [server] + ds)[1..]
    ensures c !in FoundSet(k, tx, [server] + clients)
  {
    var q := |ds|;
    assert clients[q] == (ds + [c])[q] == c;
    TakesLowestOpen(k, tx, server, clients, q);
    ClientAt(k, tx, server, clients, q);
    TakenByFirst(k, tx, server, clients, ds);
    hide Assign, FoundSet, Open;
  }

  lemma TakenByFirst(k: Scheme, tx: Transaction, server: string, clients: seq<string>, ds: seq<string>)
    requires ds <= clients
    ensures Assign(k, tx, [server] + clients)[1..|ds| + 1] == Assign(k, tx, [server] + ds)[1..]
  {
    hide Assign;
    assert clients[..|ds|] == ds;
    assert ([server] + clients)[..|ds| + 1] == [server] + ds;
    if |ds| < |clients| {
      AssignAt(k, tx, [server] + clients, |ds| + 1);
    } else {
      assert clients == ds;
    }
  }

  /** The order that blocks a blockable client. */
  lemma BlockingOrder(k: Scheme, tx: Transaction, server: string, clients: seq<string>, c: string) returns (ds: seq<string>)
    requires Blockable(k, tx, server, clients, c)
    ensures Distinct(ds) && c !in ds && forall d :: d in ds ==> d in clients
    ensures forall all :: Distinct(all) && server !in all && ds + [c] <= all ==> c !in FoundSet(k, tx, [server] + all)
  {
    var m :| Blocks(k, tx, server, clients, c, m);
    var n := |tx.signatures|;
    ds := GiveOut(k, tx, server, clients, m, n);
    hide FoundSet, Assign;
    forall all | Distinct(all) && server !in all && ds + [c] <= all
      ensures c !in FoundSet(k, tx, [server] + all)
    {
      BlockedIsNotFound(k, tx, server, all, c, ds, m);
    }
  }

  // ----- The found set is the same for every order exactly when nobody can be blocked -----

  /** The first ones, then the others. */
  ghost function Completed<K(!new)>(first: seq<K>, xs: seq<K>): (r: seq<K>)
    requires Distinct(first) && forall x :: x in first ==> x in xs
    ensures Distinct(r) && first <= r && forall x :: x in r <==> x in xs
  {
    var rest := ListFound(xs, Elements(xs) - Elements(first));
    DistinctTogether(first, rest);
    first + rest
  }

  lemma CompletedSame(first: seq<string>, xs: seq<string>)
    requires Distinct(first) && forall x :: x in first ==> x in xs
    ensures SameSigners(Completed(first, xs), xs) && SameSigners(xs, Completed(first, xs))
  {
    hide Completed, Distinct;
  }

  lemma DistinctTogether<K(!new)>(xs: seq<K>, ys: seq<K>)
    requires Distinct(xs) && Distinct(ys) && forall x :: x in xs ==> x !in ys
    ensures Distinct(xs + ys)
  {
    forall i, j | 0 <= i < j < |xs + ys|
      ensures (xs + ys)[i] != (xs + ys)[j]
    {
      if i < |xs| <= j {
        assert xs[i] in xs && ys[j - |xs|] in ys;
      }
    }
  }

  /** However the clients are listed, the same signers are found. */
  ghost predicate SameForEveryOrder(k: Scheme, tx: Transaction, server: string, clients: seq<string>) {
    forall order :: Distinct(order) && SameSigners(order, clients) ==>
      FoundSet(k, tx, [server] + order) == FoundSet(k, tx, [server] + clients)
  }

  /** The same clients are found in every order exactly if none of them can be blocked. */
  lemma SameForEveryOrderExactly(k: Scheme, tx: Transaction, server: string, clients: seq<string>)
    requires Distinct(clients) && server !in clients
    ensures SameForEveryOrder(k, tx, server, clients) <==> Unblockable(k, tx, server, clients)
  {
    if Unblockable(k, tx, server, clients) {
      hide FoundSet, Unblockable;
      forall order | Distinct(order) && SameSigners(order, clients)
        ensures FoundSet(k, tx, [server] + order) == FoundSet(k, tx, [server] + clients)
      {
        UnblockableFindsTheSame(k, tx, server, clients, order);
      }
    } else {
      hide FoundSet, Blockable;
      var c :| c in clients && Blockable(k, tx, server, clients, c);
      BlockedOrFound(k, tx, server, clients, c);
    }
  }

  lemma BlockedOrFound(k: Scheme, tx: Transaction, server: string, clients: seq<string>, c: string)
    requires Distinct(clients) && server !in clients && c in clients && Blockable(k, tx, server, clients, c)
    ensures !SameForEveryOrder(k, tx, server, clients)
  {
    var ds := BlockingOrder(k, tx, server, clients, c);
    assert HasOpen(k, tx, server, c);
    hide FoundSet, Blockable, HasOpen;
    var found, blocked := Completed([c], clients), Completed(ds + [c], clients);
    FirstIsFound(k, tx, server, found, c);
    assert SameSigners(found, clients) && SameSigners(blocked, clients);
    hide Completed;
  }

  /** When nobody can be blocked, everybody with an open signature is found. */
  lemma UnblockableFindsAll(k: Scheme, tx: Transaction, server: string, clients: seq<string>, order: seq<string>, c: string)
    requires Unblockable(k, tx, server, clients)
    requires Distinct(order) && SameSigners(order, clients) && server !in clients && c in clients
    ensures c in FoundSet(k, tx, [server] + order) <==> HasOpen(k, tx, server, c)
  {
    FoundUnlessBlocked(k, tx, server, order, c);
    hide FoundSet, HasOpen;
    if Blockable(k, tx, server, order, c) {
      BlockableBySame(k, tx, server, order, clients, c);
    }
  }

  lemma BlockableBySame(k: Scheme, tx: Transaction, server: string, xs: seq<string>, ys: seq<string>, c: string)
    requires Blockable(k, tx, server, xs, c) && SameSigners(xs, ys)
    ensures Blockable(k, tx, server, ys, c)
  {
    hide Open, HasOpen;
    var m :| Blocks(k, tx, server, xs, c, m);
    assert Blocks(k, tx, server, ys, c, m);
  }

  lemma UnblockableFindsTheSame(k: Scheme, tx: Transaction, server: string, clients: seq<string>, order: seq<string>)
    requires Unblockable(k, tx, server, clients) && Distinct(clients) && server !in clients
    requires Distinct(order) && SameSigners(order, clients)
    ensures FoundSet(k, tx, [server] + order) == FoundSet(k, tx, [server] + clients)
  {
    FoundAmongListed(k, tx, [server] + order);
    FoundAmongListed(k, tx, [server] + clients);
    ServerFound(k, tx, server, order);
    ServerFound(k, tx, server, clients);
    hide FoundSet, Unblockable, HasOpen;
    forall s
      ensures s in FoundSet(k, tx, [server] + order) <==> s in FoundSet(k, tx, [server] + clients)
    {
      if s in clients {
        UnblockableFindsAll(k, tx, server, clients, order, s);
        UnblockableFindsAll(k, tx, server, clients, clients, s);
      }
    }
  }

  lemma FoundAmongListed(k: Scheme, tx: Transaction, signers: seq<string>)
    ensures forall s :: s in FoundSet(k, tx, signers) ==> s in signers
  {
  }

  lemma ServerTakesIfSigned(k: Scheme, tx: Transaction, server: string, clients: seq<string>)
    ensures Assign(k, tx, [server] + clients)[0].Some? <==> Signed(k, tx, server)
  {
    var a := Assign(k, tx, [server] + clients);
    AssignAt(k, tx, [server] + clients, 0);
    assert a[..0] == [];
    hide Assign, FirstFree, Matches;
  }

  /** The server is found if it signed, whoever else is listed. */
  lemma ServerFound(k: Scheme, tx: Transaction, server: string, clients: seq<string>)
    requires Distinct(clients) && server !in clients
    ensures server in FoundSet(k, tx, [server] + clients) <==> Signed(k, tx, server)
  {
    ServerTakesIfSigned(k, tx, server, clients);
    OneBefore(server, clients);
    FoundAt(k, tx, [server] + clients, 0);
    hide Assign, FoundSet, Signed;
    assert ([server] + clients)[0] == server;
  }

  // ----- Signers that sign once -----

  /** No two clients share an open signature. */
  ghost predicate PrivateClients(k: Scheme, tx: Transaction, server: string, clients: seq<string>) {
    forall c, d, i :: c in clients && d in clients && Open(k, tx, server, c, i) && Open(k, tx, server, d, i) ==> c == d
  }

  /** Every client made at most one signature that the server leaves. */
  ghost predicate OneOpen(k: Scheme, tx: Transaction, server: string, clients: seq<string>) {
    forall c, i, j :: c in clients && Open(k, tx, server, c, i) && Open(k, tx, server, c, j) ==> i == j
  }

  lemma PrivateIsUnblockable(k: Scheme, tx: Transaction, server: string, clients: seq<string>)
    requires PrivateClients(k, tx, server, clients)
    ensures Unblockable(k, tx, server, clients)
  {
    hide Open, Blockable;
    forall c | c in clients
      ensures !Blockable(k, tx, server, clients, c)
    {
      if Blockable(k, tx, server, clients, c) {
        var d, i := BlockableShares(k, tx, server, clients, c);
      }
    }
  }

  lemma BlockableShares(k: Scheme, tx: Transaction, server: string, clients: seq<string>, c: string)
      returns (d: string, i: nat)
    requires Blockable(k, tx, server, clients, c)
    ensures d in clients && d != c && Open(k, tx, server, c, i) && Open(k, tx, server, d, i)
  {
    hide Open;
    var m :| Blocks(k, tx, server, clients, c, m);
    i :| Open(k, tx, server, c, i);
    d := m[i];
  }

  /** If every client has at most one open signature, nobody can be blocked exactly if nobody shares. */
  lemma UnblockableExactlyIfPrivate(k: Scheme, tx: Transaction, server: string, clients: seq<string>)
    requires OneOpen(k, tx, server, clients)
    ensures Unblockable(k, tx, server, clients) <==> PrivateClients(k, tx, server, clients)
  {
    hide Open;
    if PrivateClients(k, tx, server, clients) {
      PrivateIsUnblockable(k, tx, server, clients);
    } else {
      var c, d, i :| c in clients && d in clients && Open(k, tx, server, c, i) && Open(k, tx, server, d, i) && c != d;
      assert Blocks(k, tx, server, clients, c, map[i := d]);
    }
  }

  /** A signer that signs at most once has at most one open signature, and it is one the server did not make. */
  lemma SignsOnceMeansOneOpen(k: Scheme, tx: Transaction, server: string, clients: seq<string>)
    requires SignsOnce(k, tx, [server] + clients)
    ensures OneOpen(k, tx, server, clients)
    ensures forall c, i :: c in clients ==>
      (Open(k, tx, server, c, i) <==> Matches(k, tx, c, i) && !Matches(k, tx, server, i))
  {
    hide Matches;
    assert server in [server] + clients;
    forall i | Matches(k, tx, server, i)
      ensures ServerTakes(k, tx, server, i)
    {
    }
    assert forall c :: c in clients ==> c in [server] + clients;
  }

  /** No two clients share a signature that the server did not make. */
  ghost predicate NoneShared(k: Scheme, tx: Transaction, server: string, clients: seq<string>) {
    forall c, d, i ::
      c in clients && d in clients && Matches(k, tx, c, i) && Matches(k, tx, d, i) && !Matches(k, tx, server, i) ==> c == d
  }

  /** If nobody signs twice, the order of the clients decides who is found exactly if two clients share a
      signature that the server did not make. */
  lemma SignedOnceExactly(k: Scheme, tx: Transaction, server: string, clients: seq<string>)
    requires Distinct(clients) && server !in clients && SignsOnce(k, tx, [server] + clients)
    ensures Unblockable(k, tx, server, clients) <==> NoneShared(k, tx, server, clients)
    ensures SameForEveryOrder(k, tx, server, clients) <==> NoneShared(k, tx, server, clients)
  {
    SignsOnceMeansOneOpen(k, tx, server, clients);
    SameForEveryOrderExactly(k, tx, server, clients);
    UnblockableExactlyIfPrivate(k, tx, server, clients);
    hide Matches, Open, Unblockable, SameForEveryOrder;
  }

  lemma ExclusiveIsPrivate(k: Scheme, tx: Transaction, server: string, clients: seq<string>)
    requires Exclusive(k, tx, [server] + clients)
    ensures PrivateClients(k, tx, server, clients)
  {
    hide Matches, ServerTakes;
    assert forall c :: c in clients ==> c in [server] + clients;
  }

  /** Of clients that share their only open signature no two are found. */
  lemma SharersNeverBothFound(k: Scheme, tx: Transaction, server: string, clients: seq<string>, p: nat, q: nat, i: nat)
    requires Distinct(clients) && server !in clients && OneOpen(k, tx, server, clients)
    requires p < q < |clients| && Open(k, tx, server, clients[p], i) && Open(k, tx, server, clients[q], i)
    ensures clients[p] in FoundSet(k, tx, [server] + clients) ==> clients[q] !in FoundSet(k, tx, [server] + clients)
  {
    TakesLowestOpen(k, tx, server, clients, p);
    TakesLowestOpen(k, tx, server, clients, q);
    ClientAt(k, tx, server, clients, p);
    ClientAt(k, tx, server, clients, q);
    hide Assign, FoundSet, Open;
    var a := Assign(k, tx, [server] + clients);
    assert a[1..q + 1][p] == a[p + 1];
  }

  // ----- The verdict -----

  ghost predicate Accepted(k: Scheme, tx: Transaction, server: string, signers: seq<string>) {
    SignersOutcome(k, Some(tx), server, signers).error == None
  }

  lemma SameSize(xs: seq<string>, ys: seq<string>)
    requires Distinct(xs) && Distinct(ys) && SameSigners(xs, ys)
    ensures |xs| == |ys|
  {
    DistinctSize(xs);
    DistinctSize(ys);
    assert (set x | x in xs) == (set y | y in ys);
  }

  lemma SameClients(server: string, xs: seq<string>, ys: seq<string>)
    requires SameSigners(xs, ys)
    ensures var cx, cy := Clients(server, xs), Clients(server, ys);
      && SameSigners(cx, cy) && SameSigners([server] + cx, [server] + cy)
      && (cx == [] <==> cy == [])
      && (AllAddresses(cx) <==> AllAddresses(cy))
  {
    hide IsAddress, IsAccountKey, Clients, Distinct;
    var cx, cy := Clients(server, xs), Clients(server, ys);
    SameEmptiness(cx, cy);
  }

  lemma SameEmptiness(cx: seq<string>, cy: seq<string>)
    requires SameSigners(cx, cy)
    ensures cx == [] <==> cy == []
  {
    if cx != [] {
      assert cx[0] in cy;
    }
    if cy != [] {
      assert cy[0] in cx;
    }
  }

  lemma SameList(cx: seq<string>, cy: seq<string>, found: set<string>)
    requires SameSigners(cx, cy)
    ensures var lx, ly := ListFound(cx, found), ListFound(cy, found);
      SameSigners(lx, ly) && |lx| == |ly|
  {
    hide ListFound;
    SameSize(ListFound(cx, found), ListFound(cy, found));
  }

  /** If no client can be blocked, reordering or repeating the signers changes neither the verdict nor
      who is found. */
  lemma OrderIrrelevant(k: Scheme, read: Option<Transaction>, server: string, xs: seq<string>, ys: seq<string>)
    requires read.Some? ==> Unblockable(k, read.value, server, Clients(server, xs))
    requires SameSigners(xs, ys)
    ensures var r, t := SignersOutcome(k, read, server, xs), SignersOutcome(k, read, server, ys);
      r.error == t.error && SameSigners(r.found, t.found) && |r.found| == |t.found|
  {
    assert SameSigners(ys, xs);
    hide *;
    var cx, cy := Clients(server, xs), Clients(server, ys);
    SameClients(server, xs, ys);
    SameClients(server, ys, xs);
    if read.Some? {
      UnblockableFindsTheSame(k, read.value, server, cx, cy);
      SameList(cx, cy, FoundSet(k, read.value, [server] + cx));
    }
    SameOutcome(k, read, server, xs, ys);
  }

  /** The verdict depends on the signers only through the clients they make up and who is found. */
  lemma SameOutcome(k: Scheme, read: Option<Transaction>, server: string, xs: seq<string>, ys: seq<string>)
    requires var cx, cy := Clients(server, xs), Clients(server, ys);
      && (cx == [] <==> cy == [])
      && (AllAddresses(cx) <==> AllAddresses(cy))
      && (read.Some? ==>
          var fx, fy := FoundSet(k, read.value, [server] + cx), FoundSet(k, read.value, [server] + cy);
          && (server in fx <==> server in fy)
          && SameSigners(ListFound(cx, fx), ListFound(cy, fy)) && |ListFound(cx, fx)| == |ListFound(cy, fy)|)
    ensures var r, t := SignersOutcome(k, read, server, xs), SignersOutcome(k, read, server, ys);
      r.error == t.error && SameSigners(r.found, t.found) && |r.found| == |t.found|
  {
    assert SameSigners([], []);
    hide Clients, FoundSet, ListFound, SameSigners, AllAddresses, IsAddress;
  }

  /** Some client is found as soon as one has an open signature. */
  lemma SomebodyFound(k: Scheme, tx: Transaction, server: string, clients: seq<string>)
    requires Distinct(clients) && server !in clients
    ensures ListFound(clients, FoundSet(k, tx, [server] + clients)) == [] <==>
      forall c :: c in clients ==> !HasOpen(k, tx, server, c)
  {
    var found := FoundSet(k, tx, [server] + clients);
    hide FoundSet, HasOpen, ListFound;
    var list := ListFound(clients, found);
    if list != [] {
      FoundUnlessBlocked(k, tx, server, clients, list[0]);
    }
    forall c | c in clients && HasOpen(k, tx, server, c)
      ensures list != []
    {
      var d := OneIsFound(k, tx, server, clients, c);
      assert d in list;
    }
  }

  lemma OneIsFound(k: Scheme, tx: Transaction, server: string, clients: seq<string>, c: string) returns (d: string)
    requires Distinct(clients) && server !in clients && c in clients && HasOpen(k, tx, server, c)
    ensures d in clients && d in FoundSet(k, tx, [server] + clients)
  {
    var q: nat :| q < |clients| && clients[q] == c;
    var i: nat :| Open(k, tx, server, c, i);
    TakesLowestOpen(k, tx, server, clients, q);
    hide FoundSet, Open, Assign;
    var a := Assign(k, tx, [server] + clients);
    var p := q;
    if a[q + 1].None? {
      assert Some(i) in a[1..q + 1];
      p :| 0 <= p < q && a[1..q + 1][p] == Some(i);
    }
    ClientAt(k, tx, server, clients, p);
    d := clients[p];
  }

  /** All orders in which a challenge is refused give the same error. */
  lemma SameFailure(k: Scheme, tx: Transaction, server: string, xs: seq<string>, ys: seq<string>)
    requires SameSigners(xs, ys)
    requires !Accepted(k, tx, server, xs) && !Accepted(k, tx, server, ys)
    ensures SignersOutcome(k, Some(tx), server, xs).error == SignersOutcome(k, Some(tx), server, ys).error
  {
    var cx, cy := Clients(server, xs), Clients(server, ys);
    SameClients(server, xs, ys);
    ServerFound(k, tx, server, cx);
    ServerFound(k, tx, server, cy);
    SomebodyFound(k, tx, server, cx);
    SomebodyFound(k, tx, server, cy);
    hide FoundSet, HasOpen, ListFound, Clients, IsAddress, AllAddresses, Signed;
  }

  // ----- Whether a challenge can be accepted at all -----

  /** Everybody who was found took one signature, so as many were found as there are signatures exactly
      if every signature is taken. */
  lemma AllTakenExactly(k: Scheme, tx: Transaction, signers: seq<string>, who: seq<string>)
    requires Distinct(signers) && Distinct(who) && forall s :: s in who <==> s in FoundSet(k, tx, signers)
    ensures |who| == |tx.signatures| <==>
      forall i: nat :: i < |tx.signatures| ==> Some(i) in Assign(k, tx, signers)
  {
    var n := |tx.signatures|;
    var m := FoundOwnSignatures(k, tx, signers, who);
    MatchesInRange(k, tx, who, m);
    var a := Assign(k, tx, signers);
    if |who| == n {
      Pigeonhole(m, n);
      hide Assign, FoundSet, Distinct, Matches;
      forall i: nat | i < n
        ensures Some(i) in a
      {
        assert i in m;
      }
    } else if forall i: nat :: i < n ==> Some(i) in a {
      Bounded(m, n);
      var makers := Makers(k, tx, signers, n);
      hide Assign, FoundSet, Matches;
      NotLonger(makers, who);
    }
  }

  lemma Bounded(m: seq<nat>, n: nat)
    requires Distinct(m) && forall j :: 0 <= j < |m| ==> m[j] < n
    ensures |m| <= n
  {
    DistinctSize(m);
    SubsetSize((set x | x in m), Indices(n));
  }

  /** Who took the first n signatures. */
  lemma {:induction false} Makers(k: Scheme, tx: Transaction, signers: seq<string>, n: nat) returns (makers: seq<string>)
    requires Distinct(signers) && forall i: nat :: i < n ==> Some(i) in Assign(k, tx, signers)
    ensures |makers| == n && Distinct(makers)
    ensures forall s :: s in makers ==> s in FoundSet(k, tx, signers)
    ensures forall s :: s in makers ==> exists p ::
      0 <= p < |signers| && signers[p] == s && Assign(k, tx, signers)[p].Some? && Assign(k, tx, signers)[p].value < n
  {
    makers := [];
    if n > 0 {
      makers := Makers(k, tx, signers, n - 1);
      var a := Assign(k, tx, signers);
      assert Some(n - 1) in a;
      var p: nat :| p < |a| && a[p] == Some(n - 1);
      FoundAt(k, tx, signers, p);
      hide Assign, FoundSet;
      assert signers[p] !in makers;
      makers := makers + [signers[p]];
    }
  }

  /** Every signature that the server leaves is given to a client of its own that made it. */
  ghost predicate EachItsOwn(k: Scheme, tx: Transaction, server: string, clients: seq<string>, m: map<nat, string>) {
    && (forall i: nat :: i < |tx.signatures| && !ServerTakes(k, tx, server, i) ==> i in m)
    && (forall i :: i in m ==> m[i] in clients && Open(k, tx, server, m[i], i))
    && (forall i, j :: i in m && j in m && m[i] == m[j] ==> i == j)
  }

  ghost predicate CanBeAccepted(k: Scheme, tx: Transaction, server: string, signers: seq<string>) {
    exists order :: Distinct(order) && SameSigners(order, signers) && Accepted(k, tx, server, order)
  }

  /** There is an order of the signers in which the challenge is accepted exactly if all the client keys
      are addresses, the server signed, and its other signatures, at least one, can be given one for one
      to clients that made them. */
  lemma CanBeAcceptedExactlyWhen(k: Scheme, tx: Transaction, server: string, signers: seq<string>)
    requires tx.hash.Some?
    ensures var clients := Clients(server, signers);
      CanBeAccepted(k, tx, server, signers) <==>
        && AllAddresses([server] + clients)
        && Signed(k, tx, server)
        && |tx.signatures| > 1
        && exists m :: EachItsOwn(k, tx, server, clients, m)
  {
    hide *;
    var clients := Clients(server, signers);
    if CanBeAccepted(k, tx, server, signers) {
      AcceptedGivesEachItsOwn(k, tx, server, signers);
    }
    if AllAddresses([server] + clients) && Signed(k, tx, server) && |tx.signatures| > 1 {
      if m :| EachItsOwn(k, tx, server, clients, m) {
        EachItsOwnIsAccepted(k, tx, server, signers, m);
      }
    }
  }

  /** What acceptance means for the assignment: all are addresses and every signature is taken, the first
      by the server. */
  lemma AcceptedExactlyIfAllTaken(k: Scheme, tx: Transaction, server: string, signers: seq<string>)
    requires tx.hash.Some?
    ensures var clients := Clients(server, signers); var a := Assign(k, tx, [server] + clients);
      Accepted(k, tx, server, signers) <==>
        && AllAddresses([server] + clients)
        && a[0].Some?
        && |tx.signatures| > 1
        && forall i: nat :: i < |tx.signatures| ==> Some(i) in a
  {
    var clients := Clients(server, signers);
    var all := [server] + clients;
    var fs := FoundSet(k, tx, all);
    var found := ListFound(clients, fs);
    AddressesWithServer(server, clients);
    OneBefore(server, clients);
    FoundAt(k, tx, all, 0);
    FoundAmongListed(k, tx, all);
    hide Assign, AllAddresses, IsAddress, FoundSet, ListFound, Clients;
    assert all[0] == server;
    if server in fs {
      OneBefore(server, found);
      AllTakenExactly(k, tx, all, [server] + found);
    }
    assert clients == [] ==> found == [] by {
      SameEmptiness([], []);
      assert found != [] ==> found[0] in clients;
    }
  }

  lemma AcceptedGivesEachItsOwn(k: Scheme, tx: Transaction, server: string, signers: seq<string>)
    requires tx.hash.Some? && CanBeAccepted(k, tx, server, signers)
    ensures var clients := Clients(server, signers);
      && AllAddresses([server] + clients)
      && Signed(k, tx, server)
      && |tx.signatures| > 1
      && exists m :: EachItsOwn(k, tx, server, clients, m)
  {
    var order :| Distinct(order) && SameSigners(order, signers) && Accepted(k, tx, server, order);
    hide *;
    var cx, cy := Clients(server, signers), Clients(server, order);
    SameClients(server, order, signers);
    AddressesWithServer(server, cx);
    AddressesWithServer(server, cy);
    AcceptedExactlyIfAllTaken(k, tx, server, order);
    ServerTakesIfSigned(k, tx, server, cy);
    var m := Takers(k, tx, server, cy, |cy|);
    TakersGiveEachItsOwn(k, tx, server, cy, m);
    EachItsOwnBySame(k, tx, server, cy, cx, m);
  }

  lemma TakersGiveEachItsOwn(k: Scheme, tx: Transaction, server: string, clients: seq<string>, m: map<nat, string>)
    requires GivenOut(k, tx, server, clients, m)
    requires var a := Assign(k, tx, [server] + clients);
      && (forall i: nat :: i in m <==> Some(i) in a[1..|clients| + 1])
      && (forall i: nat :: i < |tx.signatures| ==> Some(i) in a)
    ensures EachItsOwn(k, tx, server, clients, m)
  {
    ServerTakesFirst(k, tx, server, clients);
    var a := Assign(k, tx, [server] + clients);
    assert a == [a[0]] + a[1..|clients| + 1];
    hide Assign, Open, ServerTakes;
  }

  lemma EachItsOwnBySame(k: Scheme, tx: Transaction, server: string, xs: seq<string>, ys: seq<string>, m: map<nat, string>)
    requires EachItsOwn(k, tx, server, xs, m) && SameSigners(xs, ys)
    ensures EachItsOwn(k, tx, server, ys, m)
  {
    hide Open, ServerTakes;
  }

  lemma EachItsOwnIsAccepted(k: Scheme, tx: Transaction, server: string, signers: seq<string>, m: map<nat, string>)
    requires var clients := Clients(server, signers);
      && tx.hash.Some? && |tx.signatures| > 1
      && AllAddresses([server] + clients)
      && Signed(k, tx, server)
      && EachItsOwn(k, tx, server, clients, m)
    ensures CanBeAccepted(k, tx, server, signers)
  {
    hide *;
    var clients := Clients(server, signers);
    EachItsOwnIsGivenOut(k, tx, server, clients, m);
    var ds := GiveOut(k, tx, server, clients, m, |tx.signatures|);
    ListedAreClients(k, tx, server, clients, m, ds);
    var order := Completed(ds, signers);
    CompletedSame(ds, signers);
    ClientsStart(server, ds, order);
    SameClients(server, order, signers);
    var cy := Clients(server, order);
    AddressesWithServer(server, clients);
    AddressesWithServer(server, cy);
    ServerTakesIfSigned(k, tx, server, cy);
    TakenByFirst(k, tx, server, cy, ds);
    AllGivenAllTaken(k, tx, server, clients, cy, ds, m);
    AcceptedExactlyIfAllTaken(k, tx, server, order);
    AcceptedInOrder(k, tx, server, signers, order);
  }

  lemma AcceptedInOrder(k: Scheme, tx: Transaction, server: string, signers: seq<string>, order: seq<string>)
    requires Distinct(order) && SameSigners(order, signers) && Accepted(k, tx, server, order)
    ensures CanBeAccepted(k, tx, server, signers)
  {
    hide Accepted, SameSigners, Distinct;
  }

  lemma EachItsOwnIsGivenOut(k: Scheme, tx: Transaction, server: string, clients: seq<string>, m: map<nat, string>)
    requires EachItsOwn(k, tx, server, clients, m)
    ensures GivenOut(k, tx, server, clients, m)
  {
    hide ServerTakes;
  }

  lemma ListedAreClients(k: Scheme, tx: Transaction, server: string, clients: seq<string>, m: map<nat, string>,
                         ds: seq<string>)
    requires GivenOut(k, tx, server, clients, m)
    requires forall d :: d in ds ==> exists j :: j in m && j < |tx.signatures| && m[j] == d
    ensures forall d :: d in ds ==> d in clients
  {
    hide Open;
  }

  lemma AllGivenAllTaken(k: Scheme, tx: Transaction, server: string, clients: seq<string>, all: seq<string>, ds: seq<string>,
                         m: map<nat, string>)
    requires EachItsOwn(k, tx, server, clients, m) && |ds| <= |all|
    requires forall j: nat :: Some(j) in Assign(k, tx, [server] + ds)[1..] <==> j in m && j < |tx.signatures|
    requires Assign(k, tx, [server] + all)[1..|ds| + 1] == Assign(k, tx, [server] + ds)[1..]
    ensures forall i: nat :: i < |tx.signatures| ==> Some(i) in Assign(k, tx, [server] + all)
  {
    ServerTakesFirst(k, tx, server, all);
    var a := Assign(k, tx, [server] + all);
    hide Assign, ServerTakes, Open;
    forall i: nat | i < |tx.signatures|
      ensures Some(i) in a
    {
      if i in m {
        assert Some(i) in a[1..|ds| + 1];
      }
    }
  }

  /** If no client can be blocked, a challenge that can be accepted is accepted in the order at hand. */
  lemma AcceptedAsListed(k: Scheme, tx: Transaction, server: string, signers: seq<string>)
    requires Unblockable(k, tx, server, Clients(server, signers))
    ensures Accepted(k, tx, server, signers) <==> CanBeAccepted(k, tx, server, signers)
  {
    var once := Completed([], signers);
    CompletedSame([], signers);
    OrderIrrelevant(k, Some(tx), server, signers, once);
    if CanBeAccepted(k, tx, server, signers) {
      var order :| Distinct(order) && SameSigners(order, signers) && Accepted(k, tx, server, order);
      assert SameSigners(signers, order);
      OrderIrrelevant(k, Some(tx), server, signers, order);
    }
    hide SignersOutcome, Unblockable, Completed, SameSigners, Clients;
  }

  // ----- Why a challenge is refused -----

  /** A key to look for: an account key other than the server's. */
  ghost predicate IsClient(server: string, signers: seq<string>, s: string) {
    s in signers && s != server && IsAccountKey(s)
  }

  lemma ClientsAre(server: string, signers: seq<string>)
    ensures Clients(server, signers) == [] <==> forall s :: !IsClient(server, signers, s)
    ensures AllAddresses(Clients(server, signers)) <==> forall s :: IsClient(server, signers, s) ==> IsAddress(s)
  {
    hide IsAddress, IsAccountKey, Clients;
    var clients := Clients(server, signers);
    assert forall s :: s in clients <==> IsClient(server, signers, s);
    if clients != [] {
      assert clients[0] in clients;
    }
  }

  /** What is wrong before any signature is looked at, exactly. */
  lemma KeysRefusedExactly(k: Scheme, read: Option<Transaction>, server: string, signers: seq<string>)
    ensures var error := SignersOutcome(k, read, server, signers).error;
      && (error == Some(InvalidChallenge) <==> read.None?)
      && (error == Some(ServerNotAddress) <==> read.Some? && !IsAddress(server))
      && (error == Some(NoVerifiableSigners) <==>
          read.Some? && IsAddress(server) && forall s :: !IsClient(server, signers, s))
      && (error == Some(CannotHash) <==>
          read.Some? && IsAddress(server) && read.value.hash.None? && exists s :: IsClient(server, signers, s))
      && (error == Some(SignerNotAddress) <==>
          read.Some? && IsAddress(server) && read.value.hash.Some? && exists s :: IsClient(server, signers, s) && !IsAddress(s))
  {
    ClientsAre(server, signers);
    hide IsAddress, Clients, AllAddresses, FoundSet, ListFound, IsClient;
  }

  /** Nothing but the signatures can speak against the challenge. */
  ghost predicate Examined(tx: Transaction, server: string, signers: seq<string>) {
    && IsAddress(server) && tx.hash.Some?
    && (exists s :: IsClient(server, signers, s))
    && (forall s :: IsClient(server, signers, s) ==> IsAddress(s))
  }

  /** A signature that neither the server nor a client takes. */
  ghost predicate LeftOver(k: Scheme, tx: Transaction, signers: seq<string>) {
    exists i: nat :: i < |tx.signatures| && Some(i) !in Assign(k, tx, signers)
  }

  lemma AllFoundExactly(k: Scheme, tx: Transaction, server: string, clients: seq<string>)
    requires Distinct(clients) && server !in clients && server in FoundSet(k, tx, [server] + clients)
    ensures 1 + |ListFound(clients, FoundSet(k, tx, [server] + clients))| == |tx.signatures| <==>
      !LeftOver(k, tx, [server] + clients)
  {
    var all := [server] + clients;
    var found := ListFound(clients, FoundSet(k, tx, all));
    OneBefore(server, clients);
    FoundAmongListed(k, tx, all);
    hide FoundSet, ListFound, Assign;
    OneBefore(server, found);
    AllTakenExactly(k, tx, all, [server] + found);
  }

  /** What is wrong with the signatures, exactly: the server has not signed, or no client has a signature
      that the server leaves, or both; or a signature is left over. */
  lemma SignaturesRefusedExactly(k: Scheme, tx: Transaction, server: string, signers: seq<string>)
    requires Examined(tx, server, signers)
    ensures var clients := Clients(server, signers);
      var nobody := forall c :: c in clients ==> !HasOpen(k, tx, server, c);
      SignersOutcome(k, Some(tx), server, signers).error ==
        if !Signed(k, tx, server) then Some(if nobody then Panic else NotSignedByServer)
        else if nobody then Some(NotSignedByClient)
        else if LeftOver(k, tx, [server] + clients) then Some(UnrecognizedSignatures)
        else None
  {
    var clients := Clients(server, signers);
    ClientsAre(server, signers);
    ServerFound(k, tx, server, clients);
    SomebodyFound(k, tx, server, clients);
    if server in FoundSet(k, tx, [server] + clients) {
      AllFoundExactly(k, tx, server, clients);
    }
    hide IsAddress, Clients, AllAddresses, FoundSet, ListFound, IsClient, HasOpen, Signed, LeftOver;
  }

  // ----- The clients of an order -----

  /** Clients listed first are the first clients. */
  lemma ClientsStart(server: string, ds: seq<string>, order: seq<string>)
    requires ds <= order && Distinct(ds) && forall d :: d in ds ==> d != server && IsAccountKey(d)
    ensures ds <= Clients(server, order)
  {
    assert order == ds + order[|ds|..];
    ClientsOfClients(server, ds);
    MoreClients(server, ds, order[|ds|..]);
  }

  lemma {:induction false} ClientsOfClients(server: string, ds: seq<string>)
    requires Distinct(ds) && forall d :: d in ds ==> d != server && IsAccountKey(d)
    ensures Clients(server, ds) == ds
  {
    hide IsAccountKey;
    if ds != [] {
      var n := |ds| - 1;
      assert ds == ds[..n] + [ds[n]];
      assert ds[n] in ds && ds[n] !in ds[..n];
      assert forall d :: d in ds[..n] ==> d in ds;
      ClientsOfClients(server, ds[..n]);
      OneMoreClient(server, ds[..n], ds[n]);
    }
  }

  lemma OneMoreClient(server: string, signers: seq<string>, s: string)
    requires s != server && s !in Clients(server, signers) && IsAccountKey(s)
    ensures Clients(server, signers + [s]) == Clients(server, signers) + [s]
  {
    hide IsAccountKey;
    assert (signers + [s])[..|signers|] == signers;
  }

  lemma {:induction false} MoreClients(server: string, xs: seq<string>, ys: seq<string>)
    ensures Clients(server, xs) <= Clients(server, xs + ys)
  {
    hide IsAccountKey;
    if ys == [] {
      assert xs + ys == xs;
    } else {
      var n := |ys| - 1;
      MoreClients(server, xs, ys[..n]);
      assert (xs + ys)[..|xs + ys| - 1] == xs + ys[..n];
    }
  }

  /** One signature that two signers share goes to whoever is listed first. */
  lemma SharedSignatureGoesToTheFirst(k: Scheme, tx: Transaction, a: string, b: string)
    requires a != b && |tx.signatures| == 1
    requires Matches(k, tx, a, 0) && Matches(k, tx, b, 0)
    ensures FoundSet(k, tx, [a, b]) == {a}
    ensures FoundSet(k, tx, [b, a]) == {b}
  {
    FirstOfTwo(k, tx, a, b);
    FirstOfTwo(k, tx, b, a);
  }

  lemma FirstOfTwo(k: Scheme, tx: Transaction, a: string, b: string)
    requires a != b && |tx.signatures| == 1
    requires Matches(k, tx, a, 0) && Matches(k, tx, b, 0)
    ensures FoundSet(k, tx, [a, b]) == {a}
  {
    var both := [a, b];
    assert both[..0] == [] && both[..1] == [a] && both[..2] == both;
    FoundGrows(k, tx, both, 0);
    FoundGrows(k, tx, both, 1);
    assert FirstFree(k, tx, a, [], 0) == Some(0);
    assert FirstFree(k, tx, b, [Some(0)], 0) == None;
  }
}
