/** Matching signers to the signatures of a challenge transaction, after txnbuild/transaction.go.

    Hint and signature verification are the functions of a Scheme; what reading the challenge
    returns is a parameter. */
module Challenge {
  import opened Arithmetic
  import opened Bits
  import opened Sequences
  import opened Wrappers
  import StrKey

  datatype DecoratedSignature = DecoratedSignature(hint: seq<byte>, signature: seq<byte>)

  /** A transaction with its hash for the network at hand, if it can be hashed. */
  datatype Transaction = Transaction(hash: Option<seq<byte>>, signatures: seq<DecoratedSignature>)

  datatype Scheme = Scheme(hint: string -> seq<byte>, verify: (string, seq<byte>, seq<byte>) -> bool)

  datatype ChallengeError =
    | InvalidChallenge | ServerNotAddress | NoVerifiableSigners | CannotHash | SignerNotAddress
    | NotSignedByServer | NotSignedByClient | UnrecognizedSignatures | BelowThreshold(weight: int32)
    | Panic

  datatype Outcome = Outcome(found: seq<string>, error: Option<ChallengeError>)

  predicate IsAddress(s: string) {
    StrKey.Decoding(StrKey.VERSION_ACCOUNT_ID, s).Ok?
  }

  ghost predicate AllAddresses(signers: seq<string>) {
    forall s :: s in signers ==> IsAddress(s)
  }

  /** Signature i was made by the signer. */
  predicate Matches(k: Scheme, tx: Transaction, signer: string, i: nat) {
    && i < |tx.signatures| && tx.hash.Some?
    && tx.signatures[i].hint == k.hint(signer)
    && k.verify(signer, tx.hash.value, tx.signatures[i].signature)
  }

  /** The signature carries the signer's hint and verifies. */
  ghost predicate MadeBy(k: Scheme, hash: seq<byte>, x: DecoratedSignature, signer: string) {
    x.hint == k.hint(signer) && k.verify(signer, hash, x.signature)
  }

  ghost predicate Signed(k: Scheme, tx: Transaction, signer: string) {
    exists i :: Matches(k, tx, signer, i)
  }

  /** No signature verifies under two different ones of the signers. */
  ghost predicate Exclusive(k: Scheme, tx: Transaction, signers: seq<string>) {
    forall s, t, i :: s in signers && t in signers && Matches(k, tx, s, i) && Matches(k, tx, t, i) ==> s == t
  }

  // ----- The greedy assignment -----

  /** The first signature from i on that is not taken and was made by the signer. */
  function FirstFree(k: Scheme, tx: Transaction, signer: string, taken: seq<Option<nat>>, i: nat): (r: Option<nat>)
    ensures r.Some? ==> Matches(k, tx, signer, r.value) && r !in taken
    ensures r.None? ==> forall j :: i <= j && Matches(k, tx, signer, j) ==> Some(j) in taken
    decreases |tx.signatures| - i
  {
    if i >= |tx.signatures| then None
    else if Some(i) !in taken && Matches(k, tx, signer, i) then Some(i)
    else FirstFree(k, tx, signer, taken, i + 1)
  }

  /** For each signer in turn the signature it takes, if any. */
  ghost function Assign(k: Scheme, tx: Transaction, signers: seq<string>): (a: seq<Option<nat>>)
    ensures |a| == |signers|
  {
    if signers == [] then [] else
    var n := |signers| - 1;
    var a := Assign(k, tx, signers[..n]);
    a + [FirstFree(k, tx, signers[n], a, 0)]
  }

  /** What a greedy assignment is: only matching signatures are taken, none of them twice, and a
      signer goes without only if all its signatures were taken by earlier signers. */
  ghost predicate Greedy(k: Scheme, tx: Transaction, signers: seq<string>, a: seq<Option<nat>>) {
    && |a| == |signers|
    && (forall p :: 0 <= p < |a| && a[p].Some? ==> Matches(k, tx, signers[p], a[p].value))
    && (forall p, q :: 0 <= p < q < |a| && a[p].Some? ==> a[p] != a[q])
    && (forall p, i: nat :: 0 <= p < |a| && a[p].None? && Matches(k, tx, signers[p], i) ==> Some(i) in a[..p])
  }

  lemma {:induction false} AssignIsGreedy(k: Scheme, tx: Transaction, signers: seq<string>)
    ensures Greedy(k, tx, signers, Assign(k, tx, signers))
  {
    if signers != [] {
      var n := |signers| - 1;
      AssignIsGreedy(k, tx, signers[..n]);
      var a := Assign(k, tx, signers[..n]);
      var free := FirstFree(k, tx, signers[n], a, 0);
      assert Assign(k, tx, signers) == a + [free];
      hide FirstFree, Matches, Assign;
      GreedyGrows(k, tx, signers, a, free);
    }
  }

  lemma GreedyGrows(k: Scheme, tx: Transaction, signers: seq<string>, a: seq<Option<nat>>, free: Option<nat>)
    requires signers != [] && Greedy(k, tx, signers[..|signers| - 1], a)
    requires free.Some? ==> Matches(k, tx, signers[|signers| - 1], free.value) && free !in a
    requires free.None? ==> forall i: nat :: Matches(k, tx, signers[|signers| - 1], i) ==> Some(i) in a
    ensures Greedy(k, tx, signers, a + [free])
  {
    hide Matches;
    var b := a + [free];
    forall p, i: nat | 0 <= p < |b| && b[p].None? && Matches(k, tx, signers[p], i)
      ensures Some(i) in b[..p]
    {
      assert b[..p] == a[..p];
    }
  }

  ghost function FoundSet(k: Scheme, tx: Transaction, signers: seq<string>): set<string> {
    var a := Assign(k, tx, signers);
    set p | 0 <= p < |a| && a[p].Some? :: signers[p]
  }

  lemma FoundGrows(k: Scheme, tx: Transaction, signers: seq<string>, n: nat)
    requires n < |signers|
    ensures var a := Assign(k, tx, signers[..n]); var free := FirstFree(k, tx, signers[n], a, 0);
      && Assign(k, tx, signers[..n + 1]) == a + [free]
      && FoundSet(k, tx, signers[..n + 1]) ==
         FoundSet(k, tx, signers[..n]) + (if free.Some? then {signers[n]} else {})
  {
    assert signers[..n + 1][..n] == signers[..n];
    var a, b := Assign(k, tx, signers[..n]), Assign(k, tx, signers[..n + 1]);
    forall s
      ensures s in FoundSet(k, tx, signers[..n + 1]) <==>
        s in FoundSet(k, tx, signers[..n]) || (b[n].Some? && s == signers[n])
    {
      if s in FoundSet(k, tx, signers[..n]) {
        var p :| 0 <= p < |a| && a[p].Some? && s == signers[..n][p];
        assert b[p].Some? && s == signers[..n + 1][p];
      }
      if b[n].Some? && s == signers[n] {
        assert s == signers[..n + 1][n];
      }
    }
  }

  /** The signers found, in the order given and without repetition. */
  ghost function ListFound<K(!new)>(signers: seq<K>, found: set<K>): (r: seq<K>)
    ensures forall s :: s in r <==> s in signers && s in found
    ensures Distinct(r)
  {
    if signers == [] then [] else
    var n := |signers| - 1;
    var before := ListFound(signers[..n], found);
    assert signers == signers[..n] + [signers[n]];
    if signers[n] in found && signers[n] !in before then before + [signers[n]] else before
  }

  method ParseAddress(address: string) returns (valid: bool)
    ensures valid <==> IsAddress(address)
  {
    var payload := StrKey.Decode(StrKey.VERSION_ACCOUNT_ID, address);
    valid := payload.Ok?;
  }

  lemma AddressesSoFar(signers: seq<string>, n: nat)
    requires n < |signers|
    ensures AllAddresses(signers[..n]) && IsAddress(signers[n]) ==> AllAddresses(signers[..n + 1])
    ensures !IsAddress(signers[n]) ==> !AllAddresses(signers)
  {
    hide IsAddress;
    assert signers[..n + 1] == signers[..n] + [signers[n]];
  }

  method ListSigners(signers: seq<string>, found: set<string>) returns (list: seq<string>)
    ensures list == ListFound(signers, found)
  {
    list := [];
    var rest := found;
    for n := 0 to |signers|
      invariant list == ListFound(signers[..n], found)
      invariant forall s :: s in rest <==> s in found && s !in list
    {
      assert signers[..n + 1][..n] == signers[..n];
      if signers[n] in rest {
        list := list + [signers[n]];
        rest := rest - {signers[n]};
      }
    }
    assert signers[..|signers|] == signers;
  }

  /** The inner loop of VerifyTxSignatures. */
  method TakeSignature(k: Scheme, tx: Transaction, signer: string, used: set<nat>, ghost taken: seq<Option<nat>>)
      returns (r: Option<nat>)
    requires tx.hash.Some? && forall i :: i in used <==> Some(i) in taken
    ensures r == FirstFree(k, tx, signer, taken, 0)
  {
    for i := 0 to |tx.signatures|
      invariant FirstFree(k, tx, signer, taken, 0) == FirstFree(k, tx, signer, taken, i)
    {
      if i in used || tx.signatures[i].hint != k.hint(signer) {
        continue;
      }
      if k.verify(signer, tx.hash.value, tx.signatures[i].signature) {
        return Some(i);
      }
    }
    return None;
  }

  lemma OneMoreTaken(used: set<nat>, taken: seq<Option<nat>>, free: Option<nat>)
    requires forall i :: i in used <==> Some(i) in taken
    ensures forall i :: i in used + (if free.Some? then {free.value} else {}) <==> Some(i) in taken + [free]
  {
  }

  /** The loop of VerifyTxSignatures has dealt with these signers. */
  ghost predicate Matched(k: Scheme, tx: Transaction, signers: seq<string>, used: set<nat>, found: set<string>) {
    && AllAddresses(signers)
    && found == FoundSet(k, tx, signers)
    && forall i :: i in used <==> Some(i) in Assign(k, tx, signers)
  }

  lemma NobodyMatched(k: Scheme, tx: Transaction)
    ensures Matched(k, tx, [], {}, {})
  {
  }

  lemma OneMoreMatched(k: Scheme, tx: Transaction, signers: seq<string>, n: nat, used: set<nat>, found: set<string>)
    requires n < |signers| && Matched(k, tx, signers[..n], used, found) && IsAddress(signers[n])
    ensures var free := FirstFree(k, tx, signers[n], Assign(k, tx, signers[..n]), 0);
      if free.Some? then Matched(k, tx, signers[..n + 1], used + {free.value}, found + {signers[n]})
      else Matched(k, tx, signers[..n + 1], used, found)
  {
    AddressesSoFar(signers, n);
    FoundGrows(k, tx, signers, n);
    hide IsAddress, AllAddresses, FoundSet, Assign, FirstFree;
    var taken := Assign(k, tx, signers[..n]);
    OneMoreTaken(used, taken, FirstFree(k, tx, signers[n], taken, 0));
  }

  lemma UsedIsTaken(k: Scheme, tx: Transaction, signers: seq<string>, used: set<nat>, found: set<string>)
    requires Matched(k, tx, signers, used, found)
    ensures AllAddresses(signers) && found == FoundSet(k, tx, signers)
    ensures forall i :: i in used <==> Some(i) in Assign(k, tx, signers)
  {
    hide AllAddresses, FoundSet, Assign;
  }

  /** Matching the signers in turn against the signatures. */
  method VerifyTxSignatures(k: Scheme, tx: Transaction, signers: seq<string>) returns (r: Outcome)
    ensures tx.hash.None? ==> r == Outcome([], Some(CannotHash))
    ensures tx.hash.Some? && !AllAddresses(signers) ==> r == Outcome([], Some(SignerNotAddress))
    ensures tx.hash.Some? && AllAddresses(signers) ==>
      r == Outcome(ListFound(signers, FoundSet(k, tx, signers)), None)
    ensures forall s :: s in r.found ==> tx.hash.Some? && exists x :: x in tx.signatures && MadeBy(k, tx.hash.value, x, s)
  {
    FoundSigned(k, tx, signers);
    hide *;
    if tx.hash.None? {
      return Outcome([], Some(CannotHash));
    }
    var signatureUsed: set<nat>, signersFound: set<string> := {}, {};
    NobodyMatched(k, tx);
    assert signers[..0] == [];
    for n := 0 to |signers|
      invariant Matched(k, tx, signers[..n], signatureUsed, signersFound)
    {
      var valid := ParseAddress(signers[n]);
      if !valid {
        AddressesSoFar(signers, n);
        return Outcome([], Some(SignerNotAddress));
      }
      UsedIsTaken(k, tx, signers[..n], signatureUsed, signersFound);
      OneMoreMatched(k, tx, signers, n, signatureUsed, signersFound);
      var i := TakeSignature(k, tx, signers[n], signatureUsed, Assign(k, tx, signers[..n]));
      if i.Some? {
        signatureUsed := signatureUsed + {i.value};
        signersFound := signersFound + {signers[n]};
      }
    }
    assert signers[..|signers|] == signers;
    UsedIsTaken(k, tx, signers, signatureUsed, signersFound);
    var list := ListSigners(signers, signersFound);
    return Outcome(list, None);
  }

  lemma FoundSigned(k: Scheme, tx: Transaction, signers: seq<string>)
    ensures forall s :: s in FoundSet(k, tx, signers) ==> tx.hash.Some? && exists x :: x in tx.signatures && MadeBy(k, tx.hash.value, x, s)
  {
    AssignIsGreedy(k, tx, signers);
    var a := Assign(k, tx, signers);
    hide Assign;
    forall s | s in FoundSet(k, tx, signers)
      ensures tx.hash.Some? && exists x :: x in tx.signatures && MadeBy(k, tx.hash.value, x, s)
    {
      var p :| 0 <= p < |a| && a[p].Some? && s == signers[p];
      var x := tx.signatures[a[p].value];
      assert x in tx.signatures && MadeBy(k, tx.hash.value, x, s);
    }
  }

  /** Whether one signer made one of the signatures. */
  method VerifyTxSignature(k: Scheme, tx: Transaction, signer: string) returns (signed: bool)
    ensures signed <==> tx.hash.Some? && IsAddress(signer) && exists x :: x in tx.signatures && MadeBy(k, tx.hash.value, x, signer)
  {
    OneSigner(k, tx, signer);
    hide IsAddress, FoundSet, ListFound;
    var all := VerifyTxSignatures(k, tx, [signer]);
    signed := |all.found| != 0 && all.error.None?;
  }

  lemma OneSigner(k: Scheme, tx: Transaction, signer: string)
    ensures ListFound([signer], FoundSet(k, tx, [signer])) != [] <==> tx.hash.Some? && exists x :: x in tx.signatures && MadeBy(k, tx.hash.value, x, signer)
    ensures AllAddresses([signer]) <==> IsAddress(signer)
  {
    FoundSigned(k, tx, [signer]);
    AssignIsGreedy(k, tx, [signer]);
    var a := Assign(k, tx, [signer]);
    assert a[..0] == [];
    var list := ListFound([signer], FoundSet(k, tx, [signer]));
    hide Assign, IsAddress, ListFound, FoundSet;
    if tx.hash.Some? {
      if i :| 0 <= i < |tx.signatures| && MadeBy(k, tx.hash.value, tx.signatures[i], signer) {
        assert Matches(k, tx, signer, i);
        assert a[0].Some?;
        OneFound(k, tx, signer);
        assert signer in list;
      }
    }
    if list != [] {
      assert list[0] in list && list[0] == signer;
    }
    assert [signer][0] == signer;
  }

  lemma OneFound(k: Scheme, tx: Transaction, signer: string)
    requires Assign(k, tx, [signer])[0].Some?
    ensures signer in FoundSet(k, tx, [signer])
  {
    hide Assign;
    assert [signer][0] == signer;
  }

  // ----- Which signers are looked for -----

  predicate IsAccountKey(s: string) {
    StrKey.VersionOf(s) == Ok(StrKey.VERSION_ACCOUNT_ID)
  }

  /** The client signers: without the server, without repetition, and only account keys. */
  ghost function Clients(server: string, signers: seq<string>): (r: seq<string>)
    ensures forall s :: s in r <==> s in signers && s != server && IsAccountKey(s)
    ensures Distinct(r)
  {
    if signers == [] then [] else
    var n := |signers| - 1;
    var before := Clients(server, signers[..n]);
    assert signers == signers[..n] + [signers[n]];
    if signers[n] == server || signers[n] in before || !IsAccountKey(signers[n]) then before
    else before + [signers[n]]
  }

  /** Keys of other kinds than accounts are ignored. */
  lemma {:induction false} OtherKeyIgnored(server: string, xs: seq<string>, s: string, ys: seq<string>)
    requires !IsAccountKey(s)
    ensures Clients(server, xs + [s] + ys) == Clients(server, xs + ys)
  {
    hide IsAccountKey;
    if ys == [] {
      assert (xs + [s])[..|xs|] == xs && xs + [s] + ys == xs + [s] && xs + ys == xs;
    } else {
      var n := |ys| - 1;
      OtherKeyIgnored(server, xs, s, ys[..n]);
      assert (xs + [s] + ys)[..|xs + [s] + ys| - 1] == xs + [s] + ys[..n];
      assert (xs + ys)[..|xs + ys| - 1] == xs + ys[..n];
    }
  }

  /** So signers such as hashes of pre-authorized transactions and hash preimages play no part, and neither do
      seeds. */
  lemma OtherVersionsIgnored(k: Scheme, read: Option<Transaction>, server: string, xs: seq<string>, ys: seq<string>,
                             version: byte, payload: seq<byte>)
    requires StrKey.ValidVersion(version) && version != StrKey.VERSION_ACCOUNT_ID
    ensures var s := StrKey.Encoding(version, payload).value;
      SignersOutcome(k, read, server, xs + [s] + ys) == SignersOutcome(k, read, server, xs + ys)
  {
    var s := StrKey.Encoding(version, payload).value;
    hide *;
    OtherVersion(version, payload);
    OtherKeyIgnored(server, xs, s, ys);
    SameOutcomeBySameClients(k, read, server, xs + [s] + ys, xs + ys);
  }

  lemma OtherVersion(version: byte, payload: seq<byte>)
    requires StrKey.ValidVersion(version) && version != StrKey.VERSION_ACCOUNT_ID
    ensures StrKey.Encoding(version, payload).Ok? && !IsAccountKey(StrKey.Encoding(version, payload).value)
  {
    StrKey.VersionOfEncode(version, payload);
  }

  lemma SameOutcomeBySameClients(k: Scheme, read: Option<Transaction>, server: string, xs: seq<string>, ys: seq<string>)
    requires Clients(server, xs) == Clients(server, ys)
    ensures SignersOutcome(k, read, server, xs) == SignersOutcome(k, read, server, ys)
  {
    hide Clients, IsAddress, AllAddresses, FoundSet, ListFound;
  }

  ghost function SignersOutcome(k: Scheme, read: Option<Transaction>, server: string, signers: seq<string>): Outcome {
    if read.None? then Outcome([], Some(InvalidChallenge)) else
    if !IsAddress(server) then Outcome([], Some(ServerNotAddress)) else
    var tx, clients := read.value, Clients(server, signers);
    if clients == [] then Outcome([], Some(NoVerifiableSigners)) else
    if tx.hash.None? then Outcome([], Some(CannotHash)) else
    if !AllAddresses(clients) then Outcome([], Some(SignerNotAddress)) else
    var all := FoundSet(k, tx, [server] + clients);
    var found := ListFound(clients, all);
    if server !in all then Outcome([], Some(if found == [] then Panic else NotSignedByServer)) else
    if found == [] then Outcome([], Some(NotSignedByClient)) else
    Outcome(found, if 1 + |found| != |tx.signatures| then Some(UnrecognizedSignatures) else None)
  }

  lemma {:induction false} ServerFirst<K(!new)>(server: K, clients: seq<K>, found: set<K>)
    requires server !in clients
    ensures ListFound([server] + clients, found) ==
      (if server in found then [server] else []) + ListFound(clients, found)
  {
    hide *;
    var first := if server in found then [server] else [];
    if clients == [] {
      ListFoundNone(found);
      ListFoundAdd([], server, found);
      assert [server] + clients == [] + [server];
    } else {
      var rest, last := clients[..|clients| - 1], clients[|clients| - 1];
      assert clients == rest + [last];
      assert last in clients;
      ServerFirst(server, rest, found);
      ListFoundAdd(rest, last, found);
      ListFoundAdd([server] + rest, last, found);
      assert [server] + clients == ([server] + rest) + [last];
      AddBehind(first, ListFound(rest, found), last);
    }
  }

  lemma AddBehind<K(!new)>(first: seq<K>, before: seq<K>, last: K)
    requires last !in first
    ensures last in first + before <==> last in before
    ensures first + before + [last] == first + (before + [last])
  {
  }

  lemma ListFoundNone<K(!new)>(found: set<K>)
    ensures ListFound([], found) == []
  {
  }

  lemma ListFoundAdd<K(!new)>(signers: seq<K>, last: K, found: set<K>)
    ensures var before := ListFound(signers, found);
      ListFound(signers + [last], found) == if last in found && last !in before then before + [last] else before
  {
    assert (signers + [last])[..|signers|] == signers;
  }

  method ClientSigners(server: string, signers: seq<string>) returns (clientSigners: seq<string>)
    ensures clientSigners == Clients(server, signers)
  {
    hide IsAccountKey;
    clientSigners := [];
    var seen: set<string> := {};
    for n := 0 to |signers|
      invariant clientSigners == Clients(server, signers[..n])
      invariant forall s :: s in seen <==> s in clientSigners
    {
      assert signers[..n + 1][..n] == signers[..n];
      if signers[n] == server || signers[n] in seen || !IsAccountKey(signers[n]) {
        continue;
      }
      clientSigners := clientSigners + [signers[n]];
      seen := seen + {signers[n]};
    }
    assert signers[..|signers|] == signers;
  }

  method RemoveServer(server: string, found: seq<string>, ghost clients: seq<string>)
      returns (serverFound: bool, signersFound: seq<string>)
    requires server !in clients && (found == clients || found == [server] + clients)
    ensures serverFound <==> server in found
    ensures signersFound == clients
  {
    serverFound, signersFound := false, [];
    for n := 0 to |found|
      invariant serverFound <==> server in found[..n]
      invariant found == clients ==> signersFound == clients[..n]
      invariant found == [server] + clients ==> signersFound == clients[..if n > 0 then n - 1 else 0]
    {
      if found[n] == server {
        serverFound := true;
        continue;
      }
      signersFound := signersFound + [found[n]];
    }
  }

  method VerifyChallengeTxSigners(k: Scheme, read: Option<Transaction>, server: string, signers: seq<string>)
      returns (r: Outcome)
    ensures r == SignersOutcome(k, read, server, signers)
  {
    hide IsAddress, FoundSet, ListFound, Clients;
    if read.None? {
      return Outcome([], Some(InvalidChallenge));
    }
    var tx := read.value;
    var valid := ParseAddress(server);
    if !valid {
      return Outcome([], Some(ServerNotAddress));
    }
    var clientSigners := ClientSigners(server, signers);
    if |clientSigners| == 0 {
      return Outcome([], Some(NoVerifiableSigners));
    }
    var all := VerifyTxSignatures(k, tx, [server] + clientSigners);
    if all.error.Some? {
      return Outcome([], all.error);
    }
    ghost var foundSet := FoundSet(k, tx, [server] + clientSigners);
    ServerFirst(server, clientSigners, foundSet);
    // Making room for one signer less than were found panics when nobody was found.
    if |all.found| == 0 {
      return Outcome([], Some(Panic));
    }
    var serverFound, signersFound := RemoveServer(server, all.found, ListFound(clientSigners, foundSet));
    if !serverFound {
      return Outcome([], Some(NotSignedByServer));
    }
    if |signersFound| == 0 {
      return Outcome([], Some(NotSignedByClient));
    }
    if |all.found| != |tx.signatures| {
      return Outcome(signersFound, Some(UnrecognizedSignatures));
    }
    return Outcome(signersFound, None);
  }

  // ----- What success means -----

  /** The signatures and who made them, one for one: signature m[j] is by who[j], and no signature is
      left over. */
  ghost predicate Accounted(k: Scheme, tx: Transaction, who: seq<string>, m: seq<nat>) {
    && |m| == |who| == |tx.signatures|
    && (forall j :: 0 <= j < |who| ==> Matches(k, tx, who[j], m[j]))
    && Distinct(who) && Distinct(m)
    && (forall i: nat :: i < |tx.signatures| ==> i in m)
  }

  lemma {:induction false} DistinctSize<T(!new)>(xs: seq<T>)
    requires Distinct(xs)
    ensures |set x | x in xs| == |xs|
  {
    if xs == [] {
    } else {
      var n := |xs| - 1;
      DistinctSize(xs[..n]);
      assert xs == xs[..n] + [xs[n]];
      assert (set x | x in xs) == (set x | x in xs[..n]) + {xs[n]};
    }
  }

  ghost function Indices(n: nat): (r: set<nat>)
    ensures |r| == n && forall i :: i in r <==> 0 <= i < n
  {
    if n == 0 then {} else Indices(n - 1) + {n - 1}
  }

  /** As many distinct indices as there are places fill all the places. */
  lemma Pigeonhole(m: seq<nat>, n: nat)
    requires Distinct(m) && |m| == n && forall j :: 0 <= j < n ==> m[j] < n
    ensures forall i: nat :: i < n ==> i in m
  {
    var all, taken := Indices(n), set x | x in m;
    DistinctSize(m);
    assert taken <= all;
    if i: nat :| i < n && i !in m {
      assert taken <= all - {i};
      SubsetSize(taken, all - {i});
    }
  }

  lemma {:induction false} SubsetSize<T>(a: set<T>, b: set<T>)
    requires a <= b
    ensures |a| <= |b|
  {
    assert b == a + (b - a);
  }

  /** Distinct signers that were found own distinct signatures. */
  lemma FoundOwnSignatures(k: Scheme, tx: Transaction, signers: seq<string>, who: seq<string>) returns (m: seq<nat>)
    requires Distinct(who) && forall s :: s in who ==> s in FoundSet(k, tx, signers)
    ensures |m| == |who| && Distinct(m)
    ensures forall j :: 0 <= j < |who| ==> Matches(k, tx, who[j], m[j])
    ensures forall j :: 0 <= j < |who| ==> Some(m[j]) in Assign(k, tx, signers)
  {
    AssignIsGreedy(k, tx, signers);
    var a := Assign(k, tx, signers);
    hide Matches, Assign;
    m := [];
    ghost var at: seq<nat> := [];
    for n := 0 to |who|
      invariant |m| == |at| == n
      invariant forall j :: 0 <= j < n ==> at[j] < |a| && a[at[j]] == Some(m[j]) && signers[at[j]] == who[j]
    {
      assert who[n] in FoundSet(k, tx, signers);
      var p: nat :| p < |a| && a[p].Some? && signers[p] == who[n];
      m, at := m + [a[p].value], at + [p];
    }
    forall i, j | 0 <= i < j < |m|
      ensures m[i] != m[j]
    {
      assert at[i] != at[j];
    }
  }

  /** Success accounts for the whole transaction: its signatures correspond one for one to the server
      and the signers returned, each signature verifying under its own signer.  The signers returned
      are at least one, all different, none of them the server, and all among the arguments. */
  lemma SuccessAccountsForAllSignatures(k: Scheme, tx: Transaction, server: string, signers: seq<string>)
      returns (m: seq<nat>)
    requires SignersOutcome(k, Some(tx), server, signers).error == None
    ensures tx.hash.Some? && forall j :: 0 <= j < |m| ==> m[j] < |tx.signatures|
    ensures var who := [server] + SignersOutcome(k, Some(tx), server, signers).found;
      |m| == |who| && forall j :: 0 <= j < |m| ==>
        MadeBy(k, tx.hash.value, tx.signatures[m[j]], who[j])
    ensures var found := SignersOutcome(k, Some(tx), server, signers).found;
      && Accounted(k, tx, [server] + found, m)
      && found != []
      && server !in found
      && forall s :: s in found ==> s in signers && IsAddress(s)
  {
    var clients, found := Clients(server, signers), SignersOutcome(k, Some(tx), server, signers).found;
    hide IsAddress, IsAccountKey, Matches, Assign;
    m := FoundOwnSignatures(k, tx, [server] + clients, [server] + found);
    MatchesMeans(k, tx, [server] + found, m);
    assert forall j :: 0 <= j < |m| ==> m[j] < |tx.signatures| by {
      MatchesInRange(k, tx, [server] + found, m);
    }
    Pigeonhole(m, |tx.signatures|);
  }

  lemma MatchesMeans(k: Scheme, tx: Transaction, who: seq<string>, m: seq<nat>)
    requires tx.hash.Some? && |m| == |who| && forall j :: 0 <= j < |who| ==> Matches(k, tx, who[j], m[j])
    ensures forall j :: 0 <= j < |m| ==>
      && m[j] < |tx.signatures|
      && MadeBy(k, tx.hash.value, tx.signatures[m[j]], who[j])
  {
  }

  lemma MatchesInRange(k: Scheme, tx: Transaction, who: seq<string>, m: seq<nat>)
    requires |m| == |who| && forall j :: 0 <= j < |who| ==> Matches(k, tx, who[j], m[j])
    ensures forall j :: 0 <= j < |m| ==> m[j] < |tx.signatures|
  {
  }

  // ----- Signers that do not share signatures -----

  /** When no signature verifies under two signers, the greedy search finds exactly the signers that
      signed, in whatever order and however often they are listed. */
  lemma ExclusiveFindsAllWhoSigned(k: Scheme, tx: Transaction, signers: seq<string>, s: string)
    requires Exclusive(k, tx, signers)
    ensures s in FoundSet(k, tx, signers) <==> s in signers && Signed(k, tx, s)
  {
    AssignIsGreedy(k, tx, signers);
    var a := Assign(k, tx, signers);
    hide Matches, Assign;
    if s in signers && Signed(k, tx, s) {
      var i: nat :| Matches(k, tx, s, i);
      var p :| 0 <= p < |signers| && signers[p] == s;
      if a[p].None? {
        assert Some(i) in a[..p];
        var q :| 0 <= q < p && a[..p][q] == Some(i);
        assert Matches(k, tx, signers[q], i);
      }
    }
  }

  // ----- Exactly when the challenge is accepted -----

  ghost predicate EverySignatureKnown(k: Scheme, tx: Transaction, signers: seq<string>) {
    forall i: nat :: i < |tx.signatures| ==> Known(k, tx, signers, i)
  }

  ghost predicate Known(k: Scheme, tx: Transaction, signers: seq<string>, i: nat) {
    exists s :: s in signers && Matches(k, tx, s, i)
  }

  ghost predicate SignsOnce(k: Scheme, tx: Transaction, signers: seq<string>) {
    forall s, i, j :: s in signers && Matches(k, tx, s, i) && Matches(k, tx, s, j) ==> i == j
  }

  /** A sequence with no repetition is not longer than one that has all its elements. */
  lemma NotLonger<T(!new)>(xs: seq<T>, ys: seq<T>)
    requires Distinct(xs) && Distinct(ys) && forall x :: x in xs ==> x in ys
    ensures |xs| <= |ys|
  {
    DistinctSize(xs);
    DistinctSize(ys);
    SubsetSize((set x | x in xs), (set y | y in ys));
  }

  /** If every signature has a signer of its own there are as many signers as signatures. */
  lemma OneSignerPerSignature(k: Scheme, tx: Transaction, signers: seq<string>, who: seq<string>)
    requires EverySignatureKnown(k, tx, signers) && Exclusive(k, tx, signers) && SignsOnce(k, tx, signers)
    requires Distinct(who) && forall s :: s in who <==> s in signers && Signed(k, tx, s)
    ensures |who| == |tx.signatures|
  {
    var n := |tx.signatures|;
    var makers: seq<string>, at: seq<nat> := [], [];
    hide Matches;
    for i := 0 to n
      invariant |makers| == i
      invariant forall j: nat :: j < i ==> makers[j] in signers && Matches(k, tx, makers[j], j)
    {
      assert Known(k, tx, signers, i);
      var s :| s in signers && Matches(k, tx, s, i);
      makers := makers + [s];
    }
    NotLonger(makers, who);
    for j := 0 to |who|
      invariant |at| == j
      invariant forall i :: 0 <= i < j ==> Matches(k, tx, who[i], at[i])
    {
      assert who[j] in who;
      var i: nat :| Matches(k, tx, who[j], i);
      at := at + [i];
    }
    MatchesInRange(k, tx, who, at);
    forall i | 0 <= i < |at|
      ensures at[i] in Indices(n)
    {
    }
    DistinctSize(at);
    SubsetSize((set x | x in at), Indices(n));
  }

  /** When no signature verifies under two signers, a readable challenge is accepted exactly when the
      server and at least one client signed, every signature is by one of them and none of them signed
      twice; all client keys must be well-formed addresses, also those that did not sign. */
  lemma AcceptedExactlyWhen(k: Scheme, tx: Transaction, server: string, signers: seq<string>)
    requires Exclusive(k, tx, [server] + Clients(server, signers)) && tx.hash.Some?
    ensures var clients := Clients(server, signers); var all := [server] + clients;
      SignersOutcome(k, Some(tx), server, signers).error == None <==>
        && AllAddresses(all)
        && Signed(k, tx, server)
        && (exists s :: s in clients && Signed(k, tx, s))
        && EverySignatureKnown(k, tx, all)
        && SignsOnce(k, tx, all)
  {
    if SignersOutcome(k, Some(tx), server, signers).error == None {
      AcceptedMeans(k, tx, server, signers);
    } else {
      hide SignersOutcome, AllAddresses, Signed, EverySignatureKnown, SignsOnce, Clients, Exclusive;
      var clients := Clients(server, signers);
      var all := [server] + clients;
      if AllAddresses(all) && Signed(k, tx, server) && EverySignatureKnown(k, tx, all) && SignsOnce(k, tx, all) {
        if s :| s in clients && Signed(k, tx, s) {
          MeansAccepted(k, tx, server, signers, s);
          assert false;
        }
      }
    }
  }

  /** The clients listed as found are those who signed. */
  lemma FoundAreClientsWhoSigned(k: Scheme, tx: Transaction, server: string, clients: seq<string>)
    requires Exclusive(k, tx, [server] + clients) && server !in clients
    ensures var all := [server] + clients; var found := ListFound(clients, FoundSet(k, tx, all));
      && (forall s :: s in found <==> s in clients && Signed(k, tx, s))
      && (forall s :: s in [server] + found ==> s in all)
      && (server in FoundSet(k, tx, all) <==> Signed(k, tx, server))
  {
    var all := [server] + clients;
    hide FoundSet, ListFound, Exclusive, Signed;
    forall s
      ensures s in FoundSet(k, tx, all) <==> s in all && Signed(k, tx, s)
    {
      ExclusiveFindsAllWhoSigned(k, tx, all, s);
    }
  }

  lemma AcceptedMeans(k: Scheme, tx: Transaction, server: string, signers: seq<string>)
    requires Exclusive(k, tx, [server] + Clients(server, signers)) && tx.hash.Some?
    requires SignersOutcome(k, Some(tx), server, signers).error == None
    ensures var clients := Clients(server, signers); var all := [server] + clients;
        && AllAddresses(all)
        && Signed(k, tx, server)
        && (exists s :: s in clients && Signed(k, tx, s))
        && EverySignatureKnown(k, tx, all)
        && SignsOnce(k, tx, all)
  {
    var clients := Clients(server, signers);
    var all := [server] + clients;
    var found := ListFound(clients, FoundSet(k, tx, all));
    assert AllAddresses(all);
    hide FoundSet, Clients, ListFound, IsAddress, AllAddresses, Matches, Signed, Distinct;
    var m := SuccessAccountsForAllSignatures(k, tx, server, signers);
    hide SignersOutcome;
    FoundAreClientsWhoSigned(k, tx, server, clients);
    AccountedMeansKnownOnce(k, tx, all, [server] + found, m);
    assert found[0] in clients;
  }

  lemma MeansAccepted(k: Scheme, tx: Transaction, server: string, signers: seq<string>, client: string)
    requires Exclusive(k, tx, [server] + Clients(server, signers)) && tx.hash.Some?
    requires client in Clients(server, signers) && Signed(k, tx, client)
    requires var all := [server] + Clients(server, signers);
        && AllAddresses(all)
        && Signed(k, tx, server)
        && EverySignatureKnown(k, tx, all)
        && SignsOnce(k, tx, all)
    ensures SignersOutcome(k, Some(tx), server, signers).error == None
  {
    var clients := Clients(server, signers);
    var all := [server] + clients;
    var found := ListFound(clients, FoundSet(k, tx, all));
    AddressesWithServer(server, clients);
    FoundAreClientsWhoSigned(k, tx, server, clients);
    hide IsAddress, AllAddresses, FoundSet, ListFound, Clients, Signed, EverySignatureKnown, SignsOnce, Exclusive;
    assert client in found;
    OneBefore(server, found);
    OneSignerPerSignature(k, tx, all, [server] + found);
    NoError(k, tx, server, signers);
  }

  lemma NoError(k: Scheme, tx: Transaction, server: string, signers: seq<string>)
    requires var clients := Clients(server, signers);
      var all := FoundSet(k, tx, [server] + clients);
      var found := ListFound(clients, all);
      && tx.hash.Some? && IsAddress(server) && clients != [] && AllAddresses(clients)
      && server in all && found != [] && 1 + |found| == |tx.signatures|
    ensures SignersOutcome(k, Some(tx), server, signers).error == None
  {
    hide IsAddress, AllAddresses, FoundSet, ListFound, Clients;
  }

  lemma AddressesWithServer(server: string, clients: seq<string>)
    ensures AllAddresses([server] + clients) <==> IsAddress(server) && AllAddresses(clients)
  {
    hide IsAddress;
    var all := [server] + clients;
    assert all[0] == server;
    assert forall s :: s in all <==> s == server || s in clients;
  }

  lemma OneBefore<K(!new)>(s: K, xs: seq<K>)
    requires Distinct(xs) && s !in xs
    ensures Distinct([s] + xs)
  {
  }

  lemma AccountedMeansKnownOnce(k: Scheme, tx: Transaction, signers: seq<string>, who: seq<string>, m: seq<nat>)
    requires Exclusive(k, tx, signers) && Accounted(k, tx, who, m) && forall s :: s in who ==> s in signers
    ensures EverySignatureKnown(k, tx, signers) && SignsOnce(k, tx, signers)
  {
    MatchesInRange(k, tx, who, m);
    forall i: nat | i < |tx.signatures|
      ensures Known(k, tx, signers, i)
    {
      var j := OwnerOf(k, tx, who, m, i);
      assert who[j] in who;
    }
    forall s, i, j | s in signers && Matches(k, tx, s, i) && Matches(k, tx, s, j)
      ensures i == j
    {
      var a := OwnerOf(k, tx, who, m, i);
      var b := OwnerOf(k, tx, who, m, j);
      assert who[a] in who && who[b] in who;
      assert who[a] == s == who[b];
    }
  }

  lemma OwnerOf(k: Scheme, tx: Transaction, who: seq<string>, m: seq<nat>, i: nat) returns (j: nat)
    requires Accounted(k, tx, who, m) && i < |tx.signatures|
    ensures j < |who| && m[j] == i && Matches(k, tx, who[j], i)
  {
    hide Matches, Distinct;
    assert i in m;
    j :| j < |m| && m[j] == i;
  }
}
