/** Challenges at which the weight threshold gives an answer one may not expect. */
module ChallengeExamples {
  import opened Arithmetic
  import opened Bits
  import opened Challenge
  import opened ChallengeThreshold
  import opened Sequences
  import opened SignerOrder
  import opened Wrappers
  import Base32
  import BurstErrors
  import Crc16
  import StrKey

  // ----- Addresses and signatures -----

  function Address(n: byte): (s: string)
    ensures IsAddress(s)
  {
    StrKey.DecodeOfEncode(StrKey.VERSION_ACCOUNT_ID, seq(32, _ => n));
    StrKey.Encoding(StrKey.VERSION_ACCOUNT_ID, seq(32, _ => n)).value
  }

  lemma DifferentAddresses(m: byte, n: byte)
    requires m != n
    ensures Address(m) != Address(n)
  {
    var v, p, q := StrKey.VERSION_ACCOUNT_ID, seq(32, _ => m), seq(32, _ => n);
    StrKey.DecodeOfEncode(v, p);
    StrKey.DecodeOfEncode(v, q);
    assert p[0] != q[0];
    hide StrKey.Encoding, StrKey.Decoding;
    StrKey.OneStringPerKey(v, Address(m), v, Address(n), p, q);
  }

  lemma AddressIsAccountKey(s: string)
    requires IsAddress(s)
    ensures IsAccountKey(s)
  {
  }

  /** Two clients in either order are the clients looked for. */
  lemma TwoClients(server: string, a: string, b: string)
    requires IsAddress(a) && IsAddress(b) && a != server && b != server && a != b
    ensures Clients(server, [a, b]) == [a, b]
  {
    AddressIsAccountKey(a);
    AddressIsAccountKey(b);
    hide *;
    Pair(a, b);
    ClientsOfClients(server, [a, b]);
  }

  /** A signature is the list of the signers it verifies under. */
  function Listed(signer: string, hash: seq<byte>, signature: seq<byte>): bool {
    exists i :: 0 <= i < |signature| && Address(signature[i]) == signer
  }

  const LISTING := Scheme(_ => [], Listed)

  function SignedBy(signatures: seq<seq<byte>>): Transaction {
    Transaction(Some([]), seq(|signatures|, i requires 0 <= i < |signatures| => DecoratedSignature([], signatures[i])))
  }

  lemma MatchesListed(signatures: seq<seq<byte>>, n: byte, i: nat)
    ensures Matches(LISTING, SignedBy(signatures), Address(n), i) <==> i < |signatures| && n in signatures[i]
  {
    hide Address;
    if i < |signatures| && Listed(Address(n), [], signatures[i]) {
      var j :| 0 <= j < |signatures[i]| && Address(signatures[i][j]) == Address(n);
      if signatures[i][j] != n {
        DifferentAddresses(signatures[i][j], n);
      }
    }
  }

  /** Three different addresses. */
  lemma ThreeAddresses(x: byte, y: byte, z: byte)
    requires x != y && x != z && y != z
    ensures Different(Address(x), Address(y), Address(z))
  {
    hide Address;
    DifferentAddresses(x, y);
    DifferentAddresses(x, z);
    DifferentAddresses(y, z);
  }

  ghost predicate Different(server: string, a: string, b: string) {
    && IsAddress(server) && IsAddress(a) && IsAddress(b)
    && server != a && server != b && a != b
  }

  // ----- Both clients signed -----

  /** Three signatures, by the server and the two clients in this order. */
  ghost predicate OwnSignatures(k: Scheme, tx: Transaction, server: string, a: string, b: string) {
    && tx.hash.Some? && |tx.signatures| == 3
    && (forall i :: Matches(k, tx, server, i) <==> i == 0)
    && (forall i :: Matches(k, tx, a, i) <==> i == 1)
    && (forall i :: Matches(k, tx, b, i) <==> i == 2)
  }

  lemma OwnSignaturesExact(k: Scheme, tx: Transaction, server: string, a: string, b: string)
    requires Different(server, a, b) && OwnSignatures(k, tx, server, a, b)
    ensures tx.hash.Some?
    ensures var all := [server, a, b];
      && Exclusive(k, tx, all) && AllAddresses(all)
      && Signed(k, tx, server) && Signed(k, tx, a) && Signed(k, tx, b)
      && EverySignatureKnown(k, tx, all) && SignsOnce(k, tx, all)
  {
    hide Matches, IsAddress;
    var all := [server, a, b];
    assert server in all && a in all && b in all;
    assert Matches(k, tx, server, 0) && Matches(k, tx, a, 1) && Matches(k, tx, b, 2);
    assert Known(k, tx, all, 0) && Known(k, tx, all, 1) && Known(k, tx, all, 2);
  }

  /** The two are the clients, and the keys in either order. */
  lemma TwoDifferentClients(server: string, a: string, b: string)
    requires Different(server, a, b)
    ensures Clients(server, [a, b]) == [a, b] && [server] + [a, b] == [server, a, b]
    ensures a in [a, b] && b in [a, b] && Distinct([a, b]) && Elements([a, b]) == {a, b} && a != b
    ensures IsAddress(server) && AllAddresses([a, b])
  {
    DifferentMeans(server, a, b);
    TwoClients(server, a, b);
    hide *;
    Pair(a, b);
    Triple(server, a, b);
    TwoAddresses(a, b);
  }

  lemma DifferentMeans(server: string, a: string, b: string)
    requires Different(server, a, b)
    ensures IsAddress(server) && IsAddress(a) && IsAddress(b) && server != a && server != b && a != b
    ensures Different(server, b, a)
  {
    hide IsAddress;
  }

  lemma TwoAddresses(a: string, b: string)
    requires IsAddress(a) && IsAddress(b)
    ensures AllAddresses([a, b])
  {
    hide IsAddress;
  }

  lemma Pair<K(!new)>(a: K, b: K)
    requires a != b
    ensures a in [a, b] && b in [a, b] && forall c :: c in [a, b] ==> c == a || c == b
    ensures Distinct([a, b]) && Elements([a, b]) == {a, b}
  {
  }

  lemma Triple<K(!new)>(s: K, a: K, b: K)
    ensures [s] + [a, b] == [s, a, b]
  {
  }

  lemma PairMap<K, V>(a: K, b: K, x: V, y: V)
    requires a != b
    ensures var m := map[a := x, b := y]; m.Keys == {a, b} == {b, a} && m[a] == x && m[b] == y
  {
  }

  lemma OwnSignaturesBothSigned(k: Scheme, tx: Transaction, server: string, a: string, b: string)
    requires Different(server, a, b) && OwnSignatures(k, tx, server, a, b)
    ensures BothSigned(k, tx, server, a, b, [a, b])
  {
    hide *;
    OwnSignaturesExact(k, tx, server, a, b);
    TwoDifferentClients(server, a, b);
    MeansAccepted(k, tx, server, [a, b], a);
    AllFound(k, tx, server, a, b, [a, b]);
  }

  lemma AllFound(k: Scheme, tx: Transaction, server: string, a: string, b: string, order: seq<string>)
    requires Clients(server, order) == order && Exclusive(k, tx, [server] + order)
    requires a != b && Distinct(order) && Elements(order) == {a, b} && Signed(k, tx, a) && Signed(k, tx, b)
    requires SignersOutcome(k, Some(tx), server, order).error == None
    ensures BothSigned(k, tx, server, a, b, order)
  {
    hide Signed, Exclusive, Clients, SignersOutcome, Distinct;
    OutcomeLists(k, tx, server, order);
    var found := SignersOutcome(k, Some(tx), server, order).found;
    forall s
      ensures s in Elements(found) <==> s in {a, b}
    {
      assert s in order <==> s in Elements(order);
    }
  }

  /** On success the clients found are those who signed. */
  lemma OutcomeLists(k: Scheme, tx: Transaction, server: string, signers: seq<string>)
    requires Exclusive(k, tx, [server] + Clients(server, signers))
    requires SignersOutcome(k, Some(tx), server, signers).error == None
    ensures forall s :: s in SignersOutcome(k, Some(tx), server, signers).found <==>
      s in Clients(server, signers) && Signed(k, tx, s)
  {
    hide IsAddress, Signed, FoundSet, ListFound, Exclusive;
    FoundAreClientsWhoSigned(k, tx, server, Clients(server, signers));
  }

  /** There is such a challenge. */
  lemma BothCanSign(x: byte, y: byte, z: byte) returns (tx: Transaction)
    requires x != y && x != z && y != z
    ensures BothSigned(LISTING, tx, Address(x), Address(y), Address(z), [Address(y), Address(z)])
  {
    tx := SignedBy([[x], [y], [z]]);
    ThreeAddresses(x, y, z);
    hide *;
    Singletons(x, y, z);
    ListedOwn([[x], [y], [z]], x, y, z);
    OwnSignaturesBothSigned(LISTING, tx, Address(x), Address(y), Address(z));
  }

  lemma ListedOwn(signatures: seq<seq<byte>>, x: byte, y: byte, z: byte)
    requires |signatures| == 3
    requires forall i :: 0 <= i < |signatures| && x in signatures[i] <==> i == 0
    requires forall i :: 0 <= i < |signatures| && y in signatures[i] <==> i == 1
    requires forall i :: 0 <= i < |signatures| && z in signatures[i] <==> i == 2
    ensures OwnSignatures(LISTING, SignedBy(signatures), Address(x), Address(y), Address(z))
  {
    hide *;
    ListedSize(signatures);
    ListedOnce(signatures, x, 0);
    ListedOnce(signatures, y, 1);
    ListedOnce(signatures, z, 2);
    MakeOwnSignatures(LISTING, SignedBy(signatures), Address(x), Address(y), Address(z));
  }

  lemma MakeOwnSignatures(k: Scheme, tx: Transaction, server: string, a: string, b: string)
    requires tx.hash.Some? && |tx.signatures| == 3
    requires forall i :: Matches(k, tx, server, i) <==> i == 0
    requires forall i :: Matches(k, tx, a, i) <==> i == 1
    requires forall i :: Matches(k, tx, b, i) <==> i == 2
    ensures OwnSignatures(k, tx, server, a, b)
  {
    hide Matches;
  }

  lemma ListedSize(signatures: seq<seq<byte>>)
    ensures |SignedBy(signatures).signatures| == |signatures| && SignedBy(signatures).hash.Some?
  {
  }

  lemma ListedOnce(signatures: seq<seq<byte>>, n: byte, at: nat)
    requires forall i :: 0 <= i < |signatures| && n in signatures[i] <==> i == at
    ensures forall i :: Matches(LISTING, SignedBy(signatures), Address(n), i) <==> i == at
  {
    ListedBetween(signatures, n, at, at);
    hide Matches, Address, SignedBy;
  }

  lemma ListedBetween(signatures: seq<seq<byte>>, n: byte, first: nat, last: nat)
    requires forall i :: 0 <= i < |signatures| && n in signatures[i] <==> first <= i <= last
    ensures forall i: nat :: Matches(LISTING, SignedBy(signatures), Address(n), i) <==> first <= i <= last
  {
    hide Matches, Address, SignedBy;
    forall i: nat
      ensures Matches(LISTING, SignedBy(signatures), Address(n), i) <==> first <= i <= last
    {
      assert 0 <= i < |signatures| && n in signatures[i] <==> first <= i <= last;
      MatchesListed(signatures, n, i);
    }
  }

  lemma Singletons<K(!new)>(x: K, y: K, z: K)
    requires x != y && x != z && y != z
    ensures var s := [[x], [y], [z]];
      && (forall i :: 0 <= i < |s| && x in s[i] <==> i == 0)
      && (forall i :: 0 <= i < |s| && y in s[i] <==> i == 1)
      && (forall i :: 0 <= i < |s| && z in s[i] <==> i == 2)
  {
  }

  // ----- A signature that two clients share -----

  /** Two signatures, the first by the server, the second by both clients. */
  ghost predicate Shared(k: Scheme, tx: Transaction, server: string, a: string, b: string) {
    && tx.hash.Some? && |tx.signatures| == 2
    && Matches(k, tx, server, 0) && Matches(k, tx, a, 1) && Matches(k, tx, b, 1)
  }

  lemma SharedAssignment(k: Scheme, tx: Transaction, server: string, a: string, b: string)
    requires Shared(k, tx, server, a, b)
    ensures FoundSet(k, tx, [server, a, b]) == {server, a}
  {
    SharedFree(k, tx, server, a, b);
    FoundOfThree(k, tx, server, a, b, Some(0), Some(1), None);
  }

  lemma FoundOfThree(k: Scheme, tx: Transaction, server: string, a: string, b: string,
                     x: Option<nat>, y: Option<nat>, z: Option<nat>)
    requires FirstFree(k, tx, server, [], 0) == x
    requires FirstFree(k, tx, a, [x], 0) == y
    requires FirstFree(k, tx, b, [x, y], 0) == z
    ensures FoundSet(k, tx, [server, a, b]) ==
      (if x.Some? then {server} else {}) + (if y.Some? then {a} else {}) + (if z.Some? then {b} else {})
  {
    var all := [server, a, b];
    Prefixes(server, a, b);
    NobodyFound(k, tx);
    hide *;
    FoundGrows(k, tx, all, 0);
    FoundGrows(k, tx, all, 1);
    FoundGrows(k, tx, all, 2);
    assert [] + [x] == [x] && [x] + [y] == [x, y];
  }

  lemma Prefixes<K>(s: K, a: K, b: K)
    ensures var all := [s, a, b]; all[..0] == [] && all[..1] == [s] && all[..2] == [s, a] && all[..3] == all
  {
  }

  lemma NobodyFound(k: Scheme, tx: Transaction)
    ensures Assign(k, tx, []) == [] && FoundSet(k, tx, []) == {}
  {
  }

  lemma SharedFree(k: Scheme, tx: Transaction, server: string, a: string, b: string)
    requires Shared(k, tx, server, a, b)
    ensures FirstFree(k, tx, server, [], 0) == Some(0)
    ensures FirstFree(k, tx, a, [Some(0)], 0) == Some(1)
    ensures FirstFree(k, tx, b, [Some(0), Some(1)], 0) == None
  {
    hide Matches;
    FreeOfTwo(k, tx, server, []);
    FreeOfTwo(k, tx, a, [Some(0)]);
    FreeOfTwo(k, tx, b, [Some(0), Some(1)]);
  }

  lemma FreeOfTwo(k: Scheme, tx: Transaction, signer: string, taken: seq<Option<nat>>)
    requires |tx.signatures| == 2
    ensures FirstFree(k, tx, signer, taken, 0) ==
      if Some(0) !in taken && Matches(k, tx, signer, 0) then Some(0)
      else if Some(1) !in taken && Matches(k, tx, signer, 1) then Some(1)
      else None
  {
    hide Matches;
    assert FirstFree(k, tx, signer, taken, 2) == None;
  }

  /** The client listed first is found, and the challenge is accepted. */
  lemma SharedOutcome(k: Scheme, tx: Transaction, server: string, a: string, b: string)
    requires Different(server, a, b) && Shared(k, tx, server, a, b)
    ensures SignersOutcome(k, Some(tx), server, [a, b]) == Outcome([a], None)
  {
    hide *;
    TwoDifferentClients(server, a, b);
    SharedAssignment(k, tx, server, a, b);
    ListFirst(server, a, b);
    SharedFacts(k, tx, server, a, b);
    OutcomeFromFound(k, tx, server, [a, b], [a]);
  }

  lemma SharedFacts(k: Scheme, tx: Transaction, server: string, a: string, b: string)
    requires Different(server, a, b) && Shared(k, tx, server, a, b)
    ensures tx.hash.Some? && |tx.signatures| == 2 && server != a && server != b && a != b
    ensures server in {server, a} && |[a]| == 1 && [a, b] != [] && [a] != []
  {
    hide Matches, IsAddress;
  }

  lemma OutcomeFromFound(k: Scheme, tx: Transaction, server: string, clients: seq<string>, found: seq<string>)
    requires Clients(server, clients) == clients != [] && tx.hash.Some?
    requires IsAddress(server) && AllAddresses(clients)
    requires server in FoundSet(k, tx, [server] + clients) && ListFound(clients, FoundSet(k, tx, [server] + clients)) == found
    requires found != []
    ensures SignersOutcome(k, Some(tx), server, clients) ==
      Outcome(found, if 1 + |found| == |tx.signatures| then None else Some(UnrecognizedSignatures))
  {
    hide IsAddress, AllAddresses, FoundSet, ListFound, Clients;
  }

  lemma ListFirst(server: string, a: string, b: string)
    requires Different(server, a, b)
    ensures ListFound([a, b], {server, a}) == [a]
  {
    hide IsAddress;
    assert [a, b][..1] == [a] && [a][..0] == [];
    assert ListFound([a], {server, a}) == [a];
  }

  /** The verdict depends on the order in which the keys of the summary are visited: the same challenge
      meets the threshold if a is visited first and misses it if b is. */
  lemma SharedSignatureDecidesVerdict(k: Scheme, tx: Transaction, server: string, a: string, b: string)
    requires Different(server, a, b) && Shared(k, tx, server, a, b)
    ensures var summary: Summary := map[a := 10, b := 0];
      && Enumerates([a, b], summary.Keys) && Enumerates([b, a], summary.Keys)
      && ThresholdOutcome(k, Some(tx), server, 5, summary, [a, b]) == Outcome([a], None)
      && ThresholdOutcome(k, Some(tx), server, 5, summary, [b, a]) == Outcome([], Some(BelowThreshold(0)))
  {
    SharedOutcome(k, tx, server, a, b);
    SharedOutcome(k, tx, server, b, a);
    TwoDifferentClients(server, a, b);
    TwoDifferentClients(server, b, a);
    PairMap(a, b, 10 as int32, 0 as int32);
    hide SignersOutcome, WeightOf, Elements, Distinct, ThresholdOutcome, Different, Shared;
    var summary: Summary := map[a := 10, b := 0];
    OnlyFound(k, tx, server, a, [a, b], summary);
    OnlyFound(k, tx, server, b, [b, a], summary);
  }

  lemma OnlyFound(k: Scheme, tx: Transaction, server: string, a: string, order: seq<string>, summary: Summary)
    requires Enumerates(order, summary.Keys) && a in summary
    requires SignersOutcome(k, Some(tx), server, order) == Outcome([a], None)
    ensures ThresholdOutcome(k, Some(tx), server, 5, summary, order) ==
      if summary[a] < 5 then Outcome([], Some(BelowThreshold(summary[a]))) else Outcome([a], None)
  {
    WeightOfOne(a, summary);
    hide SignersOutcome, WeightOf, Distinct;
  }

  lemma WeightOfOne<K>(a: K, summary: map<K, int32>)
    requires a in summary
    ensures WeightOf([a], summary) == summary[a]
  {
    assert [a][..0] == [];
    hide ToInt32;
  }

  /** There is such a challenge. */
  lemma SignatureCanBeShared(x: byte, y: byte, z: byte) returns (tx: Transaction)
    requires x != y && x != z && y != z
    ensures Different(Address(x), Address(y), Address(z)) && Shared(LISTING, tx, Address(x), Address(y), Address(z))
  {
    var signatures := [[x], [y, z]];
    tx := SignedBy(signatures);
    ThreeAddresses(x, y, z);
    MatchesListed(signatures, x, 0);
    MatchesListed(signatures, y, 1);
    MatchesListed(signatures, z, 1);
    hide Address, Matches;
  }

  // ----- A signer that signs twice -----

  /** Three signatures, the first by the server, the others both by a, and one of these also by b. */
  ghost predicate SignedTwice(k: Scheme, tx: Transaction, server: string, a: string, b: string, both: nat) {
    && tx.hash.Some? && |tx.signatures| == 3 && 1 <= both <= 2
    && (forall i :: Matches(k, tx, server, i) <==> i == 0)
    && (forall i :: Matches(k, tx, a, i) <==> 1 <= i <= 2)
    && (forall i :: Matches(k, tx, b, i) <==> i == both)
  }

  lemma SignedTwiceOpen(k: Scheme, tx: Transaction, server: string, a: string, b: string, both: nat)
    requires SignedTwice(k, tx, server, a, b, both)
    ensures forall i: nat :: ServerTakes(k, tx, server, i) <==> i == 0
    ensures forall i: nat :: Open(k, tx, server, a, i) <==> 1 <= i <= 2
    ensures forall i: nat :: Open(k, tx, server, b, i) <==> i == both
  {
    hide Matches;
  }

  /** If b made the second of them, the two share a signature and yet both are found in either order. */
  lemma SharingNeedNotMatter(k: Scheme, tx: Transaction, server: string, a: string, b: string, order: seq<string>)
    requires server != a && server != b && a != b && SignedTwice(k, tx, server, a, b, 2)
    requires Distinct(order) && SameSigners(order, [a, b])
    ensures !NoneShared(k, tx, server, [a, b])
    ensures Unblockable(k, tx, server, [a, b])
    ensures a in FoundSet(k, tx, [server] + order) && b in FoundSet(k, tx, [server] + order)
  {
    SignedTwiceOpen(k, tx, server, a, b, 2);
    assert Matches(k, tx, a, 2) && Matches(k, tx, b, 2) && !Matches(k, tx, server, 2);
    assert a in [a, b] && b in [a, b];
    hide Matches, Open, FoundSet;
    NotBlockable(k, tx, server, a, b);
    assert Open(k, tx, server, a, 1) && Open(k, tx, server, b, 2);
    hide Unblockable, SameSigners, Distinct;
    UnblockableFindsAll(k, tx, server, [a, b], order, a);
    UnblockableFindsAll(k, tx, server, [a, b], order, b);
  }

  lemma NotBlockable(k: Scheme, tx: Transaction, server: string, a: string, b: string)
    requires forall i: nat :: Open(k, tx, server, a, i) <==> 1 <= i <= 2
    requires forall i: nat :: Open(k, tx, server, b, i) <==> i == 2
    ensures !Blockable(k, tx, server, [a, b], a) && !Blockable(k, tx, server, [a, b], b)
    ensures Unblockable(k, tx, server, [a, b])
  {
    hide Open;
    forall m
      ensures !Blocks(k, tx, server, [a, b], a, m) && !Blocks(k, tx, server, [a, b], b, m)
    {
      assert Open(k, tx, server, a, 1) && Open(k, tx, server, b, 2) && !Open(k, tx, server, b, 1);
      assert 1 in m && m[1] in [a, b] ==> m[1] == a || m[1] == b;
      assert 2 in m && m[2] in [a, b] ==> m[2] == a || m[2] == b;
    }
  }

  /** If b made the first of them, the challenge is accepted with b listed first and refused with a. */
  lemma OrderDecidesAcceptance(k: Scheme, tx: Transaction, server: string, a: string, b: string)
    requires Different(server, a, b) && SignedTwice(k, tx, server, a, b, 1)
    ensures SignersOutcome(k, Some(tx), server, [b, a]) == Outcome([b, a], None)
    ensures SignersOutcome(k, Some(tx), server, [a, b]) == Outcome([a], Some(UnrecognizedSignatures))
  {
    hide *;
    DifferentMeans(server, a, b);
    TwoDifferentClients(server, a, b);
    TwoDifferentClients(server, b, a);
    SignedTwiceFree(k, tx, server, a, b);
    FoundOfThree(k, tx, server, a, b, Some(0), Some(1), None);
    FoundOfThree(k, tx, server, b, a, Some(0), Some(1), Some(2));
    assert {server} + {a} + {} == {server, a};
    ListFirst(server, a, b);
    ListBoth(server, b, a);
    OutcomeFromFound(k, tx, server, [a, b], [a]);
    OutcomeFromFound(k, tx, server, [b, a], [b, a]);
  }

  lemma SignedTwiceFree(k: Scheme, tx: Transaction, server: string, a: string, b: string)
    requires SignedTwice(k, tx, server, a, b, 1)
    ensures tx.hash.Some? && |tx.signatures| == 3
    ensures FirstFree(k, tx, server, [], 0) == Some(0)
    ensures FirstFree(k, tx, a, [Some(0)], 0) == Some(1) && FirstFree(k, tx, b, [Some(0)], 0) == Some(1)
    ensures FirstFree(k, tx, b, [Some(0), Some(1)], 0) == None && FirstFree(k, tx, a, [Some(0), Some(1)], 0) == Some(2)
  {
    hide Matches, FirstFree;
    FirstFreeIs(k, tx, server, [], 0);
    FirstFreeIs(k, tx, a, [Some(0)], 1);
    FirstFreeIs(k, tx, b, [Some(0)], 1);
    FirstFreeIs(k, tx, a, [Some(0), Some(1)], 2);
  }

  lemma ListBoth<K(!new)>(server: K, a: K, b: K)
    requires a != b
    ensures ListFound([a, b], {server} + {a} + {b}) == [a, b]
  {
    assert [a, b][..1] == [a] && [a][..0] == [];
    assert ListFound([a], {server} + {a} + {b}) == [a];
  }

  /** There are such challenges. */
  lemma CanSignTwice(x: byte, y: byte, z: byte, both: nat) returns (tx: Transaction)
    requires x != y && x != z && y != z && 1 <= both <= 2
    ensures Different(Address(x), Address(y), Address(z))
    ensures SignedTwice(LISTING, tx, Address(x), Address(y), Address(z), both)
  {
    ThreeAddresses(x, y, z);
    hide *;
    var signatures := Twice(x, y, z, both);
    tx := SignedBy(signatures);
    ListedTwice(signatures, x, y, z, both);
  }

  lemma Twice<K(!new)>(x: K, y: K, z: K, both: nat) returns (s: seq<seq<K>>)
    requires x != y && x != z && y != z && 1 <= both <= 2
    ensures |s| == 3
    ensures forall i :: 0 <= i < |s| && x in s[i] <==> i == 0
    ensures forall i :: 0 <= i < |s| && y in s[i] <==> 1 <= i <= 2
    ensures forall i :: 0 <= i < |s| && z in s[i] <==> i == both
  {
    s := if both == 1 then [[x], [y, z], [y]] else [[x], [y], [y, z]];
  }

  lemma ListedTwice(signatures: seq<seq<byte>>, x: byte, y: byte, z: byte, both: nat)
    requires |signatures| == 3 && 1 <= both <= 2
    requires forall i :: 0 <= i < |signatures| && x in signatures[i] <==> i == 0
    requires forall i :: 0 <= i < |signatures| && y in signatures[i] <==> 1 <= i <= 2
    requires forall i :: 0 <= i < |signatures| && z in signatures[i] <==> i == both
    ensures SignedTwice(LISTING, SignedBy(signatures), Address(x), Address(y), Address(z), both)
  {
    hide *;
    ListedSize(signatures);
    ListedOnce(signatures, x, 0);
    ListedBetween(signatures, y, 1, 2);
    ListedOnce(signatures, z, both);
    MakeSignedTwice(LISTING, SignedBy(signatures), Address(x), Address(y), Address(z), both);
  }

  lemma MakeSignedTwice(k: Scheme, tx: Transaction, server: string, a: string, b: string, both: nat)
    requires tx.hash.Some? && |tx.signatures| == 3 && 1 <= both <= 2
    requires forall i :: Matches(k, tx, server, i) <==> i == 0
    requires forall i: nat :: Matches(k, tx, a, i) <==> 1 <= i <= 2
    requires forall i :: Matches(k, tx, b, i) <==> i == both
    ensures SignedTwice(k, tx, server, a, b, both)
  {
    hide Matches;
  }

  // ----- A key that is not a well-formed address -----

  /** One such key makes the check fail, whoever else is listed and whoever signed. */
  lemma MalformedKeyRefusesAll(k: Scheme, tx: Transaction, server: string, signers: seq<string>, s: string)
    requires tx.hash.Some? && IsAddress(server)
    requires s in signers && s != server && IsAccountKey(s) && !IsAddress(s)
    ensures SignersOutcome(k, Some(tx), server, signers).error == Some(SignerNotAddress)
  {
    var clients := Clients(server, signers);
    hide Clients, FoundSet, ListFound, IsAddress, IsAccountKey;
    assert s in clients;
  }

  /** There is one: the version byte with a checksum of zero. */
  lemma KeyCanBeMalformed() returns (s: string)
    ensures IsAccountKey(s) && !IsAddress(s)
  {
    var raw := [StrKey.VERSION_ACCOUNT_ID, 0, 0];
    s := Base32.Encode(raw);
    Base32.DecodeEncode(raw);
    VersionHasChecksum();
    hide Base32.Encode, Base32.DecodeString, Crc16.ChecksumBytes;
    assert raw[..1] == [StrKey.VERSION_ACCOUNT_ID] && raw[1..] == [0, 0];
    StrKey.DecodingParts(StrKey.VERSION_ACCOUNT_ID, s);
  }

  lemma VersionHasChecksum()
    ensures Crc16.ChecksumBytes([StrKey.VERSION_ACCOUNT_ID]) != [0, 0]
  {
    var bits := ByteBits(StrKey.VERSION_ACCOUNT_ID);
    StrKey.UnpackOne(StrKey.VERSION_ACCOUNT_ID);
    assert bits[2];
    var out := Crc16.ChecksumBytes([StrKey.VERSION_ACCOUNT_ID]);
    if out == [0, 0] {
      assert ByteBits(0) + ByteBits(0) == Zeros(16);
      assert Zeros(0) + bits + Zeros(0) == bits;
      BurstErrors.BurstHasChecksum(0, bits, 0);
    }
  }

  // ----- A signature that verifies but carries another hint -----

  /** Two signatures: by the server, and one that verifies under a without carrying a's hint. */
  ghost predicate WronglyHinted(k: Scheme, tx: Transaction, server: string, a: string) {
    && tx.hash.Some? && |tx.signatures| == 2
    && MadeBy(k, tx.hash.value, tx.signatures[0], server) && !MadeBy(k, tx.hash.value, tx.signatures[0], a)
    && k.verify(a, tx.hash.value, tx.signatures[1].signature) && tx.signatures[1].hint != k.hint(a)
  }

  /** Such a signature does not count. */
  lemma WrongHintIsRefused(k: Scheme, tx: Transaction, server: string, a: string)
    requires IsAddress(server) && IsAddress(a) && server != a && WronglyHinted(k, tx, server, a)
    ensures SignersOutcome(k, Some(tx), server, [a]).error == Some(NotSignedByClient)
  {
    OneClient(server, a);
    OneExamined(tx, server, a);
    WrongHintMatchesNothing(k, tx, server, a);
    hide *;
    SignaturesRefusedExactly(k, tx, server, [a]);
  }

  lemma WrongHintMatchesNothing(k: Scheme, tx: Transaction, server: string, a: string)
    requires WronglyHinted(k, tx, server, a)
    ensures tx.hash.Some? && Signed(k, tx, server)
    ensures forall c :: c in [a] ==> !HasOpen(k, tx, server, c)
  {
    assert Matches(k, tx, server, 0);
    assert forall i: nat :: !Matches(k, tx, a, i);
    hide Matches;
  }

  lemma OneClient(server: string, a: string)
    requires IsAddress(a) && server != a
    ensures Clients(server, [a]) == [a]
  {
    AddressIsAccountKey(a);
    hide IsAddress, IsAccountKey, Clients;
    ClientsOfClients(server, [a]);
  }

  lemma OneExamined(tx: Transaction, server: string, a: string)
    requires IsAddress(server) && IsAddress(a) && server != a && tx.hash.Some?
    ensures Examined(tx, server, [a])
  {
    AddressIsAccountKey(a);
    assert [a][0] == a;
    hide IsAddress, IsAccountKey;
    assert IsClient(server, [a], a);
  }

  lemma HintCanBeWrong(x: byte, y: byte) returns (k: Scheme, tx: Transaction)
    requires x != y
    ensures IsAddress(Address(x)) && IsAddress(Address(y)) && Address(x) != Address(y)
    ensures WronglyHinted(k, tx, Address(x), Address(y))
  {
    var a := Address(y);
    var signatures := [[x], [y]];
    k, tx := Scheme(s => if s == a then [1] else [], Listed), SignedBy(signatures);
    DifferentAddresses(x, y);
    hide Address;
    assert signatures[0][0] == x && signatures[1][0] == y;
    assert Listed(Address(x), [], signatures[0]) && Listed(a, [], signatures[1]);
  }
}
