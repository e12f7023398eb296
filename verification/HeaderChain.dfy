/** Verifying recorded hashes: historyarchive/verify.go.

    A hash is the number that its 32 bytes spell, so bytes.Compare is the order of numbers and the
    zero Hash is 0. Hashing a header is a parameter. */
module HeaderChain {
  import opened ArchivePaths
  import opened Checkpoints
  import opened Octets
  import opened Wrappers

  const ZERO: Digest := 0

  datatype Header = Header(ledgerSeq: uint32, previousLedgerHash: Digest, txSetHash: Digest, txSetResultHash: Digest, rest: seq<int>)

  /** A header with the hash it comes with; encodes tells whether the header can be encoded to be hashed. */
  datatype Entry = Entry(header: Header, hash: Digest, encodes: bool)

  /** What a transaction or result file says of one ledger: the hash of its set, if it can be encoded. */
  datatype SetEntry = SetEntry(ledgerSeq: uint32, hash: Option<Digest>)

  /** A checkpoint file, read as each of the three kinds of entries; complete unless reading ends in an
      error. */
  datatype File = File(ledgers: seq<Entry>, sets: seq<SetEntry>, results: seq<SetEntry>, complete: bool)

  ghost predicate Injective(hash: Header -> Digest) {
    forall a, b :: hash(a) == hash(b) ==> a == b
  }

  /** The map's value, or the zero hash: indexing a Go map. */
  function Lookup(m: map<uint32, Digest>, k: uint32): Digest {
    if k in m then m[k] else ZERO
  }

  // ----- Comparing two hash maps -----

  predicate Mismatch(expected: map<uint32, Digest>, actual: map<uint32, Digest>, passOn: (uint32, Digest) -> bool, k: uint32)
    requires k in expected
  {
    !(k !in actual && passOn(k, expected[k])) && Lookup(actual, k) != expected[k]
  }

  ghost function Mismatches(expected: map<uint32, Digest>, actual: map<uint32, Digest>, passOn: (uint32, Digest) -> bool): set<uint32> {
    set k | k in expected && Mismatch(expected, actual, passOn, k)
  }

  /** compareHashMaps; the map is walked in any order. */
  method CompareHashMaps(expected: map<uint32, Digest>, actual: map<uint32, Digest>, passOn: (uint32, Digest) -> bool) returns (n: nat)
    ensures n == |Mismatches(expected, actual, passOn)|
  {
    n := 0;
    var pending := expected.Keys;
    ghost var bad: set<uint32> := {};
    while pending != {}
      invariant pending <= expected.Keys
      invariant bad == set k | k in expected.Keys - pending && Mismatch(expected, actual, passOn, k)
      invariant n == |bad|
      decreases pending
    {
      var eledger :| eledger in pending;
      pending := pending - {eledger};
      var ehash := expected[eledger];
      if eledger !in actual && passOn(eledger, ehash) {
        continue;
      }
      if Lookup(actual, eledger) != ehash {
        n := n + 1;
        bad := bad + {eledger};
      }
    }
    assert bad == Mismatches(expected, actual, passOn);
  }

  // ----- Recording headers -----

  /** s - 1 with the wrap-around of a 32-bit number. */
  function Below(s: uint32): uint32 {
    if s == 0 then MAX_UINT32 else s - 1
  }

  function Above(s: uint32): uint32 {
    if s == MAX_UINT32 then 0 else s + 1
  }

  class Verifier {
    var expectLedgerHashes: map<uint32, Digest>
    var actualLedgerHashes: map<uint32, Digest>
    var expectTxSetHashes: map<uint32, Digest>
    var actualTxSetHashes: map<uint32, Digest>
    var expectTxResultSetHashes: map<uint32, Digest>
    var actualTxResultSetHashes: map<uint32, Digest>
    var invalidLedgers: nat
    var invalidTxSets: nat
    var invalidTxResultSets: nat
    var invalidBuckets: nat
    ghost var headers: map<uint32, Header>   // the last header recorded for each sequence number
    const hash: Header -> Digest
    const emptyTxSetHash: Digest -> Digest
    const emptyXdrArrayHash: Digest

    ghost predicate Valid()
      reads this
    {
      && Recorded(hash, headers, expectLedgerHashes, actualLedgerHashes)
      && expectTxSetHashes.Keys == expectTxResultSetHashes.Keys == headers.Keys
      && (forall s :: s in headers ==> expectTxSetHashes[s] == headers[s].txSetHash)
      && (forall s :: s in headers ==> expectTxResultSetHashes[s] == headers[s].txSetResultHash)
    }

    constructor (hash: Header -> Digest, emptyTxSetHash: Digest -> Digest, emptyXdrArrayHash: Digest)
      ensures Valid() && headers == map[] && this.hash == hash
    {
      this.hash, this.emptyTxSetHash, this.emptyXdrArrayHash := hash, emptyTxSetHash, emptyXdrArrayHash;
      expectLedgerHashes, actualLedgerHashes := map[], map[];
      expectTxSetHashes, actualTxSetHashes := map[], map[];
      expectTxResultSetHashes, actualTxResultSetHashes := map[], map[];
      invalidLedgers, invalidTxSets, invalidTxResultSets, invalidBuckets := 0, 0, 0, 0;
      headers := map[];
    }

    predicate Passes(entry: Entry) {
      entry.encodes && hash(entry.header) == entry.hash
    }

    /** VerifyLedgerHeaderHistoryEntry: a header is recorded only if it has the hash it came with. */
    method VerifyLedgerHeaderHistoryEntry(entry: Entry) returns (ok: bool)
      requires Valid()
      modifies this
      ensures Valid()
      ensures ok <==> entry.encodes && hash(entry.header) == entry.hash
      ensures headers == if ok then old(headers)[entry.header.ledgerSeq := entry.header] else old(headers)
      ensures actualTxSetHashes == old(actualTxSetHashes) && actualTxResultSetHashes == old(actualTxResultSetHashes)
    {
      hide Recorded, Below;
      RecordOne(hash, headers, expectLedgerHashes, actualLedgerHashes, entry.header);
      if !entry.encodes {
        return false;
      }
      var h := hash(entry.header);
      if h != entry.hash {
        return false;
      }
      var s := entry.header.ledgerSeq;
      actualLedgerHashes := actualLedgerHashes[s := h];
      expectLedgerHashes := expectLedgerHashes[Below(s) := entry.header.previousLedgerHash];
      expectTxSetHashes := expectTxSetHashes[s := entry.header.txSetHash];
      expectTxResultSetHashes := expectTxResultSetHashes[s := entry.header.txSetResultHash];
      headers := headers[s := entry.header];
      return true;
    }

    /** The ledger category of VerifyCategoryCheckpoint: entries are read until one fails, and those before
        it are recorded. */
    method VerifyLedgers(entries: seq<Entry>) returns (ok: bool)
      requires Valid()
      modifies this
      ensures Valid()
      ensures ok <==> Leading(entries, Passes) == entries
      ensures ok <==> forall e :: e in entries ==> e.encodes && hash(e.header) == e.hash
      ensures headers == AddHeaders(old(headers), Leading(entries, Passes))
      ensures actualTxSetHashes == old(actualTxSetHashes) && actualTxResultSetHashes == old(actualTxResultSetHashes)
    {
      for i := 0 to |entries|
        invariant Valid()
        invariant forall e :: e in entries[..i] ==> Passes(e)
        invariant headers == AddHeaders(old(headers), entries[..i])
        invariant actualTxSetHashes == old(actualTxSetHashes) && actualTxResultSetHashes == old(actualTxResultSetHashes)
      {
        assert entries[..i + 1] == entries[..i] + [entries[i]];
        assert entries[..i + 1][..i] == entries[..i];
        var passed := VerifyLedgerHeaderHistoryEntry(entries[i]);
        if !passed {
          assert entries[i] in entries;
          LeadingIs(entries, Passes, i);
          return false;
        }
      }
      LeadingIs(entries, Passes, |entries|);
      return true;
    }

    /** VerifyTransactionHistoryEntry: the hash of the transaction set is recorded. */
    method VerifyTransactionHistoryEntry(entry: SetEntry) returns (ok: bool)
      requires Valid()
      modifies this`actualTxSetHashes
      ensures Valid() && ok == entry.hash.Some?
      ensures actualTxSetHashes == if ok then old(actualTxSetHashes)[entry.ledgerSeq := entry.hash.value] else old(actualTxSetHashes)
    {
      if entry.hash.None? {
        return false;
      }
      actualTxSetHashes := actualTxSetHashes[entry.ledgerSeq := entry.hash.value];
      return true;
    }

    /** VerifyTransactionHistoryResultEntry: the hash of the result set is recorded. */
    method VerifyTransactionHistoryResultEntry(entry: SetEntry) returns (ok: bool)
      requires Valid()
      modifies this`actualTxResultSetHashes
      ensures Valid() && ok == entry.hash.Some?
      ensures actualTxResultSetHashes ==
        if ok then old(actualTxResultSetHashes)[entry.ledgerSeq := entry.hash.value] else old(actualTxResultSetHashes)
    {
      if entry.hash.None? {
        return false;
      }
      actualTxResultSetHashes := actualTxResultSetHashes[entry.ledgerSeq := entry.hash.value];
      return true;
    }

    /** VerifyCategoryCheckpoint, on the file of a category if it can be opened.  Whether or not the file
        passes, what stands in it before the first entry that fails is recorded.  History files are not
        looked at, and of scp files nothing but that they can be opened. */
    method VerifyCategoryCheckpoint(cat: Category, file: Option<File>) returns (ok: bool)
      requires Valid()
      modifies this
      ensures Valid()
      ensures ok <==> match cat
        case History => true
        case Scp => file.Some?
        case Ledger => file.Some? && file.value.complete && Leading(file.value.ledgers, Passes) == file.value.ledgers
        case Transactions => file.Some? && file.value.complete && Leading(file.value.sets, Hashed) == file.value.sets
        case Results => file.Some? && file.value.complete && Leading(file.value.results, Hashed) == file.value.results
      ensures cat == Ledger ==>
        (ok <==> file.Some? && file.value.complete && forall e :: e in file.value.ledgers ==> e.encodes && hash(e.header) == e.hash)
      ensures cat == Transactions ==>
        (ok <==> file.Some? && file.value.complete && forall e :: e in file.value.sets ==> e.hash.Some?)
      ensures cat == Results ==>
        (ok <==> file.Some? && file.value.complete && forall e :: e in file.value.results ==> e.hash.Some?)
      ensures headers ==
        if cat == Ledger && file.Some? then AddHeaders(old(headers), Leading(file.value.ledgers, Passes)) else old(headers)
      ensures actualTxSetHashes == if cat == Transactions && file.Some?
        then AddHashes(old(actualTxSetHashes), Leading(file.value.sets, Hashed)) else old(actualTxSetHashes)
      ensures actualTxResultSetHashes == if cat == Results && file.Some?
        then AddHashes(old(actualTxResultSetHashes), Leading(file.value.results, Hashed)) else old(actualTxResultSetHashes)
    {
      if cat == History {
        return true;
      }
      if file.None? {
        return false;
      }
      match cat {
        case Ledger =>
          ok := VerifyLedgers(file.value.ledgers);
        case Transactions =>
          ok := VerifyTransactionSets(file.value.sets);
        case Results =>
          ok := VerifyResultSets(file.value.results);
        case _ =>
          return true;
      }
      ok := ok && file.value.complete;
    }

    method VerifyTransactionSets(entries: seq<SetEntry>) returns (ok: bool)
      requires Valid()
      modifies this`actualTxSetHashes
      ensures Valid() && (ok <==> Leading(entries, Hashed) == entries)
      ensures ok <==> forall e :: e in entries ==> e.hash.Some?
      ensures actualTxSetHashes == AddHashes(old(actualTxSetHashes), Leading(entries, Hashed))
    {
      for i := 0 to |entries|
        invariant Valid() && forall e :: e in entries[..i] ==> Hashed(e)
        invariant actualTxSetHashes == AddHashes(old(actualTxSetHashes), entries[..i])
      {
        assert entries[..i + 1] == entries[..i] + [entries[i]];
        assert entries[..i + 1][..i] == entries[..i];
        var hashed := VerifyTransactionHistoryEntry(entries[i]);
        if !hashed {
          assert entries[i] in entries;
          LeadingIs(entries, Hashed, i);
          return false;
        }
      }
      LeadingIs(entries, Hashed, |entries|);
      return true;
    }

    method VerifyResultSets(entries: seq<SetEntry>) returns (ok: bool)
      requires Valid()
      modifies this`actualTxResultSetHashes
      ensures Valid() && (ok <==> Leading(entries, Hashed) == entries)
      ensures ok <==> forall e :: e in entries ==> e.hash.Some?
      ensures actualTxResultSetHashes == AddHashes(old(actualTxResultSetHashes), Leading(entries, Hashed))
    {
      for i := 0 to |entries|
        invariant Valid() && forall e :: e in entries[..i] ==> Hashed(e)
        invariant actualTxResultSetHashes == AddHashes(old(actualTxResultSetHashes), entries[..i])
      {
        assert entries[..i + 1] == entries[..i] + [entries[i]];
        assert entries[..i + 1][..i] == entries[..i];
        var hashed := VerifyTransactionHistoryResultEntry(entries[i]);
        if !hashed {
          assert entries[i] in entries;
          LeadingIs(entries, Hashed, i);
          return false;
        }
      }
      LeadingIs(entries, Hashed, |entries|);
      return true;
    }

    ghost function BadLedgers(): set<uint32>
      reads this
    {
      Mismatches(expectLedgerHashes, actualLedgerHashes, IsLowest(Lowest(expectLedgerHashes.Keys)))
    }

    ghost function BadTxSets(): set<uint32>
      reads this
    {
      Mismatches(expectTxSetHashes, actualTxSetHashes, IsEmptyTxSet(expectLedgerHashes, emptyTxSetHash))
    }

    ghost function BadTxResultSets(): set<uint32>
      reads this
    {
      Mismatches(expectTxResultSetHashes, actualTxResultSetHashes, IsHash(emptyXdrArrayHash))
    }

    /** Nothing that was compared has an unexpected hash. */
    ghost predicate Clean()
      reads this
    {
      invalidBuckets == 0 && BadLedgers() == {} && BadTxSets() == {} && BadTxResultSets() == {}
    }

    /** ReportInvalid: the numbers of objects with unexpected hashes, and their sum as the error.  It
        reports success without looking if verification was not asked for. */
    method ReportInvalid(verify: bool) returns (error: Option<nat>)
      modifies this`invalidLedgers, this`invalidTxSets, this`invalidTxResultSets
      ensures !verify ==> error == None && unchanged(this)
      ensures verify ==> invalidLedgers == |BadLedgers()|
      ensures verify ==> invalidTxSets == |BadTxSets()|
      ensures verify ==> invalidTxResultSets == |BadTxResultSets()|
      ensures verify ==> (error == None <==> Clean())
      ensures error.Some? ==> error.value == invalidBuckets + invalidLedgers + invalidTxSets + invalidTxResultSets
    {
      if !verify {
        return None;
      }
      var lowest: uint32 := 0xffff_ffff;
      var pending := expectLedgerHashes.Keys;
      while pending != {}
        invariant pending <= expectLedgerHashes.Keys
        invariant forall i: uint32 :: i in expectLedgerHashes && i !in pending ==> lowest <= i
        invariant lowest == 0xffff_ffff || lowest in expectLedgerHashes
        decreases pending
      {
        var i :| i in pending;
        pending := pending - {i};
        if i < lowest {
          lowest := i;
        }
      }
      LowestUnique(expectLedgerHashes.Keys, lowest);
      hide Mismatches, Lowest;
      invalidLedgers := CompareHashMaps(expectLedgerHashes, actualLedgerHashes, IsLowest(lowest));
      invalidTxSets := CompareHashMaps(expectTxSetHashes, actualTxSetHashes, IsEmptyTxSet(expectLedgerHashes, emptyTxSetHash));
      invalidTxResultSets := CompareHashMaps(expectTxResultSetHashes, actualTxResultSetHashes, IsHash(emptyXdrArrayHash));
      var totalInvalid := invalidBuckets + invalidLedgers + invalidTxSets + invalidTxResultSets;
      return if totalInvalid != 0 then Some(totalInvalid) else None;
    }
  }

  predicate Hashed(entry: SetEntry) {
    entry.hash.Some?
  }

  /** The entries before the first that is not good. */
  function Leading<E>(entries: seq<E>, good: E -> bool): (r: seq<E>)
    ensures r <= entries && forall e :: e in r ==> good(e)
  {
    if entries == [] || !good(entries[0]) then [] else [entries[0]] + Leading(entries[1..], good)
  }

  lemma {:induction false} LeadingIs<E>(entries: seq<E>, good: E -> bool, n: nat)
    requires n <= |entries| && (forall e :: e in entries[..n] ==> good(e)) && (n < |entries| ==> !good(entries[n]))
    ensures Leading(entries, good) == entries[..n]
    ensures Leading(entries, good) == entries <==> n == |entries|
  {
    if n > 0 {
      assert entries[0] in entries[..n];
      assert forall e :: e in entries[1..][..n - 1] ==> e in entries[..n];
      LeadingIs(entries[1..], good, n - 1);
    }
  }

  function AddHashes(hashes: map<uint32, Digest>, entries: seq<SetEntry>): map<uint32, Digest>
    requires forall e :: e in entries ==> Hashed(e)
  {
    if entries == [] then hashes else
    var last := entries[|entries| - 1];
    assert last in entries && Hashed(last);
    AddHashes(hashes, entries[..|entries| - 1])[last.ledgerSeq := last.hash.value]
  }

  function AddHeaders(headers: map<uint32, Header>, entries: seq<Entry>): map<uint32, Header> {
    if entries == [] then headers else
    var last := entries[|entries| - 1].header;
    AddHeaders(headers, entries[..|entries| - 1])[last.ledgerSeq := last]
  }

  function IsLowest(lowest: uint32): (uint32, Digest) -> bool {
    (eledger: uint32, ehash: Digest) => eledger == lowest
  }

  function IsEmptyTxSet(expected: map<uint32, Digest>, empty: Digest -> Digest): (uint32, Digest) -> bool {
    (eledger: uint32, ehash: Digest) => ehash == empty(Lookup(expected, Below(eledger)))
  }

  function IsHash(h: Digest): (uint32, Digest) -> bool {
    (eledger: uint32, ehash: Digest) => ehash == h
  }

  /** The least number of a set, or 0xffffffff. */
  ghost predicate IsLeast(s: set<uint32>, x: uint32) {
    (forall i :: i in s ==> x <= i) && (x == 0xffff_ffff || x in s)
  }

  lemma LeastExists(s: set<uint32>) returns (x: uint32)
    ensures IsLeast(s, x)
  {
    if s == {} {
      x := 0xffff_ffff;
    } else {
      var y :| y in s;
      var z := LeastExists(s - {y});
      x := if y < z then y else z;
      forall i | i in s
        ensures x <= i
      {
        assert i == y || i in s - {y};
      }
    }
  }

  ghost function Lowest(s: set<uint32>): (x: uint32)
    ensures IsLeast(s, x)
  {
    LeastWitness(s);
    var x :| IsLeast(s, x);
    x
  }

  lemma LeastWitness(s: set<uint32>)
    ensures exists x :: IsLeast(s, x)
  {
    var x := LeastExists(s);
  }

  lemma LowestUnique(s: set<uint32>, x: uint32)
    requires IsLeast(s, x)
    ensures Lowest(s) == x
  {
  }

  /** What the two ledger maps hold about one recorded header: its own hash, and one number below,
      the hash it names as previous. */
  ghost predicate RecordedAt(hash: Header -> Digest, headers: map<uint32, Header>, expected: map<uint32, Digest>, actual: map<uint32, Digest>, s: uint32) {
    && s in headers && headers[s].ledgerSeq == s
    && s in actual && actual[s] == hash(headers[s])
    && Below(s) in expected && expected[Below(s)] == headers[s].previousLedgerHash
  }

  ghost predicate HasAbove(headers: map<uint32, Header>, k: uint32) {
    Above(k) in headers
  }

  /** The ledger maps hold exactly what the recorded headers say. */
  ghost predicate Recorded(hash: Header -> Digest, headers: map<uint32, Header>, expected: map<uint32, Digest>, actual: map<uint32, Digest>) {
    && (forall s {:trigger RecordedAt(hash, headers, expected, actual, s)} :: s in headers ==> RecordedAt(hash, headers, expected, actual, s))
    && (forall s :: s in actual ==> s in headers)
    && (forall k {:trigger HasAbove(headers, k)} :: k in expected ==> HasAbove(headers, k))
  }

  lemma RecordOne(hash: Header -> Digest, headers: map<uint32, Header>, expected: map<uint32, Digest>, actual: map<uint32, Digest>, header: Header)
    requires Recorded(hash, headers, expected, actual)
    ensures var s := header.ledgerSeq;
      Recorded(hash, headers[s := header], expected[Below(s) := header.previousLedgerHash], actual[s := hash(header)])
  {
    var n := header.ledgerSeq;
    var headers', expected', actual' := headers[n := header], expected[Below(n) := header.previousLedgerHash], actual[n := hash(header)];
    forall s | s in headers'
      ensures RecordedAt(hash, headers', expected', actual', s)
    {
      if s != n {
        assert RecordedAt(hash, headers, expected, actual, s);
        assert Below(s) != Below(n);
      }
    }
    forall k | k in expected'
      ensures HasAbove(headers', k)
    {
      if k != Below(n) {
        assert HasAbove(headers, k);
      }
    }
  }

  // ----- The chain -----

  ghost predicate IsFirst(headers: map<uint32, Header>, s: uint32) {
    forall t :: t in headers ==> s <= t
  }

  /** A header names the hash of the header recorded right below it. */
  ghost predicate LinkAt(hash: Header -> Digest, headers: map<uint32, Header>, s: uint32) {
    s in headers && s > 0 && s - 1 in headers && headers[s].previousLedgerHash == hash(headers[s - 1])
  }

  /** Every recorded header but the first is linked to the one right below. */
  ghost predicate Linked(hash: Header -> Digest, headers: map<uint32, Header>) {
    forall s {:trigger LinkAt(hash, headers, s)} :: s in headers && !IsFirst(headers, s) ==> LinkAt(hash, headers, s)
  }

  /** Sequence numbers start at 1, and only the first header may name the zero hash. */
  ghost predicate Proper(headers: map<uint32, Header>) {
    && 0 !in headers
    && forall s :: s in headers && headers[s].previousLedgerHash == ZERO ==> IsFirst(headers, s)
  }

  /** The lowest expected number is the one right below the first header. */
  lemma LowestIsBelow(hash: Header -> Digest, headers: map<uint32, Header>, expected: map<uint32, Digest>, actual: map<uint32, Digest>, lowest: uint32, s: uint32)
    requires Recorded(hash, headers, expected, actual) && 0 !in headers && s in headers
    requires IsLeast(expected.Keys, lowest)
    ensures s - 1 in expected && lowest <= s - 1
    ensures IsFirst(headers, s) <==> lowest == s - 1
    ensures lowest !in actual
  {
    assert RecordedAt(hash, headers, expected, actual, s);
    forall t | t in headers
      ensures lowest < t
    {
      assert RecordedAt(hash, headers, expected, actual, t);
    }
    assert lowest in expected;
    assert HasAbove(headers, lowest);
  }

  lemma NoMismatchLinks(hash: Header -> Digest, headers: map<uint32, Header>, expected: map<uint32, Digest>, actual: map<uint32, Digest>, lowest: uint32)
    requires Recorded(hash, headers, expected, actual) && Proper(headers) && IsLeast(expected.Keys, lowest)
    requires Mismatches(expected, actual, IsLowest(lowest)) == {}
    ensures Linked(hash, headers)
  {
    forall s | s in headers && !IsFirst(headers, s)
      ensures LinkAt(hash, headers, s)
    {
      LowestIsBelow(hash, headers, expected, actual, lowest, s);
      assert RecordedAt(hash, headers, expected, actual, s);
      assert s - 1 !in Mismatches(expected, actual, IsLowest(lowest));
      hide Recorded, IsFirst, IsLeast;
      assert Lookup(actual, s - 1) == headers[s].previousLedgerHash != ZERO;
      assert RecordedAt(hash, headers, expected, actual, s - 1) by { RecordedOf(hash, headers, expected, actual, s - 1); }
    }
  }

  lemma RecordedOf(hash: Header -> Digest, headers: map<uint32, Header>, expected: map<uint32, Digest>, actual: map<uint32, Digest>, s: uint32)
    requires Recorded(hash, headers, expected, actual) && s in actual
    ensures RecordedAt(hash, headers, expected, actual, s)
  {
  }

  lemma LinkedHasNoMismatch(hash: Header -> Digest, headers: map<uint32, Header>, expected: map<uint32, Digest>, actual: map<uint32, Digest>, lowest: uint32, k: uint32)
    requires Recorded(hash, headers, expected, actual) && Proper(headers) && IsLeast(expected.Keys, lowest)
    requires Linked(hash, headers) && k in expected
    ensures !Mismatch(expected, actual, IsLowest(lowest), k)
  {
    assert HasAbove(headers, k);
    var s := Above(k);
    LowestIsBelow(hash, headers, expected, actual, lowest, s);
    assert RecordedAt(hash, headers, expected, actual, s);
    if k != lowest {
      assert LinkAt(hash, headers, s);
      assert RecordedAt(hash, headers, expected, actual, s - 1);
    }
  }

  /** No mismatch among the ledger headers means an unbroken chain, and the other way round. */
  lemma NoMismatchMeansLinked(hash: Header -> Digest, headers: map<uint32, Header>, expected: map<uint32, Digest>, actual: map<uint32, Digest>)
    requires Recorded(hash, headers, expected, actual) && Proper(headers)
    ensures |Mismatches(expected, actual, IsLowest(Lowest(expected.Keys)))| == 0 <==> Linked(hash, headers)
  {
    hide Recorded, Proper, Linked, IsLeast, Mismatch;
    var lowest := Lowest(expected.Keys);
    var bad := Mismatches(expected, actual, IsLowest(lowest));
    if bad == {} {
      NoMismatchLinks(hash, headers, expected, actual, lowest);
    }
    if Linked(hash, headers) {
      forall k | k in expected
        ensures !Mismatch(expected, actual, IsLowest(lowest), k)
      {
        LinkedHasNoMismatch(hash, headers, expected, actual, lowest, k);
      }
      assert bad == {};
    }
  }

  /** Only the first header names the zero hash. */
  ghost predicate OnlyFirstNamesZero(headers: map<uint32, Header>) {
    forall s :: s in headers && headers[s].previousLedgerHash == ZERO ==> IsFirst(headers, s)
  }

  /** When no header hashes to zero, an archive without mismatches is a chain exactly if only its first
      header names the zero hash. */
  lemma ChainedExactlyWhen(hash: Header -> Digest, headers: map<uint32, Header>, expected: map<uint32, Digest>, actual: map<uint32, Digest>)
    requires forall h :: hash(h) != ZERO
    requires Recorded(hash, headers, expected, actual) && 0 !in headers
    requires |Mismatches(expected, actual, IsLowest(Lowest(expected.Keys)))| == 0
    ensures Linked(hash, headers) <==> OnlyFirstNamesZero(headers)
  {
    if OnlyFirstNamesZero(headers) {
      NoMismatchMeansLinked(hash, headers, expected, actual);
    }
    hide Recorded, IsFirst;
    if Linked(hash, headers) {
      forall s | s in headers && headers[s].previousLedgerHash == ZERO
        ensures IsFirst(headers, s)
      {
        assert !IsFirst(headers, s) ==> LinkAt(hash, headers, s);
      }
    }
  }

  /** A linked set of headers has no gaps. */
  lemma {:induction false} LinkedIsContiguous(hash: Header -> Digest, headers: map<uint32, Header>, low: uint32, n: uint32, high: uint32)
    requires Linked(hash, headers) && low in headers && high in headers && low <= n <= high
    ensures n in headers
    decreases high - n
  {
    if n < high {
      LinkedIsContiguous(hash, headers, low, n + 1, high);
      assert LinkAt(hash, headers, n + 1);
    }
  }

  /** Two chains that agree at some header agree on everything below that both have. */
  lemma {:induction false} ChainsAgreeBelow(hash: Header -> Digest, a: map<uint32, Header>, b: map<uint32, Header>, s: uint32, t: uint32)
    requires Injective(hash) && Linked(hash, a) && Linked(hash, b)
    requires s <= t && s in a && s in b && t in a && t in b && a[t] == b[t]
    ensures a[s] == b[s]
    decreases t - s
  {
    if s < t {
      assert LinkAt(hash, a, t) && LinkAt(hash, b, t);
      assert a[t - 1] == b[t - 1];
      ChainsAgreeBelow(hash, a, b, s, t - 1);
    }
  }

  ghost predicate IsTop(headers: map<uint32, Header>, t: uint32) {
    t in headers && forall s :: s in headers ==> s <= t
  }

  /** Two verified archives whose top headers have the same hash agree on every header they share. */
  lemma EqualTopsAgree(hash: Header -> Digest, a: map<uint32, Header>, b: map<uint32, Header>, ta: uint32, tb: uint32)
    requires Injective(hash) && Linked(hash, a) && Linked(hash, b)
    requires forall s :: s in a ==> a[s].ledgerSeq == s
    requires forall s :: s in b ==> b[s].ledgerSeq == s
    requires IsTop(a, ta) && IsTop(b, tb) && hash(a[ta]) == hash(b[tb])
    ensures ta == tb
    ensures forall s :: s in a && s in b ==> a[s] == b[s]
  {
    assert a[ta] == b[tb];
    forall s | s in a && s in b
      ensures a[s] == b[s]
    {
      ChainsAgreeBelow(hash, a, b, s, ta);
    }
  }

  // ----- A clean report -----

  ghost predicate Contiguous(headers: map<uint32, Header>) {
    forall low: uint32, n: uint32, high: uint32 :: low in headers && high in headers && low <= n <= high ==> n in headers
  }

  /** The hash recorded for a ledger is the one its header names.  A ledger without a recorded hash
      passes if the header names the hash of an empty set, or the zero hash. */
  ghost predicate SetMatches(named: Digest, recorded: map<uint32, Digest>, s: uint32, empty: Digest) {
    if s in recorded then recorded[s] == named else named == empty || named == ZERO
  }

  /** Both sets of a recorded ledger match what its header names.  A ledger without transactions passes: its
      header names the hash of the empty set, which is made from the previous header's hash. */
  ghost predicate SetsMatch(v: Verifier, s: uint32)
    requires s in v.headers
    reads v
  {
    && SetMatches(v.headers[s].txSetHash, v.actualTxSetHashes, s, v.emptyTxSetHash(v.headers[s].previousLedgerHash))
    && SetMatches(v.headers[s].txSetResultHash, v.actualTxResultSetHashes, s, v.emptyXdrArrayHash)
  }

  /** A ledger is reported for its transaction or its result set exactly if that set does not match. */
  lemma BadSetsExactly(v: Verifier, s: uint32)
    requires v.Valid() && s in v.headers
    ensures s in v.BadTxSets() <==>
      !SetMatches(v.headers[s].txSetHash, v.actualTxSetHashes, s, v.emptyTxSetHash(v.headers[s].previousLedgerHash))
    ensures s in v.BadTxResultSets() <==>
      !SetMatches(v.headers[s].txSetResultHash, v.actualTxResultSetHashes, s, v.emptyXdrArrayHash)
  {
    assert RecordedAt(v.hash, v.headers, v.expectLedgerHashes, v.actualLedgerHashes, s);
    var named, passOn := v.headers[s].txSetHash, IsEmptyTxSet(v.expectLedgerHashes, v.emptyTxSetHash);
    assert Lookup(v.expectLedgerHashes, Below(s)) == v.headers[s].previousLedgerHash;
    assert passOn(s, named) <==> named == v.emptyTxSetHash(v.headers[s].previousLedgerHash);
    hide Recorded;
  }

  lemma MismatchesAreExpected(expected: map<uint32, Digest>, actual: map<uint32, Digest>, passOn: (uint32, Digest) -> bool)
    ensures Mismatches(expected, actual, passOn) <= expected.Keys
  {
  }

  lemma NoSetIsBadExactly(v: Verifier)
    requires v.Valid()
    ensures v.BadTxSets() == {} && v.BadTxResultSets() == {} <==> forall s :: s in v.headers ==> SetsMatch(v, s)
  {
    MismatchesAreExpected(v.expectTxSetHashes, v.actualTxSetHashes, IsEmptyTxSet(v.expectLedgerHashes, v.emptyTxSetHash));
    MismatchesAreExpected(v.expectTxResultSetHashes, v.actualTxResultSetHashes, IsHash(v.emptyXdrArrayHash));
    var sets, results := v.BadTxSets(), v.BadTxResultSets();
    assert sets <= v.headers.Keys && results <= v.headers.Keys;
    hide Mismatches, SetMatches, Recorded;
    forall s | s in v.headers
      ensures SetsMatch(v, s) <==> s !in sets && s !in results
    {
      BadSetsExactly(v, s);
    }
    hide SetsMatch;
    if sets == {} && results == {} {
    } else {
      var s :| s in sets || s in results;
      assert !SetsMatch(v, s);
    }
  }

  /** What a report without errors means, and exactly when there is one: no bucket is invalid, every header
      but the first is linked to the one below, and the sets of every recorded ledger match. */
  lemma CleanExactly(v: Verifier)
    requires v.Valid() && Proper(v.headers)
    ensures v.Clean() <==>
      v.invalidBuckets == 0 && Linked(v.hash, v.headers) && forall s :: s in v.headers ==> SetsMatch(v, s)
  {
    NoMismatchMeansLinked(v.hash, v.headers, v.expectLedgerHashes, v.actualLedgerHashes);
    NoSetIsBadExactly(v);
    hide Mismatches, SetsMatch, Proper, Linked, Recorded, Lowest;
  }

  /** A report without errors means one unbroken chain without gaps. */
  lemma CleanMeansVerified(v: Verifier)
    requires v.Valid() && v.Clean() && Proper(v.headers)
    ensures Linked(v.hash, v.headers) && Contiguous(v.headers)
    ensures forall s :: s in v.headers ==>
      && SetMatches(v.headers[s].txSetHash, v.actualTxSetHashes, s, v.emptyTxSetHash(v.headers[s].previousLedgerHash))
      && SetMatches(v.headers[s].txSetResultHash, v.actualTxResultSetHashes, s, v.emptyXdrArrayHash)
  {
    CleanExactly(v);
    hide SetMatches, Proper, Linked, Recorded;
    forall s | s in v.headers
      ensures SetMatches(v.headers[s].txSetHash, v.actualTxSetHashes, s, v.emptyTxSetHash(v.headers[s].previousLedgerHash))
      ensures SetMatches(v.headers[s].txSetResultHash, v.actualTxResultSetHashes, s, v.emptyXdrArrayHash)
    {
      assert SetsMatch(v, s);
    }
    forall low: uint32, n: uint32, high: uint32 | low in v.headers && high in v.headers && low <= n <= high
      ensures n in v.headers
    {
      LinkedIsContiguous(v.hash, v.headers, low, n, high);
    }
  }

  /** Two archives whose reports are clean and whose top headers have the same hash have the same height
      and agree on every header they share. */
  lemma CleanTopsAgree(a: Verifier, b: Verifier, ta: uint32, tb: uint32)
    requires a.Valid() && a.Clean() && Proper(a.headers) && b.Valid() && b.Clean() && Proper(b.headers)
    requires a.hash == b.hash && Injective(a.hash)
    requires IsTop(a.headers, ta) && IsTop(b.headers, tb) && a.hash(a.headers[ta]) == b.hash(b.headers[tb])
    ensures ta == tb
    ensures forall s :: s in a.headers && s in b.headers ==> a.headers[s] == b.headers[s]
  {
    CleanMeansVerified(a);
    CleanMeansVerified(b);
    OwnNumbers(a);
    OwnNumbers(b);
    hide Linked, Contiguous, SetMatches, Proper, Injective, IsTop;
    EqualTopsAgree(a.hash, a.headers, b.headers, ta, tb);
  }

  lemma OwnNumbers(v: Verifier)
    requires v.Valid()
    ensures forall s :: s in v.headers ==> v.headers[s].ledgerSeq == s
  {
    forall s | s in v.headers
      ensures v.headers[s].ledgerSeq == s
    {
      assert RecordedAt(v.hash, v.headers, v.expectLedgerHashes, v.actualLedgerHashes, s);
    }
  }

  /** Without the condition on zero hashes a gap goes unnoticed: the missing header counts as one
      with the zero hash. */
  lemma ZeroHashHidesGap(hash: Header -> Digest) returns (headers: map<uint32, Header>, expected: map<uint32, Digest>, actual: map<uint32, Digest>)
    ensures Recorded(hash, headers, expected, actual) && 0 !in headers
    ensures |Mismatches(expected, actual, IsLowest(Lowest(expected.Keys)))| == 0 && !Linked(hash, headers)
  {
    var h1, h3 := Header(1, 7, 0, 0, []), Header(3, ZERO, 0, 0, []);
    RecordOne(hash, map[], map[], map[], h1);
    headers, expected, actual := map[1 := h1], map[0 := 7], map[1 := hash(h1)];
    assert Recorded(hash, headers, expected, actual);
    RecordOne(hash, headers, expected, actual, h3);
    headers, expected, actual := headers[3 := h3], expected[2 := ZERO], actual[3 := hash(h3)];
    assert Recorded(hash, headers, expected, actual);
    assert !Linked(hash, headers) by {
      assert 1 in headers && !IsFirst(headers, 3) && !LinkAt(hash, headers, 3);
    }
    hide Recorded, Linked;
    assert IsLeast(expected.Keys, 0);
    LowestUnique(expected.Keys, 0);
    assert forall k :: k in expected ==> !Mismatch(expected, actual, IsLowest(0), k);
    assert Mismatches(expected, actual, IsLowest(0)) == {};
  }
}
