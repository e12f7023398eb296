/** Hashing transaction sets: SortTxsForHash and HashTxSet of historyarchive/verify.go.

    Hashes are numbers as in HeaderChain.  The XDR encoding of a transaction, which may fail, and the hash
    of octets are parameters. */
module TxSets {
  import opened Octets
  import opened Wrappers

  // ----- Sorting in place -----

  /** The sort.Interface of verify.go: transactions and their hashes, moved together. */
  class ByHash<Tx(==)> {
    const txe: array<Tx>
    const hsh: array<Digest>
    ghost const hash: Tx -> Digest

    ghost predicate Valid()
      reads this, txe, hsh
    {
      && txe.Length == hsh.Length && txe as object != hsh
      && forall i :: 0 <= i < txe.Length ==> hsh[i] == hash(txe[i])
    }

    constructor (txe: array<Tx>, hsh: array<Digest>, ghost hash: Tx -> Digest)
      requires txe.Length == hsh.Length && txe as object != hsh
      requires forall i :: 0 <= i < txe.Length ==> hsh[i] == hash(txe[i])
      ensures this.txe == txe && this.hsh == hsh && this.hash == hash && Valid()
    {
      this.txe, this.hsh, this.hash := txe, hsh, hash;
    }

    method Swap(i: nat, j: nat)
      requires Valid() && i < txe.Length && j < txe.Length
      modifies txe, hsh
      ensures Valid()
      ensures txe[i] == old(txe[j]) && txe[j] == old(txe[i])
      ensures forall k :: 0 <= k < txe.Length && k != i && k != j ==> txe[k] == old(txe[k])
      ensures multiset(txe[..]) == old(multiset(txe[..]))
    {
      txe[i], txe[j] := txe[j], txe[i];
      hsh[i], hsh[j] := hsh[j], hsh[i];
      assert txe[..] == old(txe[..])[i := old(txe[j])][j := old(txe[i])];
    }

    predicate Less(i: nat, j: nat)
      requires txe.Length == hsh.Length && i < hsh.Length && j < hsh.Length
      reads this, hsh
    {
      hsh[i] < hsh[j]
    }

    /** sort.Sort on short slices: each element is swapped down to its place. */
    method Sort()
      requires Valid()
      modifies txe, hsh
      ensures Valid()
      ensures multiset(txe[..]) == old(multiset(txe[..]))
      ensures SortedBy(hash, txe[..])
    {
      for i := 0 to txe.Length
        invariant Valid() && multiset(txe[..]) == old(multiset(txe[..]))
        invariant SortedBy(hash, txe[..i])
      {
        SwapDown(i);
      }
      assert txe[..txe.Length] == txe[..];
    }

    method SwapDown(i: nat)
      requires Valid() && i < txe.Length && SortedBy(hash, txe[..i])
      modifies txe, hsh
      ensures Valid()
      ensures multiset(txe[..]) == old(multiset(txe[..]))
      ensures SortedBy(hash, txe[..i + 1])
    {
      var j := i;
      while j > 0 && Less(j, j - 1)
        invariant j <= i && Valid() && multiset(txe[..]) == old(multiset(txe[..]))
        invariant forall a, b :: 0 <= a < b <= i && b != j ==> hash(txe[a]) <= hash(txe[b])
      {
        Swap(j, j - 1);
        j := j - 1;
      }
    }
  }

  ghost predicate SortedBy<Tx>(hash: Tx -> Digest, s: seq<Tx>) {
    forall i, j :: 0 <= i < j < |s| ==> hash(s[i]) <= hash(s[j])
  }

  /** No two transactions in s have the same hash, unless they are equal. */
  ghost predicate NoCollision<Tx(!new)>(hash: Tx -> Digest, s: multiset<Tx>) {
    forall x, y :: x in s && y in s && hash(x) == hash(y) ==> x == y
  }

  /** There is only one way to sort: whatever algorithm the library uses, and whatever the order in
      which the transactions came, the result is the same. */
  lemma {:induction false} SortedIsUnique<Tx(!new)>(hash: Tx -> Digest, s: seq<Tx>, t: seq<Tx>)
    requires SortedBy(hash, s) && SortedBy(hash, t) && multiset(s) == multiset(t)
    requires NoCollision(hash, multiset(s))
    ensures s == t
  {
    hide SortedBy, NoCollision;
    SameLength(s, t);
    if s != [] {
      SameHead(hash, s, t);
      Tail(hash, s);
      Tail(hash, t);
      SortedIsUnique(hash, s[1..], t[1..]);
      SameSequence(s, t);
    }
  }

  lemma SameLength<T>(s: seq<T>, t: seq<T>)
    requires multiset(s) == multiset(t)
    ensures |s| == |t|
  {
    assert |multiset(s)| == |multiset(t)|;
  }

  lemma SameSequence<T>(s: seq<T>, t: seq<T>)
    requires s != [] && t != [] && s[0] == t[0] && s[1..] == t[1..]
    ensures s == t
  {
    assert s == [s[0]] + s[1..] && t == [t[0]] + t[1..];
  }

  lemma Tail<Tx(!new)>(hash: Tx -> Digest, s: seq<Tx>)
    requires s != [] && SortedBy(hash, s) && NoCollision(hash, multiset(s))
    ensures SortedBy(hash, s[1..]) && NoCollision(hash, multiset(s[1..]))
    ensures multiset(s[1..]) == multiset(s) - multiset{s[0]}
  {
    assert s == [s[0]] + s[1..];
    assert multiset(s) == multiset{s[0]} + multiset(s[1..]);
  }

  lemma SameHead<Tx(!new)>(hash: Tx -> Digest, s: seq<Tx>, t: seq<Tx>)
    requires s != [] && t != [] && SortedBy(hash, s) && SortedBy(hash, t) && multiset(s) == multiset(t)
    requires NoCollision(hash, multiset(s))
    ensures s[0] == t[0]
  {
    assert s[0] in multiset(t) && t[0] in multiset(s);
    var i :| 0 <= i < |t| && t[i] == s[0];
    var j :| 0 <= j < |s| && s[j] == t[0];
    assert hash(t[0]) <= hash(s[0]) <= hash(t[0]);
  }

  // ----- Hashing a set -----

  /** HashXdr: the hash of what a transaction encodes to. */
  function HashXdr<Tx>(encode: Tx -> Option<seq<octet>>, sha256: seq<octet> -> Digest): Tx -> Digest {
    (tx: Tx) => match encode(tx) case None => 0 case Some(octets) => sha256(octets)
  }

  ghost predicate AllEncode<Tx>(encode: Tx -> Option<seq<octet>>, txs: seq<Tx>) {
    forall i :: 0 <= i < |txs| ==> encode(txs[i]).Some?
  }

  function Encodings<Tx>(encode: Tx -> Option<seq<octet>>, txs: seq<Tx>): seq<octet>
    requires AllEncode(encode, txs)
  {
    if txs == [] then [] else
    Encodings(encode, txs[..|txs| - 1]) + encode(txs[|txs| - 1]).value
  }

  lemma {:induction false} EncodingsJoin<Tx>(encode: Tx -> Option<seq<octet>>, s: seq<Tx>, t: seq<Tx>)
    requires AllEncode(encode, s) && AllEncode(encode, t)
    ensures AllEncode(encode, s + t)
    ensures Encodings(encode, s + t) == Encodings(encode, s) + Encodings(encode, t)
  {
    if t == [] {
      assert s + t == s;
    } else {
      EncodingsJoin(encode, s, t[..|t| - 1]);
      assert (s + t)[..|s + t| - 1] == s + t[..|t| - 1];
    }
  }

  lemma EncodingsOfOne<Tx>(encode: Tx -> Option<seq<octet>>, tx: Tx)
    requires encode(tx).Some?
    ensures AllEncode(encode, [tx]) && Encodings(encode, [tx]) == encode(tx).value
  {
    assert [tx][..0] == [];
  }

  lemma PartsEncode<Tx>(encode: Tx -> Option<seq<octet>>, txs: seq<Tx>, k: nat)
    requires AllEncode(encode, txs) && k < |txs|
    ensures AllEncode(encode, txs[..k]) && AllEncode(encode, [txs[k]]) && AllEncode(encode, txs[k + 1..])
    ensures AllEncode(encode, txs[..k] + [txs[k]]) && txs == txs[..k] + [txs[k]] + txs[k + 1..]
  {
  }

  /** The k-th transaction's encoding stands between those of the ones before and behind it. */
  lemma EncodingStands<Tx>(encode: Tx -> Option<seq<octet>>, txs: seq<Tx>, k: nat)
    requires AllEncode(encode, txs) && k < |txs|
    ensures AllEncode(encode, txs[..k]) && AllEncode(encode, txs[k + 1..]) && encode(txs[k]).Some?
    ensures Encodings(encode, txs) == Encodings(encode, txs[..k]) + encode(txs[k]).value + Encodings(encode, txs[k + 1..])
  {
    PartsEncode(encode, txs, k);
    assert encode(txs[k]).Some?;
    hide *;
    EncodingsOfOne(encode, txs[k]);
    EncodingsJoin(encode, txs[..k], [txs[k]]);
    EncodingsJoin(encode, txs[..k] + [txs[k]], txs[k + 1..]);
  }

  lemma SameTxsEncode<Tx(!new)>(encode: Tx -> Option<seq<octet>>, s: seq<Tx>, t: seq<Tx>)
    requires multiset(s) == multiset(t)
    ensures AllEncode(encode, s) ==> AllEncode(encode, t)
  {
    forall i | AllEncode(encode, s) && 0 <= i < |t|
      ensures encode(t[i]).Some?
    {
      assert t[i] in multiset(s);
    }
  }

  /** Both encode, and the first has no larger a hash. */
  ghost predicate Ordered<Tx>(encode: Tx -> Option<seq<octet>>, sha256: seq<octet> -> Digest, s: Tx, t: Tx) {
    && encode(s).Some? && encode(t).Some?
    && sha256(encode(s).value) <= sha256(encode(t).value)
  }

  lemma SortedIsOrdered<Tx>(encode: Tx -> Option<seq<octet>>, sha256: seq<octet> -> Digest, txs: seq<Tx>)
    requires AllEncode(encode, txs) && SortedBy(HashXdr(encode, sha256), txs)
    ensures forall i, j :: 0 <= i < j < |txs| ==> Ordered(encode, sha256, txs[i], txs[j])
  {
    var hash := HashXdr(encode, sha256);
    assert forall i :: 0 <= i < |txs| ==> hash(txs[i]) == sha256(encode(txs[i]).value);
  }

  /** SortTxsForHash: nothing is moved if a transaction cannot be encoded. */
  method SortTxsForHash<Tx(==, !new)>(txs: array<Tx>, encode: Tx -> Option<seq<octet>>, sha256: seq<octet> -> Digest)
      returns (ok: bool)
    modifies txs
    ensures ok <==> AllEncode(encode, old(txs[..]))
    ensures !ok ==> txs[..] == old(txs[..])
    ensures multiset(txs[..]) == old(multiset(txs[..]))
    ensures ok ==> SortedBy(HashXdr(encode, sha256), txs[..])
    ensures ok ==> forall i, j :: 0 <= i < j < txs.Length ==> Ordered(encode, sha256, txs[i], txs[j])
  {
    var hsh := new Digest[txs.Length];
    for i := 0 to txs.Length
      invariant txs[..] == old(txs[..])
      invariant forall j :: 0 <= j < i ==> encode(txs[j]).Some? && hsh[j] == HashXdr(encode, sha256)(txs[j])
    {
      var encoded := encode(txs[i]);
      if encoded.None? {
        assert encode(old(txs[..])[i]).None?;
        return false;
      }
      hsh[i] := sha256(encoded.value);
    }
    var bh := new ByHash(txs, hsh, HashXdr(encode, sha256));
    bh.Sort();
    SameTxsEncode(encode, old(txs[..]), txs[..]);
    SortedIsOrdered(encode, sha256, txs[..]);
    return true;
  }

  /** Every transaction's encoding stands between those of the ones before and behind it. */
  ghost predicate Laid<Tx>(encode: Tx -> Option<seq<octet>>, txs: seq<Tx>, octets: seq<octet>) {
    && AllEncode(encode, txs) && (txs == [] ==> octets == [])
    && forall k :: 0 <= k < |txs| ==> StandsAt(encode, txs, octets, k)
  }

  ghost predicate StandsAt<Tx>(encode: Tx -> Option<seq<octet>>, txs: seq<Tx>, octets: seq<octet>, k: nat)
    requires k < |txs|
  {
    && AllEncode(encode, txs[..k]) && AllEncode(encode, txs[k + 1..]) && encode(txs[k]).Some?
    && octets == Encodings(encode, txs[..k]) + encode(txs[k]).value + Encodings(encode, txs[k + 1..])
  }

  lemma EncodingsAreLaid<Tx>(encode: Tx -> Option<seq<octet>>, txs: seq<Tx>)
    requires AllEncode(encode, txs)
    ensures Laid(encode, txs, Encodings(encode, txs))
  {
    forall k | 0 <= k < |txs|
      ensures StandsAt(encode, txs, Encodings(encode, txs), k)
    {
      EncodingStands(encode, txs, k);
      hide AllEncode;
    }
    hide AllEncode;
  }

  /** HashTxSet: the hash of the previous ledger's hash followed by the transactions in hash order, unless
      one of them cannot be encoded.  The set is left sorted. */
  method HashTxSet<Tx(==, !new)>(previous: seq<octet>, txs: array<Tx>, encode: Tx -> Option<seq<octet>>,
                                 sha256: seq<octet> -> Digest) returns (h: Option<Digest>)
    modifies txs
    ensures multiset(txs[..]) == old(multiset(txs[..]))
    ensures h.Some? <==> AllEncode(encode, old(txs[..]))
    ensures h.None? ==> txs[..] == old(txs[..])
    ensures h.Some? ==> AllEncode(encode, txs[..]) && h.value == sha256(previous + Encodings(encode, txs[..]))
    ensures h.Some? ==> Laid(encode, txs[..], Encodings(encode, txs[..]))
    ensures h.Some? ==> SortedBy(HashXdr(encode, sha256), txs[..])
    ensures h.Some? ==> forall i, j :: 0 <= i < j < txs.Length ==> Ordered(encode, sha256, txs[i], txs[j])
    ensures h.Some? && NoCollision(HashXdr(encode, sha256), multiset(txs[..])) ==>
      forall t :: multiset(t) == multiset(txs[..]) && SortedBy(HashXdr(encode, sha256), t) ==> t == txs[..]
  {
    hide NoCollision, SortedBy, Ordered, HashXdr, Laid;
    var ok := SortTxsForHash(txs, encode, sha256);
    if !ok {
      return None;
    }
    SameTxsEncode(encode, old(txs[..]), txs[..]);
    EncodingsAreLaid(encode, txs[..]);
    var input := previous;
    for i := 0 to txs.Length
      invariant input == previous + Encodings(encode, txs[..i])
    {
      assert txs[..i + 1][..i] == txs[..i];
      input := input + encode(txs[i]).value;
    }
    assert txs[..txs.Length] == txs[..];
    h := Some(sha256(input));
    OneOrder(HashXdr(encode, sha256), txs[..]);
  }

  lemma OneOrder<Tx(!new)>(hash: Tx -> Digest, s: seq<Tx>)
    requires SortedBy(hash, s)
    ensures NoCollision(hash, multiset(s)) ==> forall t :: multiset(t) == multiset(s) && SortedBy(hash, t) ==> t == s
  {
    hide NoCollision, SortedBy;
    if NoCollision(hash, multiset(s)) {
      forall t | multiset(t) == multiset(s) && SortedBy(hash, t)
        ensures t == s
      {
        SortedIsUnique(hash, s, t);
      }
    }
  }

  /** The hash of a transaction set does not depend on the order in which the set lists its
      transactions. */
  method HashBothOrders<Tx(==, !new)>(previous: seq<octet>, a: array<Tx>, b: array<Tx>,
                                      encode: Tx -> Option<seq<octet>>, sha256: seq<octet> -> Digest)
      returns (x: Option<Digest>, y: Option<Digest>)
    requires a != b && multiset(a[..]) == multiset(b[..]) && NoCollision(HashXdr(encode, sha256), multiset(a[..]))
    modifies a, b
    ensures x == y
  {
    SameTxsEncode(encode, a[..], b[..]);
    SameTxsEncode(encode, b[..], a[..]);
    hide AllEncode, SortedBy, NoCollision, HashXdr;
    x := HashTxSet(previous, a, encode, sha256);
    y := HashTxSet(previous, b, encode, sha256);
  }
}
