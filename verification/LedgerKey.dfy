/** The compressed form of ledger keys that the ingestion code uses as map keys, after
    xdr/ledger_key.go, xdr/asset.go, xdr/account_id.go and xdr/claimable_balance_id.go.  A reader for
    it, which the original does not have, shows that nothing is lost but trailing NULs of data names. */
module LedgerKey {
  import opened Arithmetic
  import opened Octets
  import opened Wrappers

  /** 32 octets: an ed25519 public key or a balance hash. */
  type Word32 = s: seq<octet> | |s| == 32 witness seq(32, _ => 0)
  type Code4 = s: seq<octet> | |s| == 4 witness seq(4, _ => 0)
  type Code12 = s: seq<octet> | |s| == 12 witness seq(12, _ => 0)

  datatype Asset = Native | AlphaNum4(code4: Code4, issuer: Word32) | AlphaNum12(code12: Code12, issuer: Word32)

  datatype Key =
    | Account(account: Word32)
    | Trustline(account: Word32, asset: Asset)
    | Offer(account: Word32, offerId: int64)
    | Data(account: Word32, name: seq<octet>)
    | ClaimableBalance(balance: Word32)

  // ----- Writing -----

  /** Without the NULs at the end. */
  function TrimRight(s: seq<octet>): (r: seq<octet>)
    ensures r <= s
    ensures r == [] || r[|r| - 1] != 0
    ensures forall i :: |r| <= i < |s| ==> s[i] == 0
  {
    if s != [] && s[|s| - 1] == 0 then TrimRight(s[..|s| - 1]) else s
  }

  function CompressAccount(account: Word32): seq<octet> {
    [0] + account
  }

  /** An account ID in full XDR: the key type takes four octets. */
  function MarshalAccount(account: Word32): seq<octet> {
    [0, 0, 0, 0] + account
  }

  function CompressAsset(a: Asset): seq<octet> {
    match a
    case Native => [0]
    case AlphaNum4(code, issuer) => [1] + TrimRight(code) + MarshalAccount(issuer)
    case AlphaNum12(code, issuer) => [2] + TrimRight(code) + MarshalAccount(issuer)
  }

  function MarshalInt64(x: int64): seq<octet> {
    BigEndian(8, if x >= 0 then x else x + 0x1_0000_0000_0000_0000)
  }

  /** What is written can be read back, up to the NULs at the end of a data name. */
  method MarshalBinaryCompress(key: Key) returns (m: seq<octet>)
    ensures m == Compress(key)
    ensures IsForm(m, key)
    ensures Decompress(m) == Some(Canonical(key))
  {
    DecompressCompress(key);
    CompressIsForm(key);
    hide Decompress, IsForm;
    match key {
      case Account(account) =>
        m := [0];
        m := m + CompressAccount(account);
      case Trustline(account, asset) =>
        m := [1];
        m := m + CompressAccount(account);
        m := m + CompressAsset(asset);
      case Offer(account, offerId) =>
        m := [2];
        m := m + CompressAccount(account);
        m := m + MarshalInt64(offerId);
      case Data(account, name) =>
        m := [3];
        m := m + CompressAccount(account);
        m := m + TrimRight(name);
      case ClaimableBalance(balance) =>
        m := [4];
        m := m + ([0] + balance);
    }
  }

  function Compress(key: Key): seq<octet> {
    match key
    case Account(account) => [0] + CompressAccount(account)
    case Trustline(account, asset) => [1] + CompressAccount(account) + CompressAsset(asset)
    case Offer(account, offerId) => [2] + CompressAccount(account) + MarshalInt64(offerId)
    case Data(account, name) => [3] + CompressAccount(account) + TrimRight(name)
    case ClaimableBalance(balance) => [4] + ([0] + balance)
  }

  // ----- What stands where -----

  /** Without NULs at its end, s is code. */
  ghost predicate IsTrimmed(s: seq<octet>, code: seq<octet>) {
    && s <= code && (s == [] || s[|s| - 1] != 0)
    && forall i :: |s| <= i < |code| ==> code[i] == 0
  }

  /** The octets of an asset: its type in one octet, its code without NULs at the end, and its issuer
      with a key type of four octets. */
  ghost predicate IsAssetForm(m: seq<octet>, a: Asset) {
    if a.Native? then m == [0] else
    && |m| >= 37
    && m[0] == (if a.AlphaNum4? then 1 else 2)
    && IsTrimmed(m[1..|m| - 36], if a.AlphaNum4? then a.code4 else a.code12)
    && m[|m| - 36..|m| - 32] == [0, 0, 0, 0] && m[|m| - 32..] == a.issuer
  }

  /** The octets of a key: its type and the type of what identifies it in one octet each, the 32 octets
      of that, and what else the type of the key calls for, a number in eight octets of its two's
      complement. */
  ghost predicate IsForm(m: seq<octet>, key: Key) {
    && |m| >= 34 && m[1] == 0
    && m[2..34] == (if key.ClaimableBalance? then key.balance else key.account)
    && match key
       case Account(_) => m[0] == 0 && |m| == 34
       case Trustline(_, asset) => m[0] == 1 && IsAssetForm(m[34..], asset)
       case Offer(_, offerId) => m[0] == 2 && |m| == 42 && (FromBigEndian(m[34..]) - offerId) % 0x1_0000_0000_0000_0000 == 0
       case Data(_, name) => m[0] == 3 && IsTrimmed(m[34..], name)
       case ClaimableBalance(_) => m[0] == 4 && |m| == 34
  }

  lemma CompressIsForm(key: Key)
    ensures IsForm(Compress(key), key)
  {
    hide TrimRight, CompressAsset, IsAssetForm, MarshalInt64, IsTrimmed;
    var m, word := Compress(key), if key.ClaimableBalance? then key.balance else key.account;
    match key {
      case Account(_) => FormParts(0, word, []);
      case ClaimableBalance(_) => FormParts(4, word, []);
      case Data(_, name) => FormParts(3, word, TrimRight(name)); TrimmedByTrim(name);
      case Trustline(_, asset) => FormParts(1, word, CompressAsset(asset)); AssetIsForm(asset);
      case Offer(_, offerId) => FormParts(2, word, MarshalInt64(offerId)); Int64Value(offerId);
    }
  }

  lemma FormParts(tag: octet, word: Word32, rest: seq<octet>)
    ensures var m := [tag] + ([0] + word) + rest;
      && |m| == 34 + |rest| && m[0] == tag && m[1] == 0 && m[2..34] == word && m[34..] == rest
      && (rest == [] ==> m == [tag] + ([0] + word))
  {
  }

  lemma TrimmedByTrim(s: seq<octet>)
    ensures IsTrimmed(TrimRight(s), s)
  {
  }

  lemma AssetIsForm(a: Asset)
    ensures IsAssetForm(CompressAsset(a), a)
  {
    if !a.Native? {
      var code: seq<octet> := if a.AlphaNum4? then a.code4 else a.code12;
      CodeRoundTrip(if a.AlphaNum4? then 1 else 2, code, a.issuer);
      TrimmedByTrim(code);
      hide TrimRight, IsTrimmed;
    }
  }

  lemma Int64Value(x: int64)
    ensures |MarshalInt64(x)| == 8 && (FromBigEndian(MarshalInt64(x)) - x) % 0x1_0000_0000_0000_0000 == 0
  {
    Words();
    FromToBigEndian(8, if x >= 0 then x else x + 0x1_0000_0000_0000_0000);
  }

  // ----- Reading back -----

  function Pad(s: seq<octet>, n: nat): seq<octet>
    requires |s| <= n
  {
    s + seq(n - |s|, _ => 0)
  }

  lemma PadTrim(s: seq<octet>)
    ensures Pad(TrimRight(s), |s|) == s
  {
  }

  lemma {:induction false} TrimPad(s: seq<octet>, n: nat)
    requires |s| <= n && TrimRight(s) == s
    ensures TrimRight(Pad(s, n)) == s
  {
    if |s| == n {
      assert Pad(s, n) == s;
    } else {
      TrimPad(s, n - 1);
      assert Pad(s, n)[..n - 1] == Pad(s, n - 1);
    }
  }

  function ReadInt64(s: seq<octet>): int64
    requires |s| == 8
  {
    ToFromBigEndian(s);
    Words();
    var x := FromBigEndian(s);
    if x < 0x8000_0000_0000_0000 then x else x - 0x1_0000_0000_0000_0000
  }

  lemma Int64RoundTrip(x: int64)
    ensures ReadInt64(MarshalInt64(x)) == x
  {
    Words();
    FromToBigEndian(8, if x >= 0 then x else x + 0x1_0000_0000_0000_0000);
  }

  lemma Int64Unique(s: seq<octet>)
    requires |s| == 8
    ensures MarshalInt64(ReadInt64(s)) == s
  {
    ToFromBigEndian(s);
    Words();
  }

  function ReadAsset(s: seq<octet>): Option<Asset> {
    if s == [0] then Some(Native) else
    if |s| < 37 || s[|s| - 36..|s| - 32] != [0, 0, 0, 0] then None else
    var code, issuer := s[1..|s| - 36], s[|s| - 32..];
    if TrimRight(code) != code then None else
    if s[0] == 1 && |code| <= 4 then Some(AlphaNum4(Pad(code, 4), issuer)) else
    if s[0] == 2 && |code| <= 12 then Some(AlphaNum12(Pad(code, 12), issuer)) else None
  }

  function Decompress(s: seq<octet>): Option<Key> {
    if |s| < 34 || s[1] != 0 then None else ReadParts(s[0], s[2..34], s[34..])
  }

  function ReadParts(tag: octet, word: Word32, rest: seq<octet>): Option<Key> {
    match tag
    case 0 => if rest == [] then Some(Account(word)) else None
    case 1 => (match ReadAsset(rest) case None => None case Some(asset) => Some(Trustline(word, asset)))
    case 2 => if |rest| == 8 then Some(Offer(word, ReadInt64(rest))) else None
    case 3 => if TrimRight(rest) == rest then Some(Data(word, rest)) else None
    case 4 => if rest == [] then Some(ClaimableBalance(word)) else None
    case _ => None
  }

  /** A key up to the NULs at the end of a data name. */
  function Canonical(key: Key): Key {
    if key.Data? then Data(key.account, TrimRight(key.name)) else key
  }

  lemma TrimTwice(s: seq<octet>)
    ensures TrimRight(TrimRight(s)) == TrimRight(s)
  {
  }

  lemma CodeRoundTrip(tag: octet, code: seq<octet>, issuer: Word32)
    ensures var s := [tag] + TrimRight(code) + MarshalAccount(issuer);
      && |s| >= 37 && s[0] == tag && s[1..|s| - 36] == TrimRight(code)
      && s[|s| - 36..|s| - 32] == [0, 0, 0, 0] && s[|s| - 32..] == issuer
  {
  }

  lemma AssetRoundTrip(a: Asset)
    ensures ReadAsset(CompressAsset(a)) == Some(a)
  {
    if !a.Native? {
      var code: seq<octet> := if a.AlphaNum4? then a.code4 else a.code12;
      CodeRoundTrip(if a.AlphaNum4? then 1 else 2, code, a.issuer);
      hide TrimRight;
      PadTrim(code);
      TrimTwice(code);
    }
  }

  lemma DecompressParts(tag: octet, word: Word32, rest: seq<octet>)
    ensures Decompress([tag] + ([0] + word) + rest) == ReadParts(tag, word, rest)
  {
    hide ReadParts;
    var s := [tag] + ([0] + word) + rest;
    assert |s| >= 34 && s[0] == tag && s[1] == 0 && s[2..34] == word && s[34..] == rest;
  }

  /** What was compressed can be read back: all five key types, assets with codes of any length. */
  lemma DecompressCompress(key: Key)
    ensures Decompress(Compress(key)) == Some(Canonical(key))
  {
    hide TrimRight, ReadAsset, CompressAsset, ReadInt64, MarshalInt64, Decompress;
    match key {
      case Account(account) =>
        DecompressParts(0, account, []);
        assert Compress(key) == [0] + ([0] + account) + [];
      case Trustline(account, asset) =>
        DecompressParts(1, account, CompressAsset(asset));
        AssetRoundTrip(asset);
      case Offer(account, offerId) =>
        DecompressParts(2, account, MarshalInt64(offerId));
        Int64RoundTrip(offerId);
        MarshalledSize(offerId);
      case Data(account, name) =>
        DecompressParts(3, account, TrimRight(name));
        TrimTwice(name);
      case ClaimableBalance(balance) =>
        DecompressParts(4, balance, []);
        assert Compress(key) == [4] + ([0] + balance) + [];
    }
  }

  lemma MarshalledSize(x: int64)
    ensures |MarshalInt64(x)| == 8
  {
  }

  /** Two keys have the same compressed form exactly when they are equal, up to the NULs at the end of
      a data name: a map keyed by the compressed form never confuses two other keys. */
  lemma CompressInjective(a: Key, b: Key)
    ensures Compress(a) == Compress(b) <==> Canonical(a) == Canonical(b)
  {
    DecompressCompress(a);
    DecompressCompress(b);
    hide TrimRight, Decompress;
    if Canonical(a) == Canonical(b) {
      SameCanonical(a, b);
    }
  }

  lemma SameCanonical(a: Key, b: Key)
    requires Canonical(a) == Canonical(b)
    ensures Compress(a) == Compress(b)
  {
    hide TrimRight;
  }

  /** When data names do not end in NUL, equal compressed forms mean equal keys. */
  lemma InjectiveWithoutTrailingNul(a: Key, b: Key)
    requires forall k :: k in [a, b] && k.Data? ==> k.name == [] || k.name[|k.name| - 1] != 0
    requires Compress(a) == Compress(b)
    ensures a == b
  {
    CompressInjective(a, b);
    hide Compress;
    assert a in [a, b] && b in [a, b];
  }

  /** Two different keys with the same compressed form. */
  lemma TrailingNulCollides(account: Word32)
    ensures Data(account, [65]) != Data(account, [65, 0])
    ensures Compress(Data(account, [65])) == Compress(Data(account, [65, 0]))
  {
    assert TrimRight([65, 0]) == TrimRight([65]) by {
      assert [65, 0][..1] == [65];
    }
  }

  lemma AssetUnique(s: seq<octet>, a: Asset)
    requires ReadAsset(s) == Some(a)
    ensures CompressAsset(a) == s
  {
    if s != [0] {
      var code := s[1..|s| - 36];
      TrimPad(code, if a.AlphaNum4? then 4 else 12);
      assert s == [s[0]] + code + (s[|s| - 36..|s| - 32] + s[|s| - 32..]);
    }
  }

  /** Every string that can be read is the compressed form of exactly the key that is read. */
  lemma CompressDecompress(s: seq<octet>, key: Key)
    requires Decompress(s) == Some(key)
    ensures Compress(key) == s && Canonical(key) == key
  {
    hide TrimRight, ReadAsset, CompressAsset, ReadInt64, MarshalInt64;
    var word, rest := s[2..34], s[34..];
    assert s == [s[0]] + ([0] + word) + rest;
    if key.Trustline? {
      AssetUnique(rest, key.asset);
    } else if key.Offer? {
      Int64Unique(rest);
    }
  }
}
