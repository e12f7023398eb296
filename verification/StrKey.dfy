/** The strkey codec of strkey/main.go: a version byte, a payload and a checksum in base32. */
module StrKey {
  import opened Bits
  import opened BurstErrors
  import opened Crc16
  import opened Wrappers
  import Base32

  const VERSION_ACCOUNT_ID: byte := 48
  const VERSION_SEED: byte := 144
  const VERSION_HASH_TX: byte := 152
  const VERSION_HASH_X: byte := 184

  datatype StrKeyError = InvalidVersionByte | InvalidString(error: Base32.DecodeError) | InvalidChecksum

  predicate ValidVersion(version: byte) {
    version == VERSION_ACCOUNT_ID || version == VERSION_SEED || version == VERSION_HASH_TX || version == VERSION_HASH_X
  }

  // ----- Specification -----

  /** What a strkey holds in binary. */
  function Raw(version: byte, payload: seq<byte>): (raw: seq<byte>)
    ensures |raw| == |payload| + 3
  {
    [version] + payload + ChecksumBytes([version] + payload)
  }

  function Encoding(version: byte, payload: seq<byte>): Result<string, StrKeyError> {
    if ValidVersion(version) then Ok(Base32.Encode(Raw(version, payload))) else Err(InvalidVersionByte)
  }

  function Decoding(expected: byte, src: string): Result<seq<byte>, StrKeyError> {
    if !ValidVersion(expected) then Err(InvalidVersionByte) else
    match Base32.DecodeString(src)
    case Err(e) => Err(InvalidString(e))
    case Ok(raw) =>
      Base32.EncodeDecode(src, raw);
      if raw[0] != expected then Err(InvalidVersionByte)
      else if ChecksumBytes(raw[..|raw| - 2]) != raw[|raw| - 2..] then Err(InvalidChecksum)
      else Ok(raw[1..|raw| - 2])
  }

  function VersionOf(src: string): Result<byte, StrKeyError> {
    match Base32.DecodeString(src)
    case Err(e) => Err(InvalidString(e))
    case Ok(raw) =>
      Base32.EncodeDecode(src, raw);
      Ok(raw[0])
  }

  // ----- strkey/main.go -----

  /** Every payload survives being encoded and decoded under a known version. */
  method Encode(version: byte, src: seq<byte>) returns (r: Result<string, StrKeyError>)
    ensures r == Encoding(version, src)
    ensures if ValidVersion(version) then r.Ok? && Decoding(version, r.value) == Ok(src) else r == Err(InvalidVersionByte)
    ensures r.Ok? <==> version == 48 || version == 144 || version == 152 || version == 184
    ensures r.Ok? ==> r.value[0] == if version == 48 then 'G' else if version == 144 then 'S' else if version == 152 then 'T' else 'X'
  {
    if !ValidVersion(version) {
      return Err(InvalidVersionByte);
    }
    var raw := [version];
    raw := raw + src;
    var checksum := Checksum(raw);
    raw := raw + checksum;
    DecodeOfEncode(version, src);
    FirstLetter(version, src);
    hide Decoding, Base32.Encode;
    return Ok(Base32.Encode(raw));
  }

  /** Only the one encoding of a payload is accepted. */
  method Decode(expected: byte, src: string) returns (r: Result<seq<byte>, StrKeyError>)
    ensures r == Decoding(expected, src)
    ensures r.Ok? ==> Encoding(expected, r.value) == Ok(src)
    ensures Known(expected) ==> forall e :: r == Err(InvalidString(e)) <==> Base32.DecodeString(src) == Err(e)
    ensures r == Err(InvalidVersionByte) <==> !Known(expected) || (VersionOf(src).Ok? && VersionOf(src) != Ok(expected))
    ensures r == Err(InvalidChecksum) <==>
      Known(expected) && VersionOf(src) == Ok(expected) && forall payload :: Encoding(expected, payload) != Ok(src)
  {
    RefusedExactly(expected, src);
    DecodingParts(expected, src);
    AcceptedEncodes(expected, src);
    hide Decoding, Encoding, VersionOf, Base32.DecodeString, ChecksumBytes;
    if !ValidVersion(expected) {
      return Err(InvalidVersionByte);
    }
    var decoded := Base32.DecodeString(src);
    if decoded.Err? {
      return Err(InvalidString(decoded.error));
    }
    var raw := decoded.value;
    var version, vp, payload, checksum := raw[0], raw[..|raw| - 2], raw[1..|raw| - 2], raw[|raw| - 2..];
    if version != expected {
      return Err(InvalidVersionByte);
    }
    var valid := Validate(vp, checksum);
    if !valid {
      return Err(InvalidChecksum);
    }
    return Ok(payload);
  }

  lemma DecodingParts(expected: byte, src: string)
    ensures !ValidVersion(expected) ==> Decoding(expected, src) == Err(InvalidVersionByte)
    ensures ValidVersion(expected) ==>
      match Base32.DecodeString(src)
      case Err(e) => Decoding(expected, src) == Err(InvalidString(e))
      case Ok(raw) =>
        && |raw| >= 3
        && Decoding(expected, src) == (
          if raw[0] != expected then Err(InvalidVersionByte)
          else if ChecksumBytes(raw[..|raw| - 2]) != raw[|raw| - 2..] then Err(InvalidChecksum)
          else Ok(raw[1..|raw| - 2]))
  {
    hide Base32.DecodeString, Base32.Encode, ChecksumBytes, ValidVersion;
    var decoded := Base32.DecodeString(src);
    if decoded.Ok? {
      Base32.EncodeDecode(src, decoded.value);
    }
  }

  lemma AcceptedEncodes(expected: byte, src: string)
    ensures Decoding(expected, src).Ok? ==> Encoding(expected, Decoding(expected, src).value) == Ok(src)
  {
    hide Decoding, Encoding;
    if Decoding(expected, src).Ok? {
      EncodeOfDecode(expected, src, Decoding(expected, src).value);
    }
  }

  /** The versions of accounts, seeds, and hashes of transactions and preimages. */
  ghost predicate Known(version: byte) {
    version == 48 || version == 144 || version == 152 || version == 184
  }

  /** Why a string is refused, exactly: the checksum is wrong if the string has the version and yet is no
      encoding. */
  lemma RefusedExactly(expected: byte, src: string)
    ensures var r := Decoding(expected, src);
      && (Known(expected) ==> forall e :: r == Err(InvalidString(e)) <==> Base32.DecodeString(src) == Err(e))
      && (r == Err(InvalidVersionByte) <==> !Known(expected) || (VersionOf(src).Ok? && VersionOf(src) != Ok(expected)))
      && (r == Err(InvalidChecksum) <==>
          Known(expected) && VersionOf(src) == Ok(expected) && forall payload :: Encoding(expected, payload) != Ok(src))
  {
    DecodingParts(expected, src);
    VersionParts(src);
    var r := Decoding(expected, src);
    hide Base32.DecodeString, ChecksumBytes, Encoding, Decoding, VersionOf;
    if r.Ok? {
      EncodeOfDecode(expected, src, r.value);
    }
    forall payload | ValidVersion(expected) && Encoding(expected, payload) == Ok(src)
      ensures r == Ok(payload)
    {
      DecodeOfEncode(expected, payload);
    }
  }

  lemma VersionParts(src: string)
    ensures match Base32.DecodeString(src)
      case Err(e) => VersionOf(src) == Err(InvalidString(e))
      case Ok(raw) => |raw| >= 3 && VersionOf(src) == Ok(raw[0])
  {
    hide Base32.DecodeString, Base32.Encode;
    var decoded := Base32.DecodeString(src);
    if decoded.Ok? {
      Base32.EncodeDecode(src, decoded.value);
    }
  }

  // ----- The codec is a bijection -----

  lemma AcceptedIsRaw(expected: byte, src: string, payload: seq<byte>)
    requires Decoding(expected, src) == Ok(payload)
    ensures ValidVersion(expected) && Base32.DecodeString(src) == Ok(Raw(expected, payload))
  {
    var raw := Base32.DecodeString(src).value;
    Base32.EncodeDecode(src, raw);
    assert [expected] + payload == raw[..|raw| - 2];
    assert raw == raw[..|raw| - 2] + raw[|raw| - 2..];
  }

  /** Decoding returns every payload that was encoded. */
  lemma DecodeOfEncode(version: byte, payload: seq<byte>)
    requires ValidVersion(version)
    ensures Encoding(version, payload).Ok?
    ensures Decoding(version, Encoding(version, payload).value) == Ok(payload)
  {
    var raw := Raw(version, payload);
    Base32.DecodeEncode(raw);
    assert raw[..|raw| - 2] == [version] + payload;
  }

  /** Every accepted string is exactly the encoding of what it decodes to. */
  lemma EncodeOfDecode(version: byte, src: string, payload: seq<byte>)
    requires Decoding(version, src) == Ok(payload)
    ensures Encoding(version, payload) == Ok(src)
  {
    AcceptedIsRaw(version, src, payload);
    Base32.EncodeDecode(src, Raw(version, payload));
  }

  /** No two accepted strings stand for the same version and payload, and no string is accepted
      under two versions. */
  lemma OneStringPerKey(v1: byte, s1: string, v2: byte, s2: string, p1: seq<byte>, p2: seq<byte>)
    requires Decoding(v1, s1) == Ok(p1) && Decoding(v2, s2) == Ok(p2)
    ensures s1 == s2 <==> v1 == v2 && p1 == p2
  {
    AcceptedIsRaw(v1, s1, p1);
    AcceptedIsRaw(v2, s2, p2);
    EncodeOfDecode(v1, s1, p1);
    EncodeOfDecode(v2, s2, p2);
    hide Encoding, Decoding, Raw;
    if s1 == s2 {
      RawInjective(v1, p1, v2, p2);
    }
  }

  lemma RawInjective(v1: byte, p1: seq<byte>, v2: byte, p2: seq<byte>)
    requires Raw(v1, p1) == Raw(v2, p2)
    ensures v1 == v2 && p1 == p2
  {
    var raw := Raw(v1, p1);
    assert v1 == raw[0] == v2;
    assert p1 == raw[1..|raw| - 2] == p2;
  }

  /** The first letter tells the version. */
  lemma FirstLetter(version: byte, payload: seq<byte>)
    requires ValidVersion(version)
    ensures var s := Encoding(version, payload).value;
      s != "" && s[0] == match version case 48 => 'G' case 144 => 'S' case 152 => 'T' case _ => 'X'
  {
    var raw := Raw(version, payload);
    var s := Base32.Encode(raw);
    Base32.EncodedBits(raw);
    Base32.FirstSymbol(s);
    FirstBits(raw);
    hide Base32.Encode, Raw;
    VersionSymbol(version);
    Base32.SymbolOfBits(s[0], ByteBits(version)[..5]);
    Letters();
  }

  lemma Letters()
    ensures Base32.SymbolChar(6) == 'G' && Base32.SymbolChar(18) == 'S'
    ensures Base32.SymbolChar(19) == 'T' && Base32.SymbolChar(23) == 'X'
  {
  }

  lemma FirstBits(raw: seq<byte>)
    requires raw != []
    ensures |Unpack(ByteBits, raw)| >= 8 && Unpack(ByteBits, raw)[..5] == ByteBits(raw[0])[..5]
  {
    hide ByteBits;
  }

  lemma VersionSymbol(version: byte)
    requires ValidVersion(version)
    ensures ByteBits(version)[..5] == Base32.SymbolBits(match version case 48 => 6 case 144 => 18 case 152 => 19 case _ => 23)
  {
  }

  lemma VersionOfEncode(version: byte, payload: seq<byte>)
    requires ValidVersion(version)
    ensures VersionOf(Encoding(version, payload).value) == Ok(version)
  {
    Base32.DecodeEncode(Raw(version, payload));
    hide Base32.Encode, Base32.DecodeString;
  }

  // ----- Wrong characters -----

  lemma RawIsCodeword(version: byte, payload: seq<byte>)
    ensures Codeword(Unpack(ByteBits, Raw(version, payload)))
    ensures |Unpack(ByteBits, Raw(version, payload))| == 8 * (|payload| + 3)
  {
    hide ByteBits, Codeword, ChecksumBytes;
    var vp := [version] + payload;
    var check := ChecksumBytes(vp);
    UnpackConcat(ByteBits, vp, check);
    UnpackPair(check);
    UnpackBytesLength(vp);
    CheckedIsCodeword(Unpack(ByteBits, vp), ByteBits(check[0]), ByteBits(check[1]));
  }

  lemma UnpackPair(pair: seq<byte>)
    requires |pair| == 2
    ensures Unpack(ByteBits, pair) == ByteBits(pair[0]) + ByteBits(pair[1])
  {
    hide ByteBits;
    assert pair == [pair[0]] + [pair[1]];
    UnpackConcat(ByteBits, [pair[0]], [pair[1]]);
    UnpackOne(pair[0]);
    UnpackOne(pair[1]);
  }

  lemma CheckedIsCodeword(data: seq<bool>, low: seq<bool>, high: seq<bool>)
    requires |low| == |high| == 8 && Crc(data) == high + low
    ensures Codeword(data + (low + high))
    ensures |data + (low + high)| == |data| + 16
  {
    hide Crc;
    var bits, n := data + (low + high), |data|;
    assert bits[..n] == data && bits[n..n + 8] == low && bits[n + 8..] == high;
  }

  lemma UnpackOne(b: byte)
    ensures Unpack(ByteBits, [b]) == ByteBits(b)
  {
    hide ByteBits;
    assert Unpack(ByteBits, [b][1..]) == [];
  }

  /** Strings that agree but for two neighbouring characters. */
  ghost predicate DifferAt(s: string, t: string, i: nat) {
    |s| == |t| && i + 1 < |s| && t[..i] == s[..i] && t[i + 2..] == s[i + 2..]
  }

  /** Changing two neighbouring characters changes only their ten bits. */
  lemma BitsOfChange(s: string, t: string, i: nat)
    requires Base32.OverAlphabet(s) && Base32.OverAlphabet(t) && DifferAt(s, t, i)
    ensures |Base32.StringBits(s)| == |Base32.StringBits(t)| == 5 * |s|
    ensures Base32.StringBits(s)[..5 * i] == Base32.StringBits(t)[..5 * i]
    ensures Base32.StringBits(s)[5 * i + 10..] == Base32.StringBits(t)[5 * i + 10..]
  {
    SplitBits(s, i);
    SplitBits(t, i);
  }

  lemma SplitBits(s: string, i: nat)
    requires Base32.OverAlphabet(s) && i + 1 < |s|
    ensures |Base32.StringBits(s)| == 5 * |s|
    ensures Base32.StringBits(s)[..5 * i] == Base32.StringBits(s[..i])
    ensures Base32.StringBits(s)[5 * i + 10..] == Base32.StringBits(s[i + 2..])
  {
    var a, c, b := s[..i], s[i..i + 2], s[i + 2..];
    Base32.StringBitsLength(s);
    Base32.StringBitsLength(a);
    Base32.StringBitsLength(c);
    var A, C, B := Base32.ToSymbols(a), Base32.ToSymbols(c), Base32.ToSymbols(b);
    assert Base32.ToSymbols(s) == A + (C + B);
    UnpackConcat(Base32.SymbolBits, A, C + B);
    UnpackConcat(Base32.SymbolBits, C, B);
  }

  /** Two bit strings that agree outside a window of ten bits differ only within one of twelve, also when
      they are cut off inside the window. */
  lemma WindowDifference(x: seq<bool>, y: seq<bool>, at: nat)
    requires |x| == |y| && |x| >= 12
    requires forall j :: 0 <= j < |x| && (j < at || at + 10 <= j) ==> x[j] == y[j]
    ensures var e := Xor(x, y); var w := if at + 12 <= |x| then at else |x| - 12;
      e[..w] == Zeros(w) && e[w + 12..] == Zeros(|x| - w - 12)
  {
  }

  /** Replacing one or two neighbouring characters of an accepted string by others of the alphabet gives a
      string that is not accepted, whatever the length and whichever bytes the characters span. */
  lemma NeighbouringErrorsDetected(version: byte, s: string, t: string, i: nat)
    requires Decoding(version, s).Ok?
    requires t != s && Base32.OverAlphabet(t) && DifferAt(s, t, i)
    ensures Decoding(version, t).Err?
  {
    if Decoding(version, t).Ok? {
      var p, q := Decoding(version, s).value, Decoding(version, t).value;
      var raw, raw' := Raw(version, p), Raw(version, q);
      AcceptedIsRaw(version, s, p);
      AcceptedIsRaw(version, t, q);
      EncodeOfDecode(version, s, p);
      EncodeOfDecode(version, t, q);
      Base32.AcceptedBits(s, raw);
      Base32.AcceptedBits(t, raw');
      RawIsCodeword(version, p);
      RawIsCodeword(version, q);
      hide Encoding, Decoding, Raw, Base32.DecodeString, ByteBits, Codeword;
      SameRawBits(s, t, i, Unpack(ByteBits, raw), Unpack(ByteBits, raw'), 5 * |s| % 8);
      BytesAreSymbols();
      hide Symbols;
      UnpackInjective(raw, raw');
      RawInjective(version, p, version, q);
      assert false;
    }
  }

  lemma SingleCharacterErrorDetected(version: byte, s: string, t: string, i: nat)
    requires Decoding(version, s).Ok?
    requires |t| == |s| && i < |s| && Base32.OverAlphabet(t)
    requires t[i] != s[i] && t == s[i := t[i]]
    ensures Decoding(version, t).Err?
  {
    AcceptedIsLong(version, s);
    NeighbouringErrorsDetected(version, s, t, if i + 1 < |s| then i else i - 1);
  }

  lemma AcceptedIsLong(version: byte, s: string)
    requires Decoding(version, s).Ok?
    ensures |s| >= 5 && Base32.OverAlphabet(s)
  {
    var p := Decoding(version, s).value;
    AcceptedIsRaw(version, s, p);
    Base32.AcceptedBits(s, Raw(version, p));
  }

  /** Swapping two neighbouring characters that are different makes an accepted string refused. */
  lemma SwappedCharactersDetected(version: byte, s: string, i: nat)
    requires Decoding(version, s).Ok?
    requires i + 1 < |s| && s[i] != s[i + 1]
    ensures Decoding(version, s[i := s[i + 1]][i + 1 := s[i]]).Err?
  {
    AcceptedIsLong(version, s);
    var t := s[i := s[i + 1]][i + 1 := s[i]];
    assert t[i] != s[i];
    hide Decoding;
    assert Base32.OverAlphabet(t) by {
      assert forall c :: c in t ==> c in s;
    }
    NeighbouringErrorsDetected(version, s, t, i);
  }

  lemma UnpackInjective(a: seq<byte>, b: seq<byte>)
    requires Unpack(ByteBits, a) == Unpack(ByteBits, b)
    ensures a == b
  {
    BytesAreSymbols();
    hide Symbols, ByteBits;
    PackUnpack(ByteBits, BitsToByte, 8, a, []);
    PackUnpack(ByteBits, BitsToByte, 8, b, []);
  }

  lemma SameRawBits(s: string, t: string, i: nat, x: seq<bool>, y: seq<bool>, k: nat)
    requires Base32.OverAlphabet(s) && Base32.OverAlphabet(t) && DifferAt(s, t, i)
    requires k < 5 && Base32.StringBits(s) == x + Zeros(k) && Base32.StringBits(t) == y + Zeros(k)
    requires Codeword(x) && Codeword(y) && |x| == |y|
    ensures x == y
  {
    var X, Y, at := Base32.StringBits(s), Base32.StringBits(t), 5 * i;
    BitsOfChange(s, t, i);
    forall j | 0 <= j < |x| && (j < at || at + 10 <= j)
      ensures x[j] == y[j]
    {
      if j < at {
        assert x[j] == X[..at][j] && y[j] == Y[..at][j];
      } else {
        assert x[j] == X[at + 10..][j - at - 10] && y[j] == Y[at + 10..][j - at - 10];
      }
    }
    WindowDifference(x, y, at);
    CodewordsLinear(x, y);
    WindowDetected(Xor(x, y), if at + 12 <= |x| then at else |x| - 12);
    forall j | 0 <= j < |x|
      ensures x[j] == y[j]
    {
      assert !Xor(x, y)[j];
    }
  }
}
