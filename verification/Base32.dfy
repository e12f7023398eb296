/** Unpadded base32 (section 6 of RFC 4648) with the canonicality checks that strkey/main.go puts
    in front of it. */
module Base32 {
  import opened Bits
  import opened Wrappers

  type Symbol = x: int | 0 <= x < 32

  const ALPHABET: string := "ABCDEFGHIJKLMNOPQRSTUVWXYZ234567"

  datatype DecodeError = TooShort | UnusedCharacter | UnusedBitsSet | CorruptInput

  // ----- Characters -----

  /** What decodingTable holds for a character: its symbol, or 0xff. */
  function CharValue(c: char): int {
    if 'A' <= c <= 'Z' then c as int - 'A' as int
    else if '2' <= c <= '7' then c as int - '2' as int + 26
    else 0xff
  }

  predicate InAlphabet(c: char) {
    CharValue(c) < 32
  }

  predicate OverAlphabet(s: string) {
    forall i :: 0 <= i < |s| ==> InAlphabet(s[i])
  }

  function SymbolChar(x: Symbol): (c: char)
    ensures CharValue(c) == x
  {
    if x < 26 then (x + 'A' as int) as char else (x - 26 + '2' as int) as char
  }

  lemma AlphabetIsSymbols(x: Symbol)
    ensures |ALPHABET| == 32 && ALPHABET[x] == SymbolChar(x)
  {
  }

  lemma CharOfValue(c: char)
    requires InAlphabet(c)
    ensures 0 <= CharValue(c) && SymbolChar(CharValue(c)) == c
  {
  }

  /** initDecodingTable: the table agrees with CharValue on every byte. */
  method InitDecodingTable() returns (table: array<int>)
    ensures fresh(table) && table.Length == 256
    ensures forall c: char :: c as int < 256 ==> table[c as int] == CharValue(c)
  {
    table := new int[256];
    for i := 0 to 256
      invariant forall k :: 0 <= k < i ==> table[k] == 0xff
    {
      table[i] := 0xff;
    }
    for i := 0 to 32
      invariant forall c: char :: c as int < 256 ==> table[c as int] == if CharValue(c) < i then CharValue(c) else 0xff
    {
      AlphabetIsSymbols(i);
      table[ALPHABET[i] as int] := i;
    }
  }

  function ToSymbols(s: string): (syms: seq<Symbol>)
    requires OverAlphabet(s)
    ensures |syms| == |s|
  {
    seq(|s|, i requires 0 <= i < |s| => CharOfValue(s[i]); CharValue(s[i]))
  }

  function FromSymbols(syms: seq<Symbol>): (s: string)
    ensures |s| == |syms| && OverAlphabet(s) && ToSymbols(s) == syms
  {
    seq(|syms|, i requires 0 <= i < |syms| => SymbolChar(syms[i]))
  }

  lemma FromToSymbols(s: string)
    requires OverAlphabet(s)
    ensures FromSymbols(ToSymbols(s)) == s
  {
    forall i | 0 <= i < |s|
      ensures FromSymbols(ToSymbols(s))[i] == s[i]
    {
      CharOfValue(s[i]);
    }
  }

  // ----- Symbols as bits -----

  function SymbolBits(x: Symbol): (bits: seq<bool>)
    ensures |bits| == 5
  {
    [x / 16 % 2 == 1, x / 8 % 2 == 1, x / 4 % 2 == 1, x / 2 % 2 == 1, x % 2 == 1]
  }

  function Digit(bit: bool): int {
    if bit then 1 else 0
  }

  function BitsToSymbol(bits: seq<bool>): Symbol {
    if |bits| != 5 then 0 else
    16 * Digit(bits[0]) + 8 * Digit(bits[1]) + 4 * Digit(bits[2]) + 2 * Digit(bits[3]) + Digit(bits[4])
  }

  lemma SymbolRoundTrip(x: Symbol)
    ensures BitsToSymbol(SymbolBits(x)) == x
  {
  }

  lemma BitsToSymbolRoundTrip(bits: seq<bool>)
    requires |bits| == 5
    ensures SymbolBits(BitsToSymbol(bits)) == bits
  {
    var x := BitsToSymbol(bits);
    assert x / 2 == 8 * Digit(bits[0]) + 4 * Digit(bits[1]) + 2 * Digit(bits[2]) + Digit(bits[3]);
    assert x / 4 == 4 * Digit(bits[0]) + 2 * Digit(bits[1]) + Digit(bits[2]);
    assert x / 8 == 2 * Digit(bits[0]) + Digit(bits[1]);
    assert x / 16 == Digit(bits[0]);
  }

  lemma SymbolsAreSymbols()
    ensures Symbols(SymbolBits, BitsToSymbol, 5)
  {
    hide SymbolBits, BitsToSymbol;
    forall x: Symbol
      ensures BitsToSymbol(SymbolBits(x)) == x
    {
      SymbolRoundTrip(x);
    }
    forall bits: seq<bool> | |bits| == 5
      ensures SymbolBits(BitsToSymbol(bits)) == bits
    {
      BitsToSymbolRoundTrip(bits);
    }
  }

  /** Masking with 2^k - 1 keeps the last k bits. */
  lemma LowBits(x: Symbol, k: nat)
    requires k <= 4
    ensures x % LeftoverModulus(k) == 0 <==> SymbolBits(x)[5 - k..] == Zeros(k)
  {
    match k {
      case 0 =>
        assert SymbolBits(x)[5..] == [];
      case 1 =>
        LowBit(x);
      case 2 =>
        LowTwoBits(x);
      case 3 =>
        LowThreeBits(x);
      case _ =>
        LowFourBits(x);
    }
  }

  lemma LowBit(x: Symbol)
    ensures x % 2 == 0 <==> SymbolBits(x)[4..] == Zeros(1)
  {
    assert SymbolBits(x)[4..] == [SymbolBits(x)[4]] && Zeros(1) == [false];
  }

  lemma LowTwoBits(x: Symbol)
    ensures x % 4 == 0 <==> SymbolBits(x)[3..] == Zeros(2)
  {
    var bits := SymbolBits(x);
    assert bits[3..] == [bits[3], bits[4]] && Zeros(2) == [false, false];
  }

  lemma LowThreeBits(x: Symbol)
    ensures x % 8 == 0 <==> SymbolBits(x)[2..] == Zeros(3)
  {
    var bits := SymbolBits(x);
    assert bits[2..] == [bits[2], bits[3], bits[4]] && Zeros(3) == [false, false, false];
  }

  lemma LowFourBits(x: Symbol)
    ensures x % 16 == 0 <==> SymbolBits(x)[1..] == Zeros(4)
  {
    var bits := SymbolBits(x);
    assert bits[1..] == [bits[1], bits[2], bits[3], bits[4]] && Zeros(4) == [false, false, false, false];
  }

  /** leftoverBitsMask + 1; masking with leftoverBitsMask is the remainder by it. */
  function LeftoverModulus(k: nat): int
    requires k <= 4
  {
    match k case 0 => 1 case 1 => 2 case 2 => 4 case 3 => 8 case _ => 16
  }

  // ----- Encoding and decoding -----

  /** Zero bits needed to fill the last character for n bytes. */
  function Padding(n: nat): (p: nat)
    ensures p < 5 && (8 * n + p) % 5 == 0
  {
    (2 * n) % 5
  }

  function Encode(raw: seq<byte>): (s: string)
    ensures OverAlphabet(s)
  {
    FromSymbols(Pack(BitsToSymbol, 5, Unpack(ByteBits, raw) + Zeros(Padding(|raw|))))
  }

  function StringBits(s: string): seq<bool>
    requires OverAlphabet(s)
  {
    Unpack(SymbolBits, ToSymbols(s))
  }

  /** strkey/main.go's decodeString. */
  function DecodeString(s: string): (r: Result<seq<byte>, DecodeError>) {
    if |s| < 5 then Err(TooShort) else
    var leftoverBits := (|s| * 5) % 8;
    if leftoverBits >= 5 then Err(UnusedCharacter) else
    if leftoverBits > 0 && CharValue(s[|s| - 1]) % LeftoverModulus(leftoverBits) != 0 then Err(UnusedBitsSet) else
    if !OverAlphabet(s) then Err(CorruptInput) else
    Ok(Pack(BitsToByte, 8, StringBits(s)))
  }

  lemma StringBitsLength(s: string)
    requires OverAlphabet(s)
    ensures |StringBits(s)| == 5 * |s|
  {
    SymbolsAreSymbols();
    UnpackLength(SymbolBits, BitsToSymbol, 5, ToSymbols(s));
  }

  /** The first five bits are those of the first character. */
  lemma FirstSymbol(s: string)
    requires OverAlphabet(s) && s != ""
    ensures InAlphabet(s[0]) && CharValue(s[0]) >= 0
    ensures |StringBits(s)| >= 5 && StringBits(s)[..5] == SymbolBits(CharValue(s[0]))
  {
    CharOfValue(s[0]);
    hide SymbolBits;
    assert ToSymbols(s)[0] == CharValue(s[0]);
  }

  lemma SymbolOfBits(c: char, bits: seq<bool>)
    requires InAlphabet(c) && CharValue(c) >= 0 && bits == SymbolBits(CharValue(c))
    ensures forall x: Symbol :: bits == SymbolBits(x) ==> c == SymbolChar(x)
  {
    CharOfValue(c);
    SymbolRoundTrip(CharValue(c));
    forall x: Symbol | bits == SymbolBits(x)
      ensures c == SymbolChar(x)
    {
      SymbolRoundTrip(x);
    }
  }

  /** The last five bits are those of the last character. */
  lemma LastCharBits(s: string)
    requires OverAlphabet(s) && s != []
    ensures |StringBits(s)| == 5 * |s|
    ensures StringBits(s)[5 * |s| - 5..] == SymbolBits(ToSymbols(s)[|s| - 1])
  {
    StringBitsLength(s);
    var syms := ToSymbols(s);
    var init, last := syms[..|s| - 1], syms[|s| - 1];
    assert syms == init + [last];
    UnpackConcat(SymbolBits, init, [last]);
    assert Unpack(SymbolBits, [last]) == SymbolBits(last);
  }

  /** The check on the last character says whether the bits after the last whole byte are zero. */
  lemma LeftoverCheck(s: string)
    requires OverAlphabet(s) && s != [] && 5 * |s| % 8 < 5
    ensures |StringBits(s)| == 5 * |s|
    ensures var n, k := 5 * |s| / 8, 5 * |s| % 8;
      CharValue(s[|s| - 1]) % LeftoverModulus(k) == 0 <==> StringBits(s)[8 * n..] == Zeros(k)
  {
    var n, k := 5 * |s| / 8, 5 * |s| % 8;
    LastCharBits(s);
    CharOfValue(s[|s| - 1]);
    LowBits(ToSymbols(s)[|s| - 1], k);
    assert StringBits(s)[5 * |s| - 5..][5 - k..] == StringBits(s)[8 * n..];
  }

  /** decodeString accepts exactly the strings over the alphabet whose bits are whole bytes
      followed by at most four zeros. */
  lemma AcceptedBits(s: string, raw: seq<byte>)
    ensures DecodeString(s) == Ok(raw) <==>
      && |s| >= 5 && OverAlphabet(s) && |raw| == 5 * |s| / 8 && 5 * |s| % 8 < 5
      && StringBits(s) == Unpack(ByteBits, raw) + Zeros(5 * |s| % 8)
  {
    if |s| >= 5 && OverAlphabet(s) && 5 * |s| % 8 < 5 {
      var n, k := 5 * |s| / 8, 5 * |s| % 8;
      LeftoverCheck(s);
      hide CharValue, LeftoverModulus, StringBits;
      var body, tail := StringBits(s)[..8 * n], StringBits(s)[8 * n..];
      assert StringBits(s) == body + tail;
      DecodedBytes(body, tail, n, raw);
    }
  }

  lemma DecodedBytes(body: seq<bool>, tail: seq<bool>, n: nat, raw: seq<byte>)
    requires |body| == 8 * n && |tail| < 5
    ensures tail == Zeros(|tail|) ==>
      (Pack(BitsToByte, 8, body + tail) == raw <==> |raw| == n && body + tail == Unpack(ByteBits, raw) + Zeros(|tail|))
    ensures |raw| == n && body + tail == Unpack(ByteBits, raw) + Zeros(|tail|) ==> tail == Zeros(|tail|)
  {
    BytesAreSymbols();
    hide Symbols;
    UnpackPack(ByteBits, BitsToByte, 8, body, tail, n);
    if |raw| == n && body + tail == Unpack(ByteBits, raw) + Zeros(|tail|) {
      UnpackLength(ByteBits, BitsToByte, 8, raw);
      assert tail == (body + tail)[8 * n..] == Zeros(|tail|);
      assert body == (body + tail)[..8 * n] == Unpack(ByteBits, raw);
      PackUnpack(ByteBits, BitsToByte, 8, raw, tail);
    }
  }

  lemma EncodedBits(raw: seq<byte>)
    ensures StringBits(Encode(raw)) == Unpack(ByteBits, raw) + Zeros(Padding(|raw|))
    ensures 5 * |Encode(raw)| == 8 * |raw| + Padding(|raw|)
  {
    hide ByteBits, SymbolBits, BitsToSymbol;
    RawBitsLength(raw);
    var bits := Unpack(ByteBits, raw) + Zeros(Padding(|raw|));
    PackedBits(bits);
    var syms := Pack(BitsToSymbol, 5, bits);
    hide Pack, Unpack;
    assert ToSymbols(FromSymbols(syms)) == syms;
  }

  lemma RawBitsLength(raw: seq<byte>)
    ensures |Unpack(ByteBits, raw)| == 8 * |raw|
  {
    BytesAreSymbols();
    hide Symbols;
    UnpackLength(ByteBits, BitsToByte, 8, raw);
  }

  lemma PackedBits(bits: seq<bool>)
    requires |bits| % 5 == 0
    ensures var syms := Pack(BitsToSymbol, 5, bits); Unpack(SymbolBits, syms) == bits && 5 * |syms| == |bits|
  {
    SymbolsAreSymbols();
    hide Symbols;
    assert bits + [] == bits;
    UnpackPack(SymbolBits, BitsToSymbol, 5, bits, [], |bits| / 5);
  }

  lemma LeftoverBits(n: nat)
    ensures (n * 5) % 8 >= 5 <==> n % 8 == 1 || n % 8 == 3 || n % 8 == 6
  {
    var q, m := n / 8, n % 8;
    assert n * 5 == 8 * (5 * q) + 5 * m;
  }

  /** Which strings are refused for their length, and that the others over the alphabet are refused only for
      bits that should be zero. */
  lemma RefusedForExactly(s: string)
    ensures DecodeString(s) == Err(TooShort) <==> |s| < 5
    ensures DecodeString(s) == Err(UnusedCharacter) <==> |s| >= 5 && (|s| % 8 == 1 || |s| % 8 == 3 || |s| % 8 == 6)
    ensures DecodeString(s) == Err(CorruptInput) ==> !OverAlphabet(s)
    ensures !OverAlphabet(s) ==> DecodeString(s).Err?
  {
    LeftoverBits(|s|);
    hide Pack, StringBits, OverAlphabet, CharValue;
  }

  /** Decoding undoes encoding for every byte string long enough to hold a version and a checksum. */
  lemma DecodeEncode(raw: seq<byte>)
    requires |raw| >= 3
    ensures DecodeString(Encode(raw)) == Ok(raw)
  {
    hide Encode, DecodeString, StringBits, Unpack, Zeros, Padding;
    EncodedBits(raw);
    WholeBytes(|raw|, Padding(|raw|), |Encode(raw)|);
    AcceptedBits(Encode(raw), raw);
  }

  lemma WholeBytes(n: nat, p: nat, length: nat)
    requires n >= 3 && p < 5 && 5 * length == 8 * n + p
    ensures length >= 5 && 5 * length / 8 == n && 5 * length % 8 == p
  {
  }

  /** A decoded string is the one encoding of what it decodes to. */
  lemma EncodeDecode(s: string, raw: seq<byte>)
    requires DecodeString(s) == Ok(raw)
    ensures |raw| >= 3 && Encode(raw) == s
  {
    AcceptedBits(s, raw);
    assert Padding(|raw|) == 5 * |s| % 8;
    SymbolsAreSymbols();
    hide Symbols;
    var bits := StringBits(s);
    assert bits + [] == bits;
    PackUnpack(SymbolBits, BitsToSymbol, 5, ToSymbols(s), []);
    FromToSymbols(s);
  }
}
