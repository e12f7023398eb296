/** Sequences of fixed-width symbols read as one string of bits, and cut back into symbols. */
module Bits {
  type byte = bv8

  /** The bits of a byte, most significant first. */
  function ByteBits(b: byte): (bits: seq<bool>)
    ensures |bits| == 8
  {
    [b & 0x80 != 0, b & 0x40 != 0, b & 0x20 != 0, b & 0x10 != 0, b & 8 != 0, b & 4 != 0, b & 2 != 0, b & 1 != 0]
  }

  function Mask(bit: bool, m: byte): byte {
    if bit then m else 0
  }

  function BitsToByte(bits: seq<bool>): byte {
    if |bits| != 8 then 0 else
    Mask(bits[0], 0x80) | Mask(bits[1], 0x40) | Mask(bits[2], 0x20) | Mask(bits[3], 0x10) |
    Mask(bits[4], 8) | Mask(bits[5], 4) | Mask(bits[6], 2) | Mask(bits[7], 1)
  }

  lemma ByteBitsRoundTrip(b: byte)
    ensures BitsToByte(ByteBits(b)) == b
  {
  }

  lemma HighNibble(bits: seq<bool>)
    requires |bits| == 8
    ensures var b := BitsToByte(bits);
      && (b & 0x80 != 0) == bits[0] && (b & 0x40 != 0) == bits[1]
      && (b & 0x20 != 0) == bits[2] && (b & 0x10 != 0) == bits[3]
  {
  }

  lemma LowNibble(bits: seq<bool>)
    requires |bits| == 8
    ensures var b := BitsToByte(bits);
      && (b & 8 != 0) == bits[4] && (b & 4 != 0) == bits[5]
      && (b & 2 != 0) == bits[6] && (b & 1 != 0) == bits[7]
  {
  }

  lemma BitsToByteRoundTrip(bits: seq<bool>)
    requires |bits| == 8
    ensures ByteBits(BitsToByte(bits)) == bits
  {
    HighNibble(bits);
    LowNibble(bits);
    hide BitsToByte;
  }

  function Zeros(n: nat): (z: seq<bool>)
    ensures |z| == n
  {
    seq(n, _ => false)
  }

  function Xor(a: seq<bool>, b: seq<bool>): (c: seq<bool>)
    requires |a| == |b|
    ensures |c| == |a|
  {
    seq(|a|, i requires 0 <= i < |a| => a[i] != b[i])
  }

  lemma XorConcat(a: seq<bool>, b: seq<bool>, a': seq<bool>, b': seq<bool>)
    requires |a| == |b| && |a'| == |b'|
    ensures Xor(a + a', b + b') == Xor(a, b) + Xor(a', b')
  {
  }

  function ByteMask(k: nat): byte
    requires k < 8
  {
    match k
    case 0 => 0x80 case 1 => 0x40 case 2 => 0x20 case 3 => 0x10
    case 4 => 8 case 5 => 4 case 6 => 2 case _ => 1
  }

  lemma ByteBitAt(b: byte, k: nat)
    requires k < 8
    ensures ByteBits(b)[k] == (b & ByteMask(k) != 0)
  {
  }

  lemma ByteXorAt(a: byte, b: byte, k: nat)
    requires k < 8
    ensures ((a ^ b) & ByteMask(k) != 0) == ((a & ByteMask(k) != 0) != (b & ByteMask(k) != 0))
  {
  }

  lemma ByteXorBits(a: byte, b: byte)
    ensures ByteBits(a ^ b) == Xor(ByteBits(a), ByteBits(b))
  {
    hide ByteBits, ByteMask;
    forall k: nat | k < 8
      ensures ByteBits(a ^ b)[k] == (ByteBits(a)[k] != ByteBits(b)[k])
    {
      ByteBitAt(a, k);
      ByteBitAt(b, k);
      ByteBitAt(a ^ b, k);
      ByteXorAt(a, b, k);
    }
  }

  // ----- Symbols of width w -----

  /** enc writes every symbol as w bits and dec reads them back. */
  ghost predicate Symbols<T(!new)>(enc: T -> seq<bool>, dec: seq<bool> -> T, w: nat) {
    && w > 0
    && (forall x :: |enc(x)| == w && dec(enc(x)) == x)
    && (forall bits :: |bits| == w ==> enc(dec(bits)) == bits)
  }

  function Unpack<T>(enc: T -> seq<bool>, s: seq<T>): seq<bool> {
    if s == [] then [] else enc(s[0]) + Unpack(enc, s[1..])
  }

  /** Cut the bits into symbols of width w; bits left over at the end are dropped. */
  function Pack<T>(dec: seq<bool> -> T, w: nat, bits: seq<bool>): seq<T>
    requires w > 0
  {
    if |bits| < w then [] else [dec(bits[..w])] + Pack(dec, w, bits[w..])
  }

  lemma {:induction false} UnpackLength<T(!new)>(enc: T -> seq<bool>, dec: seq<bool> -> T, w: nat, s: seq<T>)
    requires Symbols(enc, dec, w)
    ensures |Unpack(enc, s)| == w * |s|
  {
    if s != [] {
      UnpackLength(enc, dec, w, s[1..]);
      assert w * |s| == w + w * |s[1..]|;
    }
  }

  lemma {:induction false} PackUnpack<T(!new)>(enc: T -> seq<bool>, dec: seq<bool> -> T, w: nat, s: seq<T>, rest: seq<bool>)
    requires Symbols(enc, dec, w) && |rest| < w
    ensures Pack(dec, w, Unpack(enc, s) + rest) == s
  {
    if s != [] {
      var tail := Unpack(enc, s[1..]);
      PackUnpack(enc, dec, w, s[1..], rest);
      assert Unpack(enc, s) == enc(s[0]) + tail;
      PackMore(dec, w, enc(s[0]), tail + rest);
      assert Unpack(enc, s) + rest == enc(s[0]) + (tail + rest);
      assert s == [s[0]] + s[1..];
    } else {
      assert Unpack(enc, s) + rest == rest;
    }
  }

  lemma PackMore<T>(dec: seq<bool> -> T, w: nat, first: seq<bool>, bits: seq<bool>)
    requires w > 0 && |first| == w
    ensures Pack(dec, w, first + bits) == [dec(first)] + Pack(dec, w, bits)
  {
    assert (first + bits)[..w] == first && (first + bits)[w..] == bits;
  }

  lemma {:induction false} UnpackPack<T(!new)>(enc: T -> seq<bool>, dec: seq<bool> -> T, w: nat, bits: seq<bool>, rest: seq<bool>, n: nat)
    requires Symbols(enc, dec, w) && |rest| < w
    requires |bits| == w * n
    ensures |Pack(dec, w, bits + rest)| == n
    ensures Unpack(enc, Pack(dec, w, bits + rest)) == bits
  {
    if n == 0 {
      assert bits == [];
    } else {
      assert |bits[w..]| == w * (n - 1) by { assert w * n == w + w * (n - 1); }
      UnpackPack(enc, dec, w, bits[w..], rest, n - 1);
      PackFirst(enc, dec, w, bits, rest);
    }
  }

  lemma PackFirst<T(!new)>(enc: T -> seq<bool>, dec: seq<bool> -> T, w: nat, bits: seq<bool>, rest: seq<bool>)
    requires Symbols(enc, dec, w) && |bits| >= w
    ensures Pack(dec, w, bits + rest) == [dec(bits[..w])] + Pack(dec, w, bits[w..] + rest)
    ensures Unpack(enc, Pack(dec, w, bits + rest)) == bits[..w] + Unpack(enc, Pack(dec, w, bits[w..] + rest))
  {
    assert (bits + rest)[..w] == bits[..w];
    assert (bits + rest)[w..] == bits[w..] + rest;
    var tail := Pack(dec, w, bits[w..] + rest);
    assert ([dec(bits[..w])] + tail)[1..] == tail;
  }

  lemma {:induction false} UnpackConcat<T>(enc: T -> seq<bool>, a: seq<T>, b: seq<T>)
    ensures Unpack(enc, a + b) == Unpack(enc, a) + Unpack(enc, b)
  {
    if a == [] {
      assert a + b == b;
    } else {
      UnpackConcat(enc, a[1..], b);
      assert (a + b)[1..] == a[1..] + b;
    }
  }

  lemma BytesAreSymbols()
    ensures Symbols(ByteBits, BitsToByte, 8)
  {
    forall b: byte
      ensures BitsToByte(ByteBits(b)) == b
    {
      ByteBitsRoundTrip(b);
    }
    forall bits: seq<bool> | |bits| == 8
      ensures ByteBits(BitsToByte(bits)) == bits
    {
      BitsToByteRoundTrip(bits);
    }
  }
}
