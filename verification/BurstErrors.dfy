/** What the checksum detects, on bit strings: the data bits, then the checksum with its two bytes
    swapped, as a strkey carries it. */
module BurstErrors {
  import opened Bits
  import opened Crc16

  /** The last sixteen bits hold the checksum of the rest, low byte first. */
  ghost predicate Codeword(bits: seq<bool>) {
    |bits| >= 16 &&
    var n := |bits| - 16;
    Crc(bits[..n]) == bits[n + 8..] + bits[n..n + 8]
  }

  lemma CodewordsLinear(a: seq<bool>, b: seq<bool>)
    requires |a| == |b| && Codeword(a) && Codeword(b)
    ensures Codeword(Xor(a, b))
  {
    var n := |a| - 16;
    CrcLinear(a[..n], b[..n]);
    assert Xor(a, b)[..n] == Xor(a[..n], b[..n]);
    assert Xor(a, b)[n + 8..] + Xor(a, b)[n..n + 8] == Xor(a[n + 8..] + a[n..n + 8], b[n + 8..] + b[n..n + 8]);
  }

  lemma ShiftInjective(r: seq<bool>)
    requires |r| == 16 && Shift(r) == Zeros(16)
    ensures r == Zeros(16)
  {
    assert Shift(r)[15] == r[0];
    assert Shift(r) == r[1..] + [false];
    forall i | 1 <= i < 16
      ensures !r[i]
    {
      assert Shift(r)[i - 1] == r[i];
    }
  }

  lemma {:induction false} ShiftByInjective(r: seq<bool>, n: nat)
    requires |r| == 16 && ShiftBy(r, n) == Zeros(16)
    ensures r == Zeros(16)
    decreases n
  {
    if n > 0 {
      ShiftByInjective(Shift(r), n - 1);
      ShiftInjective(r);
    }
  }

  lemma {:induction false} FeedZeros(r: seq<bool>, n: nat)
    requires |r| == 16
    ensures Feed(r, Zeros(n)) == ShiftBy(r, n)
    decreases n
  {
    if n > 0 {
      assert Zeros(n)[1..] == Zeros(n - 1);
      assert r[0 := r[0] != false] == r;
      FeedZeros(Shift(r), n - 1);
    }
  }

  /** Zeros in front of a bit string do not change its checksum. */
  lemma LeadingZeros(n: nat, bits: seq<bool>)
    ensures Crc(Zeros(n) + bits) == Crc(bits)
  {
    FeedConcat(Zeros(16), Zeros(n), bits);
    FeedZeros(Zeros(16), n);
    ShiftZeros(n);
  }

  /** The checksum of a burst of at most sixteen bits, wherever it stands, is zero only if the
      burst is. */
  lemma BurstHasChecksum(before: nat, burst: seq<bool>, after: nat)
    requires |burst| <= 16
    requires Crc(Zeros(before) + burst + Zeros(after)) == Zeros(16)
    ensures burst == Zeros(|burst|)
  {
    var pad := Zeros(16 - |burst|);
    assert Zeros(before) + burst + Zeros(after) == Zeros(before) + (burst + Zeros(after));
    LeadingZeros(before, burst + Zeros(after));
    FeedConcat(Zeros(16), burst, Zeros(after));
    FeedZeros(Crc(burst), after);
    ShiftByInjective(Crc(burst), after);
    FeedAtTop(Zeros(16), burst);
    assert Xor(Zeros(16), burst + pad) == burst + pad;
    ShiftByInjective(burst + pad, |burst|);
    assert burst == (burst + pad)[..|burst|] == Zeros(|burst|);
  }

  /** Appending a register to a bit string makes the checksum zero exactly if it is the bit string's. */
  lemma ChecksumAppended(bits: seq<bool>, r: seq<bool>)
    requires |r| == 16
    ensures Crc(bits + r) == Zeros(16) <==> Crc(bits) == r
  {
    var c := Crc(bits);
    FeedConcat(Zeros(16), bits, r);
    FeedAtTop(c, r);
    assert r + Zeros(0) == r;
    hide Crc, Feed, ShiftBy;
    if Crc(bits + r) == Zeros(16) {
      ShiftByInjective(Xor(c, r), 16);
      forall i | 0 <= i < 16
        ensures c[i] == r[i]
      {
        assert !Xor(c, r)[i];
      }
    } else if c == r {
      assert Xor(c, r) == Zeros(16);
      ShiftZeros(16);
    }
  }

  // ----- The checksum of four bits -----

  /** Three copies of the bits: q times x^12 + x^5 + 1. */
  ghost function Copies(q: seq<bool>): (r: seq<bool>)
    requires |q| == 4
    ensures |r| == 16
  {
    q + Zeros(3) + q + Zeros(1) + q
  }

  /** After k shifts of the bits at the top of the register: they have turned by k places, and the first k
      of them have entered at the middle and at the end. */
  ghost predicate Turned(q: seq<bool>, k: nat, r: seq<bool>) {
    && |q| == 4 && k <= 4 && |r| == 16
    && (forall i :: 0 <= i < 4 ==> r[i] == if i + k < 4 then q[i + k] else q[i + k - 4])
    && (forall i :: 4 <= i < 11 ==> r[i] == (11 - k <= i && q[i - 11 + k]))
    && (forall i :: 11 <= i < 16 ==> r[i] == (16 - k <= i && q[i - 16 + k]))
  }

  lemma TurnedOnce(q: seq<bool>, k: nat, r: seq<bool>)
    requires k < 4 && Turned(q, k, r)
    ensures Turned(q, k + 1, Shift(r))
  {
    assert r[0] == q[k];
    forall i | 0 <= i < 16
      ensures Shift(r)[i] == if i == 15 then r[0] else if i == 3 || i == 10 then r[i + 1] != r[0] else r[i + 1]
    {
      assert POLYNOMIAL[i] <==> i == 3 || i == 10 || i == 15;
    }
    hide Shift;
  }

  lemma FourBits(q: seq<bool>)
    requires |q| == 4
    ensures Crc(q) == Copies(q)
  {
    var r := q + Zeros(12);
    FeedAtTop(Zeros(16), q);
    assert Xor(Zeros(16), r) == r;
    assert Turned(q, 0, r);
    assert ShiftBy(r, 4) == Shift(Shift(Shift(Shift(r))));
    hide Crc, Shift, ShiftBy, Turned;
    TurnedOnce(q, 0, r);
    TurnedOnce(q, 1, Shift(r));
    TurnedOnce(q, 2, Shift(Shift(r)));
    TurnedOnce(q, 3, Shift(Shift(Shift(r))));
    TurnedFully(q, Crc(q));
  }

  lemma TurnedFully(q: seq<bool>, r: seq<bool>)
    requires Turned(q, 4, r)
    ensures r == Copies(q)
  {
  }

  /** Eight zeros anywhere in the bits followed by their three copies, but not only in front, meet each
      of the bits. */
  lemma EightZeros(q: seq<bool>, at: nat)
    requires |q| == 4 && 4 <= at <= 11
    requires (q + Copies(q))[at..at + 8] == Zeros(8)
    ensures q == Zeros(4)
  {
    var t := q + Copies(q);
    forall i | 0 <= i < 4
      ensures !q[i]
    {
      assert t[4 + i] == t[11 + i] == q[i];
      if at <= 4 + i {
        assert t[at..at + 8][4 + i - at] == t[4 + i];
      } else {
        assert t[at..at + 8][11 + i - at] == t[11 + i];
      }
    }
  }

  // ----- Windows -----

  /** Two different codewords cannot differ only inside a window of twelve bits. */
  lemma WindowDetected(e: seq<bool>, at: nat)
    requires Codeword(e) && at + 12 <= |e|
    requires e[..at] == Zeros(at) && e[at + 12..] == Zeros(|e| - at - 12)
    ensures e == Zeros(|e|)
  {
    var n := |e| - 16;
    if at >= n {
      assert e[..n] == e[..at][..n] == Zeros(n);
      OnlyChecksum(e);
    } else if at + 12 <= n {
      InsideData(e, at);
    } else if n - at < 4 {
      FewDataBits(e, at);
    } else {
      ManyDataBits(e, at);
    }
  }

  lemma OnlyChecksum(e: seq<bool>)
    requires Codeword(e) && e[..|e| - 16] == Zeros(|e| - 16)
    ensures e == Zeros(|e|)
  {
    var n := |e| - 16;
    var data, low, high := e[..n], e[n..n + 8], e[n + 8..];
    ChecksumOfZeros(n);
    hide Crc;
    assert high + low == Zeros(16);
    assert high == (high + low)[..8] && low == (high + low)[8..];
    assert e == data + low + high;
  }

  lemma ChecksumOfZeros(n: nat)
    ensures Crc(Zeros(n)) == Zeros(16)
  {
    LeadingZeros(n, []);
    assert Zeros(n) + [] == Zeros(n);
  }

  lemma InsideData(e: seq<bool>, at: nat)
    requires Codeword(e) && at + 12 <= |e| - 16
    requires e[..at] == Zeros(at) && e[at + 12..] == Zeros(|e| - at - 12)
    ensures e == Zeros(|e|)
  {
    var n := |e| - 16;
    var burst := e[at..at + 12];
    ZerosAround(e, at, n);
    assert Crc(e[..n]) == Zeros(16);
    hide Crc, Codeword;
    BurstHasChecksum(at, burst, n - at - 12);
    assert e == e[..at] + burst + e[at + 12..];
  }

  lemma ZerosAround(e: seq<bool>, at: nat, n: nat)
    requires |e| == n + 16 && at + 12 <= n
    requires e[..at] == Zeros(at) && e[at + 12..] == Zeros(|e| - at - 12)
    ensures e[n + 8..] + e[n..n + 8] == Zeros(16)
    ensures e[..n] == Zeros(at) + e[at..at + 12] + Zeros(n - at - 12)
  {
    forall i | at + 12 <= i < |e|
      ensures !e[i]
    {
      assert e[i] == e[at + 12..][i - at - 12];
    }
    assert e[..n] == e[..at] + e[at..at + 12] + e[at + 12..n];
    assert e[at + 12..n] == Zeros(n - at - 12);
  }

  /** Fewer than four data bits and the first checksum bits: the data bits appear unchanged at the end
      of the high byte's first half, past the window. */
  lemma FewDataBits(e: seq<bool>, at: nat)
    requires Codeword(e) && |e| - 20 < at < |e| - 16
    requires e[..at] == Zeros(at) && e[at + 12..] == Zeros(|e| - at - 12)
    ensures e == Zeros(|e|)
  {
    var n := |e| - 16;
    var tail, low, high := e[at..n], e[n..n + 8], e[n + 8..];
    var j := n - at;
    var q := Zeros(4 - j) + tail;
    assert e[..n] == Zeros(at) + tail;
    LeadingZeros(at, tail);
    LeadingZeros(4 - j, tail);
    FourBits(q);
    hide Crc;
    assert Crc(q) == high + low;
    assert high[..4] == (high + low)[..4] == q;
    forall i | 0 <= i < j
      ensures !tail[i]
    {
      assert tail[i] == q[4 - j + i] == high[4 - j + i] == e[at + 12..][i];
    }
    assert tail == Zeros(j);
    OnlyChecksum(e);
  }

  /** More data bits: with the register's order the high byte, all zeros, stands between them and the rest
      of the window, and the whole is divisible by the generator with a quotient of four bits, which the
      zeros then meet. */
  lemma ManyDataBits(e: seq<bool>, at: nat)
    requires Codeword(e) && |e| - 28 < at <= |e| - 20
    requires e[..at] == Zeros(at) && e[at + 12..] == Zeros(|e| - at - 12)
    ensures e == Zeros(|e|)
  {
    var n := |e| - 16;
    var tail, low, high := e[at..n], e[n..n + 8], e[n + 8..];
    var j := n - at;
    var t := tail + high + low[..12 - j];
    assert high == e[at + 12..][n + 8 - at - 12..] == Zeros(8);
    assert low[12 - j..] == e[at + 12..][..j - 4] == Zeros(j - 4);
    assert tail + (high + low) == t + Zeros(j - 4);
    assert e[..n] == Zeros(at) + tail;
    LeadingZeros(at, tail);
    ChecksumAppended(tail, high + low);
    DroppedZeros(t, j - 4);
    hide Crc;
    var q := t[..4];
    assert t == q + t[4..];
    ChecksumAppended(q, t[4..]);
    FourBits(q);
    assert t[j..j + 8] == high == Zeros(8);
    EightZeros(q, j);
    assert t == Zeros(20);
    assert tail == t[..j] == Zeros(j);
    OnlyChecksum(e);
  }

  lemma DroppedZeros(t: seq<bool>, n: nat)
    requires Crc(t + Zeros(n)) == Zeros(16)
    ensures Crc(t) == Zeros(16)
  {
    FeedConcat(Zeros(16), t, Zeros(n));
    FeedZeros(Crc(t), n);
    ShiftByInjective(Crc(t), n);
  }

  /** Thirteen bits are too many: the codeword 100, 10000100, 01000000. */
  lemma WindowOfThirteen() returns (e: seq<bool>)
    ensures Codeword(e) && |e| == 19 && e[13..] == Zeros(6) && e != Zeros(19)
  {
    var z, o := false, true;
    var data := [o, z, z];
    var low, high := [o, z, z, z, z, o, z, z], [z, o, z, z, z, z, z, z];
    e := data + low + high;
    LeadingZeros(1, data);
    assert Zeros(1) + data == [z, o, z, z];
    FourBits([z, o, z, z]);
    hide Crc;
    assert Copies([z, o, z, z]) == high + low;
    assert e[..3] == data && e[3..11] == low && e[11..] == high;
    assert e[0];
  }
}
