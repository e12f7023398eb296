/** File names of a history archive: historyarchive/dirprefix.go, the path functions of util.go and
    the file-name patterns of archive.go. */
module ArchivePaths {
  import opened Checkpoints
  import opened Octets

  datatype Category = History | Ledger | Transactions | Results | Scp

  const CATEGORIES: seq<Category> := [History, Ledger, Transactions, Results, Scp]

  function Name(cat: Category): string {
    match cat
    case History => "history"
    case Ledger => "ledger"
    case Transactions => "transactions"
    case Results => "results"
    case Scp => "scp"
  }

  function Ext(cat: Category): string {
    if cat == History then "json" else "xdr.gz"
  }

  predicate Required(cat: Category) {
    cat != Scp
  }

  // ----- Hexadecimal numbers -----

  function HexDigit(d: int): (c: char)
    requires 0 <= d < 16
    ensures HexValue(c) == d
  {
    if d < 10 then (d + '0' as int) as char else (d - 10 + 'a' as int) as char
  }

  /** The value of a character of [0-9a-f], or -1. */
  function HexValue(c: char): (v: int)
    ensures -1 <= v < 16
  {
    if '0' <= c <= '9' then c as int - '0' as int
    else if 'a' <= c <= 'f' then c as int - 'a' as int + 10
    else -1
  }

  predicate IsHex(s: string) {
    forall i :: 0 <= i < |s| ==> HexValue(s[i]) >= 0
  }

  function Pow16(w: nat): nat {
    if w == 0 then 1 else 16 * Pow16(w - 1)
  }

  /** The low w hexadecimal digits of n. */
  function Hex(n: nat, w: nat): (s: string)
    ensures |s| == w && IsHex(s)
  {
    if w == 0 then "" else Hex(n / 16, w - 1) + [HexDigit(n % 16)]
  }

  function ParseHex(s: string): nat
    requires IsHex(s)
  {
    if s == "" then 0 else 16 * ParseHex(s[..|s| - 1]) + HexValue(s[|s| - 1])
  }

  lemma {:induction false} HexRoundTrip(n: nat, w: nat)
    requires n < Pow16(w)
    ensures ParseHex(Hex(n, w)) == n
  {
    if w > 0 {
      HexRoundTrip(n / 16, w - 1);
      assert Hex(n, w)[..w - 1] == Hex(n / 16, w - 1);
    }
  }

  lemma {:induction false} HexOfParsed(s: string)
    requires IsHex(s)
    ensures Hex(ParseHex(s), |s|) == s
  {
    if s != "" {
      var n := |s| - 1;
      HexOfParsed(s[..n]);
      DigitOfValue(s[n]);
      var q := ParseHex(s[..n]);
      assert (16 * q + HexValue(s[n])) / 16 == q && (16 * q + HexValue(s[n])) % 16 == HexValue(s[n]);
      assert s == s[..n] + [s[n]];
    }
  }

  lemma DigitOfValue(c: char)
    requires HexValue(c) >= 0
    ensures HexDigit(HexValue(c)) == c
  {
  }

  lemma HexInjective(a: nat, b: nat, w: nat)
    requires a < Pow16(w) && b < Pow16(w) && Hex(a, w) == Hex(b, w)
    ensures a == b
  {
    HexRoundTrip(a, w);
    HexRoundTrip(b, w);
  }

  // ----- Directory prefixes -----

  /** DirPrefix: three bytes, one per directory level. */
  type DirPrefix = d: seq<octet> | |d| == 3 witness [0, 0, 0]

  function CheckpointPrefix(s: uint32): DirPrefix {
    [s / 0x100_0000, s / 0x1_0000 % 0x100, s / 0x100 % 0x100]
  }

  /** The first n + 1 levels, at most all three. */
  function PathPrefix(d: DirPrefix, n: nat): (p: string)
    ensures |p| == if n <= 2 then 3 * n + 2 else 8
  {
    if n == 0 then Hex(d[0], 2)
    else if n == 1 then PathPrefix(d, 0) + "/" + Hex(d[1], 2)
    else PathPrefix(d, 1) + "/" + Hex(d[2], 2)
  }

  function DirPath(d: DirPrefix): (p: string)
    ensures |p| == 8
  {
    PathPrefix(d, |d|)
  }

  lemma PathPrefixIsPrefix(d: DirPrefix, n: nat)
    requires n <= 2
    ensures PathPrefix(d, n) <= DirPath(d)
  {
  }

  /** Directory paths agree on n + 1 levels exactly when the bytes do. */
  lemma PathPrefixInjective(d: DirPrefix, e: DirPrefix, n: nat)
    requires n <= 2
    ensures PathPrefix(d, n) == PathPrefix(e, n) <==> d[..n + 1] == e[..n + 1]
  {
    assert d[..1] == [d[0]] && d[..2] == [d[0], d[1]] && d[..3] == [d[0], d[1], d[2]];
    assert e[..1] == [e[0]] && e[..2] == [e[0], e[1]] && e[..3] == [e[0], e[1], e[2]];
    var p, q := PathPrefix(d, n), PathPrefix(e, n);
    if p == q {
      SameLevel(d, e, n, 0);
      if n >= 1 { SameLevel(d, e, n, 1); }
      if n >= 2 { SameLevel(d, e, n, 2); }
    }
  }

  lemma SameLevel(d: DirPrefix, e: DirPrefix, n: nat, i: nat)
    requires i <= n <= 2 && PathPrefix(d, n) == PathPrefix(e, n)
    ensures d[i] == e[i]
  {
    LevelText(d, n, i);
    LevelText(e, n, i);
    assert Pow16(2) == 256;
    HexInjective(d[i], e[i], 2);
  }

  lemma LevelText(d: DirPrefix, n: nat, i: nat)
    requires i <= n <= 2
    ensures PathPrefix(d, n)[3 * i..3 * i + 2] == Hex(d[i], 2)
  {
    if i < n {
      LevelText(d, n - 1, i);
    }
  }

  // ----- Range paths -----

  /** The first level at which two prefixes differ, or the last level. */
  function DiffLevel(low: DirPrefix, high: DirPrefix): (diff: nat)
    ensures diff <= 2 && low[..diff] == high[..diff]
    ensures diff < 2 ==> low[diff] != high[diff]
  {
    if low[0] != high[0] then 0 else if low[1] != high[1] then 1 else 2
  }

  /** Where the paths of a range start, the level they enumerate, and the last byte there. */
  function Base(r: Range): DirPrefix {
    CheckpointPrefix(r.low)
  }

  function Level(r: Range): (n: nat)
    ensures n <= 2
  {
    DiffLevel(CheckpointPrefix(r.low), CheckpointPrefix(r.high))
  }

  function First(r: Range): octet {
    Base(r)[Level(r)]
  }

  function Last(r: Range): octet {
    CheckpointPrefix(r.high)[Level(r)]
  }

  function RangePathAt(r: Range, x: octet): string {
    PathPrefix(Base(r)[Level(r) := x], Level(r))
  }

  function RangePathList(r: Range): (list: seq<string>)
    ensures |list| == if First(r) <= Last(r) then Last(r) - First(r) + 1 else 0
    ensures forall k :: 0 <= k < |list| ==> list[k] == RangePathAt(r, First(r) + k)
  {
    if First(r) > Last(r) then []
    else seq(Last(r) - First(r) + 1, k requires 0 <= k < Last(r) - First(r) + 1 => RangePathAt(r, First(r) + k))
  }

  /** The first loop of RangePaths. */
  method FirstDifference(lowpre: DirPrefix, highpre: DirPrefix) returns (diff: nat)
    ensures diff == DiffLevel(lowpre, highpre)
  {
    diff := 0;
    for i := 0 to 3
      invariant diff == if i == 0 then 0 else i - 1
      invariant lowpre[..i] == highpre[..i]
    {
      diff := i;
      if highpre[i] != lowpre[i] {
        break;
      }
    }
  }

  /** RangePaths: the directories to walk to enumerate a range. */
  method RangePaths(r: Range) returns (res: seq<string>)
    ensures res == RangePathList(r)
  {
    hide CheckpointPrefix, PathPrefix, DiffLevel;
    var lowpre, highpre := CheckpointPrefix(r.low), CheckpointPrefix(r.high);
    var diff := FirstDifference(lowpre, highpre);
    res := [];
    var tmp: DirPrefix := lowpre;
    var i: int := lowpre[diff];
    while i <= highpre[diff]
      invariant First(r) <= i && i - First(r) <= |RangePathList(r)|
      invariant tmp == lowpre[diff := tmp[diff]]
      invariant res == RangePathList(r)[..i - First(r)]
    {
      tmp := tmp[diff := i];
      assert tmp == lowpre[diff := i];
      res := res + [PathPrefix(tmp, diff)];
      i := i + 1;
    }
  }

  function Upper24(d: DirPrefix): int {
    var a: int, b: int, c: int := d[0], d[1], d[2];
    0x1_0000 * a + 0x100 * b + c
  }

  /** The three levels are the upper 24 bits of the number. */
  lemma Levels(n: uint32)
    ensures n / 0x100 == Upper24(CheckpointPrefix(n))
  {
    var m := n / 0x100;
    assert n / 0x1_0000 == m / 0x100 && n / 0x100_0000 == m / 0x1_0000;
    assert m / 0x1_0000 == m / 0x100 / 0x100;
  }

  /** Every number of the range shares the levels above the enumerated one and lies between the
      bounds there. */
  lemma OrderedAtLevel(r: Range, n: uint32)
    requires r.low <= n <= r.high
    ensures var p := CheckpointPrefix(n);
      p[..Level(r)] == Base(r)[..Level(r)] && First(r) <= p[Level(r)] <= Last(r)
  {
    Levels(r.low);
    Levels(r.high);
    Levels(n);
    assert r.low / 0x100 <= n / 0x100 <= r.high / 0x100;
    hide CheckpointPrefix;
    Lexicographic(CheckpointPrefix(r.low), CheckpointPrefix(r.high), CheckpointPrefix(n));
  }

  lemma Lexicographic(l: DirPrefix, h: DirPrefix, p: DirPrefix)
    requires Upper24(l) <= Upper24(p) <= Upper24(h)
    ensures var diff := DiffLevel(l, h); p[..diff] == l[..diff] && l[diff] <= p[diff] <= h[diff]
  {
    if l[0] == h[0] {
      assert p[0] == l[0];
    }
    if l[0] == h[0] && l[1] == h[1] {
      assert p[1] == l[1];
    }
  }

  /** A path that shares the levels above n is an ancestor exactly if it has p's byte there. */
  lemma AncestorAt(l: DirPrefix, p: DirPrefix, n: nat, x: octet)
    requires n <= 2 && p[..n] == l[..n]
    ensures PathPrefix(l[n := x], n) <= DirPath(p) <==> x == p[n]
  {
    var d: DirPrefix := l[n := x];
    PathPrefixIsPrefix(p, n);
    hide PathPrefix, DirPath;
    PathPrefixInjective(d, p, n);
    assert d[..n] == l[..n];
    assert d[..n + 1] == l[..n] + [x] && p[..n + 1] == l[..n] + [p[n]];
    assert d[..n + 1] == p[..n + 1] <==> x == p[n] by {
      assert (l[..n] + [x])[n] == x && (l[..n] + [p[n]])[n] == p[n];
    }
    SamePrefix(PathPrefix(d, n), PathPrefix(p, n), DirPath(p));
  }

  lemma SamePrefix(a: string, b: string, s: string)
    requires |a| == |b| && b <= s
    ensures a <= s <==> a == b
  {
  }

  /** The directory of a number in the range lies below exactly one of the range's paths. */
  lemma RangePathsPartition(r: Range, n: uint32) returns (k: nat)
    requires r.low <= n <= r.high
    ensures First(r) <= Last(r) && k < |RangePathList(r)|
    ensures forall j :: 0 <= j < |RangePathList(r)| ==> (RangePathList(r)[j] <= DirPath(CheckpointPrefix(n)) <==> j == k)
  {
    hide CheckpointPrefix, PathPrefix, DirPath, DiffLevel;
    OrderedAtLevel(r, n);
    k := CheckpointPrefix(n)[Level(r)] - First(r);
    forall j | 0 <= j < |RangePathList(r)|
      ensures RangePathList(r)[j] <= DirPath(CheckpointPrefix(n)) <==> j == k
    {
      AncestorAt(Base(r), CheckpointPrefix(n), Level(r), First(r) + j);
    }
  }
}
