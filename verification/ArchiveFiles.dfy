/** Full file names in an archive, and how a listing reads them back: CategoryCheckpointPath and
    BucketPath in util.go, the patterns of ListCategoryCheckpoints and ListAllBucketHashes in
    archive.go. */
module ArchiveFiles {
  import opened ArchivePaths
  import opened Checkpoints
  import opened Octets
  import opened Wrappers

  type Hash = h: seq<octet> | |h| == 32 witness seq(32, _ => 0)

  // ----- Checkpoint files -----

  function CheckpointPath(cat: Category, chk: uint32): string {
    Name(cat) + "/" + DirPath(CheckpointPrefix(chk)) + "/" + Name(cat) + "-" + Hex(chk, 8) + "." + Ext(cat)
  }

  /** The pattern /[0-9a-f]{2}/[0-9a-f]{2}/[0-9a-f]{2}/ */
  predicate IsDirPattern(s: string) {
    && |s| == 10
    && s[0] == s[3] == s[6] == s[9] == '/'
    && IsHex(s[1..3]) && IsHex(s[4..6]) && IsHex(s[7..9])
  }

  /** The number that the file-name pattern of a category captures. The pattern is anchored at the
      end of the name only. */
  function ParseCheckpoint(cat: Category, f: string): (r: Option<uint32>) {
    var name, ext := Name(cat), Ext(cat);
    var p, length := |name|, 2 * |name| + 20 + |ext|;
    if |f| < length then None else
    var t := f[|f| - length..];
    if && t[..p] == name && IsDirPattern(t[p..p + 10])
       && t[p + 10..2 * p + 10] == name && t[2 * p + 10] == '-'
       && IsHex(t[2 * p + 11..2 * p + 19])
       && t[2 * p + 19] == '.' && t[2 * p + 20..] == ext
    then
      EightDigits(t[2 * p + 11..2 * p + 19]);
      Some(ParseHex(t[2 * p + 11..2 * p + 19]))
    else None
  }

  lemma {:induction false} ParseHexBound(s: string)
    requires IsHex(s)
    ensures ParseHex(s) < Pow16(|s|)
  {
    if s != "" {
      ParseHexBound(s[..|s| - 1]);
    }
  }

  lemma EightDigits(s: string)
    requires IsHex(s) && |s| == 8
    ensures ParseHex(s) <= MAX_UINT32
  {
    ParseHexBound(s);
    PowersOf16();
  }

  lemma PowersOf16()
    ensures Pow16(2) == 0x100 && Pow16(8) == 0x1_0000_0000
  {
    assert Pow16(4) == 0x1_0000;
  }

  /** The pieces of a checkpoint file's name. */
  lemma CheckpointPathParts(cat: Category, chk: uint32)
    ensures var f, p, e := CheckpointPath(cat, chk), |Name(cat)|, |Ext(cat)|;
      && |f| == 2 * p + 20 + e
      && f[..p] == Name(cat) && f[p] == '/' && f[p + 1..p + 9] == DirPath(CheckpointPrefix(chk)) && f[p + 9] == '/'
      && f[p + 10..2 * p + 10] == Name(cat) && f[2 * p + 10] == '-'
      && f[2 * p + 11..2 * p + 19] == Hex(chk, 8)
      && f[2 * p + 19] == '.' && f[2 * p + 20..] == Ext(cat)
  {
    hide Name, Ext, DirPath, Hex;
  }

  lemma DirPathPattern(d: DirPrefix)
    ensures IsDirPattern("/" + DirPath(d) + "/")
  {
    var s := "/" + DirPath(d) + "/";
    LevelText(d, 2, 0);
    LevelText(d, 2, 1);
    LevelText(d, 2, 2);
    assert DirPath(d) == PathPrefix(d, 2);
    assert s[1..3] == DirPath(d)[0..2] && s[4..6] == DirPath(d)[3..5] && s[7..9] == DirPath(d)[6..8];
    assert DirPath(d)[2] == '/' && DirPath(d)[5] == '/';
  }

  /** Reading a name back inverts building it. */
  lemma ParseCheckpointPath(cat: Category, chk: uint32)
    ensures ParseCheckpoint(cat, CheckpointPath(cat, chk)) == Some(chk)
  {
    hide CheckpointPath, Name, Ext, DirPath, Hex, IsDirPattern;
    CheckpointPathParts(cat, chk);
    DirPathPattern(CheckpointPrefix(chk));
    var f, p := CheckpointPath(cat, chk), |Name(cat)|;
    DirPart(f, p, DirPath(CheckpointPrefix(chk)));
    PowersOf16();
    HexRoundTrip(chk, 8);
    assert f[|f| - |f|..] == f;
  }

  lemma DirPart(f: string, p: nat, dir: string)
    requires p + 10 <= |f| && f[p] == '/' && f[p + 1..p + 9] == dir && f[p + 9] == '/'
    ensures f[p..p + 10] == "/" + dir + "/"
  {
    assert f[p..p + 10] == [f[p]] + f[p + 1..p + 9] + [f[p + 9]];
  }

  /** What tells the categories' file names apart: the extension, and the last two letters before
      the number. */
  ghost predicate EndsLike(cat: Category, f: string) {
    && |f| >= 18
    && (f[|f| - 1] == 'n' <==> cat == History)
    && (cat != History ==> f[|f| - 18..|f| - 16] == Name(cat)[|Name(cat)| - 2..])
  }

  lemma NameLengths(cat: Category)
    ensures 3 <= |Name(cat)| <= 12
    ensures |Ext(cat)| == if cat == History then 4 else 6
    ensures Ext(cat)[|Ext(cat)| - 1] == if cat == History then 'n' else 'z'
  {
  }

  lemma SliceOfSlice(f: string, start: nat, i: nat, j: nat, k: nat)
    requires start <= |f| && i + k <= j <= |f| - start
    ensures f[start..][i..j][k..] == f[start + i + k..start + j]
  {
  }

  /** The end of a file name that ends in a number between a name and an extension. */
  lemma EndOf(f: string, name: string, ext: string)
    requires |name| >= 3 && |ext| >= 1 && |f| >= 2 * |name| + 20 + |ext|
    requires var t := f[|f| - (2 * |name| + 20 + |ext|)..];
      t[2 * |name| + 20..] == ext && t[|name| + 10..2 * |name| + 10] == name
    ensures f[|f| - 1] == ext[|ext| - 1]
    ensures |ext| == 6 ==> f[|f| - 18..|f| - 16] == name[|name| - 2..]
  {
    var p, e := |name|, |ext|;
    var start := |f| - (2 * p + 20 + e);
    assert f[|f| - 1] == f[start..][2 * p + 20..][e - 1];
    if e == 6 {
      SliceOfSlice(f, start, p + 10, 2 * p + 10, p - 2);
    }
  }

  lemma ParsedEnd(cat: Category, f: string)
    requires ParseCheckpoint(cat, f).Some?
    ensures EndsLike(cat, f)
  {
    NameLengths(cat);
    ParsedParts(cat, f);
    hide Name, Ext, ParseCheckpoint;
    EndOf(f, Name(cat), Ext(cat));
  }

  lemma ParsedParts(cat: Category, f: string)
    requires ParseCheckpoint(cat, f).Some?
    ensures var p, e := |Name(cat)|, |Ext(cat)|;
      && |f| >= 2 * p + 20 + e
      && var t := f[|f| - (2 * p + 20 + e)..];
      t[2 * p + 20..] == Ext(cat) && t[p + 10..2 * p + 10] == Name(cat)
  {
    hide Name, Ext;
  }

  lemma BuiltEnd(cat: Category, chk: uint32)
    ensures EndsLike(cat, CheckpointPath(cat, chk))
  {
    ParseCheckpointPath(cat, chk);
    ParsedEnd(cat, CheckpointPath(cat, chk));
  }

  lemma EndTellsCategory(cat: Category, other: Category, f: string)
    requires EndsLike(cat, f) && EndsLike(other, f)
    ensures cat == other
  {
    assert cat != History ==> f[|f| - 18..|f| - 16][0] == Name(cat)[|Name(cat)| - 2];
    assert cat != History ==> f[|f| - 18..|f| - 16][1] == Name(cat)[|Name(cat)| - 1];
    assert other != History ==> f[|f| - 18..|f| - 16][0] == Name(other)[|Name(other)| - 2];
    assert other != History ==> f[|f| - 18..|f| - 16][1] == Name(other)[|Name(other)| - 1];
  }

  /** A file of one category is never taken for another category's. */
  lemma ParseOtherCategory(cat: Category, other: Category, chk: uint32)
    ensures ParseCheckpoint(other, CheckpointPath(cat, chk)).Some? <==> cat == other
  {
    var f := CheckpointPath(cat, chk);
    ParseCheckpointPath(cat, chk);
    if ParseCheckpoint(other, f).Some? {
      ParsedEnd(other, f);
      BuiltEnd(cat, chk);
      EndTellsCategory(cat, other, f);
    }
  }

  // ----- Buckets -----

  function HashHex(h: Hash): (s: string)
    ensures |s| == 64 && IsHex(s)
  {
    seq(64, i requires 0 <= i < 64 => HexDigit(if i % 2 == 0 then h[i / 2] / 16 else h[i / 2] % 16))
  }

  function ParseHash(s: string): Hash
    requires |s| == 64 && IsHex(s)
  {
    seq(32, i requires 0 <= i < 32 => 16 * HexValue(s[2 * i]) + HexValue(s[2 * i + 1]))
  }

  lemma HashRoundTrip(h: Hash)
    ensures ParseHash(HashHex(h)) == h
  {
    var s := HashHex(h);
    forall i | 0 <= i < 32
      ensures ParseHash(s)[i] == h[i]
    {
      assert s[2 * i] == HexDigit(h[i] / 16) && s[2 * i + 1] == HexDigit(h[i] % 16);
    }
  }

  const BUCKET: string := "bucket"
  const BUCKET_DASH: string := "bucket-"
  const XDR_GZ: string := ".xdr.gz"

  function BucketPath(h: Hash): string {
    BUCKET + ("/" + DirPath([h[0], h[1], h[2]]) + "/") + BUCKET_DASH + HashHex(h) + XDR_GZ
  }

  /** The hash that the bucket file-name pattern captures. */
  function ParseBucket(f: string): Option<Hash> {
    if |f| < 94 then None else
    var t := f[|f| - 94..];
    if && t[..6] == BUCKET && IsDirPattern(t[6..16]) && t[16..23] == BUCKET_DASH && IsHex(t[23..87]) && t[87..] == XDR_GZ
    then Some(ParseHash(t[23..87]))
    else None
  }

  lemma FiveParts(a: string, b: string, c: string, d: string, e: string)
    ensures var f, i, j, k := a + b + c + d + e, |a| + |b|, |a| + |b| + |c|, |a| + |b| + |c| + |d|;
      && |f| == k + |e|
      && f[..|a|] == a && f[|a|..i] == b && f[i..j] == c && f[j..k] == d && f[k..] == e
  {
  }

  lemma ParseBucketPath(h: Hash)
    ensures ParseBucket(BucketPath(h)) == Some(h)
  {
    var f, d := BucketPath(h), "/" + DirPath([h[0], h[1], h[2]]) + "/";
    DirPathPattern([h[0], h[1], h[2]]);
    DirPatternExactly(d);
    hide DirPath, HashHex, IsDirPattern, IsDir, ParseBucket;
    assert f == "" + ("bucket" + d + "bucket-" + HashHex(h) + ".xdr.gz");
    NamedBucketIsParsed(f, "", d, h);
  }

  /** A checkpoint file is never taken for a bucket: its name is too short. */
  lemma CheckpointIsNotBucket(cat: Category, chk: uint32)
    ensures ParseBucket(CheckpointPath(cat, chk)) == None
  {
    CheckpointPathParts(cat, chk);
    NameLengths(cat);
    hide CheckpointPath, Name, Ext;
  }

  // ----- Directories -----

  /** The three directories below a category are the first six digits of what the file name ends in. */
  ghost predicate SpelledBy(dir: string, digits: string)
    requires |digits| >= 6
  {
    dir == digits[..2] + "/" + digits[2..4] + "/" + digits[4..6]
  }

  lemma HexParts(n: nat)
    ensures Hex(n, 8)[..2] == Hex(n / 0x100_0000, 2) && Hex(n, 8)[2..4] == Hex(n / 0x1_0000 % 0x100, 2)
    ensures Hex(n, 8)[4..6] == Hex(n / 0x100 % 0x100, 2)
  {
    HexSplit(n, 6, 2);
    HexSplit(n / 0x100, 4, 2);
    HexSplit(n / 0x1_0000, 2, 2);
    assert n / 0x100 / 0x100 == n / 0x1_0000 && n / 0x1_0000 / 0x100 == n / 0x100_0000;
    var t := Hex(n, 8);
    assert t[2..4] == t[..4][2..] && t[4..6] == t[..6][4..] && t[..2] == t[..4][..2];
    assert t[..4] == t[..6][..4];
  }

  /** The last two of some digits, and the ones before. */
  lemma HexSplit(n: nat, w: nat, two: nat)
    requires two == 2
    ensures Hex(n, w + two) == Hex(n / 0x100, w) + Hex(n % 0x100, two)
  {
    TwoDigits(n % 0x100);
    assert Hex(n, w + 2) == Hex(n / 16, w + 1) + [HexDigit(n % 16)];
    assert Hex(n / 16, w + 1) == Hex(n / 16 / 16, w) + [HexDigit(n / 16 % 16)];
    hide Hex, HexDigit;
    assert n / 16 / 16 == n / 0x100 && n % 0x100 / 16 == n / 16 % 16 && n % 0x100 % 16 == n % 16;
  }

  lemma CheckpointDirectory(cat: Category, chk: uint32)
    ensures var p := |Name(cat)|;
      && |CheckpointPath(cat, chk)| >= p + 9
      && SpelledBy(CheckpointPath(cat, chk)[p + 1..p + 9], Hex(chk, 8))
  {
    CheckpointPathParts(cat, chk);
    NumberDirectory(chk);
    hide Hex, CheckpointPath, Name, DirPath;
  }

  lemma NumberDirectory(chk: uint32)
    ensures SpelledBy(DirPath(CheckpointPrefix(chk)), Hex(chk, 8))
  {
    HexParts(chk);
    PathOfPrefix(CheckpointPrefix(chk));
    hide Hex;
  }

  lemma PathOfPrefix(d: DirPrefix)
    ensures DirPath(d) == Hex(d[0], 2) + "/" + Hex(d[1], 2) + "/" + Hex(d[2], 2)
  {
    hide Hex;
    assert PathPrefix(d, 1) == PathPrefix(d, 0) + "/" + Hex(d[1], 2);
    assert PathPrefix(d, 3) == PathPrefix(d, 1) + "/" + Hex(d[2], 2);
  }

  lemma BucketDirectory(h: Hash)
    ensures |BucketPath(h)| >= 15 && SpelledBy(BucketPath(h)[7..15], HashHex(h))
  {
    var dir := DirPath([h[0], h[1], h[2]]);
    PathOfPrefix([h[0], h[1], h[2]]);
    HashDigits(h, 0);
    HashDigits(h, 1);
    HashDigits(h, 2);
    assert |BUCKET| == 6;
    hide HashHex, Hex, DirPath, BUCKET, BUCKET_DASH, XDR_GZ;
    FiveParts(BUCKET, "/" + dir + "/", BUCKET_DASH, HashHex(h), XDR_GZ);
    assert BucketPath(h)[7..15] == BucketPath(h)[6..16][1..9] == dir;
  }

  lemma HashDigits(h: Hash, i: nat)
    requires i < 32
    ensures HashHex(h)[2 * i..2 * i + 2] == Hex(h[i], 2)
  {
    var t := HashHex(h);
    assert t[2 * i] == HexDigit(h[i] / 16) && t[2 * i + 1] == HexDigit(h[i] % 16);
    hide *;
    TwoDigits(h[i]);
    PairAt(t, 2 * i);
  }

  lemma PairAt(s: string, i: nat)
    requires i + 1 < |s|
    ensures s[i..i + 2] == [s[i], s[i + 1]]
  {
  }

  lemma TwoDigits(x: octet)
    ensures Hex(x, 2) == [HexDigit(x / 16), HexDigit(x % 16)]
  {
    hide HexDigit;
    var y := x / 16;
    assert 0 <= y < 16 && y % 16 == y;
    assert Hex(y / 16, 0) == "";
    assert Hex(y, 1) == Hex(y / 16, 0) + [HexDigit(y % 16)];
    assert Hex(x, 2) == Hex(y, 1) + [HexDigit(x % 16)];
  }

  /** The parts of history/01/6f/91/history-016f913f.json, a path that an archive in use has, and of those of
      its other files. */
  lemma KnownPath(chk: uint32)
    requires chk == 0x016f_913f
    ensures DirPath(CheckpointPrefix(chk)) == "01/6f/91" && Hex(chk, 8) == "016f913f"
    ensures [Name(History), Name(Ledger), Name(Transactions), Name(Results), Name(Scp)] ==
            ["history", "ledger", "transactions", "results", "scp"]
    ensures forall cat: Category :: Ext(cat) == if cat == History then "json" else "xdr.gz"
  {
    KnownDigits(chk);
    KnownDirectory(chk);
    hide Hex, DirPath;
  }

  lemma KnownDirectory(chk: uint32)
    requires Hex(chk, 8) == "016f913f"
    ensures DirPath(CheckpointPrefix(chk)) == "01/6f/91"
  {
    NumberDirectory(chk);
    hide Hex, DirPath;
    var d := "016f913f";
    assert d[..2] == "01" && d[2..4] == "6f" && d[4..6] == "91";
    assert "01" + "/" + "6f" + "/" + "91" == "01/6f/91";
  }

  lemma KnownDigits(chk: uint32)
    requires chk == 0x016f_913f
    ensures Hex(chk, 8) == "016f913f"
  {
    HexSplit(chk, 6, 2);
    HexSplit(0x016f_91, 4, 2);
    HexSplit(0x016f, 2, 2);
    TwoDigits(0x01);
    TwoDigits(0x6f);
    TwoDigits(0x91);
    TwoDigits(0x3f);
    hide Hex;
  }

  // ----- What the file-name patterns match -----

  /** Three directories of two hexadecimal digits. */
  ghost predicate IsDir(s: string, a: string, b: string, c: string) {
    && |a| == |b| == |c| == 2 && IsHex(a) && IsHex(b) && IsHex(c)
    && s == "/" + a + "/" + b + "/" + c + "/"
  }

  lemma DirPatternExactly(s: string)
    ensures IsDirPattern(s) <==> exists a, b, c :: IsDir(s, a, b, c)
  {
    if IsDirPattern(s) {
      SplitDir(s);
      hide IsHex;
      assert IsDir(s, s[1..3], s[4..6], s[7..9]);
    }
    if a, b, c :| IsDir(s, a, b, c) {
      hide IsHex;
      JoinDir(s, a, b, c);
    }
  }

  lemma SplitDir(s: string)
    requires |s| == 10 && s[0] == s[3] == s[6] == s[9] == '/'
    ensures s == "/" + s[1..3] + "/" + s[4..6] + "/" + s[7..9] + "/"
  {
  }

  lemma JoinDir(s: string, a: string, b: string, c: string)
    requires |a| == |b| == |c| == 2 && s == "/" + a + "/" + b + "/" + c + "/"
    ensures |s| == 10 && s[0] == s[3] == s[6] == s[9] == '/' && s[1..3] == a && s[4..6] == b && s[7..9] == c
  {
  }

  /** Behind anything, the directories and the file name of a number. */
  ghost predicate NamesCheckpoint(cat: Category, f: string, front: string, dir: string, n: uint32) {
    && (exists a, b, c :: IsDir(dir, a, b, c))
    && f == front + (Name(cat) + dir + Name(cat) + "-" + Hex(n, 8) + "." + Ext(cat))
  }

  lemma SevenParts(a: string, b: string, c: string, d: string, e: string, f: string, g: string)
    requires |b| == 10 && |c| == |a| && |d| == |f| == 1 && |e| == 8
    ensures var t, p := a + b + c + d + e + f + g, |a|;
      && |t| == 2 * p + 20 + |g|
      && t[..p] == a && t[p..p + 10] == b && t[p + 10..2 * p + 10] == c && t[2 * p + 10..2 * p + 11] == d
      && t[2 * p + 11..2 * p + 19] == e && t[2 * p + 19..2 * p + 20] == f && t[2 * p + 20..] == g
  {
  }

  lemma PartsOfSeven(t: string, p: nat)
    requires |t| >= 2 * p + 20
    ensures t == t[..p] + t[p..p + 10] + t[p + 10..2 * p + 10] + t[2 * p + 10..2 * p + 11] + t[2 * p + 11..2 * p + 19] +
      t[2 * p + 19..2 * p + 20] + t[2 * p + 20..]
  {
  }

  /** The pattern of a category matches exactly the names of its files, below any directories and behind
      anything. */
  lemma ParseCheckpointExactly(cat: Category, f: string, n: uint32)
    ensures ParseCheckpoint(cat, f) == Some(n) <==> exists front, dir :: NamesCheckpoint(cat, f, front, dir, n)
  {
    if ParseCheckpoint(cat, f) == Some(n) {
      var front, dir := NamedBy(cat, f, n);
    }
    if front, dir :| NamesCheckpoint(cat, f, front, dir, n) {
      NamedIsParsed(cat, f, front, dir, n);
    }
  }

  /** The end t of a file name, with a name of p characters, is read piece by piece. */
  ghost predicate Pieces(t: string, p: nat, name: string, dir: string, digits: string, ext: string) {
    && |t| >= 2 * p + 20
    && t[..p] == name && t[p..p + 10] == dir && t[p + 10..2 * p + 10] == name && t[2 * p + 10..2 * p + 11] == "-"
    && t[2 * p + 11..2 * p + 19] == digits && t[2 * p + 19..2 * p + 20] == "." && t[2 * p + 20..] == ext
  }

  lemma PiecesExactly(t: string, name: string, dir: string, digits: string, ext: string)
    requires |dir| == 10 && |digits| == 8
    ensures Pieces(t, |name|, name, dir, digits, ext) <==> t == name + dir + name + "-" + digits + "." + ext
  {
    SevenParts(name, dir, name, "-", digits, ".", ext);
    if Pieces(t, |name|, name, dir, digits, ext) {
      PartsOfSeven(t, |name|);
    }
  }

  lemma PiecesParsed(cat: Category, f: string, t: string, dir: string, digits: string)
    requires |f| >= |t| == 2 * |Name(cat)| + 20 + |Ext(cat)| && t == f[|f| - |t|..]
    requires Pieces(t, |Name(cat)|, Name(cat), dir, digits, Ext(cat)) && IsDirPattern(dir) && IsHex(digits) && |digits| == 8
    ensures ParseHex(digits) <= MAX_UINT32 && ParseCheckpoint(cat, f) == Some(ParseHex(digits))
  {
    EightDigits(digits);
    hide Name, Ext, IsDirPattern, ParseHex, IsHex;
    PiecesAt(t, |Name(cat)|, Name(cat), dir, digits, Ext(cat));
    hide Pieces;
  }

  lemma PiecesAt(t: string, p: nat, name: string, dir: string, digits: string, ext: string)
    requires Pieces(t, p, name, dir, digits, ext)
    ensures |t| >= 2 * p + 20 && t[..p] == name && t[p..p + 10] == dir && t[p + 10..2 * p + 10] == name
    ensures t[2 * p + 10] == '-' && t[2 * p + 11..2 * p + 19] == digits && t[2 * p + 19] == '.' && t[2 * p + 20..] == ext
  {
    PairOfOne(t, 2 * p + 10);
    PairOfOne(t, 2 * p + 19);
  }

  lemma ParsedPieces(cat: Category, f: string) returns (t: string, dir: string, digits: string)
    requires ParseCheckpoint(cat, f).Some?
    ensures |f| >= |t| && t == f[|f| - |t|..] && |dir| == 10 && |digits| == 8
    ensures Pieces(t, |Name(cat)|, Name(cat), dir, digits, Ext(cat)) && IsDirPattern(dir) && IsHex(digits)
    ensures ParseCheckpoint(cat, f) == Some(ParseHex(digits))
  {
    hide Name, Ext, IsDirPattern, ParseHex, IsHex;
    var p := |Name(cat)|;
    t := f[|f| - (2 * p + 20 + |Ext(cat)|)..];
    dir, digits := t[p..p + 10], t[2 * p + 11..2 * p + 19];
    PairOfOne(t, 2 * p + 10);
    PairOfOne(t, 2 * p + 19);
  }

  lemma PairOfOne(s: string, i: nat)
    requires i < |s|
    ensures s[i..i + 1] == [s[i]]
  {
  }

  lemma NamedBy(cat: Category, f: string, n: uint32) returns (front: string, dir: string)
    requires ParseCheckpoint(cat, f) == Some(n)
    ensures NamesCheckpoint(cat, f, front, dir, n)
  {
    hide Name, Ext, IsDirPattern, ParseHex, IsHex, Hex, Pieces, ParseCheckpoint, IsDir;
    var t, digits;
    t, dir, digits := ParsedPieces(cat, f);
    front := f[..|f| - |t|];
    DirPatternExactly(dir);
    HexOfParsed(digits);
    PiecesExactly(t, Name(cat), dir, digits, Ext(cat));
    assert f == front + t;
  }

  lemma NamedIsParsed(cat: Category, f: string, front: string, dir: string, n: uint32)
    requires NamesCheckpoint(cat, f, front, dir, n)
    ensures ParseCheckpoint(cat, f) == Some(n)
  {
    DirPatternExactly(dir);
    PowersOf16();
    HexRoundTrip(n, 8);
    var t := Name(cat) + dir + Name(cat) + "-" + Hex(n, 8) + "." + Ext(cat);
    assert |dir| == 10;
    hide Name, Ext, IsDirPattern, ParseHex, IsHex, Hex, Pieces, ParseCheckpoint, IsDir;
    PiecesExactly(t, Name(cat), dir, Hex(n, 8), Ext(cat));
    assert f[|f| - |t|..] == t;
    PiecesParsed(cat, f, t, dir, Hex(n, 8));
  }

  ghost predicate NamesBucket(f: string, front: string, dir: string, h: Hash) {
    && (exists a, b, c :: IsDir(dir, a, b, c))
    && f == front + ("bucket" + dir + "bucket-" + HashHex(h) + ".xdr.gz")
  }

  lemma HashOfParsed(s: string)
    requires |s| == 64 && IsHex(s)
    ensures HashHex(ParseHash(s)) == s
  {
    var h := ParseHash(s);
    forall j | 0 <= j < 32
      ensures HashHex(h)[2 * j] == s[2 * j] && HashHex(h)[2 * j + 1] == s[2 * j + 1]
    {
      DigitOfValue(s[2 * j]);
      DigitOfValue(s[2 * j + 1]);
      assert h[j] == 16 * HexValue(s[2 * j]) + HexValue(s[2 * j + 1]);
    }
    hide HashHex, ParseHash;
    forall i | 0 <= i < 64
      ensures HashHex(h)[i] == s[i]
    {
      var j := i / 2;
      assert i == 2 * j || i == 2 * j + 1;
    }
  }

  /** The pattern of buckets matches exactly the names of their files. */
  lemma ParseBucketExactly(f: string, h: Hash)
    ensures ParseBucket(f) == Some(h) <==> exists front, dir :: NamesBucket(f, front, dir, h)
  {
    if ParseBucket(f) == Some(h) {
      var front, dir := BucketNamedBy(f, h);
    }
    if front, dir :| NamesBucket(f, front, dir, h) {
      NamedBucketIsParsed(f, front, dir, h);
    }
  }

  lemma BucketNamedBy(f: string, h: Hash) returns (front: string, dir: string)
    requires ParseBucket(f) == Some(h)
    ensures NamesBucket(f, front, dir, h)
  {
    var t := f[|f| - 94..];
    front, dir := f[..|f| - 94], t[6..16];
    DirPatternExactly(dir);
    HashOfParsed(t[23..87]);
    hide HashHex, ParseHash, IsDirPattern, IsDir;
    assert t == t[..6] + t[6..16] + t[16..23] + t[23..87] + t[87..];
    assert f == front + t;
  }

  lemma NamedBucketIsParsed(f: string, front: string, dir: string, h: Hash)
    requires NamesBucket(f, front, dir, h)
    ensures ParseBucket(f) == Some(h)
  {
    DirPatternExactly(dir);
    HashRoundTrip(h);
    assert |"bucket"| == 6 && |"bucket-"| == 7 && |".xdr.gz"| == 7;
    hide HashHex, ParseHash;
    var t := "bucket" + dir + "bucket-" + HashHex(h) + ".xdr.gz";
    FiveParts("bucket", dir, "bucket-", HashHex(h), ".xdr.gz");
    assert f[|f| - |t|..] == t;
  }

  // ----- Listings -----

  /** Files whose name matches a pattern sit at the path of what the pattern captures. */
  ghost predicate Canonical(files: set<string>) {
    && (forall f, cat :: f in files && ParseCheckpoint(cat, f).Some? ==> f == CheckpointPath(cat, ParseCheckpoint(cat, f).value))
    && (forall f :: f in files && ParseBucket(f).Some? ==> f == BucketPath(ParseBucket(f).value))
  }

  lemma CanonicalAddCheckpoint(files: set<string>, cat: Category, chk: uint32)
    requires Canonical(files)
    ensures Canonical(files + {CheckpointPath(cat, chk)})
  {
    hide CheckpointPath, ParseCheckpoint, ParseBucket, BucketPath;
    var f := CheckpointPath(cat, chk);
    ParseCheckpointPath(cat, chk);
    CheckpointIsNotBucket(cat, chk);
    forall other
      ensures ParseCheckpoint(other, f).Some? ==> f == CheckpointPath(other, ParseCheckpoint(other, f).value)
    {
      ParseOtherCategory(cat, other, chk);
    }
  }
}
