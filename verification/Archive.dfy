/** An archive: its files, what a scan has cached about them, and the scans themselves
    (historyarchive/archive.go, scan.go and the copying of util.go).

    The backend is the map from path to content of mock_archive.go, except that every access may
    fail. How a history file is decoded is a parameter. Verification of contents is reduced to
    whether it reports an error. A panic, which ends the program, is the error Panic here; callers that go
    on after an error also go on after this one, so what they promise covers more than can happen. */
module Archives {
  import opened ArchiveFiles
  import opened ArchivePaths
  import opened Checkpoints
  import opened Octets
  import opened Wrappers

  type Bytes = seq<octet>

  /** The part of a history archive state used here; buckets is None if a bucket hash in it does
      not decode. */
  datatype HAS = HAS(currentLedger: uint32, buckets: Option<seq<Hash>>)

  datatype Failure = BackendError | ZeroConcurrency | Errors(n: nat) | Panic

  const ROOT_PATH: string := ".well-known/hcnet-history.json"

  class CommandOptions {
    var range: Range
    const concurrency: nat
    const dryRun: bool
    const force: bool
    const verify: bool

    constructor (range: Range, concurrency: nat, dryRun: bool, force: bool, verify: bool)
      ensures this.range == range && this.concurrency == concurrency
      ensures this.dryRun == dryRun && this.force == force && this.verify == verify
    {
      this.range := range;
      this.concurrency, this.dryRun, this.force, this.verify := concurrency, dryRun, force, verify;
    }
  }

  /** Every file of before is still there, unchanged. */
  ghost predicate Keeps(before: map<string, Bytes>, after: map<string, Bytes>) {
    forall p :: p in before ==> p in after && after[p] == before[p]
  }

  /** What a listing prefix for a category is joined from. */
  function ListPrefix(cat: Category, pth: string): string {
    Name(cat) + "/" + pth
  }

  /** The numbers in a range for which a category has a file. */
  ghost function Existing(files: map<string, Bytes>, cat: Category, r: Range): set<uint32> {
    set n: uint32 | r.low <= n <= r.high && CheckpointPath(cat, n) in files
  }

  /** The number that a scan notes for a listed file, if any. */
  function NumberIn(cat: Category, f: string, r: Range): Option<uint32> {
    match ParseCheckpoint(cat, f)
    case None => None
    case Some(n) => if n < r.low || n > r.high then None else Some(n)
  }

  ghost function Numbers(fs: set<string>, cat: Category, r: Range): set<uint32> {
    set f | f in fs && NumberIn(cat, f, r).Some? :: NumberIn(cat, f, r).value
  }

  ghost function Below(files: set<string>, prefix: string): set<string> {
    set f | f in files && prefix <= f
  }

  /** The numbers in a range that a listing below one path yields. */
  ghost function Listed(files: map<string, Bytes>, cat: Category, pth: string, r: Range): set<uint32> {
    Numbers(Below(files.Keys, ListPrefix(cat, pth)), cat, r)
  }

  /** The numbers that the listings below the range's paths together yield. */
  ghost function Yielded(files: map<string, Bytes>, cat: Category, r: Range): set<uint32> {
    set k, n | 0 <= k < |RangePathList(r)| && n in Listed(files, cat, RangePathList(r)[k], r) :: n
  }

  lemma ListPrefixOfPath(cat: Category, n: uint32, pth: string)
    requires |pth| <= 8
    ensures ListPrefix(cat, pth) <= CheckpointPath(cat, n) <==> pth <= DirPath(CheckpointPrefix(n))
  {
    CheckpointPathParts(cat, n);
    hide Name, Ext, DirPath;
    var f, p, dir := CheckpointPath(cat, n), |Name(cat)|, DirPath(CheckpointPrefix(n));
    hide CheckpointPath;
    assert f[..p + 1] == Name(cat) + "/";
    assert f[p + 1..p + 1 + |pth|] == dir[..|pth|];
    assert f[..p + 1 + |pth|] == f[..p + 1] + f[p + 1..p + 1 + |pth|];
    assert ListPrefix(cat, pth)[p + 1..] == pth;
  }

  lemma RangePathShort(r: Range, k: nat)
    requires k < |RangePathList(r)|
    ensures |RangePathList(r)[k]| <= 8
  {
  }

  /** The listings below the range's paths together yield every number with a file, and no other if
      matching files sit at their own paths. */
  lemma ListingsCover(files: map<string, Bytes>, cat: Category, r: Range)
    ensures Existing(files, cat, r) <= Yielded(files, cat, r)
    ensures Canonical(files.Keys) ==> Existing(files, cat, r) == Yielded(files, cat, r)
  {
    hide RangePathList, Listed, Yielded, Existing, Canonical;
    forall n
      ensures n in Existing(files, cat, r) ==> n in Yielded(files, cat, r)
      ensures Canonical(files.Keys) && n in Yielded(files, cat, r) ==> n in Existing(files, cat, r)
    {
      ListingsCoverOne(files, cat, r, n);
    }
  }

  lemma ListingsCoverOne(files: map<string, Bytes>, cat: Category, r: Range, n: uint32)
    ensures n in Existing(files, cat, r) ==> n in Yielded(files, cat, r)
    ensures Canonical(files.Keys) && n in Yielded(files, cat, r) ==> n in Existing(files, cat, r)
  {
    hide RangePathList, CheckpointPath, ParseCheckpoint, DirPath, CheckpointPrefix, ListPrefix;
    if n in Existing(files, cat, r) {
      var k := RangePathsPartition(r, n);
      RangePathShort(r, k);
      ListPrefixOfPath(cat, n, RangePathList(r)[k]);
      ParseCheckpointPath(cat, n);
      assert NumberIn(cat, CheckpointPath(cat, n), r) == Some(n);
      assert n in Listed(files, cat, RangePathList(r)[k], r);
    }
  }

  /** No file is listed below two of the range's paths. */
  lemma ListingsDisjoint(files: map<string, Bytes>, cat: Category, r: Range, j: nat, k: nat)
    requires Canonical(files.Keys)
    requires j < k < |RangePathList(r)|
    ensures Listed(files, cat, RangePathList(r)[j], r) !! Listed(files, cat, RangePathList(r)[k], r)
  {
    hide RangePathList, CheckpointPath, ParseCheckpoint, DirPath, CheckpointPrefix, ListPrefix;
    forall n | n in Listed(files, cat, RangePathList(r)[j], r)
      ensures n !in Listed(files, cat, RangePathList(r)[k], r)
    {
      var i := RangePathsPartition(r, n);
      RangePathShort(r, j);
      RangePathShort(r, k);
      ListPrefixOfPath(cat, n, RangePathList(r)[j]);
      ListPrefixOfPath(cat, n, RangePathList(r)[k]);
    }
  }

  class Archive {
    var files: map<string, Bytes>
    var checkpointFiles: map<Category, map<uint32, bool>>
    var allBuckets: set<Hash>
    var referencedBuckets: set<Hash>
    const decode: Bytes -> Option<HAS>
    const canList: bool    // the backend can list files
    const reliable: bool   // no access to the backend fails

    /** A connected archive over some files, with nothing cached yet. */
    constructor (files: map<string, Bytes>, decode: Bytes -> Option<HAS>, canList: bool, reliable: bool)
      ensures this.files == files && this.decode == decode && this.canList == canList && this.reliable == reliable && Fresh()
    {
      this.files, this.decode, this.canList, this.reliable := files, decode, canList, reliable;
      checkpointFiles := NOTHING_SCANNED;
      allBuckets, referencedBuckets := {}, {};
      NothingScanned();
    }

    ghost predicate Valid()
      reads this`checkpointFiles
    {
      AllCategories(checkpointFiles)
    }

    /** Nothing is cached. */
    ghost predicate Fresh()
      reads this`checkpointFiles, this`allBuckets, this`referencedBuckets
    {
      Valid() && (forall cat: Category :: checkpointFiles[cat] == map[]) && allBuckets == {} && referencedBuckets == {}
    }

    /** The history archive state stored at a path, if there is a readable one. */
    ghost function State(pth: string): Option<HAS>
      reads this`files
    {
      if pth in files then decode(files[pth]) else None
    }

    // ----- The backend -----

    method Exists(pth: string) returns (r: Result<bool, Failure>)
      ensures r.Ok? ==> r.value == (pth in files)
      ensures reliable ==> r.Ok?
    {
      var failing: bool := *;
      if failing && !reliable {
        return Err(BackendError);
      }
      return Ok(pth in files);
    }

    method GetFile(pth: string) returns (r: Result<Bytes, Failure>)
      ensures r.Ok? ==> pth in files && r.value == files[pth]
      ensures reliable && pth in files ==> r.Ok?
    {
      var failing: bool := *;
      if failing && !reliable {
        return Err(BackendError);
      }
      if pth !in files {
        return Err(BackendError);
      }
      return Ok(files[pth]);
    }

    method PutFile(pth: string, content: Bytes) returns (ok: bool)
      modifies this`files
      ensures files == if ok then old(files)[pth := content] else old(files)
      ensures reliable ==> ok
    {
      var failing: bool := *;
      if failing && !reliable {
        return false;
      }
      files := files[pth := content];
      return true;
    }

    /** Files below a prefix; if the listing reports no error, all of them. */
    method ListFiles(prefix: string) returns (listed: set<string>, errs: nat)
      ensures forall f :: f in listed ==> f in files && prefix <= f
      ensures errs == 0 ==> forall f :: f in files && prefix <= f ==> f in listed
      ensures reliable ==> errs == 0
    {
      listed := set f | f in files && prefix <= f;
      errs := 0;
      var failing: bool := *;
      if failing && !reliable {
        var missed: set<string> :| true;
        listed, errs := listed - missed, 1;
      }
    }

    method GetPathHAS(pth: string) returns (r: Result<HAS, Failure>)
      ensures r.Ok? ==> State(pth) == Some(r.value)
      ensures reliable && State(pth).Some? ==> r.Ok?
    {
      var file := GetFile(pth);
      if file.Err? {
        return Err(file.error);
      }
      var has := decode(file.value);
      return if has.Some? then Ok(has.value) else Err(BackendError);
    }

    /** Whether the content of a file verifies. */
    method Verifies(pth: string) returns (ok: bool) {
      ok := *;
    }

    // ----- Checkpoint files -----

    method NoteCheckpointFile(cat: Category, chk: uint32, present: bool)
      requires Valid()
      modifies this`checkpointFiles
      ensures Valid()
      ensures checkpointFiles == old(checkpointFiles)[cat := Noted(old(checkpointFiles)[cat], chk, present)]
    {
      checkpointFiles := checkpointFiles[cat := Noted(checkpointFiles[cat], chk, present)];
    }

    /** What a worker does with one listed file. */
    method NoteFile(cat: Category, f: string, opts: CommandOptions) returns (errs: nat)
      requires Valid()
      modifies this`checkpointFiles
      ensures Valid()
      ensures checkpointFiles == WithMarks(old(checkpointFiles), cat, Numbers({f}, cat, opts.range))
      ensures !opts.verify ==> errs == 0
    {
      hide ParseCheckpoint, CheckpointPath;
      MarkMore(checkpointFiles, cat, {}, {});
      assert Numbers({f}, cat, opts.range) == if NumberIn(cat, f, opts.range).Some? then {NumberIn(cat, f, opts.range).value} else {};
      errs := 0;
      var n := ParseCheckpoint(cat, f);
      if n.Some? && !(n.value < opts.range.low || n.value > opts.range.high) {
        NoteCheckpointFile(cat, n.value, true);
        if opts.verify {
          var ok := Verifies(CheckpointPath(cat, n.value));
          errs := if ok then 0 else 1;
        }
      }
    }

    /** Note every number that one listing yields within the range, in any order. */
    method NoteListing(cat: Category, pth: string, opts: CommandOptions) returns (errs: nat)
      requires Valid()
      modifies this`checkpointFiles
      ensures Valid()
      ensures errs == 0 ==> checkpointFiles == WithMarks(old(checkpointFiles), cat, Listed(files, cat, pth, opts.range))
      ensures reliable && !opts.verify ==> errs == 0
    {
      hide NumberIn, ListPrefix, Numbers, WithMarks, AllCategories;
      MarkMore(checkpointFiles, cat, {}, {});
      var listed, es := ListFiles(ListPrefix(cat, pth));
      errs := es;
      ghost var all, done: set<string> := listed, {};
      NumbersUnion({}, {}, cat, opts.range);
      while listed != {}
        invariant Valid() && es <= errs && done + listed == all
        invariant !opts.verify ==> errs == es
        invariant checkpointFiles == WithMarks(old(checkpointFiles), cat, Numbers(done, cat, opts.range))
        decreases listed
      {
        var f :| f in listed;
        listed := listed - {f};
        NumbersUnion(done, {f}, cat, opts.range);
        MarkMore(old(checkpointFiles), cat, Numbers(done, cat, opts.range), Numbers({f}, cat, opts.range));
        done := done + {f};
        var e := NoteFile(cat, f, opts);
        errs := errs + e;
      }
      assert done == all;
      assert es == 0 ==> all == Below(files.Keys, ListPrefix(cat, pth));
    }

    /** Note all numbers of one category with a file in the range. */
    method ScanCategory(cat: Category, opts: CommandOptions) returns (errs: nat)
      requires Valid()
      modifies this`checkpointFiles
      ensures Valid()
      ensures errs == 0 ==> checkpointFiles == WithMarks(old(checkpointFiles), cat, Yielded(files, cat, opts.range))
      ensures reliable && !opts.verify ==> errs == 0
    {
      hide RangePathList, First, Last, Listed, Yielded, WithMarks, AllCategories;
      MarkMore(checkpointFiles, cat, {}, {});
      errs := 0;
      ghost var noted: set<uint32> := {};
      var paths := RangePaths(opts.range);
      for k := 0 to |paths|
        invariant Valid()
        invariant errs == 0 ==> checkpointFiles == WithMarks(old(checkpointFiles), cat, noted)
        invariant reliable && !opts.verify ==> errs == 0
        invariant forall n :: n in noted <==> exists j :: 0 <= j < k && n in Listed(files, cat, paths[j], opts.range)
      {
        MarkMore(old(checkpointFiles), cat, noted, Listed(files, cat, paths[k], opts.range));
        var es := NoteListing(cat, paths[k], opts);
        errs := errs + es;
        noted := noted + Listed(files, cat, paths[k], opts.range);
      }
      AllListed(files, cat, opts.range, noted);
    }

    /** The cache has gained exactly the numbers of the range that the listings yield, among them all
        those with a file, and no others if matching files sit at their own paths. */
    twostate predicate GainedListed(r: Range)
      requires old(Valid()) && Valid()
      reads this
    {
      forall cat: Category ::
        && checkpointFiles[cat] == old(checkpointFiles)[cat] + Marks(Yielded(files, cat, r))
        && Existing(files, cat, r) <= Yielded(files, cat, r)
        && (Canonical(files.Keys) ==> Yielded(files, cat, r) == Existing(files, cat, r))
    }

    /** Scan for checkpoint files on a backend that can list files. */
    method ScanCheckpointsFast(opts: CommandOptions) returns (r: Result<(), Failure>)
      requires Valid()
      modifies this`checkpointFiles
      ensures Valid()
      ensures r.Ok? ==> GainedListed(opts.range)
      ensures reliable && !opts.verify && opts.concurrency != 0 ==> r.Ok?
    {
      hide Canonical, Existing, Yielded;
      if opts.concurrency == 0 {
        return Err(ZeroConcurrency);
      }
      var errs := 0;
      var pending := ALL_CATEGORIES;
      AllCategoriesListed();
      while pending != {}
        invariant Valid() && (reliable && !opts.verify ==> errs == 0)
        invariant errs == 0 ==> forall cat: Category :: cat in pending ==> checkpointFiles[cat] == old(checkpointFiles)[cat]
        invariant errs == 0 ==> forall cat: Category :: cat !in pending ==>
          checkpointFiles[cat] == old(checkpointFiles)[cat] + Marks(Yielded(files, cat, opts.range))
        decreases pending
      {
        var cat :| cat in pending;
        var es := ScanCategory(cat, opts);
        errs := errs + es;
        pending := pending - {cat};
      }
      forall cat: Category
        ensures Existing(files, cat, opts.range) <= Yielded(files, cat, opts.range)
        ensures Canonical(files.Keys) ==> Yielded(files, cat, opts.range) == Existing(files, cat, opts.range)
      {
        ListingsCover(files, cat, opts.range);
      }
      return if errs == 0 then Ok(()) else Err(Errors(errs));
    }

    // ----- Scanning without listings -----

    /** A checkpoint of the range was probed: its entry says whether the file exists. */
    ghost predicate Probed(cat: Category, chk: int)
      requires Valid()
      reads this
    {
      && 0 <= chk <= MAX_UINT32
      && chk in checkpointFiles[cat]
      && checkpointFiles[cat][chk] == (CheckpointPath(cat, chk) in files)
    }

    /** What a worker does with one checkpoint of one category. */
    method Probe(cat: Category, chk: uint32, opts: CommandOptions) returns (r: Result<nat, Failure>)
      requires Valid()
      modifies this`checkpointFiles
      ensures Valid()
      ensures r.Ok? ==> Probed(cat, chk)
      ensures reliable ==> r.Ok?
      ensures r.Ok? && !opts.verify ==> r.value == 0
      ensures forall other: Category, c :: old(Probed(other, c)) ==> Probed(other, c)
    {
      hide CheckpointPath;
      var present := Exists(CheckpointPath(cat, chk));
      if present.Err? {
        return Err(Panic);
      }
      NoteCheckpointFile(cat, chk, present.value);
      if present.value && opts.verify {
        var ok := Verifies(CheckpointPath(cat, chk));
        return Ok(if ok then 0 else 1);
      }
      return Ok(0);
    }

    /** What the workers do for one category; the result counts verification errors. */
    method ProbeCategory(cat: Category, checkpoints: seq<int>, opts: CommandOptions) returns (r: Result<nat, Failure>)
      requires Valid() && forall c :: c in checkpoints ==> 0 <= c <= MAX_UINT32
      modifies this`checkpointFiles
      ensures Valid()
      ensures r.Ok? ==> forall c :: c in checkpoints ==> Probed(cat, c)
      ensures reliable ==> r.Ok?
      ensures r.Ok? && !opts.verify ==> r.value == 0
      ensures forall other: Category, c :: old(Probed(other, c)) ==> Probed(other, c)
    {
      hide Probed;
      var errs: nat := 0;
      for k := 0 to |checkpoints|
        invariant Valid() && (!opts.verify ==> errs == 0)
        invariant forall j :: 0 <= j < k ==> Probed(cat, checkpoints[j])
        invariant forall other: Category, c :: old(Probed(other, c)) ==> Probed(other, c)
      {
        assert checkpoints[k] in checkpoints;
        var probed := Probe(cat, checkpoints[k], opts);
        if probed.Err? {
          return probed;
        }
        errs := errs + probed.value;
      }
      return Ok(errs);
    }

    /** Every checkpoint of the range has been probed, in every category. */
    ghost predicate AllProbed(r: Range)
      requires Valid()
      reads this
    {
      forall cat: Category, chk :: chk in CheckpointList(r) ==> Probed(cat, chk)
    }

    /** Scan for checkpoint files on a backend that cannot list files: every path of the range is probed
        and the answer is noted, also when it is no. */
    method ScanCheckpointsSlow(opts: CommandOptions) returns (r: Result<(), Failure>)
      requires Valid()
      modifies this`checkpointFiles
      ensures Valid()
      ensures r.Ok? ==> opts.concurrency != 0 && AllProbed(opts.range)
      ensures reliable && !opts.verify && opts.concurrency != 0 ==> r.Ok?
    {
      if opts.concurrency == 0 {
        return Err(ZeroConcurrency);
      }
      hide Probed, CheckpointList;
      ListInRange(opts.range);
      var errs: nat := 0;
      var cats := CATEGORIES;
      for i := 0 to |cats|
        invariant Valid() && (!opts.verify ==> errs == 0)
        invariant forall j, chk :: 0 <= j < i && chk in CheckpointList(opts.range) ==> Probed(cats[j], chk)
      {
        var checkpoints := Checkpoints.Checkpoints(opts.range);
        var probed := ProbeCategory(cats[i], checkpoints, opts);
        if probed.Err? {
          return Err(probed.error);
        }
        errs := errs + probed.value;
      }
      forall cat: Category, chk | chk in CheckpointList(opts.range)
        ensures Probed(cat, chk)
      {
        var j := EveryCategory(cat);
      }
      return if errs == 0 then Ok(()) else Err(Errors(errs));
    }

    /** ScanCheckpoints: the range is first clamped to the archive's own. */
    method ScanCheckpoints(opts: CommandOptions) returns (r: Result<(), Failure>)
      requires Valid()
      modifies this`checkpointFiles, opts`range
      ensures Valid() && (Aligned(old(opts.range)) ==> Aligned(opts.range))
      ensures r.Ok? ==> State(ROOT_PATH).Some?
      ensures r.Ok? ==> opts.range == Clamp(old(opts.range), StateRange(State(ROOT_PATH).value.currentLedger))
      ensures reliable && !opts.verify && opts.concurrency != 0 && State(ROOT_PATH).Some? ==> r.Ok?
      ensures r.Ok? && canList ==> GainedListed(opts.range)
      ensures r.Ok? && !canList ==> AllProbed(opts.range)
    {
      hide Canonical, Existing, Yielded, AllProbed;
      var state := GetPathHAS(ROOT_PATH);
      if state.Err? {
        return Err(state.error);
      }
      opts.range := Clamp(opts.range, StateRange(state.value.currentLedger));
      if canList {
        r := ScanCheckpointsFast(opts);
      } else {
        r := ScanCheckpointsSlow(opts);
      }
    }

    /** The checkpoints of the range, per category, of which the cache has no entry. */
    method CheckCheckpointFilesMissing(opts: CommandOptions) returns (missing: map<Category, seq<int>>)
      requires Valid()
      ensures forall cat: Category :: cat in missing
      ensures forall cat: Category, chk :: chk in missing[cat] <==> chk in CheckpointList(opts.range) && chk !in checkpointFiles[cat]
    {
      missing := map[];
      var cats := CATEGORIES;
      for i := 0 to |cats|
        invariant forall j :: 0 <= j < i ==> cats[j] in missing
        invariant forall cat: Category, chk :: cat in missing ==>
          (chk in missing[cat] <==> chk in CheckpointList(opts.range) && chk !in checkpointFiles[cat])
      {
        var checkpoints := Checkpoints.Checkpoints(opts.range);
        var absent: seq<int> := [];
        for k := 0 to |checkpoints|
          invariant forall chk :: chk in absent <==> chk in checkpoints[..k] && chk !in checkpointFiles[cats[i]]
        {
          if checkpoints[k] !in checkpointFiles[cats[i]] {
            absent := absent + [checkpoints[k]];
          }
        }
        assert checkpoints[..|checkpoints|] == checkpoints;
        missing := missing[cats[i] := absent];
      }
      forall cat: Category
        ensures cat in missing
      {
        var j := EveryCategory(cat);
      }
    }

    // ----- Buckets -----

    /** Note every bucket file there is. */
    method ScanAllBuckets() returns (errs: nat)
      modifies this`allBuckets
      ensures old(allBuckets) <= allBuckets <= old(allBuckets) + Parsed(files.Keys)
      ensures errs == 0 ==> allBuckets == old(allBuckets) + Parsed(Below(files.Keys, BUCKET))
      ensures reliable ==> errs == 0
    {
      hide ParseBucket;
      var listed, es := ListFiles(BUCKET);
      errs := es;
      ghost var done: set<string> := {};
      ghost var all := listed;
      while listed != {}
        invariant listed + done == all
        invariant allBuckets == old(allBuckets) + Parsed(done)
        decreases listed
      {
        var f :| f in listed;
        listed := listed - {f};
        done := done + {f};
        var h := ParseBucket(f);
        if h.Some? {
          allBuckets := allBuckets + {h.value};
        }
        assert Parsed(done) == Parsed(done - {f}) + Parsed({f});
        assert Parsed({f}) == if h.Some? then {h.value} else {};
      }
      assert done == all;
      assert es == 0 ==> all == Below(files.Keys, BUCKET);
    }

    /** NoteReferencedBucket. */
    method NoteReferencedBucket(bucket: Hash) returns (isNew: bool)
      modifies this`referencedBuckets
      ensures isNew <==> bucket !in old(referencedBuckets)
      ensures referencedBuckets == old(referencedBuckets) + {bucket}
    {
      isNew := bucket !in referencedBuckets;
      referencedBuckets := referencedBuckets + {bucket};
    }

    /** What a worker does with one referenced bucket. */
    method NoteBucket(bucket: Hash, doList: bool, opts: CommandOptions) returns (r: Result<nat, Failure>)
      modifies this`referencedBuckets, this`allBuckets
      ensures referencedBuckets == old(referencedBuckets) + {bucket}
      ensures old(allBuckets) <= allBuckets <= old(allBuckets) + {bucket}
      ensures doList || bucket in old(referencedBuckets) ==> allBuckets == old(allBuckets)
      ensures r.Ok? && !doList && bucket !in old(referencedBuckets) ==>
        allBuckets == old(allBuckets) + if BucketPath(bucket) in files then {bucket} else {}
      ensures allBuckets != old(allBuckets) ==> BucketPath(bucket) in files
      ensures reliable ==> r.Ok?
      ensures r.Ok? && !opts.verify ==> r.value == 0
    {
      hide BucketPath;
      var isNew := NoteReferencedBucket(bucket);
      if !isNew {
        return Ok(0);
      }
      var errs := 0;
      if !doList || opts.verify {
        var stored := Exists(BucketPath(bucket));
        if stored.Err? {
          return Err(Panic);
        }
        if stored.value {
          if !doList {
            allBuckets := allBuckets + {bucket};
          }
          if opts.verify {
            var ok := Verifies(BucketPath(bucket));
            errs := if ok then 0 else 1;
          }
        }
      }
      return Ok(errs);
    }

    /** No bucket is missed: all that were listed, or of those referenced all that exist, are noted. */
    ghost predicate BucketsKnown(doList: bool)
      reads this
    {
      && (doList ==> forall h :: BucketPath(h) in files ==> h in allBuckets)
      && (forall h :: h in referencedBuckets && BucketPath(h) in files ==> h in allBuckets)
    }

    /** Every bucket noted as existing does. */
    ghost predicate BucketsExist()
      reads this
    {
      forall h :: h in allBuckets ==> BucketPath(h) in files
    }

    /** The history file of a checkpoint decodes and all its buckets have been noted as referenced. */
    ghost predicate References(chk: uint32)
      reads this`files, this`referencedBuckets
    {
      match State(CheckpointPath(History, chk))
      case None => false
      case Some(has) => has.buckets.Some? && forall h :: h in has.buckets.value ==> h in referencedBuckets
    }

    /** The history file of a checkpoint decodes, with its bucket hashes. */
    ghost predicate Decodes(chk: uint32)
      reads this`files
    {
      match State(CheckpointPath(History, chk))
      case None => false
      case Some(has) => has.buckets.Some?
    }

    ghost function BucketsOf(chk: uint32): set<Hash>
      reads this`files
    {
      if Decodes(chk) then (set h | h in State(CheckpointPath(History, chk)).value.buckets.value) else {}
    }

    /** The checkpoints whose history file is noted as present. */
    ghost function NotedHistories(): set<uint32>
      requires Valid()
      reads this`checkpointFiles
    {
      set k | k in checkpointFiles[History] && checkpointFiles[History][k]
    }

    /** The buckets that the history files of some checkpoints reference. */
    ghost function Reachable(chks: set<uint32>): set<Hash>
      reads this`files
    {
      set chk, h | chk in chks && h in BucketsOf(chk) :: h
    }

    lemma BucketsAreReachable(chk: uint32, chks: set<uint32>)
      requires chk in chks
      ensures BucketsOf(chk) <= Reachable(chks)
    {
      hide BucketsOf;
    }

    /** Note the buckets that one history file references. */
    method NoteBuckets(chk: uint32, doList: bool, opts: CommandOptions) returns (r: Result<nat, Failure>)
      modifies this`referencedBuckets, this`allBuckets
      ensures old(referencedBuckets) <= referencedBuckets
      ensures old(allBuckets) <= allBuckets <= old(allBuckets) + (referencedBuckets - old(referencedBuckets))
      ensures r.Ok? && old(BucketsKnown(doList)) ==> BucketsKnown(doList)
      ensures r.Ok? && old(BucketsExist()) ==> BucketsExist()
      ensures r.Ok? && r.value == 0 ==> References(chk)
      ensures r.Ok? && r.value == 0 ==> referencedBuckets <= old(referencedBuckets) + BucketsOf(chk)
      ensures reliable && !opts.verify && Decodes(chk) ==> r == Ok(0)
      ensures forall c :: old(References(c)) ==> References(c)
    {
      hide BucketPath, CheckpointPath;
      var has := GetPathHAS(CheckpointPath(History, chk));
      if has.Ok? && has.value.buckets.None? {
        return Err(Panic);
      }
      var buckets: seq<Hash>, errs: nat;
      if has.Err? {
        // Whatever was decoded before the error is used all the same.
        buckets, errs := *, 1;
      } else {
        buckets, errs := has.value.buckets.value, 0;
      }
      for k := 0 to |buckets|
        invariant old(referencedBuckets) <= referencedBuckets
        invariant has.Err? ==> errs >= 1
        invariant old(allBuckets) <= allBuckets <= old(allBuckets) + (referencedBuckets - old(referencedBuckets))
        invariant has.Ok? && !opts.verify ==> errs == 0
        invariant forall h :: h in referencedBuckets - old(referencedBuckets) ==> h in buckets
        invariant forall j :: 0 <= j < k ==> buckets[j] in referencedBuckets
        invariant old(BucketsKnown(doList)) ==> BucketsKnown(doList)
        invariant old(BucketsExist()) ==> BucketsExist()
      {
        var e := NoteBucket(buckets[k], doList, opts);
        if e.Err? {
          return e;
        }
        errs := errs + e.value;
      }
      return Ok(errs);
    }

    /** As many checkpoints as the archive has, by its root state if it can be read. */
    ghost predicate WholeRange(range: Range)
      reads this`files
    {
      match State(ROOT_PATH)
      case None => true
      case Some(has) => Size(range) == Size(MakeRange(0, has.currentLedger))
    }

    /** Scan the buckets referenced by the history files that a checkpoint scan has noted. */
    method ScanBuckets(opts: CommandOptions) returns (r: Result<(), Failure>)
      requires Valid()
      modifies this`referencedBuckets, this`allBuckets
      ensures r.Ok? ==> forall chk :: chk in NotedHistories() ==> References(chk)
      ensures r.Ok? ==> referencedBuckets <= old(referencedBuckets) + Reachable(NotedHistories())
      ensures r.Ok? && canList && WholeRange(opts.range) ==> Parsed(Below(files.Keys, BUCKET)) <= allBuckets
      ensures r.Ok? && !canList ==> allBuckets <= old(allBuckets) + referencedBuckets
      ensures r.Ok? && old(allBuckets) == old(referencedBuckets) == {} ==>
        forall h :: h in referencedBuckets && BucketPath(h) in files ==> h in allBuckets
      ensures r.Ok? && old(allBuckets) == {} && Canonical(files.Keys) ==>
        forall h :: h in allBuckets ==> BucketPath(h) in files
      ensures reliable && !opts.verify && opts.concurrency != 0 && (forall chk :: chk in NotedHistories() ==> Decodes(chk)) ==>
        r.Ok?
    {
      hide BucketPath, CheckpointPath, Canonical, References, Decodes, BucketsOf, Reachable;
      if opts.concurrency == 0 {
        return Err(ZeroConcurrency);
      }
      var errs := 0;
      var has := GetPathHAS(ROOT_PATH);
      var doList := canList && (has.Err? || Size(opts.range) == Size(MakeRange(0, has.value.currentLedger)));
      ghost var empty, clean := allBuckets == referencedBuckets == {}, allBuckets == {} && Canonical(files.Keys);
      if doList {
        var es := ScanAllBuckets();
        ParsedBuckets(files.Keys);
        errs := if es == 0 then 0 else 1;
      }
      assert errs == 0 && empty ==> BucketsKnown(doList);
      assert errs == 0 && clean ==> BucketsExist();
      hide BucketsKnown, BucketsExist;
      var e := NoteAllBuckets(doList, opts);
      if e.Err? {
        return Err(e.error);
      }
      errs := errs + e.value;
      BucketsKnownMeans(doList);
      return if errs == 0 then Ok(()) else Err(Errors(errs));
    }

    /** What the workers do for all the history files noted. */
    method NoteAllBuckets(doList: bool, opts: CommandOptions) returns (r: Result<nat, Failure>)
      requires Valid()
      modifies this`referencedBuckets, this`allBuckets
      ensures r == Ok(0) ==> forall chk :: chk in NotedHistories() ==> References(chk)
      ensures r == Ok(0) ==> referencedBuckets <= old(referencedBuckets) + Reachable(NotedHistories())
      ensures r.Ok? && old(BucketsKnown(doList)) ==> BucketsKnown(doList)
      ensures r.Ok? && old(BucketsExist()) ==> BucketsExist()
      ensures old(allBuckets) <= allBuckets <= old(allBuckets) + (referencedBuckets - old(referencedBuckets))
      ensures reliable && !opts.verify && (forall chk :: chk in NotedHistories() ==> Decodes(chk)) ==> r == Ok(0)
    {
      hide BucketPath, CheckpointPath, References, Decodes, BucketsOf, Reachable, BucketsKnown, BucketsExist;
      var errs := 0;
      ghost var seqs := NotedHistories();
      var pending: set<uint32> := set k: uint32 | k in checkpointFiles[History] && checkpointFiles[History][k];
      while pending != {}
        invariant pending <= seqs
        invariant errs == 0 ==> forall chk :: chk in seqs - pending ==> References(chk)
        invariant errs == 0 ==> referencedBuckets <= old(referencedBuckets) + Reachable(seqs)
        invariant reliable && !opts.verify && (forall chk :: chk in seqs ==> Decodes(chk)) ==> errs == 0
        invariant old(BucketsKnown(doList)) ==> BucketsKnown(doList)
        invariant old(BucketsExist()) ==> BucketsExist()
        invariant old(referencedBuckets) <= referencedBuckets
        invariant old(allBuckets) <= allBuckets <= old(allBuckets) + (referencedBuckets - old(referencedBuckets))
        decreases pending
      {
        var ix :| ix in pending;
        BucketsAreReachable(ix, seqs);
        var e := NoteBuckets(ix, doList, opts);
        if e.Err? {
          return e;
        }
        errs := errs + e.value;
        pending := pending - {ix};
      }
      return Ok(errs);
    }

    lemma BucketsKnownMeans(doList: bool)
      ensures BucketsKnown(doList) ==> forall h :: h in referencedBuckets && BucketPath(h) in files ==> h in allBuckets
      ensures BucketsExist() ==> forall h :: h in allBuckets ==> BucketPath(h) in files
    {
      hide BucketPath;
    }

    /** CheckBucketsMissing. */
    method CheckBucketsMissing() returns (missing: set<Hash>)
      ensures missing == referencedBuckets - allBuckets
    {
      missing := set k | k in referencedBuckets && k !in allBuckets;
    }

    /** ClearCachedInfo. */
    method ClearCachedInfo()
      modifies this`checkpointFiles, this`allBuckets, this`referencedBuckets
      ensures Fresh()
    {
      checkpointFiles := NOTHING_SCANNED;
      allBuckets, referencedBuckets := {}, {};
      NothingScanned();
    }
  }

  /** The hashes of the bucket files among some files. */
  ghost function Parsed(fs: set<string>): set<Hash> {
    set f | f in fs && ParseBucket(f).Some? :: ParseBucket(f).value
  }

  lemma BucketPathPrefix(h: Hash)
    ensures BUCKET <= BucketPath(h)
  {
  }

  /** The bucket files listed are all there are, and no others if matching files sit at their own paths. */
  lemma ParsedBuckets(fs: set<string>)
    ensures forall h :: BucketPath(h) in fs ==> h in Parsed(Below(fs, BUCKET))
    ensures Canonical(fs) ==> forall h :: h in Parsed(Below(fs, BUCKET)) ==> BucketPath(h) in fs
  {
    hide BucketPath, ParseBucket;
    forall h | BucketPath(h) in fs
      ensures h in Parsed(Below(fs, BUCKET))
    {
      ParseBucketPath(h);
      BucketPathPrefix(h);
      assert BucketPath(h) in Below(fs, BUCKET);
    }
  }

  const NOTHING_SCANNED: map<Category, map<uint32, bool>> :=
    map[History := map[], Ledger := map[], Transactions := map[], Results := map[], Scp := map[]]

  lemma NothingScanned()
    ensures forall cat: Category :: cat in NOTHING_SCANNED && NOTHING_SCANNED[cat] == map[]
  {
    forall cat: Category
      ensures cat in NOTHING_SCANNED && NOTHING_SCANNED[cat] == map[]
    {
      match cat case History => case Ledger => case Transactions => case Results => case Scp =>
    }
  }

  const ALL_CATEGORIES: set<Category> := {History, Ledger, Transactions, Results, Scp}

  lemma AllCategoriesListed()
    ensures forall cat: Category :: cat in ALL_CATEGORIES
  {
    forall cat: Category
      ensures cat in ALL_CATEGORIES
    {
      match cat case History => case Ledger => case Transactions => case Results => case Scp =>
    }
  }

  lemma EveryCategory(cat: Category) returns (i: nat)
    ensures i < |CATEGORIES| && CATEGORIES[i] == cat
  {
    i := match cat case History => 0 case Ledger => 1 case Transactions => 2 case Results => 3 case Scp => 4;
  }

  function Noted(m: map<uint32, bool>, chk: uint32, present: bool): map<uint32, bool> {
    m[chk := present]
  }

  ghost predicate AllCategories(cache: map<Category, map<uint32, bool>>) {
    forall cat: Category :: cat in cache
  }

  /** The cache after noting some numbers of a category as present. */
  ghost function WithMarks(cache: map<Category, map<uint32, bool>>, cat: Category, ns: set<uint32>): (c: map<Category, map<uint32, bool>>)
    requires AllCategories(cache)
    ensures AllCategories(c)
  {
    cache[cat := cache[cat] + Marks(ns)]
  }

  lemma MarkMore(cache: map<Category, map<uint32, bool>>, cat: Category, a: set<uint32>, b: set<uint32>)
    requires AllCategories(cache)
    ensures WithMarks(WithMarks(cache, cat, a), cat, b) == WithMarks(cache, cat, a + b)
    ensures WithMarks(cache, cat, {}) == cache
    ensures forall n :: cache[cat := Noted(cache[cat], n, true)] == WithMarks(cache, cat, {n})
  {
    MarksJoin(cache[cat], a, b);
    MarkOne(cache, cat);
    hide Marks;
    assert cache[cat := cache[cat]] == cache;
  }

  lemma MarksJoin(m: map<uint32, bool>, a: set<uint32>, b: set<uint32>)
    ensures m + Marks(a) + Marks(b) == m + Marks(a + b)
    ensures m + Marks({}) == m
  {
  }

  lemma MarkOne(cache: map<Category, map<uint32, bool>>, cat: Category)
    requires AllCategories(cache)
    ensures forall n :: cache[cat := Noted(cache[cat], n, true)] == WithMarks(cache, cat, {n})
  {
    forall n
      ensures cache[cat := Noted(cache[cat], n, true)] == WithMarks(cache, cat, {n})
    {
      assert Noted(cache[cat], n, true) == cache[cat] + Marks({n});
    }
  }

  ghost function Marks(ns: set<uint32>): map<uint32, bool> {
    map n | n in ns :: true
  }

  lemma NumbersUnion(a: set<string>, b: set<string>, cat: Category, r: Range)
    ensures Numbers(a + b, cat, r) == Numbers(a, cat, r) + Numbers(b, cat, r)
    ensures Numbers({}, cat, r) == {}
  {
  }

  lemma AllListed(files: map<string, Bytes>, cat: Category, r: Range, noted: set<uint32>)
    requires forall n :: n in noted <==> exists j :: 0 <= j < |RangePathList(r)| && n in Listed(files, cat, RangePathList(r)[j], r)
    ensures noted == Yielded(files, cat, r)
  {
    hide RangePathList, Listed;
  }
}
