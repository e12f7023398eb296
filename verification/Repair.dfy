/** Repairing an archive from another one: copyPath in historyarchive/util.go and Repair in
    historyarchive/repair.go. */
module RepairArchive {
  import opened ArchiveFiles
  import opened ArchivePaths
  import opened Archives
  import opened Checkpoints
  import opened Wrappers
  import SlowScan

  /** copyPath. */
  method CopyPath(src: Archive, dst: Archive, pth: string, opts: CommandOptions) returns (ok: bool)
    modifies dst`files
    ensures opts.dryRun ==> ok && dst.files == old(dst.files)
    ensures ok && !opts.dryRun ==> pth in dst.files
    ensures dst.files == old(dst.files) || (pth in old(src.files) && dst.files == old(dst.files)[pth := old(src.files)[pth]])
    ensures pth in old(dst.files) && !opts.force ==> dst.files == old(dst.files)
    ensures ok && !opts.dryRun && (opts.force || pth !in old(dst.files)) ==>
      pth in old(src.files) && dst.files == old(dst.files)[pth := old(src.files)[pth]]
    ensures src.reliable && dst.reliable ==>
      (ok <==> opts.dryRun || pth in old(src.files) || (pth in old(dst.files) && !opts.force))
  {
    if opts.dryRun {
      return true;
    }
    var stored := dst.Exists(pth);
    if stored.Err? {
      return false;
    }
    if stored.value && !opts.force {
      return true;
    }
    var rdr := src.GetFile(pth);
    if rdr.Err? {
      return false;
    }
    ok := dst.PutFile(pth, rdr.value);
  }

  /** A file of a category that a repair has to end up with at a checkpoint. */
  ghost predicate Wanted(src: map<string, Bytes>, cat: Category, chk: int) {
    0 <= chk <= MAX_UINT32 && (cat != Scp || CheckpointPath(cat, chk) in src)
  }

  /** All wanted files at the checkpoints of a list are there. */
  ghost predicate Complete(src: map<string, Bytes>, dst: map<string, Bytes>, cat: Category, chks: seq<int>) {
    forall chk :: chk in chks && Wanted(src, cat, chk) ==> CheckpointPath(cat, chk) in dst
  }

  /** None of the files at the checkpoints of a list is there. */
  ghost predicate Absent(files: map<string, Bytes>, cat: Category, chks: seq<int>) {
    forall chk :: chk in chks ==> 0 <= chk <= MAX_UINT32 && CheckpointPath(cat, chk) !in files
  }

  /** Every file is the one that was there or the source's. */
  ghost predicate Drawn(before: map<string, Bytes>, src: map<string, Bytes>, after: map<string, Bytes>) {
    forall p :: p in after ==> (p in before && after[p] == before[p]) || (p in src && after[p] == src[p])
  }

  lemma DrawnTwice(before: map<string, Bytes>, src: map<string, Bytes>, mid: map<string, Bytes>, from: map<string, Bytes>,
                   after: map<string, Bytes>)
    requires Drawn(before, src, mid) && Drawn(mid, from, after) && (from == src || from == mid)
    ensures Drawn(before, src, after)
  {
  }

  lemma DrawnFromItself(files: map<string, Bytes>, src: map<string, Bytes>)
    ensures Drawn(files, src, files)
  {
  }

  lemma OneDrawn(before: map<string, Bytes>, src: map<string, Bytes>, after: map<string, Bytes>, p: string)
    requires after == before || (p in src && after == before[p := src[p]])
    ensures Drawn(before, src, after)
  {
  }

  /** The source has all required files of a category at the checkpoints of a list. */
  ghost predicate Supplied(src: map<string, Bytes>, cat: Category, chks: seq<int>) {
    cat != Scp ==> forall chk :: chk in chks ==> 0 <= chk <= MAX_UINT32 && CheckpointPath(cat, chk) in src
  }

  datatype Filled = Aborted | Filled(errs: nat)

  /** Fetch one missing file, unless it is optional and the source lacks it too. */
  method FillOne(src: Archive, dst: Archive, cat: Category, chk: uint32, opts: CommandOptions, ghost before: map<string, Bytes>)
    returns (r: Filled)
    modifies dst`files
    ensures (Canonical(old(dst.files).Keys) ==> Canonical(dst.files.Keys)) && old(dst.files).Keys <= dst.files.Keys
    ensures opts.dryRun ==> dst.files == old(dst.files)
    ensures Keeps(before, old(dst.files)) && (!opts.force || CheckpointPath(cat, chk) !in before) ==> Keeps(before, dst.files)
    ensures r.Filled? && r.errs == 0 && !opts.dryRun && Wanted(old(src.files), cat, chk) ==> CheckpointPath(cat, chk) in dst.files
    ensures Drawn(old(dst.files), old(src.files), dst.files)
    ensures src.reliable && dst.reliable && (cat != Scp ==> CheckpointPath(cat, chk) in old(src.files)) ==> r == Filled(0)
  {
    hide CheckpointPath, Canonical;
    var pth := CheckpointPath(cat, chk);
    if Canonical(dst.files.Keys) {
      CanonicalAddCheckpoint(dst.files.Keys, cat, chk);
    }
    var stored := src.Exists(pth);
    if stored.Err? {
      return Aborted;
    }
    if !Required(cat) && !stored.value {
      return Filled(0);
    }
    var ok := CopyPath(src, dst, pth, opts);
    assert dst.files.Keys == old(dst.files).Keys || dst.files.Keys == old(dst.files).Keys + {pth};
    return Filled(if ok then 0 else 1);
  }

  /** Fill the gaps of one category. */
  method FillCategory(src: Archive, dst: Archive, cat: Category, missing: seq<int>, opts: CommandOptions, ghost before: map<string, Bytes>)
    returns (r: Filled)
    requires forall chk :: chk in missing ==> 0 <= chk <= MAX_UINT32
    modifies dst`files
    ensures (Canonical(old(dst.files).Keys) ==> Canonical(dst.files.Keys)) && old(dst.files).Keys <= dst.files.Keys
    ensures opts.dryRun ==> dst.files == old(dst.files)
    ensures Keeps(before, old(dst.files)) && (!opts.force || Absent(before, cat, missing)) ==> Keeps(before, dst.files)
    ensures r.Filled? && r.errs == 0 && !opts.dryRun ==> Complete(old(src.files), dst.files, cat, missing)
    ensures missing == [] ==> dst.files == old(dst.files)
    ensures Drawn(old(dst.files), old(src.files), dst.files)
    ensures src.reliable && dst.reliable && Supplied(old(src.files), cat, missing) ==> r == Filled(0)
  {
    hide CheckpointPath, Canonical, Keeps, Drawn;
    DrawnFromItself(dst.files, src.files);
    var errs: nat := 0;
    for i := 0 to |missing|
      invariant (Canonical(old(dst.files).Keys) ==> Canonical(dst.files.Keys)) && old(dst.files).Keys <= dst.files.Keys
      invariant old(src.files).Keys <= src.files.Keys
      invariant opts.dryRun ==> dst.files == old(dst.files)
      invariant Drawn(old(dst.files), old(src.files), dst.files)
      invariant src.reliable && dst.reliable && Supplied(old(src.files), cat, missing) ==> errs == 0
      invariant Keeps(before, old(dst.files)) && (!opts.force || Absent(before, cat, missing)) ==> Keeps(before, dst.files)
      invariant errs == 0 && !opts.dryRun ==> Complete(old(src.files), dst.files, cat, missing[..i])
      invariant missing == [] ==> dst.files == old(dst.files)
    {
      assert missing[i] in missing;
      ghost var mid, from := dst.files, src.files;
      var filled := FillOne(src, dst, cat, missing[i], opts, before);
      DrawnTwice(old(dst.files), old(src.files), mid, from, dst.files);
      if filled.Aborted? {
        return filled;
      }
      errs := errs + filled.errs;
      assert missing[..i + 1] == missing[..i] + [missing[i]];
    }
    assert missing[..|missing|] == missing;
    return Filled(errs);
  }

  /** Whether a cache holds every file at the checkpoints of a range, except those listed missing. */
  ghost predicate CacheExact(files: map<string, Bytes>, cache: map<Category, map<uint32, bool>>, r: Range)
    requires AllCategories(cache)
  {
    forall cat: Category :: cache[cat] == Marks(Existing(files, cat, r))
  }

  lemma ListedChk(r: Range, chk: int)
    requires Aligned(r) && chk in CheckpointList(r)
    ensures r.low <= chk <= r.high
  {
    CheckpointListExact(r);
  }

  /** Whether a cache misses none of the files of a range. */
  ghost predicate CacheCovers(files: map<string, Bytes>, cache: map<Category, map<uint32, bool>>, r: Range)
    requires AllCategories(cache)
  {
    forall cat: Category :: Existing(files, cat, r) <= cache[cat].Keys
  }

  /** A file that the scan reported missing is not there. */
  lemma MissingMeansAbsent(files: map<string, Bytes>, cache: map<Category, map<uint32, bool>>, r: Range, cat: Category, missing: seq<int>)
    requires Aligned(r) && AllCategories(cache) && CacheCovers(files, cache, r)
    requires forall chk :: chk in missing <==> chk in CheckpointList(r) && chk !in cache[cat]
    ensures Absent(files, cat, missing)
  {
    hide CheckpointPath, CheckpointList;
    forall chk | chk in missing
      ensures 0 <= chk <= MAX_UINT32 && CheckpointPath(cat, chk) !in files
    {
      ListedChk(r, chk);
      assert chk !in Existing(files, cat, r);
    }
  }

  /** A file that it did not report missing is. */
  lemma NotMissingMeansThere(files: map<string, Bytes>, cache: map<Category, map<uint32, bool>>, r: Range, cat: Category, missing: seq<int>)
    requires Aligned(r) && AllCategories(cache) && CacheExact(files, cache, r)
    requires forall chk :: chk in missing <==> chk in CheckpointList(r) && chk !in cache[cat]
    ensures forall chk :: chk in CheckpointList(r) && chk !in missing ==> r.low <= chk <= r.high && CheckpointPath(cat, chk) in files
  {
    hide CheckpointPath;
    forall chk | chk in CheckpointList(r)
      ensures r.low <= chk <= r.high
    {
      ListedChk(r, chk);
    }
  }

  /** Fill the gaps of every category, in any order. repairedHistory tells whether a history file was
      copied. */
  method FillGaps(src: Archive, dst: Archive, missing: map<Category, seq<int>>, opts: CommandOptions, ghost before: map<string, Bytes>)
    returns (r: Filled, repairedHistory: bool)
    requires forall cat: Category :: cat in missing
    requires forall cat: Category, chk :: chk in missing[cat] ==> 0 <= chk <= MAX_UINT32
    modifies dst`files
    ensures (Canonical(old(dst.files).Keys) ==> Canonical(dst.files.Keys)) && old(dst.files).Keys <= dst.files.Keys
    ensures opts.dryRun ==> dst.files == old(dst.files)
    ensures Keeps(before, old(dst.files)) && (!opts.force || forall cat: Category :: Absent(before, cat, missing[cat])) ==> Keeps(before, dst.files)
    ensures r.Filled? && r.errs == 0 && !opts.dryRun ==> forall cat: Category :: Complete(old(src.files), dst.files, cat, missing[cat])
    ensures r.Filled? ==> (repairedHistory <==> missing[History] != [])
    ensures (forall cat: Category :: missing[cat] == []) ==> dst.files == old(dst.files)
    ensures Drawn(old(dst.files), old(src.files), dst.files)
    ensures src.reliable && dst.reliable && (forall cat: Category :: Supplied(old(src.files), cat, missing[cat])) ==> r == Filled(0)
  {
    hide CheckpointPath, Canonical, Complete, Absent, Keeps, Drawn, Supplied;
    DrawnFromItself(dst.files, src.files);
    var errs: nat := 0;
    repairedHistory := false;
    var pending := ALL_CATEGORIES;
    AllCategoriesListed();
    while pending != {}
      invariant (Canonical(old(dst.files).Keys) ==> Canonical(dst.files.Keys)) && old(dst.files).Keys <= dst.files.Keys
      invariant old(src.files).Keys <= src.files.Keys
      invariant opts.dryRun ==> dst.files == old(dst.files)
      invariant Drawn(old(dst.files), old(src.files), dst.files)
      invariant src.reliable && dst.reliable && (forall cat: Category :: Supplied(old(src.files), cat, missing[cat])) ==> errs == 0
      invariant Keeps(before, old(dst.files)) && (!opts.force || forall cat: Category :: Absent(before, cat, missing[cat])) ==> Keeps(before, dst.files)
      invariant errs == 0 && !opts.dryRun ==> forall cat: Category :: cat !in pending ==> Complete(old(src.files), dst.files, cat, missing[cat])
      invariant repairedHistory <==> History !in pending && missing[History] != []
      invariant (forall cat: Category :: missing[cat] == []) ==> dst.files == old(dst.files)
      decreases pending
    {
      var cat :| cat in pending;
      ghost var was, wasSrc := dst.files, src.files;
      var filled := FillCategory(src, dst, cat, missing[cat], opts, before);
      DrawnTwice(old(dst.files), old(src.files), was, wasSrc, dst.files);
      SuppliedLater(old(src.files), wasSrc, cat, missing[cat]);
      if filled.Aborted? {
        return Aborted, false;
      }
      CompleteGrows(old(src.files), wasSrc, was, dst.files, missing, cat);
      errs := errs + filled.errs;
      pending := pending - {cat};
      if cat == History && missing[cat] != [] {
        repairedHistory := true;
      }
    }
    r := Filled(errs);
  }

  lemma CompleteGrows(src: map<string, Bytes>, wasSrc: map<string, Bytes>, was: map<string, Bytes>, now: map<string, Bytes>, missing: map<Category, seq<int>>, cat: Category)
    requires forall c: Category :: c in missing
    requires src.Keys <= wasSrc.Keys && was.Keys <= now.Keys
    ensures forall c: Category :: Complete(src, was, c, missing[c]) ==> Complete(src, now, c, missing[c])
    ensures Complete(wasSrc, now, cat, missing[cat]) ==> Complete(src, now, cat, missing[cat])
  {
    hide CheckpointPath;
  }

  lemma SuppliedLater(src: map<string, Bytes>, wasSrc: map<string, Bytes>, cat: Category, chks: seq<int>)
    requires src.Keys <= wasSrc.Keys
    ensures Supplied(src, cat, chks) ==> Supplied(wasSrc, cat, chks)
  {
    hide CheckpointPath;
  }

  /** No checkpoint file is new. */
  ghost predicate OnlyBucketsAdded(before: map<string, Bytes>, after: map<string, Bytes>) {
    forall cat, chk :: CheckpointPath(cat, chk) in after ==> CheckpointPath(cat, chk) in before
  }

  lemma BucketIsNoCheckpoint(h: Hash)
    ensures forall cat, chk :: CheckpointPath(cat, chk) != BucketPath(h)
  {
    forall cat, chk
      ensures CheckpointPath(cat, chk) != BucketPath(h)
    {
      ParseBucketPath(h);
      CheckpointIsNotBucket(cat, chk);
    }
  }

  /** Copy every missing bucket. */
  method FillBuckets(src: Archive, dst: Archive, missing: set<Hash>, opts: CommandOptions) returns (errs: nat)
    modifies dst`files
    ensures old(dst.files).Keys <= dst.files.Keys
    ensures opts.dryRun ==> dst.files == old(dst.files)
    ensures (!opts.force || forall h :: h in missing ==> BucketPath(h) !in old(dst.files)) ==> Keeps(old(dst.files), dst.files)
    ensures errs == 0 && !opts.dryRun ==> forall h :: h in missing ==> BucketPath(h) in dst.files
    ensures OnlyBucketsAdded(old(dst.files), dst.files)
    ensures Drawn(old(dst.files), old(src.files), dst.files)
    ensures src.reliable && dst.reliable && (forall h :: h in missing ==> BucketPath(h) in old(src.files)) ==> errs == 0
  {
    hide BucketPath, CheckpointPath, Drawn;
    DrawnFromItself(dst.files, src.files);
    errs := 0;
    var pending := missing;
    while pending != {}
      invariant pending <= missing
      invariant old(dst.files).Keys <= dst.files.Keys
      invariant opts.dryRun ==> dst.files == old(dst.files)
      invariant old(src.files).Keys <= src.files.Keys
      invariant Drawn(old(dst.files), old(src.files), dst.files)
      invariant src.reliable && dst.reliable && (forall h :: h in missing ==> BucketPath(h) in old(src.files)) ==> errs == 0
      invariant (!opts.force || forall h :: h in missing ==> BucketPath(h) !in old(dst.files)) ==> Keeps(old(dst.files), dst.files)
      invariant errs == 0 && !opts.dryRun ==> forall h :: h in missing - pending ==> BucketPath(h) in dst.files
      invariant OnlyBucketsAdded(old(dst.files), dst.files)
      decreases pending
    {
      var bkt :| bkt in pending;
      pending := pending - {bkt};
      BucketIsNoCheckpoint(bkt);
      ghost var mid, from := dst.files, src.files;
      var ok := CopyPath(src, dst, BucketPath(bkt), opts);
      OneDrawn(mid, from, dst.files, BucketPath(bkt));
      DrawnTwice(old(dst.files), old(src.files), mid, from, dst.files);
      if !ok { errs := errs + 1; }
    }
  }

  /** Every bucket that the archive's history file of a checkpoint references is there. */
  ghost predicate Closed(files: map<string, Bytes>, decode: Bytes -> Option<HAS>, chk: int) {
    && 0 <= chk <= MAX_UINT32 && CheckpointPath(History, chk) in files
    && match decode(files[CheckpointPath(History, chk)])
       case None => false
       case Some(has) => has.buckets.Some? && forall h :: h in has.buckets.value ==> BucketPath(h) in files
  }

  /** After a first look at the destination: what is cached is exact, and what is missing is known. */
  ghost predicate Surveyed(files: map<string, Bytes>, cache: map<Category, map<uint32, bool>>, r: Range, missing: map<Category, seq<int>>)
    requires AllCategories(cache)
  {
    && Aligned(r) && CacheExact(files, cache, r)
    && (forall cat: Category :: cat in missing)
    && forall cat: Category, chk :: chk in missing[cat] <==> chk in CheckpointList(r) && chk !in cache[cat]
  }

  lemma MissingInRange(r: Range, cache: map<Category, map<uint32, bool>>, missing: map<Category, seq<int>>)
    requires Aligned(r) && AllCategories(cache)
    requires forall cat: Category :: cat in missing
    requires forall cat: Category, chk :: chk in missing[cat] <==> chk in CheckpointList(r) && chk !in cache[cat]
    ensures forall cat: Category, chk :: chk in missing[cat] ==> 0 <= chk <= MAX_UINT32
  {
    forall cat: Category, chk | chk in missing[cat]
      ensures 0 <= chk <= MAX_UINT32
    {
      ListedChk(r, chk);
    }
  }

  lemma AllMissingAbsent(files: map<string, Bytes>, cache: map<Category, map<uint32, bool>>, r: Range, missing: map<Category, seq<int>>)
    requires Aligned(r) && AllCategories(cache) && CacheCovers(files, cache, r)
    requires forall cat: Category :: cat in missing
    requires forall cat: Category, chk :: chk in missing[cat] <==> chk in CheckpointList(r) && chk !in cache[cat]
    ensures forall cat: Category :: Absent(files, cat, missing[cat])
  {
    hide Absent, CheckpointPath;
    forall cat: Category
      ensures Absent(files, cat, missing[cat])
    {
      MissingMeansAbsent(files, cache, r, cat, missing[cat]);
    }
  }

  /** Filling the reported gaps completes every category. */
  lemma GapsWereAll(files: map<string, Bytes>, cache: map<Category, map<uint32, bool>>, r: Range, missing: map<Category, seq<int>>, src: map<string, Bytes>, now: map<string, Bytes>)
    requires AllCategories(cache) && Surveyed(files, cache, r, missing)
    requires files.Keys <= now.Keys
    requires forall cat: Category :: Complete(src, now, cat, missing[cat])
    ensures forall cat: Category :: Complete(src, now, cat, CheckpointList(r))
  {
    hide CheckpointPath, CheckpointList;
    forall cat: Category
      ensures Complete(src, now, cat, CheckpointList(r))
    {
      NotMissingMeansThere(files, cache, r, cat, missing[cat]);
    }
  }

  /** Every checkpoint of the range is cached as having a history file. */
  ghost predicate HistoryCached(cache: map<Category, map<uint32, bool>>, r: Range)
    requires AllCategories(cache)
  {
    forall chk :: chk in CheckpointList(r) ==> chk in cache[History] && cache[History][chk]
  }

  lemma ExactCacheHasHistory(files: map<string, Bytes>, cache: map<Category, map<uint32, bool>>, r: Range, src: map<string, Bytes>)
    requires AllCategories(cache) && Aligned(r) && CacheExact(files, cache, r)
    requires Complete(src, files, History, CheckpointList(r))
    ensures HistoryCached(cache, r)
  {
    hide CheckpointPath, CheckpointList;
    forall chk | chk in CheckpointList(r)
      ensures chk in cache[History] && cache[History][chk]
    {
      ListedChk(r, chk);
      assert Wanted(src, History, chk);
    }
  }

  /** Nothing missing means every checkpoint is cached. */
  lemma NoGapHasHistory(files: map<string, Bytes>, cache: map<Category, map<uint32, bool>>, r: Range, missing: map<Category, seq<int>>)
    requires AllCategories(cache) && Surveyed(files, cache, r, missing) && missing[History] == []
    ensures HistoryCached(cache, r)
  {
    hide CheckpointPath, CheckpointList;
    forall chk | chk in CheckpointList(r)
      ensures chk in cache[History] && cache[History][chk]
    {
      assert chk !in missing[History];
    }
  }

  /** The scan of a destination misses nothing: nothing is cached, and it can list its files. */
  ghost predicate Listing(dst: Archive)
    reads dst
  {
    dst.Fresh() && dst.canList
  }

  /** The scan of a destination is exact: its files also sit at their own paths. */
  ghost predicate Ready(dst: Archive)
    reads dst
  {
    Listing(dst) && Canonical(dst.files.Keys)
  }

  /** The backend does not fail, there are workers, and contents are not verified. */
  ghost predicate CannotFail(archive: Archive, opts: CommandOptions) {
    archive.reliable && opts.concurrency != 0 && !opts.verify
  }

  /** Scan for checkpoint files. */
  method ScanAfresh(dst: Archive, opts: CommandOptions) returns (errs: nat)
    requires dst.Valid() && Aligned(opts.range)
    modifies dst`checkpointFiles, opts`range
    ensures dst.Valid() && Aligned(opts.range)
    ensures errs == 0 && old(Listing(dst)) ==> CacheCovers(dst.files, dst.checkpointFiles, opts.range)
    ensures errs == 0 && old(Ready(dst)) ==> CacheExact(dst.files, dst.checkpointFiles, opts.range)
    ensures errs == 0 && !dst.canList ==> dst.AllProbed(opts.range)
    ensures errs == 0 ==> dst.State(ROOT_PATH).Some?
    ensures errs == 0 ==> opts.range == Clamp(old(opts.range), StateRange(dst.State(ROOT_PATH).value.currentLedger))
    ensures CannotFail(dst, opts) && old(dst.State(ROOT_PATH)).Some? ==> errs == 0
  {
    hide Existing, Yielded, Canonical, ROOT_PATH, Marks;
    var scanned := dst.ScanCheckpoints(opts);
    errs := if scanned.Ok? then 0 else 1;
    if scanned.Ok? && old(Listing(dst)) {
      forall cat: Category
        ensures dst.checkpointFiles[cat] == Marks(Yielded(dst.files, cat, opts.range))
        ensures dst.checkpointFiles[cat].Keys == Yielded(dst.files, cat, opts.range)
      {
        OnlyMarks(Yielded(dst.files, cat, opts.range));
      }
    }
  }

  lemma OnlyMarks(ns: set<uint32>)
    ensures map[] + Marks(ns) == Marks(ns) && Marks(ns).Keys == ns
  {
  }

  /** All buckets in the history file of a checkpoint are among the given ones. */
  ghost predicate Among(files: map<string, Bytes>, decode: Bytes -> Option<HAS>, referenced: set<Hash>, chk: int) {
    && 0 <= chk <= MAX_UINT32 && CheckpointPath(History, chk) in files
    && match decode(files[CheckpointPath(History, chk)])
       case None => false
       case Some(has) => has.buckets.Some? && forall h :: h in has.buckets.value ==> h in referenced
  }

  lemma AllReferenced(dst: Archive, r: Range)
    requires dst.Valid() && Aligned(r) && HistoryCached(dst.checkpointFiles, r)
    requires forall chk :: chk in dst.checkpointFiles[History] && dst.checkpointFiles[History][chk] ==> dst.References(chk)
    ensures forall chk :: chk in CheckpointList(r) ==> Among(dst.files, dst.decode, dst.referencedBuckets, chk)
  {
    hide CheckpointPath, CheckpointList;
    forall chk | chk in CheckpointList(r)
      ensures Among(dst.files, dst.decode, dst.referencedBuckets, chk)
    {
      ListedChk(r, chk);
      assert dst.References(chk);
    }
  }

  lemma ClosedWhenStored(was: map<string, Bytes>, now: map<string, Bytes>, decode: Bytes -> Option<HAS>, referenced: set<Hash>, chks: seq<int>)
    requires forall chk :: chk in chks ==> Among(was, decode, referenced, chk)
    requires Keeps(was, now) && forall h :: h in referenced ==> BucketPath(h) in now
    ensures forall chk :: chk in chks ==> Closed(now, decode, chk)
  {
    hide CheckpointPath, BucketPath;
  }

  ghost predicate NoBucketsCached(dst: Archive)
    reads dst
  {
    dst.allBuckets == {} && dst.referencedBuckets == {}
  }

  /** Every history file noted decodes, and each bucket they reference is in one of the archives. */
  ghost predicate BucketsAtHand(src: Archive, dst: Archive)
    requires dst.Valid()
    reads src, dst
  {
    && (forall chk :: chk in dst.NotedHistories() ==> dst.Decodes(chk))
    && forall h :: h in dst.Reachable(dst.NotedHistories()) ==> BucketPath(h) in src.files || BucketPath(h) in dst.files
  }

  /** The last phase of a repair: find the referenced buckets and copy the missing ones. */
  method RepairBuckets(src: Archive, dst: Archive, opts: CommandOptions) returns (errs: nat)
    requires dst.Valid() && Aligned(opts.range)
    modifies dst`files, dst`allBuckets, dst`referencedBuckets
    ensures opts.dryRun ==> dst.files == old(dst.files)
    ensures !opts.force ==> Keeps(old(dst.files), dst.files)
    ensures OnlyBucketsAdded(old(dst.files), dst.files)
    ensures errs == 0 && old(NoBucketsCached(dst)) ==> Keeps(old(dst.files), dst.files)
    ensures errs == 0 && old(NoBucketsCached(dst) && Canonical(dst.files.Keys)) && !opts.dryRun && HistoryCached(dst.checkpointFiles, opts.range) ==>
      forall chk :: chk in CheckpointList(opts.range) ==> Closed(dst.files, dst.decode, chk)
    ensures Drawn(old(dst.files), old(src.files), dst.files)
    ensures src.reliable && CannotFail(dst, opts) && old(NoBucketsCached(dst)) && old(BucketsAtHand(src, dst)) ==> errs == 0
  {
    hide BucketPath, CheckpointPath, Canonical, HistoryCached, Closed, CheckpointList, Among;
    var scanned := dst.ScanBuckets(opts);
    errs := if scanned.Ok? then 0 else 1;
    var missing := dst.CheckBucketsMissing();
    ghost var files, ideal := dst.files, old(NoBucketsCached(dst) && Canonical(dst.files.Keys));
    if errs == 0 && ideal && HistoryCached(dst.checkpointFiles, opts.range) {
      AllReferenced(dst, opts.range);
    }
    var e := FillBuckets(src, dst, missing, opts);
    errs := errs + e;
    if errs == 0 && ideal && !opts.dryRun && HistoryCached(dst.checkpointFiles, opts.range) {
      ClosedWhenStored(files, dst.files, dst.decode, dst.referencedBuckets, CheckpointList(opts.range));
    }
  }

  /** The first phase of a repair: scan, and find out what is missing. */
  method Survey(dst: Archive, opts: CommandOptions) returns (errs: nat, missing: map<Category, seq<int>>)
    requires dst.Valid() && Aligned(opts.range)
    modifies dst`checkpointFiles, opts`range
    ensures dst.Valid() && Aligned(opts.range)
    ensures forall cat: Category :: cat in missing
    ensures forall cat: Category, chk :: chk in missing[cat] ==> 0 <= chk <= MAX_UINT32
    ensures forall cat: Category, chk :: chk in missing[cat] ==> chk in CheckpointList(opts.range)
    ensures errs == 0 && old(Ready(dst)) ==> Surveyed(dst.files, dst.checkpointFiles, opts.range, missing)
    ensures errs == 0 && old(Listing(dst)) ==> forall cat: Category :: Absent(dst.files, cat, missing[cat])
    ensures errs == 0 && !dst.canList ==> forall cat: Category :: missing[cat] == []
    ensures errs == 0 ==> dst.State(ROOT_PATH).Some?
    ensures errs == 0 ==> opts.range == Clamp(old(opts.range), StateRange(dst.State(ROOT_PATH).value.currentLedger))
    ensures CannotFail(dst, opts) && old(dst.State(ROOT_PATH)).Some? ==> errs == 0
  {
    hide CheckpointPath, Canonical, CheckpointList, ROOT_PATH, CacheExact, CacheCovers, Clamp, Absent;
    errs := ScanAfresh(dst, opts);
    missing := dst.CheckCheckpointFilesMissing(opts);
    MissingInRange(opts.range, dst.checkpointFiles, missing);
    if errs == 0 && old(Listing(dst)) {
      AllMissingAbsent(dst.files, dst.checkpointFiles, opts.range, missing);
    }
    if errs == 0 && !dst.canList {
      SlowScan.ProbedIsNotMissing(dst, opts.range, missing);
    }
  }

  /** Every file but scp at the checkpoints of a range is in one of the archives. */
  ghost predicate AllSupplied(src: map<string, Bytes>, dst: map<string, Bytes>, range: Range) {
    forall cat: Category, chk: uint32 :: cat != Scp && chk in CheckpointList(range) ==>
      CheckpointPath(cat, chk) in src || CheckpointPath(cat, chk) in dst
  }

  lemma SurveyedIsExact(files: map<string, Bytes>, cache: map<Category, map<uint32, bool>>, r: Range, missing: map<Category, seq<int>>)
    requires AllCategories(cache) && Surveyed(files, cache, r, missing)
    ensures CacheExact(files, cache, r)
  {
    hide CacheExact, CheckpointList;
  }

  lemma MissingAreSupplied(src: map<string, Bytes>, dst: map<string, Bytes>, range: Range, missing: map<Category, seq<int>>)
    requires AllSupplied(src, dst, range)
    requires forall cat: Category :: cat in missing && Absent(dst, cat, missing[cat])
    requires forall cat: Category, chk :: chk in missing[cat] ==> chk in CheckpointList(range)
    ensures forall cat: Category :: Supplied(src, cat, missing[cat])
  {
    hide CheckpointPath, CheckpointList;
  }

  /** The first half of a repair: survey the destination and fill the gaps reported. */
  method SurveyAndFill(src: Archive, dst: Archive, opts: CommandOptions) returns (r: Filled, repairedHistory: bool)
    requires dst.Valid() && Aligned(opts.range)
    modifies dst`files, dst`checkpointFiles, opts`range
    ensures dst.Valid() && Aligned(opts.range)
    ensures old(dst.files).Keys <= dst.files.Keys
    ensures Canonical(old(dst.files).Keys) ==> Canonical(dst.files.Keys)
    ensures opts.dryRun ==> dst.files == old(dst.files)
    ensures !opts.force ==> Keeps(old(dst.files), dst.files)
    ensures r == Filled(0) && old(Listing(dst)) ==> Keeps(old(dst.files), dst.files)
    ensures r == Filled(0) && old(Ready(dst)) && !opts.dryRun ==>
      forall cat: Category :: Complete(old(src.files), dst.files, cat, CheckpointList(opts.range))
    ensures r == Filled(0) && old(Ready(dst)) && !repairedHistory ==> HistoryCached(dst.checkpointFiles, opts.range)
    ensures r == Filled(0) && !dst.canList ==> dst.files == old(dst.files)
    ensures r == Filled(0) ==> old(dst.State(ROOT_PATH)).Some?
    ensures r == Filled(0) ==> opts.range == Clamp(old(opts.range), StateRange(old(dst.State(ROOT_PATH)).value.currentLedger))
    ensures CannotFail(dst, opts) && old(dst.State(ROOT_PATH)).Some? ==>
      opts.range == Clamp(old(opts.range), StateRange(old(dst.State(ROOT_PATH)).value.currentLedger))
    ensures Drawn(old(dst.files), old(src.files), dst.files)
    ensures r == Filled(0) && old(Ready(dst)) && !repairedHistory ==> CacheExact(old(dst.files), dst.checkpointFiles, opts.range)
    ensures src.reliable && CannotFail(dst, opts) && old(Listing(dst)) && old(dst.State(ROOT_PATH)).Some? ==>
      AllSupplied(old(src.files), old(dst.files), opts.range) ==> r == Filled(0)
  {
    hide CheckpointPath, Canonical, CheckpointList, ROOT_PATH, Complete, CacheExact, HistoryCached, Clamp, Absent, Surveyed, Keeps, Drawn, Supplied, AllSupplied;
    ghost var before, ready, listing := dst.files, Ready(dst), Listing(dst);
    KeepsItself(before);
    var errs, missing := Survey(dst, opts);
    if listing && AllSupplied(src.files, dst.files, opts.range) && errs == 0 {
      MissingAreSupplied(src.files, dst.files, opts.range, missing);
    }
    r, repairedHistory := FillGaps(src, dst, missing, opts, before);
    if r.Filled? {
      r := Filled(errs + r.errs);
    }
    if r == Filled(0) && ready {
      SurveyedIsExact(before, dst.checkpointFiles, opts.range, missing);
      if !opts.dryRun {
        GapsWereAll(before, dst.checkpointFiles, opts.range, missing, old(src.files), dst.files);
      }
      if !repairedHistory {
        NoGapHasHistory(before, dst.checkpointFiles, opts.range, missing);
      }
    }
  }

  /** What a repair promises on a destination whose scan is exact: the files of the range are complete,
      and so are the buckets they reference. */
  ghost predicate Repaired(after: map<string, Bytes>, src: map<string, Bytes>, decode: Bytes -> Option<HAS>, range: Range) {
    && (forall cat: Category :: Complete(src, after, cat, CheckpointList(range)))
    && (forall chk :: chk in CheckpointList(range) ==> Closed(after, decode, chk))
  }

  /** A repair has all it takes: the files of the range but scp are in one of the archives, and so are the
      buckets that the history files of the range, all of which decode, reference. */
  ghost predicate Repairable(src: map<string, Bytes>, dst: map<string, Bytes>, decode: Bytes -> Option<HAS>, range: Range) {
    && AllSupplied(src, dst, range)
    && forall chk: uint32 :: range.low <= chk <= range.high ==>
      HistoryAtHand(src, src, dst, decode, chk) && HistoryAtHand(dst, src, dst, decode, chk)
  }

  ghost predicate HistoryAtHand(files: map<string, Bytes>, src: map<string, Bytes>, dst: map<string, Bytes>,
                                decode: Bytes -> Option<HAS>, chk: uint32) {
    CheckpointPath(History, chk) in files ==>
      match decode(files[CheckpointPath(History, chk)])
      case None => false
      case Some(has) => has.buckets.Some? && forall h :: h in has.buckets.value ==> BucketPath(h) in src || BucketPath(h) in dst
  }

  /** Only checkpoints of the range are noted, and only if their history file is there. */
  ghost predicate NotedAreThere(dst: Archive, range: Range)
    requires dst.Valid()
    reads dst
  {
    forall chk :: chk in dst.NotedHistories() ==> range.low <= chk <= range.high && CheckpointPath(History, chk) in dst.files
  }

  lemma ExactAreThere(dst: Archive, known: map<string, Bytes>, range: Range)
    requires dst.Valid() && CacheExact(known, dst.checkpointFiles, range) && known.Keys <= dst.files.Keys
    ensures NotedAreThere(dst, range)
  {
    hide CheckpointPath;
    forall chk | chk in dst.NotedHistories()
      ensures chk in Existing(known, History, range)
    {
    }
  }

  /** Once the files are filled in, the buckets of a repair that has all it takes are at hand. */
  lemma FilledAtHand(src: Archive, dst: Archive, from: map<string, Bytes>, before: map<string, Bytes>, range: Range)
    requires dst.Valid() && Repairable(from, before, dst.decode, range) && NotedAreThere(dst, range)
    requires Drawn(before, from, dst.files) && from.Keys <= src.files.Keys && before.Keys <= dst.files.Keys
    ensures BucketsAtHand(src, dst)
  {
    hide CheckpointPath, BucketPath, AllSupplied;
    forall chk | chk in dst.NotedHistories()
      ensures dst.Decodes(chk)
      ensures forall h :: h in dst.BucketsOf(chk) ==> BucketPath(h) in src.files || BucketPath(h) in dst.files
    {
      assert HistoryAtHand(from, from, before, dst.decode, chk) && HistoryAtHand(before, from, before, dst.decode, chk);
    }
  }

  /** The second scan. */
  method Rescan(dst: Archive, opts: CommandOptions) returns (errs: nat)
    requires dst.Valid() && Aligned(opts.range)
    modifies dst`checkpointFiles, dst`allBuckets, dst`referencedBuckets, opts`range
    ensures dst.Valid() && Aligned(opts.range) && NoBucketsCached(dst)
    ensures errs == 0 && dst.canList && Canonical(dst.files.Keys) ==> CacheExact(dst.files, dst.checkpointFiles, opts.range)
    ensures errs == 0 ==> dst.State(ROOT_PATH).Some?
    ensures errs == 0 ==> opts.range == Clamp(old(opts.range), StateRange(dst.State(ROOT_PATH).value.currentLedger))
    ensures CannotFail(dst, opts) && dst.State(ROOT_PATH).Some? ==> errs == 0
  {
    hide Canonical, CacheExact, CacheCovers, ROOT_PATH, Clamp;
    dst.ClearCachedInfo();
    errs := ScanAfresh(dst, opts);
  }

  /** All of a repair but the buckets: survey, fill the gaps, and scan again if a history file was copied. */
  method RepairFiles(src: Archive, dst: Archive, opts: CommandOptions) returns (r: Filled)
    requires dst.Valid() && Aligned(opts.range)
    modifies dst, opts`range
    ensures dst.Valid() && Aligned(opts.range)
    ensures opts.dryRun ==> dst.files == old(dst.files)
    ensures !opts.force ==> Keeps(old(dst.files), dst.files)
    ensures Drawn(old(dst.files), old(src.files), dst.files) && old(dst.files).Keys <= dst.files.Keys
    ensures Canonical(old(dst.files).Keys) ==> Canonical(dst.files.Keys)
    ensures old(NoBucketsCached(dst)) ==> NoBucketsCached(dst)
    ensures r == Filled(0) && old(Listing(dst)) ==> Keeps(old(dst.files), dst.files)
    ensures r == Filled(0) && old(Ready(dst)) && !opts.dryRun ==>
      forall cat: Category :: Complete(old(src.files), dst.files, cat, CheckpointList(opts.range))
    ensures r == Filled(0) && old(Ready(dst)) && !opts.dryRun ==> HistoryCached(dst.checkpointFiles, opts.range)
    ensures r == Filled(0) && old(Ready(dst)) ==> NotedAreThere(dst, opts.range)
    ensures r == Filled(0) && !dst.canList ==> dst.files == old(dst.files)
    ensures r == Filled(0) ==> old(dst.State(ROOT_PATH)).Some?
    ensures r == Filled(0) && old(Listing(dst)) ==>
      opts.range == Clamp(old(opts.range), StateRange(old(dst.State(ROOT_PATH)).value.currentLedger))
    ensures src.reliable && CannotFail(dst, opts) && old(Listing(dst)) && old(dst.State(ROOT_PATH)).Some? ==>
      AllSupplied(old(src.files), old(dst.files), Clamp(old(opts.range), StateRange(old(dst.State(ROOT_PATH)).value.currentLedger))) ==>
      r == Filled(0)
  {
    hide CheckpointPath, BucketPath, Canonical, CheckpointList, ROOT_PATH, Complete, CacheExact, CacheCovers, HistoryCached,
      Clamp, Keeps, Drawn, AllSupplied, NotedAreThere, CannotFail;
    ghost var listing, ready := Listing(dst), Ready(dst);
    var repairedHistory;
    r, repairedHistory := SurveyAndFill(src, dst, opts);
    if r.Filled? && repairedHistory {
      ghost var filled := r;
      if filled == Filled(0) && listing {
        RootKept(old(dst.files), dst.files);
        ClampStable(old(opts.range), old(dst.State(ROOT_PATH)).value.currentLedger);
      }
      ghost var range := opts.range;
      var es := Rescan(dst, opts);
      r := Filled(r.errs + es);
      assert r == Filled(0) && listing ==> opts.range == range;
      if r == Filled(0) && ready {
        ExactAreThere(dst, dst.files, opts.range);
        if !opts.dryRun { ExactCacheHasHistory(dst.files, dst.checkpointFiles, opts.range, old(src.files)); }
      }
    } else if r == Filled(0) && ready {
      ExactAreThere(dst, old(dst.files), opts.range);
    }
  }

  /** Repair.  Without Force it never changes a file that is there, also when it fails.  On a destination
      that cannot list its files it fetches no checkpoint file.  It fails only if something is missing. */
  method Repair(src: Archive, dst: Archive, opts: CommandOptions) returns (r: Result<(), Failure>)
    requires dst.Valid()
    modifies dst, opts`range
    ensures opts.dryRun ==> dst.files == old(dst.files)
    ensures !opts.force ==> Keeps(old(dst.files), dst.files)
    ensures Drawn(old(dst.files), old(src.files), dst.files)
    ensures r.Ok? && old(Listing(dst)) ==> Keeps(old(dst.files), dst.files)
    ensures r.Ok? && old(Ready(dst)) && !opts.dryRun ==> Repaired(dst.files, old(src.files), dst.decode, opts.range)
    ensures r.Ok? && !dst.canList ==> OnlyBucketsAdded(old(dst.files), dst.files)
    ensures r.Ok? ==> old(dst.State(ROOT_PATH)).Some?
    ensures r.Ok? && old(Listing(dst)) ==> var o := StateRange(old(dst.State(ROOT_PATH)).value.currentLedger);
      opts.range == Clamp(Clamp(old(opts.range), o), o)
    ensures src.reliable && CannotFail(dst, opts) && old(Ready(dst)) && old(dst.State(ROOT_PATH)).Some? ==>
      var o := StateRange(old(dst.State(ROOT_PATH)).value.currentLedger);
      Repairable(old(src.files), old(dst.files), dst.decode, Clamp(Clamp(old(opts.range), o), o)) ==> r.Ok?
  {
    hide CheckpointPath, BucketPath, Canonical, CheckpointList, ROOT_PATH, Complete, Closed, HistoryCached,
      Clamp, Keeps, Drawn, HistoryAtHand, AllSupplied, BucketsAtHand, NotedAreThere;
    KeepsItself(dst.files);
    DrawnFromItself(dst.files, src.files);
    ghost var ready := Ready(dst);
    var state := dst.GetPathHAS(ROOT_PATH);
    if state.Err? {
      return Err(state.error);
    }
    opts.range := Clamp(opts.range, StateRange(state.value.currentLedger));
    var filled := RepairFiles(src, dst, opts);
    if filled.Aborted? {
      return Err(BackendError);
    }
    ghost var filledFiles, from := dst.files, src.files;
    if filled == Filled(0) && ready && Repairable(old(src.files), old(dst.files), dst.decode, opts.range) {
      FilledAtHand(src, dst, old(src.files), old(dst.files), opts.range);
    }
    hide Repairable;
    var es := RepairBuckets(src, dst, opts);
    KeepsBoth(old(dst.files), filledFiles, dst.files);
    DrawnTwice(old(dst.files), old(src.files), filledFiles, from, dst.files);
    var errs := filled.errs + es;
    if errs != 0 {
      return Err(Errors(errs));
    }
    if ready {
      CompleteLater(old(src.files), filledFiles, dst.files, opts.range);
    }
    return Ok(());
  }

  lemma RootKept(before: map<string, Bytes>, after: map<string, Bytes>)
    requires Keeps(before, after) && ROOT_PATH in before
    ensures ROOT_PATH in after && after[ROOT_PATH] == before[ROOT_PATH]
  {
    hide ROOT_PATH;
  }

  lemma KeepsItself(files: map<string, Bytes>)
    ensures Keeps(files, files)
  {
  }

  lemma KeepsBoth(before: map<string, Bytes>, filled: map<string, Bytes>, after: map<string, Bytes>)
    ensures Keeps(before, filled) && Keeps(filled, after) ==> Keeps(before, after)
  {
  }

  lemma CompleteLater(src: map<string, Bytes>, was: map<string, Bytes>, now: map<string, Bytes>, r: Range)
    requires Keeps(was, now)
    ensures forall cat: Category :: Complete(src, was, cat, CheckpointList(r)) ==> Complete(src, now, cat, CheckpointList(r))
  {
    hide CheckpointPath, CheckpointList;
  }
}
