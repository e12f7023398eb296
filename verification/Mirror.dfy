/** Mirroring one archive into another with concurrent workers: historyarchive/mirror.go.

    A state holds what the goroutines share -- the destination, the bucketFetch map, the error
    counter and the channel of checkpoints -- and where each worker stands. One step moves one
    worker by one access to shared state, and may find the backend failing. A run is any sequence of
    steps, so every interleaving of any number of workers is one. */
module Mirror {
  import opened ArchiveFiles
  import opened ArchivePaths
  import opened Archives
  import opened Checkpoints
  import opened Sequences
  import opened Wrappers

  datatype Config = Config(
    src: map<string, Bytes>,
    dst: map<string, Bytes>,
    decode: Bytes -> Option<HAS>,
    rewrite: Bytes -> Bytes,   // the content written for the state read from some content
    requested: Range,
    dryRun: bool,
    force: bool,
    workers: nat)

  /** How far copyPath has come: about to look at the destination, or about to fetch and store. */
  datatype Stage = Checking | Writing

  datatype Worker =
    | Idle
    | Referencing(chk: uint32, buckets: seq<Hash>)
    | CopyingBucket(chk: uint32, bucket: Hash, buckets: seq<Hash>, stage: Stage)
    | Filing(chk: uint32, cats: seq<Category>)
    | CopyingFile(chk: uint32, cat: Category, cats: seq<Category>, stage: Stage)
    | Finished

  datatype State = State(
    dst: map<string, Bytes>,
    bucketFetch: set<Hash>,
    errs: nat,
    pending: seq<int>,
    workers: seq<Worker>,
    panicked: bool,
    copied: seq<Hash>)   // the buckets for which copyPath was called, in order

  /** The source's root state can be read; without it Mirror ends at once with an error. */
  predicate Started(c: Config) {
    ROOT_PATH in c.src && c.decode(c.src[ROOT_PATH]).Some?
  }

  function Root(c: Config): HAS {
    if Started(c) then c.decode(c.src[ROOT_PATH]).value else HAS(0, None)
  }

  function RootContent(c: Config): Bytes {
    if Started(c) then c.rewrite(c.src[ROOT_PATH]) else []
  }

  function MirrorRange(c: Config): Range {
    Clamp(c.requested, StateRange(Root(c).currentLedger))
  }

  function Init(c: Config): State {
    State(c.dst, {}, 0, CheckpointList(MirrorRange(c)), seq(c.workers, _ => Idle), false, [])
  }

  function CheckpointHAS(c: Config, chk: uint32): Option<HAS> {
    var pth := CheckpointPath(History, chk);
    if pth in c.src then c.decode(c.src[pth]) else None
  }

  /** The outcome of one stage of copyPath. */
  datatype CopyOutcome = Copied | Failed | Continue

  function CopyStep(c: Config, dst: map<string, Bytes>, pth: string, stage: Stage, fail: bool): (map<string, Bytes>, CopyOutcome) {
    match stage
    case Checking =>
      if c.dryRun then (dst, Copied)
      else if fail then (dst, Failed)
      else if pth in dst && !c.force then (dst, Copied)
      else (dst, Continue)
    case Writing =>
      if fail || pth !in c.src then (dst, Failed)
      else (dst[pth := c.src[pth]], Copied)
  }

  /** Worker i makes its next move; fail says whether the backend lets it down. */
  function Step(c: Config, s: State, i: nat, fail: bool): State {
    if s.panicked || i >= |s.workers| then s else
    match s.workers[i]
    case Idle =>
      if s.pending == [] then s.(workers := s.workers[i := Finished]) else
      Receive(c, s.(pending := s.pending[1..]), i, s.pending[0], fail)
    case Referencing(chk, buckets) =>
      if buckets == [] then s.(workers := s.workers[i := Filing(chk, CATEGORIES)])
      else if buckets[0] in s.bucketFetch then s.(workers := s.workers[i := Referencing(chk, buckets[1..])])
      else s.(bucketFetch := s.bucketFetch + {buckets[0]}, copied := s.copied + [buckets[0]],
              workers := s.workers[i := CopyingBucket(chk, buckets[0], buckets[1..], Checking)])
    case CopyingBucket(chk, bucket, buckets, stage) =>
      var (dst, outcome) := CopyStep(c, s.dst, BucketPath(bucket), stage, fail);
      s.(dst := dst, errs := s.errs + if outcome.Failed? then 1 else 0,
         workers := s.workers[i := if outcome.Continue? then CopyingBucket(chk, bucket, buckets, Writing) else Referencing(chk, buckets)])
    case Filing(chk, cats) =>
      s.(workers := s.workers[i := if cats == [] then Idle else CopyingFile(chk, cats[0], cats[1..], Checking)])
    case CopyingFile(chk, cat, cats, stage) =>
      var (dst, outcome) := CopyStep(c, s.dst, CheckpointPath(cat, chk), stage, fail);
      s.(dst := dst, errs := s.errs + if outcome.Failed? && Required(cat) then 1 else 0,
         workers := s.workers[i := if outcome.Continue? then CopyingFile(chk, cat, cats, Writing) else Filing(chk, cats)])
    case Finished => s
  }

  /** A worker has taken a checkpoint from the channel: read its state from the source. */
  function Receive(c: Config, s: State, i: nat, chk: int, fail: bool): State
    requires i < |s.workers|
  {
    if fail || !(0 <= chk <= MAX_UINT32) || CheckpointHAS(c, chk).None? then s.(errs := s.errs + 1)
    else if CheckpointHAS(c, chk).value.buckets.None? then s.(panicked := true)
    else s.(workers := s.workers[i := Referencing(chk, CheckpointHAS(c, chk).value.buckets.value)])
  }

  datatype Move = Move(worker: nat, fail: bool)

  /** The state after a sequence of moves. */
  function Run(c: Config, moves: seq<Move>): State {
    if moves == [] then Init(c) else
    var last := moves[|moves| - 1];
    Step(c, Run(c, moves[..|moves| - 1]), last.worker, last.fail)
  }

  /** wg.Wait returns. */
  ghost predicate AllFinished(s: State) {
    !s.panicked && forall w :: w in s.workers ==> w == Finished
  }

  /** Mirror replaces the destination's root state: the range ends at the source's current ledger.
      PutRootHAS looks neither at DryRun nor at Force. */
  predicate ReplacesRoot(c: Config, fail: bool) {
    Started(c) && Root(c).currentLedger == MirrorRange(c).high && !fail
  }

  /** What Mirror does around its workers: end at once if it cannot start; afterwards replace the
      destination's root state, or look at it.  Yields the destination and the error count. */
  function Finish(c: Config, s: State, fail: bool): (map<string, Bytes>, nat) {
    if !Started(c) then (c.dst, 1)
    else if ReplacesRoot(c, fail) then (s.dst[ROOT_PATH := RootContent(c)], s.errs)
    else if fail then (s.dst, s.errs + 1)
    else (s.dst, s.errs + if ROOT_PATH !in s.dst || c.decode(s.dst[ROOT_PATH]).None? then 1 else 0)
  }

  // ----- Each bucket is copied at most once -----

  ghost predicate CopiedAreFetched(s: State) {
    Distinct(s.copied) && forall h :: h in s.copied <==> h in s.bucketFetch
  }

  lemma {:induction false} EachBucketCopiedOnce(c: Config, moves: seq<Move>)
    ensures CopiedAreFetched(Run(c, moves))
  {
    if moves != [] {
      EachBucketCopiedOnce(c, moves[..|moves| - 1]);
      var s, last := Run(c, moves[..|moves| - 1]), moves[|moves| - 1];
      hide BucketPath, CheckpointPath, CopyStep;
      assert CopiedAreFetched(Step(c, s, last.worker, last.fail));
    }
  }

  // ----- What a clean run has achieved -----

  /** The buckets that the source's state at a checkpoint references. */
  function BucketsAt(c: Config, chk: int): Option<seq<Hash>> {
    if 0 <= chk <= MAX_UINT32 && CheckpointHAS(c, chk).Some? then CheckpointHAS(c, chk).value.buckets else None
  }

  /** The buckets of a checkpoint are all claimed, except those still to be looked at. */
  ghost predicate Claimed(c: Config, s: State, chk: int, todo: seq<Hash>) {
    BucketsAt(c, chk).Some? && forall h :: h in BucketsAt(c, chk).value ==> h in s.bucketFetch || h in todo
  }

  /** A file is there, with the source's content if Force is on. */
  ghost predicate Delivered(c: Config, dst: map<string, Bytes>, p: string) {
    p in dst && (c.force ==> p in c.src && dst[p] == c.src[p])
  }

  /** The required files of a checkpoint are all delivered, except those still to be copied. */
  ghost predicate Filed(c: Config, s: State, chk: int, todo: seq<Category>) {
    && 0 <= chk <= MAX_UINT32
    && forall cat: Category :: Required(cat) ==> Delivered(c, s.dst, CheckpointPath(cat, chk)) || cat in todo
  }

  ghost predicate Done(c: Config, s: State, chk: int) {
    Claimed(c, s, chk, []) && Filed(c, s, chk, [])
  }

  /** A worker's own position is consistent with the shared state. */
  ghost predicate WorkerOk(c: Config, s: State, w: Worker) {
    match w
    case Idle => true
    case Referencing(chk, buckets) => Claimed(c, s, chk, buckets)
    case CopyingBucket(chk, bucket, buckets, _) => Claimed(c, s, chk, buckets) && bucket in s.bucketFetch
    case Filing(chk, cats) => Claimed(c, s, chk, []) && Filed(c, s, chk, cats)
    case CopyingFile(chk, cat, cats, _) => Claimed(c, s, chk, []) && Filed(c, s, chk, [cat] + cats)
    case Finished => s.pending == []
  }

  ghost predicate Handles(w: Worker, chk: int) {
    !w.Idle? && !w.Finished? && w.chk == chk
  }

  ghost predicate Copies(w: Worker, h: Hash) {
    w.CopyingBucket? && w.bucket == h
  }

  ghost predicate Covered(c: Config, s: State, chk: int) {
    chk in s.pending || Done(c, s, chk) || exists i :: 0 <= i < |s.workers| && Handles(s.workers[i], chk)
  }

  ghost predicate Stored(c: Config, s: State, h: Hash) {
    Delivered(c, s.dst, BucketPath(h)) || exists i :: 0 <= i < |s.workers| && Copies(s.workers[i], h)
  }

  /** Nothing has gone wrong so far. */
  ghost predicate Clean(s: State) {
    s.errs == 0 && !s.panicked
  }

  ghost predicate Progress(c: Config, s: State) {
    && (forall i :: 0 <= i < |s.workers| ==> WorkerOk(c, s, s.workers[i]))
    && (forall chk :: chk in CheckpointList(MirrorRange(c)) ==> Covered(c, s, chk))
    && (forall h :: h in s.bucketFetch ==> Stored(c, s, h))
  }

  /** What a step of worker i may change: the shared state only grows, other workers stay put. */
  ghost predicate Grows(c: Config, s: State, s': State, i: nat) {
    && i < |s.workers| == |s'.workers|
    && (forall p :: Delivered(c, s.dst, p) ==> Delivered(c, s'.dst, p)) && s.bucketFetch <= s'.bucketFetch
    && (forall j :: 0 <= j < |s.workers| && j != i ==> s'.workers[j] == s.workers[j])
    && (forall chk :: chk in s'.pending ==> chk in s.pending)
    && (s.pending == [] ==> s'.pending == [])
  }

  /** Whatever the moving worker leaves behind is taken care of. */
  ghost predicate HandsOver(c: Config, s: State, s': State, i: nat)
    requires i < |s.workers| == |s'.workers|
  {
    && WorkerOk(c, s', s'.workers[i])
    && (forall chk :: Handles(s.workers[i], chk) ==> Handles(s'.workers[i], chk) || Done(c, s', chk))
    && (forall chk :: chk in s.pending && chk !in s'.pending ==> Handles(s'.workers[i], chk))
    && (forall h :: Copies(s.workers[i], h) ==> Copies(s'.workers[i], h) || Delivered(c, s'.dst, BucketPath(h)))
    && (forall h :: h in s'.bucketFetch && h !in s.bucketFetch ==> Copies(s'.workers[i], h))
  }

  lemma ProgressKept(c: Config, s: State, s': State, i: nat)
    requires Progress(c, s) && Grows(c, s, s', i) && HandsOver(c, s, s', i)
    ensures Progress(c, s')
  {
    hide BucketPath, CheckpointPath, CheckpointList, BucketsAt;
    forall j | 0 <= j < |s'.workers|
      ensures WorkerOk(c, s', s'.workers[j])
    {
      if j != i { WorkerOkKept(c, s, s', s.workers[j]); }
    }
    hide WorkerOk;
    forall chk | chk in CheckpointList(MirrorRange(c))
      ensures Covered(c, s', chk)
    {
      CoveredKept(c, s, s', i, chk);
    }
    forall h | h in s'.bucketFetch
      ensures Stored(c, s', h)
    {
      StoredKept(c, s, s', i, h);
    }
  }

  lemma WorkerOkKept(c: Config, s: State, s': State, w: Worker)
    requires WorkerOk(c, s, w)
    requires (forall p :: Delivered(c, s.dst, p) ==> Delivered(c, s'.dst, p)) && s.bucketFetch <= s'.bucketFetch
    requires s.pending == [] ==> s'.pending == []
    ensures WorkerOk(c, s', w)
  {
    hide BucketPath, CheckpointPath, BucketsAt, Delivered;
  }

  lemma CoveredKept(c: Config, s: State, s': State, i: nat, chk: int)
    requires Covered(c, s, chk) && Grows(c, s, s', i) && HandsOver(c, s, s', i)
    ensures Covered(c, s', chk)
  {
    hide BucketPath, CheckpointPath, BucketsAt, WorkerOk, Delivered;
    if chk in s.pending {
      if chk !in s'.pending { assert Handles(s'.workers[i], chk); }
    } else if Done(c, s, chk) {
      assert Done(c, s', chk);
    } else {
      var j :| 0 <= j < |s.workers| && Handles(s.workers[j], chk);
      if j != i { assert Handles(s'.workers[j], chk); }
    }
  }

  lemma StoredKept(c: Config, s: State, s': State, i: nat, h: Hash)
    requires h in s'.bucketFetch && (h in s.bucketFetch ==> Stored(c, s, h))
    requires Grows(c, s, s', i) && HandsOver(c, s, s', i)
    ensures Stored(c, s', h)
  {
    hide BucketPath, CheckpointPath, BucketsAt, WorkerOk, Delivered;
    if h !in s.bucketFetch {
      assert Copies(s'.workers[i], h);
    } else if !Delivered(c, s'.dst, BucketPath(h)) {
      var j :| 0 <= j < |s.workers| && Copies(s.workers[j], h);
      if j != i { assert Copies(s'.workers[j], h); }
    }
  }

  /** A copyPath that ends without failing leaves the file in place, the source's with Force; nothing that
      was delivered is lost. */
  lemma CopyStepStores(c: Config, dst: map<string, Bytes>, pth: string, stage: Stage, fail: bool)
    ensures var (dst', outcome) := CopyStep(c, dst, pth, stage, fail);
      && (forall p :: Delivered(c, dst, p) ==> Delivered(c, dst', p))
      && (outcome.Copied? && !c.dryRun ==> Delivered(c, dst', pth))
      && (outcome.Continue? ==> stage == Checking && !c.dryRun && (pth in dst ==> c.force))
  {
  }

  lemma StepGrows(c: Config, s: State, i: nat, fail: bool)
    requires i < |s.workers| && !s.panicked
    ensures Grows(c, s, Step(c, s, i, fail), i)
  {
    hide BucketPath, CheckpointPath, CopyStep, CheckpointHAS, Delivered;
    match s.workers[i]
    case CopyingBucket(chk, bucket, buckets, stage) => CopyStepStores(c, s.dst, BucketPath(bucket), stage, fail);
    case CopyingFile(chk, cat, cats, stage) => CopyStepStores(c, s.dst, CheckpointPath(cat, chk), stage, fail);
    case _ =>
  }

  lemma StepHandsOver(c: Config, s: State, i: nat, fail: bool)
    requires i < |s.workers| && !c.dryRun
    requires WorkerOk(c, s, s.workers[i]) && Clean(Step(c, s, i, fail)) && !s.panicked
    ensures HandsOver(c, s, Step(c, s, i, fail), i)
  {
    hide BucketPath, CheckpointPath, CopyStep, CheckpointHAS, Delivered;
    var s' := Step(c, s, i, fail);
    match s.workers[i]
    case CopyingBucket(chk, bucket, buckets, stage) =>
      CopyStepStores(c, s.dst, BucketPath(bucket), stage, fail);
      var outcome := CopyStep(c, s.dst, BucketPath(bucket), stage, fail).1;
      assert s'.errs == s.errs + if outcome.Failed? then 1 else 0;
      assert outcome.Continue? ==> Copies(s'.workers[i], bucket);
      assert outcome.Copied? ==> Delivered(c, s'.dst, BucketPath(bucket));
      assert Claimed(c, s', chk, buckets);
    case CopyingFile(chk, cat, cats, stage) =>
      CopyStepStores(c, s.dst, CheckpointPath(cat, chk), stage, fail);
      var outcome := CopyStep(c, s.dst, CheckpointPath(cat, chk), stage, fail).1;
      assert s'.errs == s.errs + if outcome.Failed? && Required(cat) then 1 else 0;
      assert outcome.Copied? ==> Delivered(c, s'.dst, CheckpointPath(cat, chk));
      assert Claimed(c, s', chk, []);
      assert Filed(c, s', chk, [cat] + cats);
      assert !outcome.Continue? ==> Filed(c, s', chk, cats);
    case _ =>
  }

  lemma StartsCovered(c: Config)
    ensures Progress(c, Init(c))
  {
    hide CheckpointList;
  }

  /** Errors and panics are never taken back. */
  lemma CleanBefore(c: Config, s: State, i: nat, fail: bool)
    requires Clean(Step(c, s, i, fail))
    ensures Clean(s)
  {
    hide BucketPath, CheckpointPath, CopyStep, CheckpointHAS;
  }

  lemma {:induction false} RunProgresses(c: Config, moves: seq<Move>)
    requires !c.dryRun && Clean(Run(c, moves))
    ensures Progress(c, Run(c, moves))
  {
    if moves == [] {
      StartsCovered(c);
    } else {
      var s, last := Run(c, moves[..|moves| - 1]), moves[|moves| - 1];
      hide Progress;
      CleanBefore(c, s, last.worker, last.fail);
      RunProgresses(c, moves[..|moves| - 1]);
      if last.worker < |s.workers| {
        StepProgresses(c, s, last.worker, last.fail);
      }
    }
  }

  lemma StepProgresses(c: Config, s: State, i: nat, fail: bool)
    requires !c.dryRun && i < |s.workers| && Progress(c, s) && Clean(s) && Clean(Step(c, s, i, fail))
    ensures Progress(c, Step(c, s, i, fail))
  {
    hide Step, WorkerOk, Grows, HandsOver, Covered, Stored, CheckpointList;
    StepGrows(c, s, i, fail);
    StepHandsOver(c, s, i, fail);
    ProgressKept(c, s, Step(c, s, i, fail), i);
  }

  // ----- The result -----

  /** A path holds the source's content, unless there was a file before and Force is off: that one stays. */
  ghost predicate Holds(c: Config, dst: map<string, Bytes>, p: string) {
    && p in dst
    && if p in c.dst && !c.force then dst[p] == c.dst[p] else p in c.src && dst[p] == c.src[p]
  }

  /** What mirroring a checkpoint is for: its files but scp, and the buckets that the source's history file
      references. */
  ghost predicate Mirrored(c: Config, dst: map<string, Bytes>, chk: int) {
    && 0 <= chk <= MAX_UINT32
    && (forall cat: Category :: cat != Scp ==> Holds(c, dst, CheckpointPath(cat, chk)))
    && var history := CheckpointPath(History, chk);
    && history in c.src
    && match c.decode(c.src[history])
       case None => false
       case Some(has) => has.buckets.Some? && forall h :: h in has.buckets.value ==> Holds(c, dst, BucketPath(h))
  }

  lemma {:induction false} WorkersStay(c: Config, moves: seq<Move>)
    ensures |Run(c, moves).workers| == c.workers
  {
    if moves != [] {
      WorkersStay(c, moves[..|moves| - 1]);
      hide BucketPath, CheckpointPath, CopyStep, CheckpointHAS, Init;
    } else {
      hide CheckpointList;
    }
  }

  /** In every interleaving of at least one worker: if all have finished and no error was counted,
      without DryRun, then the destination holds every file but scp of every checkpoint in the range
      clamped to the source's, and every bucket that the source's states there reference: the source's
      content, or without Force what was there before. */
  lemma MirrorComplete(c: Config, moves: seq<Move>, fail: bool)
    requires c.workers >= 1 && !c.dryRun
    requires AllFinished(Run(c, moves)) && Finish(c, Run(c, moves), fail).1 == 0
    ensures ROOT_PATH in c.src && c.decode(c.src[ROOT_PATH]).Some?
    ensures var range := Clamp(c.requested, StateRange(c.decode(c.src[ROOT_PATH]).value.currentLedger));
      forall chk :: chk in CheckpointList(range) ==> Mirrored(c, Finish(c, Run(c, moves), fail).0, chk)
  {
    var s := Run(c, moves);
    WorkersStay(c, moves);
    FinishKeepsErrors(c, s, fail);
    hide CheckpointList, Clamp, StateRange, Run, Finish, Mirrored, Progress, Conserves, ROOT_PATH;
    RunProgresses(c, moves);
    RunConserves(c, moves);
    NothingPending(c, s);
    forall chk | chk in CheckpointList(MirrorRange(c))
      ensures Mirrored(c, Finish(c, s, fail).0, chk)
    {
      ProgressMeans(c, s, chk);
      FinishedIsMirrored(c, s, chk);
      MirroredAtTheEnd(c, s, fail, chk);
    }
  }

  lemma FinishKeepsErrors(c: Config, s: State, fail: bool)
    requires Finish(c, s, fail).1 == 0
    ensures s.errs == 0 && ROOT_PATH in c.src && c.decode(c.src[ROOT_PATH]).Some?
  {
    hide MirrorRange, ROOT_PATH;
  }

  /** What Mirror writes at the end is neither a bucket nor a checkpoint file. */
  lemma MirroredAtTheEnd(c: Config, s: State, fail: bool, chk: int)
    requires Finish(c, s, fail).1 == 0 && Mirrored(c, s.dst, chk)
    ensures Mirrored(c, Finish(c, s, fail).0, chk)
  {
    RootIsNoFile();
    hide MirrorRange, ROOT_PATH, BucketPath, CheckpointPath;
  }

  lemma NothingPending(c: Config, s: State)
    requires Progress(c, s) && AllFinished(s) && |s.workers| >= 1
    ensures s.pending == []
  {
    hide CheckpointList, MirrorRange, Covered, Stored, Claimed, Filed;
    assert s.workers[0] in s.workers && WorkerOk(c, s, s.workers[0]);
  }

  lemma ProgressMeans(c: Config, s: State, chk: int)
    requires Progress(c, s) && chk in CheckpointList(MirrorRange(c))
    ensures Covered(c, s, chk) && forall h :: h in s.bucketFetch ==> Stored(c, s, h)
  {
    hide CheckpointList, MirrorRange, Covered, Stored, WorkerOk;
  }

  /** Once every worker has finished, a covered checkpoint is done and a claimed bucket stored. */
  lemma FinishedIsMirrored(c: Config, s: State, chk: int)
    requires AllFinished(s) && s.pending == [] && Conserves(c, s)
    requires Covered(c, s, chk) && forall h :: h in s.bucketFetch ==> Stored(c, s, h)
    ensures Mirrored(c, s.dst, chk)
  {
    hide BucketPath, CheckpointPath, Delivered, Conserves, Holds;
    assert forall i :: 0 <= i < |s.workers| ==> s.workers[i] in s.workers;
    assert Done(c, s, chk);
    assert forall cat: Category :: cat != Scp ==> Required(cat);
    forall p | Delivered(c, s.dst, p)
      ensures Holds(c, s.dst, p)
    {
      DeliveredHolds(c, s, p);
    }
    forall h | h in BucketsAt(c, chk).value
      ensures Delivered(c, s.dst, BucketPath(h))
    {
      assert Stored(c, s, h);
    }
  }

  lemma DeliveredHolds(c: Config, s: State, p: string)
    requires Delivered(c, s.dst, p) && Conserves(c, s)
    ensures Holds(c, s.dst, p)
  {
    hide WritesNewOnly, ROOT_PATH;
  }

  // ----- What is never changed -----

  /** A path holds the same in both, or nothing in both. */
  ghost predicate Same(a: map<string, Bytes>, b: map<string, Bytes>, p: string) {
    (p in a <==> p in b) && (p in a ==> a[p] == b[p])
  }

  /** A file of the destination is what it was, or what the source has. */
  ghost predicate FromEither(c: Config, dst: map<string, Bytes>, p: string) {
    p in dst && ((p in c.dst && dst[p] == c.dst[p]) || (p in c.src && dst[p] == c.src[p]))
  }

  /** Without Force no worker is about to write over a file that was there before, and in a dry run
      none is about to write. */
  ghost predicate WritesNewOnly(c: Config, w: Worker) {
    && (w.CopyingBucket? && w.stage == Writing ==> !c.dryRun && (!c.force ==> BucketPath(w.bucket) !in c.dst))
    && (w.CopyingFile? && w.stage == Writing ==> !c.dryRun && (!c.force ==> CheckpointPath(w.cat, w.chk) !in c.dst))
  }

  ghost predicate Conserves(c: Config, s: State) {
    && c.dst.Keys <= s.dst.Keys
    && (forall p :: p in s.dst ==> FromEither(c, s.dst, p))
    && (!c.force ==> forall p :: p in c.dst ==> Same(c.dst, s.dst, p))
    && (c.dryRun ==> s.dst == c.dst)
    && Same(c.dst, s.dst, ROOT_PATH)
    && (forall w :: w in s.workers ==> WritesNewOnly(c, w))
  }

  /** In every interleaving, also one that fails: the workers leave each file of the destination as it
      was or give it the source's content, lose none, without Force change none that was there, in a
      dry run change nothing at all, and never touch the root state. */
  lemma {:induction false} RunConserves(c: Config, moves: seq<Move>)
    ensures Conserves(c, Run(c, moves))
  {
    if moves == [] {
      hide CheckpointList;
    } else {
      var s, last := Run(c, moves[..|moves| - 1]), moves[|moves| - 1];
      RunConserves(c, moves[..|moves| - 1]);
      StepConserves(c, s, last.worker, last.fail);
    }
  }

  lemma RootIsNoFile()
    ensures forall cat, chk :: CheckpointPath(cat, chk) != ROOT_PATH
    ensures forall h :: BucketPath(h) != ROOT_PATH
  {
    forall cat, chk
      ensures CheckpointPath(cat, chk) != ROOT_PATH
    {
      FirstLetter(cat, chk);
    }
    forall h
      ensures BucketPath(h) != ROOT_PATH
    {
      assert BucketPath(h)[0] == 'b';
    }
  }

  lemma FirstLetter(cat: Category, chk: uint32)
    ensures CheckpointPath(cat, chk) != ROOT_PATH
  {
    assert CheckpointPath(cat, chk)[0] == Name(cat)[0];
    assert Name(cat)[0] != '.';
  }

  lemma StepConserves(c: Config, s: State, i: nat, fail: bool)
    requires Conserves(c, s)
    ensures Conserves(c, Step(c, s, i, fail))
  {
    var s' := Step(c, s, i, fail);
    hide Step, FromEither, WritesNewOnly, Same;
    if i < |s.workers| && !s.panicked {
      StepWrites(c, s, i, fail);
      StepPosition(c, s, i, fail);
      WriteConserves(c, s.dst, s'.dst);
      OthersWriteNewOnly(c, s, s', i);
    } else {
      NoStep(c, s, i, fail);
    }
  }

  lemma NoStep(c: Config, s: State, i: nat, fail: bool)
    requires i >= |s.workers| || s.panicked
    ensures Step(c, s, i, fail) == s
  {
  }

  /** What one step does to the destination: nothing, or one file of the source is stored, which without
      Force is new, in no dry run and never at the root state's path. */
  ghost predicate Writes(c: Config, dst: map<string, Bytes>, dst': map<string, Bytes>) {
    dst' == dst || exists p {:trigger p in c.src} :: p in c.src && p != ROOT_PATH && !c.dryRun && (!c.force ==> p !in c.dst) && dst' == dst[p := c.src[p]]
  }

  lemma StepWrites(c: Config, s: State, i: nat, fail: bool)
    requires i < |s.workers| && !s.panicked && WritesNewOnly(c, s.workers[i])
    ensures Writes(c, s.dst, Step(c, s, i, fail).dst)
  {
    hide BucketPath, CheckpointPath, CheckpointHAS, ROOT_PATH;
    RootIsNoFile();
  }

  lemma WriteConserves(c: Config, dst: map<string, Bytes>, dst': map<string, Bytes>)
    requires Writes(c, dst, dst')
    requires c.dst.Keys <= dst.Keys && (forall p :: p in dst ==> FromEither(c, dst, p))
    requires (!c.force ==> forall p :: p in c.dst ==> Same(c.dst, dst, p)) && (c.dryRun ==> dst == c.dst)
    requires Same(c.dst, dst, ROOT_PATH)
    ensures c.dst.Keys <= dst'.Keys && (forall p :: p in dst' ==> FromEither(c, dst', p))
    ensures (!c.force ==> forall p :: p in c.dst ==> Same(c.dst, dst', p)) && (c.dryRun ==> dst' == c.dst)
    ensures Same(c.dst, dst', ROOT_PATH)
  {
    hide ROOT_PATH;
  }

  /** Where the moving worker stands afterwards, and that the others stay put. */
  lemma StepPosition(c: Config, s: State, i: nat, fail: bool)
    requires i < |s.workers| && !s.panicked && WritesNewOnly(c, s.workers[i])
    requires c.dst.Keys <= s.dst.Keys
    ensures var s' := Step(c, s, i, fail);
      && |s'.workers| == |s.workers| && WritesNewOnly(c, s'.workers[i])
      && forall j :: 0 <= j < |s.workers| && j != i ==> s'.workers[j] == s.workers[j]
  {
    hide BucketPath, CheckpointPath, CheckpointHAS;
  }

  lemma OthersWriteNewOnly(c: Config, s: State, s': State, i: nat)
    requires i < |s.workers| == |s'.workers| && WritesNewOnly(c, s'.workers[i])
    requires forall j :: 0 <= j < |s.workers| && j != i ==> s'.workers[j] == s.workers[j]
    requires forall w :: w in s.workers ==> WritesNewOnly(c, w)
    ensures forall w :: w in s'.workers ==> WritesNewOnly(c, w)
  {
    hide WritesNewOnly;
    forall w | w in s'.workers
      ensures WritesNewOnly(c, w)
    {
      var j :| 0 <= j < |s'.workers| && s'.workers[j] == w;
      if j != i { assert s.workers[j] in s.workers; }
    }
  }

  /** In every interleaving, also one that fails, for the destination that Mirror leaves behind:
      except for the root state each file is the one that was there or the source's, none is lost,
      without Force none that was there is changed, and in a dry run nothing is.  The root state is
      replaced whatever the options, exactly if the range ends at the source's current ledger and the
      backend accepts it. */
  lemma MirrorConserves(c: Config, moves: seq<Move>, fail: bool)
    ensures var dst := Finish(c, Run(c, moves), fail).0;
      && (forall p :: p in c.dst ==> p in dst)
      && (forall p :: p in dst && p != ROOT_PATH ==> FromEither(c, dst, p))
      && (!c.force ==> forall p :: p in c.dst && p != ROOT_PATH ==> Same(c.dst, dst, p))
      && (c.dryRun ==> forall p :: p != ROOT_PATH ==> Same(c.dst, dst, p))
    ensures var dst := Finish(c, Run(c, moves), fail).0;
      if ROOT_PATH in c.src && WritesRoot(c, c.src[ROOT_PATH], fail)
      then ROOT_PATH in dst && dst[ROOT_PATH] == c.rewrite(c.src[ROOT_PATH])
      else Same(c.dst, dst, ROOT_PATH)
  {
    RunConserves(c, moves);
    hide Run, Clamp, StateRange, ROOT_PATH;
  }

  /** The root state read from some content ends the range, and the backend accepts it. */
  ghost predicate WritesRoot(c: Config, content: Bytes, fail: bool) {
    match c.decode(content)
    case None => false
    case Some(has) => has.currentLedger == Clamp(c.requested, StateRange(has.currentLedger)).high && !fail
  }

  /** A dry run leaves the destination as it is exactly if it does not replace the root state, or
      replaces it by the same content. */
  lemma DryRunChangesNothingExactly(c: Config, moves: seq<Move>, fail: bool)
    requires c.dryRun
    ensures Run(c, moves).dst == c.dst
    ensures Finish(c, Run(c, moves), fail).0 == c.dst <==> (
      !ReplacesRoot(c, fail) || (ROOT_PATH in c.dst && c.dst[ROOT_PATH] == RootContent(c)))
  {
    RunConserves(c, moves);
    hide Run, MirrorRange, ROOT_PATH;
    if ReplacesRoot(c, fail) {
      assert c.dst[ROOT_PATH := RootContent(c)] == c.dst <==> ROOT_PATH in c.dst && c.dst[ROOT_PATH] == RootContent(c);
    }
  }

  // ----- No false alarms -----

  /** Copying a path cannot fail unless the backend does. */
  ghost predicate Available(c: Config, p: string) {
    c.dryRun || p in c.src || (p in c.dst && !c.force)
  }

  /** The source has all that mirroring a checkpoint takes. */
  ghost predicate HasAll(c: Config, chk: int) {
    && BucketsAt(c, chk).Some?
    && (forall h :: h in BucketsAt(c, chk).value ==> Available(c, BucketPath(h)))
    && (forall cat: Category :: cat != Scp ==> Available(c, CheckpointPath(cat, chk)))
  }

  ghost predicate SourceComplete(c: Config) {
    forall chk :: chk in CheckpointList(MirrorRange(c)) ==> HasAll(c, chk)
  }

  /** What a worker has still to do cannot fail. */
  ghost predicate Feasible(c: Config, w: Worker) {
    match w
    case Referencing(chk, buckets) => HasAll(c, chk) && forall h :: h in buckets ==> Available(c, BucketPath(h))
    case CopyingBucket(chk, bucket, buckets, stage) =>
      && HasAll(c, chk) && (forall h :: h in buckets ==> Available(c, BucketPath(h)))
      && Available(c, BucketPath(bucket)) && (stage == Writing ==> BucketPath(bucket) in c.src)
    case Filing(chk, cats) => HasAll(c, chk)
    case CopyingFile(chk, cat, cats, stage) =>
      HasAll(c, chk) && (stage == Writing && cat != Scp ==> CheckpointPath(cat, chk) in c.src)
    case _ => true
  }

  ghost predicate Calm(c: Config, s: State) {
    && Clean(s) && c.dst.Keys <= s.dst.Keys
    && (forall chk :: chk in s.pending ==> HasAll(c, chk))
    && (forall w :: w in s.workers ==> Feasible(c, w))
  }

  lemma CopyStepCalm(c: Config, dst: map<string, Bytes>, pth: string, stage: Stage)
    requires c.dst.Keys <= dst.Keys
    ensures var (dst', outcome) := CopyStep(c, dst, pth, stage, false);
      && c.dst.Keys <= dst'.Keys
      && (Available(c, pth) && (stage == Writing ==> pth in c.src) ==> !outcome.Failed?)
      && (outcome.Continue? && Available(c, pth) ==> pth in c.src)
  {
  }

  lemma StepCalm(c: Config, s: State, i: nat)
    requires i < |s.workers| && Calm(c, s)
    ensures var s' := Step(c, s, i, false);
      && Clean(s') && c.dst.Keys <= s'.dst.Keys && |s'.workers| == |s.workers|
      && (forall chk :: chk in s'.pending ==> HasAll(c, chk))
      && Feasible(c, s'.workers[i])
      && forall j :: 0 <= j < |s.workers| && j != i ==> s'.workers[j] == s.workers[j]
  {
    hide BucketPath, CheckpointPath, CopyStep, Available;
    assert s.workers[i] in s.workers;
    match s.workers[i]
    case Idle =>
      if s.pending != [] {
        assert s.pending[0] in s.pending && HasAll(c, s.pending[0]);
      }
    case CopyingBucket(chk, bucket, buckets, stage) => CopyStepCalm(c, s.dst, BucketPath(bucket), stage);
    case CopyingFile(chk, cat, cats, stage) => CopyStepCalm(c, s.dst, CheckpointPath(cat, chk), stage);
    case _ =>
  }

  lemma CalmKept(c: Config, s: State, s': State, i: nat)
    requires Calm(c, s) && i < |s.workers| == |s'.workers|
    requires Clean(s') && c.dst.Keys <= s'.dst.Keys
    requires forall chk :: chk in s'.pending ==> HasAll(c, chk)
    requires Feasible(c, s'.workers[i])
    requires forall j :: 0 <= j < |s.workers| && j != i ==> s'.workers[j] == s.workers[j]
    ensures Calm(c, s')
  {
    hide Feasible, HasAll;
    forall w | w in s'.workers
      ensures Feasible(c, w)
    {
      var j :| 0 <= j < |s'.workers| && s'.workers[j] == w;
      if j != i { assert s.workers[j] in s.workers; }
    }
  }

  lemma {:induction false} RunCalm(c: Config, moves: seq<Move>)
    requires SourceComplete(c) && forall m :: m in moves ==> !m.fail
    ensures Calm(c, Run(c, moves))
  {
    if moves == [] {
      hide CheckpointList, HasAll;
    } else {
      var s, last := Run(c, moves[..|moves| - 1]), moves[|moves| - 1];
      assert last in moves && forall m :: m in moves[..|moves| - 1] ==> m in moves;
      RunCalm(c, moves[..|moves| - 1]);
      if last.worker < |s.workers| {
        StepCalm(c, s, last.worker);
        hide Calm, Step, Feasible, HasAll, SourceComplete;
        CalmKept(c, s, Step(c, s, last.worker, false), last.worker);
      } else {
        NoStep(c, s, last.worker, last.fail);
      }
    }
  }

  /** In every interleaving in which the backend never fails, of a source that has all that its range
      takes: no error is counted, and Mirror reports success unless the destination should have a
      readable root state and has not. */
  lemma MirrorSucceeds(c: Config, moves: seq<Move>)
    requires Started(c) && SourceComplete(c) && forall m :: m in moves ==> !m.fail
    ensures Clean(Run(c, moves))
    ensures Finish(c, Run(c, moves), false).1 == 0 <==>
      || WritesRoot(c, c.src[ROOT_PATH], false)
      || (ROOT_PATH in c.dst && c.decode(c.dst[ROOT_PATH]).Some?)
  {
    RunCalm(c, moves);
    RunConserves(c, moves);
    hide Run, Clamp, StateRange, ROOT_PATH, SourceComplete;
  }

  // ----- Two surprising configurations -----

  /** A source with a root state at the first checkpoint and nothing else, and an empty destination. */
  function EmptySource(dryRun: bool, workers: nat): Config {
    Config(map[ROOT_PATH := []], map[], _ => Some(HAS(63, Some([]))), content => content, Range(63, 63), dryRun, false, workers)
  }

  lemma EmptySourceRange(c: Config)
    requires Started(c) && Root(c).currentLedger == 63 && c.requested == Range(63, 63)
    ensures MirrorRange(c) == Range(63, 63) && CheckpointList(MirrorRange(c)) == [63]
  {
    assert ListFrom(127, 63) == [];
  }

  /** A dry run in which the one worker fails to read the only checkpoint: an error is reported, and
      the destination has gained a root state. */
  lemma DryRunReplacesRoot()
    ensures var c, moves := EmptySource(true, 1), [Move(0, true), Move(0, false)];
      && c.dryRun && AllFinished(Run(c, moves))
      && c.dst == map[] && Finish(c, Run(c, moves), false) == (map[ROOT_PATH := []], 1)
  {
    var c, moves := EmptySource(true, 1), [Move(0, true), Move(0, false)];
    EmptySourceRange(c);
    hide MirrorRange, CheckpointList, CheckpointHAS, ROOT_PATH;
    assert moves[..1] == [moves[0]] && moves[..1][..0] == [];
    assert Run(c, moves[..1][..0]) == Init(c);
    assert Run(c, moves[..1]) == Step(c, Init(c), 0, true);
    assert Run(c, moves).workers == [Finished];
  }

  /** With no worker at all nothing is copied, and whether an error is reported depends on the root
      states alone. */
  lemma {:induction false} NoWorkers(c: Config, moves: seq<Move>, fail: bool)
    requires c.workers == 0 && Started(c)
    ensures AllFinished(Run(c, moves)) && Run(c, moves).dst == c.dst && Run(c, moves).errs == 0
    ensures var (dst, errs) := Finish(c, Run(c, moves), fail);
      && dst == (if ReplacesRoot(c, fail) then c.dst[ROOT_PATH := RootContent(c)] else c.dst)
      && (errs == 0 <==> ReplacesRoot(c, fail) || (!fail && ROOT_PATH in c.dst && c.decode(c.dst[ROOT_PATH]).Some?))
  {
    if moves != [] {
      NoWorkers(c, moves[..|moves| - 1], fail);
      WorkersStay(c, moves[..|moves| - 1]);
    }
  }

  /** A mirror without workers that reports success, has advanced the destination's root state to a
      checkpoint, and has no file of that checkpoint. */
  lemma NoWorkersNotMirrored()
    ensures var c := EmptySource(false, 0);
      && !c.dryRun && AllFinished(Run(c, []))
      && Finish(c, Run(c, []), false) == (map[ROOT_PATH := []], 0)
      && 63 in CheckpointList(MirrorRange(c))
      && !Mirrored(c, Finish(c, Run(c, []), false).0, 63)
  {
    var c := EmptySource(false, 0);
    EmptySourceRange(c);
    NoWorkers(c, [], false);
    RootIsNoFile();
    hide MirrorRange, CheckpointList, CheckpointPath, BucketPath, ROOT_PATH;
    assert Required(History);
    assert CheckpointPath(History, 63) !in Finish(c, Run(c, []), false).0;
  }
}
