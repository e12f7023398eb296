/** What the report of missing files makes of a slow scan (historyarchive/scan.go). */
module SlowScan {
  import opened ArchiveFiles
  import opened ArchivePaths
  import opened Archives
  import opened Checkpoints
  import opened Wrappers

  /** After a slow scan no checkpoint file is ever reported missing, whatever the archive lacks: the
      report only asks whether there is an entry. */
  method SlowScanThenReport(arch: Archive, opts: CommandOptions) returns (r: Result<map<Category, seq<int>>, Failure>)
    requires arch.Valid()
    modifies arch`checkpointFiles
    ensures r.Ok? ==> forall cat: Category :: cat in r.value && r.value[cat] == []
  {
    hide CheckpointPath, CheckpointList;
    var scanned := arch.ScanCheckpointsSlow(opts);
    if scanned.Err? {
      return Err(scanned.error);
    }
    var missing := arch.CheckCheckpointFilesMissing(opts);
    ProbedIsNotMissing(arch, opts.range, missing);
    return Ok(missing);
  }

  lemma ProbedIsNotMissing(arch: Archive, range: Range, missing: map<Category, seq<int>>)
    requires arch.Valid() && arch.AllProbed(range)
    requires forall cat: Category :: cat in missing
    requires forall cat: Category, chk :: chk in missing[cat] <==> chk in CheckpointList(range) && chk !in arch.checkpointFiles[cat]
    ensures forall cat: Category :: missing[cat] == []
  {
    hide CheckpointPath, CheckpointList;
    forall cat: Category
      ensures missing[cat] == []
    {
      var chk := if |missing[cat]| > 0 then missing[cat][0] else 0;
      assert |missing[cat]| > 0 ==> chk in missing[cat];
      assert chk in CheckpointList(range) ==> arch.Probed(cat, chk);
    }
  }
}
