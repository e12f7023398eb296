/** Checkpoint numbers and ranges of them: historyarchive/range.go.

    CheckpointFreq is 64; it is written as a literal so that the arithmetic stays linear. */
module Checkpoints {
  const MAX_UINT32: int := 0xffff_ffff

  type uint32 = x: int | 0 <= x <= MAX_UINT32

  datatype Range = Range(low: uint32, high: uint32)

  function Wrap32(x: int): uint32 {
    x % 0x1_0000_0000
  }

  predicate IsCheckpoint(i: uint32) {
    Wrap32(i + 1) % 64 == 0
  }

  function PrevCheckpoint(i: uint32): uint32 {
    if i < 64 then 63 else Wrap32(Wrap32(i + 1) / 64 * 64 - 1)
  }

  function NextCheckpoint(i: uint32): uint32 {
    if i == 0 then 63 else
    var n := (i + 64) / 64 * 64 - 1;
    if n >= MAX_UINT32 then MAX_UINT32 else n
  }

  // ----- In terms of blocks of 64 ledgers -----

  lemma Block(i: int) returns (q: int, rest: int)
    requires i >= 0
    ensures i == 64 * q + rest && 0 <= rest < 64 && q >= 0
  {
    q, rest := i / 64, i % 64;
  }

  lemma BlockStep(q: int, rest: int)
    requires 0 <= rest < 64
    ensures (64 * q + rest + 1) / 64 == if rest == 63 then q + 1 else q
    ensures (64 * q + rest + 1) % 64 == if rest == 63 then 0 else rest + 1
    ensures (64 * q + rest + 64) / 64 == q + 1
  {
  }

  /** The wrap-around at the top of the 32-bit range and the cap change nothing: a checkpoint is the
      last ledger of its block. */
  lemma InBlock(i: uint32, q: int, rest: int)
    requires i == 64 * q + rest && 0 <= rest < 64
    ensures IsCheckpoint(i) <==> rest == 63
    ensures PrevCheckpoint(i) == if rest == 63 then i else if q == 0 then 63 else 64 * q - 1
    ensures NextCheckpoint(i) == 64 * q + 63
  {
    BlockStep(q, rest);
    NoWrap(i);
    hide Wrap32;
  }

  lemma NoWrap(i: uint32)
    ensures i < MAX_UINT32 ==> Wrap32(i + 1) == i + 1
    ensures i == MAX_UINT32 ==> Wrap32(i + 1) == 0
    ensures 63 <= i ==> Wrap32(i) == i
    ensures Wrap32(-1) == MAX_UINT32
    ensures i > 0 ==> Wrap32(i - 1) == i - 1
  {
  }

  lemma EndOfBlock(c: uint32, q: int)
    requires c == 64 * q + 63
    ensures IsCheckpoint(c)
  {
    hide IsCheckpoint, PrevCheckpoint, NextCheckpoint;
    InBlock(c, q, 63);
  }

  /** PrevCheckpoint is the last checkpoint not above i, or the very first checkpoint;
      NextCheckpoint is the first checkpoint not below i. */
  lemma ClosestCheckpoints(i: uint32)
    ensures IsCheckpoint(PrevCheckpoint(i)) && (PrevCheckpoint(i) <= i < PrevCheckpoint(i) + 64 || i < 63 == PrevCheckpoint(i))
    ensures IsCheckpoint(NextCheckpoint(i)) && (NextCheckpoint(i) - 64 < i <= NextCheckpoint(i))
    ensures 63 <= PrevCheckpoint(i)
    ensures IsCheckpoint(i) ==> PrevCheckpoint(i) == i == NextCheckpoint(i)
    ensures i >= 63 && !IsCheckpoint(i) ==> NextCheckpoint(i) == PrevCheckpoint(i) + 64
  {
    hide IsCheckpoint, PrevCheckpoint, NextCheckpoint;
    var q, rest := Block(i);
    InBlock(i, q, rest);
    EndOfBlock(NextCheckpoint(i), q);
    EndOfBlock(PrevCheckpoint(i), if rest == 63 || q == 0 then q else q - 1);
  }

  /** Two checkpoints are a multiple of 64 apart. */
  lemma CheckpointsApart(c: uint32, d: uint32)
    requires IsCheckpoint(c) && IsCheckpoint(d) && c < d
    ensures c + 64 <= d && (d - c) % 64 == 0
  {
    hide IsCheckpoint, PrevCheckpoint, NextCheckpoint;
    var p, x := Block(c);
    var q, y := Block(d);
    InBlock(c, p, x);
    InBlock(d, q, y);
    assert d - c == 64 * (q - p);
  }

  function MakeRange(low: uint32, high: uint32): (r: Range)
    ensures Aligned(r)
    ensures low <= r.high && high <= r.high && (63 <= low ==> r.low <= low)
  {
    var top := if high < low then low else high;
    ClosestCheckpoints(low);
    ClosestCheckpoints(top);
    Range(PrevCheckpoint(low), NextCheckpoint(top))
  }

  /** A range that starts and ends at a checkpoint. */
  ghost predicate Aligned(r: Range) {
    IsCheckpoint(r.low) && IsCheckpoint(r.high) && r.low <= r.high
  }

  function Max(x: uint32, y: uint32): (r: uint32)
    ensures x <= r && y <= r && (r == x || r == y)
  {
    if x < y then y else x
  }

  function Min(x: uint32, y: uint32): (r: uint32)
    ensures r <= x && r <= y && (r == x || r == y)
  {
    if x > y then y else x
  }

  function Clamp(r: Range, other: Range): (c: Range)
    ensures Aligned(c)
  {
    MakeRange(Max(r.low, other.low), Min(r.high, other.high))
  }

  /** HistoryArchiveState.Range. */
  function StateRange(currentLedger: uint32): Range {
    Range(63, currentLedger)
  }

  /** Clamping to the same archive twice moves the range once more exactly when the requested start
      is not a checkpoint and lies past the archive's last checkpoint: the first clamp then ends at
      the checkpoint after the start, the second at the one before it. */
  lemma ClampTwice(r: Range, currentLedger: uint32)
    ensures var o := StateRange(currentLedger); var start := Max(r.low, o.low);
      Clamp(Clamp(r, o), o) == Clamp(r, o) <==> IsCheckpoint(start) || PrevCheckpoint(start) < currentLedger
  {
    var o := StateRange(currentLedger);
    var start, end := Max(r.low, o.low), Min(r.high, o.high);
    var top := Max(start, end);
    var once := Clamp(r, o);
    hide IsCheckpoint, PrevCheckpoint, NextCheckpoint;
    ClosestCheckpoints(start);
    ClosestCheckpoints(top);
    ClosestCheckpoints(once.low);
    assert once == Range(PrevCheckpoint(start), NextCheckpoint(top));
    var top' := Max(once.low, Min(once.high, currentLedger));
    assert Clamp(once, o) == Range(once.low, NextCheckpoint(top'));
    ClosestCheckpoints(top');
    NextEqual(top, top');
  }

  /** Clamping the unaligned range 100 to 200 to an archive that ends at 63 gives 63 to 127; clamping
      that again gives 63 to 63. */
  lemma ClampTwiceDiffers()
    ensures var r, o := Range(100, 200), StateRange(63);
      Clamp(r, o) == Range(63, 127) && Clamp(Clamp(r, o), o) == Range(63, 63)
  {
    hide PrevCheckpoint, NextCheckpoint, IsCheckpoint;
    InBlock(63, 0, 63);
    InBlock(100, 1, 36);
  }

  lemma NextEqual(i: uint32, j: uint32)
    requires i >= 63 && j >= 63
    ensures NextCheckpoint(i) == NextCheckpoint(j) <==> NextCheckpoint(i) - 64 < j <= NextCheckpoint(i)
  {
    ClosestCheckpoints(i);
    ClosestCheckpoints(j);
    var c, d := NextCheckpoint(i), NextCheckpoint(j);
    hide IsCheckpoint, PrevCheckpoint, NextCheckpoint;
    if c < d { CheckpointsApart(c, d); }
    if d < c { CheckpointsApart(d, c); }
  }

  /** Once a range starts at a checkpoint, clamping it again changes nothing. */
  lemma ClampStable(r: Range, currentLedger: uint32)
    requires IsCheckpoint(r.low)
    ensures var o := StateRange(currentLedger); Clamp(Clamp(r, o), o) == Clamp(r, o)
  {
    assert IsCheckpoint(63);
    hide Clamp, IsCheckpoint, PrevCheckpoint;
    ClampTwice(r, currentLedger);
  }

  // ----- The checkpoints of a range -----

  function ListFrom(low: int, high: int): seq<int>
    decreases high - low
  {
    if low > high then [] else [low] + ListFrom(low + 64, high)
  }

  function CheckpointList(r: Range): seq<int> {
    ListFrom(r.low, r.high)
  }

  function Size(r: Range): int {
    1 + Wrap32(r.high - r.low) / 64
  }

  /** Range.Checkpoints: the numbers its goroutine sends, in order. */
  method Checkpoints(r: Range) returns (sent: seq<int>)
    ensures sent == CheckpointList(r)
  {
    sent := [];
    var i: int := r.low;
    while i <= r.high
      invariant sent + ListFrom(i, r.high) == CheckpointList(r)
      decreases r.high - i
    {
      assert sent + ListFrom(i, r.high) == sent + [i] + ListFrom(i + 64, r.high);
      sent := sent + [i];
      i := i + 64;
    }
  }

  lemma {:induction false} ListFromAt(low: int, high: int)
    ensures low <= high ==> |ListFrom(low, high)| == 1 + (high - low) / 64
    ensures low > high ==> ListFrom(low, high) == []
    ensures forall k :: 0 <= k < |ListFrom(low, high)| ==> ListFrom(low, high)[k] == low + 64 * k
    decreases high - low
  {
    if low <= high {
      ListFromAt(low + 64, high);
    }
  }

  lemma ListInRange(r: Range)
    ensures forall c :: c in CheckpointList(r) ==> r.low <= c <= r.high
  {
    ListFromAt(r.low, r.high);
  }

  lemma ListedIsCheckpoint(r: Range, k: nat)
    requires Aligned(r) && k < |CheckpointList(r)|
    ensures CheckpointList(r)[k] == r.low + 64 * k <= r.high && IsCheckpoint(r.low + 64 * k)
  {
    ListFromAt(r.low, r.high);
    hide IsCheckpoint;
    CheckpointsAbove(r.low, k);
  }

  lemma CheckpointsAbove(c: uint32, k: nat)
    requires IsCheckpoint(c) && c + 64 * k <= MAX_UINT32
    ensures IsCheckpoint(c + 64 * k)
  {
    hide IsCheckpoint, PrevCheckpoint, NextCheckpoint;
    var q, rest := Block(c);
    InBlock(c, q, rest);
    EndOfBlock(c + 64 * k, q + k);
  }

  lemma CheckpointIsListed(r: Range, c: uint32)
    requires Aligned(r) && r.low <= c <= r.high && IsCheckpoint(c)
    ensures c in CheckpointList(r)
  {
    ListFromAt(r.low, r.high);
    if r.low < c { CheckpointsApart(r.low, c); }
    var k := (c - r.low) / 64;
    assert c == r.low + 64 * k;
    assert CheckpointList(r)[k] == c;
  }

  /** The list holds exactly the checkpoints in the range, each once and in order, and Size is
      their number. */
  lemma CheckpointListExact(r: Range)
    requires Aligned(r)
    ensures forall c: int :: c in CheckpointList(r) <==> r.low <= c <= r.high && IsCheckpoint(c)
    ensures forall j, k :: 0 <= j < k < |CheckpointList(r)| ==> CheckpointList(r)[j] < CheckpointList(r)[k]
    ensures |CheckpointList(r)| == Size(r)
  {
    hide IsCheckpoint, CheckpointList;
    forall c: int | c in CheckpointList(r)
      ensures r.low <= c <= r.high && IsCheckpoint(c)
    {
      var k :| 0 <= k < |CheckpointList(r)| && CheckpointList(r)[k] == c;
      ListedIsCheckpoint(r, k);
    }
    forall c: int | r.low <= c <= r.high && IsCheckpoint(c)
      ensures c in CheckpointList(r)
    {
      CheckpointIsListed(r, c);
    }
    forall j, k | 0 <= j < k < |CheckpointList(r)|
      ensures CheckpointList(r)[j] < CheckpointList(r)[k]
    {
      ListedIsCheckpoint(r, j);
      ListedIsCheckpoint(r, k);
    }
    ListSize(r);
  }

  lemma ListSize(r: Range)
    requires r.low <= r.high
    ensures |CheckpointList(r)| == Size(r)
  {
    ListFromAt(r.low, r.high);
  }
}
