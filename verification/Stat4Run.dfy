// Whole scans: what the sampler retains once every row has been pushed.
module Stat4Run {
  import Division
  import Sets
  import opened Stat4
  import opened Stat4Invariant
  import opened IndexRows

  datatype Scan = Scan(nCol: nat, mxSample: nat, nEst: nat, pushes: seq<Push>)

  // An index is scanned whose row estimate is not below its number of rows.
  predicate Feasible(scan: Scan) {
    && 0 < scan.nCol && 0 < scan.mxSample && |scan.pushes| <= scan.nEst
    && (forall i :: 0 <= i < |scan.pushes| ==> scan.pushes[i].iChng < scan.nCol)
    && (scan.pushes != [] ==> scan.pushes[0].iChng == 0)
  }

  function Reported(scan: Scan, k: nat): (c: seq<nat>)
    requires k <= |scan.pushes|
    ensures |c| == k && forall i :: 0 <= i < k ==> c[i] == scan.pushes[i].iChng
  {
    if k == 0 then [] else Reported(scan, k - 1) + [scan.pushes[k - 1].iChng]
  }

  // How often a periodic sample is taken.
  function Period(scan: Scan): (n: nat)
    ensures n > 0
  {
    PeriodOf(scan.nEst, scan.mxSample)
  }

  // The sizes that the scan fixes.
  predicate Fitted(p: Accum, scan: Scan) {
    p.nCol == scan.nCol && p.mxSample == scan.mxSample && p.nPSample == Period(scan)
  }

  // The accumulator after k rows.
  function After(scan: Scan, k: nat): (p: Accum)
    requires Feasible(scan) && k <= |scan.pushes|
    ensures Shaped(p) && Scanning(p, Reported(scan, k)) && Fitted(p, scan)
  {
    if k == 0 then
      InitReported(scan);
      Init(scan.nCol, scan.mxSample, scan.nEst)
    else
      PushReported(scan, k, After(scan, k - 1));
      StatPush(After(scan, k - 1), scan.pushes[k - 1])
  }

  lemma InitReported(scan: Scan)
    requires Feasible(scan)
    ensures var p := Init(scan.nCol, scan.mxSample, scan.nEst);
      Shaped(p) && Scanning(p, Reported(scan, 0)) && Fitted(p, scan)
  {
    InitShaped(scan.nCol, scan.mxSample, scan.nEst);
  }

  lemma PushReported(scan: Scan, k: nat, p: Accum)
    requires Feasible(scan) && 0 < k <= |scan.pushes| && Shaped(p) && Scanning(p, Reported(scan, k - 1))
    requires Fitted(p, scan)
    ensures Room(p, scan.pushes[k - 1])
    ensures var q := StatPush(p, scan.pushes[k - 1]); Shaped(q) && Scanning(q, Reported(scan, k)) && Fitted(q, scan)
  {
    StatPushKeeps(p, Reported(scan, k - 1), scan.pushes[k - 1], scan.nEst);
    assert Reported(scan, k) == Reported(scan, k - 1) + [scan.pushes[k - 1].iChng];
  }

  // What stat_get reads: the open groups are closed first.
  function Finished(scan: Scan): (p: Accum)
    requires Feasible(scan) && scan.pushes != []
    ensures Shaped(p) && p.nCol == scan.nCol && p.mxSample == scan.mxSample
  {
    PushPrevious(After(scan, |scan.pushes|), 0)
  }

  // ---- Row identities ----

  // At this row the number of rows completes a period.
  predicate FallsDue(scan: Scan, x: nat) {
    x / Period(scan) != (x + 1) / Period(scan)
  }

  // The sample carries the rowid of its row, and is periodic only where it fell due.
  predicate Tagged(s: Sample, nCol: nat, scan: Scan)
    requires Sized(s, nCol) && 0 < nCol
  {
    var x := RowOf(s, nCol);
    x < |scan.pushes| && s.rowid == scan.pushes[x].rowid && (s.isPSample ==> FallsDue(scan, x))
  }

  predicate AllTagged(a: seq<Sample>, nCol: nat, scan: Scan)
    requires AllSized(a, nCol) && 0 < nCol
  {
    forall t :: 0 <= t < |a| ==> Tagged(a[t], nCol, scan)
  }

  predicate BestTagged(p: Accum, scan: Scan)
    requires Shaped(p)
  {
    forall i :: 0 <= i < p.nCol - 1 ==> Tagged(p.aBest[i], p.nCol, scan)
  }

  lemma AddTagged(a: seq<Sample>, mxSample: nat, iMin: int, s: Sample, n: nat, nCol: nat, scan: Scan)
    requires AllSized(a, nCol) && 0 < nCol && AllTagged(a, nCol, scan) && Sized(s, nCol) && Tagged(s, nCol, scan)
    requires |a| <= mxSample && (|a| == mxSample ==> 0 <= iMin < |a|) && n <= nCol
    ensures var r := AddTo(a, mxSample, iMin, s, n); AllSized(r, nCol) && AllTagged(r, nCol, scan)
  {
    assert Tagged(Zeroed(s, n), nCol, scan);
  }

  lemma UpgradeTagged(a: seq<Sample>, s: Sample, i: nat, nCol: nat, scan: Scan)
    requires AllSized(a, nCol) && 0 < nCol && AllTagged(a, nCol, scan) && Sized(s, nCol) && i < |a|
    ensures AllTagged(UpgradeAt(a, nCol, s, i), nCol, scan)
  {
    assert Tagged(a[i], nCol, scan);
  }

  lemma InsertTagged(p: Accum, new': Sample, nEqZero: nat, scan: Scan)
    requires Shaped(p) && Sized(new', p.nCol) && nEqZero < p.nCol
    requires AllTagged(p.a, p.nCol, scan) && Tagged(new', p.nCol, scan)
    ensures var q := SampleInsert(p, new', nEqZero); AllSized(q.a, p.nCol) && AllTagged(q.a, p.nCol, scan)
  {
    AddTagged(p.a, p.mxSample, p.iMin, new', nEqZero, p.nCol, scan);
    if !new'.isPSample {
      var found := ScanFrom(p.a, p.nCol, new'.iCol, |p.a|, Nothing);
      if found.Upgrade? {
        UpgradeTagged(p.a, new', found.index, p.nCol, scan);
      }
    }
  }

  lemma OfferTagged(p: Accum, i: nat, scan: Scan)
    requires Shaped(p) && i < p.nCol - 1 && AllTagged(p.a, p.nCol, scan) && BestTagged(p, scan)
    ensures var q := OfferBest(p, i); Shaped(q) && AllTagged(q.a, q.nCol, scan) && BestTagged(q, scan)
  {
    OfferShaped(p, i);
    var best := BestWithCount(p, i);
    assert Tagged(best, p.nCol, scan);
    InsertTagged(p.(aBest := p.aBest[i := best]), best, i, scan);
  }

  lemma OffersTagged(p: Accum, i: nat, iChng: nat, scan: Scan)
    requires Shaped(p) && i < p.nCol && AllTagged(p.a, p.nCol, scan) && BestTagged(p, scan)
    ensures var q := OfferFrom(p, i, iChng); AllTagged(q.a, q.nCol, scan) && BestTagged(q, scan)
  {
    var inv := (q: Accum, k: nat) => Shaped(q) && k < q.nCol && AllTagged(q.a, q.nCol, scan) && BestTagged(q, scan);
    forall q: Accum, k: nat, next: nat {:trigger Turn(q, k), inv(q, next)} |
      iChng <= k && next == k + 1 && inv(q, next) ensures inv(Turn(q, k), k)
    {
      OfferTagged(q, k, scan);
    }
    DownKeeps(p, i, iChng, Turn, inv);
  }

  lemma FilledTagged(a: seq<Sample>, nCol: nat, current: Sample, iChng: nat, scan: Scan)
    requires AllSized(a, nCol) && 0 < nCol && Sized(current, nCol) && AllTagged(a, nCol, scan)
    ensures var b := FilledSamples(a, nCol, current, iChng); AllSized(b, nCol) && AllTagged(b, nCol, scan)
  {
    var b := FilledSamples(a, nCol, current, iChng);
    forall t | 0 <= t < |b| ensures Sized(b[t], nCol) && Tagged(b[t], nCol, scan) {
      assert Tagged(a[t], nCol, scan);
    }
  }

  lemma FillTagged(p: Accum, iChng: nat, scan: Scan)
    requires Shaped(p) && AllTagged(p.a, p.nCol, scan) && BestTagged(p, scan)
    ensures var q := FillZeros(p, iChng); Shaped(q) && AllTagged(q.a, q.nCol, scan) && BestTagged(q, scan)
  {
    FillShaped(p, iChng);
    FilledTagged(p.a, p.nCol, p.current, iChng, scan);
  }

  lemma FlushTagged(p: Accum, iChng: nat, scan: Scan)
    requires Shaped(p) && AllTagged(p.a, p.nCol, scan) && BestTagged(p, scan)
    ensures var q := PushPrevious(p, iChng); AllTagged(q.a, q.nCol, scan) && BestTagged(q, scan)
  {
    var last: nat := p.nCol - 1;
    var q := OfferFrom(p, last, iChng);
    PushPreviousIs(p, iChng, last);
    assert AllTagged(q.a, q.nCol, scan) && BestTagged(q, scan) by {
      OffersTagged(p, last, iChng, scan);
    }
    FillTagged(q, iChng, scan);
  }

  lemma CurrentTagged(s: Sample, nCol: nat, c: seq<nat>, scan: Scan)
    requires Sized(s, nCol) && ScanOf(c, nCol) && CurrentOk(s, nCol, c) && !s.isPSample
    requires |c| <= |scan.pushes| && s.rowid == scan.pushes[|c| - 1].rowid
    ensures Tagged(s, nCol, scan)
  {
    LastRowOfItself(c, nCol, |c| - 1);
  }

  lemma MoveTagged(p: Accum, c: seq<nat>, row: Push, scan: Scan)
    requires Shaped(p) && Scanning(p, c) && RowFollows(c, p.nCol, row.iChng)
    requires |c| < |scan.pushes| && scan.pushes[|c|] == row
    requires AllTagged(p.a, p.nCol, scan) && (c != [] ==> BestTagged(p, scan))
    ensures var q := Moved(p, row);
      AllTagged(q.a, q.nCol, scan) && Tagged(q.current, q.nCol, scan) && (c != [] ==> BestTagged(q, scan))
  {
    assert Behind(Moved(p, row), c + [row.iChng]) by {
      MovedBehind(p, c, row);
    }
    CurrentTagged(Moved(p, row).current, p.nCol, c + [row.iChng], scan);
    if c != [] {
      FlushTagged(p, row.iChng, scan);
    }
  }

  // One row: every sample and candidate still carries the rowid of its row.
  lemma PushTagged(p: Accum, c: seq<nat>, row: Push, scan: Scan)
    requires Shaped(p) && Scanning(p, c) && RowFollows(c, p.nCol, row.iChng) && Room(p, row)
    requires p.nPSample == Period(scan)
    requires |c| < |scan.pushes| && scan.pushes[|c|] == row
    requires AllTagged(p.a, p.nCol, scan) && (c != [] ==> BestTagged(p, scan))
    ensures var q := StatPush(p, row); AllTagged(q.a, q.nCol, scan) && BestTagged(q, scan)
  {
    StatPushIs(p, row);
    MoveTagged(p, c, row, scan);
    PeriodicTagged(Moved(p, row), scan);
    BestStaysTagged(WithPeriodic(Moved(p, row)), c, row.iChng, scan);
  }

  lemma PeriodicTagged(p: Accum, scan: Scan)
    requires Shaped(p) && AllTagged(p.a, p.nCol, scan) && Tagged(p.current, p.nCol, scan)
    requires (Due(p, p.current) ==> Periodic(p.a) + 1 < p.mxSample) && p.nPSample == Period(scan)
    ensures AllTagged(WithPeriodic(p).a, p.nCol, scan)
  {
    if Due(p, p.current) {
      PeriodicWhenDue(p, p.current, scan);
      InsertTagged(p, p.current.(isPSample := true), p.nCol - 1, scan);
    }
  }

  lemma PeriodicWhenDue(p: Accum, s: Sample, scan: Scan)
    requires Shaped(p) && Sized(s, p.nCol) && Tagged(s, p.nCol, scan) && Due(p, s) && p.nPSample == Period(scan)
    ensures Tagged(s.(isPSample := true), p.nCol, scan)
  {
  }

  lemma BestStaysTagged(p: Accum, c: seq<nat>, v: nat, scan: Scan)
    requires Shaped(p) && !p.current.isPSample && Tagged(p.current, p.nCol, scan)
    requires (c == [] ==> v == 0) && (c != [] ==> BestTagged(p, scan))
    ensures BestTagged(WithBest(p, v), scan)
  {
    forall i | 0 <= i < p.nCol - 1 ensures Tagged(WithBest(p, v).aBest[i], p.nCol, scan) {
      assert Tagged(p.current.(iCol := i), p.nCol, scan);
    }
  }

  lemma {:induction false} AfterTagged(scan: Scan, k: nat)
    requires Feasible(scan) && k <= |scan.pushes|
    ensures var p := After(scan, k); AllTagged(p.a, p.nCol, scan) && (k > 0 ==> BestTagged(p, scan))
  {
    if k > 0 {
      AfterTagged(scan, k - 1);
      PushReported(scan, k, After(scan, k - 1));
      PushTagged(After(scan, k - 1), Reported(scan, k - 1), scan.pushes[k - 1], scan);
    }
  }

  // ---- The result of a scan ----

  // The scan reports the rows of an index, in key order.
  ghost predicate ScanOfIndex(scan: Scan, rows: seq<Row>) {
    Feasible(scan) && Index(rows, scan.nCol) && rows != [] && Reported(scan, |scan.pushes|) == Changes(rows, scan.nCol)
  }

  // What stat_push is told about the rows of an index, with any rowids and hashes.
  function PushesOf(c: seq<nat>, ids: seq<int>, hashes: seq<nat>): (pushes: seq<Push>)
    requires |ids| == |hashes| == |c|
    ensures |pushes| == |c| && forall i :: 0 <= i < |c| ==> pushes[i] == Push(c[i], ids[i], hashes[i])
  {
    if c == [] then []
    else
      var n := |c| - 1;
      PushesOf(c[..n], ids[..n], hashes[..n]) + [Push(c[n], ids[n], hashes[n])]
  }

  lemma ReportedIs(scan: Scan, c: seq<nat>)
    requires |scan.pushes| == |c| && forall i :: 0 <= i < |c| ==> scan.pushes[i].iChng == c[i]
    ensures Reported(scan, |scan.pushes|) == c
  {
  }

  lemma ChangesInRange(rows: seq<Row>, nCol: nat, i: nat)
    requires Index(rows, nCol) && i < |rows|
    ensures Changes(rows, nCol)[i] < nCol
  {
    if i > 0 {
      Neighbours(rows, nCol, i, 0);
    }
  }

  lemma ScanFeasible(scan: Scan, c: seq<nat>)
    requires 0 < scan.nCol && 0 < scan.mxSample && |c| == |scan.pushes| <= scan.nEst && c != [] && c[0] == 0
    requires forall i :: 0 <= i < |c| ==> scan.pushes[i].iChng == c[i] < scan.nCol
    ensures Feasible(scan)
  {
  }

  // Every index can be scanned.
  lemma EveryIndexScans(rows: seq<Row>, nCol: nat, mxSample: nat, nEst: nat, ids: seq<int>, hashes: seq<nat>)
    requires Index(rows, nCol) && rows != [] && 0 < mxSample && |rows| <= nEst && |ids| == |hashes| == |rows|
    ensures ScanOfIndex(Scan(nCol, mxSample, nEst, PushesOf(Changes(rows, nCol), ids, hashes)), rows)
  {
    var c := Changes(rows, nCol);
    IndexScans(Scan(nCol, mxSample, nEst, PushesOf(c, ids, hashes)), rows, c);
  }

  lemma IndexScans(scan: Scan, rows: seq<Row>, c: seq<nat>)
    requires Index(rows, scan.nCol) && rows != [] && 0 < scan.mxSample && c == Changes(rows, scan.nCol)
    requires |c| == |scan.pushes| <= scan.nEst && forall i :: 0 <= i < |c| ==> scan.pushes[i].iChng == c[i]
    ensures ScanOfIndex(scan, rows)
  {
    AllChangesInRange(rows, scan.nCol, c);
    ScanReports(scan, c);
  }

  lemma AllChangesInRange(rows: seq<Row>, nCol: nat, c: seq<nat>)
    requires Index(rows, nCol) && rows != [] && c == Changes(rows, nCol)
    ensures |c| == |rows| && c[0] == 0 && forall i :: 0 <= i < |c| ==> c[i] < nCol
  {
    forall i | 0 <= i < |c| ensures c[i] < nCol {
      ChangesInRange(rows, nCol, i);
    }
  }

  lemma ScanReports(scan: Scan, c: seq<nat>)
    requires 0 < scan.nCol && 0 < scan.mxSample && |c| == |scan.pushes| <= scan.nEst && c != [] && c[0] == 0
    requires forall i :: 0 <= i < |c| ==> scan.pushes[i].iChng == c[i] < scan.nCol
    ensures Feasible(scan) && Reported(scan, |scan.pushes|) == c
  {
    ScanFeasible(scan, c);
    ReportedIs(scan, c);
  }

  // Sample s describes row x: its rowid, and the counts of the rows that are
  // equal to it, of those less than it, and of the distinct keys less than it,
  // on every number of leading columns.
  ghost predicate Describes(s: Sample, scan: Scan, rows: seq<Row>, x: nat)
    requires ScanOfIndex(scan, rows) && Sized(s, scan.nCol) && x < |rows| == |scan.pushes|
  {
    && s.rowid == scan.pushes[x].rowid
    && forall j :: 0 <= j < scan.nCol ==>
        && s.anEq[j] == |Equal(rows, scan.nCol, x, j)|
        && s.anLt[j] == |Smaller(rows, scan.nCol, x, j)|
        && s.anDLt[j] == |SmallerKeys(rows, scan.nCol, x, j)|
  }

  lemma ClosedDescribes(s: Sample, scan: Scan, rows: seq<Row>)
    requires ScanOfIndex(scan, rows) && Sized(s, scan.nCol) && Tagged(s, scan.nCol, scan)
    requires |rows| == |scan.pushes| && ScanOf(Changes(rows, scan.nCol), scan.nCol)
    requires Exact(s, scan.nCol, Changes(rows, scan.nCol), 0) && forall j :: 0 <= j < scan.nCol ==> s.anEq[j] != 0
    ensures Describes(s, scan, rows, RowOf(s, scan.nCol))
  {
    var x := RowOf(s, scan.nCol);
    forall j | 0 <= j < scan.nCol
      ensures s.anEq[j] == |Equal(rows, scan.nCol, x, j)|
      ensures s.anLt[j] == |Smaller(rows, scan.nCol, x, j)|
      ensures s.anDLt[j] == |SmallerKeys(rows, scan.nCol, x, j)|
    {
      CountsAreGroups(rows, scan.nCol, x, j);
      KeysCounted(rows, scan.nCol, x, j);
    }
  }

  lemma FinishedFlushed(scan: Scan)
    requires Feasible(scan) && scan.pushes != []
    ensures var p, c := Finished(scan), Reported(scan, |scan.pushes|);
      ScanOf(c, p.nCol) && Flushed(p, c, 0) && AllTagged(p.a, p.nCol, scan)
  {
    var n := |scan.pushes|;
    AfterTagged(scan, n);
    PushPreviousFlushes(After(scan, n), Reported(scan, n), 0);
    FlushTagged(After(scan, n), 0, scan);
  }

  // Every retained sample describes its row exactly, over the whole index.
  lemma FinishedExact(scan: Scan, rows: seq<Row>, t: nat)
    requires ScanOfIndex(scan, rows) && scan.pushes != [] && t < |Finished(scan).a|
    ensures var p := Finished(scan);
      |rows| == |scan.pushes| && RowOf(p.a[t], p.nCol) < |rows| && Describes(p.a[t], scan, rows, RowOf(p.a[t], p.nCol))
  {
    var c := Reported(scan, |scan.pushes|);
    assert |c| == |scan.pushes| && |Changes(rows, scan.nCol)| == |rows|;
    FinishedFlushed(scan);
    SampleDescribes(Finished(scan), t, c, scan, rows);
  }

  lemma SampleDescribes(p: Accum, t: nat, c: seq<nat>, scan: Scan, rows: seq<Row>)
    requires ScanOfIndex(scan, rows) && |rows| == |scan.pushes| && c == Changes(rows, scan.nCol) && p.nCol == scan.nCol
    requires Shaped(p) && ScanOf(c, p.nCol) && Flushed(p, c, 0) && AllTagged(p.a, p.nCol, scan) && t < |p.a|
    ensures RowOf(p.a[t], p.nCol) < |rows| && Describes(p.a[t], scan, rows, RowOf(p.a[t], p.nCol))
  {
    assert Exact(p.a[t], p.nCol, c, 0);
    ClosedDescribes(p.a[t], scan, rows);
  }

  // The samples are in strictly increasing row order and at most mxSample; a
  // full array names a least preferred non-periodic sample.
  lemma FinishedOrdered(scan: Scan)
    requires Feasible(scan) && scan.pushes != []
    ensures var p := Finished(scan);
      && |p.a| <= scan.mxSample
      && (forall t, u :: 0 <= t < u < |p.a| ==> RowOf(p.a[t], p.nCol) < RowOf(p.a[u], p.nCol))
      && (|p.a| == scan.mxSample ==> Least(p.a, p.nCol, p.iMin))
  {
    FinishedFlushed(scan);
  }

  // The rows of the periodic samples.
  function PeriodicRows(a: seq<Sample>, nCol: nat): set<nat>
    requires AllSized(a, nCol)
  {
    set t | 0 <= t < |a| && a[t].isPSample :: RowOf(a[t], nCol)
  }

  function DueRows(scan: Scan, n: nat): set<nat> {
    set x: nat | 0 <= x < n && FallsDue(scan, x)
  }

  lemma {:induction false} DueCount(scan: Scan, n: nat)
    ensures |DueRows(scan, n)| == n / Period(scan)
  {
    if n == 0 {
      assert DueRows(scan, 0) == {};
      Division.Unique(0, Period(scan), 0, 0);
    } else {
      DueCount(scan, n - 1);
      Division.Next(n - 1, Period(scan));
      assert FallsDue(scan, n - 1) <==> (n - 1) / Period(scan) != n / Period(scan);
      assert DueRows(scan, n) == DueRows(scan, n - 1) + if FallsDue(scan, n - 1) then {n - 1} else {};
    }
  }

  lemma {:induction false} PeriodicRowCount(a: seq<Sample>, nCol: nat)
    requires AllSized(a, nCol)
    requires forall t, u :: 0 <= t < u < |a| ==> RowOf(a[t], nCol) < RowOf(a[u], nCol)
    ensures |PeriodicRows(a, nCol)| == Periodic(a)
  {
    if a == [] {
      assert PeriodicRows(a, nCol) == {};
    } else {
      var last := |a| - 1;
      PeriodicRowCount(a[..last], nCol);
      LastPeriodicRow(a, nCol, a[..last], a[last]);
      assert RowOf(a[last], nCol) !in PeriodicRows(a[..last], nCol);
    }
  }

  lemma LastPeriodicRow(a: seq<Sample>, nCol: nat, init: seq<Sample>, s: Sample)
    requires AllSized(a, nCol) && AllSized(init, nCol) && Sized(s, nCol) && a == init + [s]
    ensures PeriodicRows(a, nCol) == PeriodicRows(init, nCol) + if s.isPSample then {RowOf(s, nCol)} else {}
  {
    forall x | x in PeriodicRows(init, nCol) ensures x in PeriodicRows(a, nCol) {
      var t :| 0 <= t < |init| && init[t].isPSample && RowOf(init[t], nCol) == x;
      assert a[t] == init[t];
    }
    if s.isPSample {
      assert a[|init|] == s;
    }
  }

  // The periodic samples that are retained are exactly those of the rows at
  // which one fell due: none is ever evicted.
  lemma FinishedPeriodic(scan: Scan)
    requires Feasible(scan) && scan.pushes != []
    ensures PeriodicRows(Finished(scan).a, scan.nCol) == DueRows(scan, |scan.pushes|)
    ensures Periodic(Finished(scan).a) == |scan.pushes| / Period(scan)
  {
    var a, n := Finished(scan).a, |scan.pushes|;
    FlushKeepsPeriodic(scan, n);
    PeriodicAfter(scan, n, Period(scan));
    FinishedOrdered(scan);
    PeriodicRowCount(a, scan.nCol);
    DueCount(scan, n);
    PeriodicWereDue(scan);
    Sets.SubsetWhole(PeriodicRows(a, scan.nCol), DueRows(scan, n));
  }

  lemma PeriodicWereDue(scan: Scan)
    requires Feasible(scan) && scan.pushes != []
    ensures PeriodicRows(Finished(scan).a, scan.nCol) <= DueRows(scan, |scan.pushes|)
  {
    FinishedFlushed(scan);
    TaggedWereDue(Finished(scan).a, scan.nCol, scan);
  }

  lemma TaggedWereDue(a: seq<Sample>, nCol: nat, scan: Scan)
    requires AllSized(a, nCol) && 0 < nCol && AllTagged(a, nCol, scan)
    ensures PeriodicRows(a, nCol) <= DueRows(scan, |scan.pushes|)
  {
    forall t | 0 <= t < |a| && a[t].isPSample ensures RowOf(a[t], nCol) in DueRows(scan, |scan.pushes|) {
      assert Tagged(a[t], nCol, scan);
    }
  }

  lemma FlushKeepsPeriodic(scan: Scan, n: nat)
    requires Feasible(scan) && scan.pushes != [] && n == |scan.pushes|
    ensures Periodic(Finished(scan).a) == Periodic(After(scan, n).a)
  {
  }

  lemma PeriodicAfter(scan: Scan, n: nat, period: nat)
    requires Feasible(scan) && n <= |scan.pushes| && period == Period(scan)
    ensures Periodic(After(scan, n).a) == n / period
  {
    AfterPeriodic(After(scan, n), Reported(scan, n), n, period);
  }

  lemma AfterPeriodic(p: Accum, c: seq<nat>, n: nat, period: nat)
    requires Shaped(p) && Scanning(p, c) && |c| == n && p.nPSample == period
    ensures 0 < period && Periodic(p.a) == n / period
  {
  }

  // They take up at most a third of the array.
  lemma PeriodicShare(scan: Scan, k: nat)
    requires k <= scan.nEst
    ensures k / Period(scan) <= scan.mxSample / 3
  {
    Division.FewSteps(k, scan.nEst, scan.mxSample / 3 + 1);
  }
}
