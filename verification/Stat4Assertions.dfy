// The assertions inside sampleInsert, sampleIsBetter and samplePushPrevious, over
// every call that a scan makes.
module Stat4Assertions {
  import opened Stat4
  import opened Stat4Invariant
  import opened Stat4Run

  // Every sample that could be upgraded has a later iCol and is less preferred.
  ghost predicate UpgradesAllowed(a: seq<Sample>, b: Sample, nCol: nat)
    requires AllSized(a, nCol) && Sized(b, nCol)
  {
    b.anEq[b.iCol] > 0 && forall t: nat :: Waits(a, nCol, t, b.iCol) ==> b.iCol < a[t].iCol && Better(b, a[t], nCol)
  }

  // The sample goes into the array: it does not upgrade and is not covered.
  predicate GoesIn(p: Accum, b: Sample)
    requires Shaped(p) && Sized(b, p.nCol)
  {
    b.isPSample || ScanFrom(p.a, p.nCol, b.iCol, |p.a|, Nothing) == Nothing
  }

  // What is left once sample iMin has made room, if necessary.
  function MadeRoom(p: Accum): seq<Sample>
    requires Shaped(p)
  {
    if |p.a| >= p.mxSample then Without(p.a, p.iMin) else p.a
  }

  predicate LastIsBefore(a: seq<Sample>, b: Sample, nCol: nat)
    requires AllSized(a, nCol) && Sized(b, nCol)
  {
    a == [] || RowOf(a[|a| - 1], nCol) < RowOf(b, nCol)
  }

  // What sampleInsert asserts when it is called for b with n counts to zero.
  ghost predicate InsertAsserts(p: Accum, b: Sample, n: nat) {
    && Shaped(p) && Sized(b, p.nCol) && n < p.nCol && AllSized(MadeRoom(p), p.nCol)
    && (!b.isPSample ==> UpgradesAllowed(p.a, b, p.nCol))
    && (GoesIn(p, b) ==> LastIsBefore(MadeRoom(p), b, p.nCol))
    && Shaped(SampleInsert(p, b, n)) && MinKnown(SampleInsert(p, b, n))
  }

  // What one turn of the loop over aBest asserts.
  ghost predicate TurnAsserts(p: Accum, i: nat) {
    Shaped(p) && i < p.nCol &&
    var b := BestWithCount(p, i);
    var q := p.(aBest := p.aBest[i := b]);
    && (|q.a| >= q.mxSample ==> 0 <= q.iMin < |q.a| && !b.isPSample && !q.a[q.iMin].isPSample)
    && (|q.a| < q.mxSample || Better(b, q.a[q.iMin], q.nCol) ==> InsertAsserts(q, b, i))
  }

  // One turn leads from column i+1 to column i.
  lemma {:induction false} NextTurn(p: Accum, i: nat, stop: nat, turn: (Accum, nat) -> Accum)
    requires stop < i
    ensures Down(p, i, stop, turn) == turn(Down(p, i, stop + 1, turn), stop)
    decreases i
  {
    if stop + 1 < i {
      NextTurn(turn(p, i - 1), i - 1, stop, turn);
    }
  }

  lemma MadeRoomBefore(p: Accum, b: Sample)
    requires Shaped(p) && Sized(b, p.nCol) && forall t :: 0 <= t < |p.a| ==> RowOf(p.a[t], p.nCol) < RowOf(b, p.nCol)
    ensures AllSized(MadeRoom(p), p.nCol) && LastIsBefore(MadeRoom(p), b, p.nCol)
  {
    var a := MadeRoom(p);
    assert forall t :: 0 <= t < |a| ==> a[t] == p.a[if |p.a| >= p.mxSample && p.iMin <= t then t + 1 else t];
  }

  lemma RoomSized(p: Accum)
    requires Shaped(p)
    ensures AllSized(MadeRoom(p), p.nCol)
  {
  }

  // A candidate is offered with every assertion met.
  lemma CandidateAsserts(p: Accum, b: Sample, c: seq<nat>, i: nat)
    requires Shaped(p) && MinKnown(p) && ScanOf(c, p.nCol) && i < p.nCol - 1 && SamplesOk(p.a, p.nCol, c, i + 1)
    requires Sized(b, p.nCol) && Candidate(b, p.nCol, c, i)
    ensures InsertAsserts(p, b, i)
  {
    RoomSized(p);
    CandidateUpgrades(p.a, b, p.nCol, c, i);
    if GoesIn(p, b) {
      ScanMeaning(p.a, p.nCol, i, |p.a|, Nothing);
      NothingWaits(p.a, b, p.nCol, c, i);
      MadeRoomBefore(p, b);
    }
    InsertShaped(p, b, i);
  }

  lemma CandidateUpgrades(a: seq<Sample>, b: Sample, nCol: nat, c: seq<nat>, i: nat)
    requires AllSized(a, nCol) && ScanOf(c, nCol) && i < nCol - 1 && SamplesOk(a, nCol, c, i + 1)
    requires Sized(b, nCol) && Candidate(b, nCol, c, i)
    ensures UpgradesAllowed(a, b, nCol)
  {
    forall t: nat | Waits(a, nCol, t, i) ensures i < a[t].iCol && Better(b, a[t], nCol) {
      OfferedBetter(b, a[t], nCol, c, i);
    }
  }

  lemma OfferingAsserts(p: Accum, c: seq<nat>, i: nat, next: nat)
    requires Shaped(p) && next == i + 1 && Offering(p, c, next) && i < p.nCol - 1
    ensures TurnAsserts(p, i)
  {
    var b := BestWithCount(p, i);
    var q := p.(aBest := p.aBest[i := b]);
    CandidateFits(p, c, i);
    assert Shaped(q);
    CandidateAsserts(q, b, c, i);
  }

  // The assertions of samplePushPrevious for column i, which leads from one state
  // of the loop to the next.
  ghost predicate ColumnAsserts(before: Accum, after: Accum, i: nat) {
    && TurnAsserts(before, i) && after == Turn(before, i)
    && Shaped(after) && ZerosBelow(after.a, after.nCol, after.nMaxEqZero)
  }

  lemma TurnFollows(p: Accum, last: nat, i: nat, next: nat)
    requires Shaped(p) && last < p.nCol && i < last && next == i + 1
    ensures OfferFrom(p, last, i) == Turn(OfferFrom(p, last, next), i)
  {
    NextTurn(p, last, i, Turn);
  }

  lemma OfferedAsserts(before: Accum, after: Accum, c: seq<nat>, i: nat, next: nat)
    requires Shaped(before) && Offering(before, c, next) && Shaped(after) && Offering(after, c, i)
    requires after == Turn(before, i) && next == i + 1 && i < before.nCol - 1
    ensures ColumnAsserts(before, after, i)
  {
    OfferingAsserts(before, c, i, next);
  }

  lemma RestingAsserts(p: Accum, c: seq<nat>, i: nat, next: nat, last: nat, before: Accum, after: Accum)
    requires Shaped(p) && Resting(p, c) && last == p.nCol - 1 && i < last && next == i + 1
    requires before == OfferFrom(p, last, next) && after == OfferFrom(p, last, i)
    ensures ColumnAsserts(before, after, i)
  {
    RestingOffers(p, c, last);
    assert Offering(before, c, next) by {
      OffersKeep(p, c, last, next, next);
    }
    assert Offering(after, c, i) by {
      OffersKeep(p, c, last, i, i);
    }
    TurnFollows(p, last, i, next);
    OfferedAsserts(before, after, c, i, next);
  }

  // The loop over aBest comes to column i, if it does, with its assertions met.
  ghost predicate AssertsAt(p: Accum, i: nat)
    requires Shaped(p) && i < p.nCol - 1
  {
    ColumnAsserts(OfferFrom(p, p.nCol - 1, i + 1), OfferFrom(p, p.nCol - 1, i), i)
  }

  // The assertions are met at every column.
  ghost predicate LoopsAssert(p: Accum) {
    Shaped(p) && forall i: nat :: i < p.nCol - 1 ==> AssertsAt(p, i)
  }

  lemma LoopAsserts(p: Accum, c: seq<nat>, last: nat)
    requires Shaped(p) && Resting(p, c) && last == p.nCol - 1
    ensures LoopsAssert(p)
  {
    forall i: nat | i < last ensures AssertsAt(p, i) {
      RestingAsserts(p, c, i, i + 1, last, OfferFrom(p, last, i + 1), OfferFrom(p, last, i));
    }
  }

  lemma ScanningAsserts(p: Accum, c: seq<nat>)
    requires Shaped(p) && Scanning(p, c) && c != []
    ensures LoopsAssert(p)
  {
    LoopAsserts(p, c, p.nCol - 1);
  }

  // Every assertion of samplePushPrevious, after any number of rows and for
  // every column that its loops can come to.
  lemma FlushAsserts(scan: Stat4Run.Scan, k: nat)
    requires Feasible(scan) && 0 < k <= |scan.pushes|
    ensures LoopsAssert(After(scan, k))
  {
    ScanningAsserts(After(scan, k), Reported(scan, k));
  }

  // What statPush asserts when it inserts a periodic sample.
  ghost predicate PeriodicAsserts(p: Accum) {
    Shaped(p) && (Due(p, p.current) ==> InsertAsserts(p, p.current.(isPSample := true), p.nCol - 1))
  }

  lemma MovedAsserts(p: Accum, c: seq<nat>, row: Push)
    requires Shaped(p) && Scanning(p, c) && RowFollows(c, p.nCol, row.iChng) && Room(p, row)
    ensures PeriodicAsserts(Moved(p, row))
  {
    var moved := Moved(p, row);
    assert Behind(moved, c + [row.iChng]) by {
      MovedBehind(p, c, row);
    }
    assert Due(moved, moved.current) ==> Periodic(moved.a) + 1 < moved.mxSample by {
      StatPushIs(p, row);
    }
    DueAsserts(moved, c + [row.iChng]);
  }

  lemma DueAsserts(p: Accum, c: seq<nat>)
    requires Shaped(p) && Behind(p, c) && (Due(p, p.current) ==> Periodic(p.a) + 1 < p.mxSample)
    ensures PeriodicAsserts(p)
  {
    if Due(p, p.current) {
      BehindAsserts(p, c, p.current.(isPSample := true), p.nCol - 1);
    }
  }

  // And those of the periodic sample, at every row.
  lemma RowAsserts(scan: Stat4Run.Scan, k: nat)
    requires Feasible(scan) && k < |scan.pushes|
    ensures PeriodicAsserts(Moved(After(scan, k), scan.pushes[k]))
  {
    PushReported(scan, k + 1, After(scan, k));
    MovedAsserts(After(scan, k), Reported(scan, k), scan.pushes[k]);
  }

  lemma BehindAsserts(p: Accum, c: seq<nat>, b: Sample, n: nat)
    requires Shaped(p) && Behind(p, c) && b == p.current.(isPSample := true) && n == p.nCol - 1
    requires Periodic(p.a) + 1 < p.mxSample
    ensures InsertAsserts(p, b, n)
  {
    RoomSized(p);
    LastRowOfItself(c, p.nCol, |c| - 1);
    MadeRoomBefore(p, b);
    InsertShaped(p, b, n);
  }
}
