// Which rows the sampler retains: of every group of rows one is retained, unless
// the array is full of samples that stand for groups at least as large.
module Stat4Coverage {
  import opened Numbers
  import opened PrefixGroups
  import opened Stat4
  import opened Stat4Invariant
  import opened Stat4Run
  import opened IndexRows

  // The size of the group for which a non-periodic sample was chosen.
  function Worth(s: Sample, nCol: nat): nat
    requires Sized(s, nCol)
  {
    s.anEq[s.iCol]
  }

  // The sample is of the j-group of row x and, unless it is periodic, was chosen
  // for that group or one that holds it.
  predicate Stands(s: Sample, nCol: nat, c: seq<nat>, x: nat, j: nat)
    requires Sized(s, nCol) && x < |c|
  {
    RowOf(s, nCol) < |c| && Start(c, RowOf(s, nCol), j) == Start(c, x, j) && (s.isPSample || s.iCol <= j)
  }

  ghost predicate Represented(a: seq<Sample>, nCol: nat, c: seq<nat>, x: nat, j: nat)
    requires AllSized(a, nCol) && x < |c|
  {
    exists t :: 0 <= t < |a| && Stands(a[t], nCol, c, x, j)
  }

  // No non-periodic sample was chosen for a group of less than n rows.
  predicate Outdone(a: seq<Sample>, nCol: nat, n: nat)
    requires AllSized(a, nCol)
  {
    forall u :: 0 <= u < |a| && !a[u].isPSample ==> n <= Worth(a[u], nCol)
  }

  ghost predicate CoveredAt(a: seq<Sample>, mxSample: nat, nCol: nat, c: seq<nat>, x: nat, j: nat)
    requires AllSized(a, nCol) && x < |c|
  {
    Represented(a, nCol, c, x, j) || (|a| == mxSample && Outdone(a, nCol, Size(c, x, j)))
  }

  // The j-group of row x has ended.
  predicate Closed(c: seq<nat>, x: nat, j: nat)
    requires x < |c|
  {
    Start(c, x, j) != Start(c, |c| - 1, j)
  }

  // Every group that has ended is covered, and so is every group of a column
  // from i on.
  ghost predicate AllCovered(a: seq<Sample>, mxSample: nat, nCol: nat, c: seq<nat>, i: nat)
    requires AllSized(a, nCol)
  {
    forall x: nat, j: nat {:trigger CoveredAt(a, mxSample, nCol, c, x, j)} ::
      x < |c| && j < nCol - 1 && (i <= j || Closed(c, x, j)) ==> CoveredAt(a, mxSample, nCol, c, x, j)
  }

  // ---- What every change of the array keeps ----

  // The same row, chosen for a group at least as large.
  predicate Follows(s: Sample, s': Sample, nCol: nat)
    requires Sized(s, nCol) && Sized(s', nCol)
  {
    && RowOf(s', nCol) == RowOf(s, nCol) && s'.isPSample == s.isPSample
    && (!s.isPSample ==> s'.iCol <= s.iCol && Worth(s, nCol) <= Worth(s', nCol))
  }

  ghost predicate Remains(s: Sample, b: seq<Sample>, nCol: nat)
    requires Sized(s, nCol) && AllSized(b, nCol)
  {
    exists t :: 0 <= t < |b| && Follows(s, b[t], nCol)
  }

  // Samples remain, or give way in a full array to samples worth as much.
  ghost predicate Succeeds(a: seq<Sample>, b: seq<Sample>, mxSample: nat, nCol: nat)
    requires AllSized(a, nCol) && AllSized(b, nCol)
  {
    && |a| <= |b| <= mxSample
    && (forall t :: 0 <= t < |a| ==>
          (Remains(a[t], b, nCol) ||
           (|a| == mxSample && !a[t].isPSample && Outdone(b, nCol, Worth(a[t], nCol)))))
    && forall n: nat :: |a| == mxSample && Outdone(a, nCol, n) ==> Outdone(b, nCol, n)
  }

  lemma WorthIs(s: Sample, nCol: nat, c: seq<nat>, i: nat)
    requires Sized(s, nCol) && 0 < |c| && Exact(s, nCol, c, i) && Comparable(s, nCol) && !s.isPSample
    ensures Worth(s, nCol) == Size(c, RowOf(s, nCol), s.iCol)
  {
  }

  // Groups with the same first row have the same size.
  lemma SameGroup(c: seq<nat>, x: nat, y: nat, j: nat)
    requires x < |c| && y < |c| && Start(c, x, j) == Start(c, y, j)
    ensures Size(c, x, j) == Size(c, y, j)
  {
    if x <= y {
      TogetherShares(c, x, y, j);
    } else {
      TogetherShares(c, y, x, j);
    }
  }

  lemma StandsWorth(s: Sample, nCol: nat, c: seq<nat>, i: nat, x: nat, j: nat)
    requires Sized(s, nCol) && x < |c| && Exact(s, nCol, c, i) && Comparable(s, nCol) && !s.isPSample
    requires Stands(s, nCol, c, x, j)
    ensures Size(c, x, j) <= Worth(s, nCol)
  {
    WorthIs(s, nCol, c, i);
    SameGroup(c, x, RowOf(s, nCol), j);
    Nested(c, RowOf(s, nCol), s.iCol, j);
  }

  lemma OutdoneLess(a: seq<Sample>, nCol: nat, n: nat, m: nat)
    requires AllSized(a, nCol) && Outdone(a, nCol, m) && n <= m
    ensures Outdone(a, nCol, n)
  {
  }

  lemma CoverKept(a: seq<Sample>, b: seq<Sample>, mxSample: nat, nCol: nat, c: seq<nat>, i: nat, x: nat, j: nat)
    requires AllSized(a, nCol) && AllSized(b, nCol) && x < |c| && SamplesOk(a, nCol, c, i)
    requires Succeeds(a, b, mxSample, nCol) && CoveredAt(a, mxSample, nCol, c, x, j)
    ensures CoveredAt(b, mxSample, nCol, c, x, j)
  {
    if Represented(a, nCol, c, x, j) {
      var t :| 0 <= t < |a| && Stands(a[t], nCol, c, x, j);
      if Remains(a[t], b, nCol) {
        var t' :| 0 <= t' < |b| && Follows(a[t], b[t'], nCol);
        assert Stands(b[t'], nCol, c, x, j);
      } else {
        assert Exact(a[t], nCol, c, i);
        StandsWorth(a[t], nCol, c, i, x, j);
        OutdoneLess(b, nCol, Size(c, x, j), Worth(a[t], nCol));
      }
    }
  }

  lemma AllKept(a: seq<Sample>, b: seq<Sample>, mxSample: nat, nCol: nat, c: seq<nat>, i: nat, e: nat)
    requires AllSized(a, nCol) && AllSized(b, nCol) && 0 < |c| && SamplesOk(a, nCol, c, i)
    requires Succeeds(a, b, mxSample, nCol) && AllCovered(a, mxSample, nCol, c, e)
    ensures AllCovered(b, mxSample, nCol, c, e)
  {
    forall x: nat, j: nat | x < |c| && j < nCol - 1 && (e <= j || Closed(c, x, j))
      ensures CoveredAt(b, mxSample, nCol, c, x, j)
    {
      CoverKept(a, b, mxSample, nCol, c, i, x, j);
    }
  }

  // ---- The changes ----

  lemma Unchanged(a: seq<Sample>, mxSample: nat, nCol: nat)
    requires AllSized(a, nCol) && |a| <= mxSample
    ensures Succeeds(a, a, mxSample, nCol)
  {
    forall t | 0 <= t < |a| ensures Remains(a[t], a, nCol) {
      assert Follows(a[t], a[t], nCol);
    }
  }

  lemma Grown(a: seq<Sample>, s: Sample, b: seq<Sample>, mxSample: nat, nCol: nat)
    requires AllSized(a, nCol) && AllSized(b, nCol) && b == a + [s] && |a| < mxSample
    ensures Succeeds(a, b, mxSample, nCol)
  {
    forall t | 0 <= t < |a| ensures Remains(a[t], b, nCol) {
      assert Follows(a[t], b[t], nCol);
    }
  }

  // The least preferred sample gives way to one worth as much.
  lemma Evicted(a: seq<Sample>, iMin: nat, s: Sample, b: seq<Sample>, mxSample: nat, nCol: nat)
    requires AllSized(a, nCol) && AllSized(b, nCol) && Least(a, nCol, iMin) && |a| == mxSample && Sized(s, nCol)
    requires b == Without(a, iMin) + [s] && (s.isPSample || Worth(a[iMin], nCol) <= Worth(s, nCol))
    ensures Succeeds(a, b, mxSample, nCol)
  {
    forall t | 0 <= t < |b| ensures b[t] == if t < iMin then a[t] else if t + 1 < |a| then a[t + 1] else s {
    }
    forall t | 0 <= t < |a| && t != iMin ensures Remains(a[t], b, nCol) {
      assert Follows(a[t], b[if t < iMin then t else t - 1], nCol);
    }
    forall u | 0 <= u < |b| && !b[u].isPSample ensures Worth(a[iMin], nCol) <= Worth(b[u], nCol) {
      if u + 1 < |a| {
        assert !Better(a[iMin], b[u], nCol);
      }
    }
    assert Outdone(b, nCol, Worth(a[iMin], nCol));
    forall n: nat | Outdone(a, nCol, n) ensures Outdone(b, nCol, n) {
      OutdoneLess(b, nCol, n, Worth(a[iMin], nCol));
    }
  }

  lemma Promoted(a: seq<Sample>, s: Sample, b: seq<Sample>, u: nat, mxSample: nat, nCol: nat)
    requires AllSized(a, nCol) && AllSized(b, nCol) && |a| <= mxSample && Sized(s, nCol) && u < |a| && !a[u].isPSample
    requires b == UpgradeAt(a, nCol, s, u) && s.iCol < a[u].iCol && s.iCol < nCol - 1
    requires Worth(a[u], nCol) <= Worth(s, nCol)
    ensures Succeeds(a, b, mxSample, nCol)
  {
    forall t | 0 <= t < |a| ensures Follows(a[t], b[t], nCol) {
    }
    assert forall t :: 0 <= t < |a| ==> Remains(a[t], b, nCol);
  }

  lemma FilledIn(a: seq<Sample>, b: seq<Sample>, mxSample: nat, nCol: nat)
    requires AllSized(a, nCol) && AllSized(b, nCol) && |a| == |b| <= mxSample
    requires forall t :: 0 <= t < |a| ==> FilledBelow(a[t], b[t], nCol) && RowOf(b[t], nCol) == RowOf(a[t], nCol)
    ensures Succeeds(a, b, mxSample, nCol)
  {
    forall t | 0 <= t < |a| ensures Follows(a[t], b[t], nCol) {
    }
    assert forall t :: 0 <= t < |a| ==> Remains(a[t], b, nCol);
  }

  // ---- One turn of the loop over aBest ----

  // Whatever is done with the candidate, the open i-group is covered.
  ghost predicate Answered(a: seq<Sample>, b: seq<Sample>, mxSample: nat, nCol: nat, c: seq<nat>, i: nat)
    requires AllSized(a, nCol) && AllSized(b, nCol) && 0 < |c|
  {
    Succeeds(a, b, mxSample, nCol) && CoveredAt(b, mxSample, nCol, c, |c| - 1, i)
  }

  lemma OpenStands(s: Sample, nCol: nat, c: seq<nat>, i: nat)
    requires Sized(s, nCol) && 0 < |c| && Open(s, nCol, c, i) && (s.isPSample || s.iCol <= i)
    ensures Stands(s, nCol, c, |c| - 1, i)
  {
    TogetherShares(c, RowOf(s, nCol), |c| - 1, i);
  }

  lemma Declined(a: seq<Sample>, iMin: nat, b: Sample, mxSample: nat, nCol: nat, c: seq<nat>, i: nat)
    requires AllSized(a, nCol) && 0 < |c| && |a| == mxSample && Least(a, nCol, iMin)
    requires Sized(b, nCol) && Candidate(b, nCol, c, i) && !Better(b, a[iMin], nCol)
    ensures Answered(a, a, mxSample, nCol, c, i)
  {
    Unchanged(a, mxSample, nCol);
    TogetherShares(c, RowOf(b, nCol), |c| - 1, i);
    forall u | 0 <= u < |a| && !a[u].isPSample ensures Size(c, |c| - 1, i) <= Worth(a[u], nCol) {
      assert !Better(a[iMin], a[u], nCol);
    }
  }

  lemma Accepted(a: seq<Sample>, iMin: int, b: Sample, mxSample: nat, nCol: nat, c: seq<nat>, i: nat)
    requires AllSized(a, nCol) && ScanOf(c, nCol) && i < nCol - 1 && |a| <= mxSample
    requires SamplesOk(a, nCol, c, i + 1) && Sized(b, nCol) && Candidate(b, nCol, c, i)
    requires |a| == mxSample ==> Least(a, nCol, iMin) && Better(b, a[iMin], nCol)
    requires AllSized(Inserted(a, mxSample, iMin, b, nCol, i), nCol)
    ensures Answered(a, Inserted(a, mxSample, iMin, b, nCol, i), mxSample, nCol, c, i)
  {
    ScanMeaning(a, nCol, i, |a|, Nothing);
    match ScanFrom(a, nCol, i, |a|, Nothing)
    case Covered =>
      var u :| 0 <= u < |a| && a[u].anEq[i] == 0 && a[u].isPSample;
      assert Exact(a[u], nCol, c, i + 1);
      OpenStands(a[u], nCol, c, i);
      Unchanged(a, mxSample, nCol);
    case Upgrade(u) =>
      AcceptedUpgrade(a, b, u, mxSample, nCol, c, i);
    case Nothing =>
      AcceptedNew(a, iMin, b, mxSample, nCol, c, i);
  }

  lemma AcceptedUpgrade(a: seq<Sample>, b: Sample, u: nat, mxSample: nat, nCol: nat, c: seq<nat>, i: nat)
    requires AllSized(a, nCol) && ScanOf(c, nCol) && i < nCol - 1 && |a| <= mxSample
    requires SamplesOk(a, nCol, c, i + 1) && Sized(b, nCol) && Candidate(b, nCol, c, i)
    requires u < |a| && !a[u].isPSample && a[u].anEq[i] == 0
    ensures Answered(a, UpgradeAt(a, nCol, b, u), mxSample, nCol, c, i)
  {
    var r := UpgradeAt(a, nCol, b, u);
    OfferedBetter(b, a[u], nCol, c, i);
    Promoted(a, b, r, u, mxSample, nCol);
    assert Exact(a[u], nCol, c, i + 1);
    assert Open(a[u], nCol, c, i) && RowOf(r[u], nCol) == RowOf(a[u], nCol);
    OpenStands(r[u], nCol, c, i);
  }

  lemma AcceptedNew(a: seq<Sample>, iMin: int, b: Sample, mxSample: nat, nCol: nat, c: seq<nat>, i: nat)
    requires AllSized(a, nCol) && 0 < |c| && i < nCol - 1 && |a| <= mxSample
    requires Sized(b, nCol) && Candidate(b, nCol, c, i)
    requires |a| == mxSample ==> Least(a, nCol, iMin) && Better(b, a[iMin], nCol)
    requires AllSized(AddTo(a, mxSample, iMin, b, i), nCol)
    ensures Answered(a, AddTo(a, mxSample, iMin, b, i), mxSample, nCol, c, i)
  {
    var s, r := Zeroed(b, i), AddTo(a, mxSample, iMin, b, i);
    assert Worth(s, nCol) == Worth(b, nCol) && r[|r| - 1] == s;
    if |a| == mxSample {
      Evicted(a, iMin, s, r, mxSample, nCol);
    } else {
      Grown(a, s, r, mxSample, nCol);
    }
    assert Open(s, nCol, c, i);
    OpenStands(s, nCol, c, i);
  }

  lemma TurnAnswers(p: Accum, c: seq<nat>, i: nat, next: nat)
    requires Shaped(p) && next == i + 1 && Offering(p, c, next) && i < p.nCol - 1
    ensures var q := OfferBest(p, i); AllSized(q.a, p.nCol) && Answered(p.a, q.a, p.mxSample, p.nCol, c, i)
  {
    var b := BestWithCount(p, i);
    var q := p.(aBest := p.aBest[i := b]);
    OfferShaped(p, i);
    CandidateFits(p, c, i);
    if |q.a| < q.mxSample || Better(b, q.a[q.iMin], q.nCol) {
      InsertCases(q, b, i);
      Accepted(p.a, p.iMin, b, p.mxSample, p.nCol, c, i);
    } else {
      Declined(p.a, p.iMin, b, p.mxSample, p.nCol, c, i);
    }
  }

  lemma AnswerCovers(a: seq<Sample>, b: seq<Sample>, mxSample: nat, nCol: nat, c: seq<nat>, i: nat)
    requires AllSized(a, nCol) && AllSized(b, nCol) && 0 < |c| && SamplesOk(a, nCol, c, i + 1)
    requires Answered(a, b, mxSample, nCol, c, i) && AllCovered(a, mxSample, nCol, c, i + 1)
    ensures AllCovered(b, mxSample, nCol, c, i)
  {
    AllKept(a, b, mxSample, nCol, c, i + 1, i + 1);
    forall x: nat, j: nat | x < |c| && j < nCol - 1 && (i <= j || Closed(c, x, j))
      ensures CoveredAt(b, mxSample, nCol, c, x, j)
    {
      if j == i && !Closed(c, x, j) {
        SameCover(b, mxSample, nCol, c, |c| - 1, x, j);
      }
    }
  }

  lemma SameCover(b: seq<Sample>, mxSample: nat, nCol: nat, c: seq<nat>, x: nat, y: nat, j: nat)
    requires AllSized(b, nCol) && x < |c| && y < |c| && Start(c, x, j) == Start(c, y, j)
    requires CoveredAt(b, mxSample, nCol, c, x, j)
    ensures CoveredAt(b, mxSample, nCol, c, y, j)
  {
    SameGroup(c, x, y, j);
    if Represented(b, nCol, c, x, j) {
      var t :| 0 <= t < |b| && Stands(b[t], nCol, c, x, j);
      assert Stands(b[t], nCol, c, y, j);
    }
  }

  // ---- The whole of samplePushPrevious ----

  ghost predicate Covers(p: Accum, c: seq<nat>, i: nat) {
    Shaped(p) && AllCovered(p.a, p.mxSample, p.nCol, c, i)
  }

  lemma TurnCovers(p: Accum, c: seq<nat>, i: nat, next: nat)
    requires Covers(p, c, next) && next == i + 1 && Offering(p, c, next) && i < p.nCol - 1
    ensures Covers(OfferBest(p, i), c, i)
  {
    OfferShaped(p, i);
    TurnAnswers(p, c, i, next);
    AnswerCovers(p.a, OfferBest(p, i).a, p.mxSample, p.nCol, c, i);
  }

  lemma OffersCover(p: Accum, c: seq<nat>, i: nat, iChng: nat, e: nat)
    requires Covers(p, c, i) && i < p.nCol && Offering(p, c, i) && e == Min(iChng, i)
    ensures Offering(OfferFrom(p, i, iChng), c, e) && Covers(OfferFrom(p, i, iChng), c, e)
  {
    var inv := (q: Accum, k: nat) => Covers(q, c, k) && Offering(q, c, k);
    forall q: Accum, k: nat, next: nat {:trigger Turn(q, k), inv(q, next)} |
      iChng <= k && next == k + 1 && inv(q, next) ensures inv(Turn(q, k), k)
    {
      OfferKeeps(q, c, k, next);
      TurnCovers(q, c, k, next);
    }
    DownKeeps(p, i, iChng, Turn, inv);
  }

  lemma FillCovers(p: Accum, c: seq<nat>, iChng: nat, e: nat)
    requires Shaped(p) && e == Min(iChng, p.nCol - 1) && Offering(p, c, e) && Covers(p, c, e)
    ensures Covers(FillZeros(p, iChng), c, e)
  {
    var q := FillZeros(p, iChng);
    FillShaped(p, iChng);
    if iChng < p.nMaxEqZero {
      FilledOk(p.a, q.a, p.nCol, p.current, c, e, iChng);
      FilledIn(p.a, q.a, p.mxSample, p.nCol);
      AllKept(p.a, q.a, p.mxSample, p.nCol, c, e, e);
    }
  }

  lemma FlushCovers(p: Accum, c: seq<nat>, iChng: nat, last: nat)
    requires Shaped(p) && Resting(p, c) && last == p.nCol - 1 && Covers(p, c, last)
    ensures Covers(PushPrevious(p, iChng), c, Min(iChng, last))
  {
    RestingOffers(p, c, last);
    PushPreviousIs(p, iChng, last);
    OffersCover(p, c, last, iChng, Min(iChng, last));
    FillCovers(OfferFrom(p, last, iChng), c, iChng, Min(iChng, last));
  }

  // ---- The next row ----

  lemma SizeStays(c: seq<nat>, v: nat, x: nat, j: nat)
    requires x < |c| && Closed(c + [v], x, j)
    ensures Start(c + [v], x, j) == Start(c, x, j) && Size(c + [v], x, j) == Size(c, x, j)
    ensures v <= j || Closed(c, x, j)
  {
    Extended(c, v, x, j);
    NewRow(c, v, j);
    TogetherShares(c, x, |c| - 1, j);
  }

  lemma CoverMoves(a: seq<Sample>, mxSample: nat, nCol: nat, c: seq<nat>, v: nat, x: nat, j: nat)
    requires AllSized(a, nCol) && x < |c| && Closed(c + [v], x, j) && CoveredAt(a, mxSample, nCol, c, x, j)
    ensures CoveredAt(a, mxSample, nCol, c + [v], x, j)
  {
    SizeStays(c, v, x, j);
    if Represented(a, nCol, c, x, j) {
      var t :| 0 <= t < |a| && Stands(a[t], nCol, c, x, j);
      Extended(c, v, RowOf(a[t], nCol), j);
      assert Stands(a[t], nCol, c + [v], x, j);
    }
  }

  lemma RowCovers(a: seq<Sample>, mxSample: nat, nCol: nat, c: seq<nat>, v: nat, e: nat)
    requires AllSized(a, nCol) && 0 < |c| && e <= v && AllCovered(a, mxSample, nCol, c, e)
    ensures AllCovered(a, mxSample, nCol, c + [v], nCol)
  {
    forall x: nat, j: nat | x < |c + [v]| && j < nCol - 1 && (nCol <= j || Closed(c + [v], x, j))
      ensures CoveredAt(a, mxSample, nCol, c + [v], x, j)
    {
      assert x < |c|;
      SizeStays(c, v, x, j);
      assert CoveredAt(a, mxSample, nCol, c, x, j);
      CoverMoves(a, mxSample, nCol, c, v, x, j);
    }
  }

  // From column nCol-1 on there are no groups to cover.
  lemma NothingBeyond(a: seq<Sample>, mxSample: nat, nCol: nat, c: seq<nat>, i: nat, j: nat)
    requires AllSized(a, nCol) && AllCovered(a, mxSample, nCol, c, i) && nCol - 1 <= i && nCol - 1 <= j
    ensures AllCovered(a, mxSample, nCol, c, j)
  {
  }

  lemma MoveCovers(p: Accum, c: seq<nat>, row: Push, last: nat)
    requires Shaped(p) && Scanning(p, c) && RowFollows(c, p.nCol, row.iChng) && last == p.nCol - 1
    requires c != [] ==> Covers(p, c, last)
    ensures Covers(Moved(p, row), c + [row.iChng], last)
  {
    var q := Moved(p, row);
    if c == [] {
      assert q.a == [] && c + [row.iChng] == [row.iChng];
    } else {
      FlushCovers(p, c, row.iChng, last);
      RowCovers(q.a, p.mxSample, p.nCol, c, row.iChng, Min(row.iChng, last));
      NothingBeyond(q.a, p.mxSample, p.nCol, c + [row.iChng], p.nCol, last);
    }
  }

  lemma PeriodicCovers(p: Accum, c: seq<nat>, s: Sample, last: nat)
    requires Covers(p, c, last) && Behind(p, c) && s == p.current.(isPSample := true) && last == p.nCol - 1
    requires Periodic(p.a) + 1 < p.mxSample
    ensures Covers(SampleInsert(p, s, last), c, last)
  {
    PeriodicSucceeds(p, s, last, SampleInsert(p, s, last));
    AllKept(p.a, SampleInsert(p, s, last).a, p.mxSample, p.nCol, c, last, last);
  }

  lemma PeriodicSucceeds(p: Accum, s: Sample, last: nat, q: Accum)
    requires Shaped(p) && MinKnown(p) && s == p.current.(isPSample := true) && last == p.nCol - 1
    requires Periodic(p.a) + 1 < p.mxSample && q == SampleInsert(p, s, last)
    ensures Shaped(q) && q.nCol == p.nCol && q.mxSample == p.mxSample && Succeeds(p.a, q.a, p.mxSample, p.nCol)
  {
    var z := Zeroed(s, last);
    InsertShaped(p, s, last);
    PeriodicAdds(p, s);
    if |p.a| == p.mxSample {
      Evicted(p.a, p.iMin, z, q.a, p.mxSample, p.nCol);
    } else {
      Grown(p.a, z, q.a, p.mxSample, p.nCol);
    }
  }

  lemma WithPeriodicCovers(p: Accum, c: seq<nat>, last: nat)
    requires Covers(p, c, last) && Behind(p, c) && last == p.nCol - 1
    requires Due(p, p.current) ==> Periodic(p.a) + 1 < p.mxSample
    ensures Covers(WithPeriodic(p), c, last)
  {
    if Due(p, p.current) {
      PeriodicCovers(p, c, p.current.(isPSample := true), last);
    }
  }

  lemma BestCovers(p: Accum, c: seq<nat>, v: nat, last: nat)
    requires Covers(p, c, last) && !p.current.isPSample
    ensures Covers(WithBest(p, v), c, last)
  {
  }

  lemma PushCovers(p: Accum, c: seq<nat>, row: Push, last: nat)
    requires Shaped(p) && Scanning(p, c) && RowFollows(c, p.nCol, row.iChng) && Room(p, row) && last == p.nCol - 1
    requires c != [] ==> Covers(p, c, last)
    ensures Covers(StatPush(p, row), c + [row.iChng], last)
  {
    var moved := Moved(p, row);
    MovedParts(p, row, moved);
    PushParts(p, row, moved);
    MoveCovers(p, c, row, last);
    assert Behind(moved, c + [row.iChng]) by {
      MovedBehind(p, c, row);
    }
    WithPeriodicCovers(moved, c + [row.iChng], last);
    BestCovers(WithPeriodic(moved), c + [row.iChng], row.iChng, last);
  }

  lemma {:induction false} AfterCovers(scan: Stat4Run.Scan, k: nat, last: nat)
    requires Feasible(scan) && 0 < k <= |scan.pushes| && last == scan.nCol - 1
    ensures Covers(After(scan, k), Reported(scan, k), last)
  {
    var p, c := After(scan, k - 1), Reported(scan, k - 1);
    if k > 1 {
      AfterCovers(scan, k - 1, last);
    }
    PushReported(scan, k, p);
    assert Reported(scan, k) == c + [scan.pushes[k - 1].iChng];
    PushCovers(p, c, scan.pushes[k - 1], last);
  }

  // ---- The result ----

  lemma FinishedCovered(scan: Stat4Run.Scan, n: nat, last: nat)
    requires Feasible(scan) && scan.pushes != [] && n == |scan.pushes| && last == scan.nCol - 1
    ensures Covers(Finished(scan), Reported(scan, n), 0)
  {
    AfterCovers(scan, n, last);
    FlushCovers(After(scan, n), Reported(scan, n), 0, last);
  }

  // A row that agrees with row x on the first j+1 columns is retained.
  ghost predicate Retained(a: seq<Sample>, rows: seq<Row>, nCol: nat, x: nat, j: nat)
    requires AllSized(a, nCol) && Index(rows, nCol) && x < |rows| && j < nCol
  {
    exists t :: 0 <= t < |a| && RowOf(a[t], nCol) in Equal(rows, nCol, x, j)
  }

  // The value that row x has in the first j+1 columns has a retained row, or the
  // array is full and that value is not more frequent than any of those for which
  // the non-periodic samples were chosen.
  ghost predicate RetainedOrRarer(p: Accum, rows: seq<Row>, x: nat, j: nat)
    requires Shaped(p) && Index(rows, p.nCol) && x < |rows| && j < p.nCol - 1
  {
    Retained(p.a, rows, p.nCol, x, j) ||
    (|p.a| == p.mxSample &&
     forall u :: 0 <= u < |p.a| && !p.a[u].isPSample ==> |Equal(rows, p.nCol, x, j)| <= p.a[u].anEq[p.a[u].iCol])
  }

  // So it is for every row and every number of leading columns.
  lemma FinishedCovers(scan: Stat4Run.Scan, rows: seq<Row>, x: nat, j: nat)
    requires ScanOfIndex(scan, rows) && scan.pushes != [] && x < |rows| && j < scan.nCol - 1
    ensures RetainedOrRarer(Finished(scan), rows, x, j)
  {
    var n := |scan.pushes|;
    FinishedCovered(scan, n, scan.nCol - 1);
    assert |Changes(rows, scan.nCol)| == |rows|;
    CoveredRow(Finished(scan), Reported(scan, n), rows, x, j);
  }

  lemma CoveredRow(p: Accum, c: seq<nat>, rows: seq<Row>, x: nat, j: nat)
    requires Covers(p, c, 0) && Index(rows, p.nCol) && c == Changes(rows, p.nCol) && x < |rows| == |c| && j < p.nCol - 1
    ensures RetainedOrRarer(p, rows, x, j)
  {
    assert CoveredAt(p.a, p.mxSample, p.nCol, c, x, j);
    if Represented(p.a, p.nCol, c, x, j) {
      var t :| 0 <= t < |p.a| && Stands(p.a[t], p.nCol, c, x, j);
      var y := RowOf(p.a[t], p.nCol);
      SameGroup(c, x, y, j);
      RowsCompare(rows, p.nCol, x, y, j);
      assert y in Equal(rows, p.nCol, x, j);
    } else {
      CountsAreGroups(rows, p.nCol, x, j);
      forall u | 0 <= u < |p.a| && !p.a[u].isPSample
        ensures |Equal(rows, p.nCol, x, j)| <= p.a[u].anEq[p.a[u].iCol]
      {
        assert Size(c, x, j) <= Worth(p.a[u], p.nCol);
      }
    }
  }
}
