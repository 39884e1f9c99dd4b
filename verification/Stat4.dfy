// The STAT4 sampler: what each routine of the accumulator does, as functions
// on the accumulator's contents.  a holds the live samples, a[0..nSample].
module Stat4 {
  datatype Sample = Sample(anEq: seq<nat>, anLt: seq<nat>, anDLt: seq<nat>,
                           rowid: int, isPSample: bool, iCol: nat, iHash: nat)

  datatype Accum = Accum(nCol: nat, mxSample: nat, nPSample: nat, nRow: nat, current: Sample,
                         aBest: seq<Sample>, a: seq<Sample>, iMin: int, nMaxEqZero: nat)

  predicate Sized(s: Sample, nCol: nat) {
    |s.anEq| == |s.anLt| == |s.anDLt| == nCol && s.iCol < nCol
  }

  predicate AllSized(a: seq<Sample>, nCol: nat) {
    forall k {:trigger a[k]} :: 0 <= k < |a| ==> Sized(a[k], nCol)
  }

  function Periodic(a: seq<Sample>): nat {
    if a == [] then 0 else Periodic(a[..|a| - 1]) + if a[|a| - 1].isPSample then 1 else 0
  }

  // Array sizes; a full sample array names a non-periodic sample to evict.
  predicate Shaped(p: Accum) {
    && 0 < p.nCol && 0 < p.mxSample && 0 < p.nPSample
    && Sized(p.current, p.nCol)
    && |p.aBest| == p.nCol && AllSized(p.aBest, p.nCol)
    && (forall i :: 0 <= i < p.nCol ==> p.aBest[i].iCol == i && !p.aBest[i].isPSample)
    && |p.a| <= p.mxSample && AllSized(p.a, p.nCol)
    && (|p.a| == p.mxSample ==> 0 <= p.iMin < |p.a| && !p.a[p.iMin].isPSample)
    && Periodic(p.a) < p.mxSample
  }

  // ---- sampleIsBetter ----

  predicate BetterPost(new': Sample, old': Sample, nCol: nat, i: nat)
    requires Sized(new', nCol) && Sized(old', nCol)
    decreases nCol - i
  {
    if nCol <= i then new'.iHash > old'.iHash
    else if new'.anEq[i] > old'.anEq[i] then true
    else if new'.anEq[i] < old'.anEq[i] then false
    else BetterPost(new', old', nCol, i + 1)
  }

  predicate Better(new': Sample, old': Sample, nCol: nat)
    requires Sized(new', nCol) && Sized(old', nCol)
  {
    var eqNew, eqOld := new'.anEq[new'.iCol], old'.anEq[old'.iCol];
    eqNew > eqOld
    || (eqNew == eqOld
        && (new'.iCol < old'.iCol || (new'.iCol == old'.iCol && BetterPost(new', old', nCol, new'.iCol + 1))))
  }

  // ---- sampleInsert ----

  datatype Scan = Covered | Upgrade(index: nat) | Nothing

  // The loop over the samples from the last to the first, with i left to visit.
  function ScanFrom(a: seq<Sample>, nCol: nat, col: nat, i: nat, up: Scan): (r: Scan)
    requires i <= |a| && col < nCol && AllSized(a, nCol)
    requires up != Covered
    requires up.Upgrade? ==> i <= up.index < |a| && !a[up.index].isPSample && a[up.index].anEq[col] == 0
    ensures r.Upgrade? ==> r.index < |a| && !a[r.index].isPSample && a[r.index].anEq[col] == 0
  {
    if i == 0 then up
    else
      var old' := a[i - 1];
      if old'.anEq[col] != 0 then ScanFrom(a, nCol, col, i - 1, up)
      else if old'.isPSample then Covered
      else
        var up' := if up == Nothing || Better(old', a[up.index], nCol) then Upgrade(i - 1) else up;
        ScanFrom(a, nCol, col, i - 1, up')
  }

  // The loop that looks for the least preferred sample, with i visited.
  function MinFrom(a: seq<Sample>, nCol: nat, i: nat, iMin: int): int
    requires i <= |a| && -1 <= iMin < i && AllSized(a, nCol)
    decreases |a| - i
  {
    if i == |a| then iMin
    else if a[i].isPSample then MinFrom(a, nCol, i + 1, iMin)
    else if iMin < 0 || Better(a[iMin], a[i], nCol) then MinFrom(a, nCol, i + 1, i)
    else MinFrom(a, nCol, i + 1, iMin)
  }

  function NewMin(p: Accum): Accum
    requires AllSized(p.a, p.nCol)
  {
    if |p.a| >= p.mxSample then p.(iMin := MinFrom(p.a, p.nCol, 0, -1)) else p
  }

  function Without(a: seq<Sample>, i: nat): seq<Sample>
    requires i < |a|
  {
    a[..i] + a[i + 1..]
  }

  // The first n counts set to zero.
  function Zeroed(s: Sample, n: nat): Sample
    requires n <= |s.anEq|
  {
    s.(anEq := ZeroFirst(s.anEq, n))
  }

  function ZeroFirst(counts: seq<nat>, n: nat): (r: seq<nat>)
    ensures |r| == |counts| && forall j :: 0 <= j < |r| ==> r[j] == if j < n then 0 else counts[j]
  {
    if counts == [] then []
    else
      var k := |counts| - 1;
      ZeroFirst(counts[..k], n) + [if k < n then 0 else counts[k]]
  }

  function Raised(p: Accum, nEqZero: nat): Accum {
    if nEqZero > p.nMaxEqZero then p.(nMaxEqZero := nEqZero) else p
  }

  // Sample i takes over the column and the count of the new one.
  function UpgradeAt(a: seq<Sample>, nCol: nat, new': Sample, i: nat): (r: seq<Sample>)
    requires AllSized(a, nCol) && i < |a| && Sized(new', nCol)
    ensures |r| == |a| && AllSized(r, nCol)
  {
    a[i := a[i].(iCol := new'.iCol, anEq := a[i].anEq[new'.iCol := new'.anEq[new'.iCol]])]
  }

  // The new sample goes last, after sample iMin has made room if necessary.
  function AddTo(a: seq<Sample>, mxSample: nat, iMin: int, new': Sample, nEqZero: nat): seq<Sample>
    requires |a| == mxSample ==> 0 <= iMin < |a|
    requires |a| <= mxSample && nEqZero <= |new'.anEq|
  {
    (if |a| >= mxSample then Without(a, iMin) else a) + [Zeroed(new', nEqZero)]
  }

  function Upgraded(p: Accum, new': Sample, i: nat): Accum
    requires Shaped(p) && i < |p.a| && Sized(new', p.nCol)
  {
    p.(a := UpgradeAt(p.a, p.nCol, new', i))
  }

  function Added(p: Accum, new': Sample, nEqZero: nat): Accum
    requires Shaped(p) && Sized(new', p.nCol) && nEqZero < p.nCol
  {
    p.(a := AddTo(p.a, p.mxSample, p.iMin, new', nEqZero))
  }

  function SampleInsert(p: Accum, new': Sample, nEqZero: nat): (q: Accum)
    requires Shaped(p) && Sized(new', p.nCol) && nEqZero < p.nCol
    ensures q == p.(a := q.a, iMin := q.iMin, nMaxEqZero := q.nMaxEqZero)
  {
    var q := Raised(p, nEqZero);
    if new'.isPSample then NewMin(Added(q, new', nEqZero))
    else
      match ScanFrom(q.a, q.nCol, new'.iCol, |q.a|, Nothing)
      case Covered => q
      case Upgrade(i) => NewMin(Upgraded(q, new', i))
      case Nothing => NewMin(Added(q, new', nEqZero))
  }

  // ---- samplePushPrevious ----

  function BestWithCount(p: Accum, i: nat): Sample
    requires Shaped(p) && i < p.nCol
  {
    p.aBest[i].(anEq := p.aBest[i].anEq[i := p.current.anEq[i]])
  }

  // One turn of the loop over aBest.
  function OfferBest(p: Accum, i: nat): Accum
    requires Shaped(p) && i < p.nCol
  {
    var best := BestWithCount(p, i);
    var q := p.(aBest := p.aBest[i := best]);
    if |q.a| < q.mxSample || Better(best, q.a[q.iMin], q.nCol) then SampleInsert(q, best, i) else q
  }

  function FilledSample(s: Sample, current: Sample, iChng: nat): Sample
    requires |s.anEq| == |current.anEq|
  {
    s.(anEq := Filled(s.anEq, current.anEq, iChng))
  }

  function Filled(counts: seq<nat>, current: seq<nat>, iChng: nat): (r: seq<nat>)
    requires |counts| == |current|
    ensures |r| == |counts|
    ensures forall j :: 0 <= j < |r| ==> r[j] == if iChng <= j && counts[j] == 0 then current[j] else counts[j]
  {
    if counts == [] then []
    else
      var k := |counts| - 1;
      Filled(counts[..k], current[..k], iChng) + [if iChng <= k && counts[k] == 0 then current[k] else counts[k]]
  }

  function FilledSamples(a: seq<Sample>, nCol: nat, current: Sample, iChng: nat): (r: seq<Sample>)
    requires AllSized(a, nCol) && Sized(current, nCol)
    ensures |r| == |a| && forall i :: 0 <= i < |r| ==> r[i] == FilledSample(a[i], current, iChng)
  {
    if a == [] then []
    else
      var k := |a| - 1;
      FilledSamples(a[..k], nCol, current, iChng) + [FilledSample(a[k], current, iChng)]
  }

  function FillZeros(p: Accum, iChng: nat): Accum
    requires Shaped(p)
  {
    if iChng < p.nMaxEqZero then
      p.(a := FilledSamples(p.a, p.nCol, p.current, iChng), nMaxEqZero := iChng)
    else p
  }

  // ---- Being better is a strict weak order ----

  lemma {:induction false} PostOrder(x: Sample, y: Sample, z: Sample, nCol: nat, i: nat)
    requires Sized(x, nCol) && Sized(y, nCol) && Sized(z, nCol)
    ensures !BetterPost(x, x, nCol, i)
    ensures BetterPost(x, y, nCol, i) && BetterPost(y, z, nCol, i) ==> BetterPost(x, z, nCol, i)
    ensures BetterPost(x, z, nCol, i) ==> BetterPost(x, y, nCol, i) || BetterPost(y, z, nCol, i)
    decreases nCol - i
  {
    if i < nCol {
      PostOrder(x, y, z, nCol, i + 1);
    }
  }

  // The later counts are compared from the left, and the hash last.
  predicate AlikeUpTo(x: Sample, y: Sample, nCol: nat, i: nat, j: nat)
    requires Sized(x, nCol) && Sized(y, nCol) && j <= nCol
  {
    forall m :: i <= m < j ==> x.anEq[m] == y.anEq[m]
  }

  predicate DiffersAt(x: Sample, y: Sample, nCol: nat, i: nat, j: nat)
    requires Sized(x, nCol) && Sized(y, nCol) && j < nCol
  {
    x.anEq[j] > y.anEq[j] && AlikeUpTo(x, y, nCol, i, j)
  }

  predicate PostMeaning(x: Sample, y: Sample, nCol: nat, i: nat)
    requires Sized(x, nCol) && Sized(y, nCol)
  {
    || (exists j :: i <= j < nCol && DiffersAt(x, y, nCol, i, j))
    || (AlikeUpTo(x, y, nCol, i, nCol) && x.iHash > y.iHash)
  }

  lemma {:induction false} PostMeans(x: Sample, y: Sample, nCol: nat, i: nat)
    requires Sized(x, nCol) && Sized(y, nCol)
    ensures BetterPost(x, y, nCol, i) <==> PostMeaning(x, y, nCol, i)
    decreases nCol - i
  {
    if i < nCol {
      PostMeans(x, y, nCol, i + 1);
      if x.anEq[i] > y.anEq[i] {
        assert DiffersAt(x, y, nCol, i, i);
      } else if x.anEq[i] < y.anEq[i] {
        assert !AlikeUpTo(x, y, nCol, i, nCol);
        assert forall j :: i < j < nCol ==> !DiffersAt(x, y, nCol, i, j);
      } else {
        MeaningSkips(x, y, nCol, i);
      }
    }
  }

  lemma MeaningSkips(x: Sample, y: Sample, nCol: nat, i: nat)
    requires Sized(x, nCol) && Sized(y, nCol) && i < nCol && x.anEq[i] == y.anEq[i]
    ensures PostMeaning(x, y, nCol, i) <==> PostMeaning(x, y, nCol, i + 1)
  {
    if j :| i <= j < nCol && DiffersAt(x, y, nCol, i, j) {
      assert DiffersAt(x, y, nCol, i + 1, j);
    }
    var next := i + 1;
    if j :| next <= j < nCol && DiffersAt(x, y, nCol, next, j) {
      assert DiffersAt(x, y, nCol, i, j);
    }
    assert AlikeUpTo(x, y, nCol, i, nCol) <==> AlikeUpTo(x, y, nCol, i + 1, nCol);
  }

  // First the larger group counts, then the lower column, then the later counts
  // and the hash.
  lemma BetterMeans(x: Sample, y: Sample, nCol: nat)
    requires Sized(x, nCol) && Sized(y, nCol)
    ensures x.anEq[x.iCol] > y.anEq[y.iCol] ==> Better(x, y, nCol)
    ensures x.anEq[x.iCol] == y.anEq[y.iCol] && x.iCol < y.iCol ==> Better(x, y, nCol)
    ensures x.anEq[x.iCol] == y.anEq[y.iCol] && x.iCol == y.iCol ==>
      (Better(x, y, nCol) <==> PostMeaning(x, y, nCol, x.iCol + 1))
  {
    PostMeans(x, y, nCol, x.iCol + 1);
  }

  lemma BetterOrder(x: Sample, y: Sample, z: Sample, nCol: nat)
    requires Sized(x, nCol) && Sized(y, nCol) && Sized(z, nCol)
    ensures !Better(x, x, nCol)
    ensures Better(x, y, nCol) && Better(y, z, nCol) ==> Better(x, z, nCol)
    ensures Better(x, z, nCol) ==> Better(x, y, nCol) || Better(y, z, nCol)
  {
    PostOrder(x, y, z, nCol, x.iCol + 1);
  }

  // ---- Counting periodic samples ----

  lemma PeriodicOfSum(a: seq<Sample>, b: seq<Sample>)
    ensures Periodic(a + b) == Periodic(a) + Periodic(b)
    decreases |b|
  {
    if b == [] {
      assert a + b == a;
    } else {
      PeriodicOfSum(a, b[..|b| - 1]);
      assert (a + b)[..|a + b| - 1] == a + b[..|b| - 1];
    }
  }

  lemma PeriodicAt(a: seq<Sample>, i: nat, s: Sample)
    requires i < |a|
    ensures Periodic(Without(a, i)) == Periodic(a) - if a[i].isPSample then 1 else 0
    ensures s.isPSample == a[i].isPSample ==> Periodic(a[i := s]) == Periodic(a)
  {
    PeriodicAround(a[..i], a[i], a[i + 1..]);
    PeriodicAround(a[..i], s, a[i + 1..]);
    PeriodicOfSum(a[..i], a[i + 1..]);
    assert a == a[..i] + [a[i]] + a[i + 1..];
    assert a[i := s] == a[..i] + [s] + a[i + 1..];
  }

  lemma PeriodicAround(before: seq<Sample>, s: Sample, after: seq<Sample>)
    ensures Periodic(before + [s] + after) == Periodic(before) + (if s.isPSample then 1 else 0) + Periodic(after)
  {
    PeriodicOfSum(before, [s]);
    PeriodicOfSum(before + [s], after);
  }

  lemma {:induction false} AllPeriodic(a: seq<Sample>)
    requires forall t :: 0 <= t < |a| ==> a[t].isPSample
    ensures Periodic(a) == |a|
  {
    if a != [] {
      AllPeriodic(a[..|a| - 1]);
    }
  }

  // ---- The least preferred sample ----

  // Sample iMin is non-periodic and no non-periodic sample is less preferred.
  predicate Least(a: seq<Sample>, nCol: nat, iMin: int)
    requires AllSized(a, nCol)
  {
    && 0 <= iMin < |a| && !a[iMin].isPSample
    && forall t :: 0 <= t < |a| && !a[t].isPSample ==> !Better(a[iMin], a[t], nCol)
  }

  lemma {:induction false} MinIsLeast(a: seq<Sample>, nCol: nat, i: nat, iMin: int)
    requires i <= |a| && -1 <= iMin < i && AllSized(a, nCol) && Periodic(a) < |a|
    requires if iMin < 0 then forall t :: 0 <= t < i ==> a[t].isPSample
             else !a[iMin].isPSample && forall t :: 0 <= t < i && !a[t].isPSample ==> !Better(a[iMin], a[t], nCol)
    ensures Least(a, nCol, MinFrom(a, nCol, i, iMin))
    decreases |a| - i
  {
    if i == |a| {
      if iMin < 0 {
        AllPeriodic(a);
      }
    } else if !a[i].isPSample && (iMin < 0 || Better(a[iMin], a[i], nCol)) {
      forall t | 0 <= t < i + 1 && !a[t].isPSample ensures !Better(a[i], a[t], nCol) {
        BetterOrder(a[i], a[i], a[t], nCol);
        if 0 <= iMin {
          BetterOrder(a[iMin], a[i], a[t], nCol);
        }
      }
      MinIsLeast(a, nCol, i + 1, i);
    } else {
      MinIsLeast(a, nCol, i + 1, iMin);
    }
  }

  // The invariant on iMin.
  predicate MinKnown(p: Accum)
    requires Shaped(p)
  {
    |p.a| == p.mxSample ==> Least(p.a, p.nCol, p.iMin)
  }

  lemma NewMinKnown(p: Accum)
    requires AllSized(p.a, p.nCol) && |p.a| <= p.mxSample && Periodic(p.a) < p.mxSample
    ensures |p.a| == p.mxSample ==> Least(p.a, p.nCol, NewMin(p).iMin)
  {
    if |p.a| == p.mxSample {
      MinIsLeast(p.a, p.nCol, 0, -1);
    }
  }

  lemma AddedShaped(p: Accum, new': Sample, nEqZero: nat)
    requires Shaped(p) && Sized(new', p.nCol) && nEqZero < p.nCol
    requires new'.isPSample ==> Periodic(p.a) + 1 < p.mxSample
    ensures var q := NewMin(Added(p, new', nEqZero));
      Shaped(q) && MinKnown(q) && Periodic(q.a) == Periodic(p.a) + if new'.isPSample then 1 else 0
  {
    var kept := if |p.a| >= p.mxSample then Without(p.a, p.iMin) else p.a;
    if |p.a| >= p.mxSample {
      PeriodicAt(p.a, p.iMin, p.a[p.iMin]);
    }
    PeriodicOfSum(kept, [Zeroed(new', nEqZero)]);
    assert Periodic([Zeroed(new', nEqZero)]) == if new'.isPSample then 1 else 0;
    NewMinKnown(Added(p, new', nEqZero));
  }

  lemma UpgradedShaped(p: Accum, new': Sample, i: nat)
    requires Shaped(p) && i < |p.a| && Sized(new', p.nCol)
    ensures var q := NewMin(Upgraded(p, new', i)); Shaped(q) && MinKnown(q) && Periodic(q.a) == Periodic(p.a)
  {
    var u := Upgraded(p, new', i);
    PeriodicAt(p.a, i, u.a[i]);
    NewMinKnown(u);
  }

  // Inserting keeps the arrays in shape and iMin least preferred.
  lemma InsertShaped(p: Accum, new': Sample, nEqZero: nat)
    requires Shaped(p) && Sized(new', p.nCol) && nEqZero < p.nCol
    requires new'.isPSample ==> Periodic(p.a) + 1 < p.mxSample
    ensures var q := SampleInsert(p, new', nEqZero);
      Shaped(q) && (MinKnown(p) ==> MinKnown(q)) && Periodic(q.a) == Periodic(p.a) + if new'.isPSample then 1 else 0
  {
    var q := Raised(p, nEqZero);
    if new'.isPSample {
      AddedShaped(q, new', nEqZero);
    } else {
      match ScanFrom(q.a, q.nCol, new'.iCol, |q.a|, Nothing)
      case Covered =>
      case Upgrade(i) => UpgradedShaped(q, new', i);
      case Nothing => AddedShaped(q, new', nEqZero);
    }
  }

  lemma OfferShaped(p: Accum, i: nat)
    requires Shaped(p) && i < p.nCol
    ensures var q := OfferBest(p, i);
      && Shaped(q) && (MinKnown(p) ==> MinKnown(q)) && Periodic(q.a) == Periodic(p.a)
      && q == p.(aBest := p.aBest[i := BestWithCount(p, i)], a := q.a, iMin := q.iMin, nMaxEqZero := q.nMaxEqZero)
  {
    var q := p.(aBest := p.aBest[i := BestWithCount(p, i)]);
    assert Shaped(q);
    InsertShaped(q, BestWithCount(p, i), i);
  }

  // A loop that takes one turn for each of i-1, i-2, ..., stop.
  function Down(p: Accum, i: nat, stop: nat, turn: (Accum, nat) -> Accum): Accum
    decreases i
  {
    if i <= stop then p else Down(turn(p, i - 1), i - 1, stop, turn)
  }

  // The rule for such a loop: what every turn keeps holds at the end.
  lemma {:induction false} DownKeeps(p: Accum, i: nat, stop: nat, turn: (Accum, nat) -> Accum,
                                     inv: (Accum, nat) -> bool)
    requires inv(p, i)
    requires forall q: Accum, k: nat, next: nat {:trigger turn(q, k), inv(q, next)} ::
      stop <= k && next == k + 1 && inv(q, next) ==> inv(turn(q, k), k)
    ensures inv(Down(p, i, stop, turn), if i <= stop then i else stop)
    decreases i
  {
    if stop < i {
      var k: nat := i - 1;
      assert inv(turn(p, k), k);
      DownKeeps(turn(p, k), k, stop, turn, inv);
    }
  }

  // One turn of the loop over aBest.
  function Turn(p: Accum, i: nat): Accum {
    if Shaped(p) && i < p.nCol then OfferBest(p, i) else p
  }

  // The loop over aBest, downward, with the entries below i left to offer.
  function OfferFrom(p: Accum, i: nat, iChng: nat): (q: Accum)
    requires Shaped(p) && i < p.nCol
    ensures SameScan(p, q)
  {
    OffersShaped(p, i, iChng);
    Down(p, i, iChng, Turn)
  }

  // The sizes, the current row and the number of periodic samples are the same.
  predicate SameScan(p: Accum, q: Accum) {
    && Shaped(q) && Periodic(q.a) == Periodic(p.a) && q.current == p.current && q.nRow == p.nRow
    && q.nCol == p.nCol && q.mxSample == p.mxSample && q.nPSample == p.nPSample
  }

  lemma OffersShaped(p: Accum, i: nat, iChng: nat)
    requires Shaped(p) && i < p.nCol
    ensures SameScan(p, Down(p, i, iChng, Turn))
  {
    var inv := (q: Accum, k: nat) => SameScan(p, q) && k < p.nCol;
    forall q: Accum, k: nat, next: nat {:trigger Turn(q, k), inv(q, next)} |
      iChng <= k && next == k + 1 && inv(q, next) ensures inv(Turn(q, k), k)
    {
      OfferShaped(q, k);
    }
    DownKeeps(p, i, iChng, Turn, inv);
  }

  lemma FillShaped(p: Accum, iChng: nat)
    requires Shaped(p)
    ensures var q := FillZeros(p, iChng);
      Shaped(q) && Periodic(q.a) == Periodic(p.a) && q == p.(a := q.a, nMaxEqZero := q.nMaxEqZero)
  {
    SameFlags(p.a, FillZeros(p, iChng).a);
  }

  lemma {:induction false} SameFlags(a: seq<Sample>, b: seq<Sample>)
    requires |a| == |b| && forall i :: 0 <= i < |a| ==> a[i].isPSample == b[i].isPSample
    ensures Periodic(a) == Periodic(b)
  {
    if a != [] {
      SameFlags(a[..|a| - 1], b[..|b| - 1]);
    }
  }

  function PushPrevious(p: Accum, iChng: nat): (q: Accum)
    requires Shaped(p)
    ensures SameScan(p, q)
  {
    var offered := OfferFrom(p, p.nCol - 1, iChng);
    FillShaped(offered, iChng);
    FillZeros(offered, iChng)
  }

  // ---- statPush ----

  // The counts of the next row, which differs from this one first in column iChng.
  function Advanced(s: Sample, iChng: nat): Sample
    requires |s.anEq| == |s.anLt| == |s.anDLt|
  {
    s.(anEq := NextEq(s.anEq, iChng), anDLt := NextDLt(s.anDLt, iChng), anLt := NextLt(s.anLt, s.anEq, iChng))
  }

  function NextEq(eq: seq<nat>, iChng: nat): (r: seq<nat>)
    ensures |r| == |eq| && forall j :: 0 <= j < |r| ==> r[j] == if j < iChng then eq[j] + 1 else 1
  {
    if eq == [] then []
    else
      var k := |eq| - 1;
      NextEq(eq[..k], iChng) + [if k < iChng then eq[k] + 1 else 1]
  }

  function NextDLt(dlt: seq<nat>, iChng: nat): (r: seq<nat>)
    ensures |r| == |dlt| && forall j :: 0 <= j < |r| ==> r[j] == if j < iChng then dlt[j] else dlt[j] + 1
  {
    if dlt == [] then []
    else
      var k := |dlt| - 1;
      NextDLt(dlt[..k], iChng) + [if k < iChng then dlt[k] else dlt[k] + 1]
  }

  function NextLt(lt: seq<nat>, eq: seq<nat>, iChng: nat): (r: seq<nat>)
    requires |lt| == |eq|
    ensures |r| == |lt| && forall j :: 0 <= j < |r| ==> r[j] == if j < iChng then lt[j] else lt[j] + eq[j]
  {
    if lt == [] then []
    else
      var k := |lt| - 1;
      NextLt(lt[..k], eq[..k], iChng) + [if k < iChng then lt[k] else lt[k] + eq[k]]
  }

  // n times the count v.
  function Constant(n: nat, v: nat): (r: seq<nat>)
    ensures |r| == n && forall j :: 0 <= j < n ==> r[j] == v
  {
    if n == 0 then [] else Constant(n - 1, v) + [v]
  }

  // What stat_push is told about a row.
  datatype Push = Push(iChng: nat, rowid: int, iHash: nat)

  function NextCurrent(p: Accum, row: Push): Sample
    requires Shaped(p)
  {
    var counts := if p.nRow == 0 then p.current.(anEq := Constant(p.nCol, 1)) else Advanced(p.current, row.iChng);
    counts.(rowid := row.rowid, iHash := row.iHash, isPSample := false, iCol := 0)
  }

  // nPSample: the number of rows from one periodic sample to the next.
  function PeriodOf(nEst: nat, mxSample: nat): (n: nat)
    ensures n > 0
  {
    nEst / (mxSample / 3 + 1) + 1
  }

  predicate Due(p: Accum, current: Sample)
    requires Shaped(p) && Sized(current, p.nCol)
  {
    var nLt := current.anLt[p.nCol - 1];
    nLt / p.nPSample != (nLt + 1) / p.nPSample
  }

  // There is room for one more periodic sample if one is due.
  predicate Room(p: Accum, row: Push)
    requires Shaped(p)
  {
    Due(p, NextCurrent(p, row)) ==> Periodic(p.a) + 1 < p.mxSample
  }

  // The current row becomes the given one.
  function Moved(p: Accum, row: Push): (q: Accum)
    requires Shaped(p)
    ensures Shaped(q) && q.nRow == p.nRow + 1 && q.current == NextCurrent(p, row) && Periodic(q.a) == Periodic(p.a)
    ensures q.nCol == p.nCol && q.mxSample == p.mxSample && q.nPSample == p.nPSample
  {
    var flushed := if p.nRow == 0 then p else PushPrevious(p, row.iChng);
    flushed.(current := NextCurrent(p, row), nRow := p.nRow + 1)
  }

  // The periodic sample, if one is due.
  function WithPeriodic(p: Accum): (q: Accum)
    requires Shaped(p) && (Due(p, p.current) ==> Periodic(p.a) + 1 < p.mxSample)
    ensures Shaped(q) && Periodic(q.a) == Periodic(p.a) + if Due(p, p.current) then 1 else 0
    ensures q == p.(a := q.a, iMin := q.iMin, nMaxEqZero := q.nMaxEqZero)
  {
    if Due(p, p.current) then
      InsertShaped(p, p.current.(isPSample := true), p.nCol - 1);
      SampleInsert(p, p.current.(isPSample := true), p.nCol - 1)
    else p
  }

  // The update of aBest for the current row.
  function WithBest(p: Accum, iChng: nat): (q: Accum)
    requires Shaped(p) && !p.current.isPSample
    ensures Shaped(q)
  {
    p.(aBest := BestFor(p, iChng, p.nCol))
  }

  // The first n entries of aBest after the update.
  function BestFor(p: Accum, iChng: nat, n: nat): (r: seq<Sample>)
    requires Shaped(p) && n <= p.nCol
    ensures |r| == n
    ensures forall i :: 0 <= i < n ==>
      var s := p.current.(iCol := i);
      r[i] == if i < p.nCol - 1 && (iChng <= i || BetterPost(s, p.aBest[i], p.nCol, i + 1)) then s else p.aBest[i]
  {
    if n == 0 then []
    else
      var i := n - 1;
      var s := p.current.(iCol := i);
      BestFor(p, iChng, i)
      + [if i < p.nCol - 1 && (iChng <= i || BetterPost(s, p.aBest[i], p.nCol, i + 1)) then s else p.aBest[i]]
  }

  function StatPush(p: Accum, row: Push): (q: Accum)
    requires Shaped(p) && row.iChng < p.nCol && Room(p, row)
    ensures Shaped(q) && q.nRow == p.nRow + 1 && q.current == NextCurrent(p, row)
    ensures Periodic(q.a) == Periodic(p.a) + if Due(p, NextCurrent(p, row)) then 1 else 0
    ensures q.nCol == p.nCol && q.mxSample == p.mxSample && q.nPSample == p.nPSample
  {
    WithBest(WithPeriodic(Moved(p, row)), row.iChng)
  }

  lemma MovedParts(p: Accum, row: Push, moved: Accum)
    requires Shaped(p) && row.iChng < p.nCol && Room(p, row) && moved == Moved(p, row)
    ensures Shaped(moved) && !moved.current.isPSample
    ensures Due(moved, moved.current) ==> Periodic(moved.a) + 1 < moved.mxSample
  {
  }

  lemma PushParts(p: Accum, row: Push, moved: Accum)
    requires Shaped(p) && row.iChng < p.nCol && Room(p, row) && moved == Moved(p, row)
    requires Shaped(moved) && !moved.current.isPSample
    requires Due(moved, moved.current) ==> Periodic(moved.a) + 1 < moved.mxSample
    ensures StatPush(p, row) == WithBest(WithPeriodic(moved), row.iChng)
  {
  }
}
