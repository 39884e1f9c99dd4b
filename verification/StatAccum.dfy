// The accumulator behind stat_init, stat_push and stat_get, updated in place.
module StatAccums {
  import opened Stat4

  // The loop of sampleIsBetterPost.
  method IsBetterPost(new': Sample, old': Sample, nCol: nat) returns (better: bool)
    requires Sized(new', nCol) && Sized(old', nCol) && new'.iCol == old'.iCol
    ensures better == BetterPost(new', old', nCol, new'.iCol + 1)
  {
    var i := new'.iCol + 1;
    while i < nCol
      invariant new'.iCol + 1 <= i
      invariant BetterPost(new', old', nCol, i) == BetterPost(new', old', nCol, new'.iCol + 1)
    {
      if new'.anEq[i] > old'.anEq[i] { return true; }
      if new'.anEq[i] < old'.anEq[i] { return false; }
      i := i + 1;
    }
    return new'.iHash > old'.iHash;
  }

  method IsBetter(new': Sample, old': Sample, nCol: nat) returns (better: bool)
    requires Sized(new', nCol) && Sized(old', nCol)
    ensures better == Better(new', old', nCol)
  {
    var eqNew, eqOld := new'.anEq[new'.iCol], old'.anEq[old'.iCol];
    if eqNew > eqOld { return true; }
    if eqNew == eqOld {
      if new'.iCol < old'.iCol { return true; }
      if new'.iCol == old'.iCol {
        better := IsBetterPost(new', old', nCol);
        return;
      }
    }
    return false;
  }

  // Offering the candidates below i leads from q to target.
  ghost predicate Leads(q: Accum, i: nat, iChng: nat, target: Accum) {
    Shaped(q) && i < q.nCol && target == OfferFrom(q, i, iChng)
  }

  lemma FirstTurn(p: Accum, i: nat, next: nat, stop: nat, turn: (Accum, nat) -> Accum)
    requires next == i + 1 && stop <= i
    ensures Down(p, next, stop, turn) == Down(turn(p, i), i, stop, turn)
  {
  }

  lemma LeadsOn(q: Accum, i: nat, next: nat, iChng: nat, target: Accum)
    requires Leads(q, next, iChng, target) && next == i + 1 && iChng <= i
    ensures Leads(OfferBest(q, i), i, iChng, target)
  {
    OfferShaped(q, i);
    FirstTurn(q, i, next, iChng, Turn);
  }

  lemma LeadsAtLast(q: Accum, i: nat, iChng: nat, target: Accum)
    requires Leads(q, i, iChng, target) && i <= iChng
    ensures q == target
  {
  }

  class StatAccum {
    const nCol: nat
    const mxSample: nat
    const nPSample: nat
    var nRow: nat
    var current: Sample
    const aBest: array<Sample>
    const a: array<Sample>
    var nSample: nat
    var iMin: int
    var nMaxEqZero: nat

    // a[0..nSample] are live; the rest of the array is spare room.
    ghost predicate Valid()
      reads this, aBest, a
    {
      aBest != a && nSample <= a.Length == mxSample
    }

    ghost function State(): Accum
      requires Valid()
      reads this, aBest, a
    {
      Accum(nCol, mxSample, nPSample, nRow, current, aBest[..], a[..nSample], iMin, nMaxEqZero)
    }

    // stat_init(N, K, C, 0) for a positive sample limit
    constructor (nCol: nat, mxSample: nat, nEst: nat)
      requires 0 < nCol && 0 < mxSample
      ensures Valid() && fresh(aBest) && fresh(a)
      ensures this.nCol == nCol && this.mxSample == mxSample && this.nPSample == PeriodOf(nEst, mxSample)
      ensures nRow == 0 && nSample == 0 && iMin == 0 && nMaxEqZero == 0 && aBest.Length == nCol
      ensures var zeros := Constant(nCol, 0);
        && current == Sample(zeros, zeros, zeros, 0, false, 0, 0)
        && forall i :: 0 <= i < nCol ==> aBest[i] == current.(iCol := i)
    {
      this.nCol, this.mxSample := nCol, mxSample;
      this.nPSample := PeriodOf(nEst, mxSample);
      nRow, nSample, iMin, nMaxEqZero := 0, 0, 0, 0;
      var blank := Sample(Constant(nCol, 0), Constant(nCol, 0), Constant(nCol, 0), 0, false, 0, 0);
      current := blank;
      aBest := new Sample[nCol](i => blank.(iCol := i));
      a := new Sample[mxSample](i => blank);
    }

    // The scan of sampleInsert for a sample that shares the new one's prefix.
    method ScanForUpgrade(new': Sample) returns (scan: Scan)
      requires Valid() && Shaped(State()) && Sized(new', nCol)
      ensures scan == ScanFrom(State().a, nCol, new'.iCol, |State().a|, Nothing)
    {
      scan := Nothing;
      var i := nSample;
      ghost var samples := a[..nSample];
      while i > 0
        invariant 0 <= i <= nSample && scan != Covered
        invariant scan.Upgrade? ==>
          i <= scan.index < nSample && !samples[scan.index].isPSample && samples[scan.index].anEq[new'.iCol] == 0
        invariant ScanFrom(samples, nCol, new'.iCol, i, scan) == ScanFrom(samples, nCol, new'.iCol, nSample, Nothing)
      {
        var old' := a[i - 1];
        assert old' == samples[i - 1];
        if old'.anEq[new'.iCol] == 0 {
          if old'.isPSample { return Covered; }
          var better := true;
          if scan.Upgrade? {
            assert samples[scan.index] == a[scan.index];
            better := IsBetter(old', a[scan.index], nCol);
          }
          if better {
            scan := Upgrade(i - 1);
          }
        }
        i := i - 1;
      }
    }

    method FindNewMin()
      requires Valid() && AllSized(State().a, nCol)
      modifies this`iMin
      ensures Valid() && State() == NewMin(old(State()))
    {
      if nSample >= mxSample {
        var min, i := -1, 0;
        ghost var samples := a[..nSample];
        while i < mxSample
          invariant 0 <= i <= mxSample && -1 <= min < i
          invariant MinFrom(samples, nCol, i, min) == MinFrom(samples, nCol, 0, -1)
        {
          assert a[i] == samples[i];
          if !a[i].isPSample {
            var better := true;
            if min >= 0 {
              assert a[min] == samples[min];
              better := IsBetter(a[min], a[i], nCol);
            }
            if better {
              min := i;
            }
          }
          i := i + 1;
        }
        iMin := min;
      }
    }

    // Removes sample iMin by moving the later ones down.
    method EvictMin()
      requires Valid() && nSample == mxSample && 0 <= iMin < nSample
      modifies this`nSample, a
      ensures Valid() && State() == old(State()).(a := Without(old(State()).a, old(iMin))) && nSample == mxSample - 1
    {
      ghost var samples := a[..nSample];
      MoveDown(samples);
      nSample := mxSample - 1;
      assert a[..nSample] == Without(samples, iMin);
    }

    // memmove of the samples after iMin.
    method MoveDown(ghost samples: seq<Sample>)
      requires Valid() && 0 <= iMin < nSample == |samples| && samples == a[..nSample]
      modifies a
      ensures forall k :: 0 <= k < nSample - 1 ==> a[k] == samples[if k < iMin then k else k + 1]
    {
      var i := iMin;
      while i + 1 < nSample
        invariant iMin <= i < nSample
        invariant forall k :: 0 <= k < i ==> a[k] == samples[if k < iMin then k else k + 1]
        invariant forall k :: i < k < nSample ==> a[k] == samples[k]
        modifies a
      {
        a[i] := a[i + 1];
        i := i + 1;
      }
    }

    method UpgradeSample(new': Sample, i: nat)
      requires Valid() && Shaped(State()) && Sized(new', nCol) && i < nSample
      modifies this`iMin, a
      ensures Valid() && State() == NewMin(Upgraded(old(State()), new', i))
    {
      assert a[i] == State().a[i];
      a[i] := a[i].(iCol := new'.iCol, anEq := a[i].anEq[new'.iCol := new'.anEq[new'.iCol]]);
      assert a[..nSample] == Upgraded(old(State()), new', i).a;
      FindNewMin();
    }

    method AddSample(new': Sample, nEqZero: nat)
      requires Valid() && Shaped(State()) && Sized(new', nCol) && nEqZero < nCol
      modifies this`nSample, this`iMin, a
      ensures Valid() && State() == NewMin(Added(old(State()), new', nEqZero))
    {
      ghost var p := State();
      if nSample >= mxSample {
        EvictMin();
      }
      var zeroed := ZeroFirst(new', nEqZero);
      a[nSample] := zeroed;
      nSample := nSample + 1;
      assert a[..nSample] == Added(p, new', nEqZero).a;
      AddedSized(p, new', nEqZero);
      FindNewMin();
    }

    method SampleInsert(new': Sample, nEqZero: nat)
      requires Valid() && Shaped(State()) && Sized(new', nCol) && nEqZero < nCol
      modifies this`nSample, this`iMin, this`nMaxEqZero, a
      ensures Valid() && State() == Stat4.SampleInsert(old(State()), new', nEqZero)
    {
      if nEqZero > nMaxEqZero {
        nMaxEqZero := nEqZero;
      }
      assert State() == Raised(old(State()), nEqZero);
      if !new'.isPSample {
        var scan := ScanForUpgrade(new');
        match scan
        case Covered =>
          return;
        case Upgrade(i) =>
          UpgradeSample(new', i);
          return;
        case Nothing =>
      }
      AddSample(new', nEqZero);
    }

    method ZeroFirst(s: Sample, n: nat) returns (z: Sample)
      requires n <= |s.anEq|
      ensures z == Zeroed(s, n)
    {
      z := s;
      for j := 0 to n
        invariant |z.anEq| == |s.anEq| && z == s.(anEq := z.anEq)
        invariant forall k :: 0 <= k < |s.anEq| ==> z.anEq[k] == if k < j then 0 else s.anEq[k]
      {
        z := z.(anEq := z.anEq[j := 0]);
      }
      assert z.anEq == Zeroed(s, n).anEq;
    }

    // One turn of the first loop of samplePushPrevious.
    method Offer(i: nat)
      requires Valid() && Shaped(State()) && i < nCol
      modifies this`nSample, this`iMin, this`nMaxEqZero, a, aBest
      ensures Valid() && State() == OfferBest(old(State()), i)
    {
      ghost var p := State();
      assert aBest[i] == p.aBest[i];
      var best := aBest[i].(anEq := aBest[i].anEq[i := current.anEq[i]]);
      aBest[i] := best;
      assert aBest[..] == p.aBest[i := best];
      assert Shaped(State());
      var offer := nSample < mxSample;
      if !offer {
        assert a[iMin] == State().a[iMin];
        offer := IsBetter(best, a[iMin], nCol);
      }
      if offer {
        SampleInsert(best, i);
      }
    }

    // The last loop of samplePushPrevious.
    method Fill(iChng: nat)
      requires Valid() && Shaped(State())
      modifies this`nMaxEqZero, a
      ensures Valid() && State() == FillZeros(old(State()), iChng)
    {
      if iChng < nMaxEqZero {
        FillArray(iChng);
        nMaxEqZero := iChng;
      }
    }

    method FillArray(iChng: nat)
      requires Valid() && AllSized(a[..nSample], nCol) && Sized(current, nCol)
      modifies a
      ensures a[..nSample] == FilledSamples(old(a[..nSample]), nCol, current, iChng)
    {
      FillInto(iChng, a[..nSample], FilledSamples(a[..nSample], nCol, current, iChng));
    }

    method FillInto(iChng: nat, ghost samples: seq<Sample>, ghost want: seq<Sample>)
      requires Valid() && samples == a[..nSample] && |want| == nSample && Sized(current, nCol)
      requires forall k :: 0 <= k < nSample ==>
        Sized(samples[k], nCol) && want[k] == FilledSample(samples[k], current, iChng)
      modifies a
      ensures a[..nSample] == want
    {
      var i := nSample;
      while i > 0
        invariant 0 <= i <= nSample
        invariant forall k :: 0 <= k < i ==> a[k] == samples[k]
        invariant forall k :: i <= k < nSample ==> a[k] == want[k]
        modifies a
      {
        i := i - 1;
        assert a[i] == samples[i];
        var filled := FillSample(a[i], iChng);
        a[i] := filled;
      }
    }

    method FillSample(s: Sample, iChng: nat) returns (filled: Sample)
      requires |s.anEq| == |current.anEq| == nCol
      ensures filled == FilledSample(s, current, iChng)
    {
      filled := s;
      var j := iChng;
      while j < nCol
        invariant iChng <= j
        invariant |filled.anEq| == nCol && filled == s.(anEq := filled.anEq)
        invariant forall k :: 0 <= k < nCol ==>
          filled.anEq[k] == if iChng <= k < j && s.anEq[k] == 0 then current.anEq[k] else s.anEq[k]
      {
        if filled.anEq[j] == 0 {
          filled := filled.(anEq := filled.anEq[j := current.anEq[j]]);
        }
        j := j + 1;
      }
      assert filled.anEq == FilledSample(s, current, iChng).anEq;
    }

    // The first loop of samplePushPrevious.
    method OfferAll(iChng: nat)
      requires Valid() && Shaped(State())
      modifies this`nSample, this`iMin, this`nMaxEqZero, a, aBest
      ensures Valid() && State() == OfferFrom(old(State()), nCol - 1, iChng)
    {
      ghost var target := OfferFrom(State(), nCol - 1, iChng);
      var i := nCol - 1;
      while i > iChng
        invariant 0 <= i < nCol && Valid() && Leads(State(), i, iChng, target)
      {
        ghost var next := i;
        i := i - 1;
        OfferNext(i, next, iChng, target);
      }
      LeadsAtLast(State(), i, iChng, target);
    }

    method OfferNext(i: nat, ghost next: nat, ghost iChng: nat, ghost target: Accum)
      requires Valid() && Leads(State(), next, iChng, target) && next == i + 1 && iChng <= i < nCol
      modifies this`nSample, this`iMin, this`nMaxEqZero, a, aBest
      ensures Valid() && Leads(State(), i, iChng, target)
    {
      LeadsOn(State(), i, next, iChng, target);
      Offer(i);
    }

    // samplePushPrevious
    method PushPrevious(iChng: nat)
      requires Valid() && Shaped(State())
      modifies this`nSample, this`iMin, this`nMaxEqZero, a, aBest
      ensures Valid() && State() == Stat4.PushPrevious(old(State()), iChng)
    {
      OfferAll(iChng);
      Fill(iChng);
    }

    // The counts of the next row, column by column.
    method Advance(iChng: nat)
      requires |current.anEq| == |current.anLt| == |current.anDLt| == nCol && iChng < nCol
      modifies this`current
      ensures current == Advanced(old(current), iChng)
    {
      ghost var was := current;
      CountSame(iChng);
      CountChanged(iChng, was);
      assert current.anEq == Advanced(was, iChng).anEq;
      assert current.anLt == Advanced(was, iChng).anLt;
      assert current.anDLt == Advanced(was, iChng).anDLt;
    }

    method CountSame(iChng: nat)
      requires |current.anEq| == nCol && iChng < nCol
      modifies this`current
      ensures current == old(current).(anEq := current.anEq) && |current.anEq| == nCol
      ensures forall k :: 0 <= k < nCol ==>
        current.anEq[k] == if k < iChng then old(current).anEq[k] + 1 else old(current).anEq[k]
    {
      ghost var was := current;
      for i := 0 to iChng
        invariant current == was.(anEq := current.anEq) && |current.anEq| == nCol
        invariant forall k :: 0 <= k < nCol ==> current.anEq[k] == if k < i then was.anEq[k] + 1 else was.anEq[k]
      {
        current := current.(anEq := current.anEq[i := current.anEq[i] + 1]);
      }
    }

    // The counts were those of was before the columns up to iChng were counted.
    method CountChanged(iChng: nat, ghost was: Sample)
      requires |was.anEq| == |was.anLt| == |was.anDLt| == |current.anEq| == nCol && iChng < nCol
      requires current == was.(anEq := current.anEq)
      requires forall k :: iChng <= k < nCol ==> current.anEq[k] == was.anEq[k]
      modifies this`current
      ensures |current.anEq| == |current.anLt| == |current.anDLt| == nCol
      ensures current == was.(anEq := current.anEq, anLt := current.anLt, anDLt := current.anDLt)
      ensures forall k :: 0 <= k < iChng ==>
        current.anEq[k] == old(current).anEq[k] && current.anLt[k] == was.anLt[k] && current.anDLt[k] == was.anDLt[k]
      ensures forall k :: iChng <= k < nCol ==>
        current.anEq[k] == 1 && current.anLt[k] == was.anLt[k] + was.anEq[k] && current.anDLt[k] == was.anDLt[k] + 1
    {
      ghost var counted := current;
      for i := iChng to nCol
        invariant current == was.(anEq := current.anEq, anLt := current.anLt, anDLt := current.anDLt)
        invariant |current.anEq| == |current.anLt| == |current.anDLt| == nCol
        invariant forall k :: 0 <= k < iChng ==>
          current.anEq[k] == counted.anEq[k] && current.anLt[k] == was.anLt[k] && current.anDLt[k] == was.anDLt[k]
        invariant forall k :: iChng <= k < i ==>
          current.anEq[k] == 1 && current.anLt[k] == was.anLt[k] + was.anEq[k] && current.anDLt[k] == was.anDLt[k] + 1
        invariant forall k :: i <= k < nCol ==>
          current.anEq[k] == was.anEq[k] && current.anLt[k] == was.anLt[k] && current.anDLt[k] == was.anDLt[k]
      {
        current := current.(anDLt := current.anDLt[i := current.anDLt[i] + 1],
                            anLt := current.anLt[i := current.anLt[i] + current.anEq[i]],
                            anEq := current.anEq[i := 1]);
      }
    }

    // The candidates for the current row.
    method UpdateBest(iChng: nat)
      requires Valid() && Shaped(State()) && !current.isPSample
      modifies aBest
      ensures Valid() && State() == WithBest(old(State()), iChng)
    {
      ghost var best, want := aBest[..], WithBest(State(), iChng).aBest;
      for i := 0 to nCol - 1
        invariant forall k :: 0 <= k < i ==> aBest[k] == want[k]
        invariant forall k :: i <= k < nCol ==> aBest[k] == best[k]
      {
        assert aBest[i] == old(State()).aBest[i];
        var s := current.(iCol := i);
        var replace := i >= iChng;
        if !replace {
          replace := IsBetterPost(s, aBest[i], nCol);
        }
        if replace {
          aBest[i] := s;
        }
      }
      assert aBest[..] == want;
    }

    // The first part of stat_push: close the groups that end, move to the row.
    method MoveTo(row: Push)
      requires Valid() && Shaped(State()) && row.iChng < nCol
      modifies this, a, aBest
      ensures Valid() && State() == Moved(old(State()), row)
    {
      ghost var p := State();
      if nRow == 0 {
        current := current.(anEq := Constant(nCol, 1));
      } else {
        PushPrevious(row.iChng);
        Advance(row.iChng);
      }
      nRow := nRow + 1;
      current := current.(rowid := row.rowid, iHash := row.iHash, isPSample := false, iCol := 0);
      assert current == NextCurrent(p, row);
    }

    // stat_push
    method StatPush(row: Push)
      requires Valid() && Shaped(State()) && row.iChng < nCol && Room(State(), row)
      modifies this, a, aBest
      ensures Valid() && State() == Stat4.StatPush(old(State()), row)
    {
      ghost var p := State();
      MoveTo(row);
      ghost var moved := State();
      MovedParts(p, row, moved);
      PushPeriodic();
      UpdateBest(row.iChng);
      PushParts(p, row, moved);
    }

    method PushPeriodic()
      requires Valid() && Shaped(State()) && (Due(State(), current) ==> Periodic(a[..nSample]) + 1 < mxSample)
      modifies this`nSample, this`iMin, this`nMaxEqZero, a
      ensures Valid() && State() == WithPeriodic(old(State()))
    {
      var nLt := current.anLt[nCol - 1];
      if nLt / nPSample != (nLt + 1) / nPSample {
        SampleInsert(current.(isPSample := true), nCol - 1);
      }
    }
  }

  lemma AddedSized(p: Accum, new': Sample, nEqZero: nat)
    requires Shaped(p) && Sized(new', p.nCol) && nEqZero < p.nCol
    ensures AllSized(Added(p, new', nEqZero).a, p.nCol)
  {
  }
}

// ANALYZE on one index: stat_init, stat_push for each row, then stat_get.
module Analyze {
  import opened Stat4
  import Stat4Invariant
  import Stat4Run
  import opened StatAccums

  method Samples(scan: Stat4Run.Scan) returns (samples: seq<Sample>)
    requires Stat4Run.Feasible(scan) && scan.pushes != []
    ensures samples == Stat4Run.Finished(scan).a
  {
    var p := new StatAccum(scan.nCol, scan.mxSample, scan.nEst);
    assert p.State() == Stat4Run.After(scan, 0) by {
      assert p.aBest[..] == Stat4Invariant.Init(scan.nCol, scan.mxSample, scan.nEst).aBest;
      assert p.a[..0] == [];
    }
    for k := 0 to |scan.pushes|
      invariant fresh(p) && fresh(p.a) && fresh(p.aBest) && p.Valid() && p.State() == Stat4Run.After(scan, k)
    {
      Stat4Run.PushReported(scan, k + 1, p.State());
      p.StatPush(scan.pushes[k]);
    }
    p.PushPrevious(0);
    samples := p.a[..p.nSample];
  }
}
