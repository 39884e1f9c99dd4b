// What the samples hold at every moment of a scan.
module Stat4Invariant {
  import Division
  import opened Numbers
  import opened PrefixGroups
  import opened Stat4

  // A scan of at least one row over an index of nCol columns.
  predicate ScanOf(c: seq<nat>, nCol: nat) {
    0 < nCol && 0 < |c| && c[0] == 0 && forall i :: 0 <= i < |c| ==> c[i] < nCol
  }

  // The row a sample stands for: the number of rows before it.
  function RowOf(s: Sample, nCol: nat): nat
    requires Sized(s, nCol)
  {
    s.anLt[nCol - 1]
  }

  // anLt and anDLt are those of row x.
  predicate CountsOf(s: Sample, nCol: nat, c: seq<nat>, x: nat)
    requires Sized(s, nCol) && x < |c|
  {
    forall j :: 0 <= j < nCol ==> s.anLt[j] == Start(c, x, j) && s.anDLt[j] == Before(c, x, j)
  }

  // The sample's row is in the j-group of the last row.
  predicate Open(s: Sample, nCol: nat, c: seq<nat>, j: nat)
    requires Sized(s, nCol) && 0 < |c|
  {
    RowOf(s, nCol) < |c| && Together(c, RowOf(s, nCol), |c| - 1, j)
  }

  // Counts are right where they are filled in; anEq[j] is left at zero only
  // while the j-group is open, and for j below i whenever it is open.
  predicate Exact(s: Sample, nCol: nat, c: seq<nat>, i: nat)
    requires Sized(s, nCol) && 0 < |c|
  {
    && RowOf(s, nCol) < |c| && CountsOf(s, nCol, c, RowOf(s, nCol))
    && forall j :: 0 <= j < nCol ==>
        && (s.anEq[j] != 0 ==> s.anEq[j] == Size(c, RowOf(s, nCol), j))
        && (s.anEq[j] == 0 ==> j < nCol - 1 && Open(s, nCol, c, j))
        && (j < i && j < nCol - 1 && Open(s, nCol, c, j) ==> s.anEq[j] == 0)
  }

  // The counts that sampleIsBetter reads are filled in.
  predicate Comparable(s: Sample, nCol: nat)
    requires Sized(s, nCol)
  {
    !s.isPSample ==> forall j :: s.iCol <= j < nCol ==> s.anEq[j] != 0
  }

  ghost predicate SamplesOk(a: seq<Sample>, nCol: nat, c: seq<nat>, i: nat)
    requires AllSized(a, nCol) && 0 < |c|
  {
    && (forall t :: 0 <= t < |a| ==> Exact(a[t], nCol, c, i) && Comparable(a[t], nCol))
    && (forall t, u :: 0 <= t < u < |a| ==> RowOf(a[t], nCol) < RowOf(a[u], nCol))
  }

  // No sample has a zero count at nMaxEqZero or beyond.
  ghost predicate ZerosBelow(a: seq<Sample>, nCol: nat, n: nat)
    requires AllSized(a, nCol)
  {
    forall t, j :: 0 <= t < |a| && n <= j < nCol ==> a[t].anEq[j] != 0
  }

  // A sample u of the open j-group that holds off any upgrade of others at j.
  predicate Guards(u: Sample, nCol: nat, c: seq<nat>, j: nat)
    requires Sized(u, nCol) && 0 < |c|
  {
    Open(u, nCol, c, j) && (u.isPSample || u.iCol <= j)
  }

  ghost predicate HasGuard(a: seq<Sample>, nCol: nat, c: seq<nat>, j: nat)
    requires AllSized(a, nCol) && 0 < |c|
  {
    exists u :: 0 <= u < |a| && Guards(a[u], nCol, c, j)
  }

  // Sample t is not periodic and its count at j is not filled in.
  predicate Waits(a: seq<Sample>, nCol: nat, t: nat, j: nat)
    requires AllSized(a, nCol)
  {
    t < |a| && j < nCol && !a[t].isPSample && a[t].anEq[j] == 0
  }

  ghost predicate Guarded(a: seq<Sample>, nCol: nat, c: seq<nat>, i: nat)
    requires AllSized(a, nCol) && 0 < |c|
  {
    forall t, j :: i <= j && Waits(a, nCol, t, j) ==> HasGuard(a, nCol, c, j)
  }

  predicate CurrentOk(s: Sample, nCol: nat, c: seq<nat>)
    requires Sized(s, nCol) && 0 < |c|
  {
    && CountsOf(s, nCol, c, |c| - 1)
    && forall j :: 0 <= j < nCol ==> s.anEq[j] == |c| - Start(c, |c| - 1, j)
  }

  // The candidate for column i is in the open i-group, and if its (i+1)-group
  // has ended it is the last row of that group.
  predicate BestOk(b: Sample, nCol: nat, c: seq<nat>, i: nat)
    requires Sized(b, nCol) && 0 < |c|
  {
    var y := RowOf(b, nCol);
    && Open(b, nCol, c, i) && CountsOf(b, nCol, c, y)
    && (forall j :: 0 <= j < nCol ==> b.anEq[j] == y + 1 - Start(c, y, j))
    && (y == |c| - 1 || c[y + 1] <= i + 1)
  }

  // ---- sampleInsert's scan ----

  lemma {:induction false} ScanMeaning(a: seq<Sample>, nCol: nat, col: nat, i: nat, up: Scan)
    requires i <= |a| && col < nCol && AllSized(a, nCol)
    requires up != Covered
    requires up.Upgrade? ==> i <= up.index < |a| && !a[up.index].isPSample && a[up.index].anEq[col] == 0
    requires forall t :: i <= t < |a| && a[t].anEq[col] == 0 ==>
               !a[t].isPSample && up.Upgrade? && !Better(a[t], a[up.index], nCol)
    ensures var r := ScanFrom(a, nCol, col, i, up);
      && (r == Covered ==> exists t :: 0 <= t < |a| && a[t].anEq[col] == 0 && a[t].isPSample)
      && (r != Covered ==> forall t :: 0 <= t < |a| && a[t].anEq[col] == 0 ==>
            !a[t].isPSample && r.Upgrade? && !Better(a[t], a[r.index], nCol))
    decreases i
  {
    if i > 0 && !(a[i - 1].anEq[col] == 0 && a[i - 1].isPSample) {
      if a[i - 1].anEq[col] == 0 {
        var up' := if up == Nothing || Better(a[i - 1], a[up.index], nCol) then Upgrade(i - 1) else up;
        forall t | i - 1 <= t < |a| && a[t].anEq[col] == 0 ensures !Better(a[t], a[up'.index], nCol) {
          BetterOrder(a[i - 1], a[i - 1], a[i - 1], nCol);
          if up.Upgrade? {
            BetterOrder(a[t], a[i - 1], a[up.index], nCol);
          }
        }
        ScanMeaning(a, nCol, col, i - 1, up');
      } else {
        ScanMeaning(a, nCol, col, i - 1, up);
      }
    }
  }

  // ---- Offering aBest[i] when the open i-group ends ----

  // The candidate's row closes all its groups from column i+1 on.
  lemma BestCloses(b: Sample, nCol: nat, c: seq<nat>, i: nat, j: nat)
    requires Sized(b, nCol) && ScanOf(c, nCol) && i < j < nCol && BestOk(b, nCol, c, i)
    ensures RowOf(b, nCol) + 1 == End(c, RowOf(b, nCol), j)
  {
  }

  lemma LastRowOfItself(c: seq<nat>, nCol: nat, x: nat)
    requires ScanOf(c, nCol) && x < |c|
    ensures Start(c, x, nCol - 1) == x && End(c, x, nCol - 1) == x + 1
  {
  }

  // With the open i-group's count filled in, the candidate's counts from i on
  // are the exact group sizes.
  lemma OfferedExact(p: Accum, c: seq<nat>, i: nat)
    requires Shaped(p) && ScanOf(c, p.nCol) && i < p.nCol - 1
    requires CurrentOk(p.current, p.nCol, c) && BestOk(p.aBest[i], p.nCol, c, i)
    ensures var b := BestWithCount(p, i);
      && RowOf(b, p.nCol) == RowOf(p.aBest[i], p.nCol)
      && forall j :: i <= j < p.nCol ==> b.anEq[j] == Size(c, RowOf(b, p.nCol), j)
  {
    var b := BestWithCount(p, i);
    var y := RowOf(b, p.nCol);
    TogetherShares(c, y, |c| - 1, i);
    forall j | i <= j < p.nCol ensures b.anEq[j] == Size(c, y, j) {
      if i < j {
        BestCloses(p.aBest[i], p.nCol, c, i, j);
      }
    }
  }

  // A candidate of the open i-group is better than any sample of it that waits
  // for a count at i.
  lemma OfferedBetter(b: Sample, s: Sample, nCol: nat, c: seq<nat>, i: nat)
    requires Sized(b, nCol) && Sized(s, nCol) && ScanOf(c, nCol) && i < nCol - 1
    requires b.iCol == i && Open(b, nCol, c, i) && b.anEq[i] == Size(c, RowOf(b, nCol), i)
    requires Exact(s, nCol, c, i + 1) && Comparable(s, nCol) && !s.isPSample && s.anEq[i] == 0
    ensures i < s.iCol && Better(b, s, nCol)
  {
    TogetherShares(c, RowOf(b, nCol), |c| - 1, i);
    TogetherShares(c, RowOf(s, nCol), |c| - 1, i);
    Nested(c, RowOf(s, nCol), i, s.iCol);
  }

  // A guard is better than the sample it guards.
  lemma GuardBetter(u: Sample, s: Sample, nCol: nat, c: seq<nat>, i: nat, j: nat)
    requires Sized(u, nCol) && Sized(s, nCol) && ScanOf(c, nCol) && i <= j < nCol
    requires Exact(u, nCol, c, i) && Comparable(u, nCol) && Guards(u, nCol, c, j) && !u.isPSample
    requires Exact(s, nCol, c, i) && Comparable(s, nCol) && !s.isPSample && s.anEq[j] == 0
    ensures Better(u, s, nCol)
  {
    TogetherShares(c, RowOf(u, nCol), |c| - 1, j);
    TogetherShares(c, RowOf(s, nCol), |c| - 1, j);
    Nested(c, RowOf(u, nCol), u.iCol, j);
    Nested(c, RowOf(s, nCol), j, s.iCol);
  }

  // What one turn of the loop needs, with columns above i already offered.
  ghost predicate Offering(p: Accum, c: seq<nat>, i: nat)
    requires Shaped(p)
  {
    && ScanOf(c, p.nCol) && i < p.nCol
    && MinKnown(p) && CurrentOk(p.current, p.nCol, c)
    && SamplesOk(p.a, p.nCol, c, i) && ZerosBelow(p.a, p.nCol, p.nMaxEqZero) && Guarded(p.a, p.nCol, c, i)
    && forall k :: 0 <= k < i ==> BestOk(p.aBest[k], p.nCol, c, k)
  }

  // The samples as the loop leaves them for column i.
  ghost predicate Offered(a: seq<Sample>, nMaxEqZero: nat, nCol: nat, c: seq<nat>, i: nat)
    requires AllSized(a, nCol) && 0 < |c|
  {
    SamplesOk(a, nCol, c, i) && ZerosBelow(a, nCol, nMaxEqZero) && Guarded(a, nCol, c, i)
  }

  // Passing from column i+1 to column i asks less of each count.
  lemma ExactPasses(s: Sample, nCol: nat, c: seq<nat>, i: nat)
    requires Sized(s, nCol) && 0 < |c| && Exact(s, nCol, c, i + 1)
    ensures Exact(s, nCol, c, i)
  {
  }

  lemma SamplesPass(a: seq<Sample>, nCol: nat, c: seq<nat>, i: nat)
    requires AllSized(a, nCol) && 0 < |c| && SamplesOk(a, nCol, c, i + 1)
    ensures SamplesOk(a, nCol, c, i)
  {
    forall t | 0 <= t < |a| ensures Exact(a[t], nCol, c, i) {
      ExactPasses(a[t], nCol, c, i);
    }
  }

  // The loop may pass column i when whoever waits for a count there is guarded.
  lemma GuardedPasses(a: seq<Sample>, nCol: nat, c: seq<nat>, i: nat)
    requires AllSized(a, nCol) && 0 < |c| && i < nCol && Guarded(a, nCol, c, i + 1)
    requires (forall t :: 0 <= t < |a| && !a[t].isPSample ==> a[t].anEq[i] != 0) || HasGuard(a, nCol, c, i)
    ensures Guarded(a, nCol, c, i)
  {
    forall t: nat, j: nat | i <= j && Waits(a, nCol, t, j) ensures HasGuard(a, nCol, c, j) {
      if j > i {
        assert i + 1 <= j;
      }
    }
  }

  // The candidate, as it is offered for column i.
  predicate Candidate(b: Sample, nCol: nat, c: seq<nat>, i: nat)
    requires Sized(b, nCol) && 0 < |c|
  {
    && b.iCol == i && !b.isPSample && Open(b, nCol, c, i) && CountsOf(b, nCol, c, RowOf(b, nCol))
    && forall j :: i <= j < nCol ==> b.anEq[j] == Size(c, RowOf(b, nCol), j)
  }

  // Not offering, because the candidate is not better than the least sample:
  // then no sample waits for a count at i.
  lemma NotBetterNoneWaits(p: Accum, b: Sample, c: seq<nat>, i: nat)
    requires Shaped(p) && Offering(p, c, i + 1) && |p.a| == p.mxSample
    requires Sized(b, p.nCol) && Candidate(b, p.nCol, c, i) && !Better(b, p.a[p.iMin], p.nCol)
    ensures Offered(p.a, p.nMaxEqZero, p.nCol, c, i)
  {
    forall t | 0 <= t < |p.a| && !p.a[t].isPSample ensures p.a[t].anEq[i] != 0 {
      if p.a[t].anEq[i] == 0 {
        OfferedBetter(b, p.a[t], p.nCol, c, i);
        BetterOrder(b, p.a[p.iMin], p.a[t], p.nCol);
      }
    }
    SamplesPass(p.a, p.nCol, c, i);
    GuardedPasses(p.a, p.nCol, c, i);
  }

  // Not inserting, because a periodic sample already stands for the group.
  lemma CoveredOffered(a: seq<Sample>, n: nat, nCol: nat, c: seq<nat>, i: nat, u: nat)
    requires AllSized(a, nCol) && 0 < |c| && i < nCol && Offered(a, n, nCol, c, i + 1)
    requires u < |a| && a[u].isPSample && a[u].anEq[i] == 0
    ensures Offered(a, n, nCol, c, i)
  {
    assert Guards(a[u], nCol, c, i) && HasGuard(a, nCol, c, i);
    SamplesPass(a, nCol, c, i);
    GuardedPasses(a, nCol, c, i);
  }

  // The most preferred sample that waits for a count at i waits for none beyond.
  lemma ChosenHasCounts(a: seq<Sample>, nCol: nat, c: seq<nat>, i: nat, u: nat, j: nat)
    requires AllSized(a, nCol) && ScanOf(c, nCol) && SamplesOk(a, nCol, c, i + 1) && Guarded(a, nCol, c, i + 1)
    requires u < |a| && i < j < nCol && !a[u].isPSample
    requires forall t :: 0 <= t < |a| && a[t].anEq[i] == 0 ==> !a[t].isPSample && !Better(a[t], a[u], nCol)
    ensures a[u].anEq[j] != 0
  {
    if Waits(a, nCol, u, j) {
      var w :| 0 <= w < |a| && Guards(a[w], nCol, c, j);
      OpenBelow(a[w], nCol, c, i, j);
      assert Exact(a[w], nCol, c, i + 1) && Exact(a[u], nCol, c, i + 1) && Comparable(a[u], nCol) &&
        Comparable(a[w], nCol);
      assert i < nCol - 1 by { assert Exact(a[u], nCol, c, i + 1); }
      assert a[w].anEq[i] == 0;
      GuardBetter(a[w], a[u], nCol, c, i + 1, j);
    }
  }

  lemma OpenBelow(s: Sample, nCol: nat, c: seq<nat>, i: nat, j: nat)
    requires Sized(s, nCol) && 0 < |c| && i <= j && Open(s, nCol, c, j)
    ensures Open(s, nCol, c, i)
  {
    Nested(c, |c| - 1, i, j);
  }

  // The upgraded sample.
  lemma UpgradedExact(s: Sample, b: Sample, nCol: nat, c: seq<nat>, i: nat)
    requires Sized(s, nCol) && Sized(b, nCol) && ScanOf(c, nCol) && i < nCol - 1 && Candidate(b, nCol, c, i)
    requires Exact(s, nCol, c, i + 1) && !s.isPSample && s.anEq[i] == 0 && forall j :: i < j < nCol ==> s.anEq[j] != 0
    ensures var s' := s.(iCol := b.iCol, anEq := s.anEq[b.iCol := b.anEq[b.iCol]]);
      Sized(s', nCol) && Exact(s', nCol, c, i) && Comparable(s', nCol) && Guards(s', nCol, c, i) &&
        RowOf(s', nCol) == RowOf(s, nCol)
  {
    var s' := s.(iCol := b.iCol, anEq := s.anEq[b.iCol := b.anEq[b.iCol]]);
    assert b.anEq[i] == Size(c, RowOf(s, nCol), i) != 0 by {
      TogetherShares(c, RowOf(b, nCol), |c| - 1, i);
      TogetherShares(c, RowOf(s, nCol), |c| - 1, i);
    }
    forall j | 0 <= j < nCol ensures Open(s', nCol, c, j) == Open(s, nCol, c, j) {
    }
  }

  lemma UpgradeOffered(a: seq<Sample>, nMaxEqZero: nat, b: Sample, nCol: nat, c: seq<nat>, i: nat, u: nat)
    requires AllSized(a, nCol) && ScanOf(c, nCol) && i < nCol - 1 && Offered(a, nMaxEqZero, nCol, c, i + 1)
    requires u < |a| && Sized(b, nCol) && Candidate(b, nCol, c, i)
    requires !a[u].isPSample && a[u].anEq[i] == 0
    requires forall t :: 0 <= t < |a| && a[t].anEq[i] == 0 ==> !a[t].isPSample && !Better(a[t], a[u], nCol)
    ensures Offered(UpgradeAt(a, nCol, b, u), nMaxEqZero, nCol, c, i)
  {
    forall j | i < j < nCol ensures a[u].anEq[j] != 0 {
      ChosenHasCounts(a, nCol, c, i, u, j);
    }
    UpgradedExact(a[u], b, nCol, c, i);
    SamplesPass(a, nCol, c, i);
    UpgradedGuarded(a, b, nCol, c, i, u);
  }

  lemma UpgradedGuarded(a: seq<Sample>, b: Sample, nCol: nat, c: seq<nat>, i: nat, u: nat)
    requires AllSized(a, nCol) && 0 < |c| && i < nCol && Guarded(a, nCol, c, i + 1)
    requires u < |a| && Sized(b, nCol) && b.iCol == i && !a[u].isPSample
    requires Guards(UpgradeAt(a, nCol, b, u)[u], nCol, c, i)
    requires b.anEq[i] != 0 && forall j :: i < j < nCol ==> a[u].anEq[j] != 0
    ensures Guarded(UpgradeAt(a, nCol, b, u), nCol, c, i)
  {
    var a' := UpgradeAt(a, nCol, b, u);
    forall t: nat, j: nat | i + 1 <= j && Waits(a', nCol, t, j) ensures HasGuard(a', nCol, c, j) {
      assert t != u && a'[t] == a[t] && Waits(a, nCol, t, j);
      var w :| 0 <= w < |a| && Guards(a[w], nCol, c, j);
      assert Guards(a'[w], nCol, c, j);
    }
    assert HasGuard(a', nCol, c, i);
    GuardedPasses(a', nCol, c, i);
  }

  // ---- Inserting the candidate ----

  lemma WithoutOk(a: seq<Sample>, nCol: nat, c: seq<nat>, i: nat, n: nat, k: nat)
    requires AllSized(a, nCol) && 0 < |c| && SamplesOk(a, nCol, c, i) && ZerosBelow(a, nCol, n) && k < |a|
    ensures AllSized(Without(a, k), nCol) && SamplesOk(Without(a, k), nCol, c, i) && ZerosBelow(Without(a, k), nCol, n)
    ensures forall t :: 0 <= t < |Without(a, k)| ==> Without(a, k)[t] in a
  {
    var b := Without(a, k);
    assert forall t :: 0 <= t < |b| ==> b[t] == a[if t < k then t else t + 1];
  }

  // A sample of a later row may be appended.
  lemma AppendOk(a: seq<Sample>, s: Sample, nCol: nat, c: seq<nat>, i: nat, n: nat)
    requires AllSized(a, nCol) && 0 < |c| && SamplesOk(a, nCol, c, i) && ZerosBelow(a, nCol, n)
    requires Sized(s, nCol) && Exact(s, nCol, c, i) && Comparable(s, nCol)
    requires forall t :: 0 <= t < |a| ==> RowOf(a[t], nCol) < RowOf(s, nCol)
    requires forall j :: n <= j < nCol ==> s.anEq[j] != 0
    ensures AllSized(a + [s], nCol) && SamplesOk(a + [s], nCol, c, i) && ZerosBelow(a + [s], nCol, n)
  {
  }

  // With no sample of the open i-group present, every sample's row comes before
  // the candidate's, and nothing waits beyond i.
  lemma NothingWaits(a: seq<Sample>, b: Sample, nCol: nat, c: seq<nat>, i: nat)
    requires AllSized(a, nCol) && ScanOf(c, nCol) && i < nCol - 1 && SamplesOk(a, nCol, c, i + 1)
    requires Sized(b, nCol) && Candidate(b, nCol, c, i)
    requires forall t :: 0 <= t < |a| ==> a[t].anEq[i] != 0
    ensures forall t :: 0 <= t < |a| ==> RowOf(a[t], nCol) < RowOf(b, nCol)
    ensures forall t, j :: 0 <= t < |a| && i <= j < nCol ==> a[t].anEq[j] != 0
  {
    forall t | 0 <= t < |a| ensures RowOf(a[t], nCol) < RowOf(b, nCol) {
      assert Exact(a[t], nCol, c, i + 1);
    }
    forall t, j | 0 <= t < |a| && i <= j < nCol ensures a[t].anEq[j] != 0 {
      assert Exact(a[t], nCol, c, i + 1);
      if a[t].anEq[j] == 0 {
        OpenBelow(a[t], nCol, c, i, j);
      }
    }
  }

  lemma ZeroedExact(b: Sample, nCol: nat, c: seq<nat>, i: nat)
    requires Sized(b, nCol) && ScanOf(c, nCol) && i < nCol - 1 && Candidate(b, nCol, c, i)
    ensures var s := Zeroed(b, i);
      Sized(s, nCol) && Exact(s, nCol, c, i) && Comparable(s, nCol) && RowOf(s, nCol) == RowOf(b, nCol)
      && forall j :: i <= j < nCol ==> s.anEq[j] != 0
  {
    var s := Zeroed(b, i);
    forall j | 0 <= j < nCol ensures j < i ==> Open(s, nCol, c, j) {
      if j < i {
        OpenBelow(b, nCol, c, j, i);
      }
    }
  }

  lemma AddOffered(a: seq<Sample>, mxSample: nat, iMin: int, n: nat, b: Sample, nCol: nat, c: seq<nat>, i: nat)
    requires AllSized(a, nCol) && ScanOf(c, nCol) && i < nCol - 1
    requires |a| <= mxSample && (|a| == mxSample ==> 0 <= iMin < |a|)
    requires SamplesOk(a, nCol, c, i + 1) && ZerosBelow(a, nCol, n) && i <= n
    requires Sized(b, nCol) && Candidate(b, nCol, c, i)
    requires forall t :: 0 <= t < |a| ==> a[t].anEq[i] != 0
    ensures var r := AddTo(a, mxSample, iMin, b, i); AllSized(r, nCol) && Offered(r, n, nCol, c, i)
  {
    NothingWaits(a, b, nCol, c, i);
    SamplesPass(a, nCol, c, i);
    ZeroedExact(b, nCol, c, i);
    if |a| == mxSample {
      WithoutOk(a, nCol, c, i, n, iMin);
      LaterOffered(Without(a, iMin), Zeroed(b, i), n, nCol, c, i);
    } else {
      LaterOffered(a, Zeroed(b, i), n, nCol, c, i);
    }
  }

  lemma LaterOffered(a: seq<Sample>, s: Sample, n: nat, nCol: nat, c: seq<nat>, i: nat)
    requires AllSized(a, nCol) && 0 < |c| && SamplesOk(a, nCol, c, i) && ZerosBelow(a, nCol, n) && i <= n
    requires Sized(s, nCol) && Exact(s, nCol, c, i) && Comparable(s, nCol)
    requires forall t :: 0 <= t < |a| ==> RowOf(a[t], nCol) < RowOf(s, nCol)
    requires forall t, j :: 0 <= t < |a| && i <= j < nCol ==> a[t].anEq[j] != 0
    requires forall j :: i <= j < nCol ==> s.anEq[j] != 0
    ensures AllSized(a + [s], nCol) && Offered(a + [s], n, nCol, c, i)
  {
    AppendOk(a, s, nCol, c, i, n);
  }

  // One turn of the loop over aBest.
  lemma OfferKeeps(p: Accum, c: seq<nat>, i: nat, next: nat)
    requires Shaped(p) && next == i + 1 && Offering(p, c, next) && i < p.nCol - 1
    ensures var q := OfferBest(p, i); Shaped(q) && Offering(q, c, i)
  {
    var b := BestWithCount(p, i);
    var q := p.(aBest := p.aBest[i := b]);
    OfferShaped(p, i);
    assert Sized(b, p.nCol) && Candidate(b, p.nCol, c, i) by {
      CandidateFits(p, c, i);
    }
    if |q.a| < q.mxSample || Better(b, q.a[q.iMin], q.nCol) {
      InsertOffers(p, q, b, c, i);
    } else {
      NotBetterNoneWaits(p, b, c, i);
    }
    OfferingGoesOn(p, OfferBest(p, i), b, c, i);
  }

  lemma OfferingGoesOn(p: Accum, r: Accum, b: Sample, c: seq<nat>, i: nat)
    requires Shaped(p) && Offering(p, c, i + 1) && i < p.nCol - 1 && Shaped(r) && MinKnown(r)
    requires r == p.(aBest := p.aBest[i := b], a := r.a, iMin := r.iMin, nMaxEqZero := r.nMaxEqZero)
    requires Offered(r.a, r.nMaxEqZero, p.nCol, c, i)
    ensures Offering(r, c, i)
  {
  }

  lemma CandidateFits(p: Accum, c: seq<nat>, i: nat)
    requires Shaped(p) && Offering(p, c, i + 1) && i < p.nCol - 1
    ensures Sized(BestWithCount(p, i), p.nCol) && Candidate(BestWithCount(p, i), p.nCol, c, i)
  {
    OfferedExact(p, c, i);
    assert BestOk(p.aBest[i], p.nCol, c, i);
  }

  lemma InsertOffers(p: Accum, q: Accum, b: Sample, c: seq<nat>, i: nat)
    requires Shaped(p) && Offering(p, c, i + 1) && i < p.nCol - 1 && Shaped(q) && q == p.(aBest := q.aBest)
    requires Sized(b, p.nCol) && Candidate(b, p.nCol, c, i)
    ensures var r := SampleInsert(q, b, i); AllSized(r.a, p.nCol) && Offered(r.a, r.nMaxEqZero, p.nCol, c, i)
  {
    var n := if i > p.nMaxEqZero then i else p.nMaxEqZero;
    InsertCases(q, b, i);
    OffersAny(p.a, p.mxSample, p.iMin, n, b, p.nCol, c, i);
  }

  // What sampleInsert does to the samples.
  function Inserted(a: seq<Sample>, mxSample: nat, iMin: int, b: Sample, nCol: nat, i: nat): seq<Sample>
    requires AllSized(a, nCol) && Sized(b, nCol) && i < nCol && b.iCol == i
    requires |a| <= mxSample && (|a| == mxSample ==> 0 <= iMin < |a|)
  {
    match ScanFrom(a, nCol, i, |a|, Nothing)
    case Covered => a
    case Upgrade(u) => UpgradeAt(a, nCol, b, u)
    case Nothing => AddTo(a, mxSample, iMin, b, i)
  }

  lemma InsertCases(q: Accum, b: Sample, i: nat)
    requires Shaped(q) && Sized(b, q.nCol) && i < q.nCol && b.iCol == i && !b.isPSample
    ensures var r := SampleInsert(q, b, i);
      && r.a == Inserted(q.a, q.mxSample, q.iMin, b, q.nCol, i)
      && r.nMaxEqZero == if i > q.nMaxEqZero then i else q.nMaxEqZero
  {
  }

  lemma OffersAny(a: seq<Sample>, mxSample: nat, iMin: int, n: nat, b: Sample, nCol: nat, c: seq<nat>, i: nat)
    requires AllSized(a, nCol) && ScanOf(c, nCol) && i < nCol - 1 && i <= n && Offered(a, n, nCol, c, i + 1)
    requires |a| <= mxSample && (|a| == mxSample ==> 0 <= iMin < |a|)
    requires Sized(b, nCol) && Candidate(b, nCol, c, i)
    ensures var r := Inserted(a, mxSample, iMin, b, nCol, i); AllSized(r, nCol) && Offered(r, n, nCol, c, i)
  {
    ScanMeaning(a, nCol, i, |a|, Nothing);
    match ScanFrom(a, nCol, i, |a|, Nothing)
    case Covered =>
      var u :| 0 <= u < |a| && a[u].anEq[i] == 0 && a[u].isPSample;
      CoveredOffered(a, n, nCol, c, i, u);
    case Upgrade(u) =>
      UpgradeOffered(a, n, b, nCol, c, i, u);
    case Nothing =>
      AddOffered(a, mxSample, iMin, n, b, nCol, c, i);
  }

  // ---- samplePushPrevious ----

  lemma OffersKeep(p: Accum, c: seq<nat>, i: nat, iChng: nat, e: nat)
    requires Shaped(p) && i < p.nCol && Offering(p, c, i) && e == Min(iChng, i)
    ensures Offering(OfferFrom(p, i, iChng), c, e)
  {
    var inv := (q: Accum, k: nat) => Shaped(q) && Offering(q, c, k);
    forall q: Accum, k: nat, next: nat {:trigger Turn(q, k), inv(q, next)} |
      iChng <= k && next == k + 1 && inv(q, next) ensures inv(Turn(q, k), k)
    {
      OfferKeeps(q, c, k, next);
    }
    DownKeeps(p, i, iChng, Turn, inv);
  }

  // The counts that sampleIsBetter reads are not touched by filling.
  lemma {:induction false} SamePost(x: Sample, y: Sample, x': Sample, y': Sample, nCol: nat, i: nat)
    requires Sized(x, nCol) && Sized(y, nCol) && Sized(x', nCol) && Sized(y', nCol)
    requires x.iHash == x'.iHash && y.iHash == y'.iHash
    requires forall j :: i <= j < nCol ==> x.anEq[j] == x'.anEq[j] && y.anEq[j] == y'.anEq[j]
    ensures BetterPost(x, y, nCol, i) == BetterPost(x', y', nCol, i)
    decreases nCol - i
  {
    if i < nCol {
      SamePost(x, y, x', y', nCol, i + 1);
    }
  }

  // s' is s with counts filled in below its column only.
  predicate FilledBelow(s: Sample, s': Sample, nCol: nat)
    requires Sized(s, nCol) && Sized(s', nCol)
  {
    && s' == s.(anEq := s'.anEq)
    && (!s.isPSample ==> forall j :: s.iCol <= j < nCol ==> s.anEq[j] == s'.anEq[j])
  }

  lemma SameBetter(x: Sample, y: Sample, x': Sample, y': Sample, nCol: nat)
    requires Sized(x, nCol) && Sized(y, nCol) && Sized(x', nCol) && Sized(y', nCol)
    requires FilledBelow(x, x', nCol) && FilledBelow(y, y', nCol) && !x.isPSample && !y.isPSample
    ensures Better(x, y, nCol) == Better(x', y', nCol)
  {
    if x.iCol == y.iCol {
      SamePost(x, y, x', y', nCol, x.iCol + 1);
    }
  }

  lemma FilledExact(s: Sample, current: Sample, nCol: nat, c: seq<nat>, e: nat, iChng: nat)
    requires Sized(s, nCol) && Sized(current, nCol) && ScanOf(c, nCol) && e == Min(iChng, nCol - 1)
    requires Exact(s, nCol, c, e) && Comparable(s, nCol) && CurrentOk(current, nCol, c)
    ensures var s' := FilledSample(s, current, iChng);
      && Sized(s', nCol) && Exact(s', nCol, c, e) && Comparable(s', nCol) && FilledBelow(s, s', nCol)
      && RowOf(s', nCol) == RowOf(s, nCol) && forall j :: iChng <= j < nCol ==> s'.anEq[j] != 0
  {
    var s' := FilledSample(s, current, iChng);
    forall j | 0 <= j < nCol && s.anEq[j] == 0
      ensures current.anEq[j] == Size(c, RowOf(s, nCol), j)
    {
      TogetherShares(c, RowOf(s, nCol), |c| - 1, j);
    }
    forall j | 0 <= j < nCol ensures Open(s', nCol, c, j) == Open(s, nCol, c, j) {
    }
  }

  // Every retained count is settled but for the first iChng columns.
  ghost predicate Flushed(p: Accum, c: seq<nat>, iChng: nat)
    requires Shaped(p) && 0 < |c|
  {
    && MinKnown(p) && SamplesOk(p.a, p.nCol, c, Min(iChng, p.nCol - 1))
    && ZerosBelow(p.a, p.nCol, Min(iChng, p.nMaxEqZero))
    && forall k :: 0 <= k < Min(iChng, p.nCol - 1) ==> BestOk(p.aBest[k], p.nCol, c, k)
  }

  // Filling settles every count from iChng on and leaves iMin least preferred.
  lemma FilledOk(a: seq<Sample>, b: seq<Sample>, nCol: nat, current: Sample, c: seq<nat>, e: nat, iChng: nat)
    requires AllSized(a, nCol) && Sized(current, nCol) && ScanOf(c, nCol) && e == Min(iChng, nCol - 1)
    requires SamplesOk(a, nCol, c, e) && CurrentOk(current, nCol, c) && b == FilledSamples(a, nCol, current, iChng)
    ensures AllSized(b, nCol) && SamplesOk(b, nCol, c, e) && ZerosBelow(b, nCol, iChng)
    ensures forall t :: 0 <= t < |a| ==> FilledBelow(a[t], b[t], nCol)
  {
    forall t | 0 <= t < |a|
      ensures Sized(b[t], nCol) && Exact(b[t], nCol, c, e) && Comparable(b[t], nCol)
      ensures FilledBelow(a[t], b[t], nCol) && RowOf(b[t], nCol) == RowOf(a[t], nCol)
      ensures forall j :: iChng <= j < nCol ==> b[t].anEq[j] != 0
    {
      FilledExact(a[t], current, nCol, c, e, iChng);
    }
  }

  lemma FillKeeps(p: Accum, c: seq<nat>, iChng: nat, e: nat)
    requires Shaped(p) && e == Min(iChng, p.nCol - 1) && Offering(p, c, e)
    ensures Shaped(FillZeros(p, iChng)) && Flushed(FillZeros(p, iChng), c, iChng)
  {
    var q := FillZeros(p, iChng);
    FillShaped(p, iChng);
    if iChng < p.nMaxEqZero {
      FilledOk(p.a, q.a, p.nCol, p.current, c, e, iChng);
      FilledLeast(p, q);
      assert Min(iChng, q.nMaxEqZero) == iChng;
    } else {
      assert q == p && Min(iChng, q.nMaxEqZero) == p.nMaxEqZero;
    }
  }

  lemma FilledLeast(p: Accum, q: Accum)
    requires Shaped(p) && Shaped(q) && MinKnown(p) && q == p.(a := q.a, nMaxEqZero := q.nMaxEqZero) && |q.a| == |p.a|
    requires forall t :: 0 <= t < |p.a| ==> FilledBelow(p.a[t], q.a[t], p.nCol)
    ensures MinKnown(q)
  {
    if |q.a| == q.mxSample {
      forall t | 0 <= t < |q.a| && !q.a[t].isPSample ensures !Better(q.a[q.iMin], q.a[t], q.nCol) {
        assert FilledBelow(p.a[p.iMin], q.a[p.iMin], p.nCol) && FilledBelow(p.a[t], q.a[t], p.nCol);
        SameBetter(p.a[p.iMin], p.a[t], q.a[p.iMin], q.a[t], p.nCol);
      }
    }
  }

  // ---- Between rows ----

  ghost predicate Resting(p: Accum, c: seq<nat>)
    requires Shaped(p)
  {
    && ScanOf(c, p.nCol) && |c| == p.nRow && !p.current.isPSample
    && MinKnown(p) && CurrentOk(p.current, p.nCol, c)
    && SamplesOk(p.a, p.nCol, c, p.nCol - 1) && ZerosBelow(p.a, p.nCol, p.nMaxEqZero)
    && forall i :: 0 <= i < p.nCol - 1 ==> BestOk(p.aBest[i], p.nCol, c, i)
  }

  lemma PushPreviousFlushes(p: Accum, c: seq<nat>, iChng: nat)
    requires Shaped(p) && Resting(p, c)
    ensures Flushed(PushPrevious(p, iChng), c, iChng)
  {
    RestingOffers(p, c, p.nCol - 1);
    OfferingFlushes(p, c, iChng, p.nCol - 1);
  }

  lemma PushPreviousIs(p: Accum, iChng: nat, last: nat)
    requires Shaped(p) && last == p.nCol - 1
    ensures var q := OfferFrom(p, last, iChng);
      Shaped(q) && q.nCol == p.nCol && PushPrevious(p, iChng) == FillZeros(q, iChng) && Shaped(FillZeros(q, iChng))
  {
    FillShaped(OfferFrom(p, last, iChng), iChng);
  }

  lemma OfferingFlushes(p: Accum, c: seq<nat>, iChng: nat, last: nat)
    requires Shaped(p) && last == p.nCol - 1 && Offering(p, c, last)
    ensures Flushed(PushPrevious(p, iChng), c, iChng)
  {
    PushPreviousIs(p, iChng, last);
    OffersKeep(p, c, last, iChng, Min(iChng, last));
    FillKeeps(OfferFrom(p, last, iChng), c, iChng, Min(iChng, last));
  }

  lemma RestingOffers(p: Accum, c: seq<nat>, last: nat)
    requires Shaped(p) && Resting(p, c) && last == p.nCol - 1
    ensures Offering(p, c, last)
  {
    forall t, j | 0 <= t < |p.a| && p.nCol - 1 <= j < p.nCol ensures p.a[t].anEq[j] != 0 {
      assert Exact(p.a[t], p.nCol, c, p.nCol - 1);
    }
  }

  // ---- The next row ----

  lemma AdvancedOk(s: Sample, nCol: nat, c: seq<nat>, v: nat)
    requires Sized(s, nCol) && ScanOf(c, nCol) && v < nCol && CurrentOk(s, nCol, c)
    ensures Sized(Advanced(s, v), nCol) && CurrentOk(Advanced(s, v), nCol, c + [v])
  {
    forall j | 0 <= j < nCol
      ensures var s' := Advanced(s, v);
        && s'.anLt[j] == Start(c + [v], |c|, j) && s'.anDLt[j] == Before(c + [v], |c|, j)
        && s'.anEq[j] == |c| + 1 - Start(c + [v], |c|, j)
    {
      NewRow(c, v, j);
    }
  }

  lemma FirstOk(s: Sample, nCol: nat)
    requires Sized(s, nCol) && 0 < nCol
    requires forall j :: 0 <= j < nCol ==> s.anLt[j] == 0 && s.anDLt[j] == 0 && s.anEq[j] == 1
    ensures CurrentOk(s, nCol, [0])
  {
  }

  // A flushed sample seen from the next row.
  lemma ExactMoves(s: Sample, nCol: nat, c: seq<nat>, v: nat)
    requires Sized(s, nCol) && ScanOf(c, nCol) && v < nCol && Exact(s, nCol, c, Min(v, nCol - 1))
    requires forall j :: v <= j < nCol ==> s.anEq[j] != 0
    ensures Exact(s, nCol, c + [v], nCol - 1)
  {
    var x := RowOf(s, nCol);
    forall j | 0 <= j < nCol
      ensures s.anLt[j] == Start(c + [v], x, j) && s.anDLt[j] == Before(c + [v], x, j)
      ensures s.anEq[j] != 0 ==> s.anEq[j] == Size(c + [v], x, j)
      ensures j < nCol - 1 ==> (s.anEq[j] == 0 <==> Open(s, nCol, c + [v], j))
    {
      Extended(c, v, x, j);
      NewRow(c, v, j);
      if s.anEq[j] != 0 && j < v {
        TogetherShares(c, x, |c| - 1, j);
      }
    }
  }

  lemma SamplesMove(p: Accum, c: seq<nat>, v: nat)
    requires Shaped(p) && ScanOf(c, p.nCol) && v < p.nCol && Flushed(p, c, v)
    ensures SamplesOk(p.a, p.nCol, c + [v], p.nCol - 1) && ZerosBelow(p.a, p.nCol, p.nMaxEqZero)
    ensures forall t :: 0 <= t < |p.a| ==> RowOf(p.a[t], p.nCol) < |c|
  {
    forall t | 0 <= t < |p.a| ensures Exact(p.a[t], p.nCol, c + [v], p.nCol - 1) {
      ExactMoves(p.a[t], p.nCol, c, v);
    }
    forall t | 0 <= t < |p.a| ensures RowOf(p.a[t], p.nCol) < |c| {
      assert Exact(p.a[t], p.nCol, c, Min(v, p.nCol - 1));
    }
  }

  // ---- The periodic sample ----

  lemma PeriodicExact(s: Sample, nCol: nat, c: seq<nat>)
    requires Sized(s, nCol) && ScanOf(c, nCol) && CurrentOk(s, nCol, c) && s.isPSample
    ensures var z := Zeroed(s, nCol - 1);
      && Sized(z, nCol) && Exact(z, nCol, c, nCol - 1) && Comparable(z, nCol) && RowOf(z, nCol) == |c| - 1
      && z.anEq[nCol - 1] != 0
  {
    LastRowOfItself(c, nCol, |c| - 1);
  }

  // All samples precede the current row.
  ghost predicate Behind(p: Accum, c: seq<nat>)
    requires Shaped(p)
  {
    && ScanOf(c, p.nCol) && |c| == p.nRow && !p.current.isPSample
    && MinKnown(p) && CurrentOk(p.current, p.nCol, c)
    && SamplesOk(p.a, p.nCol, c, p.nCol - 1) && ZerosBelow(p.a, p.nCol, p.nMaxEqZero)
    && forall t :: 0 <= t < |p.a| ==> RowOf(p.a[t], p.nCol) < |c| - 1
  }

  lemma PeriodicKeepsSamples(p: Accum, c: seq<nat>)
    requires Shaped(p) && Behind(p, c) && (Due(p, p.current) ==> Periodic(p.a) + 1 < p.mxSample)
    ensures var q := WithPeriodic(p); SamplesOk(q.a, q.nCol, c, q.nCol - 1) && ZerosBelow(q.a, q.nCol, q.nMaxEqZero)
  {
    if Due(p, p.current) {
      PeriodicKept(p, c, p.current.(isPSample := true), WithPeriodic(p));
    } else {
      assert WithPeriodic(p) == p;
    }
  }

  lemma PeriodicKept(p: Accum, c: seq<nat>, s: Sample, q: Accum)
    requires Shaped(p) && Behind(p, c) && s == p.current.(isPSample := true)
    requires q == SampleInsert(p, s, p.nCol - 1)
    ensures AllSized(q.a, q.nCol) && SamplesOk(q.a, q.nCol, c, q.nCol - 1) && ZerosBelow(q.a, q.nCol, q.nMaxEqZero)
  {
    PeriodicAdds(p, s);
    PeriodicInserted(p, s, c, q);
  }

  lemma PeriodicKeepsMin(p: Accum)
    requires Shaped(p) && MinKnown(p) && (Due(p, p.current) ==> Periodic(p.a) + 1 < p.mxSample)
    ensures MinKnown(WithPeriodic(p))
  {
    if Due(p, p.current) {
      InsertShaped(p, p.current.(isPSample := true), p.nCol - 1);
    }
  }

  lemma PeriodicInserted(p: Accum, s: Sample, c: seq<nat>, q: Accum)
    requires Shaped(p) && ScanOf(c, p.nCol)
    requires SamplesOk(p.a, p.nCol, c, p.nCol - 1) && ZerosBelow(p.a, p.nCol, p.nMaxEqZero)
    requires forall t :: 0 <= t < |p.a| ==> RowOf(p.a[t], p.nCol) < |c| - 1
    requires Sized(s, p.nCol) && CurrentOk(s, p.nCol, c) && s.isPSample
    requires q.a == AddTo(p.a, p.mxSample, p.iMin, s, p.nCol - 1) && p.nMaxEqZero <= q.nMaxEqZero
    requires p.nCol - 1 <= q.nMaxEqZero
    ensures AllSized(q.a, p.nCol) && SamplesOk(q.a, p.nCol, c, p.nCol - 1) && ZerosBelow(q.a, p.nCol, q.nMaxEqZero)
  {
    ZerosWiden(p.a, p.nCol, p.nMaxEqZero, q.nMaxEqZero);
    PeriodicAppended(p.a, p.mxSample, p.iMin, s, p.nCol, c, q.nMaxEqZero);
  }

  lemma ZerosWiden(a: seq<Sample>, nCol: nat, n: nat, m: nat)
    requires AllSized(a, nCol) && ZerosBelow(a, nCol, n) && n <= m
    ensures ZerosBelow(a, nCol, m)
  {
  }

  lemma PeriodicAppended(a: seq<Sample>, mxSample: nat, iMin: int, s: Sample, nCol: nat, c: seq<nat>, n: nat)
    requires AllSized(a, nCol) && ScanOf(c, nCol) && SamplesOk(a, nCol, c, nCol - 1) && ZerosBelow(a, nCol, n)
    requires |a| <= mxSample && (|a| == mxSample ==> 0 <= iMin < |a|)
    requires Sized(s, nCol) && CurrentOk(s, nCol, c) && s.isPSample && nCol - 1 <= n
    requires forall t :: 0 <= t < |a| ==> RowOf(a[t], nCol) < |c| - 1
    ensures var r := AddTo(a, mxSample, iMin, s, nCol - 1);
      AllSized(r, nCol) && SamplesOk(r, nCol, c, nCol - 1) && ZerosBelow(r, nCol, n)
  {
    if |a| == mxSample {
      WithoutOk(a, nCol, c, nCol - 1, n, iMin);
      PeriodicLast(Without(a, iMin), s, nCol, c, n);
    } else {
      PeriodicLast(a, s, nCol, c, n);
    }
  }

  lemma PeriodicLast(a: seq<Sample>, s: Sample, nCol: nat, c: seq<nat>, n: nat)
    requires AllSized(a, nCol) && ScanOf(c, nCol) && SamplesOk(a, nCol, c, nCol - 1) && ZerosBelow(a, nCol, n)
    requires Sized(s, nCol) && CurrentOk(s, nCol, c) && s.isPSample && nCol - 1 <= n
    requires forall t :: 0 <= t < |a| ==> RowOf(a[t], nCol) < |c| - 1
    ensures var r := a + [Zeroed(s, nCol - 1)];
      AllSized(r, nCol) && SamplesOk(r, nCol, c, nCol - 1) && ZerosBelow(r, nCol, n)
  {
    PeriodicExact(s, nCol, c);
    AppendOk(a, Zeroed(s, nCol - 1), nCol, c, nCol - 1, n);
  }

  lemma PeriodicAdds(p: Accum, s: Sample)
    requires Shaped(p) && Sized(s, p.nCol) && s.isPSample
    ensures var q := SampleInsert(p, s, p.nCol - 1);
      && q.a == AddTo(p.a, p.mxSample, p.iMin, s, p.nCol - 1)
      && q.nMaxEqZero == if p.nCol - 1 > p.nMaxEqZero then p.nCol - 1 else p.nMaxEqZero
  {
  }

  // ---- The candidates ----

  // A candidate of an open group is replaced whenever its (i+1)-group goes on.
  lemma BestMoves(b: Sample, current: Sample, nCol: nat, c: seq<nat>, v: nat, i: nat)
    requires Sized(b, nCol) && Sized(current, nCol) && ScanOf(c, nCol) && v < nCol && i < v && i < nCol - 1
    requires BestOk(b, nCol, c, i) && CurrentOk(current, nCol, c + [v])
    requires !BetterPost(current.(iCol := i), b, nCol, i + 1)
    ensures BestOk(b, nCol, c + [v], i)
  {
    var y := RowOf(b, nCol);
    NewRow(c, v, i);
    NewRow(c, v, i + 1);
    Extended(c, v, y, i + 1);
    if y == |c| - 1 {
      assert b.anEq[i + 1] == y + 1 - Start(c, y, i + 1);
    }
    forall j | 0 <= j < nCol
      ensures b.anLt[j] == Start(c + [v], y, j) && b.anDLt[j] == Before(c + [v], y, j)
    {
      Extended(c, v, y, j);
    }
  }

  lemma CurrentIsBest(s: Sample, nCol: nat, c: seq<nat>, i: nat)
    requires Sized(s, nCol) && ScanOf(c, nCol) && i < nCol - 1 && CurrentOk(s, nCol, c)
    ensures BestOk(s.(iCol := i), nCol, c, i)
  {
    LastRowOfItself(c, nCol, |c| - 1);
  }

  // ---- One row ----

  // The state in which every scan starts.
  function Init(nCol: nat, mxSample: nat, nEst: nat): Accum {
    var blank := Sample(Constant(nCol, 0), Constant(nCol, 0), Constant(nCol, 0), 0, false, 0, 0);
    Accum(nCol, mxSample, PeriodOf(nEst, mxSample), 0, blank, Candidates(blank, nCol), [], 0, 0)
  }

  function Candidates(blank: Sample, n: nat): (r: seq<Sample>)
    ensures |r| == n && forall i :: 0 <= i < n ==> r[i] == blank.(iCol := i)
  {
    if n == 0 then [] else Candidates(blank, n - 1) + [blank.(iCol := n - 1)]
  }

  lemma InitShaped(nCol: nat, mxSample: nat, nEst: nat)
    requires 0 < nCol && 0 < mxSample
    ensures Shaped(Init(nCol, mxSample, nEst))
  {
  }

  // The invariant of a scan: nothing pushed yet, or resting after row |c|-1;
  // and every row that was due is among the periodic samples.
  ghost predicate Scanning(p: Accum, c: seq<nat>)
    requires Shaped(p)
  {
    && (if c == [] then p.nRow == 0 && p.a == [] && Zero(p.current, p.nCol) else Resting(p, c))
    && Periodic(p.a) == |c| / p.nPSample
  }

  predicate Zero(s: Sample, nCol: nat)
    requires Sized(s, nCol)
  {
    forall j :: 0 <= j < nCol ==> s.anLt[j] == 0 && s.anDLt[j] == 0
  }

  predicate RowFollows(c: seq<nat>, nCol: nat, v: nat) {
    v < nCol && (c == [] ==> v == 0)
  }

  lemma MovedBehind(p: Accum, c: seq<nat>, row: Push)
    requires Shaped(p) && Scanning(p, c) && RowFollows(c, p.nCol, row.iChng)
    ensures Behind(Moved(p, row), c + [row.iChng])
  {
    if c == [] {
      FirstBehind(p, row);
      assert c + [row.iChng] == [0];
    } else {
      NextBehind(p, c, row);
    }
  }

  lemma FirstBehind(p: Accum, row: Push)
    requires Shaped(p) && Scanning(p, []) && row.iChng == 0
    ensures Behind(Moved(p, row), [0])
  {
    FirstOk(Moved(p, row).current, p.nCol);
  }

  lemma NextBehind(p: Accum, c: seq<nat>, row: Push)
    requires Shaped(p) && c != [] && Resting(p, c) && row.iChng < p.nCol
    ensures Behind(Moved(p, row), c + [row.iChng])
  {
    PushPreviousFlushes(p, c, row.iChng);
    SamplesMove(PushPrevious(p, row.iChng), c, row.iChng);
    AdvancedOk(p.current, p.nCol, c, row.iChng);
  }

  lemma BestKept(p: Accum, c: seq<nat>, row: Push, i: nat)
    requires Shaped(p) && Scanning(p, c) && RowFollows(c, p.nCol, row.iChng) && i < p.nCol - 1 && i < row.iChng
    ensures c != [] && BestOk(Moved(p, row).aBest[i], p.nCol, c, i)
  {
    PushPreviousFlushes(p, c, row.iChng);
  }

  lemma BestFollows(q: Accum, c: seq<nat>, v: nat, i: nat)
    requires Shaped(q) && ScanOf(c, q.nCol) && v < q.nCol && i < q.nCol - 1 && !q.current.isPSample
    requires CurrentOk(q.current, q.nCol, c + [v])
    requires i < v ==> BestOk(q.aBest[i], q.nCol, c, i)
    ensures BestOk(WithBest(q, v).aBest[i], q.nCol, c + [v], i)
  {
    if i < v && !BetterPost(q.current.(iCol := i), q.aBest[i], q.nCol, i + 1) {
      BestMoves(q.aBest[i], q.current, q.nCol, c, v, i);
    } else {
      CurrentIsBest(q.current, q.nCol, c + [v], i);
    }
  }

  lemma FirstBest(q: Accum, i: nat)
    requires Shaped(q) && 0 < q.nCol && i < q.nCol - 1 && !q.current.isPSample && CurrentOk(q.current, q.nCol, [0])
    ensures BestOk(WithBest(q, 0).aBest[i], q.nCol, [0], i)
  {
    CurrentIsBest(q.current, q.nCol, [0], i);
  }

  lemma AllBestFollow(p: Accum, c: seq<nat>, row: Push)
    requires Shaped(p) && Scanning(p, c) && RowFollows(c, p.nCol, row.iChng) && Room(p, row)
    ensures forall i :: 0 <= i < p.nCol - 1 ==> BestOk(StatPush(p, row).aBest[i], p.nCol, c + [row.iChng], i)
  {
    MovedBehind(p, c, row);
    StatPushIs(p, row);
    forall i | 0 <= i < p.nCol - 1 ensures BestOk(StatPush(p, row).aBest[i], p.nCol, c + [row.iChng], i) {
      OneBestFollows(p, c, row, WithPeriodic(Moved(p, row)), i);
    }
  }

  lemma OneBestFollows(p: Accum, c: seq<nat>, row: Push, q: Accum, i: nat)
    requires Shaped(p) && Scanning(p, c) && RowFollows(c, p.nCol, row.iChng) && Room(p, row) && i < p.nCol - 1
    requires Behind(Moved(p, row), c + [row.iChng])
    requires (Due(Moved(p, row), Moved(p, row).current) ==> Periodic(Moved(p, row).a) + 1 < Moved(p, row).mxSample)
    requires q == WithPeriodic(Moved(p, row))
    ensures BestOk(WithBest(q, row.iChng).aBest[i], p.nCol, c + [row.iChng], i)
  {
    if c == [] {
      assert c + [row.iChng] == [0];
      FirstBest(q, i);
    } else {
      if i < row.iChng {
        BestKept(p, c, row, i);
      }
      BestFollows(q, c, row.iChng, i);
    }
  }

  // A periodic sample is due at every nPSample-th row.
  lemma DueAtMultiples(p: Accum, c: seq<nat>, row: Push)
    requires Shaped(p) && Scanning(p, c) && RowFollows(c, p.nCol, row.iChng)
    ensures Due(p, NextCurrent(p, row)) <==> |c| / p.nPSample != (|c| + 1) / p.nPSample
  {
    MovedBehind(p, c, row);
    LastRowOfItself(c + [row.iChng], p.nCol, |c|);
    assert RowOf(NextCurrent(p, row), p.nCol) == |c|;
  }

  // With at most nEst rows, at most mxSample/3 periodic samples fall due.
  lemma RoomLeft(p: Accum, c: seq<nat>, row: Push, nEst: nat)
    requires Shaped(p) && Scanning(p, c) && RowFollows(c, p.nCol, row.iChng)
    requires p.nPSample == PeriodOf(nEst, p.mxSample) && |c| < nEst
    ensures Room(p, row) && (|c| + 1) / p.nPSample <= p.mxSample / 3
    ensures Periodic(StatPush(p, row).a) == (|c| + 1) / p.nPSample
  {
    DueAtMultiples(p, c, row);
    Division.Next(|c|, p.nPSample);
    Division.FewSteps(|c| + 1, nEst, p.mxSample / 3 + 1);
  }

  // stat_push keeps the invariant.
  lemma StatPushKeeps(p: Accum, c: seq<nat>, row: Push, nEst: nat)
    requires Shaped(p) && Scanning(p, c) && RowFollows(c, p.nCol, row.iChng)
    requires p.nPSample == PeriodOf(nEst, p.mxSample) && |c| < nEst
    ensures Room(p, row) && Scanning(StatPush(p, row), c + [row.iChng])
  {
    RoomLeft(p, c, row, nEst);
    AllBestFollow(p, c, row);
    SamplesFollow(p, c, row);
    RestFollows(p, c, row);
  }

  lemma StatPushIs(p: Accum, row: Push)
    requires Shaped(p) && row.iChng < p.nCol && Room(p, row)
    ensures var q, moved := StatPush(p, row), Moved(p, row);
      && (Due(moved, moved.current) ==> Periodic(moved.a) + 1 < moved.mxSample)
      && q == WithBest(WithPeriodic(moved), row.iChng)
      && q.current == moved.current && q.nCol == moved.nCol && q.nRow == moved.nRow
  {
    MovedParts(p, row, Moved(p, row));
    PushParts(p, row, Moved(p, row));
  }

  lemma SamplesFollow(p: Accum, c: seq<nat>, row: Push)
    requires Shaped(p) && Scanning(p, c) && RowFollows(c, p.nCol, row.iChng) && Room(p, row)
    ensures var q := StatPush(p, row);
      SamplesOk(q.a, q.nCol, c + [row.iChng], q.nCol - 1) && ZerosBelow(q.a, q.nCol, q.nMaxEqZero)
  {
    StatPushIs(p, row);
    MovedBehind(p, c, row);
    SamplesThrough(Moved(p, row), c + [row.iChng], row.iChng);
  }

  lemma SamplesThrough(p: Accum, c: seq<nat>, v: nat)
    requires Shaped(p) && Behind(p, c) && (Due(p, p.current) ==> Periodic(p.a) + 1 < p.mxSample)
    ensures var q := WithBest(WithPeriodic(p), v);
      SamplesOk(q.a, q.nCol, c, q.nCol - 1) && ZerosBelow(q.a, q.nCol, q.nMaxEqZero)
  {
    PeriodicKeepsSamples(p, c);
  }

  lemma RestFollows(p: Accum, c: seq<nat>, row: Push)
    requires Shaped(p) && Scanning(p, c) && RowFollows(c, p.nCol, row.iChng) && Room(p, row)
    ensures var q := StatPush(p, row);
      && ScanOf(c + [row.iChng], q.nCol) && |c| + 1 == q.nRow && !q.current.isPSample
      && MinKnown(q) && CurrentOk(q.current, q.nCol, c + [row.iChng])
  {
    StatPushIs(p, row);
    MovedBehind(p, c, row);
    MinFollows(Moved(p, row), row.iChng);
  }

  lemma MinFollows(p: Accum, v: nat)
    requires Shaped(p) && MinKnown(p) && !p.current.isPSample && (Due(p, p.current) ==> Periodic(p.a) + 1 < p.mxSample)
    ensures MinKnown(WithBest(WithPeriodic(p), v))
  {
    PeriodicKeepsMin(p);
  }
}
