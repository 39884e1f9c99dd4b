// Which row of an open group stands as its candidate: the best one so far, by the
// counts of the later columns and then by the hash.
module Stat4Best {
  import opened PrefixGroups
  import opened Stat4
  import opened Stat4Invariant
  import opened Stat4Run

  // What row x has to show when it is pushed: for every column, the rows of its
  // group up to itself.
  function Shown(c: seq<nat>, x: nat, nCol: nat): (counts: seq<nat>)
    requires x < |c|
    ensures |counts| == nCol && forall j :: 0 <= j < nCol ==> counts[j] == x + 1 - Start(c, x, j)
  {
    if nCol == 0 then [] else Shown(c, x, nCol - 1) + [x + 1 - Start(c, x, nCol - 1)]
  }

  lemma ShownStays(c: seq<nat>, v: nat, x: nat, nCol: nat)
    requires x < |c|
    ensures Shown(c + [v], x, nCol) == Shown(c, x, nCol)
  {
    forall j | 0 <= j < nCol ensures Shown(c + [v], x, nCol)[j] == Shown(c, x, nCol)[j] {
      Extended(c, v, x, j);
    }
  }

  // Row x would be preferred to the candidate b of column i.
  predicate Beats(c: seq<nat>, hashes: seq<nat>, x: nat, b: Sample, nCol: nat, i: nat)
    requires x < |c| == |hashes| && Sized(b, nCol)
  {
    BetterPost(b.(anEq := Shown(c, x, nCol), iHash := hashes[x]), b, nCol, i + 1)
  }

  // No row from start on is.
  predicate Leads(b: Sample, c: seq<nat>, hashes: seq<nat>, nCol: nat, i: nat, start: nat)
    requires |c| == |hashes| && Sized(b, nCol)
  {
    forall x :: start <= x < |c| ==> !Beats(c, hashes, x, b, nCol, i)
  }

  // So it is for all open groups.
  predicate BestLead(p: Accum, c: seq<nat>, hashes: seq<nat>)
    requires Shaped(p) && |c| == |hashes| && 0 < |c|
  {
    forall i :: 0 <= i < p.nCol - 1 ==> Leads(p.aBest[i], c, hashes, p.nCol, i, Start(c, |c| - 1, i))
  }

  // Offering the candidates from v on leaves the others as they are.
  predicate SameBelow(p: Accum, q: Accum, v: nat)
    requires Shaped(p) && Shaped(q)
  {
    p.nCol == q.nCol && forall i :: 0 <= i < v && i < p.nCol ==> p.aBest[i] == q.aBest[i]
  }

  lemma TurnLeaves(p: Accum, q: Accum, k: nat, v: nat)
    requires Shaped(p) && Shaped(q) && v <= k < q.nCol - 1 && SameBelow(p, q, v)
    ensures Shaped(Turn(q, k)) && SameBelow(p, Turn(q, k), v)
  {
    OfferShaped(q, k);
  }

  lemma OffersLeave(p: Accum, i: nat, v: nat)
    requires Shaped(p) && i < p.nCol
    ensures SameBelow(p, OfferFrom(p, i, v), v)
  {
    var inv := (q: Accum, k: nat) => Shaped(q) && k < q.nCol && SameBelow(p, q, v);
    forall q: Accum, k: nat, next: nat {:trigger Turn(q, k), inv(q, next)} |
      v <= k && next == k + 1 && inv(q, next) ensures inv(Turn(q, k), k)
    {
      TurnLeaves(p, q, k, v);
    }
    assert SameBelow(p, p, v);
    assert inv(p, i);
    DownKeeps(p, i, v, Turn, inv);
  }

  lemma PreviousLeaves(p: Accum, v: nat)
    requires Shaped(p)
    ensures SameBelow(p, PushPrevious(p, v), v)
  {
    var last: nat := p.nCol - 1;
    PushPreviousIs(p, v, last);
    OffersLeave(p, last, v);
    FillLeaves(p, OfferFrom(p, last, v), v);
  }

  lemma FillLeaves(p: Accum, q: Accum, v: nat)
    requires Shaped(p) && Shaped(q) && SameBelow(p, q, v)
    ensures Shaped(FillZeros(q, v)) && SameBelow(p, FillZeros(q, v), v)
  {
    FillShaped(q, v);
  }

  // The candidates of the groups that go on, before the new row is compared.
  lemma PushLeaves(p: Accum, row: Push)
    requires Shaped(p) && row.iChng < p.nCol && Room(p, row)
    ensures forall i :: 0 <= i < row.iChng ==> WithPeriodic(Moved(p, row)).aBest[i] == p.aBest[i]
  {
    PreviousLeaves(p, row.iChng);
  }

  lemma Irreflexive(s: Sample, s': Sample, nCol: nat, i: nat)
    requires Sized(s, nCol) && Sized(s', nCol) && s.anEq == s'.anEq && s.iHash == s'.iHash
    ensures !BetterPost(s, s', nCol, i)
  {
    PostOrder(s, s, s, nCol, i);
    SamePost(s, s', s, s, nCol, i);
  }

  // Sample s is what the last row has to show.
  predicate Last(s: Sample, c: seq<nat>, hashes: seq<nat>, nCol: nat)
    requires Sized(s, nCol) && |c| == |hashes| && 0 < |c|
  {
    s.anEq == Shown(c, |c| - 1, nCol) && s.iHash == hashes[|c| - 1]
  }

  lemma LastDoesNotBeat(s: Sample, b: Sample, c: seq<nat>, hashes: seq<nat>, nCol: nat, i: nat)
    requires Sized(s, nCol) && Sized(b, nCol) && |c| == |hashes| && 0 < |c| && Last(s, c, hashes, nCol)
    requires b == s || !BetterPost(s, b, nCol, i + 1)
    ensures !Beats(c, hashes, |c| - 1, b, nCol, i)
  {
    var shown := b.(anEq := s.anEq, iHash := s.iHash);
    Irreflexive(s, s, nCol, i + 1);
    SamePost(shown, b, s, b, nCol, i + 1);
  }

  // A row that did not beat the candidate so far does not beat its successor.
  lemma StillDoesNotBeat(old': Sample, best: Sample, c: seq<nat>, hashes: seq<nat>, v: nat, hash: nat, x: nat,
                         nCol: nat, i: nat)
    requires Sized(old', nCol) && Sized(best, nCol) && x < |c| == |hashes| && !Beats(c, hashes, x, old', nCol, i)
    requires best == old' || BetterPost(best, old', nCol, i + 1)
    ensures !Beats(c + [v], hashes + [hash], x, best, nCol, i)
  {
    ShownStays(c, v, x, nCol);
    var shown := old'.(anEq := Shown(c, x, nCol), iHash := hashes[x]);
    SamePost(best.(anEq := shown.anEq, iHash := shown.iHash), best, shown, best, nCol, i + 1);
    PostOrder(shown, best, old', nCol, i + 1);
  }

  // The row s, pushed last, is compared with the candidate so far.
  lemma LeadGoesOn(old': Sample, s: Sample, best: Sample, c: seq<nat>, hashes: seq<nat>, v: nat, hash: nat, nCol: nat,
                   i: nat, start: nat)
    requires Sized(old', nCol) && Sized(s, nCol) && |c| == |hashes| && Last(s, c + [v], hashes + [hash], nCol)
    requires Leads(old', c, hashes, nCol, i, start)
    requires best == if BetterPost(s, old', nCol, i + 1) then s else old'
    ensures Leads(best, c + [v], hashes + [hash], nCol, i, start)
  {
    LastDoesNotBeat(s, best, c + [v], hashes + [hash], nCol, i);
    forall x | start <= x < |c| + 1 ensures !Beats(c + [v], hashes + [hash], x, best, nCol, i) {
      if x < |c| {
        StillDoesNotBeat(old', best, c, hashes, v, hash, x, nCol, i);
      }
    }
  }

  // The last row stands alone in a new group.
  lemma LeadStarts(s: Sample, c: seq<nat>, hashes: seq<nat>, nCol: nat, i: nat)
    requires Sized(s, nCol) && |c| == |hashes| && 0 < |c| && Last(s, c, hashes, nCol)
    ensures Leads(s, c, hashes, nCol, i, |c| - 1)
  {
    LastDoesNotBeat(s, s, c, hashes, nCol, i);
  }

  // The candidate of column i after a row.
  lemma BestAfter(p: Accum, row: Push, q: Accum, i: nat)
    requires Shaped(p) && row.iChng < p.nCol && Room(p, row) && q == StatPush(p, row) && i < p.nCol - 1
    ensures var s := q.current.(iCol := i);
      q.aBest[i] == if row.iChng <= i || BetterPost(s, p.aBest[i], p.nCol, i + 1) then s else p.aBest[i]
  {
    StatPushIs(p, row);
    PushLeaves(p, row);
  }

  // One row, for the group of column i.
  lemma PushLeads(p: Accum, c: seq<nat>, row: Push, hashes: seq<nat>, q: Accum, i: nat)
    requires Shaped(p) && RowFollows(c, p.nCol, row.iChng) && Room(p, row) && q == StatPush(p, row)
    requires |c| == |hashes| && i < p.nCol - 1 && (c != [] ==> BestLead(p, c, hashes))
    requires Last(q.current, c + [row.iChng], hashes + [row.iHash], p.nCol)
    ensures Leads(q.aBest[i], c + [row.iChng], hashes + [row.iHash], p.nCol, i, Start(c + [row.iChng], |c|, i))
  {
    var s := q.current.(iCol := i);
    BestAfter(p, row, q, i);
    if row.iChng <= i {
      LeadStarts(s, c + [row.iChng], hashes + [row.iHash], p.nCol, i);
    } else {
      NewRow(c, row.iChng, i);
      LeadGoesOn(p.aBest[i], s, q.aBest[i], c, hashes, row.iChng, row.iHash, p.nCol, i, Start(c, |c| - 1, i));
    }
  }

  lemma AllPushLead(p: Accum, c: seq<nat>, row: Push, hashes: seq<nat>, q: Accum)
    requires Shaped(p) && RowFollows(c, p.nCol, row.iChng) && Room(p, row) && q == StatPush(p, row)
    requires |c| == |hashes| && (c != [] ==> BestLead(p, c, hashes))
    requires Last(q.current, c + [row.iChng], hashes + [row.iHash], p.nCol)
    ensures BestLead(q, c + [row.iChng], hashes + [row.iHash])
  {
    forall i | 0 <= i < p.nCol - 1
      ensures Leads(q.aBest[i], c + [row.iChng], hashes + [row.iHash], p.nCol, i, Start(c + [row.iChng], |c|, i))
    {
      PushLeads(p, c, row, hashes, q, i);
    }
  }

  lemma CurrentIsLast(p: Accum, row: Push, c: seq<nat>, hashes: seq<nat>)
    requires Shaped(p) && row.iChng < p.nCol && Room(p, row) && |c| == |hashes| && 0 < |c|
    requires Scanning(StatPush(p, row), c) && hashes[|c| - 1] == row.iHash
    ensures Last(StatPush(p, row).current, c, hashes, p.nCol)
  {
    assert CurrentOk(StatPush(p, row).current, p.nCol, c);
  }

  function Hashes(scan: Stat4Run.Scan, k: nat): (hashes: seq<nat>)
    requires k <= |scan.pushes|
    ensures |hashes| == k && forall x :: 0 <= x < k ==> hashes[x] == scan.pushes[x].iHash
  {
    if k == 0 then [] else Hashes(scan, k - 1) + [scan.pushes[k - 1].iHash]
  }

  // After every row, no row of an open group beats its candidate.
  lemma {:induction false} BestIsBest(scan: Stat4Run.Scan, k: nat)
    requires Feasible(scan) && 0 < k <= |scan.pushes|
    ensures BestLead(After(scan, k), Reported(scan, k), Hashes(scan, k))
  {
    if k > 1 {
      BestIsBest(scan, k - 1);
    }
    PushKeepsLead(scan, k, After(scan, k - 1), Reported(scan, k - 1), Hashes(scan, k - 1), scan.pushes[k - 1]);
  }

  lemma PushKeepsLead(scan: Stat4Run.Scan, k: nat, p: Accum, c: seq<nat>, hashes: seq<nat>, row: Push)
    requires Feasible(scan) && 0 < k <= |scan.pushes| && Shaped(p) && Scanning(p, c) && Fitted(p, scan)
    requires c == Reported(scan, k - 1) && hashes == Hashes(scan, k - 1) && row == scan.pushes[k - 1]
    requires c != [] ==> BestLead(p, c, hashes)
    ensures Room(p, row) && BestLead(StatPush(p, row), Reported(scan, k), Hashes(scan, k))
  {
    PushReported(scan, k, p);
    assert Reported(scan, k) == c + [row.iChng] && Hashes(scan, k) == hashes + [row.iHash];
    CurrentIsLast(p, row, c + [row.iChng], hashes + [row.iHash]);
    AllPushLead(p, c, row, hashes, StatPush(p, row));
  }
}
