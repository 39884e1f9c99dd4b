// The rows of an index, and the counts that the statistics stand for.
module IndexRows {
  import opened PrefixGroups

  // The key columns of a row, as ranks in their collating order.
  type Row = seq<int>

  // Lexicographic order on keys of one length.
  ghost predicate Less(a: Row, b: Row) {
    |a| == |b| && exists k: nat :: DiffersFirstAt(a, b, k) && a[k] < b[k]
  }

  predicate DiffersFirstAt(a: Row, b: Row, k: nat) {
    k < |a| && k < |b| && a[..k] == b[..k] && a[k] != b[k]
  }

  // A scan of an index in key order; the full keys are unique.
  ghost predicate Index(rows: seq<Row>, nCol: nat) {
    && 0 < nCol && (forall i :: 0 <= i < |rows| ==> |rows[i]| == nCol)
    && forall i :: 0 < i < |rows| ==> Ascends(rows, i)
  }

  ghost predicate Ascends(rows: seq<Row>, i: nat)
    requires 0 < i < |rows|
  {
    Less(rows[i - 1], rows[i])
  }

  // The leftmost column in which two keys differ.
  function FirstDifference(a: Row, b: Row): (k: nat)
    requires |a| == |b|
    ensures k <= |a| && a[..k] == b[..k] && (k < |a| ==> a[k] != b[k])
  {
    if a == [] || a[0] != b[0] then 0
    else
      var k := 1 + FirstDifference(a[1..], b[1..]);
      assert a[..k] == [a[0]] + a[1..][..k - 1] && b[..k] == [b[0]] + b[1..][..k - 1];
      k
  }

  // What the scan reports with each row.
  function Changes(rows: seq<Row>, nCol: nat): (c: seq<nat>)
    requires forall i :: 0 <= i < |rows| ==> |rows[i]| == nCol
    ensures |c| == |rows| && (rows != [] ==> c[0] == 0)
    ensures forall i :: 0 < i < |rows| ==> c[i] == FirstDifference(rows[i - 1], rows[i])
  {
    if rows == [] then []
    else
      var n := |rows| - 1;
      Changes(rows[..n], nCol) + [if n == 0 then 0 else FirstDifference(rows[n - 1], rows[n])]
  }

  function Prefix(rows: seq<Row>, x: nat, j: nat): Row
    requires x < |rows| && j < |rows[x]|
  {
    rows[x][..j + 1]
  }

  // Rows whose first j+1 columns equal those of row x.
  ghost function Equal(rows: seq<Row>, nCol: nat, x: nat, j: nat): set<nat>
    requires Index(rows, nCol) && x < |rows| && j < nCol
  {
    set i: nat | i < |rows| && Prefix(rows, i, j) == Prefix(rows, x, j)
  }

  // Rows whose first j+1 columns are less than those of row x.
  ghost function Smaller(rows: seq<Row>, nCol: nat, x: nat, j: nat): set<nat>
    requires Index(rows, nCol) && x < |rows| && j < nCol
  {
    set i: nat | i < |rows| && Less(Prefix(rows, i, j), Prefix(rows, x, j))
  }

  // The distinct values of the first j+1 columns that are less than those of row x.
  ghost function SmallerKeys(rows: seq<Row>, nCol: nat, x: nat, j: nat): set<Row>
    requires Index(rows, nCol) && x < |rows| && j < nCol
  {
    set i: nat | i in Smaller(rows, nCol, x, j) :: Prefix(rows, i, j)
  }

  lemma LessTransitive(a: Row, b: Row, c: Row)
    requires Less(a, b) && Less(b, c)
    ensures Less(a, c)
  {
    var k: nat :| DiffersFirstAt(a, b, k) && a[k] < b[k];
    var l: nat :| DiffersFirstAt(b, c, l) && b[l] < c[l];
    var m := if k <= l then k else l;
    assert a[..m] == a[..k][..m] && b[..m] == b[..k][..m] && b[..m] == b[..l][..m] && c[..m] == c[..l][..m];
    assert k < l ==> b[..l][k] == c[..l][k];
    assert l < k ==> a[..k][l] == b[..k][l];
    assert DiffersFirstAt(a, c, m);
  }

  lemma LessIrreflexive(a: Row)
    ensures !Less(a, a)
  {
  }

  lemma FirstDifferenceIs(a: Row, b: Row, l: nat)
    requires |a| == |b| && DiffersFirstAt(a, b, l)
    ensures FirstDifference(a, b) == l
  {
  }

  lemma PrefixesCompare(a: Row, b: Row, k: nat, n: nat)
    requires DiffersFirstAt(a, b, k) && a[k] < b[k] && n <= |a| == |b|
    ensures if n <= k then a[..n] == b[..n] else Less(a[..n], b[..n])
  {
    if n <= k {
      assert a[..n] == a[..k][..n] && b[..n] == b[..k][..n];
    } else {
      assert a[..n][..k] == a[..k] && b[..n][..k] == b[..k];
      assert DiffersFirstAt(a[..n], b[..n], k);
    }
  }

  // Neighbouring rows: equal on the first j+1 columns, or increasing there.
  lemma Neighbours(rows: seq<Row>, nCol: nat, x: nat, j: nat)
    requires Index(rows, nCol) && 0 < x < |rows| && j < nCol
    ensures Changes(rows, nCol)[x] < nCol
    ensures if j < Changes(rows, nCol)[x] then Prefix(rows, x - 1, j) == Prefix(rows, x, j)
            else Less(Prefix(rows, x - 1, j), Prefix(rows, x, j))
  {
    assert Ascends(rows, x);
    var l: nat :| DiffersFirstAt(rows[x - 1], rows[x], l) && rows[x - 1][l] < rows[x][l];
    FirstDifferenceIs(rows[x - 1], rows[x], l);
    PrefixesCompare(rows[x - 1], rows[x], l, j + 1);
  }

  // Groups are exactly the rows with equal prefixes; earlier groups are smaller.
  lemma {:induction false} GroupsAreKeys(rows: seq<Row>, nCol: nat, x: nat, y: nat, j: nat)
    requires Index(rows, nCol) && x <= y < |rows| && j < nCol
    ensures if Together(Changes(rows, nCol), x, y, j) then Prefix(rows, x, j) == Prefix(rows, y, j)
            else Less(Prefix(rows, x, j), Prefix(rows, y, j))
    decreases y - x
  {
    if x < y {
      GroupsAreKeys(rows, nCol, x, y - 1, j);
      Neighbours(rows, nCol, y, j);
      OrderStep(Prefix(rows, x, j), Prefix(rows, y - 1, j), Prefix(rows, y, j));
    }
  }

  lemma OrderStep(a: Row, b: Row, c: Row)
    ensures (a == b || Less(a, b)) && Less(b, c) ==> Less(a, c)
  {
    if Less(a, b) && Less(b, c) {
      LessTransitive(a, b, c);
    }
  }

  // ---- The counts ----

  // The rows lo..hi-1.
  function Range(lo: nat, hi: nat): (s: set<nat>)
    requires lo <= hi
    ensures forall i: nat :: i in s <==> lo <= i < hi
    ensures |s| == hi - lo
    decreases hi - lo
  {
    if lo == hi then {} else Range(lo, hi - 1) + {hi - 1}
  }

  // Comparing any two rows on their first j+1 columns.
  lemma RowsCompare(rows: seq<Row>, nCol: nat, x: nat, i: nat, j: nat)
    requires Index(rows, nCol) && x < |rows| && i < |rows| && j < nCol
    ensures var c := Changes(rows, nCol);
      && (Prefix(rows, i, j) == Prefix(rows, x, j) <==> Start(c, x, j) <= i < End(c, x, j))
      && (Less(Prefix(rows, i, j), Prefix(rows, x, j)) <==> i < Start(c, x, j))
  {
    var c := Changes(rows, nCol);
    LessIrreflexive(Prefix(rows, x, j));
    if i <= x {
      GroupsAreKeys(rows, nCol, i, x, j);
    } else {
      GroupsAreKeys(rows, nCol, x, i, j);
      TogetherShares(c, x, i, j);
      if Less(Prefix(rows, i, j), Prefix(rows, x, j)) && Less(Prefix(rows, x, j), Prefix(rows, i, j)) {
        LessTransitive(Prefix(rows, x, j), Prefix(rows, i, j), Prefix(rows, x, j));
      }
    }
  }

  // Group sizes and starts are the counts of equal and of smaller rows.
  lemma CountsAreGroups(rows: seq<Row>, nCol: nat, x: nat, j: nat)
    requires Index(rows, nCol) && x < |rows| && j < nCol
    ensures |Equal(rows, nCol, x, j)| == Size(Changes(rows, nCol), x, j)
    ensures |Smaller(rows, nCol, x, j)| == Start(Changes(rows, nCol), x, j)
  {
    var c := Changes(rows, nCol);
    forall i: nat | i < |rows|
      ensures i in Equal(rows, nCol, x, j) <==> Start(c, x, j) <= i < End(c, x, j)
      ensures i in Smaller(rows, nCol, x, j) <==> i < Start(c, x, j)
    {
      RowsCompare(rows, nCol, x, i, j);
    }
    assert Equal(rows, nCol, x, j) == Range(Start(c, x, j), End(c, x, j));
    assert Smaller(rows, nCol, x, j) == Range(0, Start(c, x, j));
  }

  predicate IsKeyOf(rows: seq<Row>, i: nat, j: nat, key: Row) {
    i < |rows| && j < |rows[i]| && Prefix(rows, i, j) == key
  }

  // The distinct keys of the rows before row s.
  ghost function KeysBefore(rows: seq<Row>, nCol: nat, s: nat, j: nat): set<Row>
    requires Index(rows, nCol) && s <= |rows| && j < nCol
  {
    if s == 0 then {} else KeysBefore(rows, nCol, s - 1, j) + {Prefix(rows, s - 1, j)}
  }

  lemma {:induction false} KeyAmong(rows: seq<Row>, nCol: nat, s: nat, j: nat, key: Row)
    requires Index(rows, nCol) && s <= |rows| && j < nCol
    ensures key in KeysBefore(rows, nCol, s, j) <==> exists i: nat :: i < s && IsKeyOf(rows, i, j, key)
  {
    if s > 0 {
      KeyAmong(rows, nCol, s - 1, j, key);
      if Prefix(rows, s - 1, j) == key {
        assert IsKeyOf(rows, s - 1, j, key);
      }
    }
  }

  // Each new group brings one new key.
  lemma {:induction false} KeysAreGroups(rows: seq<Row>, nCol: nat, c: seq<nat>, x: nat, next: nat, j: nat)
    requires Index(rows, nCol) && x < |rows| && j < nCol && c == Changes(rows, nCol) && next == x + 1
    ensures |KeysBefore(rows, nCol, next, j)| == Before(c, x, j) + 1
    decreases x
  {
    KeysStep(rows, nCol, c, x, next, j);
    if x > 0 {
      KeysAreGroups(rows, nCol, c, x - 1, x, j);
    }
  }

  lemma KeysStep(rows: seq<Row>, nCol: nat, c: seq<nat>, x: nat, next: nat, j: nat)
    requires Index(rows, nCol) && x < |rows| && j < nCol && c == Changes(rows, nCol) && next == x + 1
    ensures |KeysBefore(rows, nCol, next, j)| == |KeysBefore(rows, nCol, x, j)| + if x == 0 || c[x] <= j then 1 else 0
  {
    KeysUnfold(rows, nCol, x, next, j);
    if x > 0 {
      var before, key := KeysBefore(rows, nCol, x, j), Prefix(rows, x, j);
      NewKey(rows, nCol, x, j);
      assert key in before ==> before + {key} == before;
    }
  }

  lemma KeysUnfold(rows: seq<Row>, nCol: nat, x: nat, next: nat, j: nat)
    requires Index(rows, nCol) && x < |rows| && j < nCol && next == x + 1
    ensures KeysBefore(rows, nCol, next, j) == KeysBefore(rows, nCol, x, j) + {Prefix(rows, x, j)}
  {
  }

  // Row x brings a new key exactly when it starts a group.
  lemma NewKey(rows: seq<Row>, nCol: nat, x: nat, j: nat)
    requires Index(rows, nCol) && 0 < x < |rows| && j < nCol
    ensures Prefix(rows, x, j) in KeysBefore(rows, nCol, x, j) <==> j < Changes(rows, nCol)[x]
  {
    Neighbours(rows, nCol, x, j);
    KeyAmong(rows, nCol, x, j, Prefix(rows, x, j));
    if j < Changes(rows, nCol)[x] {
      assert IsKeyOf(rows, x - 1, j, Prefix(rows, x, j));
    } else if Prefix(rows, x, j) in KeysBefore(rows, nCol, x, j) {
      var i: nat :| i < x && IsKeyOf(rows, i, j, Prefix(rows, x, j));
      RowsCompare(rows, nCol, x, i, j);
    }
  }

  lemma {:induction false} BeforeStart(c: seq<nat>, x: nat, j: nat)
    requires x < |c|
    ensures Before(c, x, j) == Before(c, Start(c, x, j), j)
    decreases x
  {
    if x > 0 && j < c[x] {
      BeforeStart(c, x - 1, j);
    }
  }

  lemma KeysCounted(rows: seq<Row>, nCol: nat, x: nat, j: nat)
    requires Index(rows, nCol) && x < |rows| && j < nCol
    ensures |SmallerKeys(rows, nCol, x, j)| == Before(Changes(rows, nCol), x, j)
  {
    var s := Start(Changes(rows, nCol), x, j);
    SmallerKeysBefore(rows, nCol, x, j, s);
    KeysBeforeStart(rows, nCol, x, j, s);
  }

  lemma KeysBeforeStart(rows: seq<Row>, nCol: nat, x: nat, j: nat, s: nat)
    requires Index(rows, nCol) && x < |rows| && j < nCol && s == Start(Changes(rows, nCol), x, j)
    ensures |KeysBefore(rows, nCol, s, j)| == Before(Changes(rows, nCol), x, j)
  {
    var c := Changes(rows, nCol);
    BeforeStart(c, x, j);
    if s > 0 {
      KeysAreGroups(rows, nCol, c, s - 1, s, j);
      assert Before(c, s, j) == Before(c, s - 1, j) + 1;
    }
  }

  lemma SmallerKeysBefore(rows: seq<Row>, nCol: nat, x: nat, j: nat, s: nat)
    requires Index(rows, nCol) && x < |rows| && j < nCol && s == Start(Changes(rows, nCol), x, j)
    ensures SmallerKeys(rows, nCol, x, j) == KeysBefore(rows, nCol, s, j)
  {
    forall key | key in SmallerKeys(rows, nCol, x, j) ensures key in KeysBefore(rows, nCol, s, j) {
      var i: nat :| i in Smaller(rows, nCol, x, j) && Prefix(rows, i, j) == key;
      RowsCompare(rows, nCol, x, i, j);
      assert IsKeyOf(rows, i, j, key);
      KeyAmong(rows, nCol, s, j, key);
    }
    forall key | key in KeysBefore(rows, nCol, s, j) ensures key in SmallerKeys(rows, nCol, x, j) {
      KeyAmong(rows, nCol, s, j, key);
      var i: nat :| i < s && IsKeyOf(rows, i, j, key);
      RowsCompare(rows, nCol, x, i, j);
      assert i in Smaller(rows, nCol, x, j);
    }
  }
}
