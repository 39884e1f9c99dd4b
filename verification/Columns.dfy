// Table columns and their places in storage.
module Columns {
  // What follows the generating expression of a column.
  datatype GeneratedWord = Omitted | Virtual | Stored | Other

  datatype Column = Column(isVirtual: bool, isStored: bool, hasDefault: bool)

  // Virtual columns, and other columns, among the first n.
  function Virtuals(aCol: seq<Column>, n: nat): (v: nat)
    requires n <= |aCol|
    ensures v <= n
  {
    if n == 0 then 0 else Virtuals(aCol, n - 1) + if aCol[n - 1].isVirtual then 1 else 0
  }

  function Others(aCol: seq<Column>, n: nat): nat
    requires n <= |aCol|
  {
    n - Virtuals(aCol, n)
  }

  // The place of column i: the columns that are not virtual come first, each
  // class in the order of the table.
  function Place(aCol: seq<Column>, i: nat): nat
    requires i < |aCol|
  {
    if aCol[i].isVirtual then Others(aCol, |aCol|) + Virtuals(aCol, i) else Others(aCol, i)
  }

  lemma {:induction false} CountsGrow(aCol: seq<Column>, i: nat, n: nat)
    requires i <= n <= |aCol|
    ensures Virtuals(aCol, i) <= Virtuals(aCol, n) && Others(aCol, i) <= Others(aCol, n)
    ensures i < n ==>
      if aCol[i].isVirtual then Virtuals(aCol, i) < Virtuals(aCol, n) else Others(aCol, i) < Others(aCol, n)
    decreases n
  {
    if i < n - 1 {
      CountsGrow(aCol, i, n - 1);
    }
  }

  // Order within a class, and virtual columns last.
  lemma PlacesOrdered(aCol: seq<Column>, i: nat, j: nat)
    requires i < |aCol| && j < |aCol|
    ensures Place(aCol, i) < |aCol|
    ensures aCol[i].isVirtual == aCol[j].isVirtual ==> (i < j <==> Place(aCol, i) < Place(aCol, j))
    ensures !aCol[i].isVirtual && aCol[j].isVirtual ==> Place(aCol, i) < Others(aCol, |aCol|) <= Place(aCol, j)
  {
    CountsGrow(aCol, i, |aCol|);
    CountsGrow(aCol, j, |aCol|);
    if i < j { CountsGrow(aCol, i, j); }
    if j < i { CountsGrow(aCol, j, i); }
  }

  // The column of a class with exactly k of its class before it.
  lemma {:induction false} FindInClass(aCol: seq<Column>, n: nat, k: nat, isVirtual: bool) returns (i: nat)
    requires n <= |aCol| && k < if isVirtual then Virtuals(aCol, n) else Others(aCol, n)
    ensures i < n && aCol[i].isVirtual == isVirtual
    ensures k == if isVirtual then Virtuals(aCol, i) else Others(aCol, i)
  {
    var before := if isVirtual then Virtuals(aCol, n - 1) else Others(aCol, n - 1);
    if before <= k {
      i := n - 1;
    } else {
      i := FindInClass(aCol, n - 1, k, isVirtual);
    }
  }

  // Places are a permutation of 0..nCol-1: distinct, in range and all taken.
  lemma PlacesDistinct(aCol: seq<Column>, i: nat, j: nat)
    requires i < |aCol| && j < |aCol|
    ensures Place(aCol, i) < |aCol| && (Place(aCol, i) == Place(aCol, j) ==> i == j)
  {
    PlacesOrdered(aCol, i, j);
    PlacesOrdered(aCol, j, i);
  }

  lemma PlaceTaken(aCol: seq<Column>, p: nat) returns (i: nat)
    requires p < |aCol|
    ensures i < |aCol| && Place(aCol, i) == p
  {
    var m := Others(aCol, |aCol|);
    i := FindInClass(aCol, |aCol|, if p < m then p else p - m, p >= m);
  }

  lemma {:induction false} CountsPrefix(a: seq<Column>, b: seq<Column>, n: nat)
    requires n <= |a| && n <= |b| && a[..n] == b[..n]
    ensures Virtuals(a, n) == Virtuals(b, n)
  {
    if n > 0 {
      assert a[..n - 1] == a[..n][..n - 1] && b[..n - 1] == b[..n][..n - 1];
      assert a[n - 1] == a[..n][n - 1] && b[n - 1] == b[..n][n - 1];
      CountsPrefix(a, b, n - 1);
    }
  }

  lemma {:induction false} NoVirtuals(aCol: seq<Column>, n: nat)
    requires n <= |aCol| && forall i :: 0 <= i < n ==> !aCol[i].isVirtual
    ensures Virtuals(aCol, n) == 0
  {
    if n > 0 {
      NoVirtuals(aCol, n - 1);
    }
  }

  class Table {
    var aCol: seq<Column>
    var nNVCol: int
    var hasVirtual: bool

    // nNVCol counts the columns that are not virtual, and the flag is set once
    // there is a virtual one.
    predicate Valid()
      reads this
    {
      && nNVCol == Others(aCol, |aCol|)
      && (hasVirtual <==> exists i :: 0 <= i < |aCol| && aCol[i].isVirtual)
      && forall i :: 0 <= i < |aCol| && aCol[i].isVirtual ==> aCol[i].hasDefault
    }

    constructor ()
      ensures Valid() && aCol == []
    {
      aCol, nNVCol, hasVirtual := [], 0, false;
    }

    // sqlite3AddColumn; limit is the greatest number of columns.
    method AddColumn(limit: nat) returns (ok: bool)
      requires Valid()
      modifies this
      ensures Valid() && ok == (|old(aCol)| + 1 <= limit)
      ensures aCol == if ok then old(aCol) + [Column(false, false, false)] else old(aCol)
    {
      if |aCol| + 1 > limit {
        return false;
      }
      ghost var before := aCol;
      aCol := aCol + [Column(false, false, false)];
      nNVCol := nNVCol + 1;
      CountsPrefix(before, aCol, |before|);
      ok := true;
    }

    // sqlite3AddGenerated on the column added last.  A column that already has
    // a default or generating expression is an error, and so is another word
    // than VIRTUAL or STORED.
    method AddGenerated(word: GeneratedWord) returns (ok: bool)
      requires Valid() && aCol != []
      modifies this
      ensures Valid() && |aCol| == |old(aCol)| && aCol[..|aCol| - 1] == old(aCol)[..|aCol| - 1]
      ensures ok == (!old(aCol)[|aCol| - 1].hasDefault && !word.Other?)
      ensures var c := old(aCol)[|aCol| - 1];
        aCol[|aCol| - 1] == if ok then Column(!word.Stored?, c.isStored || word.Stored?, true) else c
    {
      var n := |aCol| - 1;
      var c := aCol[n];
      if c.hasDefault || word.Other? {
        return false;
      }
      ghost var before := aCol;
      var stored := word.Stored?;
      if !stored {
        nNVCol := nNVCol - 1;
        hasVirtual := true;
      }
      aCol := aCol[n := Column(c.isVirtual || !stored, c.isStored || stored, true)];
      CountsPrefix(before, aCol, n);
      assert forall i :: 0 <= i < n ==> aCol[i] == before[i];
      assert aCol[n].isVirtual == !stored;
      ok := true;
    }

    // sqlite3TableColumnToStorage; a negative number is the rowid.
    method TableColumnToStorage(iCol: int) returns (p: int)
      requires Valid() && iCol < |aCol|
      ensures p == if iCol < 0 then iCol else Place(aCol, iCol)
    {
      if !hasVirtual || iCol < 0 {
        if iCol >= 0 {
          NoVirtuals(aCol, iCol);
        }
        return iCol;
      }
      var i, n := 0, 0;
      while i < iCol
        invariant 0 <= i <= iCol && n == Others(aCol, i)
      {
        if !aCol[i].isVirtual { n := n + 1; }
        i := i + 1;
      }
      p := if aCol[i].isVirtual then nNVCol + i - n else n;
    }

    // sqlite3StorageColumnToTable finds the column that is not virtual and has
    // the given place.
    method StorageColumnToTable(iStorage: int) returns (iCol: int)
      requires Valid() && iStorage < nNVCol
      ensures iStorage < 0 ==> iCol == iStorage
      ensures iStorage >= 0 ==> 0 <= iCol < |aCol| && !aCol[iCol].isVirtual && Place(aCol, iCol) == iStorage
    {
      iCol := iStorage;
      if hasVirtual {
        var i: nat := 0;
        while i <= iCol
          invariant i <= |aCol| && iCol == iStorage + Virtuals(aCol, i)
          invariant iStorage >= 0 ==> i <= iCol + 1
          invariant iStorage < 0 ==> i == 0
          invariant i > 0 && i == iCol + 1 ==> !aCol[i - 1].isVirtual
          decreases |aCol| - i
        {
          CountsGrow(aCol, i, |aCol|);
          if aCol[i].isVirtual { iCol := iCol + 1; }
          i := i + 1;
        }
      } else {
        NoVirtuals(aCol, |aCol|);
        if iCol >= 0 { NoVirtuals(aCol, iCol); }
      }
    }
  }

  // The two conversions undo each other.
  method RoundTrip(t: Table, iStorage: int, iCol: int) returns (p: int, c: int)
    requires t.Valid() && iStorage < t.nNVCol && iCol < |t.aCol| && (iCol >= 0 ==> !t.aCol[iCol].isVirtual)
    ensures p == iStorage && c == iCol
  {
    var i := t.StorageColumnToTable(iStorage);
    p := t.TableColumnToStorage(i);
    var s := t.TableColumnToStorage(iCol);
    if iCol >= 0 {
      PlacesOrdered(t.aCol, iCol, iCol);
      CountsGrow(t.aCol, iCol, |t.aCol|);
    } else {
      CountsGrow(t.aCol, 0, |t.aCol|);
    }
    c := t.StorageColumnToTable(s);
    if iCol >= 0 {
      PlacesDistinct(t.aCol, iCol, c);
    }
  }
}
