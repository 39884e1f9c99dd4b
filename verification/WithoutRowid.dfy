// Index columns of a WITHOUT ROWID table.
module IndexEntries {
  import opened Columns
  import Sets

  // One column of an index: table column, collating sequence, descending.
  datatype Entry = Entry(col: int, coll: string, desc: bool)

  function Lower(c: char): char {
    if 'A' <= c <= 'Z' then (c as int + 32) as char else c
  }

  // Entries kept as three parallel arrays.
  function Zip(cols: seq<int>, colls: seq<string>, descs: seq<bool>): (entries: seq<Entry>)
    requires |cols| == |colls| == |descs|
    ensures |entries| == |cols| && forall i :: 0 <= i < |cols| ==> entries[i] == Entry(cols[i], colls[i], descs[i])
  {
    if cols == [] then []
    else
      var n := |cols| - 1;
      Zip(cols[..n], colls[..n], descs[..n]) + [Entry(cols[n], colls[n], descs[n])]
  }

  // sqlite3StrICmp finds no difference.
  predicate SameText(a: string, b: string) {
    |a| == |b| && forall i :: 0 <= i < |a| ==> Lower(a[i]) == Lower(b[i])
  }

  // The same column under the same collating sequence.
  predicate SamePair(a: Entry, b: Entry) {
    a.col == b.col && SameText(a.coll, b.coll)
  }

  predicate Has(entries: seq<Entry>, e: Entry) {
    exists i :: 0 <= i < |entries| && SamePair(entries[i], e)
  }

  predicate HasColumn(entries: seq<Entry>, x: int) {
    exists i :: 0 <= i < |entries| && entries[i].col == x
  }

  // The first occurrence of every pair, in order.
  function Dedupe(entries: seq<Entry>): seq<Entry> {
    if entries == [] then []
    else
      var n := |entries| - 1;
      Dedupe(entries[..n]) + if Has(entries[..n], entries[n]) then [] else [entries[n]]
  }

  lemma FirstKept(entries: seq<Entry>)
    requires entries != []
    ensures Dedupe(entries[..1]) == entries[..1]
  {
    assert entries[..1][..0] == [];
    assert !Has([], entries[0]);
  }

  // Comparing with what was kept so far is enough.
  lemma NextKept(entries: seq<Entry>, i: nat)
    requires i < |entries|
    ensures Dedupe(entries[..i + 1])
            == Dedupe(entries[..i]) + if Has(Dedupe(entries[..i]), entries[i]) then [] else [entries[i]]
  {
    assert entries[..i + 1][..i] == entries[..i];
    DedupeHas(entries[..i], entries[i]);
  }

  // The entries of pk that are not in entries, in order.
  function Missing(entries: seq<Entry>, pk: seq<Entry>): seq<Entry> {
    if pk == [] then []
    else
      var n := |pk| - 1;
      Missing(entries, pk[..n]) + if Has(entries, pk[n]) then [] else [pk[n]]
  }

  lemma HasTransitive(entries: seq<Entry>, a: Entry, b: Entry)
    requires Has(entries, a) && SamePair(a, b)
    ensures Has(entries, b)
  {
    var i :| 0 <= i < |entries| && SamePair(entries[i], a);
    assert SamePair(entries[i], b);
  }

  lemma HasConcat(a: seq<Entry>, b: seq<Entry>, e: Entry)
    ensures Has(a + b, e) <==> Has(a, e) || Has(b, e)
  {
    if Has(a, e) {
      var i :| 0 <= i < |a| && SamePair(a[i], e);
      assert SamePair((a + b)[i], e);
    }
    if Has(b, e) {
      var i :| 0 <= i < |b| && SamePair(b[i], e);
      assert SamePair((a + b)[|a| + i], e);
    }
  }

  // No pair is lost.
  lemma {:induction false} DedupeHas(entries: seq<Entry>, e: Entry)
    ensures Has(Dedupe(entries), e) <==> Has(entries, e)
  {
    if entries != [] {
      var n := |entries| - 1;
      var last := [entries[n]];
      DedupeHas(entries[..n], e);
      assert entries == entries[..n] + last;
      HasConcat(entries[..n], last, e);
      HasConcat(Dedupe(entries[..n]), last, e);
      assert Dedupe(entries[..n]) + [] == Dedupe(entries[..n]);
      assert Has(last, e) ==> SamePair(last[0], e);
      if Has(entries[..n], entries[n]) && SamePair(entries[n], e) {
        HasTransitive(entries[..n], entries[n], e);
      }
    }
  }

  // No pair is repeated.
  lemma {:induction false} DedupeDistinct(entries: seq<Entry>)
    ensures var d := Dedupe(entries); forall i, j :: 0 <= i < j < |d| ==> !SamePair(d[i], d[j])
  {
    if entries != [] {
      var n := |entries| - 1;
      DedupeDistinct(entries[..n]);
      DedupeHas(entries[..n], entries[n]);
    }
  }

  // Where entry i goes: an entry is kept exactly when no earlier one is the same
  // pair, and what is kept stays in order.
  lemma {:induction false} DedupeKeeps(entries: seq<Entry>, i: nat)
    requires i < |entries|
    ensures |Dedupe(entries[..i])| <= |Dedupe(entries)|
    ensures Dedupe(entries)[..|Dedupe(entries[..i])|] == Dedupe(entries[..i])
    ensures !Has(entries[..i], entries[i]) ==>
      |Dedupe(entries[..i])| < |Dedupe(entries)| && Dedupe(entries)[|Dedupe(entries[..i])|] == entries[i]
  {
    var n := |entries| - 1;
    if i < n {
      DedupeKeeps(entries[..n], i);
      assert entries[..n][..i] == entries[..i];
    }
  }

  // Together, entries and what was missing hold every pair of pk; nothing else
  // is added, and nothing twice.
  lemma {:induction false} MissingCompletes(entries: seq<Entry>, pk: seq<Entry>, e: Entry)
    ensures Has(entries + Missing(entries, pk), e) <==> Has(entries, e) || Has(pk, e)
  {
    HasConcat(entries, Missing(entries, pk), e);
    if pk != [] {
      var n := |pk| - 1;
      var last := [pk[n]];
      MissingCompletes(entries, pk[..n], e);
      HasConcat(entries, Missing(entries, pk[..n]), e);
      assert pk == pk[..n] + last;
      HasConcat(pk[..n], last, e);
      HasConcat(Missing(entries, pk[..n]), last, e);
      assert Missing(entries, pk[..n]) + [] == Missing(entries, pk[..n]);
      assert Has(last, e) <==> SamePair(last[0], e);
      if Has(entries, pk[n]) && SamePair(pk[n], e) {
        HasTransitive(entries, pk[n], e);
      }
    }
  }

  lemma {:induction false} MissingFrom(entries: seq<Entry>, pk: seq<Entry>, i: nat) returns (k: nat)
    requires i < |Missing(entries, pk)|
    ensures k < |pk| && Missing(entries, pk)[i] == pk[k] && !Has(entries, pk[k]) && i == |Missing(entries, pk[..k])|
  {
    var n := |pk| - 1;
    if i < |Missing(entries, pk[..n])| {
      k := MissingFrom(entries, pk[..n], i);
      assert pk[..n][..k] == pk[..k];
    } else {
      k := n;
    }
  }

  // Missing entries are appended in ascending order of sorting.
  function Plain(entries: seq<Entry>): (plain: seq<Entry>)
    ensures |plain| == |entries|
    ensures forall i :: 0 <= i < |plain| ==> plain[i] == Entry(entries[i].col, entries[i].coll, false)
  {
    if entries == [] then []
    else
      var last := entries[|entries| - 1];
      Plain(entries[..|entries| - 1]) + [Entry(last.col, last.coll, false)]
  }

  lemma PlainHas(entries: seq<Entry>, e: Entry)
    ensures Has(Plain(entries), e) <==> Has(entries, e)
  {
    assert forall i :: 0 <= i < |entries| ==> (SamePair(Plain(entries)[i], e) <==> SamePair(entries[i], e));
  }

  // One of the first n entries of pk is missing and descending.
  predicate Descends(key: seq<Entry>, pk: seq<Entry>, n: nat)
    requires n <= |pk|
    ensures Descends(key, pk, n) <==> exists i :: 0 <= i < n && !Has(key, pk[i]) && pk[i].desc
  {
    n > 0 && (Descends(key, pk, n - 1) || (!Has(key, pk[n - 1]) && pk[n - 1].desc))
  }

  lemma {:induction false} NoneMissing(key: seq<Entry>, pk: seq<Entry>, n: nat)
    requires n <= |pk| && |Appended(key, pk, n)| == |key|
    ensures !Descends(key, pk, n) && Appended(key, pk, n) == key
  {
    if n > 0 {
      NoneMissing(key, pk, n - 1);
    }
  }

  // The key and what has been appended after i entries of pk.
  function Appended(key: seq<Entry>, pk: seq<Entry>, i: nat): (entries: seq<Entry>)
    requires i <= |pk|
    ensures |entries| >= |key|
  {
    if i == 0 then key
    else
      Appended(key, pk, i - 1)
      + if Has(key, pk[i - 1]) then [] else [Entry(pk[i - 1].col, pk[i - 1].coll, false)]
  }

  lemma {:induction false} AppendedGrows(key: seq<Entry>, pk: seq<Entry>, i: nat, n: nat)
    requires i <= n <= |pk|
    ensures |Appended(key, pk, i)| <= |Appended(key, pk, n)|
  {
    if i < n {
      AppendedGrows(key, pk, i, n - 1);
    }
  }

  lemma {:induction false} AppendedIsMissing(key: seq<Entry>, pk: seq<Entry>, i: nat)
    requires i <= |pk|
    ensures Appended(key, pk, i) == key + Plain(Missing(key, pk[..i]))
  {
    if i > 0 {
      AppendedIsMissing(key, pk, i - 1);
      var e, missing := pk[i - 1], Missing(key, pk[..i - 1]);
      assert Missing(key, pk[..i]) == missing + if Has(key, e) then [] else [e] by {
        assert pk[..i] == pk[..i - 1] + [e];
        MissingStep(key, pk[..i - 1], e, pk[..i]);
      }
      PlainStep(missing, e, Has(key, e));
      Regroup(key, Plain(missing), if Has(key, e) then [] else [Entry(e.col, e.coll, false)]);
    }
  }

  lemma Regroup(a: seq<Entry>, b: seq<Entry>, c: seq<Entry>)
    ensures (a + b) + c == a + (b + c)
  {
  }

  lemma MissingStep(key: seq<Entry>, init: seq<Entry>, e: Entry, pk: seq<Entry>)
    requires pk == init + [e]
    ensures Missing(key, pk) == Missing(key, init) + if Has(key, e) then [] else [e]
  {
    assert pk[..|pk| - 1] == init;
  }

  lemma PlainStep(entries: seq<Entry>, e: Entry, present: bool)
    ensures Plain(entries + if present then [] else [e])
      == Plain(entries) + if present then [] else [Entry(e.col, e.coll, false)]
  {
    if !present {
      assert (entries + [e])[..|entries + [e]| - 1] == entries;
    } else {
      assert entries + [] == entries;
    }
  }

  lemma {:induction false} MissingGrows(entries: seq<Entry>, pk: seq<Entry>, i: nat)
    requires i <= |pk|
    ensures |Missing(entries, pk[..i])| <= |Missing(entries, pk)|
    ensures i < |pk| ==> Missing(entries, pk[..i + 1])
                         == Missing(entries, pk[..i]) + if Has(entries, pk[i]) then [] else [pk[i]]
    ensures i < |pk| && !Has(entries, pk[i]) ==> |Missing(entries, pk[..i])| < |Missing(entries, pk)|
  {
    var n := |pk| - 1;
    if i < n {
      MissingGrows(entries, pk[..n], i);
      assert pk[..n][..i] == pk[..i] && pk[..n][..i + 1] == pk[..i + 1];
    } else if i == n {
      assert pk[..i + 1] == pk;
    } else {
      assert pk[..i] == pk;
    }
  }

  // An index that has been extended holds exactly the pairs of its own key and
  // of the PRIMARY KEY.
  lemma ExtendedHolds(key: seq<Entry>, pk: seq<Entry>, e: Entry)
    ensures Has(key + Plain(Missing(key, pk)), e) <==> Has(key, e) || Has(pk, e)
  {
    MissingCompletes(key, pk, e);
    HasConcat(key, Missing(key, pk), e);
    HasConcat(key, Plain(Missing(key, pk)), e);
    PlainHas(Missing(key, pk), e);
  }

  // What is appended is not in the key, and not repeated when pk repeats nothing.
  lemma AppendedDistinct(key: seq<Entry>, pk: seq<Entry>, i: nat, j: nat)
    requires i < j < |Missing(key, pk)| && forall k, l :: 0 <= k < l < |pk| ==> !SamePair(pk[k], pk[l])
    ensures !Has(key, Missing(key, pk)[i]) && !SamePair(Missing(key, pk)[i], Missing(key, pk)[j])
  {
    var k := MissingFrom(key, pk, i);
    var l := MissingFrom(key, pk, j);
    if k > l {
      MissingOrder(key, pk, l, k);
    }
  }

  lemma {:induction false} MissingOrder(key: seq<Entry>, pk: seq<Entry>, l: nat, k: nat)
    requires l <= k <= |pk|
    ensures |Missing(key, pk[..l])| <= |Missing(key, pk[..k])|
  {
    MissingGrows(key, pk[..k], l);
    assert pk[..k][..l] == pk[..l];
  }

  // The columns below n that are not virtual and not among the entries.
  function Surplus(entries: seq<Entry>, aCol: seq<Column>, n: nat): seq<Entry>
    requires n <= |aCol|
  {
    if n == 0 then []
    else
      Surplus(entries, aCol, n - 1)
      + if aCol[n - 1].isVirtual || HasColumn(entries, n - 1) then [] else [Entry(n - 1, "BINARY", false)]
  }

  lemma ColumnConcat(a: seq<Entry>, b: seq<Entry>, x: int)
    ensures HasColumn(a + b, x) <==> HasColumn(a, x) || HasColumn(b, x)
  {
    if HasColumn(a, x) {
      var i :| 0 <= i < |a| && a[i].col == x;
      assert (a + b)[i].col == x;
    }
    if HasColumn(b, x) {
      var i :| 0 <= i < |b| && b[i].col == x;
      assert (a + b)[|a| + i].col == x;
    }
  }

  lemma {:induction false} SurplusColumns(entries: seq<Entry>, aCol: seq<Column>, n: nat, x: int)
    requires n <= |aCol|
    ensures HasColumn(Surplus(entries, aCol, n), x) <==> 0 <= x < n && !aCol[x].isVirtual && !HasColumn(entries, x)
  {
    if n > 0 {
      var more := if aCol[n - 1].isVirtual || HasColumn(entries, n - 1) then [] else [Entry(n - 1, "BINARY", false)];
      SurplusColumns(entries, aCol, n - 1, x);
      ColumnConcat(Surplus(entries, aCol, n - 1), more, x);
      assert HasColumn(more, x) <==> more != [] && more[0].col == x;
    }
  }

  // Looking only for columns already appended makes no difference.
  lemma SurplusStep(entries: seq<Entry>, aCol: seq<Column>, i: nat)
    requires i < |aCol|
    ensures HasColumn(entries + Surplus(entries, aCol, i), i) <==> HasColumn(entries, i)
    ensures |Surplus(entries, aCol, i + 1)| <= |Surplus(entries, aCol, |aCol|)|
  {
    SurplusColumns(entries, aCol, i, i);
    ColumnConcat(entries, Surplus(entries, aCol, i), i);
    SurplusGrows(entries, aCol, i + 1, |aCol|);
  }

  lemma {:induction false} SurplusGrows(entries: seq<Entry>, aCol: seq<Column>, i: nat, n: nat)
    requires i <= n <= |aCol|
    ensures |Surplus(entries, aCol, i)| <= |Surplus(entries, aCol, n)|
  {
    if i < n {
      SurplusGrows(entries, aCol, i, n - 1);
    }
  }

  // The appended columns are ascending in order and ascending in the table, and
  // compare by bytes.
  lemma {:induction false} SurplusPlain(entries: seq<Entry>, aCol: seq<Column>, n: nat)
    requires n <= |aCol|
    ensures PlainColumns(Surplus(entries, aCol, n), n)
  {
    if n > 0 {
      SurplusPlain(entries, aCol, n - 1);
      var less := Surplus(entries, aCol, n - 1);
      if aCol[n - 1].isVirtual || HasColumn(entries, n - 1) {
        assert Surplus(entries, aCol, n) == less;
      } else {
        assert Surplus(entries, aCol, n) == less + [Entry(n - 1, "BINARY", false)];
      }
    }
  }

  predicate PlainColumns(more: seq<Entry>, n: nat) {
    && (forall k :: 0 <= k < |more| ==> 0 <= more[k].col < n && more[k].coll == "BINARY" && !more[k].desc)
    && (forall j, k :: 0 <= j < k < |more| ==> more[j].col < more[k].col)
  }

  // Letters compare without their case, everything else as it is.
  lemma CaseFolds(c: char, d: char)
    ensures SameText([c], [d]) <==>
      c == d
      || ('A' <= c <= 'Z' && d as int == c as int + 32) || ('A' <= d <= 'Z' && c as int == d as int + 32)
  {
    assert SameText([c], [d]) <==> Lower([c][0]) == Lower([d][0]);
  }

  // A covering index has an entry for every column that is not virtual.
  lemma Covers(entries: seq<Entry>, aCol: seq<Column>, x: nat)
    requires x < |aCol| && !aCol[x].isVirtual
    ensures HasColumn(entries + Surplus(entries, aCol, |aCol|), x)
  {
    SurplusColumns(entries, aCol, |aCol|, x);
    ColumnConcat(entries, Surplus(entries, aCol, |aCol|), x);
  }

  // Columns below n that are not virtual.
  function Stored(aCol: seq<Column>, n: nat): (cols: set<int>)
    requires n <= |aCol|
    ensures forall x :: x in cols <==> 0 <= x < n && !aCol[x].isVirtual
  {
    if n == 0 then {} else Stored(aCol, n - 1) + if aCol[n - 1].isVirtual then {} else {n - 1}
  }

  lemma {:induction false} StoredCount(aCol: seq<Column>, n: nat)
    requires n <= |aCol|
    ensures |Stored(aCol, n)| == Others(aCol, n)
  {
    if n > 0 {
      StoredCount(aCol, n - 1);
    }
  }

  function ColumnsOf(entries: seq<Entry>): (cols: set<int>)
    ensures |cols| <= |entries|
    ensures forall x :: x in cols <==> HasColumn(entries, x)
  {
    if entries == [] then {}
    else
      assert entries == entries[..|entries| - 1] + [entries[|entries| - 1]];
      EntryConcat(entries[..|entries| - 1], entries[|entries| - 1]);
      ColumnsOf(entries[..|entries| - 1]) + {entries[|entries| - 1].col}
  }

  lemma EntryConcat(a: seq<Entry>, e: Entry)
    ensures forall x :: HasColumn(a + [e], x) <==> HasColumn(a, x) || e.col == x
  {
    forall x ensures HasColumn(a + [e], x) <==> HasColumn(a, x) || e.col == x {
      ColumnConcat(a, [e], x);
      assert HasColumn([e], x) <==> [e][0].col == x;
    }
  }

  // The covering index has at least as many entries as there are such columns.
  lemma CoverSize(entries: seq<Entry>, aCol: seq<Column>)
    ensures Others(aCol, |aCol|) <= |entries + Surplus(entries, aCol, |aCol|)|
  {
    var all := entries + Surplus(entries, aCol, |aCol|);
    forall x | x in Stored(aCol, |aCol|) ensures x in ColumnsOf(all) {
      Covers(entries, aCol, x);
    }
    StoredCount(aCol, |aCol|);
    Sets.SubsetSize(Stored(aCol, |aCol|), ColumnsOf(all));
  }
}

// convertToWithoutRowidTable: the column arrays of the indexes, in place.
module WithoutRowid {
  import opened IndexEntries
  import opened Columns

  // The arrays have room for more than nColumn entries when entries were
  // dropped; the allocated length is that of the sequences.
  class Index {
    var aiColumn: seq<int>
    var azColl: seq<string>
    var aSortOrder: seq<bool>
    var nKeyCol: nat
    var nColumn: nat
    var isResized: bool
    var bAscKeyBug: bool

    predicate Valid()
      reads this
    {
      nKeyCol <= |aiColumn| == |azColl| == |aSortOrder| && nColumn <= |aiColumn|
    }

    // The first n entries.
    function Entries(n: nat): (entries: seq<Entry>)
      requires Valid() && n <= |aiColumn|
      reads this
      ensures |entries| == n
      ensures forall i :: 0 <= i < n ==> entries[i] == Entry(aiColumn[i], azColl[i], aSortOrder[i])
    {
      Zip(aiColumn[..n], azColl[..n], aSortOrder[..n])
    }

    // The key columns, and all columns.
    function Key(): seq<Entry>
      reads this
    {
      if Valid() then Entries(nKeyCol) else []
    }

    function All(): seq<Entry>
      reads this
    {
      if Valid() then Entries(nColumn) else []
    }

    constructor (entries: seq<Entry>, nKeyCol: nat)
      requires nKeyCol <= |entries|
      ensures Valid() && Entries(nColumn) == entries && this.nKeyCol == nKeyCol && nColumn == |entries|
      ensures !isResized && !bAscKeyBug
    {
      aiColumn := seq(|entries|, i requires 0 <= i < |entries| => entries[i].col);
      azColl := seq(|entries|, i requires 0 <= i < |entries| => entries[i].coll);
      aSortOrder := seq(|entries|, i requires 0 <= i < |entries| => entries[i].desc);
      this.nKeyCol, nColumn := nKeyCol, |entries|;
      isResized, bAscKeyBug := false, false;
    }

    // resizeIndexObject, when the allocation succeeds; new entries are zero.
    method Resize(n: nat)
      requires Valid() && nKeyCol <= nColumn && (nColumn < n ==> !isResized)
      modifies this
      ensures Valid() && nKeyCol == old(nKeyCol) && nColumn == (if old(nColumn) < n then n else old(nColumn))
      ensures Entries(old(nColumn)) == old(Entries(nColumn)) && bAscKeyBug == old(bAscKeyBug)
      ensures forall i :: old(nColumn) <= i < n ==> !aSortOrder[i]
    {
      if nColumn >= n {
        return;
      }
      aiColumn := aiColumn[..nColumn] + seq(n - nColumn, _ => 0);
      azColl := azColl[..nColumn] + seq(n - nColumn, _ => "");
      aSortOrder := aSortOrder[..nColumn] + seq(n - nColumn, _ => false);
      nColumn, isResized := n, true;
    }

    // Stores entry j, but not its sort order.
    method Store(j: nat, col: int, coll: string)
      requires Valid() && j < |aiColumn|
      modifies this
      ensures Valid() && nKeyCol == old(nKeyCol) && nColumn == old(nColumn) && |aiColumn| == |old(aiColumn)|
      ensures Entries(j + 1) == old(Entries(j)) + [Entry(col, coll, old(aSortOrder[j]))]
      ensures aSortOrder == old(aSortOrder) && bAscKeyBug == old(bAscKeyBug) && isResized == old(isResized)
      ensures forall n :: 0 <= n <= j ==> Entries(n) == old(Entries(n))
    {
      aiColumn := aiColumn[j := col];
      azColl := azColl[j := coll];
      forall n | 0 <= n <= j ensures Entries(n) == old(Entries(n)) {
      }
    }

    // Stores a column of the PRIMARY KEY and notes whether it is descending.
    method StoreKeyColumn(j: nat, col: int, coll: string, desc: bool)
      requires Valid() && nKeyCol <= j < |aiColumn| && !aSortOrder[j]
      modifies this
      ensures Valid() && nKeyCol == old(nKeyCol) && nColumn == old(nColumn) && aSortOrder == old(aSortOrder)
      ensures Entries(j + 1) == old(Entries(j)) + [Entry(col, coll, false)] && Entries(nKeyCol) == old(Entries(nKeyCol))
      ensures bAscKeyBug == (old(bAscKeyBug) || desc)
    {
      Store(j, col, coll);
      if desc {
        bAscKeyBug := true;
      }
    }

    // isDupColumn against entry iCol of pPk.
    method IsDupColumn(nKey: nat, pPk: Index, iCol: nat) returns (dup: bool)
      requires Valid() && pPk.Valid() && nKey <= |aiColumn| && iCol < |pPk.aiColumn|
      ensures dup <==> Has(Entries(nKey), Entry(pPk.aiColumn[iCol], pPk.azColl[iCol], pPk.aSortOrder[iCol]))
    {
      ghost var e := Entry(pPk.aiColumn[iCol], pPk.azColl[iCol], pPk.aSortOrder[iCol]);
      var i := 0;
      while i < nKey
        invariant i <= nKey && forall k :: 0 <= k < i ==> !SamePair(Entries(nKey)[k], e)
      {
        if aiColumn[i] == pPk.aiColumn[iCol] && SameText(azColl[i], pPk.azColl[iCol]) {
          assert SamePair(Entries(nKey)[i], e);
          return true;
        }
        i := i + 1;
      }
      dup := false;
    }

    // hasColumn over the first n entries.
    method FindColumn(n: nat, x: int) returns (found: bool)
      requires Valid() && n <= |aiColumn|
      ensures found <==> HasColumn(Entries(n), x)
    {
      var i := 0;
      while i < n
        invariant i <= n && forall k :: 0 <= k < i ==> Entries(n)[k].col != x
      {
        if aiColumn[i] == x {
          assert Entries(n)[i].col == x;
          return true;
        }
        i := i + 1;
      }
      found := false;
    }

    function At(i: nat): Entry
      requires Valid() && i < |aiColumn|
      reads this
    {
      Entry(aiColumn[i], azColl[i], aSortOrder[i])
    }

    // Copies entry i to place j.
    method Keep(j: nat, i: nat)
      requires Valid() && j <= i < |aiColumn|
      modifies this
      ensures Valid() && nKeyCol == old(nKeyCol) && nColumn == old(nColumn) && |aiColumn| == |old(aiColumn)|
      ensures Entries(j + 1) == old(Entries(j)) + [old(At(i))]
      ensures forall k :: j < k < |aiColumn| ==> At(k) == old(At(k))
      ensures isResized == old(isResized) && bAscKeyBug == old(bAscKeyBug)
    {
      azColl := azColl[j := azColl[i]];
      aSortOrder := aSortOrder[j := aSortOrder[i]];
      aiColumn := aiColumn[j := aiColumn[i]];
    }

    // Entry i of the key is kept, in place j, unless it repeats a kept one.
    method KeepIfNew(j: nat, i: nat, ghost key: seq<Entry>) returns (j': nat)
      requires Valid() && 1 <= j <= i < nKeyCol == |key| && nColumn >= 1
      requires Entries(j) == Dedupe(key[..i]) && At(i) == key[i]
      modifies this
      ensures Valid() && nKeyCol == old(nKeyCol) && j <= j' <= i + 1 && Entries(j') == Dedupe(key[..i + 1])
      ensures nColumn - j' == old(nColumn) - (j + 1) && isResized == old(isResized)
      ensures |aiColumn| == |old(aiColumn)| && forall k :: i < k < |aiColumn| ==> At(k) == old(At(k))
    {
      var dup := IsDupColumn(j, this, i);
      NextKept(key, i);
      if dup {
        nColumn := nColumn - 1;
        j' := j;
      } else {
        Keep(j, i);
        j' := j + 1;
      }
    }

    // The loop that drops repeated columns of the PRIMARY KEY.
    method KeepFirsts() returns (j: nat)
      requires Valid() && 1 <= nKeyCol <= nColumn
      modifies this
      ensures Valid() && nKeyCol == old(nKeyCol) && 1 <= j <= nKeyCol
      ensures Entries(j) == Dedupe(old(Entries(nKeyCol))) && isResized == old(isResized)
    {
      ghost var key := Entries(nKeyCol);
      FirstKept(key);
      assert Entries(1) == key[..1];
      j := 1;
      var i: nat := 1;
      while i < nKeyCol
        invariant 1 <= j <= i <= nKeyCol && Valid() && nKeyCol == |key| && isResized == old(isResized)
        invariant Entries(j) == Dedupe(key[..i]) && nColumn - j == old(nColumn) - i
        invariant forall k :: i <= k < nKeyCol ==> At(k) == key[k]
      {
        j := KeepIfNew(j, i, key);
        i := i + 1;
      }
      assert key[..i] == key;
    }

    method RemoveRedundant()
      requires Valid() && 1 <= nKeyCol <= nColumn
      modifies this
      ensures Valid() && Entries(nKeyCol) == Dedupe(old(Entries(nKeyCol))) && nColumn == nKeyCol >= 1
      ensures isResized == old(isResized)
    {
      nKeyCol := KeepFirsts();
      nColumn := nKeyCol;
    }

    // The counting loop: how many entries of pPk are not in the key.
    method CountMissing(pPk: Index, nPk: nat) returns (n: nat)
      requires Valid() && pPk.Valid() && nPk <= |pPk.aiColumn|
      ensures nKeyCol + n == |Appended(Entries(nKeyCol), pPk.Entries(nPk), nPk)|
    {
      ghost var key, pk := Entries(nKeyCol), pPk.Entries(nPk);
      n := 0;
      for i := 0 to nPk
        invariant nKeyCol + n == |Appended(key, pk, i)|
      {
        var dup := HasEntry(pPk, i, key, pk);
        if !dup { n := n + 1; }
      }
    }

    method HasEntry(pPk: Index, i: nat, ghost key: seq<Entry>, ghost pk: seq<Entry>) returns (dup: bool)
      requires Valid() && pPk.Valid() && i < |pk| <= |pPk.aiColumn| && pk == pPk.Entries(|pk|)
      requires Entries(nKeyCol) == key
      ensures dup <==> Has(key, pk[i])
      ensures pk[i] == Entry(pPk.aiColumn[i], pPk.azColl[i], pPk.aSortOrder[i])
    {
      dup := IsDupColumn(nKeyCol, pPk, i);
    }

    // One round of the appending loop.
    method AppendIfMissing(pPk: Index, j: nat, i: nat, ghost key: seq<Entry>, ghost pk: seq<Entry>) returns (j': nat)
      requires Valid() && pPk.Valid() && pPk != this && i < |pk| <= |pPk.aiColumn| && pk == pPk.Entries(|pk|)
      requires nKeyCol <= j && Entries(nKeyCol) == key && j <= |aiColumn|
      requires Entries(j) == Appended(key, pk, i)
      requires nColumn == |Appended(key, pk, |pk|)| && forall k :: nKeyCol <= k < nColumn ==> !aSortOrder[k]
      modifies this
      ensures Valid() && nKeyCol == old(nKeyCol) && nColumn == old(nColumn) && aSortOrder == old(aSortOrder)
      ensures j <= j' <= nColumn && Entries(nKeyCol) == key
      ensures Entries(j') == Appended(key, pk, i + 1)
      ensures bAscKeyBug == (old(bAscKeyBug) || (!Has(key, pk[i]) && pk[i].desc))
    {
      var dup := HasEntry(pPk, i, key, pk);
      AppendedGrows(key, pk, i + 1, |pk|);
      j' := j;
      if !dup {
        StoreKeyColumn(j, pPk.aiColumn[i], pPk.azColl[i], pPk.aSortOrder[i]);
        j' := j + 1;
      }
    }

    // An index made before the conversion ends with the rowid.
    predicate EndsWithRowid()
      reads this
    {
      Valid() && nColumn == nKeyCol + 1 && !aSortOrder[nKeyCol] && !isResized
    }

    // Replaces the final rowid by the missing columns of the PRIMARY KEY.
    method ReplaceRowid(pPk: Index)
      requires EndsWithRowid() && pPk.Valid() && pPk != this
      modifies this
      ensures Valid() && nKeyCol == old(nKeyCol)
      ensures var key, pk := old(Entries(nKeyCol)), pPk.Entries(pPk.nColumn);
        && Entries(nColumn) == key + Plain(Missing(key, pk))
        && bAscKeyBug == (old(bAscKeyBug) || Descends(key, pk, |pk|))
    {
      ghost var key, pk := Entries(nKeyCol), pPk.Entries(pPk.nColumn);
      var n := CountMissing(pPk, pPk.nColumn);
      AppendedIsMissing(key, pk, |pk|);
      assert pk[..|pk|] == pk;
      if n == 0 {
        nColumn := nKeyCol;
        NoneMissing(key, pk, |pk|);
      } else {
        ResizeTail(n);
        AppendAll(pPk, key, pk);
      }
    }

    method ResizeTail(n: nat)
      requires EndsWithRowid() && n >= 1
      modifies this
      ensures Valid() && nKeyCol == old(nKeyCol) && nColumn == nKeyCol + n && bAscKeyBug == old(bAscKeyBug)
      ensures Entries(nKeyCol) == old(Entries(nKeyCol)) && forall k :: nKeyCol <= k < nColumn ==> !aSortOrder[k]
    {
      Resize(nKeyCol + n);
      assert Entries(nKeyCol + 1)[nKeyCol] == old(Entries(nKeyCol + 1))[nKeyCol];
    }

    method AppendAll(pPk: Index, ghost key: seq<Entry>, ghost pk: seq<Entry>)
      requires Valid() && pPk.Valid() && pPk != this && pk == pPk.Entries(pPk.nColumn) && Entries(nKeyCol) == key
      requires nColumn == |Appended(key, pk, |pk|)| && forall k :: nKeyCol <= k < nColumn ==> !aSortOrder[k]
      modifies this
      ensures Valid() && nKeyCol == old(nKeyCol) && Entries(nColumn) == Appended(key, pk, |pk|)
      ensures bAscKeyBug == (old(bAscKeyBug) || Descends(key, pk, |pk|))
    {
      ghost var n := nColumn;
      var i: nat, j: nat := 0, nKeyCol;
      while i < pPk.nColumn
        invariant i <= |pk| == pPk.nColumn && nKeyCol <= j <= nColumn == n && nKeyCol == |key| && Valid()
        invariant pPk.Valid() && pk == pPk.Entries(|pk|)
        invariant Entries(nKeyCol) == key && Entries(j) == Appended(key, pk, i)
        invariant aSortOrder == old(aSortOrder)
        invariant bAscKeyBug == (old(bAscKeyBug) || Descends(key, pk, i))
      {
        j := AppendIfMissing(pPk, j, i, key, pk);
        i := i + 1;
      }
    }

    // Adds every column that is not virtual to the PRIMARY KEY index.
    method CoverTable(t: Table)
      requires Valid() && t.Valid() && nColumn == nKeyCol && !isResized
      modifies this
      ensures Valid() && nKeyCol == old(nKeyCol) && Entries(nKeyCol) == old(Entries(nKeyCol))
      ensures Entries(nColumn) == old(Entries(nColumn)) + Surplus(old(Entries(nColumn)), t.aCol, |t.aCol|)
      ensures t.nNVCol <= nColumn
    {
      ghost var pk := Entries(nColumn);
      var nExtra := CountSurplus(t);
      CoverSize(pk, t.aCol);
      Resize(nColumn + nExtra);
      AppendSurplus(t, pk);
    }

    method CountSurplus(t: Table) returns (nExtra: nat)
      requires Valid() && t.Valid()
      ensures nExtra == |Surplus(Entries(nColumn), t.aCol, |t.aCol|)|
    {
      nExtra := 0;
      for i := 0 to |t.aCol|
        invariant nExtra == |Surplus(Entries(nColumn), t.aCol, i)|
      {
        var found := FindColumn(nColumn, i);
        if !found && !t.aCol[i].isVirtual { nExtra := nExtra + 1; }
      }
    }

    method AppendIfSurplus(t: Table, j: nat, i: nat, ghost pk: seq<Entry>) returns (j': nat)
      requires Valid() && t.Valid() && i < |t.aCol| && nKeyCol == |pk| && Entries(nKeyCol) == pk && nKeyCol <= j
      requires nColumn == nKeyCol + |Surplus(pk, t.aCol, |t.aCol|)|
      requires forall k :: nKeyCol <= k < nColumn ==> !aSortOrder[k]
      requires j <= nColumn && Entries(j) == pk + Surplus(pk, t.aCol, i)
      modifies this
      ensures Valid() && nKeyCol == old(nKeyCol) && nColumn == old(nColumn) && Entries(nKeyCol) == pk
      ensures j <= j' <= nColumn
      ensures Entries(j') == pk + Surplus(pk, t.aCol, i + 1) && aSortOrder == old(aSortOrder)
    {
      var found := FindColumn(j, i);
      SurplusStep(pk, t.aCol, i);
      j' := j;
      if !found && !t.aCol[i].isVirtual {
        StoreKeyColumn(j, i, "BINARY", false);
        j' := j + 1;
      }
    }

    method AppendSurplus(t: Table, ghost pk: seq<Entry>)
      requires Valid() && t.Valid() && nKeyCol == |pk| && Entries(nKeyCol) == pk
      requires nColumn == nKeyCol + |Surplus(pk, t.aCol, |t.aCol|)|
      requires forall k :: nKeyCol <= k < nColumn ==> !aSortOrder[k]
      modifies this
      ensures Valid() && nKeyCol == old(nKeyCol) && nColumn == old(nColumn) && Entries(nKeyCol) == pk
      ensures Entries(nColumn) == pk + Surplus(pk, t.aCol, |t.aCol|)
    {
      ghost var n := nColumn;
      var i: nat, j: nat := 0, nKeyCol;
      while i < |t.aCol|
        invariant i <= |t.aCol| && nKeyCol <= j <= nColumn == n && nKeyCol == |pk| && Valid() && Entries(nKeyCol) == pk
        invariant Entries(j) == pk + Surplus(pk, t.aCol, i) && aSortOrder == old(aSortOrder)
      {
        j := AppendIfSurplus(t, j, i, pk);
        i := i + 1;
      }
    }
  }

  // The index has the given key followed by the missing PRIMARY KEY columns.
  predicate Extended(pIdx: Index, key: seq<Entry>, pk: seq<Entry>)
    reads pIdx
  {
    pIdx.Valid() && pIdx.nKeyCol == |key| && pIdx.All() == key + Plain(Missing(key, pk))
  }

  predicate Ready(pIdx: Index, key: seq<Entry>)
    reads pIdx
  {
    pIdx.EndsWithRowid() && pIdx.Key() == key
  }

  // The loop over the other indexes, whose keys are given.
  method ReplaceRowids(pPk: Index, pIndex: seq<Index>, ghost keys: seq<seq<Entry>>, ghost pk: seq<Entry>)
    requires pPk.Valid() && pPk.All() == pk && |keys| == |pIndex|
    requires forall i, j :: 0 <= i < j < |pIndex| ==> pIndex[i] != pIndex[j]
    requires forall i :: 0 <= i < |pIndex| && pIndex[i] != pPk ==> Ready(pIndex[i], keys[i])
    modifies set p | p in pIndex && p != pPk
    ensures forall i :: 0 <= i < |pIndex| && pIndex[i] != pPk ==> Extended(pIndex[i], keys[i], pk)
  {
    for i := 0 to |pIndex|
      invariant pPk.Valid() && pPk.All() == pk
      invariant forall k :: i <= k < |pIndex| && pIndex[k] != pPk ==> Ready(pIndex[k], keys[k])
      invariant forall k :: 0 <= k < i && pIndex[k] != pPk ==> Extended(pIndex[k], keys[k], pk)
    {
      if pIndex[i] != pPk {
        ReplaceOne(pPk, pIndex[i], keys[i], pk);
        assert forall k :: 0 <= k < |pIndex| && k != i ==> pIndex[k] != pIndex[i];
      }
    }
  }

  method ReplaceOne(pPk: Index, pIdx: Index, ghost key: seq<Entry>, ghost pk: seq<Entry>)
    requires pPk.Valid() && pPk.All() == pk && pIdx != pPk && Ready(pIdx, key)
    modifies pIdx
    ensures Extended(pIdx, key, pk)
  {
    pIdx.ReplaceRowid(pPk);
  }

  // convertToWithoutRowidTable, from the PRIMARY KEY index on; pIndex lists all
  // indexes of the table.
  method ConvertToWithoutRowid(t: Table, pPk: Index, pIndex: seq<Index>)
    requires t.Valid() && pPk.Valid() && 1 <= pPk.nKeyCol <= pPk.nColumn && !pPk.isResized
    requires forall i, j :: 0 <= i < j < |pIndex| ==> pIndex[i] != pIndex[j]
    requires forall i :: 0 <= i < |pIndex| && pIndex[i] != pPk ==> pIndex[i].EndsWithRowid()
    modifies pPk, pIndex
    ensures pPk.Valid() && pPk.Key() == Dedupe(old(pPk.Key()))
    ensures pPk.All() == pPk.Key() + Surplus(pPk.Key(), t.aCol, |t.aCol|)
    ensures t.nNVCol <= pPk.nColumn
    ensures forall i :: 0 <= i < |pIndex| && pIndex[i] != pPk ==>
      Extended(pIndex[i], old(pIndex[i].Key()), Dedupe(old(pPk.Key())))
  {
    ghost var pk := Dedupe(pPk.Key());
    pPk.RemoveRedundant();
    ReplaceRowids(pPk, pIndex, seq(|pIndex|, i requires 0 <= i < |pIndex| => old(pIndex[i].Key())), pk);
    pPk.CoverTable(t);
  }
}
