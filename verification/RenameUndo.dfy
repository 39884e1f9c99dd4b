// Renaming back: replacing the new name by the old one at the places where it
// was put restores the statement.
module RenameUndo {
  import opened Replacing
  import opened Renaming

  // All listed tokens read old and are replaced by new.
  predicate Swaps(text: string, list: seq<RenameToken>, rep: RenameToken -> string, old': string, new': string)
    requires Inside(text, list)
  {
    && old' != "" && new' != ""
    && forall k :: 0 <= k < |list| ==> Text(text, list[k]) == old' && rep(list[k]) == new'
  }

  // Where offset i of the text, if no token reaches across it, is in the result.
  function Shifted(text: string, list: seq<RenameToken>, rep: RenameToken -> string, i: nat): int
    requires Inside(text, list) && i <= |text|
  {
    |Replaced(text, list, rep, 0)| - |Replaced(text, list, rep, i)|
  }

  lemma {:induction false} ResultShrinks(text: string, list: seq<RenameToken>, rep: RenameToken -> string, i: nat,
                                         p: nat)
    requires Inside(text, list) && Disjoint(list) && i <= p <= |text| && Boundary(list, i) && Boundary(list, p)
    requires forall k :: 0 <= k < |list| ==> rep(list[k]) != ""
    ensures if i < p then |Replaced(text, list, rep, i)| > |Replaced(text, list, rep, p)| else i == p
    decreases p - i
  {
    if i < p {
      var k := TokenAt(list, i);
      var next := i + if k < |list| then list[k].n else 1;
      assert next <= p && Boundary(list, next) by {
        NextBoundary(text, list, i);
      }
      ResultShrinks(text, list, rep, next, p);
      PieceAt(text, list, rep, i, next, k);
    }
  }

  lemma PieceAt(text: string, list: seq<RenameToken>, rep: RenameToken -> string, i: nat, next: nat, k: nat)
    requires Inside(text, list) && i < |text| && k == TokenAt(list, i)
    requires next == i + (if k < |list| then list[k].n else 1) <= |text|
    ensures |Replaced(text, list, rep, i)|
      == |Replaced(text, list, rep, next)| + if k < |list| then |rep(list[k])| else 1
  {
  }

  lemma TokenBoundary(list: seq<RenameToken>, k: nat)
    requires Disjoint(list) && k < |list|
    ensures Boundary(list, list[k].z)
  {
    forall j | 0 <= j < |list| ensures !(list[j].z < list[k].z < list[j].z + list[j].n) {
      assert j != k ==> Apart(list[j], list[k]);
    }
  }

  // The tokens that the new names form in the result.
  function Placed(text: string, list: seq<RenameToken>, rep: RenameToken -> string, n: nat): (placed: seq<RenameToken>)
    requires Inside(text, list) && n <= |list|
    ensures |placed| == n
    ensures forall k :: 0 <= k < n ==>
      var z := Shifted(text, list, rep, list[k].z);
      placed[k] == RenameToken(list[k].p, if z >= 0 then z else 0, |rep(list[k])|)
  {
    if n == 0 then []
    else
      var z := Shifted(text, list, rep, list[n - 1].z);
      Placed(text, list, rep, n - 1) + [RenameToken(list[n - 1].p, if z >= 0 then z else 0, |rep(list[n - 1])|)]
  }

  // The result at the place of a boundary is what replacing from there gives.
  lemma ResultFrom(text: string, list: seq<RenameToken>, rep: RenameToken -> string, i: nat)
    requires Inside(text, list) && Disjoint(list) && i <= |text| && Boundary(list, i)
    ensures var out, s := Replaced(text, list, rep, 0), Shifted(text, list, rep, i);
      0 <= s <= |out| && out[s..] == Replaced(text, list, rep, i)
  {
    var before := TailOfResult(text, list, rep, 0, i);
    assert Replaced(text, list, rep, 0)[|before|..] == Replaced(text, list, rep, i);
  }

  lemma NewNameAt(text: string, list: seq<RenameToken>, rep: RenameToken -> string, k: nat, s: int)
    requires Inside(text, list) && Disjoint(list) && k < |list| && s == Shifted(text, list, rep, list[k].z)
    ensures var out, x := Replaced(text, list, rep, 0), rep(list[k]);
      0 <= s && s + |x| <= |out| && out[s..s + |x|] == x
  {
    var z := list[k].z;
    assert Boundary(list, z) by {
      TokenBoundary(list, k);
    }
    assert TokenAt(list, z) == k by {
      OneAt(text, list, k);
    }
    var x, tail := rep(list[k]), Replaced(text, list, rep, z);
    assert tail == x + Replaced(text, list, rep, z + list[k].n);
    var out := Replaced(text, list, rep, 0);
    assert 0 <= s <= |out| && out[s..] == tail by {
      ResultFrom(text, list, rep, z);
    }
    assert out[s..s + |x|] == tail[..|x|];
  }

  lemma PlacedInside(text: string, list: seq<RenameToken>, rep: RenameToken -> string, old': string, new': string,
                     k: nat)
    requires Inside(text, list) && Disjoint(list) && Swaps(text, list, rep, old', new') && k < |list|
    ensures var out, t := Replaced(text, list, rep, 0), Placed(text, list, rep, |list|)[k];
      t.z == Shifted(text, list, rep, list[k].z) && t.n == |new'| >= 1 && t.z + t.n <= |out| && Text(out, t) == new'
  {
    NewNameAt(text, list, rep, k, Shifted(text, list, rep, list[k].z));
  }

  lemma PlacedInOrder(text: string, list: seq<RenameToken>, rep: RenameToken -> string, old': string, new': string,
                      j: nat, k: nat)
    requires Inside(text, list) && Disjoint(list) && Swaps(text, list, rep, old', new') && j < |list| && k < |list|
    requires list[j].z + list[j].n <= list[k].z
    ensures var placed := Placed(text, list, rep, |list|); placed[j].z + placed[j].n <= placed[k].z
  {
    PlacedInside(text, list, rep, old', new', j);
    PlacedInside(text, list, rep, old', new', k);
    var next := list[j].z + list[j].n;
    assert TokenAt(list, list[j].z) == j by {
      OneAt(text, list, j);
    }
    assert Boundary(list, next) && Boundary(list, list[k].z) by {
      TokenBoundary(list, j);
      TokenBoundary(list, k);
      NextBoundary(text, list, list[j].z);
    }
    ResultShrinks(text, list, rep, next, list[k].z);
    NextShifted(text, list, rep, list[j].z, next, j);
  }

  lemma PlacedDisjoint(text: string, list: seq<RenameToken>, rep: RenameToken -> string, old': string, new': string)
    requires Inside(text, list) && Disjoint(list) && Swaps(text, list, rep, old', new')
    ensures Disjoint(Placed(text, list, rep, |list|))
  {
    var placed := Placed(text, list, rep, |list|);
    forall j, k | 0 <= j < |placed| && 0 <= k < |placed| && j != k ensures Apart(placed[j], placed[k]) {
      assert Apart(list[j], list[k]);
      if list[j].z + list[j].n <= list[k].z {
        PlacedInOrder(text, list, rep, old', new', j, k);
      } else {
        PlacedInOrder(text, list, rep, old', new', k, j);
      }
    }
  }

  // A placed token starts at the place of boundary i only if a token starts at i.
  lemma PlacedAt(text: string, list: seq<RenameToken>, rep: RenameToken -> string, old': string, new': string, i: nat)
    requires Inside(text, list) && Disjoint(list) && Swaps(text, list, rep, old', new')
    requires i <= |text| && Boundary(list, i) && Shifted(text, list, rep, i) >= 0
    ensures TokenAt(list, i) < |list| <==>
      TokenAt(Placed(text, list, rep, |list|), Shifted(text, list, rep, i)) < |list|
  {
    var placed := Placed(text, list, rep, |list|);
    var s: nat := Shifted(text, list, rep, i);
    var k, k' := TokenAt(list, i), TokenAt(placed, s);
    if k < |list| {
      PlacedInside(text, list, rep, old', new', k);
      assert placed[k].z == s;
    }
    if k' < |list| {
      PlacedInside(text, list, rep, old', new', k');
      TokenBoundary(list, k');
      if i <= list[k'].z {
        ResultShrinks(text, list, rep, i, list[k'].z);
      } else {
        ResultShrinks(text, list, rep, list[k'].z, i);
      }
    }
  }

  // Where the piece after the one at i is.
  lemma NextShifted(text: string, list: seq<RenameToken>, rep: RenameToken -> string, i: nat, next: nat, k: nat)
    requires Inside(text, list) && i < |text| && k == TokenAt(list, i)
    requires next == i + if k < |list| then list[k].n else 1
    ensures next <= |text|
    ensures Shifted(text, list, rep, next) == Shifted(text, list, rep, i) + if k < |list| then |rep(list[k])| else 1
  {
  }

  // The character at a boundary where no token starts is kept.
  lemma KeptAt(text: string, list: seq<RenameToken>, rep: RenameToken -> string, i: nat, s: nat)
    requires Inside(text, list) && Disjoint(list) && i < |text| && Boundary(list, i) && TokenAt(list, i) == |list|
    requires s == Shifted(text, list, rep, i)
    ensures s < |Replaced(text, list, rep, 0)| && Replaced(text, list, rep, 0)[s] == text[i]
  {
    ResultFrom(text, list, rep, i);
    assert Replaced(text, list, rep, 0)[s..][0] == text[i];
  }

  // Replacing in out from offset s on gives the text from i on.
  predicate Restores(text: string, i: nat, out: string, placed: seq<RenameToken>, back: RenameToken -> string, s: nat) {
    Inside(out, placed) && s <= |out| && i <= |text| && Replaced(out, placed, back, s) == text[i..]
  }

  // A token of length n that gives way to x starts at i.
  predicate TokenIs(list: seq<RenameToken>, rep: RenameToken -> string, i: nat, n: nat, x: string) {
    TokenAt(list, i) < |list| && list[TokenAt(list, i)].n == n && rep(list[TokenAt(list, i)]) == x
  }

  lemma RestoresToken(text: string, i: nat, next: nat, out: string, placed: seq<RenameToken>,
                      back: RenameToken -> string, s: nat, s': nat, n: nat, x: string)
    requires Restores(text, next, out, placed, back, s') && i < next && s <= |out| && TokenIs(placed, back, s, n, x)
    requires s' == s + n && x == text[i..next]
    ensures Restores(text, i, out, placed, back, s)
  {
    assert text[i..] == text[i..next] + text[next..];
  }

  lemma RestoresCharacter(text: string, i: nat, next: nat, out: string, placed: seq<RenameToken>,
                          back: RenameToken -> string, s: nat, s': nat)
    requires Restores(text, next, out, placed, back, s') && next == i + 1 && s' == s + 1
    requires TokenAt(placed, s) == |placed|
    requires s < |out| && out[s] == text[i]
    ensures Restores(text, i, out, placed, back, s)
  {
    assert text[i..] == [text[i]] + text[next..];
  }

  // All placed tokens are inside the result, and back turns them into old.
  ghost predicate TurnsBack(text: string, list: seq<RenameToken>, rep: RenameToken -> string,
                            back: RenameToken -> string, old': string)
    requires Inside(text, list)
  {
    var placed := Placed(text, list, rep, |list|);
    Inside(Replaced(text, list, rep, 0), placed) && forall k :: 0 <= k < |list| ==> back(placed[k]) == old'
  }

  // The placed token for the token at i.
  lemma PlacedTokenAt(text: string, list: seq<RenameToken>, rep: RenameToken -> string, back: RenameToken -> string,
                      old': string, new': string, i: nat, s: nat)
    requires Inside(text, list) && Disjoint(list) && Swaps(text, list, rep, old', new')
    requires TurnsBack(text, list, rep, back, old')
    requires i <= |text| && Boundary(list, i) && TokenAt(list, i) < |list| && s == Shifted(text, list, rep, i)
    ensures TokenIs(Placed(text, list, rep, |list|), back, s, |new'|, old')
  {
    PlacedAt(text, list, rep, old', new', i);
    PlacedInside(text, list, rep, old', new', TokenAt(Placed(text, list, rep, |list|), s));
  }

  lemma RestoredToken(text: string, list: seq<RenameToken>, rep: RenameToken -> string, back: RenameToken -> string,
                      old': string, new': string, out: string, placed: seq<RenameToken>,
                      i: nat, s: nat, k: nat, next: nat, s': nat)
    requires Inside(text, list) && Disjoint(list) && Swaps(text, list, rep, old', new')
    requires TurnsBack(text, list, rep, back, old')
    requires out == Replaced(text, list, rep, 0) && placed == Placed(text, list, rep, |list|)
    requires i < |text| && Boundary(list, i) && s == Shifted(text, list, rep, i) && s <= |out|
    requires k == TokenAt(list, i) < |list| && next == i + list[k].n <= |text|
    requires s' == s + |new'| && Restores(text, next, out, placed, back, s')
    ensures Restores(text, i, out, placed, back, s)
  {
    assert text[i..next] == Text(text, list[k]) == old';
    PlacedTokenAt(text, list, rep, back, old', new', i, s);
    RestoresToken(text, i, next, out, placed, back, s, s', |new'|, old');
  }

  lemma RestoredCharacter(text: string, list: seq<RenameToken>, rep: RenameToken -> string, back: RenameToken -> string,
                          old': string, new': string, out: string, placed: seq<RenameToken>,
                          i: nat, s: nat, next: nat, s': nat)
    requires Inside(text, list) && Disjoint(list) && Swaps(text, list, rep, old', new')
    requires TurnsBack(text, list, rep, back, old')
    requires out == Replaced(text, list, rep, 0) && placed == Placed(text, list, rep, |list|)
    requires i < |text| && Boundary(list, i) && s == Shifted(text, list, rep, i) && s <= |out|
    requires TokenAt(list, i) == |list| && next == i + 1 && s' == s + 1 && Restores(text, next, out, placed, back, s')
    ensures Restores(text, i, out, placed, back, s)
  {
    assert TokenAt(placed, s) == |placed| by {
      PlacedAt(text, list, rep, old', new', i);
    }
    assert s < |out| && out[s] == text[i] by {
      KeptAt(text, list, rep, i, s);
    }
    RestoresCharacter(text, i, next, out, placed, back, s, s');
  }

  // Replacing back from the place of boundary i gives the text from i on.
  lemma {:induction false} RestoredFrom(text: string, list: seq<RenameToken>, rep: RenameToken -> string,
                                        back: RenameToken -> string, old': string, new': string,
                                        out: string, placed: seq<RenameToken>, i: nat, s: int)
    requires Inside(text, list) && Disjoint(list) && Swaps(text, list, rep, old', new')
    requires TurnsBack(text, list, rep, back, old')
    requires out == Replaced(text, list, rep, 0) && placed == Placed(text, list, rep, |list|)
    requires i <= |text| && Boundary(list, i) && s == Shifted(text, list, rep, i)
    ensures 0 <= s <= |out| && Restores(text, i, out, placed, back, s)
    decreases |text| - i
  {
    assert 0 <= s <= |out| by {
      ResultFrom(text, list, rep, i);
    }
    if i < |text| {
      var k := TokenAt(list, i);
      var next := i + if k < |list| then list[k].n else 1;
      assert next <= |text| && Boundary(list, next) by {
        NextBoundary(text, list, i);
      }
      var s' := Shifted(text, list, rep, next);
      assert s' == s + if k < |list| then |new'| else 1 by {
        NextShifted(text, list, rep, i, next, k);
      }
      RestoredFrom(text, list, rep, back, old', new', out, placed, next, s');
      if k < |list| {
        RestoredToken(text, list, rep, back, old', new', out, placed, i, s, k, next, s');
      } else {
        RestoredCharacter(text, list, rep, back, old', new', out, placed, i, s, next, s');
      }
    }
  }

  lemma BareThere(zSql: string, list: seq<RenameToken>, zOld: string, zNew: string)
    requires Inside(zSql, list) && zOld != "" && zNew != "" && IsIdChar(zOld[0])
    requires forall k :: 0 <= k < |list| ==> Text(zSql, list[k]) == zOld
    ensures Swaps(zSql, list, New(zSql, NewName(zNew, false)), zOld, zNew)
  {
    forall k | 0 <= k < |list| ensures New(zSql, NewName(zNew, false))(list[k]) == zNew {
      assert Text(zSql, list[k])[0] == zSql[list[k].z];
    }
  }

  lemma BareBack(text: string, list: seq<RenameToken>, rep: RenameToken -> string, zOld: string, zNew: string)
    requires Inside(text, list) && Disjoint(list) && Swaps(text, list, rep, zOld, zNew) && IsIdChar(zNew[0])
    ensures TurnsBack(text, list, rep, New(Replaced(text, list, rep, 0), NewName(zOld, false)), zOld)
  {
    var out, placed := Replaced(text, list, rep, 0), Placed(text, list, rep, |list|);
    forall k | 0 <= k < |list|
      ensures placed[k].n >= 1 && placed[k].z + placed[k].n <= |out| && Text(out, placed[k]) == zNew
    {
      PlacedInside(text, list, rep, zOld, zNew, k);
    }
    BareThere(out, placed, zNew, zOld);
  }

  // Renaming bare identifiers and renaming them back is the identity.
  lemma RenameBack(zSql: string, list: seq<RenameToken>, zOld: string, zNew: string)
    requires Inside(zSql, list) && Disjoint(list) && zOld != "" && zNew != "" && IsIdChar(zOld[0]) && IsIdChar(zNew[0])
    requires forall k :: 0 <= k < |list| ==> Text(zSql, list[k]) == zOld
    ensures var there := New(zSql, NewName(zNew, false));
      var out, placed := Replaced(zSql, list, there, 0), Placed(zSql, list, there, |list|);
      Inside(out, placed) && Disjoint(placed) && Replaced(out, placed, New(out, NewName(zOld, false)), 0) == zSql
  {
    var there := New(zSql, NewName(zNew, false));
    var out := Replaced(zSql, list, there, 0);
    BareThere(zSql, list, zOld, zNew);
    BareBack(zSql, list, there, zOld, zNew);
    PlacedDisjoint(zSql, list, there, zOld, zNew);
    RestoredFrom(zSql, list, there, New(out, NewName(zOld, false)), zOld, zNew, out, Placed(zSql, list, there, |list|),
                 0, 0);
    assert zSql[0..] == zSql;
  }
}
