// renameEditSql: replacing the listed tokens of an SQL statement in place.
module Renaming {
  import Division
  import opened Quoting
  import opened Replacing

  // With a new name, tokens are replaced by it; otherwise double-quoted strings
  // are given single quotes.
  datatype Edit = NewName(zNew: string, bQuote: bool) | QuoteFix

  predicate IsIdChar(c: char) {
    'a' <= c <= 'z' || 'A' <= c <= 'Z' || '0' <= c <= '9' || c == '_' || c == '$' || c as int >= 128
  }

  function Text(zSql: string, t: RenameToken): string {
    if t.z + t.n <= |zSql| then zSql[t.z..t.z + t.n] else ""
  }

  // The new token is a quoted text, not the bare new name.
  predicate Requoted(zSql: string, edit: Edit, t: RenameToken) {
    edit.QuoteFix? || edit.bQuote || !(t.z < |zSql| && IsIdChar(zSql[t.z]))
  }

  function Mark(edit: Edit): char {
    if edit.QuoteFix? then '\'' else '"'
  }

  // The name or string the new token is to stand for.
  function Meant(zSql: string, edit: Edit, t: RenameToken): string {
    match edit
    case NewName(zNew, _) => zNew
    case QuoteFix => Dequote(Text(zSql, t))
  }

  // A space keeps a quote that follows in the statement from joining.
  function Space(zSql: string, edit: Edit, t: RenameToken): string {
    if t.z + t.n < |zSql| && zSql[t.z + t.n] == Mark(edit) then " " else ""
  }

  // What a token is replaced by, decided from the original statement alone.
  function Replacement(zSql: string, edit: Edit, t: RenameToken): string {
    if Requoted(zSql, edit, t) then Quote(Meant(zSql, edit, t), Mark(edit)) + Space(zSql, edit, t) else edit.zNew
  }

  function New(zSql: string, edit: Edit): RenameToken -> string {
    t => Replacement(zSql, edit, t)
  }

  // No text holds a NUL, and the strings to be quoted anew are double-quoted.
  predicate Editable(zSql: string, edit: Edit, list: seq<RenameToken>) {
    && '\0' !in zSql && (edit.NewName? ==> '\0' !in edit.zNew)
    && (edit.QuoteFix? ==> forall i :: 0 <= i < |list| ==> DoubleQuoted(Text(zSql, list[i])))
  }

  predicate DoubleQuoted(text: string) {
    text == Quote(Dequote(text), '"')
  }

  // A single-quoted copy is less than twice as long as the token.
  lemma FixLength(zSql: string, t: RenameToken)
    requires t.z + t.n <= |zSql| && DoubleQuoted(Text(zSql, t))
    ensures |Replacement(zSql, QuoteFix, t)| <= 2 * t.n - 1
  {
    var x := Dequote(Text(zSql, t));
    DoubledLength(x, '"');
    DoubledLength(x, '\'');
  }

  lemma ReplacementNoNul(zSql: string, edit: Edit, t: RenameToken)
    requires '\0' !in zSql && (edit.NewName? ==> '\0' !in edit.zNew)
    ensures '\0' !in Replacement(zSql, edit, t)
  {
    DequoteNoNul(Text(zSql, t));
    DoubledNoNul(Meant(zSql, edit, t), Mark(edit));
  }

  // memmove within a buffer.
  method MemMove(z: array<char>, to: nat, from: nat, n: nat)
    requires to + n <= z.Length && from + n <= z.Length
    modifies z
    ensures forall i :: 0 <= i < z.Length ==> z[i] == if to <= i < to + n then old(z[from + (i - to)]) else old(z[i])
  {
    forall i | 0 <= i < n {
      z[to + i] := z[from + i];
    }
  }

  method MemCpy(z: array<char>, to: nat, s: string)
    requires to + |s| <= z.Length
    modifies z
    ensures forall i :: 0 <= i < z.Length ==> z[i] == if to <= i < to + |s| then s[i - to] else old(z[i])
  {
    forall i | 0 <= i < |s| {
      z[to + i] := s[i];
    }
  }

  // One edit of the output: n characters at iOff give way to zReplace.
  method ReplaceAt(zOut: array<char>, nOut: nat, iOff: nat, n: nat, zReplace: string) returns (nOut': nat)
    requires iOff + n <= nOut < zOut.Length && nOut + |zReplace| - n < zOut.Length && zOut[nOut] == '\0'
    modifies zOut
    ensures nOut' == nOut + |zReplace| - n && zOut[nOut'] == '\0'
    ensures zOut[..nOut'] == old(zOut[..nOut])[..iOff] + zReplace + old(zOut[..nOut])[iOff + n..]
  {
    nOut' := nOut;
    if n != |zReplace| {
      MemMove(zOut, iOff + |zReplace|, iOff + n, nOut - (iOff + n));
      nOut' := nOut + |zReplace| - n;
      zOut[nOut'] := '\0';
    }
    MemCpy(zOut, iOff, zReplace);
  }

  // The tokens moved out of the parser's list, and their number.
  class RenameCtx {
    var pList: seq<RenameToken>
    var nList: nat

    constructor ()
      ensures pList == [] && nList == 0
    {
      pList, nList := [], 0;
    }
  }

  class Parse {
    var pRename: seq<RenameToken>

    // renameTokenFind with a context: the first token of element pPtr moves to
    // the head of the context's list.
    method RenameTokenFind(pCtx: RenameCtx, pPtr: int) returns (found: bool)
      modifies this, pCtx
      ensures found <==> exists i :: 0 <= i < |old(pRename)| && old(pRename)[i].p == pPtr
      ensures !found ==> pRename == old(pRename) && pCtx.pList == old(pCtx.pList) && pCtx.nList == old(pCtx.nList)
      ensures found ==>
        && pCtx.nList == old(pCtx.nList) + 1
        && exists i :: 0 <= i < |old(pRename)| && old(pRename)[i].p == pPtr
             && (forall j :: 0 <= j < i ==> old(pRename)[j].p != pPtr)
             && pCtx.pList == [old(pRename)[i]] + old(pCtx.pList)
             && pRename == old(pRename)[..i] + old(pRename)[i + 1..]
    {
      var pp := 0;
      while pp < |pRename|
        invariant pp <= |pRename|
        invariant forall j :: 0 <= j < pp ==> pRename[j].p != pPtr
      {
        if pRename[pp].p == pPtr {
          var pToken := pRename[pp];
          pRename := pRename[..pp] + pRename[pp + 1..];
          pCtx.pList := [pToken] + pCtx.pList;
          pCtx.nList := pCtx.nList + 1;
          return true;
        }
        pp := pp + 1;
      }
      return false;
    }
  }

  // renameColumnTokenNext: takes the token of the greatest offset off the list.
  method RenameColumnTokenNext(pCtx: RenameCtx) returns (pBest: RenameToken, ghost k: nat)
    requires pCtx.pList != []
    modifies pCtx`pList
    ensures k < |old(pCtx.pList)| && pBest == old(pCtx.pList)[k]
    ensures pCtx.pList == old(pCtx.pList)[..k] + old(pCtx.pList)[k + 1..]
    ensures forall j :: 0 <= j < |old(pCtx.pList)| ==> old(pCtx.pList)[j].z <= pBest.z
  {
    var list := pCtx.pList;
    var best := 0;
    var pToken := 1;
    while pToken < |list|
      invariant 0 <= best < pToken <= |list|
      invariant forall j :: 0 <= j < pToken ==> list[j].z <= list[best].z
    {
      if list[pToken].z > list[best].z { best := pToken; }
      pToken := pToken + 1;
    }
    var pp := 0;
    while pp != best
      invariant pp <= best
    {
      pp := pp + 1;
    }
    pCtx.pList := list[..pp] + list[pp + 1..];
    pBest, k := list[best], best;
  }

  // The room that k replaced tokens from offset p on take at most.
  predicate Room(edit: Edit, nSql: nat, k: nat, p: nat, nOut: int) {
    match edit
    case NewName(zNew, _) => nOut <= nSql + k * |Quote(zNew, '"')|
    case QuoteFix => nOut + p <= 2 * nSql
  }

  function Capacity(edit: Edit, nSql: nat, nList: nat): nat {
    match edit
    case NewName(zNew, _) => nSql + nList * |Quote(zNew, '"')| + 1
    case QuoteFix => 2 * nSql + 1
  }

  lemma RoomFits(edit: Edit, nSql: nat, nList: nat, k: nat, p: nat, nOut: int)
    requires Room(edit, nSql, k, p, nOut) && k <= nList
    ensures nOut < Capacity(edit, nSql, nList)
  {
    if edit.NewName? {
      Division.MulLe(|Quote(edit.zNew, '"')|, k, nList);
    }
  }

  lemma RoomStep(zSql: string, list: seq<RenameToken>, edit: Edit, i: nat, k: nat, p: nat, nOut: nat)
    requires Inside(zSql, list) && Editable(zSql, edit, list) && i < |list| && list[i].z + list[i].n <= p
    requires Room(edit, |zSql|, k, p, nOut)
    ensures var nOut' := nOut + |New(zSql, edit)(list[i])| - list[i].n;
      Room(edit, |zSql|, k + 1, list[i].z, nOut') && (k < |list| ==> nOut' < Capacity(edit, |zSql|, |list|))
  {
    match edit
    case NewName(zNew, _) =>
      DoubledLength(zNew, '"');
      NameRoom(|zSql|, k, |list|, |Quote(zNew, '"')|, nOut, |New(zSql, edit)(list[i])|, list[i].n);
    case QuoteFix =>
      FixLength(zSql, list[i]);
  }

  lemma NameRoom(nSql: nat, k: nat, nList: nat, nQuot: nat, nOut: int, nReplace: nat, n: nat)
    requires nOut <= nSql + k * nQuot && nReplace <= nQuot + 1 && 1 <= n
    ensures nOut + nReplace - n <= nSql + (k + 1) * nQuot
    ensures k < nList ==> (k + 1) * nQuot <= nList * nQuot
  {
    Division.MulStep(nQuot, k);
    if k < nList {
      Division.MulLe(nQuot, k + 1, nList);
    }
  }

  // One round of the loop of renameEditSql.
  method ReplaceLast(pRename: RenameCtx, zSql: string, edit: Edit, zOut: array<char>, nOut: nat,
                     ghost list: seq<RenameToken>, ghost p: nat)
    returns (nOut': nat, ghost p': nat)
    requires Inside(zSql, list) && Disjoint(list) && Editable(zSql, edit, list)
    requires pRename.nList == |list| && pRename.pList != [] && Inside(zSql, pRename.pList) && Disjoint(pRename.pList)
    requires Remaining(list, pRename.pList, p) && |pRename.pList| <= |list|
    requires zOut.Length == Capacity(edit, |zSql|, |list|) && nOut < zOut.Length && zOut[nOut] == '\0'
    requires Room(edit, |zSql|, |list| - |pRename.pList|, p, nOut) && Done(zSql, list, New(zSql, edit), p, zOut[..nOut])
    modifies pRename`pList, zOut
    ensures |pRename.pList| == |old(pRename.pList)| - 1 && p' < p
    ensures Inside(zSql, pRename.pList) && Disjoint(pRename.pList) && Remaining(list, pRename.pList, p')
    ensures nOut' < zOut.Length && zOut[nOut'] == '\0'
    ensures Room(edit, |zSql|, |list| - |pRename.pList|, p', nOut')
    ensures Done(zSql, list, New(zSql, edit), p', zOut[..nOut'])
  {
    ghost var rest := pRename.pList;
    var pBest, k := RenameColumnTokenNext(pRename);
    RemainingStep(zSql, list, rest, p, k);
    ghost var m := LastOfRest(list, rest, p, k);
    ghost var out := zOut[..nOut];
    var zReplace := New(zSql, edit)(pBest);
    assert Done(zSql, list, New(zSql, edit), pBest.z, out[..pBest.z] + zReplace + out[pBest.z + pBest.n..]) by {
      DoneStep(zSql, list, New(zSql, edit), p, out, m);
    }
    RoomStep(zSql, list, edit, m, |list| - |rest|, p, nOut);
    nOut' := ReplaceAt(zOut, nOut, pBest.z, pBest.n, zReplace);
    p' := pBest.z;
  }

  // renameEditSql: the result is the simultaneous replacement of all tokens.
  method RenameEditSql(pRename: RenameCtx, zSql: string, edit: Edit) returns (result: string)
    requires |zSql| > 0 && pRename.nList == |pRename.pList|
    requires Inside(zSql, pRename.pList) && Disjoint(pRename.pList) && Editable(zSql, edit, pRename.pList)
    modifies pRename`pList
    ensures pRename.pList == []
    ensures result == Replaced(zSql, old(pRename.pList), New(zSql, edit), 0)
  {
    ghost var list := pRename.pList;
    var nSql := |zSql|;
    RoomFits(edit, nSql, |list|, 0, nSql, nSql);
    var zOut := new char[Capacity(edit, nSql, pRename.nList)](_ => '\0');
    var nOut: nat := nSql;
    MemCpy(zOut, 0, zSql);
    ghost var p: nat := nSql;
    assert zOut[..nOut] == zSql;
    assert zSql[..p] + Replaced(zSql, list, New(zSql, edit), p) == zSql;
    while pRename.pList != []
      invariant nOut < zOut.Length && zOut[nOut] == '\0'
      invariant Inside(zSql, pRename.pList) && Disjoint(pRename.pList) && Remaining(list, pRename.pList, p)
      invariant |pRename.pList| <= |list| && Room(edit, nSql, |list| - |pRename.pList|, p, nOut)
      invariant Done(zSql, list, New(zSql, edit), p, zOut[..nOut])
      decreases |pRename.pList|
    {
      nOut, p := ReplaceLast(pRename, zSql, edit, zOut, nOut, list, p);
    }
    NoTokens(zSql, list, New(zSql, edit), 0, p);
    forall k | 0 <= k < |list| ensures '\0' !in New(zSql, edit)(list[k]) {
      ReplacementNoNul(zSql, edit, list[k]);
    }
    NoNul(zSql, list, New(zSql, edit), 0);
    assert zOut[..nOut] == Replaced(zSql, list, New(zSql, edit), 0);
    result := CString(zOut, nOut);
  }

  // The result text ends at the first NUL.
  method CString(z: array<char>, ghost n: nat) returns (s: string)
    requires n < z.Length && z[n] == '\0' && '\0' !in z[..n]
    ensures s == z[..n]
  {
    assert forall j :: 0 <= j < n ==> z[..n][j] == z[j];
    var i := 0;
    while z[i] != '\0'
      invariant i <= n
      decreases n - i
    {
      i := i + 1;
    }
    s := z[..i];
  }
}
