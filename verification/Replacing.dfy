// Simultaneous replacement of tokens of a text.
module Replacing {
  // A token of the text: n characters from offset z; p identifies the parse
  // tree element it belongs to.
  datatype RenameToken = RenameToken(p: int, z: nat, n: nat)

  // The tokens are nonempty and inside the text.
  predicate Inside(text: string, list: seq<RenameToken>) {
    forall i :: 0 <= i < |list| ==> list[i].n >= 1 && list[i].z + list[i].n <= |text|
  }

  predicate Apart(t: RenameToken, u: RenameToken) {
    t.z + t.n <= u.z || u.z + u.n <= t.z
  }

  predicate Disjoint(list: seq<RenameToken>) {
    forall i, j {:trigger Apart(list[i], list[j])} :: 0 <= i < |list| && 0 <= j < |list| && i != j ==>
      Apart(list[i], list[j])
  }

  // The first listed token that starts at offset i, or |list|.
  function TokenAt(list: seq<RenameToken>, i: nat): (k: nat)
    ensures k <= |list|
    ensures k < |list| ==> list[k].z == i
    ensures k == |list| ==> forall j :: 0 <= j < |list| ==> list[j].z != i
  {
    if list == [] then 0 else if list[0].z == i then 0 else TokenAt(list[1..], i) + 1
  }

  // The text from offset i on, read from left to right, every listed token t
  // giving way to rep(t).
  function Replaced(text: string, list: seq<RenameToken>, rep: RenameToken -> string, i: nat): string
    requires Inside(text, list) && i <= |text|
    decreases |text| - i
  {
    if i == |text| then []
    else
      var k := TokenAt(list, i);
      if k < |list| then rep(list[k]) + Replaced(text, list, rep, i + list[k].n)
      else [text[i]] + Replaced(text, list, rep, i + 1)
  }

  lemma {:induction false} NoTokens(text: string, list: seq<RenameToken>, rep: RenameToken -> string, i: nat, p: nat)
    requires Inside(text, list) && i <= p <= |text|
    requires forall j :: 0 <= j < |list| ==> !(i <= list[j].z < p)
    ensures Replaced(text, list, rep, i) == text[i..p] + Replaced(text, list, rep, p)
    decreases p - i
  {
    if i < p {
      NoTokens(text, list, rep, i + 1, p);
    }
  }

  // At most one listed token starts at an offset.
  lemma OneAt(text: string, list: seq<RenameToken>, k: nat)
    requires Inside(text, list) && Disjoint(list) && k < |list|
    ensures forall i :: 0 <= i < |list| && list[i].z == list[k].z ==> i == k
    ensures TokenAt(list, list[k].z) == k
  {
    assert forall i :: 0 <= i < |list| && i != k ==> Apart(list[i], list[k]);
  }

  // Replacing the last token before p, when everything from p on is done.
  lemma LastToken(text: string, list: seq<RenameToken>, rep: RenameToken -> string, k: nat, p: nat)
    requires Inside(text, list) && Disjoint(list) && k < |list| && list[k].z + list[k].n <= p <= |text|
    requires forall j :: 0 <= j < |list| ==> list[j].z <= list[k].z || p <= list[j].z
    ensures Replaced(text, list, rep, list[k].z)
            == rep(list[k]) + text[list[k].z + list[k].n..p] + Replaced(text, list, rep, p)
  {
    var t := list[k];
    OneAt(text, list, k);
    assert Replaced(text, list, rep, t.z) == rep(t) + Replaced(text, list, rep, t.z + t.n);
    NoTokens(text, list, rep, t.z + t.n, p);
    Regroup(rep(t), text[t.z + t.n..p], Replaced(text, list, rep, p));
  }

  lemma Regroup(a: string, b: string, c: string)
    ensures a + (b + c) == (a + b) + c
  {
  }

  lemma {:induction false} NoNul(text: string, list: seq<RenameToken>, rep: RenameToken -> string, i: nat)
    requires Inside(text, list) && i <= |text| && '\0' !in text
    requires forall k :: 0 <= k < |list| ==> '\0' !in rep(list[k])
    ensures '\0' !in Replaced(text, list, rep, i)
    decreases |text| - i
  {
    if i < |text| {
      var k := TokenAt(list, i);
      NoNul(text, list, rep, i + if k < |list| then list[k].n else 1);
    }
  }

  // From offset p on, the output is finished; before it, it is the text.
  predicate Done(text: string, list: seq<RenameToken>, rep: RenameToken -> string, p: nat, out: string)
    requires Inside(text, list)
  {
    p <= |text| && out == text[..p] + Replaced(text, list, rep, p)
  }

  lemma DoneStep(text: string, list: seq<RenameToken>, rep: RenameToken -> string, p: nat, out: string, k: nat)
    requires Inside(text, list) && Disjoint(list) && Done(text, list, rep, p, out)
    requires k < |list| && list[k].z + list[k].n <= p
    requires forall j :: 0 <= j < |list| ==> list[j].z <= list[k].z || p <= list[j].z
    ensures var t := list[k];
      t.z + t.n <= |out| && Done(text, list, rep, t.z, out[..t.z] + rep(t) + out[t.z + t.n..])
  {
    LastToken(text, list, rep, k, p);
    Splice(text, p, Replaced(text, list, rep, p), list[k].z, list[k].n, rep(list[k]));
  }

  lemma Splice(text: string, p: nat, tail: string, z: nat, n: nat, x: string)
    requires z + n <= p <= |text|
    ensures var out := text[..p] + tail;
      out[..z] + x + out[z + n..] == text[..z] + (x + text[z + n..p] + tail)
  {
    var out := text[..p] + tail;
    assert out[..z] == text[..z];
    assert out[z + n..] == text[z + n..p] + tail;
  }

  // The tokens still to be replaced are those before offset p.
  predicate Remaining(list: seq<RenameToken>, rest: seq<RenameToken>, p: nat) {
    && (forall t :: t in rest ==> t in list && t.z + t.n <= p)
    && (forall t :: t in list ==> t in rest || p <= t.z)
  }

  lemma RemainingStep(text: string, list: seq<RenameToken>, rest: seq<RenameToken>, p: nat, k: nat)
    requires Inside(text, rest) && Disjoint(rest) && Remaining(list, rest, p) && k < |rest|
    requires forall j :: 0 <= j < |rest| ==> rest[j].z <= rest[k].z
    ensures var rest' := rest[..k] + rest[k + 1..];
      Inside(text, rest') && Disjoint(rest') && Remaining(list, rest', rest[k].z)
  {
    var rest' := rest[..k] + rest[k + 1..];
    assert forall j :: 0 <= j < |rest'| ==> rest'[j] == rest[if j < k then j else j + 1];
    assert forall j :: 0 <= j < |rest| && j != k ==> Apart(rest[j], rest[k]);
    forall i, j | 0 <= i < |rest'| && 0 <= j < |rest'| && i != j ensures Apart(rest'[i], rest'[j]) {
      assert Apart(rest[if i < k then i else i + 1], rest[if j < k then j else j + 1]);
    }
    forall t | t in list ensures t in rest' || rest[k].z <= t.z {
      if t in rest && t != rest[k] {
        var j :| 0 <= j < |rest| && rest[j] == t;
        assert rest'[if j < k then j else j - 1] == t;
      }
    }
  }

  // The greatest remaining token is the last one of the whole list before p.
  lemma LastOfRest(list: seq<RenameToken>, rest: seq<RenameToken>, p: nat, k: nat) returns (m: nat)
    requires Remaining(list, rest, p) && k < |rest| && forall j :: 0 <= j < |rest| ==> rest[j].z <= rest[k].z
    ensures m < |list| && list[m] == rest[k] && list[m].z + list[m].n <= p
    ensures forall j :: 0 <= j < |list| ==> list[j].z <= list[m].z || p <= list[j].z
  {
    assert rest[k] in rest;
    m :| 0 <= m < |list| && list[m] == rest[k];
    assert forall j :: 0 <= j < |list| ==> list[j] in list;
  }

  // No token reaches across offset i.
  predicate Boundary(list: seq<RenameToken>, i: nat) {
    forall j :: 0 <= j < |list| ==> !(list[j].z < i < list[j].z + list[j].n)
  }

  lemma NextBoundary(text: string, list: seq<RenameToken>, i: nat)
    requires Inside(text, list) && Disjoint(list) && Boundary(list, i)
    ensures var j := TokenAt(list, i); Boundary(list, i + if j < |list| then list[j].n else 1)
  {
    var j := TokenAt(list, i);
    if j < |list| {
      assert forall m :: 0 <= m < |list| && m != j ==> Apart(list[m], list[j]);
    }
  }

  // The result from a boundary on is a tail of the result from an earlier one.
  lemma {:induction false} TailOfResult(text: string, list: seq<RenameToken>, rep: RenameToken -> string, i: nat,
                                        p: nat)
    returns (before: string)
    requires Inside(text, list) && Disjoint(list) && i <= p <= |text| && Boundary(list, i) && Boundary(list, p)
    ensures Replaced(text, list, rep, i) == before + Replaced(text, list, rep, p)
    decreases p - i
  {
    if i == p {
      before := "";
    } else {
      NextBoundary(text, list, i);
      var j := TokenAt(list, i);
      var piece, next := [text[i]], i + 1;
      if j < |list| {
        piece, next := rep(list[j]), i + list[j].n;
      }
      assert Replaced(text, list, rep, i) == piece + Replaced(text, list, rep, next);
      var rest := TailOfResult(text, list, rep, next, p);
      before := piece + rest;
      Regroup(piece, rest, Replaced(text, list, rep, p));
    }
  }

  lemma SameTokenAt(text: string, list: seq<RenameToken>, list': seq<RenameToken>, i: nat)
    requires Inside(text, list) && Inside(text, list') && Disjoint(list')
    requires forall t :: t in list <==> t in list'
    ensures var k, k' := TokenAt(list, i), TokenAt(list', i);
      if k < |list| then k' < |list'| && list'[k'] == list[k] else k' == |list'|
  {
    var k, k' := TokenAt(list, i), TokenAt(list', i);
    if k < |list| {
      assert list[k] in list';
      var j :| 0 <= j < |list'| && list'[j] == list[k];
      OneAt(text, list', j);
    } else {
      assert forall j :: 0 <= j < |list'| ==> list'[j] in list;
    }
  }

  // Only the set of tokens matters, not the order of the list.
  lemma {:induction false} OrderIrrelevant(text: string, list: seq<RenameToken>, list': seq<RenameToken>,
                                           rep: RenameToken -> string, i: nat)
    requires Inside(text, list) && Inside(text, list') && Disjoint(list') && i <= |text|
    requires forall t :: t in list <==> t in list'
    ensures Replaced(text, list, rep, i) == Replaced(text, list', rep, i)
    decreases |text| - i
  {
    if i < |text| {
      SameTokenAt(text, list, list', i);
      var k, k' := TokenAt(list, i), TokenAt(list', i);
      var next := i + if k < |list| then list[k].n else 1;
      OrderIrrelevant(text, list, list', rep, next);
      ReplacedStep(text, list, rep, i, k, next);
      ReplacedStep(text, list', rep, i, k', next);
    }
  }

  lemma ReplacedStep(text: string, list: seq<RenameToken>, rep: RenameToken -> string, i: nat, k: nat, next: nat)
    requires Inside(text, list) && i < |text| && k == TokenAt(list, i)
    requires next == i + (if k < |list| then list[k].n else 1) <= |text|
    ensures Replaced(text, list, rep, i)
      == (if k < |list| then rep(list[k]) else [text[i]]) + Replaced(text, list, rep, next)
  {
  }
}
