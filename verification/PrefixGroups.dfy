// The groups of an index scan.  The scan is described by changes: changes[i]
// is the leftmost column in which row i differs from row i-1 (0 for row 0).
// Rows belong to one j-group when they agree on columns 0..j.
module PrefixGroups {
  // First row of the j-group that holds row x.
  function Start(changes: seq<nat>, x: nat, j: nat): (s: nat)
    requires x < |changes|
    ensures s <= x && (s == 0 || changes[s] <= j)
    ensures forall t :: s < t <= x ==> j < changes[t]
  {
    if x == 0 || changes[x] <= j then x else Start(changes, x - 1, j)
  }

  // One past the last row, so far, of the j-group that holds row x.
  function End(changes: seq<nat>, x: nat, j: nat): (e: nat)
    requires x < |changes|
    ensures x < e <= |changes| && (e == |changes| || changes[e] <= j)
    ensures forall t :: x < t < e ==> j < changes[t]
    decreases |changes| - x
  {
    if x + 1 == |changes| || changes[x + 1] <= j then x + 1 else End(changes, x + 1, j)
  }

  // Number of j-groups before the one that holds row x.
  function Before(changes: seq<nat>, x: nat, j: nat): nat
    requires x < |changes|
  {
    if x == 0 then 0 else Before(changes, x - 1, j) + if changes[x] <= j then 1 else 0
  }

  function Size(changes: seq<nat>, x: nat, j: nat): (n: nat)
    requires x < |changes|
    ensures n > 0
  {
    End(changes, x, j) - Start(changes, x, j)
  }

  // Rows x <= y are in one j-group.
  predicate Together(changes: seq<nat>, x: nat, y: nat, j: nat)
    requires x <= y < |changes|
  {
    Start(changes, y, j) <= x
  }

  lemma TogetherShares(changes: seq<nat>, x: nat, y: nat, j: nat)
    requires x <= y < |changes|
    ensures Together(changes, x, y, j) <==> Start(changes, x, j) == Start(changes, y, j)
    ensures Together(changes, x, y, j) <==> End(changes, x, j) == End(changes, y, j)
    ensures !Together(changes, x, y, j) ==> End(changes, x, j) <= Start(changes, y, j)
  {
  }

  // A longer prefix makes smaller groups.
  lemma Nested(changes: seq<nat>, x: nat, i: nat, j: nat)
    requires x < |changes| && i <= j
    ensures Start(changes, x, i) <= Start(changes, x, j)
    ensures End(changes, x, j) <= End(changes, x, i)
    ensures Size(changes, x, j) <= Size(changes, x, i)
  {
  }

  // One more row leaves the groups of the rows before it as they are, except
  // that it joins some groups of the last row.
  lemma Extended(changes: seq<nat>, v: nat, x: nat, j: nat)
    requires x < |changes|
    ensures Start(changes + [v], x, j) == Start(changes, x, j)
    ensures Before(changes + [v], x, j) == Before(changes, x, j)
    ensures End(changes, x, j) < |changes| || v <= j ==> End(changes + [v], x, j) == End(changes, x, j)
    decreases x
  {
    if x > 0 {
      Extended(changes, v, x - 1, j);
    }
    var longer, e, e' := changes + [v], End(changes, x, j), End(changes + [v], x, j);
    assert forall t :: 0 <= t < |changes| ==> longer[t] == changes[t];
    assert e < e' ==> j < longer[e];
  }

  lemma NewRow(changes: seq<nat>, v: nat, j: nat)
    requires |changes| > 0
    ensures var k := |changes|;
      && Start(changes + [v], k, j) == (if v <= j then k else Start(changes, k - 1, j))
      && Before(changes + [v], k, j) == Before(changes, k - 1, j) + (if v <= j then 1 else 0)
      && End(changes + [v], k, j) == k + 1
  {
    Extended(changes, v, |changes| - 1, j);
  }
}
