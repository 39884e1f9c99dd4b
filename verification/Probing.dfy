// The open-addressing table of a bit vector: 124 slots, linear probing, no
// deletion in place.  Slot contents are bit numbers; 0 marks an empty slot.
module Probing {
  import Sets

  const NINT: nat := 124
  const MXHASH: nat := 62

  function Hash(v: nat): nat
    requires v > 0
  {
    (v - 1) % NINT
  }

  // Steps from slot h to slot s, going up and wrapping around.
  function Dist(h: nat, s: nat): nat
    requires h < NINT && s < NINT
  {
    if h <= s then s - h else s + NINT - h
  }

  function Up(h: nat): nat
    requires h < NINT
  {
    if h + 1 >= NINT then 0 else h + 1
  }

  // Probing from slot h reaches slot s without meeting an empty slot.
  predicate Reaches(a: seq<nat>, h: nat, s: nat)
    requires |a| == NINT && h < NINT && s < NINT
  {
    forall t :: 0 <= t < NINT && Dist(h, t) < Dist(h, s) ==> a[t] != 0
  }

  // The table holds exactly the values in members, each once and each reachable
  // from its hash, and has room left.
  predicate Holds(a: seq<nat>, members: set<nat>, nSet: nat)
  {
    && |a| == NINT && |members| == nSet < NINT && 0 !in members
    && (forall s :: 0 <= s < NINT && a[s] != 0 ==> a[s] in members && Reaches(a, Hash(a[s]), s))
    && (forall v :: v in members ==> v in a)
    && (forall s, t :: 0 <= s < t < NINT && a[s] != 0 ==> a[s] != a[t])
  }

  // The slots passed on the way from h0 to h do not hold v.
  predicate Missed(a: seq<nat>, h0: nat, h: nat, v: nat)
    requires |a| == NINT && h0 < NINT && h < NINT
  {
    forall t :: 0 <= t < NINT && Dist(h0, t) < Dist(h0, h) ==> a[t] != v
  }

  function Values(a: seq<nat>): (values: set<nat>)
    ensures forall v :: v in values <==> v != 0 && v in a
  {
    if a == [] then {}
    else Values(a[..|a| - 1]) + if a[|a| - 1] == 0 then {} else {a[|a| - 1]}
  }

  lemma {:induction false} AllOccupied(a: seq<nat>)
    requires forall s :: 0 <= s < |a| ==> a[s] != 0
    requires forall s, t :: 0 <= s < t < |a| ==> a[s] != a[t]
    ensures |Values(a)| == |a|
  {
    if a != [] {
      AllOccupied(a[..|a| - 1]);
      assert a[|a| - 1] !in a[..|a| - 1];
    }
  }

  // A table with room has an empty slot, so every probe stops.
  lemma EmptySlot(a: seq<nat>, members: set<nat>, nSet: nat) returns (e: nat)
    requires Holds(a, members, nSet)
    ensures e < NINT && a[e] == 0
  {
    if forall s :: 0 <= s < NINT ==> a[s] != 0 {
      AllOccupied(a);
      Sets.SubsetSize(Values(a), members);
    }
    e :| e < NINT && a[e] == 0;
  }

  // A value whose probe meets an empty slot is not in the table.
  lemma NotFound(a: seq<nat>, members: set<nat>, nSet: nat, v: nat, h: nat)
    requires Holds(a, members, nSet) && v > 0 && h < NINT && a[h] == 0
    requires Missed(a, Hash(v), h, v)
    ensures v !in members
  {
    if v in members {
      var s :| 0 <= s < NINT && a[s] == v;
    }
  }

  // Filling the empty slot that the probe for v meets.
  lemma Inserted(a: seq<nat>, members: set<nat>, nSet: nat, v: nat, h: nat)
    requires Holds(a, members, nSet) && v > 0 && v !in members && nSet + 1 < NINT
    requires h < NINT && a[h] == 0 && Reaches(a, Hash(v), h)
    ensures Holds(a[h := v], members + {v}, nSet + 1)
  {
    var b := a[h := v];
    forall s | 0 <= s < NINT && b[s] != 0 ensures b[s] in members + {v} && Reaches(b, Hash(b[s]), s) {
      if s != h {
        assert Reaches(a, Hash(a[s]), s);
      }
    }
    forall w | w in members + {v} ensures w in b {
      if w == v {
        assert b[h] == v;
      } else {
        var s :| 0 <= s < NINT && a[s] == w;
        assert b[s] == w;
      }
    }
  }

  lemma EmptyHolds(a: seq<nat>)
    requires |a| == NINT && forall s :: 0 <= s < NINT ==> a[s] == 0
    ensures Holds(a, {}, 0)
  {
  }

  // The next slot is one step further, short of the empty slot e.
  predicate Before(h0: nat, h: nat, e: nat)
    requires h0 < NINT && h < NINT && e < NINT
  {
    Dist(h0, h) <= Dist(h0, e)
  }

  lemma StepsOn(a: seq<nat>, h0: nat, h: nat, e: nat, v: nat)
    requires |a| == NINT && h0 < NINT && h < NINT && e < NINT && a[e] == 0 && a[h] != 0 && Before(h0, h, e)
    ensures Up(h) == (h + 1) % NINT < NINT && Before(h0, Up(h), e) && Dist(Up(h), e) < Dist(h, e)
    ensures Missed(a, h0, h, v) && a[h] != v ==> Missed(a, h0, Up(h), v)
    ensures Reaches(a, h0, h) ==> Reaches(a, h0, Up(h))
  {
  }

  // Slot j adds its value, which does not occur before it.
  lemma ValuesStep(a: seq<nat>, members: set<nat>, nSet: nat, j: nat)
    requires Holds(a, members, nSet) && j < |a|
    ensures Values(a[..j + 1]) == Values(a[..j]) + if a[j] == 0 then {} else {a[j]}
    ensures a[j] != 0 ==> a[j] in members && a[j] !in Values(a[..j])
  {
    assert a[..j + 1] == a[..j] + [a[j]];
  }

  lemma AllValues(a: seq<nat>, members: set<nat>, nSet: nat)
    requires Holds(a, members, nSet)
    ensures Values(a[..NINT]) == members
  {
    assert a[..NINT] == a;
  }

  // The values, and v.
  function Joined(a: seq<nat>, v: nat): set<nat> {
    Values(a) + {v}
  }

  lemma JoinedStep(a: seq<nat>, members: set<nat>, nSet: nat, v: nat, j: nat)
    requires Holds(a, members, nSet) && j < |a|
    ensures Joined(a[..j + 1], v) == if a[j] == 0 then Joined(a[..j], v) else Joined(a[..j], v) + {a[j]}
    ensures a[j] != 0 ==> a[j] in members
  {
    ValuesStep(a, members, nSet, j);
  }

  // The values left when v is taken out.
  function Kept(a: seq<nat>, v: nat): set<nat> {
    Values(a) - {v}
  }

  lemma KeptStep(a: seq<nat>, members: set<nat>, nSet: nat, v: nat, j: nat)
    requires Holds(a, members, nSet) && j < |a|
    ensures Kept(a[..j + 1], v) == Kept(a[..j], v) + if a[j] == 0 || a[j] == v then {} else {a[j]}
    ensures a[j] != 0 ==> a[j] !in Kept(a[..j], v)
    ensures Kept(a[..j + 1], v) <= members
  {
    ValuesStep(a, members, nSet, j);
  }
}
