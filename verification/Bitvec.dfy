// The bitmap form of a bit vector: one bit per number, eight to a byte.
module BitMasks {
  function Mask(k: nat): bv8
    requires k < 8
  {
    if k == 0 then 1 else if k == 1 then 2 else if k == 2 then 4 else if k == 3 then 8
    else if k == 4 then 16 else if k == 5 then 32 else if k == 6 then 64 else 128
  }

  predicate Bit(b: bv8, k: nat)
    requires k < 8
  {
    b & Mask(k) != 0
  }

  lemma SetOne(b: bv8, k: nat, j: nat)
    requires k < 8 && j < 8
    ensures Bit(b | Mask(k), j) <==> j == k || Bit(b, j)
  {
  }

  lemma ClearOne(b: bv8, k: nat, j: nat)
    requires k < 8 && j < 8
    ensures Bit(b & !Mask(k), j) <==> j != k && Bit(b, j)
  {
  }

  // Bit i of a bitmap.
  predicate Test(a: seq<bv8>, i: nat)
    requires i / 8 < |a|
  {
    Bit(a[i / 8], i % 8)
  }

  // The bitmap holds the numbers in members; number 1 is bit 0.
  ghost predicate Shows(a: seq<bv8>, members: set<nat>) {
    forall i: nat :: i / 8 < |a| ==> (Test(a, i) <==> i + 1 in members)
  }

  lemma SetShows(a: seq<bv8>, members: set<nat>, k: nat)
    requires k / 8 < |a| && Shows(a, members)
    ensures Shows(a[k / 8 := a[k / 8] | Mask(k % 8)], members + {k + 1})
  {
    var a' := a[k / 8 := a[k / 8] | Mask(k % 8)];
    forall i: nat | i / 8 < |a| ensures Test(a', i) <==> i + 1 in members + {k + 1} {
      SetOne(a[k / 8], k % 8, i % 8);
      assert Test(a, i) <==> i + 1 in members;
      SameBit(i, k);
    }
  }

  lemma ClearShows(a: seq<bv8>, members: set<nat>, k: nat)
    requires k / 8 < |a| && Shows(a, members)
    ensures Shows(a[k / 8 := a[k / 8] & !Mask(k % 8)], members - {k + 1})
  {
    var a' := a[k / 8 := a[k / 8] & !Mask(k % 8)];
    forall i: nat | i / 8 < |a| ensures Test(a', i) <==> i + 1 in members - {k + 1} {
      ClearOne(a[k / 8], k % 8, i % 8);
      assert Test(a, i) <==> i + 1 in members;
      SameBit(i, k);
    }
  }

  lemma SameBit(i: nat, k: nat)
    ensures i == k <==> i / 8 == k / 8 && i % 8 == k % 8
  {
  }
}

// Bit vectors: sets of the numbers 1..iSize in three representations.
module Bitvecs {
  import Division
  import BitMasks
  import Sets
  import opened Probing

  const NELEM: nat := 496
  const NBIT: nat := 3968
  const NPTR: nat := 62

  // The number of bits given to each sub-vector.
  function DivisorFor(iSize: nat): (d: nat)
    ensures d >= NBIT
  {
    var d := iSize / NPTR + if iSize % NPTR != 0 then 1 else 0;
    if d < NBIT then NBIT else d
  }

  lemma DivisorShrinks(iSize: nat)
    requires NBIT < iSize
    ensures DivisorFor(iSize) < iSize
  {
  }

  // The sub-vector that number i goes to, and its number there (both from 0).
  function BinOf(i: nat, d: nat): nat
    requires 0 < d
  {
    if i < d then 0 else BinOf(i - d, d) + 1
  }

  function RestOf(i: nat, d: nat): (r: nat)
    requires 0 < d
    ensures r < d
  {
    if i < d then i else RestOf(i - d, d)
  }

  lemma {:induction false} BinByDivision(i: nat, d: nat)
    requires 0 < d
    ensures BinOf(i, d) == i / d && RestOf(i, d) == i % d
    decreases i
  {
    if d <= i {
      BinByDivision(i - d, d);
      Division.DivMod(i - d, d);
      Division.MulStep(d, (i - d) / d);
      Division.Unique(i, d, (i - d) / d + 1, (i - d) % d);
    } else {
      Division.Unique(i, d, 0, i);
    }
  }

  // Every number finds its sub-vector among the NPTR pointers.
  lemma BinInRange(iSize: nat, i: nat)
    requires i < iSize
    ensures BinOf(i, DivisorFor(iSize)) < NPTR
  {
    var d := DivisorFor(iSize);
    assert iSize <= NPTR * d;
    BinByDivision(i, d);
    Division.DivMod(i, d);
    if NPTR <= i / d {
      Division.MulLe(d, NPTR, i / d);
    }
  }

  // Bin and rest determine the number.
  lemma {:induction false} BinUnique(i: nat, j: nat, d: nat)
    requires 0 < d && BinOf(i, d) == BinOf(j, d) && RestOf(i, d) == RestOf(j, d)
    ensures i == j
    decreases i
  {
    if d <= i && d <= j {
      BinUnique(i - d, j - d, d);
    }
  }

  // Number m is in the set of its sub-vector.
  predicate InSub(subs: seq<set<nat>>, d: nat, m: nat)
    requires |subs| == NPTR && 0 < d && 1 <= m
  {
    BinOf(m - 1, d) < NPTR && RestOf(m - 1, d) + 1 in subs[BinOf(m - 1, d)]
  }

  // The sub-vectors' sets make up members.
  ghost predicate Splits(subs: seq<set<nat>>, d: nat, iSize: nat, members: set<nat>) {
    && |subs| == NPTR && 0 < d
    && forall m: nat {:trigger InSub(subs, d, m)} :: 1 <= m <= iSize ==> (m in members <==> InSub(subs, d, m))
  }

  lemma SplitGains(subs: seq<set<nat>>, d: nat, iSize: nat, members: set<nat>, k: nat, bin: nat, r: nat)
    requires Splits(subs, d, iSize, members) && k < iSize && bin == BinOf(k, d) < NPTR && r == RestOf(k, d)
    ensures Splits(subs[bin := subs[bin] + {r + 1}], d, iSize, members + {k + 1})
  {
    var subs' := subs[bin := subs[bin] + {r + 1}];
    forall m: nat {:trigger InSub(subs', d, m)} | 1 <= m <= iSize
      ensures m in members + {k + 1} <==> InSub(subs', d, m)
    {
      assert m in members <==> InSub(subs, d, m);
      if BinOf(m - 1, d) == bin && RestOf(m - 1, d) == r {
        BinUnique(m - 1, k, d);
      }
    }
  }

  lemma SplitLoses(subs: seq<set<nat>>, d: nat, iSize: nat, members: set<nat>, k: nat, bin: nat, r: nat)
    requires Splits(subs, d, iSize, members) && bin == BinOf(k, d) < NPTR && r == RestOf(k, d)
    ensures Splits(subs[bin := subs[bin] - {r + 1}], d, iSize, members - {k + 1})
  {
    var subs' := subs[bin := subs[bin] - {r + 1}];
    forall m: nat {:trigger InSub(subs', d, m)} | 1 <= m <= iSize
      ensures m in members - {k + 1} <==> InSub(subs', d, m)
    {
      assert m in members <==> InSub(subs, d, m);
      if BinOf(m - 1, d) == bin && RestOf(m - 1, d) == r {
        BinUnique(m - 1, k, d);
      }
    }
  }

  // Redirections until a bit vector of iSize numbers is a bitmap.
  function Depth(iSize: nat): nat
    decreases iSize
  {
    if iSize <= NBIT then 0
    else
      DivisorShrinks(iSize);
      1 + Depth(DivisorFor(iSize))
  }

  lemma AtMostFourRedirections(iSize: nat)
    requires iSize < 0x1_0000_0000
    ensures Depth(iSize) <= 4
  {
    DepthBound(iSize, DivisorFor(iSize), 69273667, 3);
  }

  lemma DepthBound(iSize: nat, d: nat, bound: nat, more: nat)
    requires d == DivisorFor(iSize) <= bound
    requires (bound == 69273667 && more == 3) || (bound == 1117318 && more == 2) || (bound == 18022 && more == 1)
             || (bound == NBIT && more == 0)
    ensures Depth(iSize) <= more + 1
    decreases more
  {
    if more > 0 {
      var next := if more == 3 then 1117318 else if more == 2 then 18022 else NBIT;
      DepthBound(d, DivisorFor(d), next, more - 1);
    }
  }

  const U32: nat := 0x1_0000_0000

  // The three arrays share one block of memory in the C structure; only the
  // one that iSize and iDivisor select is in use.
  class Bitvec {
    const iSize: nat
    var nSet: nat
    var iDivisor: nat
    const aBitmap: array<bv8>
    const aHash: array<nat>
    const apSub: array<Bitvec?>
    ghost var Repr: set<object>
    // The numbers whose bits are set.
    ghost var Members: set<nat>

    ghost predicate Own()
      reads this
    {
      && {this, aBitmap, aHash, apSub} <= Repr
      && aBitmap.Length == NELEM && aHash.Length == NINT && apSub.Length == NPTR
      && iSize < U32 && (forall m :: m in Members ==> 1 <= m <= iSize)
    }

    // The set held by sub-vector b; a missing one is empty.
    ghost function SubSet(b: nat): set<nat>
      requires b < NPTR == apSub.Length
      reads this, apSub, apSub[b]
    {
      if apSub[b] == null then {} else apSub[b].Members
    }

    ghost function Subs(n: nat := NPTR): (subs: seq<set<nat>>)
      requires n <= NPTR == apSub.Length && apSub in Repr
      requires forall b :: 0 <= b < NPTR && apSub[b] != null ==> apSub[b] in Repr
      reads this, Repr
      ensures |subs| == n && forall b :: 0 <= b < n ==> subs[b] == SubSet(b)
    {
      if n == 0 then [] else Subs(n - 1) + [SubSet(n - 1)]
    }

    ghost predicate SubOk(b: nat)
      requires b < NPTR == apSub.Length && apSub in Repr && iDivisor < iSize
      reads this, Repr
      decreases iSize, 0
    {
      var sub := apSub[b];
      sub != null ==>
        && sub in Repr && sub.Repr <= Repr && {this, aBitmap, aHash, apSub} !! sub.Repr
        && sub.iSize == iDivisor && sub.Valid()
    }

    ghost predicate SubsDisjoint()
      requires apSub.Length == NPTR && apSub in Repr
      requires forall b :: 0 <= b < NPTR && apSub[b] != null ==> apSub[b] in Repr
      reads this, Repr
    {
      forall b, c :: 0 <= b < c < NPTR && apSub[b] != null && apSub[c] != null ==> apSub[b].Repr !! apSub[c].Repr
    }

    ghost predicate Valid()
      reads this, Repr
      ensures Valid() ==> this in Repr
      decreases iSize, 1
    {
      && Own()
      && if iSize <= NBIT then iDivisor == 0 && BitMasks.Shows(aBitmap[..], Members)
         else if iDivisor == 0 then Holds(aHash[..], Members, nSet)
         else
           && iDivisor == DivisorFor(iSize) < iSize
           && (forall b :: 0 <= b < NPTR && apSub[b] != null ==> apSub[b] in Repr)
           && (forall b {:trigger SubOk(b)} :: 0 <= b < NPTR ==> SubOk(b))
           && SubsDisjoint()
           && Splits(Subs(), iDivisor, iSize, Members)
    }

    // sqlite3BitvecCreate
    constructor (iSize: nat)
      requires iSize < U32
      ensures Valid() && fresh(Repr) && Members == {} && this.iSize == iSize
    {
      this.iSize := iSize;
      nSet, iDivisor := 0, 0;
      aBitmap := new bv8[NELEM](_ => 0);
      aHash := new nat[NINT](_ => 0);
      apSub := new Bitvec?[NPTR](_ => null);
      new;
      Repr := {this, aBitmap, aHash, apSub};
      Members := {};
      EmptyHolds(aHash[..]);
    }

    // The probe loop of a lookup.
    method FindHash(v: nat) returns (found: bool)
      requires aHash.Length == NINT && v > 0 && Holds(aHash[..], Members, nSet)
      ensures found <==> v in Members
    {
      var h: nat := Hash(v);
      ghost var e: nat := EmptySlot(aHash[..], Members, nSet);
      while aHash[h] != 0
        invariant h < NINT && Before(Hash(v), h, e) && Missed(aHash[..], Hash(v), h, v)
        decreases Dist(h, e)
      {
        if aHash[h] == v {
          assert aHash[..][h] == v;
          return true;
        }
        StepsOn(aHash[..], Hash(v), h, e, v);
        h := (h + 1) % NINT;
      }
      NotFound(aHash[..], Members, nSet, v, h);
      return false;
    }

    // Where number k+1 is redirected to.
    lemma Redirected(k: nat)
      requires Valid() && iDivisor != 0 && k < iSize
      ensures var bin, r := BinOf(k, iDivisor), RestOf(k, iDivisor);
        && bin < NPTR && r < iDivisor == DivisorFor(iSize) < iSize
        && (apSub[bin] != null ==>
          SubOk(bin) && apSub[bin] in Repr && apSub[bin].Valid() && apSub[bin].iSize == iDivisor)
        && (k + 1 in Members <==> apSub[bin] != null && r + 1 in apSub[bin].Members)
    {
      BinInRange(iSize, k);
      var bin := BinOf(k, iDivisor);
      assert SubOk(bin);
      assert k + 1 in Members <==> InSub(Subs(), iDivisor, k + 1);
    }

    method TestLeaf(k: nat) returns (set': bool)
      requires Valid() && iDivisor == 0 && k < iSize
      ensures set' <==> k + 1 in Members
    {
      if iSize <= NBIT {
        assert BitMasks.Test(aBitmap[..], k) <==> k + 1 in Members;
        set' := BitMasks.Bit(aBitmap[k / 8], k % 8);
      } else {
        set' := FindHash(k + 1);
      }
    }

    // sqlite3BitvecTestNotNull; i is an unsigned 32-bit number.
    method TestNotNull(i: nat) returns (set': bool)
      requires Valid() && i < U32
      ensures set' <==> i in Members
    {
      var k: nat := if i == 0 then U32 - 1 else i - 1;
      if k >= iSize {
        return false;
      }
      var p: Bitvec := this;
      while p.iDivisor != 0
        invariant p.Valid() && k < p.iSize && (k + 1 in p.Members <==> i in Members)
        decreases p.iSize
      {
        p.Redirected(k);
        BinByDivision(k, p.iDivisor);
        var bin := k / p.iDivisor;
        k := k % p.iDivisor;
        var sub := p.apSub[bin];
        if sub == null {
          return false;
        }
        p := sub;
      }
      set' := p.TestLeaf(k);
    }

    // Sets a bit of a bitmap.
    method SetBitmap(k: nat)
      requires Valid() && iSize <= NBIT && k < iSize
      modifies Repr
      ensures Valid() && Repr == old(Repr) && Members == old(Members) + {k + 1}
    {
      ghost var bits := aBitmap[..];
      BitMasks.SetShows(bits, Members, k);
      aBitmap[k / 8] := aBitmap[k / 8] | BitMasks.Mask(k % 8);
      assert aBitmap[..] == bits[k / 8 := bits[k / 8] | BitMasks.Mask(k % 8)];
      Members := Members + {k + 1};
    }

    method ClearBitmap(k: nat)
      requires Valid() && iSize <= NBIT && k < NBIT
      modifies Repr
      ensures Valid() && Repr == old(Repr) && Members == old(Members) - {k + 1}
    {
      ghost var bits := aBitmap[..];
      BitMasks.ClearShows(bits, Members, k);
      aBitmap[k / 8] := aBitmap[k / 8] & !BitMasks.Mask(k % 8);
      assert aBitmap[..] == bits[k / 8 := bits[k / 8] & !BitMasks.Mask(k % 8)];
      Members := Members - {k + 1};
    }

    // The probe of an insertion: the slot of v, or the first empty slot on its way.
    method Probe(v: nat) returns (h: nat, found: bool)
      requires aHash.Length == NINT && v > 0 && Holds(aHash[..], Members, nSet)
      ensures h < NINT && found == (v in Members)
      ensures !found ==> aHash[h] == 0 && Reaches(aHash[..], Hash(v), h)
    {
      h := Hash(v);
      ghost var e: nat := EmptySlot(aHash[..], Members, nSet);
      while aHash[h] != 0
        invariant h < NINT && Before(Hash(v), h, e) && Missed(aHash[..], Hash(v), h, v)
        invariant Reaches(aHash[..], Hash(v), h)
        decreases Dist(h, e)
      {
        if aHash[h] == v {
          assert aHash[..][h] == v;
          return h, true;
        }
        StepsOn(aHash[..], Hash(v), h, e, v);
        h := h + 1;
        if h >= NINT { h := 0; }
      }
      NotFound(aHash[..], Members, nSet, v, h);
      found := false;
    }

    method Store(h: nat, v: nat)
      requires Valid() && NBIT < iSize && iDivisor == 0 && 1 <= v <= iSize && v !in Members && nSet + 1 < NINT
      requires h < NINT && aHash[h] == 0 && Reaches(aHash[..], Hash(v), h)
      modifies Repr
      ensures Valid() && Repr == old(Repr) && Members == old(Members) + {v} && iDivisor == 0
    {
      Inserted(aHash[..], Members, nSet, v, h);
      ghost var slots := aHash[..];
      nSet := nSet + 1;
      aHash[h] := v;
      assert aHash[..] == slots[h := v];
      Members := Members + {v};
    }

    // Turns a full hash table into an empty set of sub-vectors.
    method Subdivide()
      requires Valid() && NBIT < iSize && iDivisor == 0
      modifies Repr
      ensures Valid() && Repr == old(Repr) && Members == {} && iDivisor == DivisorFor(iSize)
    {
      for b := 0 to NPTR
        invariant forall c :: 0 <= c < b ==> apSub[c] == null
        modifies apSub
      {
        apSub[b] := null;
      }
      iDivisor := iSize / NPTR;
      if iSize % NPTR != 0 { iDivisor := iDivisor + 1; }
      if iDivisor < NBIT { iDivisor := NBIT; }
      DivisorShrinks(iSize);
      Members := {};
      assert forall b :: 0 <= b < NPTR ==> SubOk(b);
      assert Subs() == seq(NPTR, _ => {});
    }

    // sqlite3BitvecSet, when every allocation succeeds.
    method SetBit(i: nat)
      requires Valid() && 1 <= i <= iSize
      modifies Repr
      ensures Valid() && fresh(Repr - old(Repr)) && Members == old(Members) + {i}
      ensures old(iDivisor) != 0 ==> iDivisor == old(iDivisor)
      decreases iSize, if iDivisor == 0 then 3 else 1
    {
      var k := i - 1;
      if iDivisor != 0 {
        SetInSub(k);
      } else if iSize <= NBIT {
        SetBitmap(k);
      } else {
        var h, found := Probe(i);
        if !found {
          var direct := h == Hash(i) && nSet < NINT - 1;
          if !direct && nSet >= MXHASH {
            SetRehashing(i);
          } else {
            Store(h, i);
          }
        }
      }
    }

    // Creates sub-vector bin if there is none.
    method EnsureSub(bin: nat)
      requires Valid() && iDivisor != 0 && bin < NPTR
      modifies Repr
      ensures Valid() && fresh(Repr - old(Repr)) && Members == old(Members) && iDivisor == old(iDivisor)
      ensures apSub[bin] != null
    {
      if apSub[bin] == null {
        var sub := new Bitvec(iDivisor);
        apSub[bin] := sub;
        Repr := Repr + sub.Repr;
        forall b | 0 <= b < NPTR ensures SubOk(b) {
          assert b != bin ==> old(SubOk(b));
        }
        forall b | 0 <= b < NPTR && b != bin && apSub[b] != null ensures apSub[b].Repr !! sub.Repr {
          assert old(SubOk(b));
        }
        assert Subs() == old(Subs());
      }
    }

    // The step down to a sub-vector.
    method SetInSub(k: nat)
      requires Valid() && iDivisor != 0 && k < iSize
      modifies Repr
      ensures Valid() && fresh(Repr - old(Repr)) && Members == old(Members) + {k + 1} && iDivisor == old(iDivisor)
      decreases iSize, 0, 1
    {
      BinByDivision(k, iDivisor);
      Redirected(k);
      EnsureSub(k / iDivisor);
      SetInExistingSub(k, k / iDivisor, k % iDivisor);
    }

    method SetInExistingSub(k: nat, bin: nat, r: nat)
      requires Valid() && iDivisor != 0 && k < iSize && bin < NPTR && apSub[bin] != null
      requires bin == BinOf(k, iDivisor) && r == RestOf(k, iDivisor)
      modifies Repr
      ensures Valid() && fresh(Repr - old(Repr)) && Members == old(Members) + {k + 1} && iDivisor == old(iDivisor)
      decreases iSize, 0, 0
    {
      Redirected(k);
      var sub: Bitvec := apSub[bin];
      sub.SetBit(r + 1);
      Repr := Repr + sub.Repr;
      Members := Members + {k + 1};
      forall b | 0 <= b < NPTR ensures SubOk(b) {
        assert old(SubOk(b));
      }
      assert SubsDisjoint() by {
        forall b, c | 0 <= b < c < NPTR && apSub[b] != null && apSub[c] != null ensures apSub[b].Repr !! apSub[c].Repr {
          assert old(SubOk(b)) && old(SubOk(c));
          assert apSub[b] in old(apSub[b].Repr) && apSub[c] in old(apSub[c].Repr);
        }
      }
      assert Subs() == old(Subs())[bin := old(Subs())[bin] + {r + 1}] by {
        forall b | 0 <= b < NPTR && b != bin ensures SubSet(b) == old(SubSet(b)) {
          assert old(SubOk(b));
        }
      }
      assert Splits(Subs(), iDivisor, iSize, Members) by {
        SplitGains(old(Subs()), iDivisor, iSize, old(Members), k, bin, r);
      }
      assert Valid() by {
        Divided();
      }
    }

    // What makes up a valid vector of sub-vectors.
    lemma Divided()
      requires Own() && NBIT < iSize && 0 < iDivisor == DivisorFor(iSize) < iSize
      requires forall b :: 0 <= b < NPTR && apSub[b] != null ==> apSub[b] in Repr
      requires forall b {:trigger SubOk(b)} :: 0 <= b < NPTR ==> SubOk(b)
      requires SubsDisjoint() && Splits(Subs(), iDivisor, iSize, Members)
      ensures Valid()
    {
    }

    // Subdividing: every value of the table is set again, after the new one.
    method SetRehashing(i: nat)
      requires Valid() && NBIT < iSize && iDivisor == 0 && 1 <= i <= iSize
      modifies Repr
      ensures Valid() && fresh(Repr - old(Repr)) && Members == old(Members) + {i}
      decreases iSize, 2
    {
      ghost var members, n := Members, nSet;
      var aiValues := aHash[..];
      Subdivide();
      SetBit(i);
      for j := 0 to NINT
        invariant Valid() && fresh(Repr - old(Repr)) && iDivisor != 0
        invariant Members == Joined(aiValues[..j], i)
      {
        JoinedStep(aiValues, members, n, i, j);
        if aiValues[j] != 0 {
          SetBit(aiValues[j]);
        }
      }
      AllValues(aiValues, members, n);
    }

    // Rebuilds the hash table without value v.
    method RebuildWithout(v: nat)
      requires Valid() && NBIT < iSize && iDivisor == 0 && 1 <= v
      modifies Repr
      ensures Valid() && Repr == old(Repr) && Members == old(Members) - {v} && iDivisor == 0
    {
      ghost var members, n := Members, nSet;
      var aiValues := aHash[..];
      ClearTable();
      for j := 0 to NINT
        invariant Valid() && Repr == old(Repr) && iDivisor == 0
        invariant Members == Kept(aiValues[..j], v)
      {
        KeptStep(aiValues, members, n, v, j);
        if aiValues[j] != 0 && aiValues[j] != v {
          Reinsert(aiValues[j], members);
        }
      }
      AllValues(aiValues, members, n);
    }

    method Reinsert(w: nat, ghost members: set<nat>)
      requires Valid() && NBIT < iSize && iDivisor == 0 && 1 <= w <= iSize
      requires w !in Members && Members + {w} <= members && |members| < NINT
      modifies Repr
      ensures Valid() && Repr == old(Repr) && Members == old(Members) + {w} && iDivisor == 0
    {
      Sets.SubsetSize(Members + {w}, members);
      var h, found := Probe(w);
      Store(h, w);
    }

    // Empties the hash table.
    method ClearTable()
      requires Valid() && NBIT < iSize && iDivisor == 0
      modifies Repr
      ensures Valid() && Repr == old(Repr) && Members == {} && iDivisor == 0
    {
      for s := 0 to NINT
        invariant forall t :: 0 <= t < s ==> aHash[t] == 0
        modifies aHash
      {
        aHash[s] := 0;
      }
      nSet := 0;
      Members := {};
      EmptyHolds(aHash[..]);
    }

    // The arrays have an element for i, which may be beyond iSize.
    predicate Addresses(i: nat)
      reads this`iDivisor
    {
      && 1 <= i
      && if iDivisor != 0 then BinOf(i - 1, iDivisor) < NPTR else iSize <= NBIT ==> i <= NBIT
    }

    lemma InRangeAddressed(i: nat)
      requires Valid() && 1 <= i <= iSize
      ensures Addresses(i)
    {
      if iDivisor != 0 {
        Redirected(i - 1);
      }
    }

    // sqlite3BitvecClear for a number in range or within the arrays.
    method ClearBit(i: nat)
      requires Valid() && 1 <= i && (i <= iSize || Addresses(i))
      modifies Repr
      ensures Valid() && Repr == old(Repr) && Members == old(Members) - {i} && iDivisor == old(iDivisor)
      decreases iSize
    {
      if i <= iSize {
        InRangeAddressed(i);
      }
      var k := i - 1;
      if iDivisor != 0 {
        ClearInSub(k);
      } else if iSize <= NBIT {
        ClearBitmap(k);
      } else {
        RebuildWithout(i);
      }
    }

    method ClearInSub(k: nat)
      requires Valid() && iDivisor != 0 && BinOf(k, iDivisor) < NPTR
      modifies Repr
      ensures Valid() && Repr == old(Repr) && Members == old(Members) - {k + 1} && iDivisor == old(iDivisor)
      decreases iSize, 0
    {
      assert SubOk(BinOf(k, iDivisor));
      if k < iSize {
        Redirected(k);
      }
      BinByDivision(k, iDivisor);
      var bin := k / iDivisor;
      var r := k % iDivisor;
      if apSub[bin] != null {
        ClearInExistingSub(k, bin, r);
      }
    }

    method ClearInExistingSub(k: nat, bin: nat, r: nat)
      requires Valid() && iDivisor != 0 && bin < NPTR && apSub[bin] != null
      requires bin == BinOf(k, iDivisor) && r == RestOf(k, iDivisor)
      modifies Repr
      ensures Valid() && Repr == old(Repr) && Members == old(Members) - {k + 1} && iDivisor == old(iDivisor)
      decreases iSize, 0, 0
    {
      assert SubOk(bin);
      var sub: Bitvec := apSub[bin];
      sub.ClearBit(r + 1);
      Members := Members - {k + 1};
      forall b | 0 <= b < NPTR ensures SubOk(b) {
        assert old(SubOk(b));
      }
      forall b, c | 0 <= b < c < NPTR && apSub[b] != null && apSub[c] != null ensures apSub[b].Repr !! apSub[c].Repr {
        assert old(SubOk(b)) && old(SubOk(c));
        assert apSub[b] in old(apSub[b].Repr) && apSub[c] in old(apSub[c].Repr);
      }
      SplitLoses(old(Subs()), iDivisor, iSize, old(Members), k, bin, r);
      forall b | 0 <= b < NPTR && b != bin ensures SubSet(b) == old(SubSet(b)) {
        assert old(SubOk(b));
      }
      assert Subs() == old(Subs())[bin := old(Subs())[bin] - {r + 1}];
    }
  }
}
