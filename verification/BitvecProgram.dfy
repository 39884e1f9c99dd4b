// The built-in test of bit vectors: a program of set and clear operations runs
// on a bit vector and on a plain array of bits, and the two are compared.
module BitvecPrograms {
  import opened Bitvecs

  // One bit operation of a program, its operands worked out.  SetInArrayOnly is
  // the deliberate fault.
  datatype Operation = SetBoth(i: nat) | ClearBoth(i: nat) | SetInArrayOnly(i: nat)

  function After(op: Operation, faults: bool, members: set<nat>): set<nat> {
    match op
    case SetBoth(i) => members + {i}
    case ClearBoth(i) => members - {i}
    case SetInArrayOnly(i) => if faults then members + {i} else members
  }

  // The set a program builds.
  function Built(program: seq<Operation>, faults: bool): set<nat> {
    if program == [] then {}
    else After(program[|program| - 1], faults, Built(program[..|program| - 1], faults))
  }

  predicate Sets(op: Operation, faults: bool, i: nat) {
    op == SetBoth(i) || (faults && op == SetInArrayOnly(i))
  }

  // Operation k is the last one that decides about number i, and it sets i.
  predicate LastSets(program: seq<Operation>, faults: bool, i: nat, k: nat) {
    && k < |program| && Sets(program[k], faults, i)
    && forall l :: k < l < |program| ==> program[l] != ClearBoth(i)
  }

  lemma {:induction false} BuiltByLast(program: seq<Operation>, faults: bool, i: nat)
    ensures i in Built(program, faults) <==> exists k: nat :: LastSets(program, faults, i, k)
  {
    if program != [] {
      var n: nat := |program| - 1;
      var before := program[..n];
      BuiltByLast(before, faults, i);
      forall k: nat | k < n && program[n] != ClearBoth(i)
        ensures LastSets(before, faults, i, k) <==> LastSets(program, faults, i, k)
      {
        assert before[k] == program[k];
        assert forall l :: k < l < n ==> before[l] == program[l];
      }
      if Sets(program[n], faults, i) {
        assert LastSets(program, faults, i, n);
      } else if program[n] != ClearBoth(i) && exists k: nat :: LastSets(program, faults, i, k) {
        var k: nat :| LastSets(program, faults, i, k);
        assert k < n;
      }
    }
  }

  lemma BuiltStep(program: seq<Operation>, n: nat, faults: bool)
    requires n < |program|
    ensures Built(program[..n + 1], faults) == After(program[n], faults, Built(program[..n], faults))
  {
    assert program[..n + 1][..n] == program[..n];
  }

  method RunOne(sz: nat, op: Operation, bits: Bitvec, v: array<bool>)
    requires bits.Valid() && bits.iSize == sz && v !in bits.Repr && v.Length == sz + 1 && 1 <= op.i <= sz
    modifies bits.Repr, v
    ensures bits.Valid() && fresh(bits.Repr - old(bits.Repr))
    ensures bits.Members == After(op, false, old(bits.Members))
    ensures forall i :: 0 <= i <= sz && i != op.i ==> v[i] == old(v[i])
    ensures v[op.i] <==> op.i in After(op, true, {})
  {
    v[op.i] := !op.ClearBoth?;
    assert bits.Valid();
    match op
    case SetBoth(i) => bits.SetBit(i);
    case ClearBoth(i) => bits.ClearBit(i);
    case SetInArrayOnly(i) =>
  }

  method RunProgram(sz: nat, program: seq<Operation>, bits: Bitvec, v: array<bool>)
    requires bits.Valid() && bits.iSize == sz && bits.Members == {} && v !in bits.Repr
    requires v.Length == sz + 1 && forall i :: 0 <= i <= sz ==> !v[i]
    requires forall k :: 0 <= k < |program| ==> 1 <= program[k].i <= sz
    modifies bits.Repr, v
    ensures bits.Valid() && fresh(bits.Repr - old(bits.Repr)) && bits.Members == Built(program, false)
    ensures forall i: nat :: i <= sz ==> (v[i] <==> i in Built(program, true))
  {
    for n := 0 to |program|
      invariant bits.Valid() && fresh(bits.Repr - old(bits.Repr)) && v !in bits.Repr
      invariant bits.Members == Built(program[..n], false)
      invariant forall i: nat :: i <= sz ==> (v[i] <==> i in Built(program[..n], true))
    {
      BuiltStep(program, n, false);
      BuiltStep(program, n, true);
      RunOne(sz, program[n], bits, v);
    }
    assert program[..|program|] == program;
  }

  // The comparison that ends the test.
  method Compare(sz: nat, bits: Bitvec, v: array<bool>) returns (rc: nat)
    requires bits.Valid() && bits.iSize == sz < U32 - 1 && v.Length == sz + 1
    ensures rc == 0 <==> forall i: nat :: 1 <= i <= sz ==> (v[i] <==> i in bits.Members)
    ensures rc != 0 ==> rc <= sz && (v[rc] <==> rc !in bits.Members)
    ensures forall i: nat :: 1 <= i < rc ==> (v[i] <==> i in bits.Members)
  {
    var above := bits.TestNotNull(sz + 1);
    var below := bits.TestNotNull(0);
    rc := (if above then 1 else 0) + (if below then 1 else 0) + (bits.iSize - sz);
    for i := 1 to sz + 1
      invariant rc == 0
      invariant forall j: nat :: 1 <= j < i ==> (v[j] <==> j in bits.Members)
    {
      var set' := bits.TestNotNull(i);
      if v[i] != set' {
        return i;
      }
    }
  }

  // sqlite3BitvecBuiltinTest: 0 when the bit vector and the array agree, else
  // the first number on which they differ.
  method BuiltinTest(sz: nat, program: seq<Operation>) returns (rc: nat)
    requires 0 < sz < U32 - 1
    requires forall k :: 0 <= k < |program| ==> 1 <= program[k].i <= sz
    ensures rc == 0 <==> Built(program, false) == Built(program, true)
    ensures rc != 0 ==> rc in Built(program, true) && rc !in Built(program, false)
    ensures forall i: nat :: i < rc ==> (i in Built(program, false) <==> i in Built(program, true))
    ensures (forall k :: 0 <= k < |program| ==> !program[k].SetInArrayOnly?) ==> rc == 0
  {
    var bits := new Bitvec(sz);
    var v := new bool[sz + 1](_ => false);
    RunProgram(sz, program, bits, v);
    rc := Compare(sz, bits, v);
    InRange(sz, program, true);
    InRange(sz, program, false);
    NoFaults(program);
    FaultsAdd(program);
  }

  lemma {:induction false} InRange(sz: nat, program: seq<Operation>, faults: bool)
    requires forall k :: 0 <= k < |program| ==> 1 <= program[k].i <= sz
    ensures forall i :: i in Built(program, faults) ==> 1 <= i <= sz
  {
    if program != [] {
      InRange(sz, program[..|program| - 1], faults);
    }
  }

  lemma {:induction false} NoFaults(program: seq<Operation>)
    ensures (forall k :: 0 <= k < |program| ==> !program[k].SetInArrayOnly?) ==>
      Built(program, false) == Built(program, true)
  {
    if program != [] {
      NoFaults(program[..|program| - 1]);
    }
  }

  lemma {:induction false} FaultsAdd(program: seq<Operation>)
    ensures Built(program, false) <= Built(program, true)
  {
    if program != [] {
      FaultsAdd(program[..|program| - 1]);
    }
  }
}
