/**
 * Gate records standing for the Qiskit instructions the three builders emit,
 * and the classical basis-state meaning of the two gates the oracle uses.
 *
 * A record stands for one Qiskit call: `qc.x([1, 3])` is `X([1, 3])`, one X
 * on each listed qubit. Gates with no classical meaning (state preparation,
 * oracle, diffuser, controlled Grover, inverse QFT) are opaque records
 * naming the qubits they are appended on.
 */
module Circuits {

  /** Sub-circuits appended as single gates, each naming the circuit it was made from. */
  datatype Op =
    | StatePrep(prep: Circuit)               // state_prep_circuit.to_gate()
    | StatePrepDagger(prep: Circuit)         // state_prep_circuit.inverse().to_gate()
    | OracleOp(oracle: Circuit)              // oracle.to_gate()
    | DiffuserOp(diffuser: Circuit)          // diffuser.to_gate()
    | ControlledGrover(grover: Circuit)      // grover_gate.control(1), control qubit first
    | InverseQFT                             // QFT(p, inverse=True)
    | Prepare(probabilities: seq<real>)      // StatePreparation(state_vector), by squared magnitudes

  datatype Gate =
    | X(qubits: seq<nat>)
    | H(qubits: seq<nat>)
    | MCX(controls: seq<nat>, target: nat)
    | Append(op: Op, qubits: seq<nat>)
    | Measure(qubits: seq<nat>, clbits: seq<nat>)

  /** A QuantumCircuit: its qubit and classical-bit counts and its instructions in order. */
  datatype Circuit = Circuit(numQubits: nat, numClbits: nat, gates: seq<Gate>)

  /** `2**n`. */
  function Pow2(n: nat): (r: nat)
    ensures r >= 1
  {
    if n == 0 then 1 else 2 * Pow2(n - 1)
  }

  /** Python's `range(lo, hi)` as qubit indices. */
  function Range(lo: nat, hi: nat): (r: seq<nat>)
    requires lo <= hi
    ensures |r| == hi - lo
    ensures forall i :: 0 <= i < |r| ==> r[i] == lo + i
  {
    seq(hi - lo, i requires 0 <= i < hi - lo => lo + i)
  }

  predicate NoDuplicates<T(==)>(s: seq<T>)
  {
    forall i, j :: 0 <= i < j < |s| ==> s[i] != s[j]
  }

  predicate Within(qs: seq<nat>, width: nat)
  {
    forall i :: 0 <= i < |qs| ==> qs[i] < width
  }

  /** Every qubit (and classical bit) the gate names exists in a circuit of the given size. */
  predicate GateWithin(g: Gate, width: nat, clbits: nat)
  {
    match g
    case X(qs) => Within(qs, width)
    case H(qs) => Within(qs, width)
    case MCX(cs, t) => Within(cs, width) && t < width
    case Append(_, qs) => Within(qs, width)
    case Measure(qs, cs) => Within(qs, width) && Within(cs, clbits)
  }

  predicate WellFormed(c: Circuit)
  {
    forall i :: 0 <= i < |c.gates| ==> GateWithin(c.gates[i], c.numQubits, c.numClbits)
  }

  // ---------------------------------------------------------------------
  // Inverses, as `.inverse()` produces them.

  predicate HasInverse(g: Gate)
  {
    g.X? || g.H? || g.MCX? || (g.Append? && (g.op.StatePrep? || g.op.StatePrepDagger?))
  }

  /** X, H and MCX are their own inverses; the state preparation pairs with its dagger. */
  function Inverse(g: Gate): Gate
    requires HasInverse(g)
  {
    match g
    case Append(StatePrep(c), qs) => Append(StatePrepDagger(c), qs)
    case Append(StatePrepDagger(c), qs) => Append(StatePrep(c), qs)
    case _ => g
  }

  // ---------------------------------------------------------------------
  // Classical meaning of X and MCX on a basis state (one bool per qubit).

  predicate Classical(g: Gate, width: nat)
  {
    (g.X? && Within(g.qubits, width)) || (g.MCX? && Within(g.controls, width) && g.target < width)
  }

  predicate AllClassical(gates: seq<Gate>, width: nat)
  {
    forall i :: 0 <= i < |gates| ==> Classical(gates[i], width)
  }

  /** One X per listed qubit, in list order. */
  function FlipAll(st: seq<bool>, qs: seq<nat>): (r: seq<bool>)
    requires Within(qs, |st|)
    ensures |r| == |st|
  {
    if qs == [] then st
    else
      var s := FlipAll(st, qs[..|qs| - 1]);
      s[qs[|qs| - 1] := !s[qs[|qs| - 1]]]
  }

  /** Every control qubit holds 1. */
  predicate AllSet(st: seq<bool>, cs: seq<nat>)
    requires Within(cs, |st|)
  {
    forall i :: 0 <= i < |cs| ==> st[cs[i]]
  }

  function ApplyGate(g: Gate, st: seq<bool>): (r: seq<bool>)
    requires Classical(g, |st|)
    ensures |r| == |st|
  {
    if g.X? then FlipAll(st, g.qubits)
    else if AllSet(st, g.controls) then st[g.target := !st[g.target]]
    else st
  }

  function Run(gates: seq<Gate>, st: seq<bool>): (r: seq<bool>)
    requires AllClassical(gates, |st|)
    ensures |r| == |st|
  {
    if gates == [] then st
    else
      var s := Run(gates[..|gates| - 1], st);
      ApplyGate(gates[|gates| - 1], s)
  }

  /** Running `a + b` is running `a`, then `b`. */
  lemma {:induction false} RunConcat(a: seq<Gate>, b: seq<Gate>, st: seq<bool>)
    requires AllClassical(a, |st|) && AllClassical(b, |st|)
    ensures AllClassical(a + b, |st|)
    ensures Run(a + b, st) == Run(b, Run(a, st))
  {
    if b != [] {
      RunConcat(a, b[..|b| - 1], st);
      assert (a + b)[..|a + b| - 1] == a + b[..|b| - 1];
    } else {
      assert a + b == a;
    }
  }

  lemma RunSingle(g: Gate, st: seq<bool>)
    requires Classical(g, |st|)
    ensures AllClassical([g], |st|) && Run([g], st) == ApplyGate(g, st)
  {
    assert [g][..0] == [];
  }

  lemma OddSuccessor(n: nat)
    ensures ((n + 1) % 2 == 1) == !(n % 2 == 1)
  {
  }

  /** Qubit `i` ends up flipped iff it is listed an odd number of times. */
  lemma {:induction false} FlipAllAt(st: seq<bool>, qs: seq<nat>, i: nat)
    requires Within(qs, |st|) && i < |st|
    ensures FlipAll(st, qs)[i] == (st[i] != (multiset(qs)[i] % 2 == 1))
  {
    if qs != [] {
      var front: seq<nat>, last: nat := qs[..|qs| - 1], qs[|qs| - 1];
      FlipAllAt(st, front, i);
      assert qs == front + [last];
      var before := multiset(front)[i];
      if last == i {
        assert multiset(qs)[i] == before + 1;
        assert FlipAll(st, qs)[i] == !FlipAll(st, front)[i];
        OddSuccessor(before);
      } else {
        assert multiset(qs)[i] == before;
        assert FlipAll(st, qs)[i] == FlipAll(st, front)[i];
      }
    }
  }

  lemma FlipAllOutside(st: seq<bool>, qs: seq<nat>, i: nat)
    requires Within(qs, |st|) && i < |st|
    requires forall k :: 0 <= k < |qs| ==> qs[k] != i
    ensures FlipAll(st, qs)[i] == st[i]
  {
    FlipAllAt(st, qs, i);
    assert i !in multiset(qs);
  }

  /** Applying the same X layer twice restores every qubit. */
  lemma FlipAllTwice(st: seq<bool>, qs: seq<nat>)
    requires Within(qs, |st|)
    ensures FlipAll(FlipAll(st, qs), qs) == st
  {
    forall i | 0 <= i < |st| ensures FlipAll(FlipAll(st, qs), qs)[i] == st[i] {
      FlipAllAt(st, qs, i);
      FlipAllAt(FlipAll(st, qs), qs, i);
    }
  }

  /** An X layer that does not touch `t` commutes with setting `t`. */
  lemma FlipAllUpdate(st: seq<bool>, qs: seq<nat>, t: nat, v: bool)
    requires Within(qs, |st|) && t < |st|
    requires forall k :: 0 <= k < |qs| ==> qs[k] != t
    ensures FlipAll(st[t := v], qs) == FlipAll(st, qs)[t := v]
  {
    var lhs, rhs := FlipAll(st[t := v], qs), FlipAll(st, qs)[t := v];
    forall i | 0 <= i < |st| ensures lhs[i] == rhs[i] {
      FlipAllAt(st[t := v], qs, i);
      FlipAllAt(st, qs, i);
      if i == t {
        assert t !in multiset(qs);
      }
    }
  }

  /** An MCX between two copies of an X layer that avoids its target flips the target iff the controls read 1 inside the layer. */
  lemma ConjugatedMcx(st: seq<bool>, flips: seq<nat>, controls: seq<nat>, t: nat)
    requires t < |st| && Within(flips, |st|) && Within(controls, |st|)
    requires forall k :: 0 <= k < |flips| ==> flips[k] != t
    ensures AllClassical([X(flips), MCX(controls, t), X(flips)], |st|)
    ensures Run([X(flips), MCX(controls, t), X(flips)], st)
         == st[t := st[t] != AllSet(FlipAll(st, flips), controls)]
  {
    var layer, mcx := X(flips), MCX(controls, t);
    var s1 := FlipAll(st, flips);
    RunSingle(layer, st);
    var s2 := ApplyGate(mcx, s1);
    RunSingle(mcx, s1);
    RunSingle(layer, s2);
    RunConcat([layer], [mcx], st);
    assert [layer] + [mcx] == [layer, mcx];
    RunConcat([layer, mcx], [layer], st);
    assert [layer, mcx] + [layer] == [layer, mcx, layer];
    FlipAllOutside(st, flips, t);
    FlipAllTwice(st, flips);
    if AllSet(s1, controls) {
      FlipAllUpdate(s1, flips, t, !s1[t]);
    }
  }
}
