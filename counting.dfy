/**
 * quantum_counting_circuit: the phase-estimation circuit around the Grover
 * iterate. Qubits are laid out as the precision register `0..p-1`, the state
 * register `p..p+s-1` and one target qubit `p+s`; `p` classical bits receive
 * the measured precision register.
 *
 * The state preparation, oracle, diffuser, controlled Grover iterate and
 * inverse QFT are opaque gate records carrying the circuit they were made
 * from. Qiskit's rejection of a gate appended on qubits that do not exist,
 * on the wrong number of qubits or on an empty register, and of an MCX with
 * no control qubit, is modelled by `CountingError`.
 */
module Counting {
  import opened Wrappers
  import opened Circuits

  datatype CountingError =
    | NoOracleQubits          // `diffuser.h(num_oracle_qubits - 1)` on a circuit with no qubits
    | StateWiderThanOracle    // `inv_state_prep_gate` appended past the diffuser's last qubit
    | DiffuserWithoutControls // the diffuser's `mcx` of a one-qubit oracle has no control qubit
    | EmptyPrecisionRegister  // `qc.h(qr_precision)` on a register of no qubits
    | GroverWidthMismatch     // the controlled iterate's width differs from `1 + num_state_qubits + 1`

  // ---------------------------------------------------------------------
  // The register layout.

  function PrecisionQubits(p: nat): seq<nat>
  {
    Range(0, p)
  }

  function StateQubits(p: nat, s: nat): seq<nat>
  {
    Range(p, p + s)
  }

  function TargetQubit(p: nat, s: nat): nat
  {
    p + s
  }

  /** The qubits `[qr_precision[j]] + list(qr_state) + list(qr_target)`. */
  function ControlledQubits(j: nat, p: nat, s: nat): seq<nat>
  {
    [j] + StateQubits(p, s) + [TargetQubit(p, s)]
  }

  // ---------------------------------------------------------------------
  // The diffuser and the Grover iterate.

  /** The diffuser on `n` oracle qubits: A-dagger, the reflection, A, each wrapped in X and H on the flag. */
  function Diffuser(n: nat, statePrep: Circuit): Circuit
    requires 2 <= n && statePrep.numQubits <= n
  {
    var s, flag := statePrep.numQubits, n - 1;
    Circuit(n, 0, [
      H([flag]), X([flag]), Append(StatePrepDagger(statePrep), Range(0, s)),
      X(Range(0, n)), H([flag]), MCX(Range(0, flag), flag), H([flag]), X(Range(0, n)),
      Append(StatePrep(statePrep), Range(0, s)), X([flag]), H([flag])
    ])
  }

  /**
   * The diffuser mirrors around its central MCX on controls `0..n-2` and
   * target `n-1`: gate `i` is the inverse of gate `10 - i`, so it is
   * A, then the reflection, then A-dagger, conjugated by X and H on the flag.
   */
  lemma DiffuserMirror(n: nat, statePrep: Circuit)
    requires 2 <= n && statePrep.numQubits <= n
    ensures var d := Diffuser(n, statePrep);
      d.numQubits == n && |d.gates| == 11 && WellFormed(d) &&
      (forall i :: 0 <= i < 11 ==> HasInverse(d.gates[i]) && d.gates[10 - i] == Inverse(d.gates[i])) &&
      d.gates[5] == MCX(Range(0, n - 1), n - 1) &&
      d.gates[2] == Append(StatePrepDagger(statePrep), Range(0, statePrep.numQubits))
  {
  }

  function Grover(oracle: Circuit, statePrep: Circuit): Circuit
    requires 2 <= oracle.numQubits && statePrep.numQubits <= oracle.numQubits
  {
    var n := oracle.numQubits;
    Circuit(n, 0, [
      Append(OracleOp(oracle), Range(0, n)),
      Append(DiffuserOp(Diffuser(n, statePrep)), Range(0, n))
    ])
  }

  /**
   * The Grover iterate, extended with a first argument as its control by
   * `.control(1)`: the gate of the oracle and diffuser named by `oracle` and
   * `statePrep`, which fail to exist when the library rejects them.
   */
  function GroverChecked(oracle: Circuit, statePrep: Circuit): Result<Circuit, CountingError>
  {
    if oracle.numQubits == 0 then Failure(NoOracleQubits)
    else if statePrep.numQubits > oracle.numQubits then Failure(StateWiderThanOracle)
    else if oracle.numQubits == 1 then Failure(DiffuserWithoutControls)
    else Success(Grover(oracle, statePrep))
  }

  // ---------------------------------------------------------------------
  // The phase-estimation schedule.

  /** `count` copies of `g`. */
  function Repeat(g: Gate, count: nat): (r: seq<Gate>)
    ensures |r| == count
    ensures forall i :: 0 <= i < count ==> r[i] == g
  {
    if count == 0 then [] else Repeat(g, count - 1) + [g]
  }

  function ControlledPower(grover: Circuit, j: nat, p: nat, s: nat): Gate
  {
    Append(ControlledGrover(grover), ControlledQubits(j, p, s))
  }

  /** The gates appended for precision qubits `0..k-1`: `2**j` controlled iterates on qubit `j`, in order of `j`. */
  function Schedule(grover: Circuit, p: nat, s: nat, k: nat): seq<Gate>
  {
    if k == 0 then []
    else Schedule(grover, p, s, k - 1) + Repeat(ControlledPower(grover, k - 1, p, s), Pow2(k - 1))
  }

  /** The initialisation: |psi> on the state register, |-> on the target, H on the precision register. */
  function Initialisation(statePrep: Circuit, p: nat): seq<Gate>
  {
    var s := statePrep.numQubits;
    [Append(StatePrep(statePrep), StateQubits(p, s)), X([TargetQubit(p, s)]), H([TargetQubit(p, s)]),
     H(PrecisionQubits(p))]
  }

  /** The inverse QFT on the precision register, then precision qubit `k` measured into bit `k`. */
  function Readout(p: nat): seq<Gate>
  {
    [Append(InverseQFT, PrecisionQubits(p)), Measure(PrecisionQubits(p), Range(0, p))]
  }

  /** The circuit `quantum_counting_circuit` simulates, or the error the library raises while building it. */
  function CountingCircuit(oracle: Circuit, p: nat, statePrep: Circuit): Result<Circuit, CountingError>
  {
    var s := statePrep.numQubits;
    match GroverChecked(oracle, statePrep)
    case Failure(e) => Failure(e)
    case Success(grover) =>
      if p == 0 then Failure(EmptyPrecisionRegister)
      else if oracle.numQubits != s + 1 then Failure(GroverWidthMismatch)
      else Success(Circuit(p + s + 1, p, Initialisation(statePrep, p) + Schedule(grover, p, s, p) + Readout(p)))
  }

  // ---------------------------------------------------------------------
  // The builder.

  /** The diffuser and the Grover iterate, grown gate by gate. */
  method BuildGrover(oracle: Circuit, statePrepCircuit: Circuit) returns (grover: Circuit)
    requires 2 <= oracle.numQubits && statePrepCircuit.numQubits <= oracle.numQubits
    ensures grover == Grover(oracle, statePrepCircuit)
  {
    var n, s := oracle.numQubits, statePrepCircuit.numQubits;
    var diffuser: seq<Gate> := [];
    diffuser := diffuser + [H([n - 1])];
    diffuser := diffuser + [X([n - 1])];
    diffuser := diffuser + [Append(StatePrepDagger(statePrepCircuit), Range(0, s))];
    diffuser := diffuser + [X(Range(0, n))];
    diffuser := diffuser + [H([n - 1])];
    diffuser := diffuser + [MCX(Range(0, n - 1), n - 1)];
    diffuser := diffuser + [H([n - 1])];
    diffuser := diffuser + [X(Range(0, n))];
    diffuser := diffuser + [Append(StatePrep(statePrepCircuit), Range(0, s))];
    diffuser := diffuser + [X([n - 1])];
    diffuser := diffuser + [H([n - 1])];
    assert Circuit(n, 0, diffuser) == Diffuser(n, statePrepCircuit);
    var diffuserGate := DiffuserOp(Circuit(n, 0, diffuser));

    var groverIt: seq<Gate> := [];
    groverIt := groverIt + [Append(OracleOp(oracle), Range(0, n))];
    groverIt := groverIt + [Append(diffuserGate, Range(0, n))];
    grover := Circuit(n, 0, groverIt);
  }

  /**
   * `quantum_counting_circuit` up to the simulation: grows the diffuser, the
   * iterate and the main circuit gate by gate, raising where the library
   * rejects an append.
   */
  method QuantumCountingCircuit(oracle: Circuit, numPrecisionQubits: nat, statePrepCircuit: Circuit)
    returns (r: Result<Circuit, CountingError>)
    ensures r == CountingCircuit(oracle, numPrecisionQubits, statePrepCircuit)
  {
    var p := numPrecisionQubits;
    var s := statePrepCircuit.numQubits;
    var n := oracle.numQubits;
    var target := p + s;

    var qc: seq<Gate> := [];
    qc := qc + [Append(StatePrep(statePrepCircuit), Range(p, p + s))];
    qc := qc + [X([target])];
    qc := qc + [H([target])];

    if n == 0 {
      return Failure(NoOracleQubits);
    }
    if s > n {
      // raised by the diffuser's append of `inv_state_prep_gate`
      return Failure(StateWiderThanOracle);
    }
    if n == 1 {
      // raised by the diffuser's `mcx` with an empty control list
      return Failure(DiffuserWithoutControls);
    }
    var grover := BuildGrover(oracle, statePrepCircuit);

    if p == 0 {
      return Failure(EmptyPrecisionRegister);
    }
    qc := qc + [H(Range(0, p))];
    ghost var init := qc;
    assert init == Initialisation(statePrepCircuit, p);

    for j := 0 to p
      invariant qc == init + Schedule(grover, p, s, j)
      invariant j > 0 ==> n == s + 1
    {
      var power := Pow2(j);
      var qubits := [j] + Range(p, p + s) + [target];
      if n != |qubits| - 1 {
        return Failure(GroverWidthMismatch);
      }
      var ctrlGate := Append(ControlledGrover(grover), qubits);
      assert ctrlGate == ControlledPower(grover, j, p, s);
      if power == 1 {
        qc := qc + [ctrlGate];
        assert [ctrlGate] == Repeat(ctrlGate, power);
      } else {
        for k := 0 to power
          invariant qc == init + Schedule(grover, p, s, j) + Repeat(ctrlGate, k)
        {
          assert Repeat(ctrlGate, k) + [ctrlGate] == Repeat(ctrlGate, k + 1);
          qc := qc + [ctrlGate];
        }
      }
    }

    qc := qc + [Append(InverseQFT, Range(0, p))];
    qc := qc + [Measure(Range(0, p), Range(0, p))];
    assert qc == init + Schedule(grover, p, s, p) + Readout(p);
    return Success(Circuit(p + s + 1, p, qc));
  }

  // ---------------------------------------------------------------------
  // Properties of the circuit.

  /** The precision qubit a controlled iterate is conditioned on: its first qubit. */
  function Control(g: Gate): nat
  {
    if g.Append? && |g.qubits| > 0 then g.qubits[0] else 0
  }

  predicate IsControlledIterate(g: Gate)
  {
    g.Append? && g.op.ControlledGrover?
  }

  /** Precision qubits `0..k-1` control `2**k - 1` iterates in all. */
  lemma {:induction false} ScheduleLength(grover: Circuit, p: nat, s: nat, k: nat)
    ensures |Schedule(grover, p, s, k)| == Pow2(k) - 1
  {
    if k > 0 {
      ScheduleLength(grover, p, s, k - 1);
    }
  }

  /** Every scheduled gate is the controlled iterate on `[j] + state + target` for some `j < k`. */
  lemma {:induction false} ScheduleShape(grover: Circuit, p: nat, s: nat, k: nat)
    ensures forall i :: 0 <= i < |Schedule(grover, p, s, k)| ==>
      Control(Schedule(grover, p, s, k)[i]) < k &&
      Schedule(grover, p, s, k)[i] == ControlledPower(grover, Control(Schedule(grover, p, s, k)[i]), p, s)
  {
    if k > 0 {
      ScheduleShape(grover, p, s, k - 1);
    }
  }

  lemma {:induction false} ScheduleIterates(grover: Circuit, p: nat, s: nat, k: nat)
    ensures forall i :: 0 <= i < |Schedule(grover, p, s, k)| ==> IsControlledIterate(Schedule(grover, p, s, k)[i])
  {
    if k > 0 {
      ScheduleIterates(grover, p, s, k - 1);
    }
  }

  /** The iterates appear in non-decreasing order of their control qubit. */
  lemma {:induction false} ScheduleOrdered(grover: Circuit, p: nat, s: nat, k: nat)
    ensures forall a, b :: 0 <= a <= b < |Schedule(grover, p, s, k)| ==>
      Control(Schedule(grover, p, s, k)[a]) <= Control(Schedule(grover, p, s, k)[b])
  {
    if k > 0 {
      ScheduleOrdered(grover, p, s, k - 1);
      ScheduleShape(grover, p, s, k - 1);
      var front := Schedule(grover, p, s, k - 1);
      var sched := Schedule(grover, p, s, k);
      forall a, b | 0 <= a <= b < |sched|
        ensures Control(sched[a]) <= Control(sched[b])
      {
        if b >= |front| {
          assert Control(sched[b]) == k - 1;
          if a < |front| {
            assert sched[a] == front[a];
          }
        } else {
          assert sched[a] == front[a] && sched[b] == front[b];
        }
      }
    }
  }

  /** The number of controlled iterates in `gates` whose control is precision qubit `j`. */
  function ControlledBy(gates: seq<Gate>, j: nat): nat
  {
    if gates == [] then 0
    else
      var last := gates[|gates| - 1];
      ControlledBy(gates[..|gates| - 1], j) + (if IsControlledIterate(last) && Control(last) == j then 1 else 0)
  }

  lemma {:induction false} ControlledByConcat(a: seq<Gate>, b: seq<Gate>, j: nat)
    ensures ControlledBy(a + b, j) == ControlledBy(a, j) + ControlledBy(b, j)
  {
    if b != [] {
      ControlledByConcat(a, b[..|b| - 1], j);
      assert (a + b)[..|a + b| - 1] == a + b[..|b| - 1];
    } else {
      assert a + b == a;
    }
  }

  lemma {:induction false} NoIterates(gates: seq<Gate>, j: nat)
    requires forall i :: 0 <= i < |gates| ==> !IsControlledIterate(gates[i])
    ensures ControlledBy(gates, j) == 0
  {
    if gates != [] {
      NoIterates(gates[..|gates| - 1], j);
    }
  }

  lemma {:induction false} RepeatControlledBy(g: Gate, count: nat, j: nat)
    ensures ControlledBy(Repeat(g, count), j) == if IsControlledIterate(g) && Control(g) == j then count else 0
  {
    if count > 0 {
      RepeatControlledBy(g, count - 1, j);
      assert Repeat(g, count)[..count - 1] == Repeat(g, count - 1);
    }
  }

  /** The controlled iterate on precision qubit `j` acts on `s + 2` distinct qubits of the circuit. */
  lemma ControlledQubitsDistinct(j: nat, p: nat, s: nat)
    requires j < p
    ensures |ControlledQubits(j, p, s)| == s + 2
    ensures Within(ControlledQubits(j, p, s), p + s + 1)
    ensures NoDuplicates(ControlledQubits(j, p, s))
  {
    var qs := ControlledQubits(j, p, s);
    assert forall i :: 1 <= i <= s ==> qs[i] == p + i - 1;
    assert qs[0] == j && qs[s + 1] == p + s;
  }

  /** Precision qubit `j` controls exactly `2**j` iterates, whichever branch of the loop appended them. */
  lemma {:induction false} ScheduleControlledBy(grover: Circuit, p: nat, s: nat, k: nat, j: nat)
    ensures ControlledBy(Schedule(grover, p, s, k), j) == if j < k then Pow2(j) else 0
  {
    if k > 0 {
      var last := ControlledPower(grover, k - 1, p, s);
      var front, rep := Schedule(grover, p, s, k - 1), Repeat(last, Pow2(k - 1));
      assert Schedule(grover, p, s, k) == front + rep;
      assert IsControlledIterate(last) && Control(last) == k - 1 by {
        assert ControlledQubits(k - 1, p, s)[0] == k - 1;
      }
      ScheduleControlledBy(grover, p, s, k - 1, j);
      RepeatControlledBy(last, Pow2(k - 1), j);
      ControlledByConcat(front, rep, j);
      var before, added := ControlledBy(front, j), ControlledBy(rep, j);
      assert before == if j < k - 1 then Pow2(j) else 0;
      assert added == if j == k - 1 then Pow2(k - 1) else 0;
    } else {
      assert Schedule(grover, p, s, k) == [];
    }
  }

  /**
   * The library accepts exactly a non-empty precision register and an oracle
   * of at least two qubits that is one qubit wider than the state.
   */
  lemma CountingAccepts(oracle: Circuit, p: nat, statePrep: Circuit)
    ensures CountingCircuit(oracle, p, statePrep).Success? <==>
      p > 0 && oracle.numQubits >= 2 && oracle.numQubits == statePrep.numQubits + 1
  {
  }

  /** An accepted circuit is the initialisation, the schedule over all precision qubits, then the readout. */
  lemma CountingAccepted(oracle: Circuit, p: nat, statePrep: Circuit)
    requires CountingCircuit(oracle, p, statePrep).Success?
    ensures p > 0 && oracle.numQubits >= 2 && statePrep.numQubits <= oracle.numQubits
    ensures CountingCircuit(oracle, p, statePrep).value ==
      Circuit(p + statePrep.numQubits + 1, p,
        Initialisation(statePrep, p) + Schedule(Grover(oracle, statePrep), p, statePrep.numQubits, p) + Readout(p))
  {
  }

  /** `p + s + 1` qubits and `p` bits, and every gate acts on qubits and bits of the circuit. */
  lemma CountingLayout(oracle: Circuit, p: nat, statePrep: Circuit)
    requires CountingCircuit(oracle, p, statePrep).Success?
    ensures CountingCircuit(oracle, p, statePrep).value.numQubits == p + statePrep.numQubits + 1
    ensures CountingCircuit(oracle, p, statePrep).value.numClbits == p
    ensures WellFormed(CountingCircuit(oracle, p, statePrep).value)
  {
    CountingAccepted(oracle, p, statePrep);
    var s := statePrep.numQubits;
    var grover := Grover(oracle, statePrep);
    var c := CountingCircuit(oracle, p, statePrep).value;
    var init, sched := Initialisation(statePrep, p), Schedule(grover, p, s, p);
    ScheduleShape(grover, p, s, p);
    forall i | 0 <= i < |c.gates|
      ensures GateWithin(c.gates[i], c.numQubits, c.numClbits)
    {
      if 4 <= i < 4 + |sched| {
        assert c.gates[i] == sched[i - 4];
      }
    }
  }

  /**
   * The initialisation comes first and the readout last; in between are
   * exactly the `2**p - 1` controlled iterates, in non-decreasing order of
   * control, each on distinct qubits, with `2**j` of them on qubit `j`.
   */
  lemma CountingOrder(oracle: Circuit, p: nat, statePrep: Circuit)
    requires CountingCircuit(oracle, p, statePrep).Success?
    ensures var c := CountingCircuit(oracle, p, statePrep).value;
      |c.gates| == Pow2(p) + 5 &&
      c.gates[..4] == Initialisation(statePrep, p) &&
      c.gates[|c.gates| - 2..] == Readout(p) &&
      forall i :: 0 <= i < |c.gates| ==> (IsControlledIterate(c.gates[i]) <==> 4 <= i < |c.gates| - 2)
  {
    CountingAccepted(oracle, p, statePrep);
    var s := statePrep.numQubits;
    var grover := Grover(oracle, statePrep);
    ScheduleLength(grover, p, s, p);
    ScheduleIterates(grover, p, s, p);
    var init := Initialisation(statePrep, p);
    assert |init| == 4;
    assert !IsControlledIterate(init[0]) && !IsControlledIterate(init[1]);
    assert !IsControlledIterate(init[2]) && !IsControlledIterate(init[3]);
    IteratesBetween(Initialisation(statePrep, p), Schedule(grover, p, s, p), Readout(p));
  }

  lemma IteratesBetween(init: seq<Gate>, sched: seq<Gate>, readout: seq<Gate>)
    requires |init| == 4 && |readout| == 2
    requires !IsControlledIterate(init[0]) && !IsControlledIterate(init[1])
    requires !IsControlledIterate(init[2]) && !IsControlledIterate(init[3])
    requires !IsControlledIterate(readout[0]) && !IsControlledIterate(readout[1])
    requires forall i :: 0 <= i < |sched| ==> IsControlledIterate(sched[i])
    ensures var gates := init + sched + readout;
      gates[..4] == init && gates[|gates| - 2..] == readout &&
      forall i :: 0 <= i < |gates| ==> (IsControlledIterate(gates[i]) <==> 4 <= i < |gates| - 2)
  {
    var gates := init + sched + readout;
    forall i | 0 <= i < |gates|
      ensures IsControlledIterate(gates[i]) <==> 4 <= i < |gates| - 2
    {
      if i < 4 {
        assert gates[i] == init[i];
      } else if i < 4 + |sched| {
        assert gates[i] == sched[i - 4];
      } else {
        assert gates[i] == readout[i - 4 - |sched|];
      }
    }
    assert gates[..4] == init;
    assert gates[|gates| - 2..] == readout;
  }

  /** Precision qubit `j` controls `2**j` iterates of the circuit, each on `[j] + state + target` without repeats. */
  lemma CountingPowers(oracle: Circuit, p: nat, statePrep: Circuit, j: nat)
    requires CountingCircuit(oracle, p, statePrep).Success? && j < p
    ensures ControlledBy(CountingCircuit(oracle, p, statePrep).value.gates, j) == Pow2(j)
    ensures NoDuplicates(ControlledQubits(j, p, statePrep.numQubits))
    ensures |ControlledQubits(j, p, statePrep.numQubits)| == oracle.numQubits + 1
  {
    CountingAccepted(oracle, p, statePrep);
    var s := statePrep.numQubits;
    var grover := Grover(oracle, statePrep);
    var init, sched := Initialisation(statePrep, p), Schedule(grover, p, s, p);
    ScheduleControlledBy(grover, p, s, p, j);
    ControlledQubitsDistinct(j, p, s);
    ControlledByConcat(init, sched, j);
    ControlledByConcat(init + sched, Readout(p), j);
    assert !IsControlledIterate(init[0]) && !IsControlledIterate(init[1]);
    assert !IsControlledIterate(init[2]) && !IsControlledIterate(init[3]);
    NoIterates(init, j);
    assert !IsControlledIterate(Readout(p)[0]) && !IsControlledIterate(Readout(p)[1]);
    NoIterates(Readout(p), j);
  }
}
