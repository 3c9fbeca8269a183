/**
 * get_data_superposition_circuit: thresholds each sample's selected features
 * at 0.5, packs the bits least-significant-first into a basis index, marks
 * that index, normalises, and prepares the resulting state on
 * `num_features` qubits.
 *
 * Magnitudes are kept squared, as probabilities over `real`: every marked
 * entry is 1.0, so `np.sqrt` leaves the vector unchanged and dividing by the
 * norm gives each marked index probability 1/m.
 */
module Superposition {
  import opened Wrappers
  import opened Circuits

  /** The simulation ceiling on the number of selected features. */
  const MAX_FEATURES: nat := 25

  datatype EncodeError =
    | IndexError                       // `data[0]` on empty data, or a sample shorter than an index needs
    | TooManyFeatures(count: nat)      // the ValueError of the width check
    | NoQubits                         // StatePreparation of a one-entry vector: its length is not a positive power of 2

  /** The thresholded value `1 if value > 0.5 else 0`. */
  function BitValue(x: real): nat
  {
    if x > 0.5 then 1 else 0
  }

  /** `feature_indices`, defaulting to every column of the first sample. */
  function Selected(data: seq<seq<real>>, featureIndices: Option<seq<nat>>): (fi: seq<nat>)
    requires |data| > 0
    ensures featureIndices.None? ==> fi == Range(0, |data[0]|)
    ensures featureIndices.Some? ==> fi == featureIndices.value
  {
    match featureIndices
    case None => Range(0, |data[0]|)
    case Some(indices) => indices
  }

  /** Every selected index exists in the sample. */
  predicate Covers(sample: seq<real>, fi: seq<nat>)
  {
    forall i :: 0 <= i < |fi| ==> fi[i] < |sample|
  }

  predicate CoversAll(data: seq<seq<real>>, fi: seq<nat>)
  {
    forall t :: 0 <= t < |data| ==> Covers(data[t], fi)
  }

  /** The basis index of a sample: bit `i` is the thresholded value of feature `fi[i]`. */
  function SampleIndex(sample: seq<real>, fi: seq<nat>): nat
    requires Covers(sample, fi)
  {
    if fi == [] then 0 else BitValue(sample[fi[0]]) + 2 * SampleIndex(sample, fi[1..])
  }

  /** Bit `i` of `x`. */
  function BitOf(x: nat, i: nat): nat
  {
    if i == 0 then x % 2 else BitOf(x / 2, i - 1)
  }

  /** Bit `i` of a sample's index is set iff the sample's feature `fi[i]` exceeds 0.5. */
  lemma {:induction false} SampleIndexBits(sample: seq<real>, fi: seq<nat>, i: nat)
    requires Covers(sample, fi) && i < |fi|
    ensures BitOf(SampleIndex(sample, fi), i) == 1 <==> sample[fi[i]] > 0.5
  {
    var rest := SampleIndex(sample, fi[1..]);
    assert (BitValue(sample[fi[0]]) + 2 * rest) % 2 == BitValue(sample[fi[0]]);
    assert (BitValue(sample[fi[0]]) + 2 * rest) / 2 == rest;
    if i > 0 {
      SampleIndexBits(sample, fi[1..], i - 1);
    }
  }

  /** The index fits the `2**num_features` vector. */
  lemma {:induction false} SampleIndexBound(sample: seq<real>, fi: seq<nat>)
    requires Covers(sample, fi)
    ensures SampleIndex(sample, fi) < Pow2(|fi|)
  {
    if fi != [] {
      SampleIndexBound(sample, fi[1..]);
    }
  }

  /** The loop's view: adding the next feature adds its bit at position `|fi|`. */
  lemma {:induction false} SampleIndexSnoc(sample: seq<real>, fi: seq<nat>, k: nat)
    requires Covers(sample, fi) && k < |sample|
    ensures Covers(sample, fi + [k])
    ensures SampleIndex(sample, fi + [k]) == SampleIndex(sample, fi) + BitValue(sample[k]) * Pow2(|fi|)
  {
    if fi != [] {
      assert (fi + [k])[1..] == fi[1..] + [k];
      SampleIndexSnoc(sample, fi[1..], k);
    } else {
      assert ([k])[1..] == [];
    }
  }

  /** The indices marked after the samples of `data` (in order) are processed. */
  function Marked(data: seq<seq<real>>, fi: seq<nat>): set<nat>
    requires CoversAll(data, fi)
  {
    if data == [] then {}
    else Marked(data[..|data| - 1], fi) + {SampleIndex(data[|data| - 1], fi)}
  }

  /** An index is marked iff some sample maps to it: order and repetition do not matter. */
  lemma {:induction false} MarkedIff(data: seq<seq<real>>, fi: seq<nat>, k: nat)
    requires CoversAll(data, fi)
    ensures k in Marked(data, fi) <==> exists t :: 0 <= t < |data| && SampleIndex(data[t], fi) == k
  {
    if data != [] {
      var front := data[..|data| - 1];
      assert forall t :: 0 <= t < |front| ==> front[t] == data[t];
      MarkedIff(front, fi, k);
    }
  }

  lemma {:induction false} MarkedBelow(data: seq<seq<real>>, fi: seq<nat>)
    requires CoversAll(data, fi)
    ensures forall k :: k in Marked(data, fi) ==> k < Pow2(|fi|)
  {
    if data != [] {
      MarkedBelow(data[..|data| - 1], fi);
      SampleIndexBound(data[|data| - 1], fi);
    }
  }

  /** Two datasets holding the same samples, in any order and multiplicity, mark the same indices. */
  lemma SameSamplesSameMarks(data: seq<seq<real>>, other: seq<seq<real>>, fi: seq<nat>)
    requires CoversAll(data, fi) && CoversAll(other, fi)
    requires forall s :: s in data <==> s in other
    ensures Marked(data, fi) == Marked(other, fi)
  {
    forall k ensures k in Marked(data, fi) <==> k in Marked(other, fi) {
      MarkedIff(data, fi, k);
      MarkedIff(other, fi, k);
      if k in Marked(data, fi) {
        var t :| 0 <= t < |data| && SampleIndex(data[t], fi) == k;
        assert data[t] in other;
        var u :| 0 <= u < |other| && other[u] == data[t];
      }
      if k in Marked(other, fi) {
        var u :| 0 <= u < |other| && SampleIndex(other[u], fi) == k;
        assert other[u] in data;
        var t :| 0 <= t < |data| && data[t] == other[u];
      }
    }
  }

  // ---------------------------------------------------------------------
  // Vectors of squared magnitudes.

  /** Entry `k` holds `c` when `k` is in `marks`, else 0. */
  function Spread(marks: set<nat>, n: nat, c: real): (v: seq<real>)
    ensures |v| == n
    ensures forall k :: 0 <= k < n ==> v[k] == if k in marks then c else 0.0
  {
    seq(n, k requires 0 <= k < n => if k in marks then c else 0.0)
  }

  function Sum(v: seq<real>): real
  {
    if v == [] then 0.0 else Sum(v[..|v| - 1]) + v[|v| - 1]
  }

  /** Marked indices below `n`. */
  function Below(marks: set<nat>, n: nat): set<nat>
  {
    set k | k in marks && k < n
  }

  lemma BelowStep(marks: set<nat>, n: nat)
    ensures |Below(marks, n + 1)| == |Below(marks, n)| + (if n in marks then 1 else 0)
  {
    if n in marks {
      assert Below(marks, n + 1) == Below(marks, n) + {n};
    } else {
      assert Below(marks, n + 1) == Below(marks, n);
    }
  }

  lemma {:induction false} SumSpread(marks: set<nat>, n: nat, c: real)
    ensures Sum(Spread(marks, n, c)) == |Below(marks, n)| as real * c
  {
    if n > 0 {
      var v := Spread(marks, n, c);
      SumSpread(marks, n - 1, c);
      assert v[..n - 1] == Spread(marks, n - 1, c);
      assert Sum(v) == Sum(Spread(marks, n - 1, c)) + v[n - 1];
      BelowStep(marks, n - 1);
      var before := |Below(marks, n - 1)| as real;
      if n - 1 in marks {
        assert |Below(marks, n)| as real * c == before * c + c;
      } else {
        assert |Below(marks, n)| as real * c == before * c;
      }
    } else {
      assert Below(marks, 0) == {};
    }
  }

  /** The prepared distribution: uniform over the marked indices. */
  function Probabilities(data: seq<seq<real>>, fi: seq<nat>): (v: seq<real>)
    requires CoversAll(data, fi) && |data| > 0
    ensures |v| == Pow2(|fi|)
  {
    var marks := Marked(data, fi);
    Spread(marks, Pow2(|fi|), 1.0 / |marks| as real)
  }

  lemma MarkedNonEmpty(data: seq<seq<real>>, fi: seq<nat>)
    requires CoversAll(data, fi) && |data| > 0
    ensures |Marked(data, fi)| > 0
  {
    assert SampleIndex(data[|data| - 1], fi) in Marked(data, fi);
  }

  /** The probabilities sum to one. */
  lemma ProbabilitiesSumToOne(data: seq<seq<real>>, fi: seq<nat>)
    requires CoversAll(data, fi) && |data| > 0
    ensures Sum(Probabilities(data, fi)) == 1.0
  {
    MarkedNonEmpty(data, fi);
    MarkedBelow(data, fi);
    UniformSumsToOne(Marked(data, fi), Pow2(|fi|));
  }

  /** Spreading `1/m` over `m` marks below `n` sums to one. */
  lemma UniformSumsToOne(marks: set<nat>, n: nat)
    requires |marks| > 0 && forall k :: k in marks ==> k < n
    ensures Sum(Spread(marks, n, 1.0 / |marks| as real)) == 1.0
  {
    assert Below(marks, n) == marks;
    var count := |marks|;
    var share := 1.0 / count as real;
    SumSpread(marks, n, share);
    ShareTimesCount(count);
  }

  /** `count` shares of `1/count` make one. */
  lemma ShareTimesCount(count: nat)
    requires count > 0
    ensures count as real * (1.0 / count as real) == 1.0
  {
  }

  /** The distinct indices the samples map to. */
  function Hits(data: seq<seq<real>>, fi: seq<nat>): set<nat>
    requires CoversAll(data, fi)
  {
    set t | 0 <= t < |data| :: SampleIndex(data[t], fi)
  }

  lemma MarkedIsHits(data: seq<seq<real>>, fi: seq<nat>)
    requires CoversAll(data, fi)
    ensures Marked(data, fi) == Hits(data, fi)
  {
    forall j ensures j in Marked(data, fi) <==> j in Hits(data, fi) {
      MarkedIff(data, fi, j);
    }
  }

  /**
   * Each of the m distinct indices hit gets probability 1/m and every other
   * index 0; repeated samples add no weight.
   */
  lemma ProbabilitiesUniform(data: seq<seq<real>>, fi: seq<nat>, k: nat)
    requires CoversAll(data, fi) && |data| > 0 && k < Pow2(|fi|)
    ensures |Hits(data, fi)| > 0
    ensures Probabilities(data, fi)[k] == if k in Hits(data, fi) then 1.0 / |Hits(data, fi)| as real else 0.0
  {
    MarkedIsHits(data, fi);
    MarkedNonEmpty(data, fi);
  }

  /** A dataset of one repeated sample puts all the probability on that sample's index. */
  lemma SingleSampleConcentrated(data: seq<seq<real>>, fi: seq<nat>, s: seq<real>)
    requires |data| > 0 && Covers(s, fi)
    requires forall t :: 0 <= t < |data| ==> data[t] == s
    ensures CoversAll(data, fi)
    ensures forall k :: 0 <= k < Pow2(|fi|) ==>
      Probabilities(data, fi)[k] == if k == SampleIndex(s, fi) then 1.0 else 0.0
  {
    forall k ensures k in Marked(data, fi) <==> k == SampleIndex(s, fi) {
      MarkedIff(data, fi, k);
      assert SampleIndex(data[0], fi) == SampleIndex(s, fi);
    }
    assert Marked(data, fi) == {SampleIndex(s, fi)};
  }

  // ---------------------------------------------------------------------
  // The encoder.

  function SumSquares(v: seq<real>): real
  {
    if v == [] then 0.0 else SumSquares(v[..|v| - 1]) + v[|v| - 1] * v[|v| - 1]
  }

  /** On a 0/1 vector the squared norm counts the ones. */
  lemma {:induction false} SumSquaresSpread(marks: set<nat>, n: nat)
    ensures SumSquares(Spread(marks, n, 1.0)) == |Below(marks, n)| as real
  {
    if n > 0 {
      SumSquaresSpread(marks, n - 1);
      assert Spread(marks, n, 1.0)[..n - 1] == Spread(marks, n - 1, 1.0);
      BelowStep(marks, n - 1);
    } else {
      assert Below(marks, 0) == {};
    }
  }

  /** `np.linalg.norm`, squared: the sum of the squared magnitudes. */
  method SquaredNorm(stateVector: array<real>) returns (normSquared: real)
    ensures normSquared == SumSquares(stateVector[..])
  {
    normSquared := 0.0;
    var k := 0;
    while k < stateVector.Length
      invariant 0 <= k <= stateVector.Length
      invariant normSquared == SumSquares(stateVector[..k])
    {
      assert stateVector[..k + 1][..k] == stateVector[..k];
      normSquared := normSquared + stateVector[k] * stateVector[k];
      k := k + 1;
    }
    assert stateVector[..stateVector.Length] == stateVector[..];
  }

  /** The squared magnitude of amplitude `a` once the vector is divided by its norm. */
  function Normalized(a: real, normSquared: real): real
    requires normSquared != 0.0
  {
    a * a / normSquared
  }

  lemma NormalizedMarks(normSquared: real)
    requires normSquared != 0.0
    ensures Normalized(1.0, normSquared) == 1.0 / normSquared
    ensures Normalized(0.0, normSquared) == 0.0
  {
  }

  /**
   * The normalisation step of `get_data_superposition_circuit` on a vector of real amplitudes, kept as squared magnitudes:
   * with a zero norm, entry 0 becomes 1; otherwise every entry becomes its
   * squared magnitude over the squared norm.
   */
  method Normalize(stateVector: array<real>) returns (normSquared: real)
    requires stateVector.Length > 0
    modifies stateVector
    ensures normSquared == SumSquares(old(stateVector[..]))
    ensures normSquared == 0.0 ==> stateVector[..] == old(stateVector[..])[0 := 1.0]
    ensures normSquared != 0.0 ==> forall k :: 0 <= k < stateVector.Length ==>
      stateVector[k] == Normalized(old(stateVector[k]), normSquared)
  {
    normSquared := SquaredNorm(stateVector);
    if normSquared == 0.0 {
      stateVector[0] := 1.0;
    } else {
      ghost var before := stateVector[..];
      var k := 0;
      while k < stateVector.Length
        invariant 0 <= k <= stateVector.Length
        invariant forall j :: 0 <= j < k ==> stateVector[j] == Normalized(before[j], normSquared)
        invariant forall j :: k <= j < stateVector.Length ==> stateVector[j] == before[j]
      {
        stateVector[k] := Normalized(stateVector[k], normSquared);
        k := k + 1;
      }
    }
  }

  /**
   * The inner packing loop of `get_data_superposition_circuit`: `sample_index |= bit_val << i` for each
   * selected feature in turn; `None` where `sample[orig_idx]` raises.
   */
  method PackSample(sample: seq<real>, fi: seq<nat>) returns (r: Option<nat>)
    ensures r.Some? <==> Covers(sample, fi)
    ensures r.Some? ==> r.value == SampleIndex(sample, fi)
  {
    var sampleIndex := 0;
    var i := 0;
    while i < |fi|
      invariant 0 <= i <= |fi|
      invariant Covers(sample, fi[..i])
      invariant sampleIndex == SampleIndex(sample, fi[..i])
    {
      var origIdx := fi[i];
      if origIdx >= |sample| {
        return None;
      }
      var bitVal := if sample[origIdx] > 0.5 then 1 else 0;
      // sampleIndex < 2^i, so OR-ing in bit i adds 2^i.
      SampleIndexBound(sample, fi[..i]);
      SampleIndexSnoc(sample, fi[..i], origIdx);
      assert fi[..i + 1] == fi[..i] + [origIdx];
      sampleIndex := sampleIndex + bitVal * Pow2(i);
      i := i + 1;
    }
    assert fi[..|fi|] == fi;
    return Some(sampleIndex);
  }

  /** The circuit the encoder returns for accepted input. */
  function EncodedCircuit(data: seq<seq<real>>, fi: seq<nat>): Circuit
    requires CoversAll(data, fi) && |data| > 0
  {
    Circuit(|fi|, 0, [Append(Prepare(Probabilities(data, fi)), Range(0, |fi|))])
  }

  /**
   * The marking loop of `get_data_superposition_circuit`: each sample's index entry is set to 1.0; `false`
   * where a sample is too short for a selected index.
   */
  method MarkSamples(data: seq<seq<real>>, fi: seq<nat>, stateVector: array<real>) returns (ok: bool)
    requires stateVector.Length == Pow2(|fi|)
    requires forall k :: 0 <= k < stateVector.Length ==> stateVector[k] == 0.0
    modifies stateVector
    ensures ok <==> CoversAll(data, fi)
    ensures ok ==> stateVector[..] == Spread(Marked(data, fi), Pow2(|fi|), 1.0)
  {
    var t := 0;
    while t < |data|
      invariant 0 <= t <= |data|
      invariant CoversAll(data[..t], fi)
      invariant forall k :: 0 <= k < stateVector.Length ==>
        stateVector[k] == if k in Marked(data[..t], fi) then 1.0 else 0.0
    {
      var sample := data[t];
      var packed := PackSample(sample, fi);
      if packed.None? {
        return false;
      }
      var sampleIndex := packed.value;
      SampleIndexBound(sample, fi);
      stateVector[sampleIndex] := 1.0;
      assert data[..t + 1][..t] == data[..t] && data[..t + 1][t] == sample;
      assert CoversAll(data[..t + 1], fi);
      assert Marked(data[..t + 1], fi) == Marked(data[..t], fi) + {sampleIndex};
      t := t + 1;
    }
    assert data[..|data|] == data;
    return true;
  }

  /** Normalising the 0/1 marks vector yields the uniform distribution over the marks. */
  lemma NormalizedMarksAreProbabilities(data: seq<seq<real>>, fi: seq<nat>, after: seq<real>, normSquared: real)
    requires CoversAll(data, fi) && |data| > 0
    requires normSquared == SumSquares(Spread(Marked(data, fi), Pow2(|fi|), 1.0))
    requires |after| == Pow2(|fi|)
    requires normSquared != 0.0 ==> forall k :: 0 <= k < |after| ==>
      after[k] == Normalized(Spread(Marked(data, fi), Pow2(|fi|), 1.0)[k], normSquared)
    ensures normSquared == |Marked(data, fi)| as real && normSquared != 0.0
    ensures after == Probabilities(data, fi)
  {
    var marks, size := Marked(data, fi), Pow2(|fi|);
    SumSquaresSpread(marks, size);
    MarkedBelow(data, fi);
    assert Below(marks, size) == marks;
    MarkedNonEmpty(data, fi);
    NormalizedMarks(normSquared);
    assert forall k :: 0 <= k < size ==> after[k] == Probabilities(data, fi)[k];
  }

  /**
   * `get_data_superposition_circuit`. Empty data fails at `data[0]`; more
   * than 25 selected features fail the width check; a sample too short for a
   * selected index fails when it is read; with no selected feature the
   * one-entry state vector is refused by the state preparation. Otherwise the
   * circuit prepares, on exactly `num_features` qubits, the uniform distribution over the indices
   * the samples hit.
   */
  method GetDataSuperpositionCircuit(data: seq<seq<real>>, featureIndices: Option<seq<nat>>)
    returns (r: Result<Circuit, EncodeError>)
    ensures |data| == 0 ==> r == Failure(IndexError)
    ensures |data| > 0 ==>
      var fi := Selected(data, featureIndices);
      if |fi| > MAX_FEATURES then r == Failure(TooManyFeatures(|fi|))
      else if !CoversAll(data, fi) then r == Failure(IndexError)
      else if |fi| == 0 then r == Failure(NoQubits)
      else r == Success(EncodedCircuit(data, fi))
  {
    if |data| == 0 {
      return Failure(IndexError);
    }
    var fi := Selected(data, featureIndices);
    var numFeatures := |fi|;
    if numFeatures > MAX_FEATURES {
      return Failure(TooManyFeatures(numFeatures));
    }
    var stateVector := new real[Pow2(numFeatures)](_ => 0.0);
    var ok := MarkSamples(data, fi, stateVector);
    if !ok {
      return Failure(IndexError);
    }
    var normSquared := Normalize(stateVector);
    NormalizedMarksAreProbabilities(data, fi, stateVector[..], normSquared);
    if numFeatures == 0 {
      return Failure(NoQubits);
    }
    var qc := Circuit(numFeatures, 0, [Append(Prepare(stateVector[..]), Range(0, numFeatures))]);
    return Success(qc);
  }
}
