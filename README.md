# Quantum tree counting: circuit builders

This project models the three classical circuit builders of the QuantumTreeCounting pipeline, and proves what each one produces.

- `create_oracle_from_tree` compiles a fitted decision tree into a boolean oracle.
  - Each root-to-leaf path whose leaf predicts the positive class becomes a term.
  - Each term becomes an X / MCX / X block that flips the flag qubit `num_vars`.
- `get_data_superposition_circuit` thresholds each sample at 0.5 and packs the bits into a basis index. It marks those indices and prepares the normalised state.
- `quantum_counting_circuit` lays out the phase-estimation circuit:
  - state preparation;
  - the diffuser;
  - the Grover iterate;
  - the controlled powers of that iterate;
  - the inverse QFT and the measurement.

## Modules

- `Wrappers`: `Option` and `Result`. Raised exceptions are modelled as `Failure` values.
- `StableSort`: Python's `sorted` with a key, as a stable insertion sort over a total preorder. It carries proofs that the sort permutes its input, orders it, and is stable.
- `Circuits`: gate records for the Qiskit calls the builders make (`X`, `H`, `MCX`, `Append` of an opaque sub-circuit, `Measure`), and a `Circuit` record.
  - `X` and `MCX` get their classical meaning on a basis state, `seq<bool>`: `Run` executes a gate list on that state.
  - `Inverse` is what `.inverse()` does to the gates the diffuser uses.
- `Oracle`: models `create_oracle_from_tree.py`.
  - The tree is the datatype `Tree`. A node whose feature is `TREE_UNDEFINED` is a `Leaf`.
  - Path extraction is the function `Collect`.
  - The emission loop is the method `CreateOracleFromTree`. It appends to a `seq<Gate>` while taking terms out of the set of keys in an unspecified order, recorded in the ghost out-parameter `order`. A key whose mapped literals repeat a qubit makes Qiskit refuse its MCX; the call then returns `Failure(DuplicateQubitArguments)`.
  - The oracle's meaning is proved from the gates: inputs unchanged, flag XOR-ed with the parity of the number of terms the input satisfies. That meaning does not depend on the set's iteration order, and running the oracle twice is the identity.
- `Superposition`: models `get_data_superposition_circuit.py`.
  - The state vector is an `array<real>`, written in place by the marking loop and then by normalisation.
  - Entries hold squared magnitudes, that is, probabilities.
- `Counting`: models `quantum_counting_circuit.py` up to the point where the circuit is handed to the simulator.
  - The builder is the method `QuantumCountingCircuit`, which grows the gate list step by step.
  - It is proved equal to the function `CountingCircuit`, which composes the layout pieces `Initialisation`, `Schedule` and `Readout`.
  - Qiskit's `CircuitError` becomes `Failure(CountingError)`. It is raised for a gate appended on qubits that do not exist, on the wrong number of qubits, or on an empty register: `qc.h(qr_precision)` with no precision qubit (line 77). It is also raised for an MCX with no control qubit: the diffuser's `mcx` when the oracle has one qubit (line 55), which is appended on the target qubit and refused because it has no control. `Diffuser`, `Grover` and `BuildGrover` therefore require an oracle of at least two qubits.

## Model

| member | source | states |
|---|---|---|
| Oracle.QubitMapCovers | create_oracle_from_tree.py:19-21 | `pixel_to_qubit` has exactly the names of `all_feature_names` as keys, maps them below `num_vars`, and gives distinct names distinct qubits |
| Oracle.QubitMapMonotone | create_oracle_from_tree.py:19-20 | a name with a smaller numeric suffix gets a smaller qubit |
| Oracle.QubitMapDense | create_oracle_from_tree.py:19-21 | when the names are distinct, every qubit `0..num_vars-1` is used by some name |
| Oracle.PixelToQubit | create_oracle_from_tree.py:20 | the dictionary comprehension over `enumerate` maps each name to the last position it occupies in the sorted list |
| Oracle.ArgMax | create_oracle_from_tree.py:34 | `np.argmax` returns an index of a maximal class count, before which every count is strictly smaller (the first maximum) |
| Oracle.CollectSound | create_oracle_from_tree.py:24-39 | every key `recurse` adds is the stably name-sorted literal list of some root-to-leaf path whose leaf's argmax is the positive class; left turns add `(name, 0)`, right turns `(name, 1)`, "undefined!" splits add nothing |
| Oracle.CollectComplete | create_oracle_from_tree.py:24-39 | conversely, every positive leaf's path contributes its sorted key |
| Oracle.ConditionSetsSound | create_oracle_from_tree.py:36-39 | each key in `unique_condition_sets` is ordered by name, is a permutation of its path's literals (duplicates kept), and keeps the path order among literals with equal names |
| Oracle.ConditionSetsComplete | create_oracle_from_tree.py:24-39 | each positive path's sorted literal list is in `unique_condition_sets` |
| StableSort.SortByPermutes | create_oracle_from_tree.py:36 | `sorted` neither drops nor adds elements |
| StableSort.SortBySorted | create_oracle_from_tree.py:36 | the result of `sorted` is ordered by the key |
| StableSort.SortByStable | create_oracle_from_tree.py:36 | elements with equal keys keep their input order |
| Oracle.StrLeTransitive | create_oracle_from_tree.py:36 | string comparison by code point is transitive, so `sorted` by name is well defined |
| Oracle.ProjectTerm | create_oracle_from_tree.py:44-52 | the inner loop yields the qubits of the term's mapped literals as controls, and those of its mapped 0-literals as flips, skipping unmapped names |
| Oracle.AppendBlock | create_oracle_from_tree.py:44-59 | one iteration fails iff the term's mapped literals repeat a qubit (Qiskit refuses an MCX with duplicate qubit arguments); otherwise it appends exactly the term's block: nothing when no literal is mapped, otherwise X(flips) when flips exist, MCX(controls, target), X(flips) again |
| Oracle.UnmappedTermSkipped | create_oracle_from_tree.py:46-54 | a term none of whose names is in `pixel_to_qubit` emits no gate |
| Oracle.BlockMeaning | create_oracle_from_tree.py:55-59 | on any basis state, a block with distinct controls leaves qubits `0..num_vars-1` unchanged and flips the target iff the term has a mapped literal and every mapped literal matches |
| Oracle.ControlsSetIffMatches | create_oracle_from_tree.py:51-57 | after the X layer, all controls read 1 iff each mapped literal's qubit holds its required bit |
| Circuits.ConjugatedMcx | create_oracle_from_tree.py:55-59 | X(flips), MCX, X(flips) with flips avoiding the target restores the inputs and toggles the target by the MCX condition seen inside the layer |
| Circuits.FlipAllTwice | create_oracle_from_tree.py:55-59 | the second `qc.x(flip_indices)` undoes the first |
| Oracle.EmitMeaning | create_oracle_from_tree.py:43-59 | the concatenated blocks flip the target once per firing term, in whichever order they were emitted |
| Oracle.OracleComputesParity | create_oracle_from_tree.py:43-59 | the oracle maps `(x, t)` to `(x, t XOR odd(number of terms in the set that fire on x))`, independently of the set's iteration order |
| Oracle.FiredCountIsCardinality | create_oracle_from_tree.py:43 | counting firing terms along any enumeration of the set gives the number of firing terms in the set |
| Oracle.OracleInvolution | create_oracle_from_tree.py:43-59 | running the oracle twice is the identity on every basis state |
| Oracle.EmitShape | create_oracle_from_tree.py:40-59 | every emitted gate is X on qubits below `num_vars`, or MCX with controls below `num_vars` onto target `num_vars` |
| Oracle.CreateOracleFromTree | create_oracle_from_tree.py:8-60 | the call fails iff some key of `unique_condition_sets` repeats a qubit among its mapped literals; otherwise the circuit has `num_vars + 1` qubits, its gates are the blocks of the keys in some enumeration of the set, each of the shape above, and every key has distinct controls, so `OracleComputesParity` and `OracleInvolution` apply to every circuit the call returns; `positive_class_index` defaults to 1 |
| Oracle.RepeatedSplitRefused | create_oracle_from_tree.py:24-57 | a tree that splits `pixel_0` twice on the way to a positive leaf yields the key `[(pixel_0, 1), (pixel_0, 1)]`, whose MCX repeats qubit 0, so the call fails |
| Superposition.Selected | get_data_superposition_circuit.py:8-10 | absent `feature_indices` default to `0..len(data[0])-1`; given ones are used as they are |
| Superposition.SampleIndexBits | get_data_superposition_circuit.py:20-25 | bit `i` of a sample's index is set iff `sample[feature_indices[i]] > 0.5` |
| Superposition.SampleIndexBound | get_data_superposition_circuit.py:20-25 | a sample's index is below `2^num_features` |
| Superposition.PackSample | get_data_superposition_circuit.py:20-25 | the packing loop returns the sample's index, or fails when some feature index is past the sample's end |
| Superposition.MarkedIff | get_data_superposition_circuit.py:19-26 | an index is marked iff some sample packs to it |
| Superposition.SameSamplesSameMarks | get_data_superposition_circuit.py:19-26 | two datasets holding the same samples, in any order and with any repetition, mark the same indices |
| Superposition.MarkSamples | get_data_superposition_circuit.py:16-26 | the marking loop succeeds iff every sample is long enough, and then leaves 1.0 exactly at the marked indices and 0.0 elsewhere |
| Superposition.SquaredNorm | get_data_superposition_circuit.py:29 | computes the sum of the squared magnitudes |
| Superposition.Normalize | get_data_superposition_circuit.py:28-33 | a zero vector gets entry 0 set to 1.0; otherwise every entry becomes its squared magnitude over the squared norm, the probability of the amplitude divided by the norm |
| Superposition.NormalizedMarksAreProbabilities | get_data_superposition_circuit.py:28-33 | for non-empty data the norm is not zero (so the fallback never runs), and after normalisation the vector is the uniform distribution over the marked indices |
| Superposition.ProbabilitiesUniform | get_data_superposition_circuit.py:26-33 | each of the `m` distinct hit indices gets probability `1/m`, every other index 0 |
| Superposition.ProbabilitiesSumToOne | get_data_superposition_circuit.py:28-33 | the probabilities sum to 1 |
| Superposition.SingleSampleConcentrated | get_data_superposition_circuit.py:19-33 | data made of one repeated sample puts all probability on that sample's index, so repetition adds no weight |
| Superposition.GetDataSuperpositionCircuit | get_data_superposition_circuit.py:5-38 | empty data raises `IndexError`; more than 25 features raises `ValueError`; a too-short sample raises `IndexError`; no selected feature makes `StatePreparation` refuse the one-entry vector; otherwise the result is a `num_features`-qubit circuit with one state preparation of the uniform distribution over the hit indices, on all its qubits |
| Counting.DiffuserMirror | quantum_counting_circuit.py:45-62 | the diffuser has `num_oracle_qubits` qubits and 11 gate records, one per Qiskit call (the two X layers each add one instruction per qubit in Qiskit's own list); gate `i` is the inverse of gate `10 - i`; the centre is MCX from `0..n-2` onto `n-1`; the third gate is the state-prep dagger on the state qubits |
| Counting.BuildGrover | quantum_counting_circuit.py:45-74 | for an oracle of at least two qubits (a one-qubit oracle is refused earlier, by `QuantumCountingCircuit`), the method building `diffuser` and `grover_it` returns the oracle on all `num_oracle_qubits` qubits followed by the diffuser on the same qubits |
| Counting.QuantumCountingCircuit | quantum_counting_circuit.py:5-92 | the step-by-step builder, including the `power == 1` branch, produces exactly `CountingCircuit`, failing where Qiskit raises: no oracle qubit, a state register wider than the oracle, a one-qubit oracle, no precision qubit, or an iterate whose width does not match `1 + num_state_qubits + 1` |
| Counting.CountingAccepts | quantum_counting_circuit.py:45-88 | a circuit is built iff there is at least one precision qubit (line 77), the oracle has at least two qubits so the diffuser's `mcx` has a control (lines 48 and 55), and the oracle is one qubit wider than the state register (lines 50 and 83-88) |
| Counting.CountingAccepted | quantum_counting_circuit.py:40-92 | a built circuit is the initialisation, then the controlled-power schedule of the Grover iterate, then the readout |
| Counting.CountingLayout | quantum_counting_circuit.py:7-15 | the circuit has `p + s + 1` qubits and `p` classical bits, and every gate stays within them |
| Counting.CountingOrder | quantum_counting_circuit.py:40-92 | the circuit has `2^p + 5` gate records, one per Qiskit call (the H layer and the measurement each add one instruction per precision qubit in Qiskit's own list): the four initialisation gates come first, the inverse QFT and the measurement last, and a gate is a controlled Grover iterate iff it lies between them |
| Counting.ScheduleLength | quantum_counting_circuit.py:79-88 | the controlled Grover gates total `2^p - 1` |
| Counting.ScheduleControlledBy | quantum_counting_circuit.py:79-88 | precision qubit `j` controls exactly `2^j` Grover gates when `j < p`, and none otherwise |
| Counting.CountingPowers | quantum_counting_circuit.py:79-88 | in the built circuit, precision qubit `j` controls exactly `2^j` Grover gates, each on `[j] + state + [target]`, which has `num_oracle_qubits + 1` distinct qubits |
| Counting.ScheduleOrdered | quantum_counting_circuit.py:79-88 | the controlled Grover gates appear in non-decreasing order of control qubit |
| Counting.ScheduleShape | quantum_counting_circuit.py:82-88 | every scheduled gate is the controlled Grover iterate on `[j] + state + [target]` for some `j` below the loop bound |
| Counting.ControlledQubitsDistinct | quantum_counting_circuit.py:83-88 | `[qr_precision[j]] + list(qr_state) + list(qr_target)` has `s + 2` distinct qubits, all within the circuit |

## Left out

- Simulation (`AerSimulator`, `transpile`, `run(shots=4096)`, `get_counts`, quantum_counting_circuit.py:95-99) is an external, probabilistic service. The model ends with the built circuit, which the source hands to the simulator. No histogram-to-count decoding exists in the source, so none is modelled.
- The `try`/`except` gate-conversion fallback (quantum_counting_circuit.py:20-37) is library error handling. `to_gate()` and `inverse()` are taken to succeed.
- Qiskit internals are opaque gate records: `StatePreparation` synthesis, `QFT`, `.control(1)`, `.to_gate()`, `.inverse()` and the decomposition of `mcx`. So are the unitary meanings of H, the state preparation and the QFT. Only X and MCX get a meaning, their classical action on basis states.
- Superposition.Normalize: returns squared magnitudes (probabilities) instead of amplitudes, so `np.sqrt` and `np.linalg.norm` (get_data_superposition_circuit.py:28-29) become a sum of squares. Dividing a squared magnitude by the squared norm gives the probability. Line 28's `np.sqrt` is not modelled: it changes nothing here only because every entry is 0.0 or 1.0 after the marking loop. Complex dtype and floating-point rounding are not modelled.
- Feature names' numeric suffixes, `int(x.split("_")[1])` (create_oracle_from_tree.py:19), are taken as the function parameter `number`. A name without a numeric suffix, which makes Python raise, is not modelled.
- The sklearn tree arrays (`tree_.feature`, `children_left`, `children_right`, `value`) are replaced by the `Tree` datatype. A leaf is the `TREE_UNDEFINED` case. A split's feature index is below `len(feature_names)`, as for any fitted tree. The tree's argmax is over one output's class counts.
- Feature indices are natural numbers. Python's negative indices into a sample, which count from the end, are not modelled.
- Oracle.BlockMeaning: its meaning is stated for terms whose mapped literals name distinct qubits. That is no loss: a term that tests the same feature twice makes the MCX fail, and `CreateOracleFromTree` then returns a failure, as Qiskit raises.
- Oracle.CreateOracleFromTree: the order in which Python iterates over `unique_condition_sets` is left unspecified. It is the ghost `order`, and the oracle's meaning is proved for every order.
- The source file `sklearn.tree._tree` and the Qiskit library are not part of this model.

## Notes on the source

- The code assigns `state_vector[sample_index] = 1.0` (get_data_superposition_circuit.py:26), so repeated samples add no weight. The model follows the code (`SingleSampleConcentrated`, `SameSamplesSameMarks`).
- A split whose feature name is literally `"undefined!"` is transparent (create_oracle_from_tree.py:27-30): both children get the path unchanged. A real `TREE_UNDEFINED` node is a leaf (line 25).
- Two different orders are used. Line 19 sorts feature names by numeric suffix, for qubit numbering. Line 36 sorts literals by name as strings, lexicographically, for the keys.
- On empty data, `data[0]` raises (get_data_superposition_circuit.py:8). So the `norm == 0` fallback (lines 30-31) is unreachable for accepted input. `Normalize` still models the fallback, and `NormalizedMarksAreProbabilities` shows that it is not taken.
