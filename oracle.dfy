/**
 * create_oracle_from_tree: from a trained decision tree to a phase-free
 * boolean oracle. The root-to-leaf paths whose leaf predicts the positive
 * class become DNF terms (lists of (feature name, bit) literals), and each
 * term becomes an X / MCX / X block that flips the flag qubit `num_vars`.
 */
module Oracle {
  import opened Wrappers
  import opened Circuits
  import opened StableSort

  /** Name that the source gives to a node whose feature is TREE_UNDEFINED. */
  const UNDEFINED_NAME: string := "undefined!"

  /**
   * A fitted tree. sklearn marks a leaf by the feature index TREE_UNDEFINED;
   * here that node is a `Leaf`, carrying its class-count vector. A `Split`
   * always has a real feature index into the caller's `feature_names`.
   */
  datatype Tree =
    | Leaf(value: seq<real>)
    | Split(feature: nat, left: Tree, right: Tree)

  /** One path condition `(feature_name, required_state)`; `bit` is true for 1. */
  datatype Literal = Literal(name: string, bit: bool)

  /** Qiskit's CircuitError for an MCX whose qubit arguments repeat a qubit. */
  datatype OracleError = DuplicateQubitArguments

  /** What sklearn guarantees of a tree fitted on `numNames` features with at least one class. */
  predicate ValidTree(t: Tree, numNames: nat)
  {
    match t
    case Leaf(value) => |value| > 0
    case Split(f, left, right) => f < numNames && ValidTree(left, numNames) && ValidTree(right, numNames)
  }

  // ---------------------------------------------------------------------
  // Orders used by the two `sorted` calls.

  /** Python's `<=` on strings: lexicographic by code point. */
  predicate StrLe(a: string, b: string)
  {
    if a == [] then true
    else if b == [] then false
    else a[0] < b[0] || (a[0] == b[0] && StrLe(a[1..], b[1..]))
  }

  lemma {:induction false} StrLeTotal(a: string, b: string)
    ensures StrLe(a, b) || StrLe(b, a)
  {
    if a != [] && b != [] && a[0] == b[0] {
      StrLeTotal(a[1..], b[1..]);
    }
  }

  lemma {:induction false} StrLeTransitive(a: string, b: string, c: string)
    requires StrLe(a, b) && StrLe(b, c)
    ensures StrLe(a, c)
  {
    if a != [] && b != [] && c != [] && a[0] == b[0] == c[0] {
      StrLeTransitive(a[1..], b[1..], c[1..]);
    }
  }

  /** `key=lambda x: x[0]` at the path-key sort. */
  function ByName(): (Literal, Literal) -> bool
  {
    (a: Literal, b: Literal) => StrLe(a.name, b.name)
  }

  /** `key=lambda x: int(x.split("_")[1])`, with the parsed suffix given as `number`. */
  function ByNumber(number: string -> int): (string, string) -> bool
  {
    (a: string, b: string) => number(a) <= number(b)
  }

  lemma ByNameTotalPreorder()
    ensures TotalPreorder(ByName())
  {
    forall a: Literal, b: Literal ensures ByName()(a, b) || ByName()(b, a) {
      StrLeTotal(a.name, b.name);
    }
    forall a: Literal, b: Literal, c: Literal | ByName()(a, b) && ByName()(b, c)
      ensures ByName()(a, c)
    {
      StrLeTransitive(a.name, b.name, c.name);
    }
  }

  lemma ByNumberTotalPreorder(number: string -> int)
    ensures TotalPreorder(ByNumber(number))
  {
  }

  // ---------------------------------------------------------------------
  // Feature name -> qubit index.

  /**
   * `{name: i for i, name in enumerate(sorted_features)}`: a later duplicate
   * overwrites an earlier one, so each name maps to its last position.
   */
  function PixelToQubit(sorted: seq<string>): (m: map<string, nat>)
    ensures forall name :: name in m <==> name in sorted
    ensures forall name :: name in m ==> m[name] < |sorted| && sorted[m[name]] == name
    ensures forall name, j :: name in m && m[name] < j < |sorted| ==> sorted[j] != name
  {
    if sorted == [] then map[]
    else
      var front := sorted[..|sorted| - 1];
      assert sorted == front + [sorted[|sorted| - 1]];
      PixelToQubit(front)[sorted[|sorted| - 1] := |sorted| - 1]
  }

  /** `pixel_to_qubit`, built from the caller's `all_feature_names`. */
  function QubitMap(allFeatureNames: seq<string>, number: string -> int): map<string, nat>
  {
    PixelToQubit(SortBy(allFeatureNames, ByNumber(number)))
  }

  /** The map covers exactly the given names, sends them below `num_vars` and is injective. */
  lemma QubitMapCovers(allFeatureNames: seq<string>, number: string -> int)
    ensures var m := QubitMap(allFeatureNames, number);
      (forall name :: name in m <==> name in allFeatureNames) &&
      (forall name :: name in m ==> m[name] < |allFeatureNames|) &&
      (forall a, b :: a in m && b in m && a != b ==> m[a] != m[b])
  {
    var sorted := SortBy(allFeatureNames, ByNumber(number));
    SortByPermutes(allFeatureNames, ByNumber(number));
    forall name ensures name in sorted <==> name in allFeatureNames {
      assert name in sorted <==> name in multiset(sorted);
      assert name in allFeatureNames <==> name in multiset(allFeatureNames);
    }
  }

  /** Qubit order follows the numeric suffix of the feature names. */
  lemma QubitMapMonotone(allFeatureNames: seq<string>, number: string -> int)
    ensures var m := QubitMap(allFeatureNames, number);
      forall a, b :: a in m && b in m && number(a) < number(b) ==> m[a] < m[b]
  {
    var sorted := SortBy(allFeatureNames, ByNumber(number));
    var m := PixelToQubit(sorted);
    ByNumberTotalPreorder(number);
    SortBySorted(allFeatureNames, ByNumber(number));
    assert Sorted(sorted, ByNumber(number));
  }

  /** With distinct names, every qubit 0..num_vars-1 is some name's qubit. */
  lemma QubitMapDense(allFeatureNames: seq<string>, number: string -> int)
    requires NoDuplicates(allFeatureNames)
    ensures var m := QubitMap(allFeatureNames, number);
      forall q :: 0 <= q < |allFeatureNames| ==> q in m.Values
  {
    var sorted := SortBy(allFeatureNames, ByNumber(number));
    var m := PixelToQubit(sorted);
    SortByPermutes(allFeatureNames, ByNumber(number));
    NoDuplicatesPermutation(allFeatureNames, sorted);
    forall q | 0 <= q < |allFeatureNames| ensures q in m.Values {
      var name := sorted[q];
      assert name in m;
      assert sorted[m[name]] == name;
      assert m[name] == q;
    }
  }

  lemma {:induction false} NoDuplicatesCount<T>(s: seq<T>, x: T)
    requires NoDuplicates(s)
    ensures multiset(s)[x] <= 1
  {
    if s != [] {
      NoDuplicatesCount(s[1..], x);
      assert s == [s[0]] + s[1..];
      assert s[0] !in s[1..];
    }
  }

  lemma NoDuplicatesPermutation<T>(s: seq<T>, r: seq<T>)
    requires multiset(s) == multiset(r) && NoDuplicates(s)
    ensures NoDuplicates(r)
  {
    forall i, j | 0 <= i < j < |r| ensures r[i] != r[j] {
      NoDuplicatesCount(s, r[i]);
      assert r == r[..i] + [r[i]] + r[i + 1..j] + [r[j]] + r[j + 1..];
    }
  }

  // ---------------------------------------------------------------------
  // Path extraction (the nested `recurse`).

  /** `np.argmax`: the first index holding the largest class count. */
  function ArgMax(v: seq<real>): (k: nat)
    requires |v| > 0
    ensures k < |v|
    ensures forall j :: 0 <= j < |v| ==> v[j] <= v[k]
    ensures forall j :: 0 <= j < k ==> v[j] < v[k]
  {
    if |v| == 1 then 0
    else
      var k := ArgMax(v[..|v| - 1]);
      if v[|v| - 1] > v[k] then |v| - 1 else k
  }

  /**
   * `recurse(node, path_conditions)`: the keys this subtree adds to
   * `unique_condition_sets`. A split whose feature name is literally
   * "undefined!" passes the path through unchanged to both children.
   */
  function Collect(t: Tree, names: seq<string>, positive: int, path: seq<Literal>): set<seq<Literal>>
    requires ValidTree(t, |names|)
  {
    match t
    case Leaf(value) =>
      if ArgMax(value) == positive then {SortBy(path, ByName())} else {}
    case Split(f, left, right) =>
      var name := names[f];
      if name == UNDEFINED_NAME then
        Collect(left, names, positive, path) + Collect(right, names, positive, path)
      else
        Collect(left, names, positive, path + [Literal(name, false)])
        + Collect(right, names, positive, path + [Literal(name, true)])
  }

  /** `unique_condition_sets` after `recurse(0, [])`. */
  function ConditionSets(t: Tree, names: seq<string>, positive: int): set<seq<Literal>>
    requires ValidTree(t, |names|)
  {
    Collect(t, names, positive, [])
  }

  // Reference view of the tree: a path is the list of turns taken (true = right).

  predicate LeafPath(t: Tree, dirs: seq<bool>)
  {
    match t
    case Leaf(_) => dirs == []
    case Split(_, left, right) => dirs != [] && LeafPath(if dirs[0] then right else left, dirs[1..])
  }

  /** Class counts of the leaf a path reaches. */
  function LeafValue(t: Tree, dirs: seq<bool>): seq<real>
    requires LeafPath(t, dirs)
  {
    match t
    case Leaf(value) => value
    case Split(_, left, right) => LeafValue(if dirs[0] then right else left, dirs[1..])
  }

  /** The literals a path passes: one per split, `(name, turn)`, except at "undefined!" splits. */
  function PathConditions(t: Tree, names: seq<string>, dirs: seq<bool>): seq<Literal>
    requires ValidTree(t, |names|) && LeafPath(t, dirs)
  {
    match t
    case Leaf(_) => []
    case Split(f, left, right) =>
      var rest := PathConditions(if dirs[0] then right else left, names, dirs[1..]);
      if names[f] == UNDEFINED_NAME then rest else [Literal(names[f], dirs[0])] + rest
  }

  lemma {:induction false} LeafValueNonEmpty(t: Tree, n: nat, dirs: seq<bool>)
    requires ValidTree(t, n) && LeafPath(t, dirs)
    ensures |LeafValue(t, dirs)| > 0
  {
    match t
    case Leaf(_) =>
    case Split(_, left, right) => LeafValueNonEmpty(if dirs[0] then right else left, n, dirs[1..]);
  }

  /** A leaf predicts the positive class by its first maximal count. */
  predicate PositivePath(t: Tree, names: seq<string>, positive: int, dirs: seq<bool>)
    requires ValidTree(t, |names|)
  {
    LeafPath(t, dirs) && (LeafValueNonEmpty(t, |names|, dirs); ArgMax(LeafValue(t, dirs)) == positive)
  }

  /** The child subtree a turn leads to. */
  function Child(t: Tree, dir: bool): Tree
    requires t.Split?
  {
    if dir then t.right else t.left
  }

  /** The path handed to the child a turn leads to. */
  function ChildPath(t: Tree, names: seq<string>, path: seq<Literal>, dir: bool): seq<Literal>
    requires ValidTree(t, |names|) && t.Split?
  {
    if names[t.feature] == UNDEFINED_NAME then path else path + [Literal(names[t.feature], dir)]
  }

  /** Taking one turn at a split and then a positive path of the child is a positive path of the split. */
  lemma TurnStep(t: Tree, names: seq<string>, positive: int, path: seq<Literal>, dir: bool, d: seq<bool>)
    requires ValidTree(t, |names|) && t.Split?
    requires PositivePath(Child(t, dir), names, positive, d)
    ensures PositivePath(t, names, positive, [dir] + d)
    ensures path + PathConditions(t, names, [dir] + d)
         == ChildPath(t, names, path, dir) + PathConditions(Child(t, dir), names, d)
  {
    var dirs := [dir] + d;
    assert dirs[0] == dir && dirs[1..] == d;
    var rest := PathConditions(Child(t, dir), names, d);
    if names[t.feature] != UNDEFINED_NAME {
      assert path + ([Literal(names[t.feature], dir)] + rest) == path + [Literal(names[t.feature], dir)] + rest;
    }
  }

  /** Every collected key is the sorted condition list of some positive leaf's path. */
  lemma {:induction false} CollectSound(t: Tree, names: seq<string>, positive: int, path: seq<Literal>,
                                        key: seq<Literal>)
    returns (dirs: seq<bool>)
    requires ValidTree(t, |names|)
    requires key in Collect(t, names, positive, path)
    ensures PositivePath(t, names, positive, dirs)
    ensures key == SortBy(path + PathConditions(t, names, dirs), ByName())
  {
    match t
    case Leaf(_) =>
      dirs := [];
      assert path + [] == path;
    case Split(f, left, right) =>
      var dir := key !in Collect(left, names, positive, ChildPath(t, names, path, false));
      var d := CollectSound(Child(t, dir), names, positive, ChildPath(t, names, path, dir), key);
      TurnStep(t, names, positive, path, dir, d);
      dirs := [dir] + d;
  }

  /** Every positive leaf's sorted condition list is collected. */
  lemma {:induction false} CollectComplete(t: Tree, names: seq<string>, positive: int, path: seq<Literal>,
                                           dirs: seq<bool>)
    requires ValidTree(t, |names|)
    requires PositivePath(t, names, positive, dirs)
    ensures SortBy(path + PathConditions(t, names, dirs), ByName()) in Collect(t, names, positive, path)
  {
    match t
    case Leaf(_) =>
      assert path + [] == path;
    case Split(_, _, _) =>
      var dir, d := dirs[0], dirs[1..];
      assert dirs == [dir] + d;
      LeafValueNonEmpty(Child(t, dir), |names|, d);
      CollectComplete(Child(t, dir), names, positive, ChildPath(t, names, path, dir), d);
      TurnStep(t, names, positive, path, dir, d);
  }

  /**
   * Soundness of `unique_condition_sets`: each key comes from a positive leaf,
   * is sorted by feature name, and holds that path's literals with every
   * duplicate kept, in their path order among equal names.
   */
  lemma ConditionSetsSound(t: Tree, names: seq<string>, positive: int, key: seq<Literal>)
    returns (dirs: seq<bool>)
    requires ValidTree(t, |names|)
    requires key in ConditionSets(t, names, positive)
    ensures PositivePath(t, names, positive, dirs)
    ensures Sorted(key, ByName())
    ensures multiset(key) == multiset(PathConditions(t, names, dirs))
    ensures forall x :: EqualKeys(key, ByName(), x) == EqualKeys(PathConditions(t, names, dirs), ByName(), x)
  {
    dirs := CollectSound(t, names, positive, [], key);
    var conds := PathConditions(t, names, dirs);
    assert [] + conds == conds;
    ByNameTotalPreorder();
    SortBySorted(conds, ByName());
    SortByPermutes(conds, ByName());
    forall x ensures EqualKeys(key, ByName(), x) == EqualKeys(conds, ByName(), x) {
      SortByStable(conds, ByName(), x);
    }
  }

  /** Completeness: every positive leaf contributes the sorted list of its path's literals. */
  lemma ConditionSetsComplete(t: Tree, names: seq<string>, positive: int, dirs: seq<bool>)
    requires ValidTree(t, |names|)
    requires PositivePath(t, names, positive, dirs)
    ensures SortBy(PathConditions(t, names, dirs), ByName()) in ConditionSets(t, names, positive)
  {
    CollectComplete(t, names, positive, [], dirs);
    assert [] + PathConditions(t, names, dirs) == PathConditions(t, names, dirs);
  }

  // ---------------------------------------------------------------------
  // Oracle emission.

  /** Every qubit the map hands out lies below `numVars`. */
  predicate QubitsBelow(p2q: map<string, nat>, numVars: nat)
  {
    forall name :: name in p2q ==> p2q[name] < numVars
  }

  /** `control_indices`: one qubit per literal whose feature is in the map, in term order. */
  function Controls(term: seq<Literal>, p2q: map<string, nat>): seq<nat>
  {
    if term == [] then []
    else
      var lit := term[|term| - 1];
      Controls(term[..|term| - 1], p2q) + (if lit.name in p2q then [p2q[lit.name]] else [])
  }

  /** `flip_indices`: the qubits of the projected literals that require 0. */
  function Flips(term: seq<Literal>, p2q: map<string, nat>): seq<nat>
  {
    if term == [] then []
    else
      var lit := term[|term| - 1];
      Flips(term[..|term| - 1], p2q) + (if lit.name in p2q && !lit.bit then [p2q[lit.name]] else [])
  }

  /** The gates one term adds: nothing when no literal survives projection. */
  function Block(term: seq<Literal>, p2q: map<string, nat>, target: nat): seq<Gate>
  {
    var controls, flips := Controls(term, p2q), Flips(term, p2q);
    if controls == [] then []
    else
      var layer := if flips != [] then [X(flips)] else [];
      layer + [MCX(controls, target)] + layer
  }

  /** The oracle's gate list when the terms are visited in the order given. */
  function Emit(order: seq<seq<Literal>>, p2q: map<string, nat>, target: nat): seq<Gate>
  {
    if order == [] then []
    else Emit(order[..|order| - 1], p2q, target) + Block(order[|order| - 1], p2q, target)
  }

  /** Every projected literal of `term` holds in the basis state `st`. */
  predicate Matches(term: seq<Literal>, p2q: map<string, nat>, st: seq<bool>)
    requires QubitsBelow(p2q, |st|)
  {
    forall i :: 0 <= i < |term| && term[i].name in p2q ==> st[p2q[term[i].name]] == term[i].bit
  }

  /** The term's block flips the flag on `st`: it has a control, and every projected literal holds. */
  predicate Fires(term: seq<Literal>, p2q: map<string, nat>, st: seq<bool>)
    requires QubitsBelow(p2q, |st|)
  {
    Controls(term, p2q) != [] && Matches(term, p2q, st)
  }

  lemma {:induction false} ControlsWithin(term: seq<Literal>, p2q: map<string, nat>, n: nat)
    requires QubitsBelow(p2q, n)
    ensures Within(Controls(term, p2q), n) && Within(Flips(term, p2q), n)
    ensures forall i :: 0 <= i < |Flips(term, p2q)| ==> Flips(term, p2q)[i] in Controls(term, p2q)
  {
    if term != [] {
      ControlsWithin(term[..|term| - 1], p2q, n);
    }
  }

  lemma MatchesSnoc(term: seq<Literal>, p2q: map<string, nat>, st: seq<bool>)
    requires QubitsBelow(p2q, |st|) && term != []
    ensures var front, lit := term[..|term| - 1], term[|term| - 1];
      Matches(term, p2q, st)
      <==> Matches(front, p2q, st) && (lit.name in p2q ==> st[p2q[lit.name]] == lit.bit)
  {
    assert forall i :: 0 <= i < |term| - 1 ==> term[..|term| - 1][i] == term[i];
  }

  lemma AllSetSnoc(st: seq<bool>, cs: seq<nat>, q: nat)
    requires Within(cs, |st|) && q < |st|
    ensures Within(cs + [q], |st|)
    ensures AllSet(st, cs + [q]) <==> AllSet(st, cs) && st[q]
  {
    var t := cs + [q];
    if AllSet(st, cs) && st[q] {
      forall i | 0 <= i < |t| ensures st[t[i]] {
        if i < |cs| { assert t[i] == cs[i]; }
      }
    }
    if AllSet(st, t) {
      assert st[t[|cs|]];
      forall i | 0 <= i < |cs| ensures st[cs[i]] {
        assert st[t[i]];
      }
    }
  }

  lemma AllSetUnaffected(st: seq<bool>, cs: seq<nat>, q: nat, v: bool)
    requires Within(cs, |st|) && q < |st|
    requires forall i :: 0 <= i < |cs| ==> cs[i] != q
    ensures AllSet(st[q := v], cs) <==> AllSet(st, cs)
  {
  }

  /**
   * With distinct control qubits, all controls read 1 after the X layer
   * exactly when every projected literal matches the original state.
   */
  lemma {:induction false} ControlsSetIffMatches(term: seq<Literal>, p2q: map<string, nat>, st: seq<bool>)
    requires QubitsBelow(p2q, |st|)
    requires NoDuplicates(Controls(term, p2q))
    ensures Within(Controls(term, p2q), |st|) && Within(Flips(term, p2q), |st|)
    ensures AllSet(FlipAll(st, Flips(term, p2q)), Controls(term, p2q)) <==> Matches(term, p2q, st)
  {
    ControlsWithin(term, p2q, |st|);
    if term != [] {
      var front, lit := term[..|term| - 1], term[|term| - 1];
      var cs, fs := Controls(front, p2q), Flips(front, p2q);
      ControlsWithin(front, p2q, |st|);
      MatchesSnoc(term, p2q, st);
      if lit.name in p2q {
        var q := p2q[lit.name];
        assert Controls(term, p2q) == cs + [q];
        assert NoDuplicates(cs) && forall i :: 0 <= i < |cs| ==> cs[i] != q by {
          assert forall i :: 0 <= i < |cs| ==> Controls(term, p2q)[i] == cs[i];
          assert Controls(term, p2q)[|cs|] == q;
        }
        ControlsSetIffMatches(front, p2q, st);
        FlipAllOutside(st, fs, q);
        var mid := FlipAll(st, fs);
        var after := FlipAll(st, Flips(term, p2q));
        if !lit.bit {
          assert Flips(term, p2q) == fs + [q];
          assert after == mid[q := !mid[q]];
          AllSetUnaffected(mid, cs, q, !mid[q]);
        } else {
          assert Flips(term, p2q) == fs;
        }
        AllSetSnoc(after, cs, q);
      } else {
        assert Controls(term, p2q) == cs && Flips(term, p2q) == fs;
        ControlsSetIffMatches(front, p2q, st);
      }
    }
  }

  /**
   * One emitted block leaves qubits 0..num_vars-1 as they were and flips the
   * flag exactly when the term fires (distinct control qubits assumed).
   */
  lemma BlockMeaning(term: seq<Literal>, p2q: map<string, nat>, numVars: nat, st: seq<bool>)
    requires |st| == numVars + 1 && QubitsBelow(p2q, numVars)
    requires NoDuplicates(Controls(term, p2q))
    ensures AllClassical(Block(term, p2q, numVars), |st|)
    ensures Run(Block(term, p2q, numVars), st) == st[numVars := st[numVars] != Fires(term, p2q, st)]
  {
    var controls, flips := Controls(term, p2q), Flips(term, p2q);
    ControlsWithin(term, p2q, numVars);
    ControlsSetIffMatches(term, p2q, st);
    if controls != [] {
      BlockRun(term, p2q, numVars, st);
    } else {
      assert Block(term, p2q, numVars) == [];
      assert !Fires(term, p2q, st);
    }
  }

  /** A block with controls flips the flag iff its controls read 1 after its X layer. */
  lemma BlockRun(term: seq<Literal>, p2q: map<string, nat>, numVars: nat, st: seq<bool>)
    requires |st| == numVars + 1 && QubitsBelow(p2q, numVars)
    requires Controls(term, p2q) != []
    requires Within(Controls(term, p2q), numVars) && Within(Flips(term, p2q), numVars)
    ensures AllClassical(Block(term, p2q, numVars), |st|)
    ensures Run(Block(term, p2q, numVars), st)
         == st[numVars := st[numVars] != AllSet(FlipAll(st, Flips(term, p2q)), Controls(term, p2q))]
  {
    var controls, flips := Controls(term, p2q), Flips(term, p2q);
    var mcx := MCX(controls, numVars);
    var block := Block(term, p2q, numVars);
    if flips != [] {
      assert block == [X(flips), mcx, X(flips)] by {
        assert [X(flips)] + [mcx] + [X(flips)] == [X(flips), mcx, X(flips)];
      }
      ConjugatedMcx(st, flips, controls, numVars);
    } else {
      assert block == [mcx];
      RunSingle(mcx, st);
    }
  }

  /** Number of terms in `order` that fire on `st`. */
  function FiredCount(order: seq<seq<Literal>>, p2q: map<string, nat>, st: seq<bool>): nat
    requires QubitsBelow(p2q, |st|)
  {
    if order == [] then 0
    else FiredCount(order[..|order| - 1], p2q, st) + (if Fires(order[|order| - 1], p2q, st) then 1 else 0)
  }

  /** Every term's projected qubits are distinct (no feature repeated inside a term). */
  predicate DistinctControls(terms: set<seq<Literal>>, p2q: map<string, nat>)
  {
    forall term :: term in terms ==> NoDuplicates(Controls(term, p2q))
  }

  /** Running the oracle for `order` is running it for all but the last term, then the last block. */
  lemma EmitSnoc(order: seq<seq<Literal>>, p2q: map<string, nat>, numVars: nat, st: seq<bool>)
    requires order != [] && |st| == numVars + 1 && QubitsBelow(p2q, numVars)
    requires AllClassical(Emit(order[..|order| - 1], p2q, numVars), |st|)
    requires AllClassical(Block(order[|order| - 1], p2q, numVars), |st|)
    ensures AllClassical(Emit(order, p2q, numVars), |st|)
    ensures Run(Emit(order, p2q, numVars), st)
         == Run(Block(order[|order| - 1], p2q, numVars), Run(Emit(order[..|order| - 1], p2q, numVars), st))
  {
    var head, block := Emit(order[..|order| - 1], p2q, numVars), Block(order[|order| - 1], p2q, numVars);
    assert Emit(order, p2q, numVars) == head + block;
    RunConcat(head, block, st);
  }

  /** Flipping the flag by the parity of `count`, then by `fires`, flips it by the parity of the sum. */
  lemma FlagParity(st: seq<bool>, numVars: nat, count: nat, fires: bool)
    requires numVars < |st|
    ensures var mid := st[numVars := st[numVars] != (count % 2 == 1)];
      mid[numVars := mid[numVars] != fires]
      == st[numVars := st[numVars] != ((count + (if fires then 1 else 0)) % 2 == 1)]
  {
  }

  lemma {:induction false} EmitMeaning(order: seq<seq<Literal>>, p2q: map<string, nat>, numVars: nat, st: seq<bool>)
    requires |st| == numVars + 1 && QubitsBelow(p2q, numVars)
    requires forall i :: 0 <= i < |order| ==> NoDuplicates(Controls(order[i], p2q))
    ensures AllClassical(Emit(order, p2q, numVars), |st|)
    ensures Run(Emit(order, p2q, numVars), st)
         == st[numVars := st[numVars] != (FiredCount(order, p2q, st) % 2 == 1)]
  {
    if order != [] {
      var front, term := order[..|order| - 1], order[|order| - 1];
      assert forall i :: 0 <= i < |front| ==> front[i] == order[i];
      EmitMeaning(front, p2q, numVars, st);
      var count := FiredCount(front, p2q, st);
      var mid := Run(Emit(front, p2q, numVars), st);
      BlockMeaning(term, p2q, numVars, mid);
      EmitSnoc(order, p2q, numVars, st);
      FiresUnaffected(term, p2q, numVars, st, mid[numVars]);
      FlagParity(st, numVars, count, Fires(term, p2q, st));
    }
  }

  /** Whether a term fires does not depend on the flag qubit. */
  lemma FiresUnaffected(term: seq<Literal>, p2q: map<string, nat>, numVars: nat, st: seq<bool>, v: bool)
    requires |st| == numVars + 1 && QubitsBelow(p2q, numVars)
    ensures Fires(term, p2q, st[numVars := v]) == Fires(term, p2q, st)
  {
    assert forall q :: 0 <= q < numVars ==> st[numVars := v][q] == st[q];
  }

  /** `order` lists each element of `terms` exactly once: one iteration order of the set. */
  ghost predicate Enumerates(order: seq<seq<Literal>>, terms: set<seq<Literal>>)
  {
    NoDuplicates(order) && (forall term :: term in terms <==> term in order)
  }

  /** The terms that fire on `st`. */
  function Fired(terms: set<seq<Literal>>, p2q: map<string, nat>, st: seq<bool>): set<seq<Literal>>
    requires QubitsBelow(p2q, |st|)
  {
    set term | term in terms && Fires(term, p2q, st)
  }

  /** The classical meaning of the whole oracle: flag XOR parity of the terms that fire. */
  function OracleMeaning(terms: set<seq<Literal>>, p2q: map<string, nat>, numVars: nat, st: seq<bool>): (r: seq<bool>)
    requires |st| == numVars + 1 && QubitsBelow(p2q, numVars)
  {
    st[numVars := st[numVars] != (|Fired(terms, p2q, st)| % 2 == 1)]
  }

  lemma {:induction false} FiredCountIsCardinality(order: seq<seq<Literal>>, terms: set<seq<Literal>>,
                                                   p2q: map<string, nat>, st: seq<bool>)
    requires QubitsBelow(p2q, |st|)
    requires Enumerates(order, terms)
    ensures FiredCount(order, p2q, st) == |Fired(terms, p2q, st)|
  {
    if order == [] {
      assert Fired(terms, p2q, st) == {};
    } else {
      var front, last := order[..|order| - 1], order[|order| - 1];
      assert last !in front by {
        assert forall i :: 0 <= i < |front| ==> front[i] == order[i];
      }
      FiredCountIsCardinality(front, terms - {last}, p2q, st);
      var before := Fired(terms - {last}, p2q, st);
      var after := Fired(terms, p2q, st);
      if Fires(last, p2q, st) {
        assert after == before + {last};
      } else {
        assert after == before;
      }
    }
  }

  /**
   * Whatever order the set is iterated in, the oracle maps (x, t) to
   * (x, t XOR parity of the number of terms that x matches).
   */
  lemma OracleComputesParity(order: seq<seq<Literal>>, terms: set<seq<Literal>>,
                             p2q: map<string, nat>, numVars: nat, st: seq<bool>)
    requires |st| == numVars + 1 && QubitsBelow(p2q, numVars)
    requires Enumerates(order, terms) && DistinctControls(terms, p2q)
    ensures AllClassical(Emit(order, p2q, numVars), |st|)
    ensures Run(Emit(order, p2q, numVars), st) == OracleMeaning(terms, p2q, numVars, st)
  {
    EmitMeaning(order, p2q, numVars, st);
    FiredCountIsCardinality(order, terms, p2q, st);
  }

  /** The oracle is its own inverse on every basis state. */
  lemma OracleInvolution(order: seq<seq<Literal>>, terms: set<seq<Literal>>,
                         p2q: map<string, nat>, numVars: nat, st: seq<bool>)
    requires |st| == numVars + 1 && QubitsBelow(p2q, numVars)
    requires Enumerates(order, terms) && DistinctControls(terms, p2q)
    ensures AllClassical(Emit(order, p2q, numVars) + Emit(order, p2q, numVars), |st|)
    ensures Run(Emit(order, p2q, numVars) + Emit(order, p2q, numVars), st) == st
  {
    var gates := Emit(order, p2q, numVars);
    OracleComputesParity(order, terms, p2q, numVars, st);
    var once := Run(gates, st);
    var flag := st[numVars] != (|Fired(terms, p2q, st)| % 2 == 1);
    assert once == st[numVars := flag];
    OracleComputesParity(order, terms, p2q, numVars, once);
    RunConcat(gates, gates, st);
    FiredUnaffected(terms, p2q, numVars, st, flag);
  }

  /** Which terms fire does not depend on the flag qubit. */
  lemma FiredUnaffected(terms: set<seq<Literal>>, p2q: map<string, nat>, numVars: nat, st: seq<bool>, v: bool)
    requires |st| == numVars + 1 && QubitsBelow(p2q, numVars)
    ensures Fired(terms, p2q, st[numVars := v]) == Fired(terms, p2q, st)
  {
    forall term | term in terms
      ensures Fires(term, p2q, st[numVars := v]) == Fires(term, p2q, st)
    {
      FiresUnaffected(term, p2q, numVars, st, v);
    }
  }

  /** A term none of whose features is mapped emits no gate at all. */
  lemma UnmappedTermSkipped(term: seq<Literal>, p2q: map<string, nat>, target: nat)
    requires forall i :: 0 <= i < |term| ==> term[i].name !in p2q
    ensures Block(term, p2q, target) == []
  {
    assert Controls(term, p2q) == [] by {
      UnmappedControlsEmpty(term, p2q);
    }
  }

  lemma {:induction false} UnmappedControlsEmpty(term: seq<Literal>, p2q: map<string, nat>)
    requires forall i :: 0 <= i < |term| ==> term[i].name !in p2q
    ensures Controls(term, p2q) == []
  {
    if term != [] {
      UnmappedControlsEmpty(term[..|term| - 1], p2q);
    }
  }

  /** An X layer on input qubits, or an MCX with at least one input control onto the flag qubit. */
  predicate OracleGateShape(g: Gate, numVars: nat)
  {
    (g.X? && Within(g.qubits, numVars)) ||
    (g.MCX? && g.target == numVars && Within(g.controls, numVars) && g.controls != [])
  }

  lemma BlockShape(term: seq<Literal>, p2q: map<string, nat>, numVars: nat)
    requires QubitsBelow(p2q, numVars)
    ensures forall i :: 0 <= i < |Block(term, p2q, numVars)| ==> OracleGateShape(Block(term, p2q, numVars)[i], numVars)
  {
    ControlsWithin(term, p2q, numVars);
  }

  /** Emitted gates are X layers on input qubits and MCX gates onto the flag qubit only. */
  lemma {:induction false} EmitShape(order: seq<seq<Literal>>, p2q: map<string, nat>, numVars: nat)
    requires QubitsBelow(p2q, numVars)
    ensures forall i :: 0 <= i < |Emit(order, p2q, numVars)| ==> OracleGateShape(Emit(order, p2q, numVars)[i], numVars)
  {
    if order != [] {
      var term := order[|order| - 1];
      var head, block := Emit(order[..|order| - 1], p2q, numVars), Block(term, p2q, numVars);
      EmitShape(order[..|order| - 1], p2q, numVars);
      BlockShape(term, p2q, numVars);
      assert Emit(order, p2q, numVars) == head + block;
      forall i | 0 <= i < |head + block| ensures OracleGateShape((head + block)[i], numVars) {
        if i < |head| {
          assert (head + block)[i] == head[i];
          assert OracleGateShape(head[i], numVars);
        } else {
          assert (head + block)[i] == block[i - |head|];
          assert OracleGateShape(block[i - |head|], numVars);
        }
      }
    }
  }

  // ---------------------------------------------------------------------
  // The builder.

  /**
   * A tree that splits the same pixel twice on the way to a positive leaf
   * yields a key whose MCX repeats a control, so the oracle cannot be built.
   */
  lemma RepeatedSplitRefused(number: string -> int)
    ensures var t := Split(0, Leaf([1.0, 0.0]), Split(0, Leaf([1.0, 0.0]), Leaf([0.0, 1.0])));
      !DistinctControls(ConditionSets(t, ["pixel_0"], 1), QubitMap(["pixel_0"], number))
  {
    var t := Split(0, Leaf([1.0, 0.0]), Split(0, Leaf([1.0, 0.0]), Leaf([0.0, 1.0])));
    var names, lit := ["pixel_0"], Literal("pixel_0", true);
    assert ArgMax([0.0, 1.0]) == 1;
    ConditionSetsComplete(t, names, 1, [true, true]);
    assert PathConditions(t, names, [true, true]) == [lit, lit];
    StrLeTotal(lit.name, lit.name);
    assert ByName()(lit, lit);
    assert SortBy([lit], ByName()) == [lit];
    assert SortBy([lit, lit], ByName()) == Insert(lit, [lit], ByName()) == [lit, lit];
    var m := QubitMap(names, number);
    assert m["pixel_0"] == 0;
    assert "pixel_0" in m;
    assert [lit][..0] == [];
    assert Controls([lit], m) == [0];
    assert [lit, lit][..1] == [lit];
    assert Controls([lit, lit], m) == [0, 0];
    var key := [lit, lit];
    assert key in ConditionSets(t, names, 1);
    assert Controls(key, m)[0] == Controls(key, m)[1];
  }

  /**
   * The inner loop over one term's literals: a literal whose feature is not
   * in the map is skipped; every other literal adds its qubit to the
   * controls, and to the flips when it requires 0.
   */
  method ProjectTerm(term: seq<Literal>, pixelToQubit: map<string, nat>)
    returns (controlIndices: seq<nat>, flipIndices: seq<nat>)
    ensures controlIndices == Controls(term, pixelToQubit)
    ensures flipIndices == Flips(term, pixelToQubit)
  {
    controlIndices, flipIndices := [], [];
    var i := 0;
    while i < |term|
      invariant 0 <= i <= |term|
      invariant controlIndices == Controls(term[..i], pixelToQubit)
      invariant flipIndices == Flips(term[..i], pixelToQubit)
    {
      var lit := term[i];
      assert term[..i + 1][..i] == term[..i];
      if lit.name in pixelToQubit {
        var qubit := pixelToQubit[lit.name];
        controlIndices := controlIndices + [qubit];
        if !lit.bit {
          flipIndices := flipIndices + [qubit];
        }
      }
      i := i + 1;
    }
    assert term[..|term|] == term;
  }

  /**
   * The body of the emission loop: the term's block appended to the gates so
   * far. The MCX fails when two mapped literals of the term share a qubit.
   */
  method AppendBlock(gates: seq<Gate>, term: seq<Literal>, pixelToQubit: map<string, nat>, target: nat)
    returns (r: Result<seq<Gate>, OracleError>)
    ensures r.Failure? <==> !NoDuplicates(Controls(term, pixelToQubit))
    ensures r.Success? ==> r.value == gates + Block(term, pixelToQubit, target)
  {
    var result := gates;
    var controlIndices, flipIndices := ProjectTerm(term, pixelToQubit);
    if controlIndices != [] {
      if flipIndices != [] {
        result := result + [X(flipIndices)];
      }
      if !NoDuplicates(controlIndices) {
        return Failure(DuplicateQubitArguments);
      }
      result := result + [MCX(controlIndices, target)];
      if flipIndices != [] {
        result := result + [X(flipIndices)];
      }
    }
    return Success(result);
  }

  /**
   * `create_oracle_from_tree`. The loop visits `unique_condition_sets` in
   * whatever order the set yields; `order` records that order. The call fails
   * iff some key repeats a qubit among its mapped literals; otherwise the
   * circuit has `num_vars + 1` qubits and is the blocks of the visited terms
   * in turn.
   */
  method CreateOracleFromTree(tree: Tree, featureNames: seq<string>, allFeatureNames: seq<string>,
                              number: string -> int, positiveClass: int := 1)
    returns (r: Result<Circuit, OracleError>, ghost order: seq<seq<Literal>>)
    requires ValidTree(tree, |featureNames|)
    ensures r.Success? <==>
      DistinctControls(ConditionSets(tree, featureNames, positiveClass), QubitMap(allFeatureNames, number))
    ensures r.Success? ==>
      r.value.numQubits == |allFeatureNames| + 1 && r.value.numClbits == 0 &&
      Enumerates(order, ConditionSets(tree, featureNames, positiveClass)) &&
      r.value.gates == Emit(order, QubitMap(allFeatureNames, number), |allFeatureNames|) &&
      forall i :: 0 <= i < |r.value.gates| ==> OracleGateShape(r.value.gates[i], |allFeatureNames|)
  {
    var sortedFeatures := SortBy(allFeatureNames, ByNumber(number));
    var pixelToQubit := PixelToQubit(sortedFeatures);
    var numVars := |sortedFeatures|;
    SortByPermutes(allFeatureNames, ByNumber(number));
    var uniqueConditionSets := ConditionSets(tree, featureNames, positiveClass);
    var target := numVars;
    var gates: seq<Gate> := [];
    var remaining := uniqueConditionSets;
    order := [];
    while remaining != {}
      invariant forall term :: term in uniqueConditionSets <==> term in remaining || term in order
      invariant forall i :: 0 <= i < |order| ==> order[i] !in remaining
      invariant forall i :: 0 <= i < |order| ==> NoDuplicates(Controls(order[i], pixelToQubit))
      invariant NoDuplicates(order)
      invariant gates == Emit(order, pixelToQubit, target)
      decreases |remaining|
    {
      var term: seq<Literal> :| term in remaining;
      var appended := AppendBlock(gates, term, pixelToQubit, target);
      if appended.Failure? {
        assert term in uniqueConditionSets;
        return Failure(appended.error), order;
      }
      gates := appended.value;
      assert (order + [term])[..|order|] == order;
      remaining := remaining - {term};
      order := order + [term];
    }
    forall term | term in uniqueConditionSets
      ensures NoDuplicates(Controls(term, pixelToQubit))
    {
      var i :| 0 <= i < |order| && order[i] == term;
    }
    EmitShape(order, pixelToQubit, target);
    return Success(Circuit(numVars + 1, 0, gates)), order;
  }
}
