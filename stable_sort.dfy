/**
 * Python's built-in `sorted` with a `key`: a stable sort. Elements whose keys
 * compare equal keep the order they had in the input.
 *
 * The comparison is given as a total preorder `le` on the elements (for
 * `key=f`, `le(a, b)` is `f(a) <= f(b)`).
 */
module StableSort {

  /** `le` is total and transitive, as Python's `<=` is on ints and on strings. */
  ghost predicate TotalPreorder<T(!new)>(le: (T, T) -> bool)
  {
    (forall a, b :: le(a, b) || le(b, a)) &&
    (forall a, b, c :: le(a, b) && le(b, c) ==> le(a, c))
  }

  /** Keys of `a` and `b` compare equal. */
  predicate Equivalent<T>(le: (T, T) -> bool, a: T, b: T)
  {
    le(a, b) && le(b, a)
  }

  ghost predicate Sorted<T>(s: seq<T>, le: (T, T) -> bool)
  {
    forall i, j :: 0 <= i < j < |s| ==> le(s[i], s[j])
  }

  /** The subsequence of `s` whose keys compare equal to that of `x`. */
  function EqualKeys<T>(s: seq<T>, le: (T, T) -> bool, x: T): seq<T>
  {
    if s == [] then []
    else (if Equivalent(le, s[0], x) then [s[0]] else []) + EqualKeys(s[1..], le, x)
  }

  /** Put `x` in front of the first element of `r` whose key is not below that of `x`. */
  function Insert<T>(x: T, r: seq<T>, le: (T, T) -> bool): seq<T>
  {
    if r == [] || le(x, r[0]) then [x] + r
    else [r[0]] + Insert(x, r[1..], le)
  }

  /** Insertion sort from the back: earlier elements go in front of equal-keyed later ones. */
  function SortBy<T>(s: seq<T>, le: (T, T) -> bool): seq<T>
  {
    if s == [] then [] else Insert(s[0], SortBy(s[1..], le), le)
  }

  lemma {:induction false} InsertPermutes<T>(x: T, r: seq<T>, le: (T, T) -> bool)
    ensures multiset(Insert(x, r, le)) == multiset(r) + multiset{x}
    ensures |Insert(x, r, le)| == |r| + 1
  {
    if r == [] || le(x, r[0]) {
    } else {
      InsertPermutes(x, r[1..], le);
      assert r == [r[0]] + r[1..];
    }
  }

  /** The sort removes nothing and adds nothing: duplicates survive. */
  lemma {:induction false} SortByPermutes<T>(s: seq<T>, le: (T, T) -> bool)
    ensures multiset(SortBy(s, le)) == multiset(s)
    ensures |SortBy(s, le)| == |s|
  {
    if s != [] {
      SortByPermutes(s[1..], le);
      InsertPermutes(s[0], SortBy(s[1..], le), le);
      assert s == [s[0]] + s[1..];
    }
  }

  /** Putting an element no greater than any other in front keeps a sequence sorted. */
  lemma ConsSorted<T>(y: T, u: seq<T>, le: (T, T) -> bool)
    requires Sorted(u, le)
    requires forall k :: 0 <= k < |u| ==> le(y, u[k])
    ensures Sorted([y] + u, le)
  {
    var t := [y] + u;
    forall i, j | 0 <= i < j < |t| ensures le(t[i], t[j]) {
      assert t[j] == u[j - 1];
      if i > 0 {
        assert t[i] == u[i - 1];
      }
    }
  }

  /** A lower bound of `x` and of every element of `r` bounds every element of the insertion. */
  lemma {:induction false} InsertBounded<T>(y: T, x: T, r: seq<T>, le: (T, T) -> bool)
    requires le(y, x)
    requires forall k :: 0 <= k < |r| ==> le(y, r[k])
    ensures forall k :: 0 <= k < |Insert(x, r, le)| ==> le(y, Insert(x, r, le)[k])
  {
    if !(r == [] || le(x, r[0])) {
      InsertBounded(y, x, r[1..], le);
      var u := Insert(x, r[1..], le);
      assert Insert(x, r, le) == [r[0]] + u;
    }
  }

  lemma {:induction false} InsertSorted<T(!new)>(x: T, r: seq<T>, le: (T, T) -> bool)
    requires TotalPreorder(le)
    requires Sorted(r, le)
    ensures Sorted(Insert(x, r, le), le)
  {
    if r == [] || le(x, r[0]) {
      ConsSorted(x, r, le);
    } else {
      assert le(r[0], x);
      InsertSorted(x, r[1..], le);
      InsertBounded(r[0], x, r[1..], le);
      ConsSorted(r[0], Insert(x, r[1..], le), le);
    }
  }

  /** The result is ordered by key. */
  lemma {:induction false} SortBySorted<T(!new)>(s: seq<T>, le: (T, T) -> bool)
    requires TotalPreorder(le)
    ensures Sorted(SortBy(s, le), le)
  {
    if s != [] {
      SortBySorted(s[1..], le);
      InsertSorted(s[0], SortBy(s[1..], le), le);
    }
  }

  lemma {:induction false} InsertEqualKeys<T(!new)>(y: T, r: seq<T>, le: (T, T) -> bool, x: T)
    requires TotalPreorder(le)
    ensures EqualKeys(Insert(y, r, le), le, x)
         == (if Equivalent(le, y, x) then [y] else []) + EqualKeys(r, le, x)
  {
    var t := Insert(y, r, le);
    if r == [] || le(y, r[0]) {
      assert t == [y] + r && t[0] == y && t[1..] == r;
    } else {
      InsertEqualKeys(y, r[1..], le, x);
      assert t[0] == r[0] && t[1..] == Insert(y, r[1..], le);
      assert EqualKeys(r, le, x)
          == (if Equivalent(le, r[0], x) then [r[0]] else []) + EqualKeys(r[1..], le, x);
      // r[0] and y cannot both share the key of x: that would give le(y, r[0]).
      assert !(Equivalent(le, r[0], x) && Equivalent(le, y, x));
    }
  }

  /** Stability: among elements with equal keys, the input order is kept. */
  lemma {:induction false} SortByStable<T(!new)>(s: seq<T>, le: (T, T) -> bool, x: T)
    requires TotalPreorder(le)
    ensures EqualKeys(SortBy(s, le), le, x) == EqualKeys(s, le, x)
  {
    if s != [] {
      SortByStable(s[1..], le, x);
      InsertEqualKeys(s[0], SortBy(s[1..], le), le, x);
    }
  }
}
