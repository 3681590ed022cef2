/** Sequence helpers shared by the entry store and the query engine: the
    relational operations the SQL statements perform (WHERE as Filter,
    DISTINCT as Dedup, LIMIT as Take) and substring/prefix tests on strings. */
module Seqs {

  /** No element occurs twice. */
  predicate Distinct<T(==)>(xs: seq<T>) {
    forall i, j :: 0 <= i < j < |xs| ==> xs[i] != xs[j]
  }

  /** The elements of `xs` satisfying `p`, in their original order (a WHERE clause). */
  function Filter<T(!new)>(xs: seq<T>, p: T -> bool): (r: seq<T>)
    ensures |r| <= |xs|
    ensures forall x :: x in r <==> x in xs && p(x)
    decreases |xs|
  {
    if |xs| == 0 then []
    else if p(xs[0]) then [xs[0]] + Filter(xs[1..], p)
    else Filter(xs[1..], p)
  }

  lemma {:induction false} FilterAppend<T(!new)>(xs: seq<T>, ys: seq<T>, p: T -> bool)
    ensures Filter(xs + ys, p) == Filter(xs, p) + Filter(ys, p)
    decreases |xs|
  {
    if |xs| == 0 {
      assert xs + ys == ys;
    } else {
      assert (xs + ys)[1..] == xs[1..] + ys;
      FilterAppend(xs[1..], ys, p);
    }
  }

  /** A filter that rejects every element leaves nothing. */
  lemma {:induction false} FilterNone<T(!new)>(xs: seq<T>, p: T -> bool)
    requires forall i :: 0 <= i < |xs| ==> !p(xs[i])
    ensures Filter(xs, p) == []
    decreases |xs|
  {
    if |xs| > 0 {
      FilterNone(xs[1..], p);
    }
  }

  lemma {:induction false} FilterDistinct<T(!new)>(xs: seq<T>, p: T -> bool)
    requires Distinct(xs)
    ensures Distinct(Filter(xs, p))
    decreases |xs|
  {
    if |xs| > 0 {
      FilterDistinct(xs[1..], p);
      assert xs[0] !in xs[1..];
    }
  }

  /** Filtering by `q` after filtering by a weaker `p` is filtering by `q` alone. */
  lemma {:induction false} FilterFilter<T(!new)>(xs: seq<T>, p: T -> bool, q: T -> bool)
    requires forall x :: q(x) ==> p(x)
    ensures Filter(Filter(xs, p), q) == Filter(xs, q)
    decreases |xs|
  {
    if |xs| > 0 {
      FilterFilter(xs[1..], p, q);
    }
  }

  /** The elements kept and the elements dropped by a filter add up to the whole. */
  lemma {:induction false} FilterSplitsLength<T(!new)>(xs: seq<T>, p: T -> bool, q: T -> bool)
    requires forall x :: q(x) <==> !p(x)
    ensures |Filter(xs, p)| + |Filter(xs, q)| == |xs|
    decreases |xs|
  {
    if |xs| > 0 {
      FilterSplitsLength(xs[1..], p, q);
    }
  }

  /** Applies `f` to every element (a SELECT list). */
  function Map<T, U>(xs: seq<T>, f: T -> U): (r: seq<U>)
    ensures |r| == |xs|
    ensures forall i :: 0 <= i < |xs| ==> r[i] == f(xs[i])
  {
    seq(|xs|, i requires 0 <= i < |xs| => f(xs[i]))
  }

  /** An element is in the image exactly when some element maps to it. */
  lemma MapImage<T, U>(xs: seq<T>, f: T -> U)
    ensures forall y :: y in Map(xs, f) <==> exists x :: x in xs && f(x) == y
  {
    var r := Map(xs, f);
    forall y | y in r
      ensures exists x :: x in xs && f(x) == y
    {
      var i :| 0 <= i < |r| && r[i] == y;
      assert xs[i] in xs;
    }
    forall x | x in xs
      ensures f(x) in r
    {
      var i :| 0 <= i < |xs| && xs[i] == x;
      assert r[i] == f(x);
    }
  }

  lemma MapAppend<T, U>(xs: seq<T>, ys: seq<T>, f: T -> U)
    ensures Map(xs + ys, f) == Map(xs, f) + Map(ys, f)
  {
  }

  /** The first `n` elements, or all of them when there are fewer (a LIMIT clause). */
  function Take<T(!new)>(xs: seq<T>, n: nat): (r: seq<T>)
    ensures |r| == if |xs| <= n then |xs| else n
    ensures r <= xs
    ensures forall x :: x in r ==> x in xs
  {
    if |xs| <= n then xs else xs[..n]
  }

  lemma TakeDistinct<T(!new)>(xs: seq<T>, n: nat)
    requires Distinct(xs)
    ensures Distinct(Take(xs, n))
  {
  }

  /** Keeps the first occurrence of every element (SELECT DISTINCT, or
      Python's `list(set(...))` with the iteration order fixed to first
      occurrence). */
  function Dedup<T(==,!new)>(xs: seq<T>): (r: seq<T>)
    ensures Distinct(r)
    ensures forall x :: x in r <==> x in xs
    ensures |r| <= |xs|
  {
    DedupFrom(xs, [])
  }

  function DedupFrom<T(==,!new)>(xs: seq<T>, seen: seq<T>): (r: seq<T>)
    requires Distinct(seen)
    ensures Distinct(r)
    ensures forall x :: x in r <==> x in seen || x in xs
    ensures |r| <= |seen| + |xs|
    decreases |xs|
  {
    if |xs| == 0 then seen
    else if xs[0] in seen then DedupFrom(xs[1..], seen)
    else DedupFrom(xs[1..], seen + [xs[0]])
  }

  /** A distinct sequence has as many elements as the set of its elements. */
  lemma {:induction false} DistinctCardinality<T>(xs: seq<T>)
    requires Distinct(xs)
    ensures |set x | x in xs| == |xs|
    decreases |xs|
  {
    if |xs| > 0 {
      var last := xs[|xs| - 1];
      var init := xs[..|xs| - 1];
      DistinctCardinality(init);
      assert (set x | x in xs) == (set x | x in init) + {last};
      assert last !in init;
    }
  }

  /** A distinct sequence drawn from a set is no longer than the set. */
  lemma DistinctWithin<T>(xs: seq<T>, s: set<T>)
    requires Distinct(xs)
    requires forall i :: 0 <= i < |xs| ==> xs[i] in s
    ensures |xs| <= |s|
  {
    DistinctCardinality(xs);
    var elems := set x | x in xs;
    assert s == elems + (s - elems);
    assert |s| == |elems| + |s - elems|;
  }

  /** The set of values `f` takes on the elements of `xs`. */
  function Image<T, U>(xs: seq<T>, f: T -> U): (r: set<U>)
    ensures forall x :: x in xs ==> f(x) in r
  {
    set i | 0 <= i < |xs| :: f(xs[i])
  }

  /** The image of a sequence under `f` has at most as many elements as the sequence. */
  lemma {:induction false} ImageCardinality<T, U>(xs: seq<T>, f: T -> U)
    ensures |Image(xs, f)| <= |xs|
    decreases |xs|
  {
    if |xs| > 0 {
      var init := xs[..|xs| - 1];
      ImageCardinality(init, f);
      assert Image(xs, f) == Image(init, f) + {f(xs[|xs| - 1])};
    }
  }

  /** `p` is a prefix of `s`. */
  predicate IsPrefix(p: string, s: string) {
    |p| <= |s| && s[..|p|] == p
  }

  /** `q` occurs in `s` at position `i`. */
  predicate OccursAt(q: string, s: string, i: nat) {
    i + |q| <= |s| && s[i..i + |q|] == q
  }

  /** `q` is a contiguous substring of `s` (Python's `s.find(q) != -1`). */
  predicate IsSubstring(q: string, s: string) {
    exists i: nat | i <= |s| :: OccursAt(q, s, i)
  }
}
