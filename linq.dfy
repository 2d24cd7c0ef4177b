/** The LINQ operators the repository composes, over in-memory sequences
    taken in storage order. */
module Linq {
  import opened Wrappers

  /** No element occurs twice. */
  ghost predicate Distinct<T>(s: seq<T>) {
    forall i, j | 0 <= i < j < |s| :: s[i] != s[j]
  }

  /** `Where(p)`: the elements that satisfy `p`, in their original order. */
  function Where<T>(s: seq<T>, p: T -> bool): (r: seq<T>)
    ensures |r| <= |s|
    ensures forall x | x in r :: x in s && p(x)
    ensures forall x | x in s && p(x) :: x in r
  {
    if s == [] then []
    else if p(s[0]) then [s[0]] + Where(s[1..], p)
    else Where(s[1..], p)
  }

  /** `Select(f)`: `f` applied to each element, in order. */
  function Select<T, U>(s: seq<T>, f: T -> U): (r: seq<U>)
    ensures |r| == |s|
    ensures forall i | 0 <= i < |s| :: r[i] == f(s[i])
    ensures forall y | y in r :: exists x | x in s :: f(x) == y
  {
    seq(|s|, i requires 0 <= i < |s| => f(s[i]))
  }

  /** `FirstOrDefault(p)`: the first element satisfying `p`, or null. */
  function FirstOrDefault<T>(s: seq<T>, p: T -> bool): (r: Option<T>)
    ensures r.None? <==> forall x | x in s :: !p(x)
    ensures r.Some? ==> r.value in s && p(r.value)
    ensures r.Some? ==> exists i | 0 <= i < |s| :: s[i] == r.value && forall j | 0 <= j < i :: !p(s[j])
  {
    if s == [] then None
    else if p(s[0]) then Some(s[0])
    else
      var r := FirstOrDefault(s[1..], p);
      if r.Some? then
        ghost var i :| 0 <= i < |s[1..]| && s[1..][i] == r.value && forall j | 0 <= j < i :: !p(s[1..][j]);
        assert s[i + 1] == r.value && forall j | 0 <= j < i + 1 :: !p(s[j]);
        r
      else r
  }

  /** Two filters in a row are one filter by the conjunction. */
  lemma {:induction false} WhereFuse<T>(s: seq<T>, p: T -> bool, q: T -> bool, pq: T -> bool)
    requires forall x | x in s :: pq(x) == (p(x) && q(x))
    ensures Where(Where(s, p), q) == Where(s, pq)
  {
    if s != [] {
      assert forall x | x in s[1..] :: x in s;
      WhereFuse(s[1..], p, q, pq);
    }
  }

  /** Filtering by a predicate that agrees with another on the input gives
      the same result. */
  lemma {:induction false} WhereCongruent<T>(s: seq<T>, p: T -> bool, q: T -> bool)
    requires forall x | x in s :: p(x) == q(x)
    ensures Where(s, p) == Where(s, q)
  {
    if s != [] {
      assert forall x | x in s[1..] :: x in s;
      WhereCongruent(s[1..], p, q);
    }
  }

  /** Applying the same filter twice is applying it once. */
  lemma WhereIdempotent<T>(s: seq<T>, p: T -> bool)
    ensures Where(Where(s, p), p) == Where(s, p)
  {
  }

  /** A filter every element passes changes nothing. */
  lemma {:induction false} WhereAll<T>(s: seq<T>, p: T -> bool)
    requires forall x | x in s :: p(x)
    ensures Where(s, p) == s
  {
    if s != [] {
      assert forall x | x in s[1..] :: x in s;
      WhereAll(s[1..], p);
    }
  }

  /** Filtering a sequence without repetitions gives one without repetitions. */
  lemma {:induction false} WhereDistinct<T>(s: seq<T>, p: T -> bool)
    requires Distinct(s)
    ensures Distinct(Where(s, p))
  {
    if s != [] {
      assert Distinct(s[1..]);
      WhereDistinct(s[1..], p);
      assert s[0] !in s[1..];
    }
  }

  /** Projecting through a function that is injective on the input keeps
      the elements distinct. */
  lemma SelectDistinct<T, U>(s: seq<T>, f: T -> U)
    requires Distinct(s)
    requires forall x, y | x in s && y in s && f(x) == f(y) :: x == y
    ensures Distinct(Select(s, f))
  {
  }
}
