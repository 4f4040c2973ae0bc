/** Order-preserving selection from a sequence: the shape of JavaScript's
    `Array.prototype.filter`, used by the retention sweep and by search. */
module Seqs {
  import opened Wrappers


  /** `a` is `b` with some elements dropped and the rest kept in order. */
  predicate IsSubsequence<T(==)>(a: seq<T>, b: seq<T>)
    decreases |b|
  {
    if a == [] then true
    else if b == [] then false
    else (a[0] == b[0] && IsSubsequence(a[1..], b[1..])) || IsSubsequence(a, b[1..])
  }

  /** Every element of a subsequence is an element of the whole. */
  lemma {:induction false} SubsequenceElements<T>(a: seq<T>, b: seq<T>)
    requires IsSubsequence(a, b)
    ensures forall x :: x in a ==> x in b
    decreases |b|
  {
    if a != [] {
      if a[0] == b[0] && IsSubsequence(a[1..], b[1..]) {
        SubsequenceElements(a[1..], b[1..]);
        forall x | x in a
          ensures x in b
        {
          if x != a[0] {
            assert x in a[1..];
          }
        }
      } else {
        SubsequenceElements(a, b[1..]);
      }
    }
  }

  /** `s.filter(p)`: the elements satisfying `p`, in their original order,
      each as often as it occurs in `s`. */
  function Filter<T(==,!new)>(p: T -> bool, s: seq<T>): (r: seq<T>)
    ensures IsSubsequence(r, s)
    ensures forall i :: 0 <= i < |r| ==> p(r[i])
    ensures forall x :: multiset(r)[x] == if p(x) then multiset(s)[x] else 0
  {
    if s == [] then []
    else
      assert s == [s[0]] + s[1..];
      if p(s[0]) then [s[0]] + Filter(p, s[1..])
      else Filter(p, s[1..])
  }

  /** The filter returns its input unchanged exactly when nothing fails `p`;
      otherwise it is strictly shorter. */
  lemma {:induction false} FilterKeepsAllIff<T(!new)>(p: T -> bool, s: seq<T>)
    ensures Filter(p, s) == s <==> forall i :: 0 <= i < |s| ==> p(s[i])
    ensures |Filter(p, s)| <= |s|
    ensures |Filter(p, s)| == |s| <==> Filter(p, s) == s
  {
    if s != [] {
      FilterKeepsAllIff(p, s[1..]);
      if p(s[0]) {
        assert Filter(p, s) == [s[0]] + Filter(p, s[1..]);
        if Filter(p, s[1..]) == s[1..] {
          assert Filter(p, s) == s;
        }
      }
    }
  }

  /** The least `b` in `a .. limit` (inclusive) with `found(b)`: the leftmost
      attempt that succeeds, the order in which a backtracking regular
      expression tries start positions and lazy lengths. */
  function FirstFrom(found: nat -> bool, a: nat, limit: nat): (r: Option<nat>)
    ensures r.Some? ==> a <= r.value <= limit && found(r.value)
    ensures r.Some? ==> forall b :: a <= b < r.value ==> !found(b)
    ensures r.None? ==> forall b :: a <= b <= limit ==> !found(b)
    decreases limit + 1 - a
  {
    if a > limit then None
    else if found(a) then Some(a)
    else FirstFrom(found, a + 1, limit)
  }

  /** `t` is a suffix of `s`. */
  predicate IsSuffix<T(==)>(t: seq<T>, s: seq<T>) {
    |t| <= |s| && s[|s| - |t| ..] == t
  }

  /** Applies `step` to each element of `xs` in turn, threading the state. */
  function FoldLeft<X, S>(step: (X, S) -> S, xs: seq<X>, s: S): S
    decreases |xs|
  {
    if xs == [] then s else FoldLeft(step, xs[1..], step(xs[0], s))
  }

  /** A state property that every step keeps holds after any number of steps. */
  lemma {:induction false} FoldPreserves<X, S>(step: (X, S) -> S, inv: S -> bool, xs: seq<X>, s: S)
    requires forall x, t :: inv(t) ==> inv(step(x, t))
    requires inv(s)
    ensures inv(FoldLeft(step, xs, s))
    decreases |xs|
  {
    if xs != [] {
      FoldPreserves(step, inv, xs[1..], step(xs[0], s));
    }
  }

  /** When every step keeps the old sequence as a suffix, so do many steps. */
  lemma {:induction false} FoldKeepsSuffix<X, T>(step: (X, seq<T>) -> seq<T>, xs: seq<X>, s: seq<T>)
    requires forall x, t :: IsSuffix(t, step(x, t))
    ensures IsSuffix(s, FoldLeft(step, xs, s))
    decreases |xs|
  {
    if xs != [] {
      var next := step(xs[0], s);
      FoldKeepsSuffix(step, xs[1..], next);
      var h := FoldLeft(step, xs, s);
      assert h[|h| - |s| ..] == h[|h| - |next| ..][|next| - |s| ..];
    }
  }
}
