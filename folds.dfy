/** Two loop shapes the handlers share: a list built by appending the values
    a function yields for each element, and a set built by adding them. */
module Folds {
  import opened Wrappers

  /** The values `f` yields for the first `n` elements of `xs`, in order
      (a list comprehension with a filter). */
  function KeptUpTo<A, B>(xs: seq<A>, n: nat, f: A -> Option<B>): seq<B>
    requires n <= |xs|
  {
    if n == 0 then []
    else
      match f(xs[n - 1])
      case Some(y) => KeptUpTo(xs, n - 1, f) + [y]
      case None => KeptUpTo(xs, n - 1, f)
  }

  /** What a prefix keeps is exactly what its elements yield. */
  lemma {:induction false} KeptUpToMembers<A, B>(xs: seq<A>, n: nat, f: A -> Option<B>)
    requires n <= |xs|
    ensures forall y :: y in KeptUpTo(xs, n, f) ==> exists k :: 0 <= k < n && f(xs[k]) == Some(y)
    ensures forall k :: 0 <= k < n && f(xs[k]).Some? ==> f(xs[k]).value in KeptUpTo(xs, n, f)
  {
    if n > 0 {
      KeptUpToMembers(xs, n - 1, f);
    }
  }

  /** The distinct values `f` yields for the first `n` elements of `xs` (a
      set filled in a loop). */
  function ValuesUpTo<A, B>(xs: seq<A>, n: nat, f: A -> Option<B>): set<B>
    requires n <= |xs|
  {
    set k | 0 <= k < n && f(xs[k]).Some? :: f(xs[k]).value
  }

  /** One step of such a loop: `if v: acc.add(v)` for the value of the next
      element. */
  method AddValue<A, B>(acc: set<B>, xs: seq<A>, n: nat, f: A -> Option<B>, v: Option<B>) returns (r: set<B>)
    requires n < |xs| && acc == ValuesUpTo(xs, n, f) && v == f(xs[n])
    ensures r == ValuesUpTo(xs, n + 1, f)
  {
    r := acc;
    if v.Some? {
      r := r + {v.value};
    }
  }
}
