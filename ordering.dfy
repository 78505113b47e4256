/** Python's ordering of strings and of tuples of strings, and the two sorts
    the routers use: `sorted(...)` of a set and `list.sort(key=...)` with a
    tuple-of-strings key. */
module Ordering {

  /** Python's `a < b` on `str`: lexicographic by code point, a proper prefix
      coming first. */
  predicate StrLt(a: string, b: string)
    decreases |a|
  {
    if a == [] then b != []
    else b != [] && (a[0] < b[0] || (a[0] == b[0] && StrLt(a[1..], b[1..])))
  }

  lemma {:induction false} StrLtIrreflexive(a: string)
    ensures !StrLt(a, a)
    decreases |a|
  {
    if a != [] { StrLtIrreflexive(a[1..]); }
  }

  lemma {:induction false} StrLtTransitive(a: string, b: string, c: string)
    requires StrLt(a, b) && StrLt(b, c)
    ensures StrLt(a, c)
    decreases |a|
  {
    if a != [] && a[0] == b[0] && b[0] == c[0] {
      StrLtTransitive(a[1..], b[1..], c[1..]);
    }
  }

  lemma {:induction false} StrLtTrichotomy(a: string, b: string)
    ensures a == b || StrLt(a, b) || StrLt(b, a)
    decreases |a|
  {
    if a != [] && b != [] && a[0] == b[0] {
      StrLtTrichotomy(a[1..], b[1..]);
      if a[1..] == b[1..] {
        assert a == [a[0]] + a[1..] && b == [b[0]] + b[1..];
      }
    }
  }

  lemma StrLtAsymmetric(a: string, b: string)
    requires StrLt(a, b)
    ensures !StrLt(b, a)
  {
    if StrLt(b, a) {
      StrLtTransitive(a, b, a);
      StrLtIrreflexive(a);
    }
  }

  /** Python's `<` on tuples of strings of equal arity: lexicographic, each
      component compared with `StrLt`. */
  predicate KeyLt(a: seq<string>, b: seq<string>)
    decreases |a|
  {
    a != [] && b != [] && (StrLt(a[0], b[0]) || (a[0] == b[0] && KeyLt(a[1..], b[1..])))
  }

  lemma {:induction false} KeyLtIrreflexive(a: seq<string>)
    ensures !KeyLt(a, a)
    decreases |a|
  {
    if a != [] {
      StrLtIrreflexive(a[0]);
      KeyLtIrreflexive(a[1..]);
    }
  }

  lemma {:induction false} KeyLtTransitive(a: seq<string>, b: seq<string>, c: seq<string>)
    requires KeyLt(a, b) && KeyLt(b, c)
    ensures KeyLt(a, c)
    decreases |a|
  {
    if StrLt(a[0], b[0]) && StrLt(b[0], c[0]) {
      StrLtTransitive(a[0], b[0], c[0]);
    } else if a[0] == b[0] && b[0] == c[0] {
      KeyLtTransitive(a[1..], b[1..], c[1..]);
    }
  }

  lemma {:induction false} KeyLtTrichotomy(a: seq<string>, b: seq<string>)
    requires |a| == |b|
    ensures a == b || KeyLt(a, b) || KeyLt(b, a)
    decreases |a|
  {
    if a != [] {
      StrLtTrichotomy(a[0], b[0]);
      if a[0] == b[0] {
        KeyLtTrichotomy(a[1..], b[1..]);
        if a[1..] == b[1..] {
          assert a == [a[0]] + a[1..] && b == [b[0]] + b[1..];
        }
      }
    }
  }

  lemma KeyLtAsymmetric(a: seq<string>, b: seq<string>)
    requires KeyLt(a, b)
    ensures !KeyLt(b, a)
  {
    if KeyLt(b, a) {
      KeyLtTransitive(a, b, a);
      KeyLtIrreflexive(a);
    }
  }

  // ---------------------------------------------------------------------
  // Sequences without repetition

  predicate NoDuplicates<T(==)>(xs: seq<T>) {
    forall i, j :: 0 <= i < j < |xs| ==> xs[i] != xs[j]
  }

  lemma {:induction false} NoDuplicatesMultiplicity<T>(xs: seq<T>)
    requires NoDuplicates(xs)
    ensures forall x :: multiset(xs)[x] <= 1
    decreases |xs|
  {
    if xs != [] {
      var t := xs[1..];
      assert xs == [xs[0]] + t;
      NoDuplicatesMultiplicity(t);
      assert xs[0] !in t;
    }
  }

  lemma MultiplicityNoDuplicates<T>(xs: seq<T>)
    requires forall x :: multiset(xs)[x] <= 1
    ensures NoDuplicates(xs)
  {
    forall i, j | 0 <= i < j < |xs| ensures xs[i] != xs[j] {
      assert xs == xs[..j] + xs[j..];
      assert multiset(xs) == multiset(xs[..j]) + multiset(xs[j..]);
      assert xs[i] in multiset(xs[..j]) && xs[j] in multiset(xs[j..]);
      assert multiset(xs)[xs[j]] == multiset(xs[..j])[xs[j]] + multiset(xs[j..])[xs[j]];
    }
  }

  /** Two sequences without repetition and without a common element
      concatenate to one without repetition. */
  lemma NoDuplicatesAppend<T>(xs: seq<T>, ys: seq<T>)
    requires NoDuplicates(xs) && NoDuplicates(ys)
    requires forall x :: x in xs ==> x !in ys
    ensures NoDuplicates(xs + ys)
  {
    forall i, j | 0 <= i < j < |xs + ys| ensures (xs + ys)[i] != (xs + ys)[j] {
      if i < |xs| && j >= |xs| {
        assert (xs + ys)[i] in xs && (xs + ys)[j] == ys[j - |xs|];
      }
    }
  }

  /** Rearranging a sequence without repetition keeps it without repetition. */
  lemma PermutationNoDuplicates<T>(xs: seq<T>, ys: seq<T>)
    requires NoDuplicates(xs) && multiset(xs) == multiset(ys)
    ensures NoDuplicates(ys)
  {
    NoDuplicatesMultiplicity(xs);
    MultiplicityNoDuplicates(ys);
  }

  // ---------------------------------------------------------------------
  // sorted(a_set) with a string key

  /** The identity key: plain `sorted(...)` of strings. */
  function Id(s: string): string { s }

  /** Strictly ascending by `key`. */
  ghost predicate Ascending<T>(xs: seq<T>, key: T -> string) {
    forall i, j :: 0 <= i < j < |xs| ==> StrLt(key(xs[i]), key(xs[j]))
  }

  /** Strictly ascending sequences hold no element twice. */
  lemma AscendingNoDuplicates<T>(xs: seq<T>, key: T -> string)
    requires Ascending(xs, key)
    ensures NoDuplicates(xs)
  {
    forall i, j | 0 <= i < j < |xs| ensures xs[i] != xs[j] {
      StrLtIrreflexive(key(xs[i]));
    }
  }

  /** Places `x` into a strictly ascending sequence none of whose keys is
      `x`'s key. */
  function InsertAscending<T(!new)>(x: T, xs: seq<T>, key: T -> string): (r: seq<T>)
    requires Ascending(xs, key)
    requires forall y :: y in xs ==> key(y) != key(x)
    ensures Ascending(r, key)
    ensures |r| == |xs| + 1
    ensures forall y :: y in r <==> y == x || y in xs
  {
    if xs == [] then [x]
    else if StrLt(key(x), key(xs[0])) then
      AscendingCons(x, xs, key);
      [x] + xs
    else
      StrLtTrichotomy(key(x), key(xs[0]));
      var t := InsertAscending(x, xs[1..], key);
      assert xs == [xs[0]] + xs[1..];
      forall y | y in t ensures StrLt(key(xs[0]), key(y)) {
        if y != x {
          var k :| 1 <= k < |xs| && xs[k] == y;
        }
      }
      AscendingCons(xs[0], t, key);
      [xs[0]] + t
  }

  /** An element whose key is below the first key of a strictly ascending
      sequence (or below all of its keys) extends it at the front. */
  lemma AscendingCons<T>(x: T, xs: seq<T>, key: T -> string)
    requires Ascending(xs, key)
    requires (xs != [] && StrLt(key(x), key(xs[0]))) || forall y :: y in xs ==> StrLt(key(x), key(y))
    ensures Ascending([x] + xs, key)
  {
    forall j | 0 <= j < |xs| ensures StrLt(key(x), key(xs[j])) {
      assert xs[j] in xs;
      if xs != [] && StrLt(key(x), key(xs[0])) && j > 0 {
        StrLtTransitive(key(x), key(xs[0]), key(xs[j]));
      }
    }
  }

  /** Two strictly ascending sequences holding the same elements are the same
      sequence: `sorted` of a set has exactly one possible result. */
  lemma {:induction false} AscendingUnique<T>(xs: seq<T>, ys: seq<T>, key: T -> string)
    requires Ascending(xs, key) && Ascending(ys, key)
    requires forall z :: z in xs <==> z in ys
    ensures xs == ys
    decreases |xs|
  {
    if xs != [] && ys != [] {
      var x, y := xs[0], ys[0];
      if x != y {
        assert x in ys && y in xs;
        var i :| 0 <= i < |ys| && ys[i] == x;
        var j :| 0 <= j < |xs| && xs[j] == y;
        assert StrLt(key(y), key(x)) && StrLt(key(x), key(y));
        StrLtAsymmetric(key(x), key(y));
      }
      forall z ensures z in xs[1..] <==> z in ys[1..] {
        if z in xs[1..] {
          var i :| 1 <= i < |xs| && xs[i] == z;
          StrLtIrreflexive(key(z));
          assert z in ys && z != ys[0];
          var k :| 0 <= k < |ys| && ys[k] == z;
          assert ys[1..][k - 1] == z;
        }
        if z in ys[1..] {
          var i :| 1 <= i < |ys| && ys[i] == z;
          StrLtIrreflexive(key(z));
          assert z in xs && z != xs[0];
          var k :| 0 <= k < |xs| && xs[k] == z;
          assert xs[1..][k - 1] == z;
        }
      }
      AscendingUnique(xs[1..], ys[1..], key);
      assert xs == [x] + xs[1..] && ys == [y] + ys[1..];
    } else {
      HeadIsMember(xs);
      HeadIsMember(ys);
    }
  }

  lemma HeadIsMember<T>(xs: seq<T>)
    ensures xs != [] ==> xs[0] in xs
  {
  }

  /** Python's `sorted(s, key=key)` for a set whose elements have pairwise
      different keys: every element once, strictly ascending by key. */
  method SortSet<T(!new)>(s: set<T>, key: T -> string) returns (xs: seq<T>)
    requires forall a, b :: a in s && b in s && key(a) == key(b) ==> a == b
    ensures Ascending(xs, key)
    ensures forall y :: y in xs <==> y in s
  {
    xs := [];
    var rest := s;
    while rest != {}
      invariant Ascending(xs, key)
      invariant forall y :: y in xs ==> y !in rest
      invariant forall y :: y in s <==> y in xs || y in rest
      decreases rest
    {
      var x :| x in rest;
      xs := InsertAscending(x, xs, key);
      rest := rest - {x};
    }
  }

  // ---------------------------------------------------------------------
  // list.sort(key=...) with a tuple-of-strings key

  /** No element's key is greater than a later element's key. */
  ghost predicate SortedBy<T>(xs: seq<T>, key: T -> seq<string>) {
    forall i, j :: 0 <= i < j < |xs| ==> !KeyLt(key(xs[j]), key(xs[i]))
  }

  /** Inserts `x` after every element whose key is not greater than its own,
      so elements with equal keys keep their order (a stable insertion). */
  function InsertByKey<T>(x: T, xs: seq<T>, key: T -> seq<string>): (r: seq<T>)
  {
    if xs == [] then [x]
    else if KeyLt(key(x), key(xs[0])) then [x] + xs
    else [xs[0]] + InsertByKey(x, xs[1..], key)
  }

  /** No element of `xs` has a key below `k`. */
  ghost predicate NoneBelow<T>(xs: seq<T>, key: T -> seq<string>, k: seq<string>) {
    forall i :: 0 <= i < |xs| ==> !KeyLt(key(xs[i]), k)
  }

  lemma {:induction false} InsertByKeyBelow<T>(x: T, xs: seq<T>, key: T -> seq<string>, k: seq<string>)
    requires NoneBelow(xs, key, k) && !KeyLt(key(x), k)
    ensures NoneBelow(InsertByKey(x, xs, key), key, k)
    decreases |xs|
  {
    if xs != [] && !KeyLt(key(x), key(xs[0])) {
      InsertByKeyBelow(x, xs[1..], key, k);
    }
  }

  lemma {:induction false} InsertByKeyPermutes<T>(x: T, xs: seq<T>, key: T -> seq<string>)
    ensures multiset(InsertByKey(x, xs, key)) == multiset(xs) + multiset{x}
    decreases |xs|
  {
    if xs != [] && !KeyLt(key(x), key(xs[0])) {
      InsertByKeyPermutes(x, xs[1..], key);
      assert xs == [xs[0]] + xs[1..];
    }
  }

  lemma {:induction false} InsertByKeySorted<T>(x: T, xs: seq<T>, key: T -> seq<string>)
    requires SortedBy(xs, key)
    ensures SortedBy(InsertByKey(x, xs, key), key)
    decreases |xs|
  {
    var r := InsertByKey(x, xs, key);
    if xs == [] {
    } else if KeyLt(key(x), key(xs[0])) {
      forall j | 0 < j < |r| ensures !KeyLt(key(r[j]), key(x)) {
        if KeyLt(key(xs[j - 1]), key(x)) {
          KeyLtTransitive(key(xs[j - 1]), key(x), key(xs[0]));
          KeyLtIrreflexive(key(xs[0]));
        }
      }
    } else {
      var t := InsertByKey(x, xs[1..], key);
      InsertByKeySorted(x, xs[1..], key);
      assert NoneBelow(xs[1..], key, key(xs[0]));
      InsertByKeyBelow(x, xs[1..], key, key(xs[0]));
      assert r == [xs[0]] + t;
    }
  }

  /** Python's `list.sort(key=key)` for keys that are tuples of strings: the
      result is ordered by key and is a rearrangement of the input. */
  method SortByKey<T>(xs: seq<T>, key: T -> seq<string>) returns (ys: seq<T>)
    ensures SortedBy(ys, key)
    ensures multiset(ys) == multiset(xs)
  {
    ys := [];
    var i := 0;
    while i < |xs|
      invariant 0 <= i <= |xs|
      invariant SortedBy(ys, key)
      invariant multiset(ys) == multiset(xs[..i])
    {
      InsertByKeySorted(xs[i], ys, key);
      InsertByKeyPermutes(xs[i], ys, key);
      ys := InsertByKey(xs[i], ys, key);
      assert xs[..i + 1] == xs[..i] + [xs[i]];
      i := i + 1;
    }
    assert xs[..i] == xs;
  }

  /** A list ordered by key whose keys are pairwise different is strictly
      ascending by key. */
  lemma SortedByDistinctKeys<T>(xs: seq<T>, key: T -> seq<string>)
    requires SortedBy(xs, key)
    requires forall i, j :: 0 <= i < |xs| && 0 <= j < |xs| ==> |key(xs[i])| == |key(xs[j])|
    requires forall i, j :: 0 <= i < j < |xs| ==> key(xs[i]) != key(xs[j])
    ensures forall i, j :: 0 <= i < j < |xs| ==> KeyLt(key(xs[i]), key(xs[j]))
  {
    forall i, j | 0 <= i < j < |xs| ensures KeyLt(key(xs[i]), key(xs[j])) {
      KeyLtTrichotomy(key(xs[i]), key(xs[j]));
    }
  }

  /** Two sequences strictly ascending by a tuple key and holding the same
      elements are the same sequence. */
  lemma {:induction false} KeyAscendingUnique<T>(xs: seq<T>, ys: seq<T>, key: T -> seq<string>)
    requires forall i, j :: 0 <= i < j < |xs| ==> KeyLt(key(xs[i]), key(xs[j]))
    requires forall i, j :: 0 <= i < j < |ys| ==> KeyLt(key(ys[i]), key(ys[j]))
    requires forall z :: z in xs <==> z in ys
    ensures xs == ys
    decreases |xs|
  {
    if xs != [] && ys != [] {
      var x, y := xs[0], ys[0];
      if x != y {
        assert x in ys && y in xs;
        var i :| 0 <= i < |ys| && ys[i] == x;
        var j :| 0 <= j < |xs| && xs[j] == y;
        assert KeyLt(key(y), key(x)) && KeyLt(key(x), key(y));
        KeyLtAsymmetric(key(x), key(y));
      }
      forall z ensures z in xs[1..] <==> z in ys[1..] {
        if z in xs[1..] {
          var i :| 1 <= i < |xs| && xs[i] == z;
          KeyLtIrreflexive(key(z));
          assert z in ys && z != ys[0];
          var k :| 0 <= k < |ys| && ys[k] == z;
          assert ys[1..][k - 1] == z;
        }
        if z in ys[1..] {
          var i :| 1 <= i < |ys| && ys[i] == z;
          KeyLtIrreflexive(key(z));
          assert z in xs && z != xs[0];
          var k :| 0 <= k < |xs| && xs[k] == z;
          assert xs[1..][k - 1] == z;
        }
      }
      KeyAscendingUnique(xs[1..], ys[1..], key);
      assert xs == [x] + xs[1..] && ys == [y] + ys[1..];
    } else {
      HeadIsMember(xs);
      HeadIsMember(ys);
    }
  }
}
