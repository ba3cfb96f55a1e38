/**
 Order-preserving selection from a sequence (the behaviour of JavaScript's
 `Array.prototype.filter` on a dense array), and an independent reference
 definition of "subsequence" against which it is proved.
 */
module Sequences {

  /** `a` is obtained from `b` by dropping some elements and keeping the rest in order. */
  ghost predicate IsSubsequence<T(!new)>(a: seq<T>, b: seq<T>)
    decreases |b|
  {
    a == [] ||
    (b != [] && ((a[0] == b[0] && IsSubsequence(a[1..], b[1..])) || IsSubsequence(a, b[1..])))
  }

  /** The elements of `s` for which `keep` holds, in their original order. */
  function Filter<T(==,!new)>(s: seq<T>, keep: T -> bool): seq<T>
  {
    if s == [] then []
    else if keep(s[0]) then [s[0]] + Filter(s[1..], keep)
    else Filter(s[1..], keep)
  }

  /**
   What Filter computes: a subsequence of `s` that holds each element passing
   `keep` exactly as often as `s` does, and no element failing it.
   */
  lemma {:induction false} FilterSpec<T(!new)>(s: seq<T>, keep: T -> bool)
    ensures IsSubsequence(Filter(s, keep), s)
    ensures forall x :: multiset(Filter(s, keep))[x] == (if keep(x) then multiset(s)[x] else 0)
    decreases |s|
  {
    if s != [] {
      FilterSpec(s[1..], keep);
      var rest := Filter(s[1..], keep);
      assert s == [s[0]] + s[1..];
      if keep(s[0]) {
        assert ([s[0]] + rest)[1..] == rest;
      }
    }
  }

  lemma {:induction false} SubsequenceReflexive<T(!new)>(s: seq<T>)
    ensures IsSubsequence(s, s)
    decreases |s|
  {
    if s != [] {
      SubsequenceReflexive(s[1..]);
    }
  }

  /** A subsequence holds no element more often than the sequence it is taken from. */
  lemma {:induction false} SubsequenceMultiset<T(!new)>(a: seq<T>, b: seq<T>)
    requires IsSubsequence(a, b)
    ensures multiset(a) <= multiset(b)
    decreases |b|
  {
    if a != [] {
      assert b == [b[0]] + b[1..];
      if a[0] == b[0] && IsSubsequence(a[1..], b[1..]) {
        SubsequenceMultiset(a[1..], b[1..]);
        assert a == [a[0]] + a[1..];
      } else {
        SubsequenceMultiset(a, b[1..]);
      }
    }
  }

  /** Filtering keeps everything when every element passes. */
  lemma {:induction false} FilterKeepsAll<T(!new)>(s: seq<T>, keep: T -> bool)
    requires forall x :: x in s ==> keep(x)
    ensures Filter(s, keep) == s
    decreases |s|
  {
    if s != [] {
      assert s[0] in s;
      assert forall x :: x in s[1..] ==> x in s;
      FilterKeepsAll(s[1..], keep);
      assert s == [s[0]] + s[1..];
    }
  }

  /** Filtering a concatenation filters each part. */
  lemma {:induction false} FilterConcat<T(!new)>(a: seq<T>, b: seq<T>, keep: T -> bool)
    ensures Filter(a + b, keep) == Filter(a, keep) + Filter(b, keep)
    decreases |a|
  {
    if a == [] {
      assert a + b == b;
    } else {
      var head := if keep(a[0]) then [a[0]] else [];
      assert (a + b)[0] == a[0] && (a + b)[1..] == a[1..] + b;
      FilterConcat(a[1..], b, keep);
      calc {
        Filter(a + b, keep);
        head + Filter(a[1..] + b, keep);
        head + (Filter(a[1..], keep) + Filter(b, keep));
        (head + Filter(a[1..], keep)) + Filter(b, keep);
        Filter(a, keep) + Filter(b, keep);
      }
    }
  }

  /** Filtering out the one element that fails leaves the elements around it. */
  lemma FilterDropsOne<T(!new)>(a: seq<T>, x: T, b: seq<T>, keep: T -> bool)
    requires forall y :: y in a + b ==> keep(y)
    requires !keep(x)
    ensures Filter(a + [x] + b, keep) == a + b
  {
    assert forall y :: y in a ==> keep(y) by {
      forall y | y in a ensures keep(y) { assert y in a + b; }
    }
    assert forall y :: y in b ==> keep(y) by {
      forall y | y in b ensures keep(y) { assert y in a + b; }
    }
    FilterKeepsAll(a, keep);
    FilterKeepsAll(b, keep);
    FilterConcat(a + [x], b, keep);
    FilterConcat(a, [x], keep);
    calc {
      Filter(a + [x] + b, keep);
      Filter(a + [x], keep) + Filter(b, keep);
      Filter(a, keep) + Filter([x], keep) + Filter(b, keep);
      { assert [x][1..] == []; }
      a + [] + b;
      { assert a + [] == a; }
      a + b;
    }
  }

  /**
   Filter is the only subsequence of `s` that holds exactly the elements of
   `s` passing `keep`, each as often as in `s`.
   */
  lemma {:induction false} FilterUnique<T(!new)>(s: seq<T>, keep: T -> bool, r: seq<T>)
    requires IsSubsequence(r, s)
    requires forall x :: multiset(r)[x] == (if keep(x) then multiset(s)[x] else 0)
    ensures r == Filter(s, keep)
    decreases |s|
  {
    FilterSpec(s, keep);
    if r != [] {
      assert s != [];
      assert s == [s[0]] + s[1..];
      assert r == [r[0]] + r[1..];
      var m := multiset(s[1..]);
      if keep(s[0]) {
        if !(r[0] == s[0] && IsSubsequence(r[1..], s[1..])) {
          SubsequenceMultiset(r, s[1..]);
          assert false;
        }
        forall x ensures multiset(r[1..])[x] == (if keep(x) then m[x] else 0) {
          assert multiset(r)[x] == multiset(r[1..])[x] + (if x == s[0] then 1 else 0);
          assert multiset(s)[x] == m[x] + (if x == s[0] then 1 else 0);
        }
        FilterUnique(s[1..], keep, r[1..]);
      } else {
        assert multiset(r)[r[0]] > 0;
        assert keep(r[0]);
        forall x ensures multiset(r)[x] == (if keep(x) then m[x] else 0) {
          assert multiset(s)[x] == m[x] + (if x == s[0] then 1 else 0);
        }
        FilterUnique(s[1..], keep, r);
      }
    }
  }

  /**
   Filtering by a predicate and by its negation splits the sequence: the two
   results together hold every element exactly as often as the sequence does.
   */
  lemma {:induction false} FilterPartition<T(!new)>(s: seq<T>, keep: T -> bool, drop: T -> bool)
    requires forall x :: drop(x) == !keep(x)
    ensures multiset(Filter(s, keep)) + multiset(Filter(s, drop)) == multiset(s)
    ensures |Filter(s, keep)| + |Filter(s, drop)| == |s|
  {
    FilterSpec(s, keep);
    FilterSpec(s, drop);
    var a, b := Filter(s, keep), Filter(s, drop);
    forall x ensures (multiset(a) + multiset(b))[x] == multiset(s)[x] {
      assert drop(x) == !keep(x);
    }
    assert multiset(a) + multiset(b) == multiset(s);
    assert |multiset(a) + multiset(b)| == |multiset(a)| + |multiset(b)|;
  }
}
