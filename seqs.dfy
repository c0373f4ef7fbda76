/** Row selection over a table, as the engine's boolean masks do it: keep the
    rows a predicate accepts, in table order. */
module Seqs {

  function Filter<T(!new)>(s: seq<T>, p: T -> bool): (r: seq<T>)
    ensures |r| <= |s|
    ensures forall x :: x in r <==> x in s && p(x)
  {
    if s == [] then [] else (if p(s[0]) then [s[0]] else []) + Filter(s[1..], p)
  }

  /** Selecting from two stacked tables selects from each, keeping their order. */
  lemma {:induction false} FilterAppend<T(!new)>(a: seq<T>, b: seq<T>, p: T -> bool)
    ensures Filter(a + b, p) == Filter(a, p) + Filter(b, p)
  {
    if a == [] {
      assert a + b == b;
    } else {
      assert (a + b)[0] == a[0] && (a + b)[1..] == a[1..] + b;
      FilterAppend(a[1..], b, p);
      assert Filter(a + b, p) == (if p(a[0]) then [a[0]] else []) + Filter(a[1..] + b, p);
    }
  }

  /** `x` is the first element of `s` that `p` accepts. */
  ghost predicate IsFirst<T>(s: seq<T>, x: T, p: T -> bool) {
    exists k :: 0 <= k < |s| && s[k] == x && p(x) && forall j :: 0 <= j < k ==> !p(s[j])
  }

  /** A sequence has only one first element that a predicate accepts. */
  lemma FirstUnique<T>(s: seq<T>, x: T, y: T, p: T -> bool)
    requires IsFirst(s, x, p) && IsFirst(s, y, p)
    ensures x == y
  {
    var k :| 0 <= k < |s| && s[k] == x && p(x) && forall j :: 0 <= j < k ==> !p(s[j]);
    var m :| 0 <= m < |s| && s[m] == y && p(y) && forall j :: 0 <= j < m ==> !p(s[j]);
  }

  /** The first selected row is the first row of the table the predicate accepts. */
  lemma {:induction false} FilterFirst<T(!new)>(s: seq<T>, p: T -> bool)
    requires Filter(s, p) != []
    ensures IsFirst(s, Filter(s, p)[0], p)
  {
    if !p(s[0]) {
      FilterFirst(s[1..], p);
      var k :| 0 <= k < |s[1..]| && s[1..][k] == Filter(s[1..], p)[0] && p(s[1..][k])
                && forall j :: 0 <= j < k ==> !p(s[1..][j]);
      assert s[k + 1] == Filter(s, p)[0];
      forall j | 0 <= j < k + 1 ensures !p(s[j]) {
        if j > 0 { assert s[j] == s[1..][j - 1]; }
      }
    } else {
      assert s[0] == Filter(s, p)[0];
    }
  }

  /** Two predicates that agree on every row select the same rows. */
  lemma {:induction false} FilterExtensional<T(!new)>(s: seq<T>, p: T -> bool, q: T -> bool)
    requires forall x :: x in s ==> p(x) == q(x)
    ensures Filter(s, p) == Filter(s, q)
  {
    if s != [] {
      FilterExtensional(s[1..], p, q);
    }
  }

  /** Selecting with `p` and then with `q` is selecting with one predicate
      that accepts exactly the rows both accept. */
  lemma {:induction false} FilterFilter<T(!new)>(s: seq<T>, p: T -> bool, q: T -> bool, both: T -> bool)
    requires forall x :: x in s ==> both(x) == (p(x) && q(x))
    ensures Filter(Filter(s, p), q) == Filter(s, both)
  {
    if s != [] {
      FilterFilter(s[1..], p, q, both);
      FilterAppend(if p(s[0]) then [s[0]] else [], Filter(s[1..], p), q);
    }
  }

  /** Selecting twice with the same predicate selects nothing more. */
  lemma {:induction false} FilterIdempotent<T(!new)>(s: seq<T>, p: T -> bool)
    ensures Filter(Filter(s, p), p) == Filter(s, p)
  {
    if s != [] {
      FilterIdempotent(s[1..], p);
      var head := if p(s[0]) then [s[0]] else [];
      FilterAppend(head, Filter(s[1..], p), p);
      if p(s[0]) {
        assert Filter(head, p) == [s[0]] + Filter(head[1..], p);
        assert head[1..] == [];
      }
    }
  }

  /** Nothing is selected exactly when no row is accepted. */
  lemma FilterEmpty<T(!new)>(s: seq<T>, p: T -> bool)
    ensures Filter(s, p) == [] <==> forall x :: x in s ==> !p(x)
  {
    if Filter(s, p) != [] {
      assert Filter(s, p)[0] in Filter(s, p);
    }
  }

  /** A column of a table: `f` applied to every row, in order. */
  function Map<T, U>(s: seq<T>, f: T -> U): (r: seq<U>)
    ensures |r| == |s|
    ensures forall k :: 0 <= k < |s| ==> r[k] == f(s[k])
  {
    seq(|s|, k requires 0 <= k < |s| => f(s[k]))
  }

  /** A value is in the column exactly when some row yields it. */
  lemma MapMembers<T, U>(s: seq<T>, f: T -> U)
    ensures forall y :: y in Map(s, f) <==> exists x :: x in s && f(x) == y
  {
    var r := Map(s, f);
    forall y | y in r ensures exists x :: x in s && f(x) == y {
      var k :| 0 <= k < |r| && r[k] == y;
      assert s[k] in s;
    }
    forall y | exists x :: x in s && f(x) == y ensures y in r {
      var x :| x in s && f(x) == y;
      var k :| 0 <= k < |s| && s[k] == x;
      assert r[k] == y;
    }
  }
}
