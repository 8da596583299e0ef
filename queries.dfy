/**
 * The two query shapes the views use on a table held in primary-key order:
 * `.filter(...).all()` keeps the matching rows in order, and
 * `.filter(...).first()` takes the earliest match.
 */
module Queries {
  import opened Wrappers

  /** The rows of `s` that satisfy `p`, in order. */
  function Keep<T(!new)>(s: seq<T>, p: T -> bool): (r: seq<T>)
    ensures |r| <= |s|
    ensures forall x :: x in r <==> x in s && p(x)
  {
    if |s| == 0 then []
    else (if p(s[0]) then [s[0]] else []) + Keep(s[1..], p)
  }

  /** Filtering keeps the order of the rows: the rows of a + b are the rows of a, then those of b. */
  lemma {:induction false} KeepAppend<T(!new)>(a: seq<T>, b: seq<T>, p: T -> bool)
    ensures Keep(a + b, p) == Keep(a, p) + Keep(b, p)
    decreases |a|
  {
    if |a| > 0 {
      assert (a + b)[1..] == a[1..] + b;
      KeepAppend(a[1..], b, p);
    } else {
      assert a + b == b;
    }
  }

  /** The first row of `s` that satisfies `p`, if any. */
  function First<T(!new)>(s: seq<T>, p: T -> bool): (r: Option<T>)
    ensures r.Some? ==> r.value in s && p(r.value)
    ensures r.None? <==> forall x :: x in s ==> !p(x)
  {
    if |s| == 0 then None
    else if p(s[0]) then Some(s[0])
    else First(s[1..], p)
  }

  /** `first()` picks the earliest matching row. */
  lemma {:induction false} FirstIsEarliest<T(!new)>(s: seq<T>, p: T -> bool)
    requires exists i :: 0 <= i < |s| && p(s[i])
    ensures exists i :: 0 <= i < |s| && First(s, p) == Some(s[i]) && forall j :: 0 <= j < i ==> !p(s[j])
  {
    if p(s[0]) {
      assert First(s, p) == Some(s[0]);
    } else {
      var k :| 0 <= k < |s| && p(s[k]);
      assert p(s[1..][k - 1]);
      FirstIsEarliest(s[1..], p);
      var i :| 0 <= i < |s[1..]| && First(s[1..], p) == Some(s[1..][i]) && forall j :: 0 <= j < i ==> !p(s[1..][j]);
      assert First(s, p) == Some(s[i + 1]);
      forall j | 0 <= j < i + 1 ensures !p(s[j]) {
        if j > 0 { assert s[j] == s[1..][j - 1]; }
      }
    }
  }
}
