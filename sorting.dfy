/**
 * Python's `sorted()` applied to a collection of distinct strings (dictionary
 * keys, directory entries): the unique strictly increasing listing of a set.
 */
module Sorting {
  import opened Strings

  predicate StrictlySorted(s: seq<string>) {
    forall i, j :: 0 <= i < j < |s| ==> LexLess(s[i], s[j])
  }

  /** Every non-empty finite set of strings has a least element. */
  lemma {:induction false} MinExists(s: set<string>)
    requires s != {}
    ensures exists m :: m in s && forall y :: y in s ==> m == y || LexLess(m, y)
  {
    var x :| x in s;
    if s == {x} {
      assert forall y :: y in s ==> x == y;
    } else {
      var t := s - {x};
      MinExists(t);
      var m :| m in t && forall y :: y in t ==> m == y || LexLess(m, y);
      MinOfAdd(t, x, m);
      assert s == t + {x};
    }
  }

  /** Adding `x` to a set with least element `m`: the smaller of `m` and `x` is least. */
  lemma MinOfAdd(t: set<string>, x: string, m: string)
    requires m in t && x !in t
    requires forall y :: y in t ==> m == y || LexLess(m, y)
    ensures var w := if LexLess(m, x) then m else x;
      w in t + {x} && forall y :: y in t + {x} ==> w == y || LexLess(w, y)
  {
    if !LexLess(m, x) {
      LexLessTotal(m, x);
      forall y | y in t + {x} ensures x == y || LexLess(x, y) {
        if y != x && y != m {
          LexLessTransitive(x, m, y);
        }
      }
    }
  }

  /** The sorted listing of `s` (the specification of `sorted(s)`). */
  ghost function SortedListing(s: set<string>): (r: seq<string>)
    ensures StrictlySorted(r)
    ensures forall x :: x in r <==> x in s
    decreases s
  {
    if s == {} then []
    else
      MinExists(s);
      var m :| m in s && forall y :: y in s ==> m == y || LexLess(m, y);
      var rest := SortedListing(s - {m});
      assert forall j :: 0 <= j < |rest| ==> LexLess(m, rest[j]);
      [m] + rest
  }

  /** `x` put into place in the sorted `s` (nothing is added when it is already there). */
  function Insert(x: string, s: seq<string>): (r: seq<string>)
    requires StrictlySorted(s)
    ensures StrictlySorted(r)
    ensures forall y :: y in r <==> y == x || y in s
  {
    if s == [] then [x]
    else if x == s[0] then s
    else if LexLess(x, s[0]) then
      forall j | 0 < j < |s| ensures LexLess(x, s[j]) {
        LexLessTransitive(x, s[0], s[j]);
      }
      [x] + s
    else
      LexLessTotal(x, s[0]);
      var t := Insert(x, s[1..]);
      assert forall j :: 0 <= j < |t| ==> t[j] == x || t[j] in s[1..];
      [s[0]] + t
  }

  /** Two strictly sorted listings of the same elements are the same listing. */
  lemma {:induction false} ListingUnique(a: seq<string>, b: seq<string>)
    requires StrictlySorted(a) && StrictlySorted(b)
    requires forall x :: x in a <==> x in b
    ensures a == b
  {
    assert a != [] ==> a[0] in b;
    assert b != [] ==> b[0] in a;
    if a != [] && b != [] {
      if a[0] != b[0] {
        assert b[0] in a && a[0] in b;
        assert LexLess(a[0], b[0]) by {
          var j :| 0 <= j < |a| && a[j] == b[0];
          assert j != 0;
        }
        assert LexLess(b[0], a[0]) by {
          var j :| 0 <= j < |b| && b[j] == a[0];
          assert j != 0;
        }
        LexLessAsymmetric(a[0], b[0]);
      }
      forall x ensures x in a[1..] <==> x in b[1..] {
        if x in a[1..] {
          var j :| 0 <= j < |a| - 1 && a[1..][j] == x;
          assert LexLess(a[0], a[j + 1]);
          if x == a[0] { LexLessIrreflexive(a[0]); }
          assert a[j + 1] == x && x in a && x in b;
          var k :| 0 <= k < |b| && b[k] == x;
          assert b[1..][k - 1] == x;
        }
        if x in b[1..] {
          var j :| 0 <= j < |b| - 1 && b[1..][j] == x;
          assert LexLess(b[0], b[j + 1]);
          if x == b[0] { LexLessIrreflexive(b[0]); }
          assert b[j + 1] == x && x in b && x in a;
          var k :| 0 <= k < |a| && a[k] == x;
          assert a[1..][k - 1] == x;
        }
      }
      ListingUnique(a[1..], b[1..]);
    }
  }

  /** `sorted(list(s))`: the strings of `s` in increasing order. */
  method SortStrings(s: set<string>) returns (r: seq<string>)
    ensures r == SortedListing(s)
  {
    var rest := s;
    r := [];
    while rest != {}
      invariant StrictlySorted(r)
      invariant forall x :: x in s <==> x in r || x in rest
      invariant forall x :: x in r ==> x !in rest
      decreases rest
    {
      var x :| x in rest;
      r := Insert(x, r);
      rest := rest - {x};
    }
    ListingUnique(r, SortedListing(s));
  }
}
