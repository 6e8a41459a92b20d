/**
 Sequence helpers that the graph store's validation and ordering rely on:
 distinctness, the array `filter` and `indexOf` the store's validators use,
 and order-preserving removal of a set of elements.
 */
module Seqs {

  /** No element occurs twice. */
  predicate Distinct<T(==)>(s: seq<T>)
  {
    forall i, j :: 0 <= i < j < |s| ==> s[i] != s[j]
  }

  lemma DistinctAppend<T>(a: seq<T>, b: seq<T>)
    requires Distinct(a) && Distinct(b)
    requires forall x :: x in a ==> x !in b
    ensures Distinct(a + b)
  {
    forall i, j | 0 <= i < j < |a + b|
      ensures (a + b)[i] != (a + b)[j]
    {
      if j < |a| {
      } else if i >= |a| {
        assert (a + b)[i] == b[i - |a|] && (a + b)[j] == b[j - |a|];
      } else {
        assert (a + b)[i] in a && (a + b)[j] in b;
      }
    }
  }

  lemma {:induction false} DistinctTail<T>(s: seq<T>)
    requires Distinct(s) && s != []
    ensures Distinct(s[1..]) && s[0] !in s[1..]
  {
    forall i, j | 0 <= i < j < |s[1..]| ensures s[1..][i] != s[1..][j] {
      assert s[1..][i] == s[i + 1] && s[1..][j] == s[j + 1];
    }
    forall j | 0 <= j < |s[1..]| ensures s[1..][j] != s[0] {
      assert s[1..][j] == s[j + 1];
    }
  }

  lemma AppendAssoc<T>(a: seq<T>, b: seq<T>, c: seq<T>)
    ensures (a + b) + c == a + (b + c)
  {
  }

  /** `s.filter(p)`: the elements of `s` satisfying `p`, in their order. */
  function Filter<T>(s: seq<T>, p: T -> bool): (r: seq<T>)
    ensures forall i :: 0 <= i < |r| ==> r[i] in s && p(r[i])
    ensures forall i :: 0 <= i < |s| && p(s[i]) ==> s[i] in r
    ensures |r| <= |s|
  {
    if s == [] then []
    else (if p(s[0]) then [s[0]] else []) + Filter(s[1..], p)
  }

  /** The elements of `s` that are not in `drop`, in their original order. */
  function Keep<T(==)>(s: seq<T>, drop: set<T>): (r: seq<T>)
    ensures forall i :: 0 <= i < |r| ==> r[i] in s && r[i] !in drop
    ensures forall i :: 0 <= i < |s| && s[i] !in drop ==> s[i] in r
    ensures |r| <= |s|
  {
    if s == [] then []
    else (if s[0] in drop then [] else [s[0]]) + Keep(s[1..], drop)
  }

  lemma {:induction false} KeepDistinct<T>(s: seq<T>, drop: set<T>)
    requires Distinct(s)
    ensures Distinct(Keep(s, drop))
  {
    if s != [] {
      KeepDistinct(s[1..], drop);
      assert s[0] !in s[1..] by {
        forall j | 0 <= j < |s[1..]| ensures s[1..][j] != s[0] {
          assert s[1..][j] == s[j + 1];
        }
      }
      DistinctAppend(if s[0] in drop then [] else [s[0]], Keep(s[1..], drop));
    }
  }

  /** Removing two sets one after the other removes their union. */
  lemma {:induction false} KeepKeep<T>(s: seq<T>, a: set<T>, b: set<T>)
    ensures Keep(Keep(s, a), b) == Keep(s, a + b)
  {
    if s != [] {
      KeepKeep(s[1..], a, b);
      if s[0] in a {
        assert Keep(s, a) == Keep(s[1..], a);
      } else {
        var k := Keep(s, a);
        assert k == [s[0]] + Keep(s[1..], a);
        assert k[0] == s[0] && k[1..] == Keep(s[1..], a);
        assert Keep(k, b) == (if s[0] in b then [] else [s[0]]) + Keep(k[1..], b);
      }
    }
  }

  /** Removing elements that do not occur changes nothing. */
  lemma {:induction false} KeepNothing<T>(s: seq<T>, drop: set<T>)
    requires forall x :: x in s ==> x !in drop
    ensures Keep(s, drop) == s
  {
    if s != [] {
      assert s[0] in s;
      KeepNothing(s[1..], drop);
    }
  }

  /** Only the dropped elements that occur in the sequence matter. */
  lemma {:induction false} KeepSameOn<T>(s: seq<T>, a: set<T>, b: set<T>)
    requires forall x :: x in s ==> (x in a <==> x in b)
    ensures Keep(s, a) == Keep(s, b)
    decreases s
  {
    if s != [] {
      assert forall x :: x in s[1..] ==> x in s;
      KeepSameOn(s[1..], a, b);
    }
  }

  /** Removal commutes with appending at the end. */
  lemma {:induction false} KeepAppend<T>(s: seq<T>, t: seq<T>, drop: set<T>)
    ensures Keep(s + t, drop) == Keep(s, drop) + Keep(t, drop)
  {
    if s == [] {
      assert s + t == t;
    } else {
      assert (s + t)[0] == s[0] && (s + t)[1..] == s[1..] + t;
      KeepAppend(s[1..], t, drop);
    }
  }

  /** `s.indexOf(x)`: the first position holding `x`, or -1. */
  function IndexOf<T(==)>(s: seq<T>, x: T): (r: int)
    ensures -1 <= r < |s|
    ensures r == -1 <==> x !in s
    ensures r >= 0 ==> s[r] == x && forall k :: 0 <= k < r ==> s[k] != x
  {
    if s == [] then -1
    else if s[0] == x then 0
    else
      var k := IndexOf(s[1..], x);
      if k == -1 then -1 else k + 1
  }

  /** The elements among the first `n` that are not at the position
      `indexOf` reports for them, i.e. every later copy of a repeated value. */
  function RepeatsUpTo<T(==)>(s: seq<T>, n: nat): (r: seq<T>)
    requires n <= |s|
    ensures |r| == 0 <==> forall i :: 0 <= i < n ==> IndexOf(s, s[i]) == i
  {
    if n == 0 then []
    else
      RepeatsUpTo(s, n - 1) + (if IndexOf(s, s[n - 1]) != n - 1 then [s[n - 1]] else [])
  }

  /** `s.filter((x, index, array) => array.indexOf(x) !== index)`: empty exactly
      when `s` has no repeated element. */
  function Repeats<T(==)>(s: seq<T>): (r: seq<T>)
    ensures |r| == 0 <==> Distinct(s)
  {
    var r := RepeatsUpTo(s, |s|);
    if Distinct(s) then
      assert forall i :: 0 <= i < |s| ==> IndexOf(s, s[i]) == i by {
        forall i | 0 <= i < |s| ensures IndexOf(s, s[i]) == i {
          var k := IndexOf(s, s[i]);
          assert s[k] == s[i];
        }
      }
      r
    else
      assert exists i :: 0 <= i < |s| && IndexOf(s, s[i]) != i by {
        var i, j :| 0 <= i < j < |s| && s[i] == s[j];
        assert IndexOf(s, s[j]) <= i;
      }
      r
  }
}
