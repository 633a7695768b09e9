/** Optional values and the sequence helpers the menu-cache model is built from.
    `Filter` is JavaScript's `Array.prototype.filter` and also the order-preserving
    scan a `SELECT` with a `WHERE` clause performs over a table. */
module Seqs {

  /** A value that may be absent: SQL `NULL`, a missing table, a failed fetch. */
  datatype Option<T> = None | Some(value: T)

  /** A value or the error that replaced it. */
  datatype Result<T, E> = Success(value: T) | Failure(error: E)

  /** No element occurs twice. */
  predicate NoDup<T(==)>(s: seq<T>) {
    forall i, j | 0 <= i < j < |s| :: s[i] != s[j]
  }

  /** The elements of `s` that satisfy `keep`, in their original order. */
  function Filter<T(!new)>(s: seq<T>, keep: T -> bool): (r: seq<T>)
    ensures |r| <= |s|
    ensures forall i | 0 <= i < |r| :: keep(r[i])
  {
    if |s| == 0 then []
    else (if keep(s[0]) then [s[0]] else []) + Filter(s[1..], keep)
  }

  /** The filter keeps exactly the elements of `s` that pass `keep`. */
  lemma {:induction false} FilterMembers<T(!new)>(s: seq<T>, keep: T -> bool)
    ensures forall x :: x in Filter(s, keep) <==> x in s && keep(x)
  {
    if |s| > 0 {
      FilterMembers(s[1..], keep);
      assert forall x :: x in s <==> x == s[0] || x in s[1..];
    }
  }

  /** Filtering distributes over concatenation, so it keeps relative order. */
  lemma {:induction false} FilterAppend<T(!new)>(a: seq<T>, b: seq<T>, keep: T -> bool)
    ensures Filter(a + b, keep) == Filter(a, keep) + Filter(b, keep)
  {
    if |a| == 0 {
      assert a + b == b;
    } else {
      assert (a + b)[0] == a[0];
      assert (a + b)[1..] == a[1..] + b;
      FilterAppend(a[1..], b, keep);
    }
  }

  /** A filter that keeps every element is the identity. */
  lemma {:induction false} FilterKeepsAll<T(!new)>(s: seq<T>, keep: T -> bool)
    requires forall i | 0 <= i < |s| :: keep(s[i])
    ensures Filter(s, keep) == s
  {
    if |s| > 0 {
      FilterKeepsAll(s[1..], keep);
      assert [s[0]] + s[1..] == s;
    }
  }

  /** Two tests that agree on every element select the same subsequence. */
  lemma {:induction false} FilterCongruent<T(!new)>(s: seq<T>, f: T -> bool, g: T -> bool)
    requires forall i | 0 <= i < |s| :: f(s[i]) == g(s[i])
    ensures Filter(s, f) == Filter(s, g)
  {
    if |s| > 0 {
      FilterCongruent(s[1..], f, g);
    }
  }

  /** A filter that rejects exactly the element at `i` cuts that element out. */
  lemma {:induction false} FilterDropsOne<T(!new)>(s: seq<T>, keep: T -> bool, i: nat)
    requires i < |s| && !keep(s[i])
    requires forall j | 0 <= j < |s| && j != i :: keep(s[j])
    ensures Filter(s, keep) == s[..i] + s[i + 1..]
  {
    var tail := s[1..];
    assert Filter(s, keep) == (if keep(s[0]) then [s[0]] else []) + Filter(tail, keep);
    if i == 0 {
      assert Filter(tail, keep) == tail by {
        assert forall j | 0 <= j < |tail| :: tail[j] == s[j + 1];
        FilterKeepsAll(tail, keep);
      }
      assert s[..0] + s[1..] == tail;
    } else {
      assert Filter(tail, keep) == tail[..i - 1] + tail[i..] by {
        assert forall j | 0 <= j < |tail| && j != i - 1 :: tail[j] == s[j + 1];
        FilterDropsOne(tail, keep, i - 1);
      }
      assert [s[0]] + tail[..i - 1] == s[..i];
      assert tail[i..] == s[i + 1..];
    }
  }

  /** Filtering a duplicate-free sequence leaves it duplicate-free. */
  lemma {:induction false} FilterNoDup<T(!new)>(s: seq<T>, keep: T -> bool)
    requires NoDup(s)
    ensures NoDup(Filter(s, keep))
  {
    if |s| > 0 {
      var rest := Filter(s[1..], keep);
      FilterNoDup(s[1..], keep);
      FilterMembers(s[1..], keep);
      assert s[0] !in s[1..] by {
        assert forall j | 0 <= j < |s[1..]| :: s[1..][j] == s[j + 1] != s[0];
      }
      assert s[0] !in rest;
    }
  }

  /** How many times `x` occurs in `s`. */
  function Count<T(==)>(s: seq<T>, x: T): (n: nat)
    ensures n <= |s|
    ensures n == 0 <==> x !in s
  {
    if |s| == 0 then 0
    else (if s[0] == x then 1 else 0) + Count(s[1..], x)
  }

  lemma {:induction false} CountAppend<T>(a: seq<T>, b: seq<T>, x: T)
    ensures Count(a + b, x) == Count(a, x) + Count(b, x)
  {
    if |a| == 0 {
      assert a + b == b;
    } else {
      assert (a + b)[0] == a[0];
      assert (a + b)[1..] == a[1..] + b;
      CountAppend(a[1..], b, x);
    }
  }

  /** An element counted once occurs at no other index. */
  lemma CountOnce<T>(s: seq<T>, x: T, a: int)
    requires Count(s, x) == 1
    requires 0 <= a < |s| && s[a] == x
    ensures forall i | 0 <= i < |s| && i != a :: s[i] != x
  {
    assert s == s[..a] + [s[a]] + s[a + 1..];
    CountAppend(s[..a] + [s[a]], s[a + 1..], x);
    CountAppend(s[..a], [s[a]], x);
    forall i | 0 <= i < |s| && i != a
      ensures s[i] != x
    {
      if i < a {
        assert s[..a][i] == s[i];
      } else {
        assert s[a + 1..][i - a - 1] == s[i];
      }
    }
  }

  /** A duplicate-free sequence drawn from `t` is no longer than `t`. */
  lemma {:induction false} NoDupWithin<T>(s: seq<T>, t: seq<T>)
    requires NoDup(s)
    requires forall x | x in s :: x in t
    ensures |s| <= |t|
    decreases |s|
  {
    if |s| > 0 {
      assert s[0] in s;
      var j :| 0 <= j < |t| && t[j] == s[0];
      var rest := t[..j] + t[j + 1..];
      forall y | y in s[1..]
        ensures y in rest
      {
        var i :| 1 <= i < |s| && s[i] == y;
        assert s[i] in s && y != s[0];
        var k :| 0 <= k < |t| && t[k] == y;
        if k < j {
          assert rest[k] == y;
        } else {
          assert rest[k - 1] == y;
        }
      }
      NoDupWithin(s[1..], rest);
    }
  }

  /** `n` copies of `x`. */
  function Repeat<T>(x: T, n: nat): (r: seq<T>)
    ensures |r| == n
    ensures forall i | 0 <= i < n :: r[i] == x
  {
    if n == 0 then [] else [x] + Repeat(x, n - 1)
  }

  /** The distinct elements of `s`, each at its first occurrence. */
  function Distinct<T(==,!new)>(s: seq<T>): (r: seq<T>)
    ensures NoDup(r)
    ensures forall x :: x in r <==> x in s
  {
    if |s| == 0 then []
    else
      var d := Distinct(s[..|s| - 1]);
      assert forall x :: x in s <==> x in s[..|s| - 1] || x == s[|s| - 1] by {
        assert s == s[..|s| - 1] + [s[|s| - 1]];
      }
      if s[|s| - 1] in d then d else d + [s[|s| - 1]]
  }
}
