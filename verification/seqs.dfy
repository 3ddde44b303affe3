/**
 Sequence operations the scanner uses: filtering, Python's stable
 `list.sort(key=...)` on a string key, and the `list(set(...))`
 de-duplication.
 */
module Seqs {
  import opened Strings

  /** Elements of `s` satisfying `p`, in their original order. */
  function Filter<T(!new)>(s: seq<T>, p: T -> bool): (r: seq<T>)
    ensures |r| <= |s|
    ensures forall x :: x in r <==> x in s && p(x)
    ensures forall k :: 0 <= k < |r| ==> p(r[k])
  {
    if |s| == 0 then []
    else (if p(s[0]) then [s[0]] else []) + Filter(s[1..], p)
  }

  lemma FilterCons<T(!new)>(x: T, s: seq<T>, p: T -> bool)
    ensures Filter([x] + s, p) == (if p(x) then [x] else []) + Filter(s, p)
  {
    assert ([x] + s)[0] == x;
    assert ([x] + s)[1..] == s;
  }

  /** Nothing passes the filter when no element satisfies `p`. */
  lemma FilterNone<T(!new)>(s: seq<T>, p: T -> bool)
    requires forall x :: x in s ==> !p(x)
    ensures Filter(s, p) == []
  {
    if |Filter(s, p)| > 0 {
      assert Filter(s, p)[0] in Filter(s, p);
    }
  }

  /** Every element's key is at most every later element's key. */
  ghost predicate SortedBy<T>(s: seq<T>, key: T -> string) {
    forall i, j :: 0 <= i < j < |s| ==> StrLe(key(s[i]), key(s[j]))
  }

  ghost predicate Distinct<T>(s: seq<T>) {
    forall i, j :: 0 <= i < j < |s| ==> s[i] != s[j]
  }

  lemma {:induction false} FilterKeepsOrder<T(!new)>(s: seq<T>, p: T -> bool, key: T -> string)
    requires SortedBy(s, key)
    ensures SortedBy(Filter(s, p), key)
    decreases |s|
  {
    if |s| > 0 {
      FilterKeepsOrder(s[1..], p, key);
      var rest := Filter(s[1..], p);
      forall y | y in rest
        ensures StrLe(key(s[0]), key(y))
      {
        var j :| 0 <= j < |s[1..]| && s[1..][j] == y;
        assert s[j + 1] == y;
      }
      PrependSorted(s[0], rest, key);
    }
  }

  lemma PrependSorted<T>(x: T, s: seq<T>, key: T -> string)
    requires SortedBy(s, key)
    requires forall y :: y in s ==> StrLe(key(x), key(y))
    ensures SortedBy([x] + s, key)
  {
    forall i, j | 0 <= i < j < |[x] + s|
      ensures StrLe(key(([x] + s)[i]), key(([x] + s)[j]))
    {
      if i > 0 {
        assert ([x] + s)[i] == s[i - 1];
      }
      assert ([x] + s)[j] == s[j - 1];
    }
  }

  /**
   Inserts `x` after every element whose key is at most `x`'s key, which
   keeps equal keys in arrival order.
   */
  function Insert<T>(x: T, s: seq<T>, key: T -> string): (r: seq<T>)
    requires SortedBy(s, key)
    ensures SortedBy(r, key)
    ensures multiset(r) == multiset(s) + multiset{x}
    decreases |s|
  {
    if |s| == 0 then [x]
    else if StrLe(key(s[0]), key(x)) then
      var rest := Insert(x, s[1..], key);
      assert s == [s[0]] + s[1..];
      HeadIsLeast(s, key);
      LowerBoundKept(key(s[0]), rest, s[1..], x, key);
      PrependSorted(s[0], rest, key);
      [s[0]] + rest
    else
      BelowHead(x, s, key);
      PrependSorted(x, s, key);
      [x] + s
  }

  /** The head of a sorted sequence has the least key. */
  lemma HeadIsLeast<T>(s: seq<T>, key: T -> string)
    requires SortedBy(s, key) && |s| > 0
    ensures forall y :: y in s[1..] ==> StrLe(key(s[0]), key(y))
  {
    forall y | y in s[1..]
      ensures StrLe(key(s[0]), key(y))
    {
      var j :| 0 <= j < |s[1..]| && s[1..][j] == y;
      assert s[j + 1] == y;
    }
  }

  /** A lower bound on the keys of `s` and of `x` bounds every element of a permutation of `s + [x]`. */
  lemma LowerBoundKept<T>(lo: string, rest: seq<T>, s: seq<T>, x: T, key: T -> string)
    requires multiset(rest) == multiset(s) + multiset{x}
    requires StrLe(lo, key(x))
    requires forall y :: y in s ==> StrLe(lo, key(y))
    ensures forall y :: y in rest ==> StrLe(lo, key(y))
  {
    forall y | y in rest
      ensures StrLe(lo, key(y))
    {
      assert y in multiset(rest);
      if y != x {
        assert y in multiset(s);
      }
    }
  }

  /** An element whose key is below the head's is below every key of a sorted sequence. */
  lemma BelowHead<T>(x: T, s: seq<T>, key: T -> string)
    requires SortedBy(s, key) && |s| > 0
    requires !StrLe(key(s[0]), key(x))
    ensures forall y :: y in s ==> StrLe(key(x), key(y))
  {
    StrLeTotal(key(s[0]), key(x));
    forall y | y in s
      ensures StrLe(key(x), key(y))
    {
      var j :| 0 <= j < |s| && s[j] == y;
      if j > 0 {
        StrLeTransitive(key(x), key(s[0]), key(y));
      }
    }
  }

  /** Python's stable `sorted(s, key=key)` with code-point string order. */
  function SortBy<T>(s: seq<T>, key: T -> string): (r: seq<T>)
    ensures SortedBy(r, key)
    ensures multiset(r) == multiset(s)
    ensures |r| == |s|
    decreases |s|
  {
    if |s| == 0 then []
    else
      assert s == s[..|s| - 1] + [s[|s| - 1]];
      var r := Insert(s[|s| - 1], SortBy(s[..|s| - 1], key), key);
      assert |r| == |multiset(r)|;
      r
  }

  /** One copy of every element of `s`, as `list(set(s))` keeps. */
  function Dedup<T(==,!new)>(s: seq<T>): (r: seq<T>)
    ensures Distinct(r)
    ensures forall x :: x in r <==> x in s
  {
    if |s| == 0 then []
    else
      var rest := Dedup(s[1..]);
      if s[0] in rest then rest
      else
        assert forall k :: 0 < k < |[s[0]] + rest| ==> ([s[0]] + rest)[k] == rest[k - 1];
        [s[0]] + rest
  }

  lemma {:induction false} DistinctOccursOnce<T>(s: seq<T>, x: T)
    requires Distinct(s)
    ensures multiset(s)[x] <= 1
    decreases |s|
  {
    if |s| > 0 {
      assert s == [s[0]] + s[1..];
      assert Distinct(s[1..]) by {
        forall i, j | 0 <= i < j < |s[1..]|
          ensures s[1..][i] != s[1..][j]
        {
          assert s[i + 1] != s[j + 1];
        }
      }
      DistinctOccursOnce(s[1..], x);
      if s[0] == x {
        assert x !in s[1..] by {
          assert forall j :: 0 <= j < |s[1..]| ==> s[1..][j] == s[j + 1];
        }
      }
    }
  }

  /** Reordering cannot create a duplicate: distinctness is a property of the multiset. */
  lemma PermutationKeepsDistinct<T>(a: seq<T>, b: seq<T>)
    requires multiset(a) == multiset(b)
    requires Distinct(a)
    ensures Distinct(b)
  {
    forall i, j | 0 <= i < j < |b|
      ensures b[i] != b[j]
    {
      if b[i] == b[j] {
        var x := b[i];
        assert b == b[..i] + [x] + b[i + 1..j] + [x] + b[j + 1..];
        assert multiset(b)[x] >= 2;
        DistinctOccursOnce(a, x);
      }
    }
  }
}
