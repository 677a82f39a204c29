/**
 * Generic sequence combinators matching the array methods the store is built
 * from (`filter` and `map`), together with the facts about them that the
 * registry and join proofs rely on.
 */
module Seqs {

  /** `a` can be obtained from `b` by deleting elements (order is kept). */
  predicate IsSubsequence<T(==)>(a: seq<T>, b: seq<T>)
    decreases |b|
  {
    && |a| <= |b|
    && (|a| == 0 ||
        if a[0] == b[0] then IsSubsequence(a[1..], b[1..]) else IsSubsequence(a, b[1..]))
  }

  /** Every sequence is a subsequence of itself. */
  lemma {:induction false} SubsequenceReflexive<T>(s: seq<T>)
    ensures IsSubsequence(s, s)
  {
    if |s| > 0 {
      SubsequenceReflexive(s[1..]);
    }
  }

  /** No two elements of `s` share a key. */
  predicate DistinctKeys<T, K(==)>(key: T -> K, s: seq<T>)
  {
    forall i, j :: 0 <= i < j < |s| ==> key(s[i]) != key(s[j])
  }

  /** Array `map`: applies `f` to every element, keeping length and order. */
  function Map<T, U>(f: T -> U, s: seq<T>): (r: seq<U>)
    ensures |r| == |s|
    ensures forall i :: 0 <= i < |s| ==> r[i] == f(s[i])
  {
    if |s| == 0 then [] else [f(s[0])] + Map(f, s[1..])
  }

  /**
   * Array `filter`: the elements of `s` satisfying `keep`, in their original
   * order. The result is a subsequence of `s` holding exactly the kept
   * values; `FilterCounts` adds that every occurrence of them is kept.
   */
  function Filter<T(==,!new)>(keep: T -> bool, s: seq<T>): (r: seq<T>)
    ensures |r| <= |s|
    ensures IsSubsequence(r, s)
    ensures forall x :: x in r <==> x in s && keep(x)
  {
    if |s| == 0 then []
    else
      var rest := Filter(keep, s[1..]);
      assert s == [s[0]] + s[1..];
      if keep(s[0]) then
        var r := [s[0]] + rest;
        assert r[1..] == rest;
        r
      else
        assert |rest| == 0 || rest[0] != s[0] by {
          if |rest| > 0 {
            assert rest[0] in rest;
          }
        }
        rest
  }

  /**
   * Together with `IsSubsequence(Filter(keep, s), s)` this pins the result
   * down: every occurrence of a kept value survives, none of any other.
   */
  lemma {:induction false} FilterCounts<T(!new)>(keep: T -> bool, s: seq<T>)
    ensures forall x :: multiset(Filter(keep, s))[x] == if keep(x) then multiset(s)[x] else 0
  {
    if |s| > 0 {
      FilterCounts(keep, s[1..]);
      assert s == [s[0]] + s[1..];
    }
  }

  /** Filtering keeps everything exactly when every element is kept. */
  lemma {:induction false} FilterAllKept<T(!new)>(keep: T -> bool, s: seq<T>)
    ensures Filter(keep, s) == s <==> forall x :: x in s ==> keep(x)
  {
    if forall x :: x in s ==> keep(x) {
      FilterKeepsAll(keep, s);
    } else {
      var x :| x in s && !keep(x);
      assert x !in Filter(keep, s);
    }
  }

  lemma {:induction false} FilterKeepsAll<T(!new)>(keep: T -> bool, s: seq<T>)
    requires forall x :: x in s ==> keep(x)
    ensures Filter(keep, s) == s
  {
    if |s| > 0 {
      assert s[0] in s;
      assert forall x :: x in s[1..] ==> x in s;
      FilterKeepsAll(keep, s[1..]);
      assert s == [s[0]] + s[1..];
    }
  }

  /** Filtering twice with the same predicate is the same as filtering once. */
  lemma FilterIdempotent<T(!new)>(keep: T -> bool, s: seq<T>)
    ensures Filter(keep, Filter(keep, s)) == Filter(keep, s)
  {
    FilterKeepsAll(keep, Filter(keep, s));
  }

  /** Only the verdicts on the elements of `s` matter. */
  lemma {:induction false} FilterCongruent<T(!new)>(p: T -> bool, q: T -> bool, s: seq<T>)
    requires forall x :: x in s ==> p(x) == q(x)
    ensures Filter(p, s) == Filter(q, s)
  {
    if |s| > 0 {
      assert s[0] in s;
      assert forall x :: x in s[1..] ==> x in s;
      FilterCongruent(p, q, s[1..]);
    }
  }

  /** Two filters commute. */
  lemma {:induction false} FilterCommutes<T(!new)>(p: T -> bool, q: T -> bool, s: seq<T>)
    ensures Filter(p, Filter(q, s)) == Filter(q, Filter(p, s))
  {
    if |s| > 0 {
      FilterCommutes(p, q, s[1..]);
    }
  }

  /**
   * A map that never changes an element's verdict can be applied before or
   * after the filter.
   */
  lemma {:induction false} FilterMapCommute<T(!new)>(keep: T -> bool, f: T -> T, s: seq<T>)
    requires forall x :: keep(f(x)) == keep(x)
    ensures Filter(keep, Map(f, s)) == Map(f, Filter(keep, s))
  {
    if |s| > 0 {
      FilterMapCommute(keep, f, s[1..]);
      assert Map(f, s)[1..] == Map(f, s[1..]);
    }
  }

  /** Filtering never introduces two elements with the same key. */
  lemma {:induction false} FilterKeepsKeysDistinct<T(!new), K>(keep: T -> bool, key: T -> K, s: seq<T>)
    requires DistinctKeys(key, s)
    ensures DistinctKeys(key, Filter(keep, s))
  {
    if |s| > 0 {
      var rest := Filter(keep, s[1..]);
      assert DistinctKeys(key, s[1..]) by {
        forall i, j | 0 <= i < j < |s[1..]|
          ensures key(s[1..][i]) != key(s[1..][j])
        {
          assert s[1..][i] == s[i + 1] && s[1..][j] == s[j + 1];
        }
      }
      FilterKeepsKeysDistinct(keep, key, s[1..]);
      if keep(s[0]) {
        forall k | 0 <= k < |rest|
          ensures key(rest[k]) != key(s[0])
        {
          assert rest[k] in rest;
          var m :| 0 <= m < |s[1..]| && s[1..][m] == rest[k];
          assert s[1..][m] == s[m + 1];
        }
        var r := [s[0]] + rest;
        forall i, j | 0 <= i < j < |r|
          ensures key(r[i]) != key(r[j])
        {
          if i == 0 {
            assert r[j] == rest[j - 1];
          } else {
            assert r[i] == rest[i - 1] && r[j] == rest[j - 1];
          }
        }
      }
    }
  }

  /** A map that keeps every key keeps the keys distinct. */
  lemma MapKeepsKeysDistinct<T(!new), K>(f: T -> T, key: T -> K, s: seq<T>)
    requires forall x :: key(f(x)) == key(x)
    requires DistinctKeys(key, s)
    ensures DistinctKeys(key, Map(f, s))
  {
  }

  /**
   * When keys are distinct and the filter drops exactly the elements with
   * key `k`, a present `k` costs exactly one element.
   */
  lemma {:induction false} FilterDropsOneKey<T(!new), K>(keep: T -> bool, key: T -> K, s: seq<T>, k: K)
    requires DistinctKeys(key, s)
    requires forall x :: keep(x) <==> key(x) != k
    requires exists i :: 0 <= i < |s| && key(s[i]) == k
    ensures |Filter(keep, s)| == |s| - 1
  {
    assert DistinctKeys(key, s[1..]) by {
      forall i, j | 0 <= i < j < |s[1..]|
        ensures key(s[1..][i]) != key(s[1..][j])
      {
        assert s[1..][i] == s[i + 1] && s[1..][j] == s[j + 1];
      }
    }
    if key(s[0]) == k {
      forall x | x in s[1..]
        ensures keep(x)
      {
        var m :| 0 <= m < |s[1..]| && s[1..][m] == x;
        assert s[1..][m] == s[m + 1];
      }
      FilterKeepsAll(keep, s[1..]);
    } else {
      var i :| 0 <= i < |s| && key(s[i]) == k;
      assert key(s[1..][i - 1]) == k;
      FilterDropsOneKey(keep, key, s[1..], k);
    }
  }

  /** Filtering distributes over concatenation. */
  lemma {:induction false} FilterAppend<T(!new)>(keep: T -> bool, a: seq<T>, b: seq<T>)
    ensures Filter(keep, a + b) == Filter(keep, a) + Filter(keep, b)
  {
    if |a| == 0 {
      assert a + b == b;
    } else {
      var ab := a + b;
      assert ab[0] == a[0] && ab[1..] == a[1..] + b;
      FilterAppend(keep, a[1..], b);
      if keep(a[0]) {
        calc {
          Filter(keep, ab);
          [a[0]] + Filter(keep, a[1..] + b);
          [a[0]] + (Filter(keep, a[1..]) + Filter(keep, b));
          ([a[0]] + Filter(keep, a[1..])) + Filter(keep, b);
        }
      }
    }
  }
}
