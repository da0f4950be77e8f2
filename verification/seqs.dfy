/** Kotlin collection helpers (`filter`, `removeAll`, `indexOfFirst`,
    `firstOrNull`, `any`) over immutable sequences, with the facts the
    watch-state store relies on. */
module Seqs {
  import opened Nullable

  /** `xs.filter(keep)`, which is also what `removeAll { !keep(it) }` leaves behind. */
  function Filter<T>(xs: seq<T>, keep: T -> bool): (r: seq<T>)
    ensures |r| <= |xs|
    ensures forall i :: 0 <= i < |r| ==> r[i] in xs && keep(r[i])
    ensures forall i :: 0 <= i < |xs| && keep(xs[i]) ==> xs[i] in r
  {
    if |xs| == 0 then []
    else if keep(xs[0]) then [xs[0]] + Filter(xs[1..], keep)
    else Filter(xs[1..], keep)
  }

  /** `r` occurs in `xs` in the same relative order (not necessarily contiguously). */
  predicate IsSubsequence<T(==)>(r: seq<T>, xs: seq<T>)
    decreases |xs|
  {
    if |r| == 0 then true
    else if |xs| == 0 then false
    else (r[0] == xs[0] && IsSubsequence(r[1..], xs[1..])) || IsSubsequence(r, xs[1..])
  }

  /** No two positions of `xs` share a key. */
  predicate UniqueBy<T, K(==)>(xs: seq<T>, key: T -> K)
  {
    forall i, j :: 0 <= i < j < |xs| ==> key(xs[i]) != key(xs[j])
  }

  /** `xs.indexOfFirst(p)`: the first position satisfying `p`, or -1. */
  function IndexOfFirst<T>(xs: seq<T>, p: T -> bool): (r: int)
    ensures -1 <= r < |xs|
    ensures r >= 0 ==> p(xs[r]) && forall j :: 0 <= j < r ==> !p(xs[j])
    ensures r == -1 <==> forall j :: 0 <= j < |xs| ==> !p(xs[j])
  {
    if |xs| == 0 then -1
    else if p(xs[0]) then 0
    else
      var k := IndexOfFirst(xs[1..], p);
      if k == -1 then -1 else k + 1
  }

  /** `xs.firstOrNull(p)` (Kotlin's `find`). */
  function FindFirst<T>(xs: seq<T>, p: T -> bool): (r: Option<T>)
    ensures r.Some? ==> r.value in xs && p(r.value)
    ensures r.None? <==> forall j :: 0 <= j < |xs| ==> !p(xs[j])
    ensures r.Some? ==> exists i :: 0 <= i < |xs| && xs[i] == r.value && forall j :: 0 <= j < i ==> !p(xs[j])
  {
    var i := IndexOfFirst(xs, p);
    if i == -1 then None else Some(xs[i])
  }

  /** `find` looks at the head first, then at the rest. */
  lemma FindFirstCons<T>(x: T, ys: seq<T>, p: T -> bool)
    ensures p(x) ==> FindFirst([x] + ys, p) == Some(x)
    ensures !p(x) ==> FindFirst([x] + ys, p) == FindFirst(ys, p)
  {
    assert ([x] + ys)[1..] == ys;
  }

  /** Drops the last element when `xs` is longer than `cap`: `if (size > cap) removeAt(size - 1)`. */
  function DropLastOver<T>(xs: seq<T>, cap: nat): (r: seq<T>)
    ensures |xs| <= cap ==> r == xs
    ensures |xs| > cap ==> |r| == |xs| - 1 && r == xs[..|xs| - 1]
  {
    if |xs| > cap then xs[..|xs| - 1] else xs
  }

  lemma {:induction false} FilterIsSubsequence<T>(xs: seq<T>, keep: T -> bool)
    ensures IsSubsequence(Filter(xs, keep), xs)
    decreases |xs|
  {
    if |xs| > 0 {
      FilterIsSubsequence(xs[1..], keep);
      if keep(xs[0]) {
        assert Filter(xs, keep)[1..] == Filter(xs[1..], keep);
      }
    }
  }

  lemma {:induction false} SubsequenceReflexive<T>(xs: seq<T>)
    ensures IsSubsequence(xs, xs)
    decreases |xs|
  {
    if |xs| > 0 {
      SubsequenceReflexive(xs[1..]);
    }
  }

  lemma {:induction false} SubsequencePrefix<T>(r: seq<T>, xs: seq<T>, k: nat)
    requires IsSubsequence(r, xs)
    requires k <= |r|
    ensures IsSubsequence(r[..k], xs)
    decreases |xs|
  {
    if k > 0 {
      if r[0] == xs[0] && IsSubsequence(r[1..], xs[1..]) {
        SubsequencePrefix(r[1..], xs[1..], k - 1);
        assert r[..k][1..] == r[1..][..k - 1];
      } else {
        SubsequencePrefix(r, xs[1..], k);
      }
    }
  }

  lemma {:induction false} SubsequenceTransitive<T>(a: seq<T>, b: seq<T>, c: seq<T>)
    requires IsSubsequence(a, b) && IsSubsequence(b, c)
    ensures IsSubsequence(a, c)
    decreases |c|
  {
    if |a| > 0 {
      if b[0] == c[0] && IsSubsequence(b[1..], c[1..]) {
        if a[0] == b[0] && IsSubsequence(a[1..], b[1..]) {
          SubsequenceTransitive(a[1..], b[1..], c[1..]);
        } else {
          SubsequenceTransitive(a, b[1..], c[1..]);
        }
      } else {
        SubsequenceTransitive(a, b, c[1..]);
      }
    }
  }

  /** Removing one position leaves a subsequence. */
  lemma {:induction false} RemoveAtIsSubsequence<T>(xs: seq<T>, i: nat)
    requires i < |xs|
    ensures IsSubsequence(xs[..i] + xs[i + 1..], xs)
    decreases i
  {
    var r := xs[..i] + xs[i + 1..];
    if i == 0 {
      assert r == xs[1..];
      SubsequenceReflexive(xs[1..]);
    } else {
      RemoveAtIsSubsequence(xs[1..], i - 1);
      assert r[1..] == xs[1..][..i - 1] + xs[1..][i..];
    }
  }

  /** A subsequence of a key-unique sequence is key-unique. */
  lemma {:induction false} SubsequenceKeepsUnique<T, K>(r: seq<T>, xs: seq<T>, key: T -> K)
    requires IsSubsequence(r, xs)
    requires UniqueBy(xs, key)
    ensures UniqueBy(r, key)
    ensures forall i :: 0 <= i < |r| ==> r[i] in xs
    decreases |xs|
  {
    if |r| > 0 {
      if r[0] == xs[0] && IsSubsequence(r[1..], xs[1..]) {
        SubsequenceKeepsUnique(r[1..], xs[1..], key);
        forall j | 0 < j < |r|
          ensures key(r[0]) != key(r[j])
        {
          assert r[j] == r[1..][j - 1];
          var k :| 0 <= k < |xs[1..]| && xs[1..][k] == r[j];
          assert xs[k + 1] == r[j];
        }
        forall i | 0 <= i < |r|
          ensures r[i] in xs
        {
          if i > 0 {
            assert r[i] == r[1..][i - 1];
          }
        }
      } else {
        SubsequenceKeepsUnique(r, xs[1..], key);
      }
    }
  }

  /** `Filter` keeps everything exactly when it keeps the length. */
  lemma {:induction false} FilterFullLength<T>(xs: seq<T>, keep: T -> bool)
    ensures |Filter(xs, keep)| == |xs| ==> Filter(xs, keep) == xs
    decreases |xs|
  {
    if |xs| > 0 {
      FilterFullLength(xs[1..], keep);
    }
  }

  /** `Filter` distributes over concatenation. */
  lemma {:induction false} FilterAppend<T>(a: seq<T>, b: seq<T>, keep: T -> bool)
    ensures Filter(a + b, keep) == Filter(a, keep) + Filter(b, keep)
    decreases |a|
  {
    if |a| > 0 {
      assert (a + b)[1..] == a[1..] + b;
      FilterAppend(a[1..], b, keep);
    } else {
      assert a + b == b;
    }
  }

  /** `Filter` is the identity when every element is kept. */
  lemma {:induction false} FilterKeepsAll<T>(xs: seq<T>, keep: T -> bool)
    requires forall i :: 0 <= i < |xs| ==> keep(xs[i])
    ensures Filter(xs, keep) == xs
    decreases |xs|
  {
    if |xs| > 0 {
      FilterKeepsAll(xs[1..], keep);
    }
  }

  lemma FilterConsMultiset<T>(xs: seq<T>, keep: T -> bool)
    requires |xs| > 0
    ensures multiset(Filter(xs, keep)) ==
      (if keep(xs[0]) then multiset{xs[0]} else multiset{}) + multiset(Filter(xs[1..], keep))
  {
    if keep(xs[0]) {
      assert Filter(xs, keep) == [xs[0]] + Filter(xs[1..], keep);
    }
  }

  /** `filter` keeps every copy of a kept element and no copy of a
      dropped one: the multiplicities, not only membership. */
  lemma {:induction false} FilterCounts<T>(xs: seq<T>, keep: T -> bool)
    ensures forall x :: multiset(Filter(xs, keep))[x] == if keep(x) then multiset(xs)[x] else 0
    decreases |xs|
  {
    if |xs| > 0 {
      var rest := xs[1..];
      FilterCounts(rest, keep);
      FilterConsMultiset(xs, keep);
      assert xs == [xs[0]] + rest;
      assert multiset(xs) == multiset{xs[0]} + multiset(rest);
      forall x
        ensures multiset(Filter(xs, keep))[x] == if keep(x) then multiset(xs)[x] else 0
      {
        assert multiset(Filter(xs, keep))[x] ==
          (if keep(xs[0]) && x == xs[0] then 1 else 0) + multiset(Filter(rest, keep))[x];
        assert multiset(xs)[x] == (if x == xs[0] then 1 else 0) + multiset(rest)[x];
      }
    }
  }
}
