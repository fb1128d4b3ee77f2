/** Sequence operations shared by the front end and the back end: `Array.prototype.filter` and
    Python list comprehensions with an `if`, insertion-ordered de-duplication (`[...new Set(xs)]`)
    and `slice(0, n)`. */
module Seqs {

  /** `xs.filter(p)`: the elements satisfying `p`, in their original order. */
  function Select<T>(xs: seq<T>, p: T -> bool): (r: seq<T>)
    ensures |r| <= |xs|
    ensures forall k :: 0 <= k < |r| ==> r[k] in xs && p(r[k])
    ensures forall k :: 0 <= k < |xs| && p(xs[k]) ==> xs[k] in r
  {
    if xs == [] then [] else (if p(xs[0]) then [xs[0]] else []) + Select(xs[1..], p)
  }

  /** `sub` is `xs` with some elements left out and the rest kept in order. */
  predicate IsSubsequence<T(==)>(sub: seq<T>, xs: seq<T>)
    decreases |xs|
  {
    || sub == []
    || (xs != [] && ((sub[0] == xs[0] && IsSubsequence(sub[1..], xs[1..])) || IsSubsequence(sub, xs[1..])))
  }

  /** Every sequence is a subsequence of itself. */
  lemma {:induction false} SubsequenceRefl<T>(xs: seq<T>)
    ensures IsSubsequence(xs, xs)
  {
    if xs != [] { SubsequenceRefl(xs[1..]); }
  }

  /** Filtering drops elements and never reorders them. */
  lemma {:induction false} SelectSubsequence<T>(xs: seq<T>, p: T -> bool)
    ensures IsSubsequence(Select(xs, p), xs)
  {
    if xs != [] {
      SelectSubsequence(xs[1..], p);
      if p(xs[0]) {
        assert Select(xs, p) == [xs[0]] + Select(xs[1..], p);
        assert Select(xs, p)[1..] == Select(xs[1..], p);
      } else {
        assert Select(xs, p) == Select(xs[1..], p);
      }
    }
  }

  /** Filtering by `p` and then by `q` is filtering once by their conjunction. */
  lemma {:induction false} SelectSelect<T>(xs: seq<T>, p: T -> bool, q: T -> bool, pq: T -> bool)
    requires forall x :: pq(x) == (p(x) && q(x))
    ensures Select(Select(xs, p), q) == Select(xs, pq)
  {
    if xs != [] {
      SelectSelect(xs[1..], p, q, pq);
      assert [xs[0]][1..] == [];
      if p(xs[0]) {
        assert Select(xs, p) == [xs[0]] + Select(xs[1..], p);
        SelectAppend([xs[0]], Select(xs[1..], p), q);
      } else {
        assert Select(xs, p) == Select(xs[1..], p);
      }
    }
  }

  /** Filtering distributes over concatenation. */
  lemma {:induction false} SelectAppend<T>(xs: seq<T>, ys: seq<T>, p: T -> bool)
    ensures Select(xs + ys, p) == Select(xs, p) + Select(ys, p)
  {
    if xs != [] {
      assert (xs + ys)[1..] == xs[1..] + ys;
      SelectAppend(xs[1..], ys, p);
    } else {
      assert xs + ys == ys;
    }
  }

  /** Two predicates that agree everywhere filter alike. */
  lemma {:induction false} SelectExt<T>(xs: seq<T>, p: T -> bool, q: T -> bool)
    requires forall x :: p(x) == q(x)
    ensures Select(xs, p) == Select(xs, q)
  {
    if xs != [] { SelectExt(xs[1..], p, q); }
  }

  /** A filter every element passes keeps the whole sequence. */
  lemma {:induction false} SelectKeepsAll<T>(xs: seq<T>, p: T -> bool)
    requires forall k :: 0 <= k < |xs| ==> p(xs[k])
    ensures Select(xs, p) == xs
  {
    if xs != [] {
      SelectKeepsAll(xs[1..], p);
      assert [xs[0]] + xs[1..] == xs;
    }
  }

  /** Filtering a two-element sequence decides each element on its own. */
  lemma SelectPair<T>(a: T, b: T, p: T -> bool)
    ensures Select([a, b], p) == (if p(a) then [a] else []) + (if p(b) then [b] else [])
  {
    assert [a, b][1..] == [b];
    assert [b][1..] == [];
  }

  /** No element occurs twice. */
  predicate Distinct<T(==)>(xs: seq<T>) {
    forall i, j :: 0 <= i < j < |xs| ==> xs[i] != xs[j]
  }

  /** `[...new Set(xs)]`: each element once, at the place where it was first inserted. */
  function Dedup<T(==)>(xs: seq<T>): (r: seq<T>)
    ensures Distinct(r)
    ensures forall k :: 0 <= k < |r| ==> r[k] in xs
    ensures forall k :: 0 <= k < |xs| ==> xs[k] in r
    ensures |r| <= |xs|
  {
    if xs == [] then []
    else
      var r := Dedup(xs[..|xs| - 1]);
      var x := xs[|xs| - 1];
      assert xs == xs[..|xs| - 1] + [x];
      if x in r then r else r + [x]
  }

  /** The position where `x` first occurs in `xs`. */
  function FirstIndex<T(==)>(xs: seq<T>, x: T): (k: nat)
    requires x in xs
    ensures k < |xs| && xs[k] == x
    ensures forall j :: 0 <= j < k ==> xs[j] != x
  {
    if xs[0] == x then 0 else 1 + FirstIndex(xs[1..], x)
  }

  /** The first occurrence of an element of a prefix is found within that prefix. */
  lemma FirstIndexPrefix<T>(xs: seq<T>, n: nat, x: T)
    requires n <= |xs| && x in xs[..n]
    ensures FirstIndex(xs, x) == FirstIndex(xs[..n], x)
  {
    var k := FirstIndex(xs[..n], x);
    var k' := FirstIndex(xs, x);
    assert xs[k] == xs[..n][k] == x;
    assert k' <= k;
    assert forall j :: 0 <= j < k ==> xs[j] == xs[..n][j] != x;
  }

  /** De-duplication lists the elements in the order of their first occurrence. */
  lemma {:induction false} DedupFirstSeenOrder<T>(xs: seq<T>)
    ensures forall i, j :: 0 <= i < j < |Dedup(xs)| ==> FirstIndex(xs, Dedup(xs)[i]) < FirstIndex(xs, Dedup(xs)[j])
  {
    if xs != [] {
      var n := |xs| - 1;
      var init := xs[..n];
      var r := Dedup(init);
      DedupFirstSeenOrder(init);
      forall y | y in r ensures FirstIndex(xs, y) == FirstIndex(init, y) && FirstIndex(xs, y) < n {
        FirstIndexPrefix(xs, n, y);
      }
      if xs[n] !in r {
        assert xs[n] !in init;
        assert FirstIndex(xs, xs[n]) == n;
      }
    }
  }

  /** De-duplication skips nothing: whatever first occurs before an element of the result is listed
      before it. */
  lemma {:induction false} DedupSkipsNothing<T>(xs: seq<T>)
    ensures forall k, j :: 0 <= k < |Dedup(xs)| && 0 <= j < FirstIndex(xs, Dedup(xs)[k]) ==> xs[j] in Dedup(xs)[..k]
  {
    if xs != [] {
      var n := |xs| - 1;
      var init := xs[..n];
      var r := Dedup(init);
      var d := Dedup(xs);
      DedupSkipsNothing(init);
      forall k, j | 0 <= k < |d| && 0 <= j < FirstIndex(xs, d[k]) ensures xs[j] in d[..k] {
        if k < |r| {
          assert d[k] == r[k];
          FirstIndexPrefix(xs, n, r[k]);
          assert xs[j] == init[j];
          assert d[..k] == r[..k];
        } else {
          assert d == r + [xs[n]] && xs[n] !in init;
          assert xs[j] == init[j] && init[j] in r;
          assert d[..k] == r;
        }
      }
    }
  }

  /** `[...new Set(xs)].slice(0, n)`: the first `n` distinct elements of `xs` in first-seen order;
      fewer than `n` only when that is all of them. */
  function FirstDistinct<T(==)>(xs: seq<T>, n: nat): (r: seq<T>)
    ensures |r| <= n
    ensures Distinct(r)
    ensures forall k :: 0 <= k < |r| ==> r[k] in xs
    ensures forall i, j :: 0 <= i < j < |r| ==> FirstIndex(xs, r[i]) < FirstIndex(xs, r[j])
    ensures |r| < n ==> forall k :: 0 <= k < |xs| ==> xs[k] in r
  {
    var unique := Dedup(xs);
    DedupFirstSeenOrder(xs);
    var r := Take(unique, n);
    assert forall k :: 0 <= k < |r| ==> r[k] == unique[k];
    r
  }

  /** The capped list skips nothing either: it is a prefix of the full first-seen order. */
  lemma FirstDistinctSkipsNothing<T>(xs: seq<T>, n: nat)
    ensures var r := FirstDistinct(xs, n);
            forall k, j :: 0 <= k < |r| && 0 <= j < FirstIndex(xs, r[k]) ==> xs[j] in r[..k]
  {
    var unique, r := Dedup(xs), FirstDistinct(xs, n);
    DedupSkipsNothing(xs);
    assert r == Take(unique, n);
    forall k | 0 <= k < |r| ensures r[k] == unique[k] && r[..k] == unique[..k] {
    }
  }

  /** `xs.slice(0, n)`. */
  function Take<T>(xs: seq<T>, n: nat): (r: seq<T>)
    ensures |r| == if |xs| < n then |xs| else n
    ensures r <= xs
  {
    if |xs| <= n then xs else xs[..n]
  }
}
