/** Order-preserving selection from a sequence. */
module Seqs {

  /** `a` is obtained from `b` by deleting elements: the elements of `a` occur in `b`
      in the same order. */
  predicate IsSubsequence<T(==)>(a: seq<T>, b: seq<T>)
    decreases |b|
  {
    if |a| == 0 then true
    else if |b| == 0 then false
    else
      (a[|a| - 1] == b[|b| - 1] && IsSubsequence(a[..|a| - 1], b[..|b| - 1]))
      || IsSubsequence(a, b[..|b| - 1])
  }

  /** A subsequence is no longer than the sequence and draws its elements from it. */
  lemma {:induction false} SubsequenceElements<T>(a: seq<T>, b: seq<T>)
    requires IsSubsequence(a, b)
    ensures |a| <= |b|
    ensures forall x :: x in a ==> x in b
    decreases |b|
  {
    if |a| > 0 {
      var b' := b[..|b| - 1];
      if a[|a| - 1] == b[|b| - 1] && IsSubsequence(a[..|a| - 1], b') {
        SubsequenceElements(a[..|a| - 1], b');
        assert a == a[..|a| - 1] + [a[|a| - 1]];
        assert b == b' + [b[|b| - 1]];
      } else {
        SubsequenceElements(a, b');
        assert b == b' + [b[|b| - 1]];
      }
    }
  }

  lemma SubsequenceExtend<T>(a: seq<T>, b: seq<T>, x: T)
    requires IsSubsequence(a, b)
    ensures IsSubsequence(a, b + [x])
    ensures IsSubsequence(a + [x], b + [x])
  {
    assert (b + [x])[..|b|] == b;
    assert (a + [x])[..|a|] == a;
  }

  lemma {:induction false} SubsequenceReflexive<T>(a: seq<T>)
    ensures IsSubsequence(a, a)
    decreases |a|
  {
    if |a| > 0 {
      SubsequenceReflexive(a[..|a| - 1]);
    }
  }

  /** `f` applied to every element, in order. */
  function Map<A, B>(f: A -> B, xs: seq<A>): (r: seq<B>)
    ensures |r| == |xs|
    ensures forall k :: 0 <= k < |xs| ==> r[k] == f(xs[k])
  {
    seq(|xs|, k requires 0 <= k < |xs| => f(xs[k]))
  }

  lemma MapSnoc<A, B>(f: A -> B, xs: seq<A>, i: int)
    requires 0 <= i < |xs|
    ensures Map(f, xs[..i + 1]) == Map(f, xs[..i]) + [f(xs[i])]
  {
  }

  /** `[f(x) for x in xs if keep(x)]` */
  function FilterMap<A, B>(keep: A -> bool, f: A -> B, xs: seq<A>): (r: seq<B>)
    ensures |r| <= |xs|
    decreases |xs|
  {
    if |xs| == 0 then []
    else FilterMap(keep, f, xs[..|xs| - 1]) + (if keep(xs[|xs| - 1]) then [f(xs[|xs| - 1])] else [])
  }

  lemma FilterMapSnoc<A, B>(keep: A -> bool, f: A -> B, xs: seq<A>, i: int)
    requires 0 <= i < |xs|
    ensures FilterMap(keep, f, xs[..i + 1]) ==
      FilterMap(keep, f, xs[..i]) + (if keep(xs[i]) then [f(xs[i])] else [])
  {
    assert xs[..i + 1][..i] == xs[..i];
  }

  /** An element is produced exactly when some kept element maps to it. */
  lemma {:induction false} FilterMapMembers<A, B>(keep: A -> bool, f: A -> B, xs: seq<A>, y: B)
    ensures y in FilterMap(keep, f, xs) <==> exists i :: 0 <= i < |xs| && keep(xs[i]) && y == f(xs[i])
    decreases |xs|
  {
    if |xs| > 0 {
      var n := |xs| - 1;
      var init := xs[..n];
      FilterMapMembers(keep, f, init, y);
      if exists i :: 0 <= i < |xs| && keep(xs[i]) && y == f(xs[i]) {
        var i :| 0 <= i < |xs| && keep(xs[i]) && y == f(xs[i]);
        if i < n {
          assert init[i] == xs[i];
        }
      }
      if y in FilterMap(keep, f, init) {
        var i :| 0 <= i < n && keep(init[i]) && y == f(init[i]);
        assert xs[i] == init[i];
      }
    }
  }

  /** The sequences `g` gives for the elements, concatenated in order. */
  function Flatten<A, B>(g: A -> seq<B>, xs: seq<A>): seq<B>
    decreases |xs|
  {
    if |xs| == 0 then [] else Flatten(g, xs[..|xs| - 1]) + g(xs[|xs| - 1])
  }

  lemma FlattenSnoc<A, B>(g: A -> seq<B>, xs: seq<A>, i: int)
    requires 0 <= i < |xs|
    ensures Flatten(g, xs[..i + 1]) == Flatten(g, xs[..i]) + g(xs[i])
  {
    assert xs[..i + 1][..i] == xs[..i];
  }

  lemma {:induction false} FlattenMembers<A, B>(g: A -> seq<B>, xs: seq<A>, y: B)
    ensures y in Flatten(g, xs) <==> exists k :: 0 <= k < |xs| && y in g(xs[k])
    decreases |xs|
  {
    if |xs| > 0 {
      var n := |xs| - 1;
      var init := xs[..n];
      FlattenMembers(g, init, y);
      if exists k :: 0 <= k < |xs| && y in g(xs[k]) {
        var k :| 0 <= k < |xs| && y in g(xs[k]);
        if k < n {
          assert init[k] == xs[k];
        }
      }
      if y in Flatten(g, init) {
        var k :| 0 <= k < n && y in g(init[k]);
        assert xs[k] == init[k];
      }
    }
  }

  /** The keys of the elements. */
  function KeySet<T(==), K(==)>(key: T -> K, xs: seq<T>): set<K> {
    set x | x in xs :: key(x)
  }

  /** The first element of every key, in order. */
  function DedupBy<T(==), K(==)>(key: T -> K, xs: seq<T>): seq<T>
    decreases |xs|
  {
    if |xs| == 0 then []
    else
      var init := xs[..|xs| - 1];
      var last := xs[|xs| - 1];
      if key(last) in KeySet(key, init) then DedupBy(key, init) else DedupBy(key, init) + [last]
  }

  lemma KeySetAppend<T, K>(key: T -> K, xs: seq<T>, x: T)
    ensures KeySet(key, xs + [x]) == KeySet(key, xs) + {key(x)}
  {
    assert forall y :: y in xs + [x] <==> y in xs || y == x;
  }

  lemma DedupByStep<T, K>(key: T -> K, xs: seq<T>, x: T)
    ensures DedupBy(key, xs + [x]) ==
      if key(x) in KeySet(key, xs) then DedupBy(key, xs) else DedupBy(key, xs) + [x]
    ensures KeySet(key, xs + [x]) == KeySet(key, xs) + {key(x)}
  {
    var next := xs + [x];
    assert next[..|xs|] == xs && next[|xs|] == x;
    KeySetAppend(key, xs, x);
  }

  lemma {:induction false} DedupByKeys<T, K>(key: T -> K, xs: seq<T>)
    ensures KeySet(key, DedupBy(key, xs)) == KeySet(key, xs)
    decreases |xs|
  {
    if |xs| > 0 {
      var init := xs[..|xs| - 1];
      var last := xs[|xs| - 1];
      DedupByKeys(key, init);
      assert xs == init + [last];
      KeySetAppend(key, init, last);
      if key(last) !in KeySet(key, init) {
        KeySetAppend(key, DedupBy(key, init), last);
      }
    }
  }

  lemma {:induction false} DedupBySubsequence<T, K>(key: T -> K, xs: seq<T>)
    ensures IsSubsequence(DedupBy(key, xs), xs)
    decreases |xs|
  {
    if |xs| > 0 {
      var init := xs[..|xs| - 1];
      var last := xs[|xs| - 1];
      DedupBySubsequence(key, init);
      assert xs == init + [last];
      SubsequenceExtend(DedupBy(key, init), init, last);
    }
  }

  lemma {:induction false} DedupByDistinct<T, K>(key: T -> K, xs: seq<T>)
    ensures forall i, j :: 0 <= i < j < |DedupBy(key, xs)| ==>
      key(DedupBy(key, xs)[i]) != key(DedupBy(key, xs)[j])
    decreases |xs|
  {
    if |xs| > 0 {
      var init := xs[..|xs| - 1];
      var last := xs[|xs| - 1];
      DedupByDistinct(key, init);
      if key(last) !in KeySet(key, init) {
        DedupByKeys(key, init);
        var d := DedupBy(key, init);
        assert forall i :: 0 <= i < |d| ==> key(d[i]) in KeySet(key, d);
      }
    }
  }

  lemma {:induction false} DedupByKeepsFirst<T, K>(key: T -> K, xs: seq<T>, i: int)
    requires 0 <= i < |xs| && key(xs[i]) !in KeySet(key, xs[..i])
    ensures xs[i] in DedupBy(key, xs)
    decreases |xs|
  {
    var init := xs[..|xs| - 1];
    if i < |xs| - 1 {
      assert init[..i] == xs[..i];
      DedupByKeepsFirst(key, init, i);
    } else {
      assert init == xs[..i];
    }
  }

  lemma {:induction false} DedupByOfDistinct<T, K>(key: T -> K, xs: seq<T>)
    requires forall i, j :: 0 <= i < j < |xs| ==> key(xs[i]) != key(xs[j])
    ensures DedupBy(key, xs) == xs
    decreases |xs|
  {
    if |xs| > 0 {
      var init := xs[..|xs| - 1];
      var last := xs[|xs| - 1];
      DedupByOfDistinct(key, init);
      forall k | 0 <= k < |init|
        ensures key(init[k]) != key(last)
      {
        assert init[k] == xs[k];
      }
      assert xs == init + [last];
    }
  }

  lemma PrefixSnoc<T>(s: seq<T>, j: int)
    requires 0 <= j < |s|
    ensures s[..j + 1] == s[..j] + [s[j]]
  {
  }

  lemma PrefixAll<T>(s: seq<T>)
    ensures s[..|s|] == s
  {
  }

  lemma AppendEmpty<T>(a: seq<T>)
    ensures a + [] == a && [] + a == a
  {
  }

  lemma AppendAssoc<T>(a: seq<T>, b: seq<T>, c: seq<T>)
    ensures (a + b) + c == a + (b + c)
  {
  }

  lemma AppendInit<T>(a: seq<T>, b: seq<T>)
    requires |b| > 0
    ensures (a + b)[..|a + b| - 1] == a + b[..|b| - 1]
  {
  }

  lemma SplitAt<T>(s: seq<T>, k: int)
    requires 0 <= k < |s|
    ensures s == s[..k + 1] + s[k + 1..]
    ensures s[..k + 1][..k] == s[..k]
    ensures s[..k + 1] == s[..k] + [s[k]]
  {
  }
}
