/**
 * Duplicate removal with first-occurrence order: the meaning of
 * `Array.from(new Set(xs))`, since a JavaScript `Set` iterates in insertion
 * order and ignores an element it already holds.
 */
module Sequences {

  /** No element occurs twice. */
  predicate NoDuplicates<T(==)>(s: seq<T>) {
    forall i, j :: 0 <= i < j < |s| ==> s[i] != s[j]
  }

  /** Position of the first occurrence of `x` in `s`. */
  function FirstIndex<T(==)>(s: seq<T>, x: T): (i: nat)
    requires x in s
    ensures i < |s| && s[i] == x && x !in s[..i]
  {
    if s[0] == x then 0 else 1 + FirstIndex(s[1..], x)
  }

  /** Number of occurrences of `x` in `s`. */
  function Count<T(==)>(s: seq<T>, x: T): nat
  {
    if s == [] then 0 else (if s[0] == x then 1 else 0) + Count(s[1..], x)
  }

  /** What deduplicating `xs` must give, without saying how: every element of
      `xs` exactly once, in the order of their first occurrences in `xs`. */
  ghost predicate IsDedupOf<T>(r: seq<T>, xs: seq<T>) {
    && NoDuplicates(r)
    && (forall i :: 0 <= i < |r| ==> r[i] in xs)
    && (forall i :: 0 <= i < |xs| ==> xs[i] in r)
    && (forall i, j :: 0 <= i < j < |r| ==> FirstIndex(xs, r[i]) < FirstIndex(xs, r[j]))
  }

  /** Appending an element leaves the first occurrence of earlier elements unchanged. */
  lemma FirstIndexAppend<T>(xs: seq<T>, y: T, x: T)
    requires x in xs
    ensures FirstIndex(xs + [y], x) == FirstIndex(xs, x)
  {
    var i := FirstIndex(xs, x);
    var k := FirstIndex(xs + [y], x);
    assert (xs + [y])[..i] == xs[..i] && (xs + [y])[i] == x;
  }

  /** `Array.from(new Set(xs))`: `xs` inserted one element at a time into an
      insertion-ordered set. */
  function Dedup<T(==)>(xs: seq<T>): (r: seq<T>)
    ensures IsDedupOf(r, xs)
  {
    if xs == [] then []
    else
      var xs', y := xs[..|xs| - 1], xs[|xs| - 1];
      assert xs == xs' + [y];
      var d := Dedup(xs');
      forall x | x in xs' ensures FirstIndex(xs, x) == FirstIndex(xs', x) {
        FirstIndexAppend(xs', y, x);
      }
      if y in d then d
      else
        assert FirstIndex(xs, y) == |xs'| by {
          assert xs[|xs'|] == y && y !in xs';
          assert xs[..|xs'|] == xs';
        }
        d + [y]
  }

  /** An element already present adds nothing to the deduplication. */
  lemma DedupOfOld<T>(r: seq<T>, xs: seq<T>, y: T)
    requires y in xs && IsDedupOf(r, xs + [y])
    ensures IsDedupOf(r, xs)
  {
    forall x | x in xs ensures FirstIndex(xs + [y], x) == FirstIndex(xs, x) {
      FirstIndexAppend(xs, y, x);
    }
    forall i | 0 <= i < |r| ensures r[i] in xs {
      assert r[i] in xs + [y];
    }
    forall i | 0 <= i < |xs| ensures xs[i] in r {
      assert (xs + [y])[i] == xs[i];
    }
  }

  /** A new element comes last in the deduplication, after the deduplication of the rest. */
  lemma DedupOfNew<T>(r: seq<T>, xs: seq<T>, y: T)
    requires y !in xs && IsDedupOf(r, xs + [y])
    ensures r != [] && r[|r| - 1] == y && IsDedupOf(r[..|r| - 1], xs)
  {
    var ys := xs + [y];
    forall x | x in xs ensures FirstIndex(ys, x) == FirstIndex(xs, x) {
      FirstIndexAppend(xs, y, x);
    }
    assert FirstIndex(ys, y) == |xs| by {
      assert ys[..|xs|] == xs;
    }
    assert ys[|xs|] == y;
    var k :| 0 <= k < |r| && r[k] == y;
    assert k == |r| - 1;
    var r' := r[..|r| - 1];
    forall i | 0 <= i < |r'| ensures r'[i] in xs {
      assert r[i] == r'[i] && r[i] != y && r[i] in ys;
    }
    forall i | 0 <= i < |xs| ensures xs[i] in r' {
      assert ys[i] == xs[i] && xs[i] != y;
      assert xs[i] in r;
    }
    forall i, j | 0 <= i < j < |r'| ensures FirstIndex(xs, r'[i]) < FirstIndex(xs, r'[j]) {
      assert r[i] == r'[i] && r[j] == r'[j];
      assert r[i] in xs && r[j] in xs;
    }
  }

  /** `Dedup` is the only sequence that is a deduplication of `xs`: the
      recursive definition and the declarative one agree on every input. */
  lemma {:induction false} DedupUnique<T>(r: seq<T>, xs: seq<T>)
    requires IsDedupOf(r, xs)
    ensures r == Dedup(xs)
  {
    if xs != [] {
      var xs', y := xs[..|xs| - 1], xs[|xs| - 1];
      assert xs == xs' + [y];
      if y in xs' {
        DedupOfOld(r, xs', y);
        DedupUnique(r, xs');
        assert y in Dedup(xs');
      } else {
        DedupOfNew(r, xs', y);
        DedupUnique(r[..|r| - 1], xs');
        assert r == r[..|r| - 1] + [y];
      }
    }
  }

  /** Without duplicates, an element's first occurrence is its only one. */
  lemma FirstIndexNoDuplicates<T>(xs: seq<T>, i: int)
    requires NoDuplicates(xs) && 0 <= i < |xs|
    ensures FirstIndex(xs, xs[i]) == i
  {
    var f := FirstIndex(xs, xs[i]);
  }

  /** Deduplication keeps a sequence that has no duplicates as it is. */
  lemma DedupNoDuplicates<T>(xs: seq<T>)
    requires NoDuplicates(xs)
    ensures Dedup(xs) == xs
  {
    forall i, j | 0 <= i < j < |xs| ensures FirstIndex(xs, xs[i]) < FirstIndex(xs, xs[j]) {
      FirstIndexNoDuplicates(xs, i);
      FirstIndexNoDuplicates(xs, j);
    }
    DedupUnique(xs, xs);
  }

  /** Without duplicates, an element is counted once if present and never otherwise. */
  lemma {:induction false} CountNoDuplicates<T>(s: seq<T>, x: T)
    requires NoDuplicates(s)
    ensures Count(s, x) == if x in s then 1 else 0
  {
    if s != [] {
      assert NoDuplicates(s[1..]) by {
        forall i, j | 0 <= i < j < |s[1..]| ensures s[1..][i] != s[1..][j] {
          assert s[1..][i] == s[i + 1] && s[1..][j] == s[j + 1];
        }
      }
      CountNoDuplicates(s[1..], x);
      if s[0] == x {
        assert x !in s[1..] by {
          forall k | 0 <= k < |s[1..]| ensures s[1..][k] != x { assert s[1..][k] == s[k + 1]; }
        }
      }
    }
  }
}
