/** Generic sequence operations that mirror the JavaScript array methods the
    program uses: `filter`, `slice(0, end)` and `[...new Set(xs)]`. */
module Seqs {

  ghost predicate NoDuplicates<T>(xs: seq<T>) {
    forall i, j :: 0 <= i < j < |xs| ==> xs[i] != xs[j]
  }

  /** `xs.filter(p)`: the elements satisfying `p`, in their original order. */
  function Filter<T>(xs: seq<T>, p: T -> bool): (r: seq<T>)
    ensures |r| <= |xs|
    ensures forall i :: 0 <= i < |r| ==> p(r[i])
    ensures (forall i :: 0 <= i < |xs| ==> p(xs[i])) ==> r == xs
    decreases |xs|
  {
    if |xs| == 0 then []
    else if p(xs[0]) then [xs[0]] + Filter(xs[1..], p)
    else Filter(xs[1..], p)
  }

  /** The filter keeps exactly the elements satisfying `p`. */
  lemma {:induction false} FilterMembers<T>(xs: seq<T>, p: T -> bool)
    ensures forall i :: 0 <= i < |Filter(xs, p)| ==> Filter(xs, p)[i] in xs
    ensures forall i :: 0 <= i < |xs| && p(xs[i]) ==> xs[i] in Filter(xs, p)
    decreases |xs|
  {
    if |xs| > 0 {
      FilterMembers(xs[1..], p);
    }
  }

  lemma FilterCons<T>(xs: seq<T>, p: T -> bool)
    requires |xs| > 0
    ensures Filter(xs, p) == (if p(xs[0]) then [xs[0]] else []) + Filter(xs[1..], p)
  {
  }

  /** Filtering a list is filtering all but its last element, then
      appending that element if it passes. */
  lemma {:induction false} FilterSnoc<T>(xs: seq<T>, p: T -> bool)
    requires |xs| > 0
    ensures Filter(xs, p) == Filter(xs[..|xs| - 1], p) + (if p(xs[|xs| - 1]) then [xs[|xs| - 1]] else [])
  {
    var init, x := xs[..|xs| - 1], xs[|xs| - 1];
    assert xs == init + [x];
    FilterAppend(init, [x], p);
    assert [x][1..] == [];
  }

  /** Nothing passes a filter that no element satisfies. */
  lemma {:induction false} FilterNone<T>(xs: seq<T>, p: T -> bool)
    requires forall i :: 0 <= i < |xs| ==> !p(xs[i])
    ensures Filter(xs, p) == []
    decreases |xs|
  {
    if |xs| > 0 {
      FilterNone(xs[1..], p);
    }
  }

  lemma {:induction false} FilterAppend<T>(a: seq<T>, b: seq<T>, p: T -> bool)
    ensures Filter(a + b, p) == Filter(a, p) + Filter(b, p)
    decreases |a|
  {
    if |a| == 0 {
      assert a + b == b;
    } else {
      assert (a + b)[1..] == a[1..] + b;
      FilterAppend(a[1..], b, p);
    }
  }

  /** Filtering keeps no duplicates when there were none. */
  lemma {:induction false} FilterNoDuplicates<T>(xs: seq<T>, p: T -> bool)
    requires NoDuplicates(xs)
    ensures NoDuplicates(Filter(xs, p))
    decreases |xs|
  {
    if |xs| > 0 {
      FilterNoDuplicates(xs[1..], p);
      var rest := Filter(xs[1..], p);
      FilterMembers(xs[1..], p);
      assert xs[0] !in xs[1..];
      assert xs[0] !in rest;
    }
  }

  /** The push loop `for (x of xs) if (keep(x)) out.push(make(x, out.length + 1))`. */
  function NumberKept<T, U>(xs: seq<T>, keep: T -> bool, make: (T, int) -> U): (r: seq<U>)
    ensures |r| <= |xs|
    decreases |xs|
  {
    if |xs| == 0 then []
    else
      var prev := NumberKept(xs[..|xs| - 1], keep, make);
      var x := xs[|xs| - 1];
      if keep(x) then prev + [make(x, |prev| + 1)] else prev
  }

  /** The push loop is the filter of `xs` by `keep`, each kept element made
      with its 1-based place among the kept ones. */
  lemma {:induction false} NumberKeptIsNumberedFilter<T, U>(xs: seq<T>, keep: T -> bool, make: (T, int) -> U)
    ensures var kept := Filter(xs, keep);
      var r := NumberKept(xs, keep, make);
      |r| == |kept| && forall i :: 0 <= i < |r| ==> r[i] == make(kept[i], i + 1)
    decreases |xs|
  {
    if |xs| > 0 {
      var init := xs[..|xs| - 1];
      var x := xs[|xs| - 1];
      assert xs == init + [x];
      var prev := NumberKept(init, keep, make);
      var kp := Filter(init, keep);
      var r := NumberKept(xs, keep, make);
      var kept := Filter(xs, keep);
      NumberKeptIsNumberedFilter(init, keep, make);
      FilterAppend(init, [x], keep);
      if keep(x) {
        assert Filter([x], keep) == [x];
        assert kept == kp + [x];
        forall i | 0 <= i < |r|
          ensures r[i] == make(kept[i], i + 1)
        {
          if i < |prev| {
            assert r[i] == prev[i] && kept[i] == kp[i];
          }
        }
      } else {
        assert Filter([x], keep) == [];
      }
    }
  }

  /** The length `xs.slice(0, end)` keeps: a negative `end` counts back from
      the end of the array, and the result is clamped to `0..|xs|`. */
  function SliceEnd(len: nat, end: int): (k: nat)
    ensures k <= len
    ensures end >= 0 ==> k == if end < len then end else len
    ensures end < 0 ==> k == if len + end > 0 then len + end else 0
  {
    if end < 0 then (if len + end > 0 then len + end else 0)
    else if end < len then end
    else len
  }

  /** `xs.slice(0, end)`. */
  function SliceTo<T>(xs: seq<T>, end: int): (r: seq<T>)
    ensures |r| == SliceEnd(|xs|, end)
    ensures r <= xs
  {
    xs[..SliceEnd(|xs|, end)]
  }

  /** Index of the first occurrence of `x` in `xs`. */
  function FirstIndex<T(==)>(xs: seq<T>, x: T): (i: nat)
    requires x in xs
    ensures i < |xs| && xs[i] == x && x !in xs[..i]
    decreases |xs|
  {
    if xs[0] == x then 0 else 1 + FirstIndex(xs[1..], x)
  }

  lemma {:induction false} FirstIndexAppend<T>(xs: seq<T>, y: T, x: T)
    requires x in xs
    ensures FirstIndex(xs + [y], x) == FirstIndex(xs, x)
    decreases |xs|
  {
    if xs[0] != x {
      assert (xs + [y])[1..] == xs[1..] + [y];
      FirstIndexAppend(xs[1..], y, x);
    }
  }

  /** Index of the last occurrence of `x` in `xs`. */
  function LastIndex<T(==)>(xs: seq<T>, x: T): (i: nat)
    requires x in xs
    ensures i < |xs| && xs[i] == x && x !in xs[i + 1..]
    decreases |xs|
  {
    if xs[|xs| - 1] == x then |xs| - 1
    else
      assert xs == xs[..|xs| - 1] + [xs[|xs| - 1]];
      LastIndex(xs[..|xs| - 1], x)
  }

  /** `[...new Set(xs)]`: a Set iterates in first-insertion order, so every
      value is kept once, at the place of its first occurrence. */
  function Dedup<T(==)>(xs: seq<T>): (r: seq<T>)
    ensures NoDuplicates(r)
    ensures forall i :: 0 <= i < |r| ==> r[i] in xs
    ensures forall i :: 0 <= i < |xs| ==> xs[i] in r
    ensures |r| <= |xs|
    decreases |xs|
  {
    if |xs| == 0 then []
    else
      var d := Dedup(xs[..|xs| - 1]);
      var x := xs[|xs| - 1];
      assert xs == xs[..|xs| - 1] + [x];
      if x in d then d else d + [x]
  }

  /** A property every element has survives deduplication. */
  lemma DedupAll<T>(xs: seq<T>, p: T -> bool)
    requires forall k :: 0 <= k < |xs| ==> p(xs[k])
    ensures forall k :: 0 <= k < |Dedup(xs)| ==> p(Dedup(xs)[k])
  {
  }

  /** The kept values appear in the order of their first occurrences. */
  lemma {:induction false} DedupFirstOccurrenceOrder<T>(xs: seq<T>)
    ensures forall i, j :: 0 <= i < j < |Dedup(xs)| ==>
      FirstIndex(xs, Dedup(xs)[i]) < FirstIndex(xs, Dedup(xs)[j])
    decreases |xs|
  {
    if |xs| > 0 {
      var init := xs[..|xs| - 1];
      var x := xs[|xs| - 1];
      assert xs == init + [x];
      DedupFirstOccurrenceOrder(init);
      var d := Dedup(init);
      var r := Dedup(xs);
      forall i, j | 0 <= i < j < |r|
        ensures FirstIndex(xs, r[i]) < FirstIndex(xs, r[j])
      {
        assert r[i] in d;
        FirstIndexAppend(init, x, r[i]);
        if j < |d| {
          FirstIndexAppend(init, x, r[j]);
        } else {
          assert r[j] == x && x !in init;
          var k := FirstIndex(xs, x);
          assert forall m :: 0 <= m < |init| ==> xs[m] == init[m];
          assert k == |init|;
        }
      }
    }
  }

  /** Deduplication does nothing to a sequence that has no duplicates. */
  lemma {:induction false} DedupOfDistinct<T>(xs: seq<T>)
    requires NoDuplicates(xs)
    ensures Dedup(xs) == xs
    decreases |xs|
  {
    if |xs| > 0 {
      var init := xs[..|xs| - 1];
      assert NoDuplicates(init);
      DedupOfDistinct(init);
      assert xs[|xs| - 1] !in init;
      assert xs == init + [xs[|xs| - 1]];
    }
  }

  /** Without duplicates, every value occurs at most once. */
  lemma {:induction false} DistinctCountAtMostOne<T>(xs: seq<T>, x: T)
    requires NoDuplicates(xs)
    ensures multiset(xs)[x] <= 1
    decreases |xs|
  {
    if |xs| > 0 {
      var init := xs[..|xs| - 1];
      assert xs == init + [xs[|xs| - 1]];
      DistinctCountAtMostOne(init, x);
      if x == xs[|xs| - 1] {
        assert x !in init;
      }
    }
  }

  /** A value found at two positions occurs at least twice. */
  lemma RepeatedCountAtLeastTwo<T>(xs: seq<T>, i: nat, j: nat)
    requires i < j < |xs| && xs[i] == xs[j]
    ensures multiset(xs)[xs[i]] >= 2
  {
    var a, b := xs[..j], xs[j + 1..];
    assert xs == a + [xs[j]] + b;
    assert xs[i] in a;
  }

  /** Rearranging a sequence keeps it free of duplicates. */
  lemma PermutationKeepsDistinct<T>(a: seq<T>, b: seq<T>)
    requires multiset(a) == multiset(b) && NoDuplicates(a)
    ensures NoDuplicates(b)
  {
    forall i, j | 0 <= i < j < |b|
      ensures b[i] != b[j]
    {
      if b[i] == b[j] {
        RepeatedCountAtLeastTwo(b, i, j);
        DistinctCountAtMostOne(a, b[i]);
      }
    }
  }
}
