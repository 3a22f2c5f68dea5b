/** `array.sort((a, b) => key(b) - key(a))`: JavaScript's sort is stable, so
    the result is the stable sort by descending key, computed here as an
    insertion sort that places each element after every element whose key is
    at least its own. */
module StableSort {
  import opened Seqs

  ghost predicate SortedDesc<T>(xs: seq<T>, key: T -> real) {
    forall i, j :: 0 <= i < j < |xs| ==> key(xs[i]) >= key(xs[j])
  }

  /** The elements whose key is `v`. */
  function KeyIs<T>(key: T -> real, v: real): T -> bool {
    y => key(y) == v
  }

  function Insert<T>(x: T, xs: seq<T>, key: T -> real): (r: seq<T>)
    ensures multiset(r) == multiset(xs) + multiset{x}
    ensures |r| == |xs| + 1
    decreases |xs|
  {
    if |xs| == 0 then [x]
    else if key(xs[0]) >= key(x) then
      assert xs == [xs[0]] + xs[1..];
      [xs[0]] + Insert(x, xs[1..], key)
    else
      [x] + xs
  }

  lemma {:induction false} InsertSorted<T>(x: T, xs: seq<T>, key: T -> real)
    requires SortedDesc(xs, key)
    ensures SortedDesc(Insert(x, xs, key), key)
    ensures Insert(x, xs, key)[0] == x || (|xs| > 0 && Insert(x, xs, key)[0] == xs[0])
    decreases |xs|
  {
    var r := Insert(x, xs, key);
    if |xs| > 0 && key(xs[0]) >= key(x) {
      var rest := Insert(x, xs[1..], key);
      InsertSorted(x, xs[1..], key);
      assert key(rest[0]) <= key(xs[0]);
      assert r == [xs[0]] + rest;
      forall i, j | 0 <= i < j < |r|
        ensures key(r[i]) >= key(r[j])
      {
        assert r[j] == rest[j - 1];
        if i > 0 {
          assert r[i] == rest[i - 1];
        } else if j > 1 {
          assert key(rest[0]) >= key(rest[j - 1]);
        }
      }
    } else if |xs| > 0 {
      assert r == [x] + xs;
      forall i, j | 0 <= i < j < |r|
        ensures key(r[i]) >= key(r[j])
      {
        assert r[j] == xs[j - 1];
        if i > 0 {
          assert r[i] == xs[i - 1];
        } else if j > 1 {
          assert key(xs[0]) >= key(xs[j - 1]);
        }
      }
    }
  }

  /** The stable descending sort. */
  function SortDesc<T>(xs: seq<T>, key: T -> real): (r: seq<T>)
    ensures SortedDesc(r, key)
    ensures multiset(r) == multiset(xs)
    ensures |r| == |xs|
    decreases |xs|
  {
    if |xs| == 0 then []
    else
      var sorted := SortDesc(xs[..|xs| - 1], key);
      assert xs == xs[..|xs| - 1] + [xs[|xs| - 1]];
      InsertSorted(xs[|xs| - 1], sorted, key);
      Insert(xs[|xs| - 1], sorted, key)
  }

  lemma {:induction false} InsertKeepsEqualKeyOrder<T>(x: T, xs: seq<T>, key: T -> real, v: real)
    requires SortedDesc(xs, key)
    ensures Filter(Insert(x, xs, key), KeyIs(key, v))
      == Filter(xs, KeyIs(key, v)) + (if key(x) == v then [x] else [])
    decreases |xs|
  {
    var p := KeyIs(key, v);
    if |xs| > 0 {
      if key(xs[0]) >= key(x) {
        InsertKeepsEqualKeyOrder(x, xs[1..], key, v);
        var rest := Insert(x, xs[1..], key);
        assert ([xs[0]] + rest)[1..] == rest;
      } else {
        assert ([x] + xs)[1..] == xs;
        if key(x) == v {
          forall i | 0 <= i < |xs| ensures !p(xs[i]) {
            assert key(xs[i]) <= key(xs[0]);
          }
          FilterNone(xs, p);
        }
      }
    }
  }

  /** Stability: the elements sharing any one key keep their input order. */
  lemma {:induction false} SortIsStable<T>(xs: seq<T>, key: T -> real, v: real)
    ensures Filter(SortDesc(xs, key), KeyIs(key, v)) == Filter(xs, KeyIs(key, v))
    decreases |xs|
  {
    if |xs| > 0 {
      SortIsStable(xs[..|xs| - 1], key, v);
      StableStep(xs, key, v);
    }
  }

  lemma StableStep<T>(xs: seq<T>, key: T -> real, v: real)
    requires |xs| > 0
    requires Filter(SortDesc(xs[..|xs| - 1], key), KeyIs(key, v)) == Filter(xs[..|xs| - 1], KeyIs(key, v))
    ensures Filter(SortDesc(xs, key), KeyIs(key, v)) == Filter(xs, KeyIs(key, v))
  {
    var init, x := xs[..|xs| - 1], xs[|xs| - 1];
    SortDescSnoc(xs, key);
    InsertKeepsEqualKeyOrder(x, SortDesc(init, key), key, v);
    FilterSnoc(xs, KeyIs(key, v));
  }

  /** The sort inserts the last element into the sorted rest. */
  lemma SortDescSnoc<T>(xs: seq<T>, key: T -> real)
    requires |xs| > 0
    ensures SortDesc(xs, key) == Insert(xs[|xs| - 1], SortDesc(xs[..|xs| - 1], key), key)
  {
  }

  lemma {:induction false} InsertAtEnd<T>(x: T, xs: seq<T>, key: T -> real)
    requires forall i :: 0 <= i < |xs| ==> key(xs[i]) >= key(x)
    ensures Insert(x, xs, key) == xs + [x]
    decreases |xs|
  {
    if |xs| > 0 {
      InsertAtEnd(x, xs[1..], key);
      assert [xs[0]] + (xs[1..] + [x]) == xs + [x];
    }
  }

  /** A list already in descending order is left as it is. */
  lemma {:induction false} SortDescOfSorted<T>(xs: seq<T>, key: T -> real)
    requires SortedDesc(xs, key)
    ensures SortDesc(xs, key) == xs
    decreases |xs|
  {
    if |xs| > 0 {
      var init := xs[..|xs| - 1];
      SortDescOfSorted(init, key);
      InsertAtEnd(xs[|xs| - 1], init, key);
      assert init + [xs[|xs| - 1]] == xs;
    }
  }
}
