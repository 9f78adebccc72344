/**
 * Python's `sorted(items, key=itemgetter(1))`: a stable sort of histogram items
 * by ascending count. It is modelled as a stable insertion sort and specified
 * by the two facts that determine a stable sort uniquely: the result is
 * ordered by count, and for every count the items having it appear in the same
 * order as in the input (so the result is also a permutation of the input).
 */
module StableSort {

  import opened Histograms

  predicate SortedByCount(s: Histogram) {
    forall i, j :: 0 <= i < j < |s| ==> s[i].count <= s[j].count
  }

  /** The items of `s` whose count is `c`, in their order in `s`. */
  function WithCount(s: Histogram, c: nat): Histogram {
    if s == [] then []
    else (if s[0].count == c then [s[0]] else []) + WithCount(s[1..], c)
  }

  /** Inserts `e` before the first item whose count is at least its own. */
  function Insert(e: Entry, s: Histogram): Histogram {
    if s == [] || e.count <= s[0].count then [e] + s else [s[0]] + Insert(e, s[1..])
  }

  lemma {:induction false} InsertSorted(e: Entry, s: Histogram)
    requires SortedByCount(s)
    ensures SortedByCount(Insert(e, s))
    ensures |Insert(e, s)| == |s| + 1
    ensures Insert(e, s)[0] == e || (s != [] && Insert(e, s)[0] == s[0])
  {
    if s != [] && e.count > s[0].count {
      InsertSorted(e, s[1..]);
    }
  }

  lemma {:induction false} InsertContents(e: Entry, s: Histogram)
    ensures multiset(Insert(e, s)) == multiset{e} + multiset(s)
    ensures Total(Insert(e, s)) == e.count + Total(s)
  {
    if s != [] && e.count > s[0].count {
      InsertContents(e, s[1..]);
      assert s == [s[0]] + s[1..];
    }
  }

  /** The items with count c of `[e] + s`. */
  lemma WithCountCons(e: Entry, s: Histogram, c: nat)
    ensures WithCount([e] + s, c) == (if e.count == c then [e] else []) + WithCount(s, c)
  {
    assert ([e] + s)[1..] == s;
  }

  lemma {:induction false} InsertWithCount(e: Entry, s: Histogram, c: nat)
    ensures WithCount(Insert(e, s), c) == (if e.count == c then [e] else []) + WithCount(s, c)
  {
    if s == [] || e.count <= s[0].count {
      WithCountCons(e, s, c);
    } else {
      var rest := Insert(e, s[1..]);
      var mine: Histogram := if e.count == c then [e] else [];
      var first: Histogram := if s[0].count == c then [s[0]] else [];
      WithCountCons(s[0], rest, c);
      InsertWithCount(e, s[1..], c);
      WithCountCons(s[0], s[1..], c);
      assert s == [s[0]] + s[1..];
      assert first == [] || mine == [];
      calc {
        WithCount(Insert(e, s), c);
        first + WithCount(rest, c);
        first + (mine + WithCount(s[1..], c));
        mine + (first + WithCount(s[1..], c));
        mine + WithCount(s, c);
      }
    }
  }

  lemma InsertWithCountAll(e: Entry, s: Histogram)
    ensures forall c :: WithCount(Insert(e, s), c) == (if e.count == c then [e] else []) + WithCount(s, c)
  {
    forall c {
      InsertWithCount(e, s, c);
    }
  }

  /** The stable ascending-count order of `h`'s items. */
  function SortByCount(h: Histogram): (s: Histogram)
    ensures SortedByCount(s)
    ensures |s| == |h|
    ensures multiset(s) == multiset(h)
    ensures Total(s) == Total(h)
    ensures forall c :: WithCount(s, c) == WithCount(h, c)
  {
    if h == [] then []
    else
      var rest := SortByCount(h[1..]);
      InsertSorted(h[0], rest);
      InsertContents(h[0], rest);
      InsertWithCountAll(h[0], rest);
      assert h == [h[0]] + h[1..];
      Insert(h[0], rest)
  }

  lemma {:induction false} WithCountEmpty(s: Histogram, i: nat)
    requires i < |s|
    ensures WithCount(s, s[i].count) != []
  {
    if i > 0 {
      WithCountEmpty(s[1..], i - 1);
    }
  }

  /** In a count-ordered sequence, no count present is below the first item's. */
  lemma {:induction false} WithCountBelowFirst(s: Histogram, c: nat)
    requires SortedByCount(s) && s != []
    requires WithCount(s, c) != []
    ensures s[0].count <= c
  {
    if s[0].count != c {
      assert WithCount(s, c) == WithCount(s[1..], c);
      if s[1..] == [] {
        assert false;
      }
      WithCountBelowFirst(s[1..], c);
    }
  }

  /**
   * Two count-ordered sequences with the same items per count, in the same
   * order, are equal: the stable sort is determined by its specification.
   */
  lemma {:induction false} StableOrderUnique(a: Histogram, b: Histogram)
    requires SortedByCount(a) && SortedByCount(b)
    requires forall c :: WithCount(a, c) == WithCount(b, c)
    ensures a == b
    decreases |a|
  {
    if a == [] {
      if b != [] {
        WithCountEmpty(b, 0);
        assert false;
      }
    } else if b == [] {
      WithCountEmpty(a, 0);
      assert false;
    } else {
      WithCountEmpty(a, 0);
      WithCountEmpty(b, 0);
      WithCountBelowFirst(b, a[0].count);
      WithCountBelowFirst(a, b[0].count);
      var m := a[0].count;
      assert WithCount(a, m) == [a[0]] + WithCount(a[1..], m);
      assert WithCount(b, m) == [b[0]] + WithCount(b[1..], m);
      assert a[0] == WithCount(a, m)[0] == WithCount(b, m)[0] == b[0];
      forall c
        ensures WithCount(a[1..], c) == WithCount(b[1..], c)
      {
        if c == m {
          assert [a[0]] + WithCount(a[1..], m) == [b[0]] + WithCount(b[1..], m);
          assert WithCount(a[1..], m) == ([a[0]] + WithCount(a[1..], m))[1..];
          assert WithCount(b[1..], m) == ([b[0]] + WithCount(b[1..], m))[1..];
        } else {
          assert WithCount(a, c) == WithCount(a[1..], c);
          assert WithCount(b, c) == WithCount(b[1..], c);
        }
      }
      StableOrderUnique(a[1..], b[1..]);
      assert a == [a[0]] + a[1..] && b == [b[0]] + b[1..];
    }
  }

  /** Any stable count-ordering of `h` is the one SortByCount computes. */
  lemma SortByCountIsTheStableSort(h: Histogram, s: Histogram)
    requires SortedByCount(s)
    requires forall c :: WithCount(s, c) == WithCount(h, c)
    ensures s == SortByCount(h)
  {
    StableOrderUnique(s, SortByCount(h));
  }
}
