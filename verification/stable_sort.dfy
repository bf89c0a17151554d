/**
 `stableSort`, the decorate-sort-undecorate sort both table pages use: every
 element is paired with its index, the pairs are sorted with the record
 comparator and the index as a tie-breaker, and the elements are read back.

 The browser's `Array.prototype.sort` is modelled by insertion sort on the
 pairs. For a comparator that is a total preorder on the input the pair order
 is strict and total, and `SortedPermutationIsUnique` shows that every sorted
 permutation of the pairs is this one, so the choice of algorithm does not
 matter there.
 */
module StableSorting {

  /** An element paired with its position in the input (`[el, index]`). */
  type Indexed<T> = (T, nat)

  /** `array.map((el, index) => [el, index])` */
  function Decorate<T>(xs: seq<T>): seq<Indexed<T>> {
    seq(|xs|, i requires 0 <= i < |xs| => (xs[i], i))
  }

  /** `stabilizedThis.map((el) => el[0])` */
  function Undecorate<T>(ps: seq<Indexed<T>>): seq<T> {
    seq(|ps|, k requires 0 <= k < |ps| => ps[k].0)
  }

  lemma UndecorateSnoc<T>(ps: seq<Indexed<T>>, p: Indexed<T>)
    ensures Undecorate(ps + [p]) == Undecorate(ps) + [p.0]
  {
  }

  /** The comparator handed to the browser's sort: the record comparator, and on
      a tie the difference of the original indices. */
  function PairCompare<T>(cmp: (T, T) -> int, p: Indexed<T>, q: Indexed<T>): int {
    var order := cmp(p.0, q.0);
    if order != 0 then order else p.1 - q.1
  }

  /** Inserts `p` into `s` from the right, moving it left past every pair that
      the pair comparator puts after it. */
  function Insert<T>(cmp: (T, T) -> int, s: seq<Indexed<T>>, p: Indexed<T>): (r: seq<Indexed<T>>)
    ensures |r| == |s| + 1
    ensures multiset(r) == multiset(s) + multiset{p}
    ensures multiset(Undecorate(r)) == multiset(Undecorate(s)) + multiset{p.0}
    ensures r[|r| - 1] == p || (|s| > 0 && r[|r| - 1] == s[|s| - 1])
    decreases |s|
  {
    if |s| == 0 then [p]
    else
      var init, last := s[..|s| - 1], s[|s| - 1];
      assert s == init + [last];
      UndecorateSnoc(init, last);
      if PairCompare(cmp, last, p) > 0 then
        var r := Insert(cmp, init, p);
        UndecorateSnoc(r, last);
        r + [last]
      else
        UndecorateSnoc(s, p);
        s + [p]
  }

  /** Sorts the pairs by inserting them one at a time, in input order. */
  function SortPairs<T>(cmp: (T, T) -> int, ps: seq<Indexed<T>>): (r: seq<Indexed<T>>)
    ensures |r| == |ps|
    ensures multiset(r) == multiset(ps)
    ensures multiset(Undecorate(r)) == multiset(Undecorate(ps))
    decreases |ps|
  {
    if |ps| == 0 then []
    else
      var init, last := ps[..|ps| - 1], ps[|ps| - 1];
      assert ps == init + [last];
      UndecorateSnoc(init, last);
      Insert(cmp, SortPairs(cmp, init), last)
  }

  /** The decorated input after the sort, before it is undecorated. */
  function SortDecorated<T>(xs: seq<T>, cmp: (T, T) -> int): seq<Indexed<T>> {
    SortPairs(cmp, Decorate(xs))
  }

  /** `stableSort(array, comparator)` */
  function StableSort<T>(xs: seq<T>, cmp: (T, T) -> int): (r: seq<T>)
    ensures |r| == |xs|
    ensures multiset(r) == multiset(xs)
  {
    assert Undecorate(Decorate(xs)) == xs;
    Undecorate(SortDecorated(xs, cmp))
  }

  // ---------------------------------------------------------------------------
  // Properties of the comparator on the input
  // ---------------------------------------------------------------------------

  function Sign(n: int): int {
    if n < 0 then -1 else if n > 0 then 1 else 0
  }

  /** Swapping the arguments of `cmp` flips the sign of its result, for elements of `vs`. */
  ghost predicate Antisymmetric<T>(cmp: (T, T) -> int, vs: seq<T>) {
    forall a, b | a in vs && b in vs :: Sign(cmp(a, b)) == -Sign(cmp(b, a))
  }

  /** `cmp(a, b) <= 0` is a total preorder on the elements of `vs`. */
  ghost predicate TotalPreorder<T>(cmp: (T, T) -> int, vs: seq<T>) {
    && Antisymmetric(cmp, vs)
    && forall a, b, c | a in vs && b in vs && c in vs ::
         cmp(a, b) <= 0 && cmp(b, c) <= 0 ==> cmp(a, c) <= 0
  }

  // ---------------------------------------------------------------------------
  // Properties of a sequence of pairs
  // ---------------------------------------------------------------------------

  /** Every element of `ps` comes from `vs`. */
  ghost predicate ValuesIn<T>(ps: seq<Indexed<T>>, vs: seq<T>) {
    forall k | 0 <= k < |ps| :: ps[k].0 in vs
  }

  /** The original indices increase along `ps`, as they do in `Decorate(xs)`. */
  ghost predicate IndicesIncrease<T>(ps: seq<Indexed<T>>) {
    forall a, b | 0 <= a < b < |ps| :: ps[a].1 < ps[b].1
  }

  /** Stability: a pair is placed before a pair with a smaller (or equal) index
      only when the comparator puts the element of that second pair strictly
      after the element of the first. */
  ghost predicate TiesInInputOrder<T>(cmp: (T, T) -> int, ps: seq<Indexed<T>>) {
    forall a, b | 0 <= a < b < |ps| :: ps[b].1 <= ps[a].1 ==> cmp(ps[b].0, ps[a].0) > 0
  }

  /** Neighbouring elements are in comparator order. */
  ghost predicate AdjacentSorted<T>(cmp: (T, T) -> int, ps: seq<Indexed<T>>) {
    forall k | 0 <= k < |ps| - 1 :: cmp(ps[k].0, ps[k + 1].0) <= 0
  }

  /** Every earlier element is in comparator order with every later one. */
  ghost predicate Sorted<T>(cmp: (T, T) -> int, ps: seq<Indexed<T>>) {
    forall a, b | 0 <= a < b < |ps| :: cmp(ps[a].0, ps[b].0) <= 0
  }

  /** The pair order the browser's sort is asked to establish. */
  predicate PairLess<T>(cmp: (T, T) -> int, p: Indexed<T>, q: Indexed<T>) {
    PairCompare(cmp, p, q) < 0
  }

  /** `ps` is strictly increasing under the pair order. */
  ghost predicate StrictlySorted<T>(cmp: (T, T) -> int, ps: seq<Indexed<T>>) {
    forall a, b | 0 <= a < b < |ps| :: PairLess(cmp, ps[a], ps[b])
  }

  /** Every pair of `Insert(cmp, s, p)` is `p` or a pair of `s`. */
  lemma InsertElements<T>(cmp: (T, T) -> int, s: seq<Indexed<T>>, p: Indexed<T>, k: nat)
    requires k < |s| + 1
    ensures var r := Insert(cmp, s, p); r[k] == p || exists j :: 0 <= j < |s| && s[j] == r[k]
  {
    var r := Insert(cmp, s, p);
    assert r[k] in multiset(r);
  }

  /** Every pair of `SortPairs(cmp, ps)` is a pair of `ps`. */
  lemma SortPairsElements<T>(cmp: (T, T) -> int, ps: seq<Indexed<T>>, k: nat)
    requires k < |ps|
    ensures exists j :: 0 <= j < |ps| && ps[j] == SortPairs(cmp, ps)[k]
  {
    var r := SortPairs(cmp, ps);
    assert r[k] in multiset(r);
  }

  // ---------------------------------------------------------------------------
  // Stability
  // ---------------------------------------------------------------------------

  /** Appending a pair keeps stability when every pair it is placed after, with
      an index no smaller than its own, compares strictly before it. */
  lemma SnocKeepsTiesInInputOrder<T>(cmp: (T, T) -> int, r: seq<Indexed<T>>, q: Indexed<T>)
    requires TiesInInputOrder(cmp, r)
    requires forall a | 0 <= a < |r| :: q.1 <= r[a].1 ==> cmp(q.0, r[a].0) > 0
    ensures TiesInInputOrder(cmp, r + [q])
  {
  }

  lemma {:induction false} InsertKeepsTiesInInputOrder<T>(cmp: (T, T) -> int, s: seq<Indexed<T>>, p: Indexed<T>)
    requires TiesInInputOrder(cmp, s)
    requires forall k | 0 <= k < |s| :: s[k].1 < p.1
    ensures TiesInInputOrder(cmp, Insert(cmp, s, p))
    decreases |s|
  {
    if |s| == 0 {
    } else if PairCompare(cmp, s[|s| - 1], p) > 0 {
      var init, last := s[..|s| - 1], s[|s| - 1];
      InsertKeepsTiesInInputOrder(cmp, init, p);
      var r := Insert(cmp, init, p);
      forall a | 0 <= a < |r| && last.1 <= r[a].1 ensures cmp(last.0, r[a].0) > 0 {
        InsertElements(cmp, init, p, a);
        if r[a] != p {
          var j :| 0 <= j < |init| && init[j] == r[a];
          assert s[j] == r[a];
        }
      }
      SnocKeepsTiesInInputOrder(cmp, r, last);
    } else {
      SnocKeepsTiesInInputOrder(cmp, s, p);
    }
  }

  lemma {:induction false} SortPairsTiesInInputOrder<T>(cmp: (T, T) -> int, ps: seq<Indexed<T>>)
    requires IndicesIncrease(ps)
    ensures TiesInInputOrder(cmp, SortPairs(cmp, ps))
    decreases |ps|
  {
    if |ps| > 0 {
      var init, last := ps[..|ps| - 1], ps[|ps| - 1];
      SortPairsTiesInInputOrder(cmp, init);
      var s := SortPairs(cmp, init);
      forall k | 0 <= k < |s| ensures s[k].1 < last.1 {
        SortPairsElements(cmp, init, k);
        var j :| 0 <= j < |init| && init[j] == s[k];
        assert ps[j] == s[k];
      }
      InsertKeepsTiesInInputOrder(cmp, s, last);
    }
  }

  // ---------------------------------------------------------------------------
  // Sortedness
  // ---------------------------------------------------------------------------

  lemma SnocKeepsAdjacentSorted<T>(cmp: (T, T) -> int, r: seq<Indexed<T>>, q: Indexed<T>)
    requires AdjacentSorted(cmp, r)
    requires |r| > 0 ==> cmp(r[|r| - 1].0, q.0) <= 0
    ensures AdjacentSorted(cmp, r + [q])
  {
  }

  /** A pair that `Insert` moves past `q` does not compare after `q`. */
  lemma MovedPastIsNotAfter<T>(cmp: (T, T) -> int, q: Indexed<T>, p: Indexed<T>, vs: seq<T>)
    requires Antisymmetric(cmp, vs)
    requires p.0 in vs && q.0 in vs
    requires PairCompare(cmp, q, p) > 0
    ensures cmp(p.0, q.0) <= 0
  {
    assert Sign(cmp(q.0, p.0)) == -Sign(cmp(p.0, q.0));
  }

  /** The step of `InsertKeepsAdjacentSorted` where `p` moves past the last pair. */
  lemma InsertPastLastKeepsAdjacentSorted<T>(cmp: (T, T) -> int, s: seq<Indexed<T>>, p: Indexed<T>, vs: seq<T>)
    requires Antisymmetric(cmp, vs)
    requires |s| > 0 && PairCompare(cmp, s[|s| - 1], p) > 0
    requires p.0 in vs && s[|s| - 1].0 in vs
    requires AdjacentSorted(cmp, s)
    requires AdjacentSorted(cmp, Insert(cmp, s[..|s| - 1], p))
    ensures AdjacentSorted(cmp, Insert(cmp, s, p))
  {
    var init, last := s[..|s| - 1], s[|s| - 1];
    var r := Insert(cmp, init, p);
    assert Insert(cmp, s, p) == r + [last];
    if r[|r| - 1] == p {
      MovedPastIsNotAfter(cmp, last, p, vs);
    } else {
      assert r[|r| - 1] == s[|s| - 2];
    }
    SnocKeepsAdjacentSorted(cmp, r, last);
  }

  lemma {:induction false} InsertKeepsAdjacentSorted<T>(cmp: (T, T) -> int, s: seq<Indexed<T>>, p: Indexed<T>, vs: seq<T>)
    requires Antisymmetric(cmp, vs)
    requires p.0 in vs && ValuesIn(s, vs)
    requires AdjacentSorted(cmp, s)
    ensures AdjacentSorted(cmp, Insert(cmp, s, p))
    decreases |s|
  {
    if |s| == 0 {
    } else if PairCompare(cmp, s[|s| - 1], p) > 0 {
      var init := s[..|s| - 1];
      assert AdjacentSorted(cmp, init) && ValuesIn(init, vs);
      InsertKeepsAdjacentSorted(cmp, init, p, vs);
      InsertPastLastKeepsAdjacentSorted(cmp, s, p, vs);
    } else {
      SnocKeepsAdjacentSorted(cmp, s, p);
    }
  }

  lemma {:induction false} SortPairsAdjacentSorted<T>(cmp: (T, T) -> int, ps: seq<Indexed<T>>, vs: seq<T>)
    requires Antisymmetric(cmp, vs)
    requires ValuesIn(ps, vs)
    ensures AdjacentSorted(cmp, SortPairs(cmp, ps))
    decreases |ps|
  {
    if |ps| > 0 {
      var init, last := ps[..|ps| - 1], ps[|ps| - 1];
      assert ValuesIn(init, vs);
      SortPairsAdjacentSorted(cmp, init, vs);
      var s := SortPairs(cmp, init);
      forall k | 0 <= k < |s| ensures s[k].0 in vs {
        SortPairsElements(cmp, init, k);
      }
      InsertKeepsAdjacentSorted(cmp, s, last, vs);
    }
  }

  lemma SortedSnoc<T>(cmp: (T, T) -> int, r: seq<Indexed<T>>, q: Indexed<T>)
    requires Sorted(cmp, r)
    requires forall a | 0 <= a < |r| :: cmp(r[a].0, q.0) <= 0
    ensures Sorted(cmp, r + [q])
  {
  }

  lemma PreorderTransitive<T>(cmp: (T, T) -> int, vs: seq<T>, a: T, b: T, c: T)
    requires TotalPreorder(cmp, vs)
    requires a in vs && b in vs && c in vs
    requires cmp(a, b) <= 0 && cmp(b, c) <= 0
    ensures cmp(a, c) <= 0
  {
  }

  /** Under a total preorder, order between neighbours is order between all pairs. */
  lemma {:induction false} AdjacentSortedIsSorted<T>(cmp: (T, T) -> int, ps: seq<Indexed<T>>, vs: seq<T>)
    requires TotalPreorder(cmp, vs)
    requires ValuesIn(ps, vs)
    requires AdjacentSorted(cmp, ps)
    ensures Sorted(cmp, ps)
    decreases |ps|
  {
    if |ps| > 1 {
      var n := |ps| - 1;
      var init := ps[..n];
      assert ValuesIn(init, vs) && AdjacentSorted(cmp, init);
      AdjacentSortedIsSorted(cmp, init, vs);
      forall a | 0 <= a < n ensures cmp(ps[a].0, ps[n].0) <= 0 {
        if a < n - 1 {
          assert cmp(init[a].0, init[n - 1].0) <= 0;
          PreorderTransitive(cmp, vs, ps[a].0, ps[n - 1].0, ps[n].0);
        }
      }
      SortedSnoc(cmp, init, ps[n]);
      assert ps == init + [ps[n]];
    }
  }

  // ---------------------------------------------------------------------------
  // Results about `SortDecorated` and `StableSort`
  // ---------------------------------------------------------------------------

  lemma DecorateIndicesIncrease<T>(xs: seq<T>)
    ensures IndicesIncrease(Decorate(xs))
  {
  }

  /** Each sorted pair is an element of the input together with its own index, and
      the elements read back are exactly the `StableSort` result. */
  lemma SortDecoratedLabels<T>(xs: seq<T>, cmp: (T, T) -> int)
    ensures var ps := SortDecorated(xs, cmp);
      |ps| == |xs| &&
      (forall k | 0 <= k < |ps| :: ps[k].1 < |xs| && ps[k].0 == xs[ps[k].1]) &&
      (forall k | 0 <= k < |ps| :: StableSort(xs, cmp)[k] == ps[k].0)
  {
    var ps := SortDecorated(xs, cmp);
    forall k | 0 <= k < |ps| ensures ps[k].1 < |xs| && ps[k].0 == xs[ps[k].1] {
      SortPairsElements(cmp, Decorate(xs), k);
    }
  }

  /** Stability, in both sort directions and for any comparator: whenever the
      output lists an element before one that came earlier in the input, the
      comparator puts the earlier one strictly after the later one. In particular
      elements that tie keep their input order. */
  lemma SortDecoratedIsStable<T>(xs: seq<T>, cmp: (T, T) -> int)
    ensures TiesInInputOrder(cmp, SortDecorated(xs, cmp))
  {
    SortPairsTiesInInputOrder(cmp, Decorate(xs));
  }

  /** When swapping the arguments of the comparator flips its sign on the input,
      neighbouring outputs are in comparator order. */
  lemma StableSortAdjacentSorted<T>(xs: seq<T>, cmp: (T, T) -> int)
    requires Antisymmetric(cmp, xs)
    ensures var r := StableSort(xs, cmp);
      forall k | 0 <= k < |r| - 1 :: cmp(r[k], r[k + 1]) <= 0
  {
    SortPairsAdjacentSorted(cmp, Decorate(xs), xs);
    SortDecoratedLabels(xs, cmp);
  }

  /** When the comparator is a total preorder on the input, the output is sorted. */
  lemma StableSortSorted<T>(xs: seq<T>, cmp: (T, T) -> int)
    requires TotalPreorder(cmp, xs)
    ensures var r := StableSort(xs, cmp);
      forall a, b | 0 <= a < b < |r| :: cmp(r[a], r[b]) <= 0
  {
    var ps := SortDecorated(xs, cmp);
    SortPairsAdjacentSorted(cmp, Decorate(xs), xs);
    SortDecoratedLabels(xs, cmp);
    AdjacentSortedIsSorted(cmp, ps, xs);
  }

  /** Under a total preorder the sorted pairs are strictly increasing in the
      pair order the browser's sort is given. */
  lemma SortDecoratedStrictlySorted<T>(xs: seq<T>, cmp: (T, T) -> int)
    requires TotalPreorder(cmp, xs)
    ensures StrictlySorted(cmp, SortDecorated(xs, cmp))
  {
    var ps := SortDecorated(xs, cmp);
    var r := StableSort(xs, cmp);
    SortDecoratedLabels(xs, cmp);
    SortDecoratedIsStable(xs, cmp);
    StableSortSorted(xs, cmp);
    forall a, b | 0 <= a < b < |ps| ensures PairLess(cmp, ps[a], ps[b]) {
      assert ps[a].0 == xs[ps[a].1] && ps[b].0 == xs[ps[b].1];
      assert r[a] == ps[a].0 && r[b] == ps[b].0;
      SortedAndStableIsPairLess(cmp, ps[a], ps[b], xs);
    }
  }

  /** A pair that is not after `q` under `cmp`, and that `q` only precedes in the
      input when `cmp` puts `q` strictly after it, is below `q` in the pair order. */
  lemma SortedAndStableIsPairLess<T>(cmp: (T, T) -> int, p: Indexed<T>, q: Indexed<T>, vs: seq<T>)
    requires Antisymmetric(cmp, vs)
    requires p.0 in vs && q.0 in vs
    requires cmp(p.0, q.0) <= 0
    requires q.1 <= p.1 ==> cmp(q.0, p.0) > 0
    ensures PairLess(cmp, p, q)
  {
  }

  /** On the elements of `vs` the pair order is asymmetric (and so irreflexive). */
  lemma PairLessAsymmetric<T>(cmp: (T, T) -> int, p: Indexed<T>, q: Indexed<T>, vs: seq<T>)
    requires Antisymmetric(cmp, vs)
    requires p.0 in vs && q.0 in vs
    ensures !(PairLess(cmp, p, q) && PairLess(cmp, q, p))
  {
    assert Sign(cmp(p.0, q.0)) == -Sign(cmp(q.0, p.0));
  }

  /** Two sequences with the same elements, both strictly increasing in the pair
      order, start with the same pair: each one's head is the least element. */
  lemma StrictlySortedHeadsEqual<T>(cmp: (T, T) -> int, ps: seq<Indexed<T>>, qs: seq<Indexed<T>>, vs: seq<T>)
    requires Antisymmetric(cmp, vs)
    requires ValuesIn(ps, vs)
    requires |ps| > 0 && |qs| > 0
    requires ps[0] in qs && qs[0] in ps
    requires StrictlySorted(cmp, ps) && StrictlySorted(cmp, qs)
    ensures ps[0] == qs[0]
  {
    var j :| 0 <= j < |qs| && qs[j] == ps[0];
    var i :| 0 <= i < |ps| && ps[i] == qs[0];
    PairLessAsymmetric(cmp, ps[0], qs[0], vs);
    assert i > 0 ==> PairLess(cmp, ps[0], qs[0]);
    assert j > 0 ==> PairLess(cmp, qs[0], ps[0]);
  }

  /** Two sequences with the same elements, both strictly increasing in the pair
      order, are equal. */
  lemma {:induction false} StrictlySortedPermutationsEqual<T>(cmp: (T, T) -> int, ps: seq<Indexed<T>>, qs: seq<Indexed<T>>, vs: seq<T>)
    requires Antisymmetric(cmp, vs)
    requires ValuesIn(ps, vs)
    requires multiset(ps) == multiset(qs)
    requires StrictlySorted(cmp, ps) && StrictlySorted(cmp, qs)
    ensures ps == qs
    decreases |ps|
  {
    assert |ps| == |multiset(ps)| == |multiset(qs)| == |qs|;
    if |ps| > 0 {
      assert ps[0] in multiset(qs) && qs[0] in multiset(ps);
      StrictlySortedHeadsEqual(cmp, ps, qs, vs);
      TailsArePermutations(ps, qs);
      assert ValuesIn(ps[1..], vs);
      assert StrictlySorted(cmp, ps[1..]) && StrictlySorted(cmp, qs[1..]);
      StrictlySortedPermutationsEqual(cmp, ps[1..], qs[1..], vs);
    }
  }

  lemma TailsArePermutations<T>(ps: seq<T>, qs: seq<T>)
    requires |ps| > 0 && |qs| > 0 && ps[0] == qs[0]
    requires multiset(ps) == multiset(qs)
    ensures multiset(ps[1..]) == multiset(qs[1..])
  {
    assert ps == [ps[0]] + ps[1..] && qs == [qs[0]] + qs[1..];
    assert multiset(ps[1..]) == multiset(ps) - multiset{ps[0]};
    assert multiset(qs[1..]) == multiset(qs) - multiset{qs[0]};
  }

  /** Any permutation of the decorated input that is strictly increasing in the
      pair order is the sort's result: under a total preorder the outcome does not
      depend on the sorting algorithm. */
  lemma SortedPermutationIsUnique<T>(xs: seq<T>, cmp: (T, T) -> int, qs: seq<Indexed<T>>)
    requires TotalPreorder(cmp, xs)
    requires multiset(qs) == multiset(Decorate(xs))
    requires StrictlySorted(cmp, qs)
    ensures qs == SortDecorated(xs, cmp)
  {
    var ps := SortDecorated(xs, cmp);
    SortDecoratedStrictlySorted(xs, cmp);
    SortDecoratedLabels(xs, cmp);
    assert ValuesIn(ps, xs) by {
      forall k | 0 <= k < |ps| ensures ps[k].0 in xs {
        assert ps[k].0 == xs[ps[k].1];
      }
    }
    StrictlySortedPermutationsEqual(cmp, ps, qs, xs);
  }
}
