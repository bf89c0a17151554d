/**
 `stableSort(rows, getComparator(order, orderBy))`, the view both table pages
 compute from their rows and their sort state, and what it guarantees.
 */
module ColumnSort {
  import opened Keys
  import opened StableSorting

  /** Every row has the column present, and the column holds numbers in all rows
      or strings in all rows. */
  ghost predicate ColumnSameKind<T>(key: T -> Key, xs: seq<T>) {
    (forall a | a in xs :: key(a).Num?) || (forall a | a in xs :: key(a).Str?)
  }

  /** If `c < a` then `b` lies above `c` or below `a`, for keys of one kind. */
  lemma KeyLtNegativelyTransitive(a: Key, b: Key, c: Key)
    requires (a.Num? && b.Num? && c.Num?) || (a.Str? && b.Str? && c.Str?)
    ensures KeyLt(c, a) ==> KeyLt(c, b) || KeyLt(b, a)
  {
    if a.Str? {
      LexLtTotal(a.s, b.s);
      if LexLt(c.s, a.s) && LexLt(a.s, b.s) {
        LexLtTransitive(c.s, a.s, b.s);
      }
    }
  }

  /** On a column of one kind the page comparator is a total preorder, in either
      direction. */
  lemma SameKindIsTotalPreorder<T>(order: Order, key: T -> Key, xs: seq<T>)
    requires ColumnSameKind(key, xs)
    ensures TotalPreorder(GetComparator(order, key), xs)
  {
    var cmp := GetComparator(order, key);
    forall a, b, c | a in xs && b in xs && c in xs && cmp(a, b) <= 0 && cmp(b, c) <= 0
      ensures cmp(a, c) <= 0
    {
      if order == Asc {
        KeyLtNegativelyTransitive(key(a), key(b), key(c));
      } else {
        KeyLtNegativelyTransitive(key(c), key(b), key(a));
      }
    }
  }

  /** The sorted view of `xs` by the column `key` reads. */
  function SortByColumn<T>(xs: seq<T>, order: Order, key: T -> Key): (r: seq<T>)
    ensures |r| == |xs|
    ensures multiset(r) == multiset(xs)
  {
    StableSort(xs, GetComparator(order, key))
  }

  /** On a column of one kind the view is ordered: every row's key may stand
      before every later row's key in the chosen direction. */
  lemma SortByColumnOrdered<T>(xs: seq<T>, order: Order, key: T -> Key)
    requires ColumnSameKind(key, xs)
    ensures var r := SortByColumn(xs, order, key);
      forall a, b | 0 <= a < b < |r| :: InOrder(order, key(r[a]), key(r[b]))
  {
    SameKindIsTotalPreorder(order, key, xs);
    StableSortSorted(xs, GetComparator(order, key));
  }

  /** Stability in both directions, for any column: output row `k` is input row
      `ps[k].1`, and rows whose keys tie (including an absent key, which ties
      with everything) keep their input order. */
  lemma SortByColumnStable<T>(xs: seq<T>, order: Order, key: T -> Key)
    ensures var r := SortByColumn(xs, order, key);
      var ps := SortDecorated(xs, GetComparator(order, key));
      |ps| == |r| &&
      (forall k | 0 <= k < |r| :: ps[k].1 < |xs| && r[k] == xs[ps[k].1]) &&
      (forall a, b | 0 <= a < b < |r| && DescendingComparator(key(r[a]), key(r[b])) == 0 ::
         ps[a].1 < ps[b].1)
  {
    var cmp := GetComparator(order, key);
    SortDecoratedLabels(xs, cmp);
    SortDecoratedIsStable(xs, cmp);
  }
}
