/**
 The levels page: the rows it receives, the column it orders them by, the
 sorted view `sortedNiveis`, and how it shows a level's developer count.
 */
module Levels {
  import opened Wrappers
  import opened Keys
  import opened SortHeader
  import opened StableSorting
  import opened ColumnSort

  /** A level row as the page receives it. `developerCount` is optional on the
      page's type; `None` is the `undefined` the page sees when the row lacks it. */
  datatype Level = Level(id: int, nivel: string, developerCount: Option<int>)

  /** The sortable columns of the levels table. */
  datatype LevelColumn = Id | Nivel | DeveloperCount

  /** The page opens sorted by name, ascending. */
  const InitialSort: SortState<LevelColumn> := SortState(Nivel, Asc)

  /** The first click on a header: on the initial column it switches to
      descending, on any other column it sorts that column ascending. */
  lemma FirstRequestFromInitialSort(property: LevelColumn)
    ensures RequestSort(InitialSort, property) ==
      if property == Nivel then SortState(Nivel, Desc) else SortState(property, Asc)
  {
  }

  /** The value of `column` in `l`, as the comparator sees it. */
  function LevelKey(column: LevelColumn, l: Level): Key {
    match column
    case Id => Num(l.id)
    case Nivel => Str(l.nivel)
    case DeveloperCount =>
      match l.developerCount
      case Some(n) => Num(n)
      case None => Missing
  }

  /** Reads `column` of a level row. */
  function ColumnKey(column: LevelColumn): Level -> Key {
    (l: Level) => LevelKey(column, l)
  }

  /** `getComparator(order, orderBy)` on level rows. */
  function LevelComparator(st: SortState<LevelColumn>): (Level, Level) -> int {
    GetComparator(st.order, ColumnKey(st.orderBy))
  }

  /** `sortedNiveis`: the rows reordered, none added, none dropped. */
  function SortedLevels(niveis: seq<Level>, st: SortState<LevelColumn>): (r: seq<Level>)
    ensures |r| == |niveis|
    ensures multiset(r) == multiset(niveis)
  {
    SortByColumn(niveis, st.order, ColumnKey(st.orderBy))
  }

  /** The view is ordered by the chosen column whenever that column is present in
      every row: always for `id` and `nivel`, and for `developerCount` when no row
      lacks it. */
  lemma SortedLevelsOrdered(niveis: seq<Level>, st: SortState<LevelColumn>)
    requires st.orderBy == DeveloperCount ==> forall l | l in niveis :: l.developerCount.Some?
    ensures var r := SortedLevels(niveis, st);
      forall a, b | 0 <= a < b < |r| ::
        InOrder(st.order, LevelKey(st.orderBy, r[a]), LevelKey(st.orderBy, r[b]))
  {
    var key := ColumnKey(st.orderBy);
    assert ColumnSameKind(key, niveis);
    SortByColumnOrdered(niveis, st.order, key);
  }

  /** Levels whose keys tie keep their input order, ascending and descending alike. */
  lemma SortedLevelsStable(niveis: seq<Level>, st: SortState<LevelColumn>)
    ensures var r := SortedLevels(niveis, st);
      var ps := SortDecorated(niveis, LevelComparator(st));
      |ps| == |r| &&
      (forall k | 0 <= k < |r| :: ps[k].1 < |niveis| && r[k] == niveis[ps[k].1]) &&
      (forall a, b | 0 <= a < b < |r| &&
         DescendingComparator(LevelKey(st.orderBy, r[a]), LevelKey(st.orderBy, r[b])) == 0 ::
         ps[a].1 < ps[b].1)
  {
    SortByColumnStable(niveis, st.order, ColumnKey(st.orderBy));
  }

  /** A level without `developerCount` ties with every level on that column, in
      both directions, so it only moves by stability. */
  lemma MissingCountTies(st: SortState<LevelColumn>, a: Level, b: Level)
    requires st.orderBy == DeveloperCount && a.developerCount.None?
    ensures LevelComparator(st)(a, b) == 0 && LevelComparator(st)(b, a) == 0
  {
    assert ColumnKey(st.orderBy)(a) == Missing;
    MissingTiesWithEverything(ColumnKey(st.orderBy)(b));
  }

  /** The count cell: `developerCount ?? 0`. */
  function DisplayedCount(l: Level): (n: int)
    ensures l.developerCount.None? ==> n == 0
    ensures l.developerCount.Some? ==> n == l.developerCount.value
  {
    l.developerCount.GetOr(0)
  }

  // The three rows of the stable-sort example: "B" listed before two "A"s.
  const B1 := Level(1, "B", None)
  const A2 := Level(2, "A", None)
  const A3 := Level(3, "A", None)

  lemma NameComparatorOnExample()
    ensures var cmp := LevelComparator(SortState(Nivel, Asc));
      cmp(A2, A3) == 0 && cmp(A3, B1) == -1 && cmp(A2, B1) == -1
  {
    assert LexLt("A", "B") && !LexLt("B", "A") && !LexLt("A", "A");
    assert ColumnKey(Nivel)(B1) == Str("B");
    assert ColumnKey(Nivel)(A2) == Str("A");
    assert ColumnKey(Nivel)(A3) == Str("A");
    assert Compare(Asc, Str("A"), Str("A")) == 0;
    assert Compare(Asc, Str("A"), Str("B")) == -1;
  }

  lemma ExampleIsPermutation()
    ensures multiset([(A2, 1), (A3, 2), (B1, 0)]) == multiset(Decorate([B1, A2, A3]))
  {
    assert Decorate([B1, A2, A3]) == [(B1, 0), (A2, 1), (A3, 2)];
  }

  lemma ExampleStrictlySorted()
    ensures StrictlySorted(LevelComparator(SortState(Nivel, Asc)), [(A2, 1), (A3, 2), (B1, 0)])
  {
    NameComparatorOnExample();
  }

  lemma ExampleSortDecorated()
    ensures SortDecorated([B1, A2, A3], LevelComparator(SortState(Nivel, Asc))) == [(A2, 1), (A3, 2), (B1, 0)]
  {
    var xs := [B1, A2, A3];
    assert ColumnSameKind(ColumnKey(Nivel), xs);
    SameKindIsTotalPreorder(Asc, ColumnKey(Nivel), xs);
    ExampleIsPermutation();
    ExampleStrictlySorted();
    SortedPermutationIsUnique(xs, LevelComparator(SortState(Nivel, Asc)), [(A2, 1), (A3, 2), (B1, 0)]);
  }

  lemma UndecorateThree<T>(x: T, i: nat, y: T, j: nat, z: T, k: nat)
    ensures Undecorate([(x, i), (y, j), (z, k)]) == [x, y, z]
  {
  }

  /** The example of a stable ascending sort by name: of the two "A" levels, the
      one listed first (id 2) stays first, and "B" moves to the end. */
  lemma SortByNameExample()
    ensures SortedLevels([B1, A2, A3], SortState(Nivel, Asc)) == [A2, A3, B1]
  {
    ExampleSortDecorated();
    UndecorateThree(A2, 1, A3, 2, B1, 0);
  }
}
