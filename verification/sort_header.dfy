/**
 The sort state of a table page and `handleRequestSort`, the handler a column
 header runs when it is clicked.
 */
module SortHeader {
  import opened Keys

  /** The column the table is ordered by and the direction (`orderBy`, `order`). */
  datatype SortState<C> = SortState(orderBy: C, order: Order)

  /** `handleRequestSort(property)`: clicking the column that is already sorted
      ascending switches it to descending; any other click sorts `property`
      ascending. */
  function RequestSort<C(==)>(st: SortState<C>, property: C): (r: SortState<C>)
    ensures r.orderBy == property
    ensures r.order == Desc <==> st.orderBy == property && st.order == Asc
    ensures r.order == Asc <==> st.orderBy != property || st.order == Desc
  {
    var isAsc := st.orderBy == property && st.order == Asc;
    SortState(property, if isAsc then Desc else Asc)
  }

  /** Clicking the same header again always flips the direction. */
  lemma RepeatedRequestsAlternate<C>(st: SortState<C>, property: C)
    ensures var once := RequestSort(st, property);
      RequestSort(once, property).order != once.order
  {
  }

  /** On the active column two clicks return to the state they started from. */
  lemma TwoRequestsOnActiveColumnRestore<C>(st: SortState<C>)
    ensures RequestSort(RequestSort(st, st.orderBy), st.orderBy) == st
  {
  }

  /** A new column always starts ascending, whatever the previous direction. */
  lemma NewColumnStartsAscending<C>(st: SortState<C>, property: C)
    requires property != st.orderBy
    ensures RequestSort(st, property) == SortState(property, Asc)
  {
  }
}
