# Developer and level tables: the client-side view pipeline

This project is a Dafny model of the logic behind the two table pages of a small
developer/level registry. The developers page (`Desenvolvedores.tsx`) and the
levels page (`Niveis.tsx`) turn the rows the server returns into the table the
user sees:

- `descendingComparator` compares one field of two records with JavaScript's
  `<` and `>` and answers -1, 0 or 1.
- `getComparator` picks that comparator or its negation, depending on the
  direction.
- `stableSort` pairs each row with its index, sorts the pairs (breaking ties
  by index) and drops the indices.
- `handleRequestSort` is the column-header toggle over `(orderBy, order)`.
- The developers page also enriches each developer with the name of their
  level (`nivel_nome`).
- When sorting by the level column, the developers page sorts by that name
  instead of the numeric id.
- The developers page computes `idade` (age) as current year minus birth
  year, both for the save payload and for the form's read-only field.
- The levels page shows a missing developer count as 0.

Modules:

- `Keys` (`keys.dfy`): field values and the comparator.
  - `Key` is `Num | Str | Missing`. `Missing` stands for `undefined`.
  - `LexLt` is JavaScript's string `<`: the lexicographic order of the
    strings' UTF-16 code units (`CodeUnits`), so a character above U+FFFF
    compares by its leading surrogate.
  - `DescendingComparator` and `Compare` are the comparator and its
    direction wrapper.
- `StableSorting` (`stable_sort.dfy`): decorate, sort the pairs, undecorate.
  - The pair sort is an insertion sort with the page's tie-breaking pair
    comparator.
  - It proves the result is a permutation of the input, that ties keep input
    order, and that the output is ordered under a total preorder.
  - It also proves that, when every key of the sorted column is present and
    of one kind, the ordered arrangement of the pairs is unique. So on such
    columns any correct sort algorithm the browser uses gives the same result
    as the model.
- `SortHeader` (`sort_header.dfy`): the sort state and `handleRequestSort`.
- `ColumnSort` (`column_sort.dfy`): `stableSort(rows, getComparator(order, column))`.
  - It proves that a column whose values are all numbers, or all strings,
    makes the comparator a total preorder in both directions.
- `Levels` (`levels.dfy`): `sortedNiveis` and the count display default.
- `Developers` (`developers.dfy`): `desenvolvedoresWithNivel`, the key
  substitution, and `sortedDesenvolvedores`.
- `DeveloperForm` (`developer_form.dfy`): the age formula in the save payload
  and in the form field.
  - The formula is compared with an exact age defined from anniversaries.
- `Wrappers` (`wrappers.dfy`): `Option`.

Two facts about the server shape the inputs:

- The developer listing already joins in each developer's level name as
  `nivel`, `null` when no level matches (`backend/routes.ts:119-129`). The
  page ignores that field and computes its own `nivel_nome` from the level
  list it fetches (`desenvolvedoresWithNivel`). `Developer.nivel` carries the
  joined name, and `Developers.EnrichIgnoresJoinedName` states that it plays
  no part.
- Nothing computes a developer count. The level listing returns the stored
  level rows as they are (`backend/routes.ts:38-46`). So `developerCount` is
  modelled as an optional field, and a missing value is shown as 0.

## Model

| member | source | states |
|---|---|---|
| Keys.Utf16 | frontend/src/components/Desenvolvedores.tsx:44-47 | a character is one code unit below U+10000, and otherwise a high and a low surrogate that decode back to it |
| Keys.CodeUnitsInjective | frontend/src/components/Desenvolvedores.tsx:44-47 | different strings have different code-unit sequences |
| Keys.LexLtIsLexicographic | frontend/src/components/Desenvolvedores.tsx:44-47 | string `<` is the lexicographic order of the UTF-16 code units: a proper prefix comes first, otherwise the first differing code unit decides |
| Keys.SupplementaryCharacterSortsByCodeUnit | frontend/src/components/Desenvolvedores.tsx:44-47 | U+1F600 sorts before U+FF01 although its code point is larger, because its leading surrogate 0xD83D is below 0xFF01 |
| Keys.LexLtTransitive | frontend/src/components/Desenvolvedores.tsx:44-47 | string `<` is transitive |
| Keys.LexLtTotal | frontend/src/components/Desenvolvedores.tsx:44-47 | of two different strings, one is `<` the other |
| Keys.DescendingComparator | frontend/src/components/Desenvolvedores.tsx:43-51 | the result is -1, 0 or 1; negative exactly when `b < a`; positive exactly when `a < b` |
| Keys.DescendingComparatorAntisymmetric | frontend/src/components/Niveis.tsx:29-37 | swapping the two records negates the comparator |
| Keys.MissingTiesWithEverything | frontend/src/components/Niveis.tsx:29-37 | an `undefined` field compares as 0 against any value, in either argument |
| Keys.MissingBreaksTransitivity | frontend/src/components/Niveis.tsx:29-37 | with `undefined` present, ties are not transitive, so ordering can only be promised for present keys of one kind |
| Keys.Compare | frontend/src/components/Desenvolvedores.tsx:53-63 | ascending puts `a` first exactly when `a < b`; descending exactly when `b < a`; the result is -1, 0 or 1 |
| Keys.AscendingNegatesDescending | frontend/src/components/Niveis.tsx:41-51 | the ascending comparator is the negation of the descending one |
| StableSorting.StableSort | frontend/src/components/Desenvolvedores.tsx:65-78 | the result has the input's length and the same multiset of elements |
| StableSorting.SortDecoratedLabels | frontend/src/components/Desenvolvedores.tsx:69-77 | each output element is the input element at the index it carries |
| StableSorting.SortDecoratedIsStable | frontend/src/components/Desenvolvedores.tsx:71-75 | when an element comes out before one that preceded it in the input, the comparator strictly prefers it; so elements that tie keep their input order |
| StableSorting.StableSortAdjacentSorted | frontend/src/components/Desenvolvedores.tsx:70-76 | for an antisymmetric comparator, consecutive outputs compare `<= 0` |
| StableSorting.StableSortSorted | frontend/src/components/Desenvolvedores.tsx:70-76 | for a total preorder on the input, every earlier output compares `<= 0` with every later one |
| StableSorting.SortDecoratedStrictlySorted | frontend/src/components/Niveis.tsx:59-65 | under a total preorder the index pairs are strictly increasing in the tie-broken pair order |
| StableSorting.SortedPermutationIsUnique | frontend/src/components/Niveis.tsx:58-66 | under a total preorder, any arrangement of the index pairs that is strictly increasing in the pair order is the model's result |
| SortHeader.RequestSort | frontend/src/components/Desenvolvedores.tsx:124-128 | the new column is always the clicked one; the new direction is descending exactly when the clicked column was active and ascending |
| SortHeader.RepeatedRequestsAlternate | frontend/src/components/Niveis.tsx:93-97 | clicking the same header twice flips the direction each time |
| SortHeader.TwoRequestsOnActiveColumnRestore | frontend/src/components/Niveis.tsx:93-97 | two clicks on the active column restore the original state |
| SortHeader.NewColumnStartsAscending | frontend/src/components/Niveis.tsx:93-97 | clicking another column sorts it ascending, whatever the previous direction |
| Levels.FirstRequestFromInitialSort | frontend/src/components/Niveis.tsx:77-78 | from the initial sort (name, ascending), a click on the name header gives descending, a click on any other header sorts it ascending |
| Developers.FirstRequestFromInitialSort | frontend/src/components/Desenvolvedores.tsx:95-96 | from the initial sort (nome, ascending), a click on the nome header gives descending, a click on any other header sorts it ascending |
| ColumnSort.SameKindIsTotalPreorder | frontend/src/components/Niveis.tsx:41-51 | on a column whose values are all numbers or all strings, the comparator is a total preorder in both directions |
| ColumnSort.SortByColumn | frontend/src/components/Niveis.tsx:54-67 | sorting by a column is a permutation of the rows |
| ColumnSort.SortByColumnOrdered | frontend/src/components/Niveis.tsx:58-66 | on a column of one kind, each row's key may stand before every later row's key in the chosen direction |
| ColumnSort.SortByColumnStable | frontend/src/components/Niveis.tsx:59-65 | output row `k` is input row `ps[k].1`; rows whose keys tie keep input order, ascending and descending alike |
| Levels.SortedLevels | frontend/src/components/Niveis.tsx:100-102 | `sortedNiveis` has the same length and multiset of rows as `niveis` |
| Levels.SortedLevelsOrdered | frontend/src/components/Niveis.tsx:58-66 | the levels are ordered by id or name in either direction; by count when every row has a count |
| Levels.SortedLevelsStable | frontend/src/components/Niveis.tsx:59-65 | levels with equal keys keep their input order, in both directions |
| Levels.MissingCountTies | frontend/src/components/Niveis.tsx:29-37 | sorting by count, a level without a count ties with every level |
| Levels.DisplayedCount | frontend/src/components/Niveis.tsx:259 | a missing count is shown as 0, a present one unchanged |
| Levels.SortByNameExample | frontend/src/components/Niveis.tsx:100-102 | levels B(1), A(2), A(3) sorted ascending by name give A(2), A(3), B(1) |
| Developers.FindLevel | frontend/src/components/Desenvolvedores.tsx:134 | `find` returns the position of the first level with the developer's level id, and nothing exactly when no level has it |
| Developers.FirstMatchIsUnique | frontend/src/components/Desenvolvedores.tsx:134 | only one position is the first match |
| Developers.LevelName | frontend/src/components/Desenvolvedores.tsx:134 | the name is "N/A" when no level matches; otherwise it is the first match's name, or "N/A" if that name is empty; it is never empty |
| Developers.FirstMatchWins | frontend/src/components/Desenvolvedores.tsx:134 | levels listed after a matching one do not change the name |
| Developers.OtherLevelsAreIrrelevant | frontend/src/components/Desenvolvedores.tsx:134 | a level with a different id does not change the name |
| Developers.Enrich | frontend/src/components/Desenvolvedores.tsx:131-136 | one row per developer, in order; every original field unchanged; `nivel_nome` is the level name |
| Developers.EnrichIgnoresJoinedName | frontend/src/components/Desenvolvedores.tsx:131-136 | changing the `nivel` name the server joined into a row does not change its `nivel_nome` |
| Developers.SortField | frontend/src/components/Desenvolvedores.tsx:141-147 | the level column is sorted by `nivel_nome`, every other column by itself |
| Developers.SortedDevelopers | frontend/src/components/Desenvolvedores.tsx:139-148 | the sorted developers are a permutation of the enriched rows |
| Developers.FieldIsSameKind | frontend/src/components/Desenvolvedores.tsx:29-37 | every sortable developer field holds one kind of value across all rows |
| Developers.SortedDevelopersOrdered | frontend/src/components/Desenvolvedores.tsx:139-148 | for every column and direction, the rows are ordered by the substituted field |
| Developers.SortByLevelIsByName | frontend/src/components/Desenvolvedores.tsx:141-146 | sorting by the level column orders the rows by level name, in code-unit order |
| Developers.SortedDevelopersStable | frontend/src/components/Desenvolvedores.tsx:139-148 | developers whose sort fields tie keep their input order, in both directions |
| Developers.LevelColumnSortsByNameNotId | frontend/src/components/Desenvolvedores.tsx:141-146 | with levels 1 "Senior" and 2 "Junior", ascending by the level column lists the Junior developer first, although their id is larger |
| DeveloperForm.AgeFromDate | frontend/src/components/Desenvolvedores.tsx:198-200 | the age is NaN exactly when the date does not parse, and otherwise the current year minus the birth year |
| DeveloperForm.SavePayload | frontend/src/components/Desenvolvedores.tsx:197-202 | the payload's `idade` is the computed age, and every form field is sent unchanged |
| DeveloperForm.DisplayedAge | frontend/src/components/Desenvolvedores.tsx:407-412 | the read-only age field is blank exactly when the date is empty |
| DeveloperForm.FieldShowsSavedAge | frontend/src/components/Desenvolvedores.tsx:407-412 | any age the field shows equals the `idade` the save sends |
| DeveloperForm.NaiveAgeOvercountsBeforeBirthday | frontend/src/components/Desenvolvedores.tsx:198-200 | the formula gives the completed years once this year's birthday is reached, and one year more before it |
| DeveloperForm.NaiveAgeWithinOneYear | frontend/src/components/Desenvolvedores.tsx:198-200 | the formula is the exact age or one more, and equal to it exactly when the birthday has been reached |

## Left out

- Rendering is not modelled: JSX, MUI components, modal and confirmation state, `alert`, `console`, and the `styles` objects. None of it affects the computed views.
- The `fetch` calls are not modelled, nor the status handling of level deletion (`frontend/src/components/Niveis.tsx:160-183`). They are network I/O; the rows they deliver are the model's inputs.
- `frontend/src/App.tsx` (the page switch) is not part of this model.
- The server (`backend/routes.ts`, `backend/dbConnection.ts`, `backend/server.ts`) is not part of this model. Its handlers pass SQL to the database, and no server code computes a developer count or checks that a level exists.
- Date parsing is a parameter, `yearOf`. What `new Date(s).getFullYear()` yields depends on the parser and the time zone. The current year is a parameter too, because it comes from the clock.
- The form's initial values in `handleOpenModal` (`String(dev.nivel_id)`) are not modelled. They are UI state.
- The display copy `nivelObj` on the levels page is not modelled (`parseInt` of string ids and counts, `String` of numeric names). It only affects the cells shown, not the sort, and the level listing never sends a count.
- Keys.KeyLt: a string compared with a number, or anything compared with `null`, is modelled as incomparable (false both ways). JavaScript instead converts both to numbers. The typed rows never mix kinds in one column. The only exception, a `null` level id, is modelled as 0 in `Developers.RowKey`, and that column is never sorted by its raw value.
- Keys.CodeUnits: a JavaScript string may hold an unpaired surrogate code unit, which no Dafny string can. The model compares well-formed strings only, through their UTF-16 encoding.
- StableSorting.StableSort: `Array.prototype.sort` is modelled as an insertion sort. Under a total preorder this makes no difference, because `SortedPermutationIsUnique` shows the ordered arrangement is unique. With a comparator that is not a total preorder (an `undefined` count among numbers), the browser's algorithm may order the rows differently from the model. Permutation and the index-stability of the model's output still hold.
- Neither page filters its rows, so there is no filter to model.
