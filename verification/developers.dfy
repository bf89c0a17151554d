/**
 The developers page: the developer rows, their enrichment with the name of
 their level (`desenvolvedoresWithNivel`), and the sorted view
 (`sortedDesenvolvedores`), where sorting by the level column sorts by the
 level's name and not by its id.
 */
module Developers {
  import opened Wrappers
  import opened Keys
  import opened SortHeader
  import opened StableSorting
  import opened ColumnSort
  import opened Levels

  /** A developer row as the page receives it. `nivelId` is `None` for a
      developer stored without a level (a JSON `null`). `nivel` is the level name
      the server's listing joins in, `None` when the join finds no level; the
      page neither shows nor sorts by it. */
  datatype Developer = Developer(
    id: int,
    nome: string,
    sexo: string,
    dataNascimento: string,
    idade: int,
    hobby: string,
    nivelId: Option<int>,
    nivel: Option<string>)

  /** A developer with `nivel_nome` added: every original field is kept in `dev`. */
  datatype DeveloperRow = DeveloperRow(dev: Developer, nivelNome: string)

  /** The columns whose headers can be clicked. */
  datatype DevColumn = Id | Nome | Sexo | DataNascimento | Idade | Hobby | NivelId

  /** The field the comparator actually reads: one of the developer's own, or
      the `nivel_nome` added by the enrichment. */
  datatype RowField = Field(column: DevColumn) | NivelNome

  /** The page opens sorted by name, ascending. */
  const InitialSort: SortState<DevColumn> := SortState(Nome, Asc)

  /** The first click on a header: on the initial column it switches to
      descending, on any other column it sorts that column ascending. */
  lemma FirstRequestFromInitialSort(property: DevColumn)
    ensures RequestSort(InitialSort, property) ==
      if property == Nome then SortState(Nome, Desc) else SortState(property, Asc)
  {
  }

  /** The name shown when a developer's level cannot be named. */
  const NoLevelName: string := "N/A"

  /** Level `i` is the first one in `niveis` whose id is `nivelId`. A missing
      `nivelId` matches no level, since `===` never equates a number with `null`. */
  ghost predicate IsFirstMatch(niveis: seq<Level>, nivelId: Option<int>, i: int) {
    0 <= i < |niveis| && nivelId == Some(niveis[i].id) &&
    forall j | 0 <= j < i :: nivelId != Some(niveis[j].id)
  }

  /** `niveis.find((n) => n.id === nivelId)`, as the position of the level found. */
  function FindLevel(niveis: seq<Level>, nivelId: Option<int>): (r: Option<nat>)
    ensures r.None? <==> forall i | 0 <= i < |niveis| :: nivelId != Some(niveis[i].id)
    ensures r.Some? ==> IsFirstMatch(niveis, nivelId, r.value)
    decreases |niveis|
  {
    if |niveis| == 0 then None
    else if nivelId == Some(niveis[0].id) then Some(0)
    else
      match FindLevel(niveis[1..], nivelId)
      case None => None
      case Some(i) =>
        assert forall j | 0 < j <= i :: niveis[j] == niveis[1..][j - 1];
        Some(i + 1)
  }

  /** The first match is the only position `IsFirstMatch` admits. */
  lemma FirstMatchIsUnique(niveis: seq<Level>, nivelId: Option<int>, i: int, j: int)
    requires IsFirstMatch(niveis, nivelId, i) && IsFirstMatch(niveis, nivelId, j)
    ensures i == j
  {
  }

  /** `find(...)?.nivel || "N/A"`: the name of the first level with the id, or
      "N/A" when there is none, and also when that level's name is empty, which
      `||` treats as false. */
  function LevelName(niveis: seq<Level>, nivelId: Option<int>): (name: string)
    ensures (forall i | 0 <= i < |niveis| :: nivelId != Some(niveis[i].id)) ==> name == NoLevelName
    ensures forall i | IsFirstMatch(niveis, nivelId, i) ::
      name == if niveis[i].nivel == "" then NoLevelName else niveis[i].nivel
    ensures name != ""
  {
    match FindLevel(niveis, nivelId)
    case None => NoLevelName
    case Some(i) => if niveis[i].nivel == "" then NoLevelName else niveis[i].nivel
  }

  /** Levels listed after a matching one never change the name: the first match wins. */
  lemma FirstMatchWins(niveis: seq<Level>, later: seq<Level>, nivelId: Option<int>)
    requires exists i | 0 <= i < |niveis| :: nivelId == Some(niveis[i].id)
    ensures LevelName(niveis + later, nivelId) == LevelName(niveis, nivelId)
  {
    var i := FindLevel(niveis, nivelId).value;
    assert IsFirstMatch(niveis + later, nivelId, i);
  }

  /** A level with another id, wherever it is listed, does not affect the name. */
  lemma OtherLevelsAreIrrelevant(niveis: seq<Level>, l: Level, nivelId: Option<int>)
    requires nivelId != Some(l.id)
    ensures LevelName([l] + niveis, nivelId) == LevelName(niveis, nivelId)
  {
    var ext := [l] + niveis;
    assert forall i | 0 <= i < |niveis| :: ext[i + 1] == niveis[i];
    if FindLevel(niveis, nivelId).Some? {
      var i := FindLevel(niveis, nivelId).value;
      assert IsFirstMatch(ext, nivelId, i + 1);
    } else {
      assert forall i | 0 <= i < |ext| :: nivelId != Some(ext[i].id) by {
        forall i | 0 <= i < |ext| ensures nivelId != Some(ext[i].id) {
          if i > 0 {
            assert ext[i] == niveis[i - 1];
          }
        }
      }
    }
  }

  /** `desenvolvedoresWithNivel`: every developer kept, in order and unchanged,
      with the name of their level alongside. */
  function Enrich(devs: seq<Developer>, niveis: seq<Level>): (rows: seq<DeveloperRow>)
    ensures |rows| == |devs|
    ensures forall i | 0 <= i < |devs| ::
      rows[i].dev == devs[i] && rows[i].nivelNome == LevelName(niveis, devs[i].nivelId)
  {
    seq(|devs|, i requires 0 <= i < |devs| => DeveloperRow(devs[i], LevelName(niveis, devs[i].nivelId)))
  }

  /** The page recomputes the level name from its own list of levels: the name
      the server joined into the row plays no part. */
  lemma EnrichIgnoresJoinedName(devs: seq<Developer>, niveis: seq<Level>, i: int, joined: Option<string>)
    requires 0 <= i < |devs|
    ensures Enrich(devs[i := devs[i].(nivel := joined)], niveis)[i].nivelNome ==
      Enrich(devs, niveis)[i].nivelNome
  {
  }

  /** The key substitution of `sortedDesenvolvedores`: the level column is sorted
      by `nivel_nome`; every other column by itself. */
  function SortField(column: DevColumn): (f: RowField)
    ensures column == NivelId <==> f == NivelNome
    ensures column != NivelId ==> f == Field(column)
  {
    if column == NivelId then NivelNome else Field(column)
  }

  /** The value of field `f` in `row`, as the comparator sees it. A `null`
      level id compares like 0 under `<`; the page never sorts by the raw id,
      since `SortField` substitutes the level name for it. */
  function RowKey(f: RowField, row: DeveloperRow): Key {
    match f
    case NivelNome => Str(row.nivelNome)
    case Field(c) =>
      match c
      case Id => Num(row.dev.id)
      case Nome => Str(row.dev.nome)
      case Sexo => Str(row.dev.sexo)
      case DataNascimento => Str(row.dev.dataNascimento)
      case Idade => Num(row.dev.idade)
      case Hobby => Str(row.dev.hobby)
      case NivelId => Num(row.dev.nivelId.GetOr(0))
  }

  /** Reads field `f` of a developer row. */
  function FieldKey(f: RowField): DeveloperRow -> Key {
    (row: DeveloperRow) => RowKey(f, row)
  }

  /** `getComparator(order, orderBy)` after the key substitution. */
  function DeveloperComparator(st: SortState<DevColumn>): (DeveloperRow, DeveloperRow) -> int {
    GetComparator(st.order, FieldKey(SortField(st.orderBy)))
  }

  /** `sortedDesenvolvedores`: the enriched rows, reordered, none added or dropped. */
  function SortedDevelopers(devs: seq<Developer>, niveis: seq<Level>, st: SortState<DevColumn>)
    : (r: seq<DeveloperRow>)
    ensures |r| == |devs|
    ensures multiset(r) == multiset(Enrich(devs, niveis))
  {
    SortByColumn(Enrich(devs, niveis), st.order, FieldKey(SortField(st.orderBy)))
  }

  /** Every field the comparator can read holds one kind of value in all rows. */
  lemma FieldIsSameKind(f: RowField, rows: seq<DeveloperRow>)
    ensures ColumnSameKind(FieldKey(f), rows)
  {
    match f
    case NivelNome =>
    case Field(c) =>
  }

  /** The view is ordered by the substituted field, for every column and both
      directions: all developer fields are present and of one kind. */
  lemma SortedDevelopersOrdered(devs: seq<Developer>, niveis: seq<Level>, st: SortState<DevColumn>)
    ensures var r := SortedDevelopers(devs, niveis, st);
      var f := SortField(st.orderBy);
      forall a, b | 0 <= a < b < |r| :: InOrder(st.order, RowKey(f, r[a]), RowKey(f, r[b]))
  {
    var key := FieldKey(SortField(st.orderBy));
    FieldIsSameKind(SortField(st.orderBy), Enrich(devs, niveis));
    SortByColumnOrdered(Enrich(devs, niveis), st.order, key);
  }

  /** Sorting by the level column orders the rows by level name, in the code-unit
      order of the names. */
  lemma SortByLevelIsByName(devs: seq<Developer>, niveis: seq<Level>, order: Order)
    ensures var r := SortedDevelopers(devs, niveis, SortState(NivelId, order));
      forall a, b | 0 <= a < b < |r| ::
        if order == Asc then !LexLt(r[b].nivelNome, r[a].nivelNome)
        else !LexLt(r[a].nivelNome, r[b].nivelNome)
  {
    var r := SortedDevelopers(devs, niveis, SortState(NivelId, order));
    SortedDevelopersOrdered(devs, niveis, SortState(NivelId, order));
    forall a, b | 0 <= a < b < |r|
      ensures if order == Asc then !LexLt(r[b].nivelNome, r[a].nivelNome)
        else !LexLt(r[a].nivelNome, r[b].nivelNome)
    {
      assert InOrder(order, RowKey(NivelNome, r[a]), RowKey(NivelNome, r[b]));
      assert RowKey(NivelNome, r[a]) == Str(r[a].nivelNome);
      assert RowKey(NivelNome, r[b]) == Str(r[b].nivelNome);
      InOrderOnStrings(order, r[a].nivelNome, r[b].nivelNome);
    }
  }

  /** Developers whose sort fields tie keep their input order, in both directions. */
  lemma SortedDevelopersStable(devs: seq<Developer>, niveis: seq<Level>, st: SortState<DevColumn>)
    ensures var rows := Enrich(devs, niveis);
      var r := SortedDevelopers(devs, niveis, st);
      var f := SortField(st.orderBy);
      var ps := SortDecorated(rows, DeveloperComparator(st));
      |ps| == |r| &&
      (forall k | 0 <= k < |r| :: ps[k].1 < |devs| && r[k] == rows[ps[k].1]) &&
      (forall a, b | 0 <= a < b < |r| && DescendingComparator(RowKey(f, r[a]), RowKey(f, r[b])) == 0 ::
         ps[a].1 < ps[b].1)
  {
    SortByColumnStable(Enrich(devs, niveis), st.order, FieldKey(SortField(st.orderBy)));
  }

  // Two levels whose names order opposite to their ids, and a developer on each.
  const Senior := Level(1, "Senior", None)
  const Junior := Level(2, "Junior", None)
  const Ana := Developer(1, "Ana", "F", "1990-01-01", 34, "xadrez", Some(1), Some("Senior"))
  const Bruno := Developer(2, "Bruno", "M", "2000-01-01", 24, "futebol", Some(2), Some("Junior"))

  lemma ExampleRows()
    ensures Enrich([Ana, Bruno], [Senior, Junior]) ==
      [DeveloperRow(Ana, "Senior"), DeveloperRow(Bruno, "Junior")]
  {
    assert IsFirstMatch([Senior, Junior], Some(1), 0);
    assert IsFirstMatch([Senior, Junior], Some(2), 1);
  }

  lemma TwoElementPermutation<T>(r: seq<T>, x: T, y: T)
    requires |r| == 2 && x != y && multiset(r) == multiset{x, y}
    ensures (r[0] == x && r[1] == y) || (r[0] == y && r[1] == x)
  {
    assert r == [r[0], r[1]];
    assert r[0] in multiset(r) && r[1] in multiset(r);
  }

  /** Ascending by the level column puts the "Junior" developer first although
      their level id (2) is the larger: the column sorts by name, not id. */
  lemma LevelColumnSortsByNameNotId()
    ensures var r := SortedDevelopers([Ana, Bruno], [Senior, Junior], SortState(NivelId, Asc));
      r == [DeveloperRow(Bruno, "Junior"), DeveloperRow(Ana, "Senior")] &&
      r[0].dev.nivelId.value > r[1].dev.nivelId.value
  {
    var rs := DeveloperRow(Ana, "Senior");
    var rj := DeveloperRow(Bruno, "Junior");
    var r := SortedDevelopers([Ana, Bruno], [Senior, Junior], SortState(NivelId, Asc));
    ExampleRows();
    SortByLevelIsByName([Ana, Bruno], [Senior, Junior], Asc);
    assert multiset(r) == multiset{rs, rj};
    TwoElementPermutation(r, rs, rj);
    assert LexLt("Junior", "Senior");
    assert r[0] == rj;
    assert r[1] == rs;
  }
}
