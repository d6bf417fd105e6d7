/** The two tables the endpoint works on, the detection of the area name column,
    and the row selections and sums the queries are built from. */
module Tables {
  import opened Optional

  /** The two schema variants of the `areas` table's display-name column. */
  datatype NameColumn = AreaName | Name

  function ColumnName(c: NameColumn): string {
    match c
    case AreaName => "area_name"
    case Name => "name"
  }

  const MissingColumnError: string := "areas table does not have 'area_name' or 'name' column"

  /** Picks the display-name column among the columns the schema reports for
      `areas`: `area_name` when it exists, otherwise `name`, otherwise none. */
  function ResolveNameColumn(columns: set<string>): (r: Option<NameColumn>)
    ensures r.Some? ==> ColumnName(r.value) in columns
    ensures r == Some(Name) ==> "area_name" !in columns
    ensures r.None? <==> "area_name" !in columns && "name" !in columns
  {
    if "area_name" in columns then Some(AreaName)
    else if "name" in columns then Some(Name)
    else None
  }

  /** A row of `areas`. Both name columns are carried; only the resolved one is
      read. */
  datatype Area = Area(id: int, areaName: Option<string>, name: Option<string>, description: Option<string>)

  function NameOf(a: Area, col: NameColumn): Option<string> {
    match col
    case AreaName => a.areaName
    case Name => a.name
  }

  /** A row of `animals`. `averageAgeYears` and `lastSeen` are kept as the text the
      client sent. */
  datatype Animal = Animal(
    id: int,
    areaId: Option<int>,
    commonName: Option<string>,
    species: Option<string>,
    countEst: int,
    averageAgeYears: Option<string>,
    notes: Option<string>,
    lastSeen: Option<string>)

  /** The database: both tables and the next value of `animals`' auto-increment
      counter. */
  datatype Store = Store(areas: seq<Area>, animals: seq<Animal>, nextId: int)

  /** What the schema guarantees: primary keys are unique and every animal id
      was handed out by the auto-increment counter, which starts at 1. */
  ghost predicate Valid(s: Store) {
    && (forall i, j :: 0 <= i < j < |s.areas| ==> s.areas[i].id != s.areas[j].id)
    && UniqueIds(s.animals)
    && 0 < s.nextId
    && (forall i :: 0 <= i < |s.animals| ==> 0 < s.animals[i].id < s.nextId)
  }

  ghost predicate UniqueIds(animals: seq<Animal>) {
    forall i, j :: 0 <= i < j < |animals| ==> animals[i].id != animals[j].id
  }

  /** The `WHERE` conditions the endpoint uses on `animals`. A NULL column never
      equals a number, while `GROUP BY species` puts all NULL species in one group. */
  datatype Criterion = InArea(areaId: int) | OfSpecies(species: Option<string>) | IdIsNot(id: int)

  predicate Matches(c: Criterion, a: Animal) {
    match c
    case InArea(areaId) => a.areaId == Some(areaId)
    case OfSpecies(species) => a.species == species
    case IdIsNot(id) => a.id != id
  }

  /** The rows of `animals` that satisfy `c`, in table order. */
  function Select(animals: seq<Animal>, c: Criterion): (r: seq<Animal>)
    ensures forall a :: a in r <==> a in animals && Matches(c, a)
    ensures |r| <= |animals|
  {
    if animals == [] then []
    else (if Matches(c, animals[0]) then [animals[0]] else []) + Select(animals[1..], c)
  }

  /** A `WHERE` keeps every matching row as often as the table holds it, and no
      other row. */
  lemma {:induction false} SelectCounts(animals: seq<Animal>, c: Criterion)
    ensures forall a :: multiset(Select(animals, c))[a] == if Matches(c, a) then multiset(animals)[a] else 0
  {
    if animals != [] {
      SelectCounts(animals[1..], c);
      assert animals == [animals[0]] + animals[1..];
      assert multiset(animals) == multiset{animals[0]} + multiset(animals[1..]);
    }
  }

  /** Selecting by a condition every row already meets keeps the table as it is. */
  lemma {:induction false} SelectAllMatching(animals: seq<Animal>, c: Criterion)
    requires forall a :: a in animals ==> Matches(c, a)
    ensures Select(animals, c) == animals
  {
    if animals != [] {
      assert animals[0] in animals;
      SelectAllMatching(animals[1..], c);
      assert animals == [animals[0]] + animals[1..];
    }
  }

  /** Selecting by a condition no row meets gives the empty table. */
  lemma {:induction false} SelectNoneMatching(animals: seq<Animal>, c: Criterion)
    requires forall a :: a in animals ==> !Matches(c, a)
    ensures Select(animals, c) == []
  {
    if animals != [] {
      assert animals[0] in animals;
      assert forall a :: a in animals[1..] ==> a in animals;
      SelectNoneMatching(animals[1..], c);
    }
  }

  /** Dropping rows keeps the primary key unique. */
  lemma {:induction false} SelectKeepsUniqueIds(animals: seq<Animal>, c: Criterion)
    ensures UniqueIds(animals) ==> UniqueIds(Select(animals, c))
  {
    if animals != [] && UniqueIds(animals) {
      var tail := animals[1..];
      SelectKeepsUniqueIds(tail, c);
      var rest := Select(tail, c);
      forall a | a in rest ensures a.id != animals[0].id {
        var k :| 0 <= k < |tail| && tail[k] == a;
        assert animals[k + 1] == a;
      }
    }
  }

  /** The aggregates taken over animal rows: `COUNT(*)` and `SUM(count_est)`. */
  datatype Measure = Records | Headcount

  function Weight(m: Measure, a: Animal): int {
    match m
    case Records => 1
    case Headcount => a.countEst
  }

  function Tally(animals: seq<Animal>, m: Measure): int {
    if animals == [] then 0 else Weight(m, animals[0]) + Tally(animals[1..], m)
  }

  lemma {:induction false} TallyRecordsIsCount(animals: seq<Animal>)
    ensures Tally(animals, Records) == |animals|
  {
    if animals != [] {
      TallyRecordsIsCount(animals[1..]);
    }
  }

  /** The first area with the given id (the primary key makes it the only one). */
  function FindArea(areas: seq<Area>, id: int): (r: Option<Area>)
    ensures r.Some? ==> r.value in areas && r.value.id == id
    ensures r.None? <==> forall a :: a in areas ==> a.id != id
  {
    if areas == [] then None
    else if areas[0].id == id then Some(areas[0])
    else FindArea(areas[1..], id)
  }
}
