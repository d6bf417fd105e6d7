/** The three read actions of the endpoint (`GET areas`, `GET animals`,
    `GET areasummary`), as selections, sums and sorts over the tables. */
module Queries {
  import opened Optional
  import opened Tables
  import Text
  import Sorting

  /** Ascending order on a nullable text column: NULL first, then code-point order. */
  predicate NameLe(a: Option<string>, b: Option<string>) {
    match a
    case None => true
    case Some(x) => b.Some? && Text.StrLe(x, b.value)
  }

  lemma NameLeIsTotalPreorder()
    ensures forall a, b :: NameLe(a, b) || NameLe(b, a)
    ensures forall a, b, c :: NameLe(a, b) && NameLe(b, c) ==> NameLe(a, c)
  {
    forall a, b ensures NameLe(a, b) || NameLe(b, a) {
      if a.Some? && b.Some? {
        Text.StrLeTotal(a.value, b.value);
      }
    }
    forall a, b, c | NameLe(a, b) && NameLe(b, c) ensures NameLe(a, c) {
      if a.Some? {
        Text.StrLeTransitive(a.value, b.value, c.value);
      }
    }
  }

  // ===== GET areas =====

  /** One row of the `GET areas` result. */
  datatype AreaRow = AreaRow(id: int, name: Option<string>, description: Option<string>, totalAnimals: int)

  /** `IFNULL(SUM(count_est), 0)` over the animals joined to the area. */
  function AreaTotal(animals: seq<Animal>, areaId: int): int {
    Tally(Select(animals, InArea(areaId)), Headcount)
  }

  function AreaRowOf(s: Store, col: NameColumn, a: Area): AreaRow {
    AreaRow(a.id, NameOf(a, col), a.description, AreaTotal(s.animals, a.id))
  }

  function AreaRowsOf(s: Store, col: NameColumn): seq<AreaRow> {
    seq(|s.areas|, i requires 0 <= i < |s.areas| => AreaRowOf(s, col, s.areas[i]))
  }

  predicate AreaRowLe(x: AreaRow, y: AreaRow) {
    NameLe(x.name, y.name)
  }

  /** The `GET areas` result: every area with its animal total, by name. */
  function AreaTotals(s: Store, col: NameColumn): seq<AreaRow> {
    Sorting.Sort(AreaRowsOf(s, col), AreaRowLe)
  }

  /** A row of `GET areas` whose area has no animals shows a total of 0. */
  lemma NoAnimalsZeroTotal(animals: seq<Animal>, areaId: int)
    requires forall an :: an in animals ==> an.areaId != Some(areaId)
    ensures AreaTotal(animals, areaId) == 0
  {
    SelectNoneMatching(animals, InArea(areaId));
  }

  /** `GET areas` returns one row per area, each carrying the sum of its animals'
      `count_est`, which is 0 for an area without animals. */
  lemma AreaTotalsRows(s: Store, col: NameColumn)
    ensures |AreaTotals(s, col)| == |s.areas|
    ensures forall a :: a in s.areas ==> AreaRowOf(s, col, a) in AreaTotals(s, col)
    ensures forall r :: r in AreaTotals(s, col) ==>
              && (exists a :: a in s.areas && r == AreaRowOf(s, col, a))
              && r.totalAnimals == Tally(Select(s.animals, InArea(r.id)), Headcount)
              && ((forall an :: an in s.animals ==> an.areaId != Some(r.id)) ==> r.totalAnimals == 0)
  {
    var unsorted := AreaRowsOf(s, col);
    var rows := AreaTotals(s, col);
    Sorting.PermutationMembers(rows, unsorted);
    forall a | a in s.areas ensures AreaRowOf(s, col, a) in rows {
      var i :| 0 <= i < |s.areas| && s.areas[i] == a;
      assert unsorted[i] == AreaRowOf(s, col, a);
      assert AreaRowOf(s, col, a) in unsorted;
    }
    forall r | r in rows
      ensures exists a :: a in s.areas && r == AreaRowOf(s, col, a)
      ensures r.totalAnimals == Tally(Select(s.animals, InArea(r.id)), Headcount)
      ensures (forall an :: an in s.animals ==> an.areaId != Some(r.id)) ==> r.totalAnimals == 0
    {
      assert r in unsorted;
      var i :| 0 <= i < |unsorted| && unsorted[i] == r;
      var a := s.areas[i];
      assert a in s.areas && r == AreaRowOf(s, col, a);
      assert r.id == a.id && r.totalAnimals == AreaTotal(s.animals, a.id);
      if forall an :: an in s.animals ==> an.areaId != Some(r.id) {
        NoAnimalsZeroTotal(s.animals, r.id);
      }
    }
  }

  /** With unique area ids no area appears twice in `GET areas`. */
  lemma AreaTotalsOnePerArea(s: Store, col: NameColumn)
    requires Valid(s)
    ensures forall i, j :: 0 <= i < j < |AreaTotals(s, col)| ==>
              AreaTotals(s, col)[i].id != AreaTotals(s, col)[j].id
  {
    var unsorted := AreaRowsOf(s, col);
    var rows := AreaTotals(s, col);
    assert Sorting.Distinct(unsorted) by {
      forall p, q | 0 <= p < q < |unsorted| ensures unsorted[p] != unsorted[q] {
        assert s.areas[p].id != s.areas[q].id;
      }
    }
    Sorting.DistinctPermutation(rows, unsorted);
    Sorting.PermutationMembers(rows, unsorted);
    forall i, j | 0 <= i < j < |rows| ensures rows[i].id != rows[j].id {
      assert rows[i] in unsorted && rows[j] in unsorted;
      var i' :| 0 <= i' < |unsorted| && unsorted[i'] == rows[i];
      var j' :| 0 <= j' < |unsorted| && unsorted[j'] == rows[j];
      if i' < j' {
        assert s.areas[i'].id != s.areas[j'].id;
      } else if j' < i' {
        assert s.areas[j'].id != s.areas[i'].id;
      }
    }
  }

  /** `GET areas` is ordered by the resolved name column, ascending. */
  lemma AreaTotalsSorted(s: Store, col: NameColumn)
    ensures Sorting.SortedBy(AreaTotals(s, col), AreaRowLe)
  {
    NameLeIsTotalPreorder();
    Sorting.SortIsSorted(AreaRowsOf(s, col), AreaRowLe);
  }

  // ===== GET animals =====

  predicate CommonNameLe(x: Animal, y: Animal) {
    NameLe(x.commonName, y.commonName)
  }

  /** `GET animals&area_id=N` with N non-zero: that area's animals by common name. */
  function AnimalsInArea(s: Store, areaId: int): seq<Animal> {
    Sorting.Sort(Select(s.animals, InArea(areaId)), CommonNameLe)
  }

  lemma AnimalsInAreaFacts(s: Store, areaId: int)
    ensures forall a :: a in AnimalsInArea(s, areaId) <==> a in s.animals && a.areaId == Some(areaId)
    ensures forall a :: multiset(AnimalsInArea(s, areaId))[a] ==
              if a.areaId == Some(areaId) then multiset(s.animals)[a] else 0
    ensures Sorting.SortedBy(AnimalsInArea(s, areaId), CommonNameLe)
  {
    var rows := AnimalsInArea(s, areaId);
    assert multiset(rows) == multiset(Select(s.animals, InArea(areaId)));
    SelectCounts(s.animals, InArea(areaId));
    forall a ensures a in rows <==> a in Select(s.animals, InArea(areaId)) {
      assert a in rows <==> a in multiset(rows);
    }
    NameLeIsTotalPreorder();
    Sorting.SortIsSorted(Select(s.animals, InArea(areaId)), CommonNameLe);
  }

  /** An animal row of the unfiltered listing, joined with its area's name. */
  datatype ListedAnimal = ListedAnimal(animal: Animal, areaName: Option<string>)

  /** The `LEFT JOIN areas`: the resolved name of the animal's area, or NULL when
      the animal has no area or its area does not exist. */
  function AreaNameFor(s: Store, col: NameColumn, a: Animal): (r: Option<string>)
    ensures r.Some? ==> exists ar :: ar in s.areas && Some(ar.id) == a.areaId && NameOf(ar, col) == r
    ensures (a.areaId.None? || forall ar :: ar in s.areas ==> Some(ar.id) != a.areaId) ==> r.None?
  {
    match a.areaId
    case None => None
    case Some(id) =>
      match FindArea(s.areas, id)
      case None => None
      case Some(ar) => NameOf(ar, col)
  }

  /** With unique area ids the join finds the animal's own area: an animal whose
      area exists is listed with that area's name. */
  lemma AreaNameForExisting(s: Store, col: NameColumn, a: Animal, ar: Area)
    requires Valid(s)
    requires ar in s.areas && a.areaId == Some(ar.id)
    ensures AreaNameFor(s, col, a) == NameOf(ar, col)
  {
    var found := FindArea(s.areas, ar.id);
    assert found.Some?;
    var i :| 0 <= i < |s.areas| && s.areas[i] == ar;
    var j :| 0 <= j < |s.areas| && s.areas[j] == found.value;
    assert i == j;
  }

  function ListedOf(s: Store, col: NameColumn): seq<ListedAnimal> {
    seq(|s.animals|, i requires 0 <= i < |s.animals| =>
      ListedAnimal(s.animals[i], AreaNameFor(s, col, s.animals[i])))
  }

  predicate IdDescending(x: ListedAnimal, y: ListedAnimal) {
    x.animal.id >= y.animal.id
  }

  /** `GET animals` without an area: every animal with its area name, newest id first. */
  function AllAnimals(s: Store, col: NameColumn): seq<ListedAnimal> {
    Sorting.Sort(ListedOf(s, col), IdDescending)
  }

  /** The unfiltered `GET animals` lists every animal once, with its area's name. */
  lemma AllAnimalsRows(s: Store, col: NameColumn)
    ensures |AllAnimals(s, col)| == |s.animals|
    ensures forall a :: a in s.animals ==> ListedAnimal(a, AreaNameFor(s, col, a)) in AllAnimals(s, col)
    ensures forall r :: r in AllAnimals(s, col) ==> r.animal in s.animals && r.areaName == AreaNameFor(s, col, r.animal)
  {
    var unsorted := ListedOf(s, col);
    var rows := AllAnimals(s, col);
    Sorting.PermutationMembers(rows, unsorted);
    forall a | a in s.animals ensures ListedAnimal(a, AreaNameFor(s, col, a)) in unsorted {
      var i :| 0 <= i < |s.animals| && s.animals[i] == a;
      assert unsorted[i] == ListedAnimal(a, AreaNameFor(s, col, a));
    }
    forall r | r in rows ensures r.animal in s.animals && r.areaName == AreaNameFor(s, col, r.animal) {
      var i :| 0 <= i < |unsorted| && unsorted[i] == r;
      assert s.animals[i] in s.animals;
    }
  }

  /** The unfiltered `GET animals` is ordered by id, newest first; with unique ids
      strictly so. */
  lemma AllAnimalsNewestFirst(s: Store, col: NameColumn)
    ensures Sorting.SortedBy(AllAnimals(s, col), IdDescending)
    ensures Valid(s) ==> forall i, j :: 0 <= i < j < |AllAnimals(s, col)| ==>
              AllAnimals(s, col)[i].animal.id > AllAnimals(s, col)[j].animal.id
  {
    var unsorted := ListedOf(s, col);
    var rows := AllAnimals(s, col);
    assert Sorting.TotalPreorder(IdDescending);
    Sorting.SortIsSorted(unsorted, IdDescending);
    if Valid(s) {
      assert Sorting.Distinct(unsorted) by {
        forall p, q | 0 <= p < q < |unsorted| ensures unsorted[p] != unsorted[q] {
          assert s.animals[p].id != s.animals[q].id;
        }
      }
      Sorting.DistinctPermutation(rows, unsorted);
      Sorting.PermutationMembers(rows, unsorted);
      forall i, j | 0 <= i < j < |rows| ensures rows[i].animal.id > rows[j].animal.id {
        assert IdDescending(rows[i], rows[j]);
        assert rows[i] in unsorted && rows[j] in unsorted;
        var i' :| 0 <= i' < |unsorted| && unsorted[i'] == rows[i];
        var j' :| 0 <= j' < |unsorted| && unsorted[j'] == rows[j];
        if i' < j' {
          assert s.animals[i'].id != s.animals[j'].id;
        } else if j' < i' {
          assert s.animals[j'].id != s.animals[i'].id;
        }
      }
    }
  }

  // ===== GET areasummary =====

  /** One row of `bySpecies`: `species`, `SUM(count_est)`, `COUNT(*)`. */
  datatype SpeciesRow = SpeciesRow(species: Option<string>, totalCount: int, records: int)

  /** The `area` part of the summary. */
  datatype AreaInfo = AreaInfo(id: int, name: Option<string>, description: Option<string>)

  /** The distinct species of `animals`, NULL counting as one, each listed once. The
      order is immaterial: the groups are sorted by their totals afterwards. */
  function SpeciesOf(animals: seq<Animal>): (r: seq<Option<string>>)
    ensures Sorting.Distinct(r)
    ensures forall a :: a in animals ==> a.species in r
    ensures forall sp :: sp in r ==> exists a :: a in animals && a.species == sp
  {
    if animals == [] then []
    else
      var first := animals[0];
      var r := SpeciesOf(animals[1..]);
      assert forall a :: a in animals ==> a == first || a in animals[1..] by {
        assert animals == [first] + animals[1..];
      }
      assert forall a :: a in animals[1..] ==> a in animals;
      if first.species in r then r else [first.species] + r
  }

  /** The aggregate row of the group of `animals` whose species is `sp`. */
  function SpeciesRowOf(animals: seq<Animal>, sp: Option<string>): SpeciesRow {
    var group := Select(animals, OfSpecies(sp));
    SpeciesRow(sp, Tally(group, Headcount), Tally(group, Records))
  }

  /** The group rows of `animals` for the listed species, in that order. */
  function SpeciesRows(animals: seq<Animal>, species: seq<Option<string>>): (r: seq<SpeciesRow>)
    ensures |r| == |species|
    ensures forall i :: 0 <= i < |species| ==> r[i] == SpeciesRowOf(animals, species[i])
  {
    if species == [] then []
    else [SpeciesRowOf(animals, species[0])] + SpeciesRows(animals, species[1..])
  }

  predicate TotalDescending(x: SpeciesRow, y: SpeciesRow) {
    x.totalCount >= y.totalCount
  }

  /** `GROUP BY species ORDER BY total_count DESC` over the given animals. */
  function BySpecies(animals: seq<Animal>): seq<SpeciesRow> {
    Sorting.Sort(SpeciesRows(animals, SpeciesOf(animals)), TotalDescending)
  }

  /** The `area` of the summary: the area with that id, if there is one. `None`
      stands for the `false` PDO's `fetch` gives when no row is found, which the
      reply carries as `"area": false`. */
  function AreaInfoOf(s: Store, col: NameColumn, areaId: int): (r: Option<AreaInfo>)
    ensures r.Some? ==> (r.value.id == areaId &&
              exists a :: a in s.areas && r.value == AreaInfo(a.id, NameOf(a, col), a.description))
    ensures r.None? <==> forall a :: a in s.areas ==> a.id != areaId
  {
    match FindArea(s.areas, areaId)
    case None => None
    case Some(a) => Some(AreaInfo(a.id, NameOf(a, col), a.description))
  }

  function Measured(r: SpeciesRow, m: Measure): int {
    match m
    case Records => r.records
    case Headcount => r.totalCount
  }

  /** The sum of one aggregate column over summary rows. */
  function Summed(rows: seq<SpeciesRow>, m: Measure): int {
    if rows == [] then 0 else Measured(rows[0], m) + Summed(rows[1..], m)
  }

  lemma {:induction false} SummedConcat(a: seq<SpeciesRow>, b: seq<SpeciesRow>, m: Measure)
    ensures Summed(a + b, m) == Summed(a, m) + Summed(b, m)
  {
    if a == [] {
      assert a + b == b;
    } else {
      assert (a + b)[1..] == a[1..] + b;
      SummedConcat(a[1..], b, m);
    }
  }

  lemma SummedWithout(b: seq<SpeciesRow>, k: nat, m: Measure)
    requires k < |b|
    ensures Summed(b, m) == Measured(b[k], m) + Summed(b[..k] + b[k + 1..], m)
  {
    assert b == b[..k] + ([b[k]] + b[k + 1..]);
    SummedConcat(b[..k], [b[k]] + b[k + 1..], m);
    SummedConcat(b[..k], b[k + 1..], m);
    assert ([b[k]] + b[k + 1..])[1..] == b[k + 1..];
  }

  /** Reordering rows does not change a column sum. */
  lemma {:induction false} SummedPermutation(a: seq<SpeciesRow>, b: seq<SpeciesRow>, m: Measure)
    requires multiset(a) == multiset(b)
    ensures Summed(a, m) == Summed(b, m)
    decreases |a|
  {
    if a == [] {
      assert |b| == |multiset(b)| == 0;
    } else {
      var k := Sorting.PermutationSplit(a, b);
      SummedPermutation(a[1..], b[..k] + b[k + 1..], m);
      SummedWithout(b, k, m);
    }
  }

  /** Adding animal `x` in front of the table adds its weight to exactly the group
      of its own species. */
  lemma {:induction false} SummedOfCons(x: Animal, rest: seq<Animal>, species: seq<Option<string>>, m: Measure)
    requires Sorting.Distinct(species)
    ensures Summed(SpeciesRows([x] + rest, species), m)
         == (if x.species in species then Weight(m, x) else 0) + Summed(SpeciesRows(rest, species), m)
  {
    if species != [] {
      var sp := species[0];
      var all := [x] + rest;
      assert all[0] == x && all[1..] == rest;
      var group := Select(all, OfSpecies(sp));
      var restGroup := Select(rest, OfSpecies(sp));
      if x.species == sp {
        assert group == [x] + restGroup;
        assert group[0] == x && group[1..] == restGroup;
      } else {
        assert group == restGroup;
      }
      assert Sorting.Distinct(species[1..]);
      assert x.species == sp ==> x.species !in species[1..];
      SummedOfCons(x, rest, species[1..], m);
    }
  }

  /** The groups of a species list covering every animal partition the table: their
      aggregates add up to the aggregate over all animals. */
  lemma {:induction false} SpeciesPartition(animals: seq<Animal>, species: seq<Option<string>>, m: Measure)
    requires Sorting.Distinct(species)
    requires forall a :: a in animals ==> a.species in species
    ensures Summed(SpeciesRows(animals, species), m) == Tally(animals, m)
  {
    if animals == [] {
      forall i | 0 <= i < |species| ensures SpeciesRows(animals, species)[i].records == 0 {}
      assert forall i | 0 <= i < |species| :: SpeciesRowOf(animals, species[i]) == SpeciesRow(species[i], 0, 0);
      SummedZero(SpeciesRows(animals, species), m);
    } else {
      assert animals == [animals[0]] + animals[1..];
      SpeciesPartition(animals[1..], species, m);
      SummedOfCons(animals[0], animals[1..], species, m);
    }
  }

  lemma {:induction false} SummedZero(rows: seq<SpeciesRow>, m: Measure)
    requires forall i :: 0 <= i < |rows| ==> rows[i].records == 0 && rows[i].totalCount == 0
    ensures Summed(rows, m) == 0
  {
    if rows != [] {
      SummedZero(rows[1..], m);
    }
  }

  /** Every row of `bySpecies` aggregates the group of one species that some
      animal has. */
  lemma BySpeciesRowsAreGroups(animals: seq<Animal>)
    ensures forall r :: r in BySpecies(animals) ==>
              r == SpeciesRowOf(animals, r.species) && exists a :: a in animals && a.species == r.species
  {
    var species := SpeciesOf(animals);
    var unsorted := SpeciesRows(animals, species);
    var rows := BySpecies(animals);
    Sorting.PermutationMembers(rows, unsorted);
    forall r | r in rows
      ensures r == SpeciesRowOf(animals, r.species)
      ensures exists a :: a in animals && a.species == r.species
    {
      assert r in unsorted;
      var i :| 0 <= i < |unsorted| && unsorted[i] == r;
      assert r == SpeciesRowOf(animals, species[i]);
      assert species[i] in species;
    }
  }

  /** Every animal's species has its row in `bySpecies`. */
  lemma BySpeciesCoversAnimals(animals: seq<Animal>)
    ensures forall a :: a in animals ==> SpeciesRowOf(animals, a.species) in BySpecies(animals)
  {
    var species := SpeciesOf(animals);
    var unsorted := SpeciesRows(animals, species);
    var rows := BySpecies(animals);
    Sorting.PermutationMembers(rows, unsorted);
    forall a | a in animals ensures SpeciesRowOf(animals, a.species) in rows {
      assert a.species in species;
      var i :| 0 <= i < |species| && species[i] == a.species;
      assert unsorted[i] == SpeciesRowOf(animals, a.species);
      assert unsorted[i] in unsorted;
    }
  }

  /** No species has two rows in `bySpecies`. */
  lemma BySpeciesDistinct(animals: seq<Animal>)
    ensures forall i, j :: 0 <= i < j < |BySpecies(animals)| ==>
              BySpecies(animals)[i].species != BySpecies(animals)[j].species
  {
    var species := SpeciesOf(animals);
    var unsorted := SpeciesRows(animals, species);
    var rows := BySpecies(animals);
    assert Sorting.Distinct(unsorted) by {
      forall p, q | 0 <= p < q < |unsorted| ensures unsorted[p] != unsorted[q] {
        assert unsorted[p].species == species[p];
        assert unsorted[q].species == species[q];
      }
    }
    Sorting.DistinctPermutation(rows, unsorted);
    BySpeciesRowsAreGroups(animals);
    forall i, j | 0 <= i < j < |rows| ensures rows[i].species != rows[j].species {
      assert rows[i] in rows && rows[j] in rows;
      assert rows[i] == SpeciesRowOf(animals, rows[i].species);
      assert rows[j] == SpeciesRowOf(animals, rows[j].species);
    }
  }

  /** `bySpecies` has exactly one row per distinct species of the given animals,
      and each row aggregates that species' group. */
  lemma BySpeciesRows(animals: seq<Animal>)
    ensures forall r :: r in BySpecies(animals) ==>
              r == SpeciesRowOf(animals, r.species) && exists a :: a in animals && a.species == r.species
    ensures forall a :: a in animals ==> SpeciesRowOf(animals, a.species) in BySpecies(animals)
    ensures forall i, j :: 0 <= i < j < |BySpecies(animals)| ==>
              BySpecies(animals)[i].species != BySpecies(animals)[j].species
  {
    BySpeciesRowsAreGroups(animals);
    BySpeciesCoversAnimals(animals);
    BySpeciesDistinct(animals);
  }

  /** The `records` of `bySpecies` add up to the number of animals. */
  lemma BySpeciesRecords(animals: seq<Animal>)
    ensures Summed(BySpecies(animals), Records) == |animals|
  {
    var species := SpeciesOf(animals);
    var unsorted := SpeciesRows(animals, species);
    SummedPermutation(BySpecies(animals), unsorted, Records);
    SpeciesPartition(animals, species, Records);
    TallyRecordsIsCount(animals);
  }

  /** The `total_count`s of `bySpecies` add up to the animals' summed `count_est`. */
  lemma BySpeciesHeadcount(animals: seq<Animal>)
    ensures Summed(BySpecies(animals), Headcount) == Tally(animals, Headcount)
  {
    var species := SpeciesOf(animals);
    var unsorted := SpeciesRows(animals, species);
    SummedPermutation(BySpecies(animals), unsorted, Headcount);
    SpeciesPartition(animals, species, Headcount);
  }

  /** The rows of `bySpecies` are ordered by `total_count`, largest first. */
  lemma BySpeciesSorted(animals: seq<Animal>)
    ensures Sorting.SortedBy(BySpecies(animals), TotalDescending)
  {
    assert Sorting.TotalPreorder(TotalDescending);
    Sorting.SortIsSorted(SpeciesRows(animals, SpeciesOf(animals)), TotalDescending);
  }

  /** The `records` of `bySpecies` add up to the number of animals and the
      `total_count`s to their summed `count_est`; the rows are ordered by
      `total_count`, largest first. */
  lemma BySpeciesTotals(animals: seq<Animal>)
    ensures Summed(BySpecies(animals), Records) == |animals|
    ensures Summed(BySpecies(animals), Headcount) == Tally(animals, Headcount)
    ensures Sorting.SortedBy(BySpecies(animals), TotalDescending)
  {
    BySpeciesRecords(animals);
    BySpeciesHeadcount(animals);
    BySpeciesSorted(animals);
  }

  /** The species breakdown of an area sums to the total `GET areas` reports for it. */
  lemma SummaryMatchesAreaTotal(s: Store, col: NameColumn, a: Area)
    ensures Summed(BySpecies(Select(s.animals, InArea(a.id))), Headcount) == AreaRowOf(s, col, a).totalAnimals
  {
    BySpeciesHeadcount(Select(s.animals, InArea(a.id)));
  }
}
