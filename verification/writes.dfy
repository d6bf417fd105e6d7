/** The three write actions of the endpoint on the `animals` table: insert
    (`POST animal`), update by id (`PUT animal`) and delete by id
    (`DELETE animal`). Areas are never written. */
module Writes {
  import opened Optional
  import opened Tables

  /** The members of the decoded JSON body that the endpoint reads; `None` for a
      member that is absent or null, which PHP's `??` treats alike. */
  datatype Fields = Fields(
    id: Option<int>,
    areaId: Option<int>,
    commonName: Option<string>,
    species: Option<string>,
    countEst: Option<int>,
    averageAgeYears: Option<string>,
    notes: Option<string>,
    lastSeen: Option<string>)

  /** The row an INSERT or UPDATE writes for body `f`: a missing member becomes
      NULL, except `count_est`, which becomes 0. */
  function RecordFrom(id: int, f: Fields): Animal {
    Animal(id, f.areaId, f.commonName, f.species, f.countEst.GetOr(0),
           f.averageAgeYears, f.notes, f.lastSeen)
  }

  /** INSERT: one row, with the next auto-increment id, after all existing rows. */
  function AddAnimal(s: Store, f: Fields): (r: Store)
    ensures r.areas == s.areas
    ensures |r.animals| == |s.animals| + 1 && r.animals[..|s.animals|] == s.animals
    ensures r.animals[|s.animals|] == RecordFrom(s.nextId, f)
    ensures Valid(s) ==> Valid(r) && forall a :: a in s.animals ==> a.id != s.nextId
  {
    var r := Store(s.areas, s.animals + [RecordFrom(s.nextId, f)], s.nextId + 1);
    assert r.animals[..|s.animals|] == s.animals;
    r
  }

  /** UPDATE ... WHERE id = `id`: every matching row is overwritten with the body's
      values, every other row is left as it was. */
  function UpdateAnimal(s: Store, id: int, f: Fields): (r: Store)
    ensures r.areas == s.areas && r.nextId == s.nextId
    ensures |r.animals| == |s.animals|
    ensures forall i :: 0 <= i < |s.animals| ==> r.animals[i].id == s.animals[i].id
    ensures forall i :: 0 <= i < |s.animals| && s.animals[i].id == id ==> r.animals[i] == RecordFrom(id, f)
    ensures forall i :: 0 <= i < |s.animals| && s.animals[i].id != id ==> r.animals[i] == s.animals[i]
    ensures (forall a :: a in s.animals ==> a.id != id) ==> r == s
    ensures Valid(s) ==> Valid(r)
  {
    var animals := seq(|s.animals|, i requires 0 <= i < |s.animals| =>
      if s.animals[i].id == id then RecordFrom(id, f) else s.animals[i]);
    assert (forall a :: a in s.animals ==> a.id != id) ==> animals == s.animals by {
      if forall a :: a in s.animals ==> a.id != id {
        forall i | 0 <= i < |s.animals| ensures animals[i] == s.animals[i] {
          assert s.animals[i] in s.animals;
        }
      }
    }
    Store(s.areas, animals, s.nextId)
  }

  /** DELETE ... WHERE id = `id`. */
  function DeleteAnimal(s: Store, id: int): (r: Store)
    ensures r.areas == s.areas && r.nextId == s.nextId
    ensures forall a :: a in r.animals <==> a in s.animals && a.id != id
    ensures (forall a :: a in s.animals ==> a.id != id) ==> r == s
    ensures Valid(s) ==> Valid(r)
  {
    SelectKeepsUniqueIds(s.animals, IdIsNot(id));
    assert (forall a :: a in s.animals ==> a.id != id) ==> Select(s.animals, IdIsNot(id)) == s.animals by {
      if forall a :: a in s.animals ==> a.id != id {
        SelectAllMatching(s.animals, IdIsNot(id));
      }
    }
    Store(s.areas, Select(s.animals, IdIsNot(id)), s.nextId)
  }

  /** Updating the row an insert has just created rewrites that row alone: the
      table reads as if the update's values had been inserted in the first place. */
  lemma AddThenUpdate(s: Store, f: Fields, g: Fields)
    requires Valid(s)
    ensures UpdateAnimal(AddAnimal(s, f), s.nextId, g)
            == Store(s.areas, s.animals + [RecordFrom(s.nextId, g)], s.nextId + 1)
  {
    var added := AddAnimal(s, f);
    var r := UpdateAnimal(added, s.nextId, g);
    var want := s.animals + [RecordFrom(s.nextId, g)];
    forall i | 0 <= i < |want| ensures r.animals[i] == want[i] {
      if i < |s.animals| {
        assert added.animals[i] == s.animals[i];
        assert s.animals[i] in s.animals;
      }
    }
  }
}
