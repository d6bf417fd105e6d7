/** The request handler of the endpoint: one HTTP request against the store,
    answered with a status, a JSON reply and the store afterwards. */
module Api {
  import opened Optional
  import opened Tables
  import opened Queries
  import opened Writes
  import Text

  /** What the handler reads of a request: the HTTP method, the query-string
      parameters, and the request body after `json_decode($raw, true)` when that
      gives an array (`None` for an empty body, invalid JSON or a JSON scalar). */
  datatype Request = Request(verb: string, query: map<string, string>, body: Option<Fields>)

  /** The JSON document of a response. */
  datatype Reply =
    | NoContent                                            // preflight: empty body
    | Error(message: string)                               // {error}
    | Areas(areaRows: seq<AreaRow>)                        // GET areas
    | AnimalsOfArea(animals: seq<Animal>)                  // GET animals, one area
    | AllListed(listed: seq<ListedAnimal>)                 // GET animals, every area
    | Summary(area: Option<AreaInfo>, bySpecies: seq<SpeciesRow>)  // GET areasummary
    | Created(insertId: int)                               // {success: true, insert_id}
    | Succeeded                                            // {success: true}

  datatype Response = Response(status: int, reply: Reply)

  datatype Outcome = Outcome(response: Response, store: Store)

  const UnknownEndpoint: string := "Unknown endpoint."

  /** `$_GET['action'] ?? ''`. */
  function Action(req: Request): string {
    if "action" in req.query then req.query["action"] else ""
  }

  /** `isset($_GET[key]) ? (int) $_GET[key] : 0`. */
  function IntParam(req: Request, key: string): int {
    if key in req.query then Text.PhpIntCast(req.query[key]) else 0
  }

  /** The id a DELETE removes: the query-string `id` when one is given, otherwise
      the body's `id`, otherwise 0. */
  function DeleteId(req: Request): int {
    if "id" in req.query then Text.PhpIntCast(req.query["id"])
    else match req.body
      case Some(f) => f.id.GetOr(0)
      case None => 0
  }

  /** The six method/action pairs the endpoint serves. */
  predicate Routed(verb: string, action: string) {
    || (verb == "GET" && (action == "areas" || action == "animals" || action == "areasummary"))
    || ((verb == "POST" || verb == "PUT" || verb == "DELETE") && action == "animal")
  }

  predicate IsWrite(verb: string, action: string) {
    (verb == "POST" || verb == "PUT" || verb == "DELETE") && action == "animal"
  }

  function Ok(store: Store, reply: Reply): Outcome {
    Outcome(Response(200, reply), store)
  }

  function Fail(store: Store, status: int, message: string): Outcome {
    Outcome(Response(status, Error(message)), store)
  }

  /** Handles one request. A preflight is answered before anything else; every
      other request first resolves the area name column. */
  function Handle(store: Store, columns: set<string>, req: Request): (out: Outcome)
    ensures req.verb == "OPTIONS" ==> out == Outcome(Response(200, NoContent), store)
    ensures req.verb != "OPTIONS" && ResolveNameColumn(columns).None? ==>
              out == Fail(store, 500, MissingColumnError)
    ensures req.verb != "OPTIONS" && ResolveNameColumn(columns).Some? && !Routed(req.verb, Action(req)) ==>
              out == Fail(store, 404, UnknownEndpoint)
    ensures out.response.status in {200, 400, 404, 500}
    ensures out.response.status != 200 ==> out.response.reply.Error? && out.store == store
    ensures out.store != store ==> IsWrite(req.verb, Action(req))
    ensures Valid(store) ==> Valid(out.store)
  {
    if req.verb == "OPTIONS" then Outcome(Response(200, NoContent), store)
    else match ResolveNameColumn(columns)
      case None => Fail(store, 500, MissingColumnError)
      case Some(col) => Dispatch(store, col, req)
  }

  /** The action branches, in the order the handler tries them. */
  function Dispatch(store: Store, col: NameColumn, req: Request): (out: Outcome)
    ensures out.response.status in {200, 400, 404}
    ensures !Routed(req.verb, Action(req)) ==> out == Fail(store, 404, UnknownEndpoint)
    ensures out.response.status != 200 ==> out.response.reply.Error? && out.store == store
    ensures out.store != store ==> IsWrite(req.verb, Action(req))
    ensures Valid(store) ==> Valid(out.store)
  {
    var verb, action := req.verb, Action(req);
    if verb == "GET" && action == "areas" then
      Ok(store, Areas(AreaTotals(store, col)))
    else if verb == "GET" && action == "animals" then
      var areaId := IntParam(req, "area_id");
      if areaId != 0 then Ok(store, AnimalsOfArea(AnimalsInArea(store, areaId)))
      else Ok(store, AllListed(AllAnimals(store, col)))
    else if verb == "GET" && action == "areasummary" then
      var areaId := IntParam(req, "area_id");
      if areaId == 0 then Fail(store, 400, "area_id required")
      else Ok(store, Summary(AreaInfoOf(store, col, areaId), BySpecies(Select(store.animals, InArea(areaId)))))
    else if verb == "POST" && action == "animal" then
      match req.body
      case None => Fail(store, 400, "Invalid JSON body")
      case Some(f) => Ok(AddAnimal(store, f), Created(store.nextId))
    else if verb == "PUT" && action == "animal" then
      match req.body
      case None => Fail(store, 400, "id required")
      case Some(f) =>
        if f.id.GetOr(0) == 0 then Fail(store, 400, "id required")
        else Ok(UpdateAnimal(store, f.id.value, f), Succeeded)
    else if verb == "DELETE" && action == "animal" then
      var id := DeleteId(req);
      if id == 0 then Fail(store, 400, "id required")
      else Ok(DeleteAnimal(store, id), Succeeded)
    else Fail(store, 404, UnknownEndpoint)
  }

  // ===== Reads =====

  /** `GET areas`: one row per area with its animal total, by name. */
  lemma GetAreasReply(store: Store, columns: set<string>, req: Request, col: NameColumn)
    requires req.verb == "GET" && Action(req) == "areas"
    requires ResolveNameColumn(columns) == Some(col)
    ensures Handle(store, columns, req).store == store
    ensures Handle(store, columns, req).response.status == 200
    ensures Handle(store, columns, req).response.reply.Areas?
    ensures var rows := Handle(store, columns, req).response.reply.areaRows;
      && |rows| == |store.areas|
      && (forall a :: a in store.areas ==> AreaRowOf(store, col, a) in rows)
      && (forall r :: r in rows ==> r.totalAnimals == Tally(Select(store.animals, InArea(r.id)), Headcount))
      && Sorting.SortedBy(rows, AreaRowLe)
  {
    AreaTotalsRows(store, col);
    AreaTotalsSorted(store, col);
  }

  /** `GET animals`: a non-zero `area_id` lists exactly that area's animals by
      common name; otherwise every animal is listed, newest id first. */
  lemma GetAnimalsReply(store: Store, columns: set<string>, req: Request, col: NameColumn)
    requires req.verb == "GET" && Action(req) == "animals"
    requires ResolveNameColumn(columns) == Some(col)
    ensures Handle(store, columns, req).store == store
    ensures Handle(store, columns, req).response.status == 200
    ensures var reply := Handle(store, columns, req).response.reply;
      var areaId := IntParam(req, "area_id");
      if areaId != 0 then
        && reply.AnimalsOfArea?
        && (forall a :: a in reply.animals <==> a in store.animals && a.areaId == Some(areaId))
        && (forall a :: multiset(reply.animals)[a] ==
              if a.areaId == Some(areaId) then multiset(store.animals)[a] else 0)
        && Sorting.SortedBy(reply.animals, CommonNameLe)
      else
        && reply.AllListed?
        && |reply.listed| == |store.animals|
        && (forall a :: a in store.animals ==> ListedAnimal(a, AreaNameFor(store, col, a)) in reply.listed)
        && Sorting.SortedBy(reply.listed, IdDescending)
  {
    AnimalsInAreaFacts(store, IntParam(req, "area_id"));
    AllAnimalsRows(store, col);
    AllAnimalsNewestFirst(store, col);
  }

  /** `GET areasummary`: 400 without a non-zero `area_id`; otherwise the stored area
      with that id (its name and description as stored, or none) and one row per species of its animals, whose `records` add up to
      the number of those animals and whose `total_count`s add up to their
      `count_est`, largest total first. */
  lemma GetAreaSummaryReply(store: Store, columns: set<string>, req: Request, col: NameColumn)
    requires req.verb == "GET" && Action(req) == "areasummary"
    requires ResolveNameColumn(columns) == Some(col)
    ensures Handle(store, columns, req).store == store
    ensures var out := Handle(store, columns, req);
      var areaId := IntParam(req, "area_id");
      var animals := Select(store.animals, InArea(areaId));
      if areaId == 0 then out.response == Response(400, Error("area_id required"))
      else
        && out.response.status == 200
        && out.response.reply.Summary?
        && out.response.reply.area == AreaInfoOf(store, col, areaId)
        && (out.response.reply.area.Some? ==>
              exists a :: a in store.areas && a.id == areaId &&
                out.response.reply.area.value == AreaInfo(a.id, NameOf(a, col), a.description))
        && (out.response.reply.area.None? <==> forall a :: a in store.areas ==> a.id != areaId)
        && (forall i, j :: 0 <= i < j < |out.response.reply.bySpecies| ==>
              out.response.reply.bySpecies[i].species != out.response.reply.bySpecies[j].species)
        && (forall a :: a in animals ==> exists r :: r in out.response.reply.bySpecies && r.species == a.species)
        && (forall r :: r in out.response.reply.bySpecies ==>
              r == SpeciesRowOf(animals, r.species) && exists a :: a in animals && a.species == r.species)
        && Summed(out.response.reply.bySpecies, Records) == |animals|
        && Summed(out.response.reply.bySpecies, Headcount) == Tally(animals, Headcount)
        && Sorting.SortedBy(out.response.reply.bySpecies, TotalDescending)
  {
    var areaId := IntParam(req, "area_id");
    var animals := Select(store.animals, InArea(areaId));
    var out := Handle(store, columns, req);
    assert out == Dispatch(store, col, req);
    if areaId != 0 {
      var rows := BySpecies(animals);
      assert out == Ok(store, Summary(AreaInfoOf(store, col, areaId), rows));
      BySpeciesRows(animals);
      BySpeciesTotals(animals);
      forall a | a in animals ensures exists r :: r in rows && r.species == a.species {
        assert SpeciesRowOf(animals, a.species) in rows;
      }
    }
  }

  // ===== Writes =====

  /** `POST animal` with a non-array body is refused and writes nothing. */
  lemma PostRejectsNonArray(store: Store, columns: set<string>, req: Request)
    requires req.verb == "POST" && Action(req) == "animal" && req.body.None?
    requires ResolveNameColumn(columns).Some?
    ensures Handle(store, columns, req) == Fail(store, 400, "Invalid JSON body")
  {
  }

  /** `POST animal` appends exactly one row and leaves every existing row alone;
      the reply carries the new row's id, which no earlier row has. */
  lemma PostAppendsOneRow(store: Store, columns: set<string>, req: Request, f: Fields)
    requires req.verb == "POST" && Action(req) == "animal" && req.body == Some(f)
    requires ResolveNameColumn(columns).Some?
    ensures var out := Handle(store, columns, req);
      && out.response.status == 200
      && out.response.reply.Created?
      && out.store.areas == store.areas
      && |out.store.animals| == |store.animals| + 1
      && out.store.animals[..|store.animals|] == store.animals
      && out.store.animals[|store.animals|] == RecordFrom(out.response.reply.insertId, f)
      && (Valid(store) ==> forall a :: a in store.animals ==> a.id != out.response.reply.insertId)
  {
  }

  /** Missing body members are stored as NULL, except `count_est`, stored as 0. */
  lemma RecordDefaults(id: int, f: Fields)
    ensures RecordFrom(id, f).id == id
    ensures f.areaId.None? ==> RecordFrom(id, f).areaId.None?
    ensures f.commonName.None? ==> RecordFrom(id, f).commonName.None?
    ensures f.species.None? ==> RecordFrom(id, f).species.None?
    ensures f.countEst.None? ==> RecordFrom(id, f).countEst == 0
    ensures f.averageAgeYears.None? ==> RecordFrom(id, f).averageAgeYears.None?
    ensures f.notes.None? ==> RecordFrom(id, f).notes.None?
    ensures f.lastSeen.None? ==> RecordFrom(id, f).lastSeen.None?
    ensures f.countEst.Some? ==> RecordFrom(id, f).countEst == f.countEst.value
  {
  }

  /** `PUT animal` without an array body or with an empty or zero `id` is refused
      and writes nothing. */
  lemma PutRequiresId(store: Store, columns: set<string>, req: Request)
    requires req.verb == "PUT" && Action(req) == "animal"
    requires req.body.None? || req.body.value.id.GetOr(0) == 0
    requires ResolveNameColumn(columns).Some?
    ensures Handle(store, columns, req) == Fail(store, 400, "id required")
  {
  }

  /** `PUT animal` overwrites the row with the body's id and nothing else; an id
      that matches no row still succeeds and changes nothing. */
  lemma PutOverwritesOnlyMatching(store: Store, columns: set<string>, req: Request, f: Fields, id: int)
    requires req.verb == "PUT" && Action(req) == "animal" && req.body == Some(f)
    requires f.id == Some(id) && id != 0
    requires ResolveNameColumn(columns).Some?
    ensures var out := Handle(store, columns, req);
      && out.response == Response(200, Succeeded)
      && out.store.areas == store.areas
      && |out.store.animals| == |store.animals|
      && (forall i :: 0 <= i < |store.animals| ==>
            out.store.animals[i] == if store.animals[i].id == id then RecordFrom(id, f) else store.animals[i])
      && ((forall a :: a in store.animals ==> a.id != id) ==> out.store == store)
  {
  }

  /** `DELETE animal` without a non-zero id is refused and writes nothing. */
  lemma DeleteRequiresId(store: Store, columns: set<string>, req: Request)
    requires req.verb == "DELETE" && Action(req) == "animal" && DeleteId(req) == 0
    requires ResolveNameColumn(columns).Some?
    ensures Handle(store, columns, req) == Fail(store, 400, "id required")
  {
  }

  /** A query-string `id` whose digits overflow the doubles casts to 0, so the
      DELETE is refused as if no id were given. */
  lemma DeleteIdBeyondDoubles(store: Store, columns: set<string>, req: Request, n: int)
    requires req.verb == "DELETE" && Action(req) == "animal"
    requires "id" in req.query && req.query["id"] == Text.ShowInt(n)
    requires n <= -Text.DoubleOverflow || Text.DoubleOverflow <= n
    requires ResolveNameColumn(columns).Some?
    ensures Handle(store, columns, req) == Fail(store, 400, "id required")
  {
    Text.PhpIntCastLeadingNumber(n, []);
    assert Text.ShowInt(n) + [] == Text.ShowInt(n);
  }

  /** A query-string `id` decides what DELETE removes, whatever the body says. */
  lemma DeleteQueryIdWins(store: Store, columns: set<string>, req: Request, body: Option<Fields>)
    requires req.verb == "DELETE" && Action(req) == "animal" && "id" in req.query
    ensures Handle(store, columns, req.(body := body)) == Handle(store, columns, req)
  {
  }

  /** `DELETE animal` removes the rows with that id and keeps all others; deleting
      an id no row has succeeds without change, so deleting twice is deleting once. */
  lemma DeleteRemovesOnlyMatching(store: Store, columns: set<string>, req: Request)
    requires req.verb == "DELETE" && Action(req) == "animal" && DeleteId(req) != 0
    requires ResolveNameColumn(columns).Some?
    ensures var out := Handle(store, columns, req);
      && out.response == Response(200, Succeeded)
      && out.store.areas == store.areas
      && (forall a :: a in out.store.animals <==> a in store.animals && a.id != DeleteId(req))
      && ((forall a :: a in store.animals ==> a.id != DeleteId(req)) ==> out.store == store)
      && Handle(out.store, columns, req) == out
  {
  }

  // ===== Sequences of requests =====

  /** After a POST, the unfiltered listing holds exactly one row with the returned
      id, and it carries the submitted values. */
  lemma PostThenListedOnce(store: Store, columns: set<string>, post: Request, f: Fields, list: Request)
    requires Valid(store)
    requires post.verb == "POST" && Action(post) == "animal" && post.body == Some(f)
    requires ResolveNameColumn(columns).Some?
    requires list.verb == "GET" && Action(list) == "animals" && IntParam(list, "area_id") == 0
    ensures var created := Handle(store, columns, post);
      var listed := Handle(created.store, columns, list).response.reply;
      var id := created.response.reply.insertId;
      && listed.AllListed?
      && (exists r :: r in listed.listed && r.animal == RecordFrom(id, f))
      && (forall i, j ::
            (0 <= i < |listed.listed| && 0 <= j < |listed.listed| &&
             listed.listed[i].animal.id == id && listed.listed[j].animal.id == id) ==> i == j)
  {
    var col := ResolveNameColumn(columns).value;
    var created := Handle(store, columns, post);
    var after := created.store;
    var id := created.response.reply.insertId;
    PostAppendsOneRow(store, columns, post, f);
    assert after.animals[|store.animals|] in after.animals;
    AllAnimalsRows(after, col);
    AllAnimalsNewestFirst(after, col);
  }

  /** POST, then PUT with the returned id: the area's listing shows the PUT's values,
      and no row with that id keeps the POST's. */
  lemma PostPutRoundTrip(store: Store, columns: set<string>, post: Request, f: Fields,
                         put: Request, g: Fields, list: Request)
    requires Valid(store)
    requires ResolveNameColumn(columns).Some?
    requires post.verb == "POST" && Action(post) == "animal" && post.body == Some(f)
    requires put.verb == "PUT" && Action(put) == "animal" && put.body == Some(g)
    requires g.id == Some(Handle(store, columns, post).response.reply.insertId)
    requires list.verb == "GET" && Action(list) == "animals"
    requires IntParam(list, "area_id") != 0 && g.areaId == Some(IntParam(list, "area_id"))
    ensures var created := Handle(store, columns, post);
      var updated := Handle(created.store, columns, put);
      var listed := Handle(updated.store, columns, list).response.reply;
      var id := created.response.reply.insertId;
      && updated.response == Response(200, Succeeded)
      && listed.AnimalsOfArea?
      && RecordFrom(id, g) in listed.animals
      && (forall a :: a in listed.animals && a.id == id ==> a == RecordFrom(id, g))
  {
    var id := store.nextId;
    var created := Handle(store, columns, post);
    assert created == Ok(AddAnimal(store, f), Created(id));
    var updated := Handle(created.store, columns, put);
    assert updated == Ok(UpdateAnimal(created.store, id, g), Succeeded) by {
      assert 0 < id;
    }
    AddThenUpdate(store, f, g);
    var after := updated.store;
    assert after.animals == store.animals + [RecordFrom(id, g)];
    var areaId := IntParam(list, "area_id");
    assert Handle(after, columns, list).response.reply == AnimalsOfArea(AnimalsInArea(after, areaId));
    AnimalsInAreaFacts(after, areaId);
    assert RecordFrom(id, g) in after.animals;
    forall a | a in after.animals && a.id == id ensures a == RecordFrom(id, g) {
      if a in store.animals {
        assert false;
      }
    }
  }

  // A small worked example, one request at a time.

  const Savannah: Area := Area(1, None, Some("Savannah"), None)
  const Lion5: Animal := Animal(1, Some(1), Some("Lion"), None, 5, None, None, None)
  const Lion7: Animal := Animal(1, Some(1), Some("Lion"), None, 7, None, None, None)
  const PostLion: Request :=
    Request("POST", map["action" := "animal"], Some(Fields(None, Some(1), Some("Lion"), None, Some(5), None, None, None)))
  const ListAreas: Request := Request("GET", map["action" := "areas"], None)
  const PutLion: Request :=
    Request("PUT", map["action" := "animal"], Some(Fields(Some(1), Some(1), Some("Lion"), None, Some(7), None, None, None)))
  const ListSavannah: Request := Request("GET", map["action" := "animals", "area_id" := "1"], None)

  /** Recording a lion while no animal is recorded gives it id 1. */
  lemma SavannahPost()
    ensures Handle(Store([Savannah], [], 1), {"name"}, PostLion)
            == Outcome(Response(200, Created(1)), Store([Savannah], [Lion5], 2))
  {
    assert ResolveNameColumn({"name"}) == Some(Name);
    assert Action(PostLion) == "animal";
  }

  /** With the lion recorded the area totals 5. */
  lemma SavannahAreas()
    ensures Handle(Store([Savannah], [Lion5], 2), {"name"}, ListAreas).response
            == Response(200, Areas([AreaRow(1, Some("Savannah"), None, 5)]))
  {
    var s1 := Store([Savannah], [Lion5], 2);
    assert ResolveNameColumn({"name"}) == Some(Name);
    assert Action(ListAreas) == "areas";
    assert Select([Lion5], InArea(1)) == [Lion5];
    assert [Lion5][1..] == [];
    assert Tally([Lion5], Headcount) == 5;
    var row := AreaRow(1, Some("Savannah"), None, 5);
    assert AreaRowsOf(s1, Name)[0] == row;
    assert AreaRowsOf(s1, Name) == [row];
    assert [row][1..] == [];
    assert AreaTotals(s1, Name) == [row];
  }

  /** Correcting the count to 7 overwrites the lion's row. */
  lemma SavannahPut()
    ensures Handle(Store([Savannah], [Lion5], 2), {"name"}, PutLion)
            == Outcome(Response(200, Succeeded), Store([Savannah], [Lion7], 2))
  {
    assert ResolveNameColumn({"name"}) == Some(Name);
    assert Action(PutLion) == "animal";
    assert UpdateAnimal(Store([Savannah], [Lion5], 2), 1, PutLion.body.value).animals == [Lion7];
  }

  /** The area's listing then shows the corrected row. */
  lemma SavannahList()
    ensures Handle(Store([Savannah], [Lion7], 2), {"name"}, ListSavannah).response
            == Response(200, AnimalsOfArea([Lion7]))
  {
    assert ResolveNameColumn({"name"}) == Some(Name);
    assert Action(ListSavannah) == "animals";
    assert IntParam(ListSavannah, "area_id") == 1 by {
      Text.PhpIntCastShowInt(1);
      assert Text.ShowInt(1) == "1";
    }
    assert Select([Lion7], InArea(1)) == [Lion7];
  }

  /** One area "Savannah": a lion is recorded with a count of 5, the area totals 5,
      the count is corrected to 7 and the area's listing shows 7. */
  lemma SavannahScenario()
    ensures var s0 := Store([Savannah], [], 1);
      var r1 := Handle(s0, {"name"}, PostLion);
      var r2 := Handle(r1.store, {"name"}, ListAreas);
      var r3 := Handle(r1.store, {"name"}, PutLion);
      var r4 := Handle(r3.store, {"name"}, ListSavannah);
      && r1.response == Response(200, Created(1))
      && r2.response == Response(200, Areas([AreaRow(1, Some("Savannah"), None, 5)]))
      && r3.response == Response(200, Succeeded)
      && r4.response == Response(200, AnimalsOfArea([Lion7]))
  {
    SavannahPost();
    SavannahAreas();
    SavannahPut();
    SavannahList();
  }
}
