/** The request handler passed to `serve` in myapp/main.ts (lines 38-82):
    a prefix test on the path, then an ordered choice on the method and the
    id segment, with every failure inside the `try` turned into a 500. */
module Router {
  import opened Wrappers
  import opened Store
  import opened Paths
  import Slug

  /** The fields `name` and `age` destructured from a POST body. */
  datatype NewHorse = NewHorse(name: string, age: int)

  /** What the handler reads from a request: the method, the URL's
      pathname as `new URL` gives it (percent-escapes left in place) and,
      for a POST, the parsed body (None when the body is not JSON, `name`
      is not a string, or `name` or `age` is missing). */
  datatype Request = Request(verb: string, path: string, body: Option<NewHorse>)

  /** A response body: plain text, or the JSON of a list of rows or of one
      row. */
  datatype Body = Text(text: string) | HorseList(horses: seq<Horse>) | OneHorse(horse: Horse)

  /** Status, body, and whether the `Content-Type: application/json` header
      is set. */
  datatype Response = Response(status: int, body: Body, isJson: bool)

  const NotFound := Response(404, Text("Not Found"), false)
  const HorseNotFound := Response(404, Text("Horse not found"), false)
  const MethodNotAllowed := Response(405, Text("Method Not Allowed"), false)
  const InternalServerError := Response(500, Text("Internal Server Error"), false)

  /** The branch of the handler a request takes. */
  datatype Action = RejectPath | ListAll | FetchOne(segment: string) | Create | RejectMethod

  /** `path.startsWith("/horse")`: a prefix test only, so `/horses` and
      `/horsefly` pass it too. */
  predicate UnderHorse(path: string) {
    "/horse" <= path
  }

  /** The order of the tests at myapp/main.ts:43, 48, 56, 67 and 78. It
      does not depend on the table or on the body. */
  function Route(verb: string, path: string): (a: Action)
    ensures a == RejectPath <==> !UnderHorse(path)
    ensures a == ListAll <==> UnderHorse(path) && verb == "GET" && IdSegment(path).None?
    ensures a.FetchOne? <==> UnderHorse(path) && verb == "GET" && IdSegment(path).Some?
    ensures a.FetchOne? ==> IdSegment(path) == Some(a.segment)
    ensures a == Create <==> UnderHorse(path) && verb == "POST"
    ensures a == RejectMethod <==> UnderHorse(path) && verb != "GET" && verb != "POST"
  {
    if !UnderHorse(path) then RejectPath
    else if verb == "GET" then
      match IdSegment(path)
      case None => ListAll
      case Some(segment) => FetchOne(segment)
    else if verb == "POST" then Create
    else RejectMethod
  }

  /** GET with an id (myapp/main.ts:56-64): the row whose id the segment
      denotes, as JSON with 200, or 404 "Horse not found". */
  function FetchResponse(rows: seq<Horse>, segment: string): (r: Response)
    ensures r.status == 200 || r == HorseNotFound
    ensures r.status == 200 <==>
      ParseId(segment).Some? && exists k :: 0 <= k < |rows| && rows[k].id == ParseId(segment).value
    ensures r.status == 200 ==>
      r.isJson && r.body.OneHorse? && r.body.horse in rows && Some(r.body.horse.id) == ParseId(segment)
  {
    match ParseId(segment)
    case None => HorseNotFound
    case Some(key) =>
      match FindById(rows, key)
      case None => HorseNotFound
      case Some(horse) => Response(200, OneHorse(horse), true)
  }

  /** GET without an id (myapp/main.ts:48-53): every row as JSON; the
      status is 404 when there are none. */
  function ListResponse(rows: seq<Horse>): (r: Response)
    ensures r.isJson && r.body == HorseList(rows)
    ensures r.status == 200 <==> |rows| > 0
    ensures r.status == 404 <==> rows == []
  {
    Response(if |rows| > 0 then 200 else 404, HorseList(rows), true)
  }

  /** The row a successful POST adds, given the id it is assigned. */
  function NewRow(id: int, body: NewHorse): Horse {
    Horse(id, body.name, body.age, Permalink(body.name))
  }

  /** One request against the table, as the `serve` callback handles it. */
  method Handle(db: HorseTable, req: Request) returns (resp: Response)
    requires db.Valid()
    modifies db
    ensures db.Valid()
    // Only a POST under /horse can change the table.
    ensures !(UnderHorse(req.path) && req.verb == "POST") ==> unchanged(db)
    ensures !UnderHorse(req.path) ==> resp == NotFound
    ensures UnderHorse(req.path) && req.verb == "GET" && IdSegment(req.path).None? ==>
      resp == ListResponse(old(db.rows))
    ensures UnderHorse(req.path) && req.verb == "GET" && IdSegment(req.path).Some? ==>
      resp == FetchResponse(old(db.rows), IdSegment(req.path).value)
    ensures UnderHorse(req.path) && req.verb != "GET" && req.verb != "POST" ==>
      resp == MethodNotAllowed
    ensures UnderHorse(req.path) && req.verb == "POST" ==>
      if req.body.None? || old(db.nextId) > MaxRowId then
        resp == InternalServerError && unchanged(db)
      else
        var h := NewRow(old(db.nextId), req.body.value);
        && resp == Response(201, OneHorse(h), true)
        && db.rows == old(db.rows) + [h]
        && db.nextId == old(db.nextId) + 1
        && (forall k :: 0 <= k < |old(db.rows)| ==> old(db.rows)[k].id < h.id)
  {
    match Route(req.verb, req.path)
    case RejectPath =>
      resp := NotFound;
    case ListAll =>
      resp := ListResponse(db.rows);
    case FetchOne(segment) =>
      resp := FetchResponse(db.rows, segment);
    case RejectMethod =>
      resp := MethodNotAllowed;
    case Create =>
      match req.body
      case None =>
        // `await req.json()` or the destructuring threw.
        resp := InternalServerError;
      case Some(body) =>
        var ok := db.Insert(body.name, body.age);
        if !ok {
          resp := InternalServerError;
        } else {
          // SELECT * FROM horses WHERE rowid = last_insert_rowid()
          FindByIdAppend(old(db.rows), NewRow(db.lastRowId, body), db.lastRowId);
          var inserted := FindById(db.rows, db.lastRowId);
          resp := Response(201, OneHorse(inserted.value), true);
        }
  }

  // ---------------------------------------------------------------------
  // Properties across requests
  // ---------------------------------------------------------------------

  /** Only the prefix of the path is compared: any first piece that starts
      with `horse` (`/horses/5`, `/horsefly/5`) reaches the fetch branch,
      with the third piece as the id. */
  lemma {:induction false} RouteFetch(suffix: string, id: string)
    requires '/' !in suffix && '/' !in id && id != []
    ensures Route("GET", "/horse" + suffix + "/" + id) == FetchOne(id)
  {
    var first := "horse" + suffix;
    var path := "/horse" + suffix + "/" + id;
    assert path == "/" + first + "/" + id;
    assert '/' !in first by {
      assert forall i :: 0 <= i < |first| ==> first[i] in "horse" || first[i] in suffix;
    }
    IdSegmentPresent(first, id, "");
    assert path[..|"/horse"|] == "/horse";
  }

  /** `/horse` and `/horse/` (and likewise `/horses`) list the table, and
      any method other than GET and POST is refused there with 405 rather
      than 404. */
  lemma {:induction false} RouteList(suffix: string, verb: string)
    requires '/' !in suffix
    requires verb != "GET" && verb != "POST"
    ensures Route("GET", "/horse" + suffix) == ListAll
    ensures Route("GET", "/horse" + suffix + "/") == ListAll
    ensures Route(verb, "/horse" + suffix) == RejectMethod
  {
    var first := "horse" + suffix;
    assert '/' !in first by {
      assert forall i :: 0 <= i < |first| ==> first[i] in "horse" || first[i] in suffix;
    }
    IdSegmentAbsent(first, "");
    assert "/horse" + suffix == "/" + first;
    assert "/horse" + suffix + "/" == "/" + first + "/";
    assert ("/horse" + suffix)[..|"/horse"|] == "/horse";
    assert ("/horse" + suffix + "/")[..|"/horse"|] == "/horse";
  }

  /** After a successful insert, GET /horse/<new id> answers 200 with
      exactly the row that was inserted. */
  lemma {:induction false} FetchAfterInsert(rows: seq<Horse>, nextId: int, body: NewHorse)
    requires ValidRows(rows, nextId) && nextId <= MaxRowId
    ensures Route("GET", "/horse/" + DecimalString(nextId)) == FetchOne(DecimalString(nextId))
    ensures FetchResponse(rows + [NewRow(nextId, body)], DecimalString(nextId))
            == Response(200, OneHorse(NewRow(nextId, body)), true)
  {
    var segment := DecimalString(nextId);
    assert '/' !in segment by {
      assert forall i :: 0 <= i < |segment| ==> IsDigit(segment[i]);
    }
    RouteFetch("", segment);
    assert "/horse" + "" + "/" + segment == "/horse/" + segment;
    ParseDecimal(nextId);
    assert FindById(rows, nextId).None?;
    FindByIdAppend(rows, NewRow(nextId, body), nextId);
  }

  /** A POST followed by a GET of the id it returned gives back the same
      record. */
  method CreateThenFetch(db: HorseTable, name: string, age: int) returns (created: Response, fetched: Response)
    requires db.Valid() && db.nextId <= MaxRowId
    modifies db
    ensures db.Valid()
    ensures created.status == 201 && created.body.OneHorse?
    ensures created.body.horse.permalink == PermalinkHost + Slug.ToKebabCase(name)
    ensures fetched == Response(200, created.body, true)
  {
    created := Handle(db, Request("POST", "/horse", Some(NewHorse(name, age))));
    var id := created.body.horse.id;
    assert id >= 1;
    FetchAfterInsert(old(db.rows), old(db.nextId), NewHorse(name, age));
    fetched := Handle(db, Request("GET", "/horse/" + DecimalString(id), None));
  }
}
