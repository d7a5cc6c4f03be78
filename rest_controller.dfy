/** The document-creation endpoint that RestController registers on the
    gateway: method check, body, path variable, and the response each failure
    maps to. */
module Controller {
  import opened Constrains
  import opened JavaStrings
  import opened Window
  import opened Api

  /** The request body after JSON binding to a Document: bound, or unreadable
      (an I/O error or a Jackson failure, which createBody rethrows as
      IllegalArgumentException). */
  datatype Body = Document(data: string) | Malformed

  /** What the handler reads from an HttpExchange. */
  datatype Exchange = Exchange(requestMethod: string, path: string, body: Body)

  const SUCCESS_PREFIX: string := "You successfully create document with signature="
  const ID_SEPARATOR: string := ", id="

  /** createDocs: status 200 and a text naming the signature and the document
      id (a random UUID in the source, a parameter here). */
  function CreateDocs(signature: string, id: string): (r: HttpResponse)
    ensures r.status == 200
    ensures |r.data| == |SUCCESS_PREFIX| + |signature| + |ID_SEPARATOR| + |id|
    ensures r.data[..|SUCCESS_PREFIX|] == SUCCESS_PREFIX
    ensures r.data[|SUCCESS_PREFIX|..|SUCCESS_PREFIX| + |signature|] == signature
    ensures r.data[|SUCCESS_PREFIX| + |signature|..|SUCCESS_PREFIX| + |signature| + |ID_SEPARATOR|] == ID_SEPARATOR
    ensures r.data[|r.data| - |id|..] == id
  {
    var d := SUCCESS_PREFIX + signature + ID_SEPARATOR + id;
    assert d[|SUCCESS_PREFIX|..|SUCCESS_PREFIX| + |signature|] == signature;
    assert d[|SUCCESS_PREFIX| + |signature|..|SUCCESS_PREFIX| + |signature| + |ID_SEPARATOR|] == ID_SEPARATOR;
    HttpResponse(200, d)
  }

  /** For ids of one length (UUIDs are always 36 characters), the response text
      determines the signature. */
  lemma CreateDocsInjective(s1: string, s2: string, id1: string, id2: string)
    requires |id1| == |id2|
    requires CreateDocs(s1, id1) == CreateDocs(s2, id2)
    ensures s1 == s2 && id1 == id2
  {
    var d := CreateDocs(s1, id1).data;
    assert |s1| == |s2|;
    assert s1 == d[|SUCCESS_PREFIX|..|SUCCESS_PREFIX| + |s1|];
    assert s2 == d[|SUCCESS_PREFIX|..|SUCCESS_PREFIX| + |s2|];
  }

  /** The handler addControllerCreateDocs registers for `route`: anything but
      POST is not found; for a POST the body is bound first and the path
      variable read second, an IllegalArgumentException from either answers
      400, any other exception (the index errors of getPathVariable) 500. */
  function HandleCreateDocs(route: string, ex: Exchange, id: string): (r: HttpResponse)
    requires route != []
    ensures r.status == 404 <==> ex.requestMethod != "POST"
    ensures r.status == 400 <==> ex.requestMethod == "POST"
                                 && (ex.body.Malformed? || GetPathVariable(ex.path, route) == Err(BadRequest))
    ensures r.status == 500 <==> ex.requestMethod == "POST" && ex.body.Document?
                                 && GetPathVariable(ex.path, route) == Err(Unexpected)
    ensures r.status == 200 <==> ex.requestMethod == "POST" && ex.body.Document?
                                 && GetPathVariable(ex.path, route).Ok?
    ensures r.status == 200 ==> r == CreateDocs(GetPathVariable(ex.path, route).value, id)
    ensures r.status != 200 ==> r == NOT_FOUND_RESPONSE || r == BAD_REQUEST_RESPONSE || r == FAIL_RESPONSE
  {
    if ex.requestMethod != "POST" then NOT_FOUND_RESPONSE
    else if ex.body.Malformed? then BAD_REQUEST_RESPONSE
    else
      match GetPathVariable(ex.path, route)
      case Ok(sign) => CreateDocs(sign, id)
      case Err(BadRequest) => BAD_REQUEST_RESPONSE
      case Err(Unexpected) => FAIL_RESPONSE
  }

  /** The handler never answers 502, so on the wire 502 means rejected by the
      rate limiter. */
  lemma HandlerNever502(route: string, ex: Exchange, id: string)
    requires route != []
    ensures HandleCreateDocs(route, ex, id).status != 502
  {
  }

  /** "/" + s holds no occurrence of the create route when s holds no '/':
      the route has a second '/' at index 4. */
  lemma SegmentWithoutSlashIsRouteFree(s: string)
    requires '/' !in s
    ensures Absent(['/'] + s, CREATE_DOCS_PATH)
  {
    var t := ['/'] + s;
    forall k | 0 <= k <= |t| - |CREATE_DOCS_PATH| ensures !OccursAt(t, CREATE_DOCS_PATH, k) {
      assert t[k + 4] == s[k + 3];
    }
  }

  /** A POST with a bound body to the create route followed by one segment
      holding neither '/' nor '?' creates the document with that segment as
      its signature. */
  lemma CreatesWithSegment(s: string, data: string, id: string)
    requires '/' !in s && '?' !in s
    ensures HandleCreateDocs(CREATE_DOCS_PATH, Exchange("POST", CREATE_DOCS_PATH + ['/'] + s, Document(data)), id)
            == CreateDocs(s, id)
  {
    SegmentWithoutSlashIsRouteFree(s);
    PathVariableOfRoute(CREATE_DOCS_PATH, s);
  }

  /** A segment holding '?' (and no '/') is a bad request. */
  lemma QueryInSegmentIsBadRequest(s: string, body: Body, id: string)
    requires '/' !in s && '?' in s
    ensures HandleCreateDocs(CREATE_DOCS_PATH, Exchange("POST", CREATE_DOCS_PATH + ['/'] + s, body), id)
            == BAD_REQUEST_RESPONSE
  {
    SegmentWithoutSlashIsRouteFree(s);
    PathVariableOfRoute(CREATE_DOCS_PATH, s);
  }

  /** A POST to the bare route has no path variable: 500, unless the body was
      already rejected. */
  lemma BareRouteFails(body: Body, id: string)
    ensures HandleCreateDocs(CREATE_DOCS_PATH, Exchange("POST", CREATE_DOCS_PATH, body), id)
            == if body.Malformed? then BAD_REQUEST_RESPONSE else FAIL_RESPONSE
  {
    PathVariableOfBareRoute(CREATE_DOCS_PATH);
  }

  /** One request to the create endpoint through the gateway. The timestamp is
      recorded on every admission, whatever the handler then answers; the
      answer is 502 exactly when the request is turned away. */
  method ServeCreateDocs(api: CrptApi, now: int, stamp: int, ex: Exchange, id: string) returns (res: HttpResponse)
    requires api.Valid()
    modifies api
    ensures api.Valid()
    ensures api.requests == Step(old(api.requests), now, stamp, api.window, api.limit).queue
    ensures res == if Step(old(api.requests), now, stamp, api.window, api.limit).admitted
                   then HandleCreateDocs(CREATE_DOCS_PATH, ex, id) else MAX_LIMIT_REJECTION
    ensures res.status == 502 <==> !Step(old(api.requests), now, stamp, api.window, api.limit).admitted
  {
    res := api.Dispatch(now, stamp, ex, e => HandleCreateDocs(CREATE_DOCS_PATH, e, id));
    HandlerNever502(CREATE_DOCS_PATH, ex, id);
  }

  /** The configured gateway (one request per second) serving three creation
      requests at 0, 1000 and 1001 ms: the first is created, the second (its
      predecessor exactly one window old) is turned away, the third admitted. */
  method BoundaryScenario(id: string) returns (first: HttpResponse, second: HttpResponse, third: HttpResponse)
    ensures first == CreateDocs("abc123", id)
    ensures second == MAX_LIMIT_REJECTION
    ensures third == CreateDocs("abc123", id)
  {
    var api := new CrptApi(SECONDS_WINDOW_MILLIS, REQUEST_LIMIT);
    var ex := Exchange("POST", CREATE_DOCS_PATH + ['/'] + "abc123", Document("{}"));
    CreatesWithSegment("abc123", "{}", id);
    BoundaryExample();
    first := ServeCreateDocs(api, 0, 0, ex, id);
    assert api.requests == [0];
    second := ServeCreateDocs(api, 1000, 1000, ex, id);
    assert api.requests == [0];
    third := ServeCreateDocs(api, 1001, 1001, ex, id);
  }
}
