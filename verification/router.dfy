/**
  httpd_router: the route table is scanned in order up to its first entry
  with method HttpNone. Every entry whose method is HttpAny or the request's,
  and whose pattern is the URI or ends in '*' with the part before the '*' a
  prefix of the URI, has its handler called; the first handler that returns
  true ends the scan. A scan that reaches the terminator sends a 404.
*/
module Router {
  import opened Wrappers
  import opened CStrings
  import opened HttpdTypes
  import opened Response
  import opened FileStream
  import Params

  /**
    A handler leaves a URI on the request: when it returns false the router
    compares that URI with the next entries.
  */
  ghost predicate AppOk(f: (nat, Option<string>, HttpRequest) -> (bool, HttpRequest, seq<string>)) {
    forall id: nat, arg: Option<string>, req: HttpRequest :: req.uri.Some? ==> f(id, arg, req).1.uri.Some?
  }

  /**
    The application's handlers, given as a parameter: for a handler number,
    the route's argument and the request, whether it took the request, the
    request as the handler left it (handlers get the slot by reference, and
    may parse its parameters or rewrite its URI) and the bytes it sent.
  */
  type App = f: (nat, Option<string>, HttpRequest) -> (bool, HttpRequest, seq<string>) | AppOk(f)
    witness (id: nat, arg: Option<string>, req: HttpRequest) => (false, req, [])

  /** The route scan: its request afterwards, the bytes sent, and whether it ended in the built-in 404. */
  datatype Outcome = Outcome(req: HttpRequest, sent: seq<string>, notFound: bool)

  /** The built-in answer of a scan that finds no handler: httpd_send(pEspconn, 404). */
  function NotFoundResponse(): string {
    SendBytes(404, None, 0)
  }

  /**
    A table the scan can walk: its last entry is a terminator within the
    reach of the int8_t scan index (at most index 127), and every other
    entry has a non-empty pattern (the wildcard test reads the pattern's
    last byte).
  */
  predicate TableOk(routes: seq<HttpRoute>) {
    0 < |routes| <= 128 && routes[|routes| - 1].httpMethod == HttpNone &&
    forall j :: 0 <= j < |routes| && routes[j].httpMethod != HttpNone ==> routes[j].uri != []
  }

  /** The URI test: strcmp equality, or a trailing '*' and strncmp equality of everything before it. */
  predicate UriMatches(pattern: string, uri: string)
    requires pattern != []
  {
    pattern == uri || (pattern[|pattern| - 1] == '*' && pattern[..|pattern| - 1] <= uri)
  }

  /** The method test: HttpAny matches every request. */
  predicate MethodMatches(routeMethod: HttpMethod, m: HttpMethod) {
    routeMethod == HttpAny || routeMethod == m
  }

  predicate Matches(rt: HttpRoute, req: HttpRequest)
    requires rt.uri != [] && req.uri.Some?
  {
    MethodMatches(rt.httpMethod, req.httpMethod) && UriMatches(rt.uri, req.uri.value)
  }

  /** A route's handler on the request: the file handler, or an application handler. */
  function Handle(rt: HttpRoute, req: HttpRequest, fs: Storage, app: App): (r: Handled)
    requires req.uri.Some? && StorageOk(fs)
    ensures r.req.uri.Some? && SendingOk(r.req)
  {
    match rt.handler
    case FileHandler => FileStep(req, rt.handlerArg, fs)
    case Responder(id) =>
      var (ok, after, sent) := app(id, rt.handlerArg, req);
      Handled(ok, after, sent)
  }

  /**
    The scan from entry j: the first matching entry whose handler returns
    true ends it; a handler that returns false passes the request on as it
    left it; the terminator sends the 404.
  */
  function Dispatch(routes: seq<HttpRoute>, j: nat, req: HttpRequest, fs: Storage, app: App): (r: Outcome)
    requires TableOk(routes) && j < |routes| && req.uri.Some? && StorageOk(fs)
    ensures r.req.uri.Some?
    decreases |routes| - j
  {
    var rt := routes[j];
    if rt.httpMethod == HttpNone then Outcome(req, [NotFoundResponse()], true)
    else if Matches(rt, req) then
      var h := Handle(rt, req, fs, app);
      if h.ok then Outcome(h.req, h.sent, false)
      else
        var rest := Dispatch(routes, j + 1, h.req, fs, app);
        Outcome(rest.req, h.sent + rest.sent, rest.notFound)
    else Dispatch(routes, j + 1, req, fs, app)
  }

  /** Bytes already sent, in front of the rest of a scan. */
  function After(sent: seq<string>, o: Outcome): Outcome {
    o.(sent := sent + o.sent)
  }

  /** The scanning loop of httpd_router, with the 404 after it. */
  method RouteRequest(routes: seq<HttpRoute>, req0: HttpRequest, fs: Storage, app: App)
    returns (req: HttpRequest, sent: seq<string>, notFound: bool)
    requires TableOk(routes) && req0.uri.Some? && StorageOk(fs)
    ensures Outcome(req, sent, notFound) == Dispatch(routes, 0, req0, fs, app)
  {
    req, sent := req0, [];
    var i := 0;
    while routes[i].httpMethod != HttpNone
      invariant i < |routes| && req.uri.Some?
      invariant Dispatch(routes, 0, req0, fs, app) == After(sent, Dispatch(routes, i, req, fs, app))
      decreases |routes| - i
    {
      var rt := routes[i];
      DispatchStep(routes, i, req, fs, app);
      if MethodMatches(rt.httpMethod, req.httpMethod) && UriMatches(rt.uri, req.uri.value) {
        var h := Handle(rt, req, fs, app);
        if h.ok {
          req, sent := h.req, sent + h.sent;
          break;
        }
        AfterAfter(sent, h.sent, Dispatch(routes, i + 1, h.req, fs, app));
        req, sent := h.req, sent + h.sent;
      }
      i := i + 1;
    }
    notFound := routes[i].httpMethod == HttpNone;
    if notFound {
      sent := sent + [NotFoundResponse()];
    }
  }

  /** One entry of the scan, with the rest of the scan after it. */
  lemma DispatchStep(routes: seq<HttpRoute>, j: nat, req: HttpRequest, fs: Storage, app: App)
    requires TableOk(routes) && j < |routes| && req.uri.Some? && StorageOk(fs)
    requires routes[j].httpMethod != HttpNone
    ensures !Matches(routes[j], req) ==> Dispatch(routes, j, req, fs, app) == Dispatch(routes, j + 1, req, fs, app)
    ensures Matches(routes[j], req) ==>
      var h := Handle(routes[j], req, fs, app);
      Dispatch(routes, j, req, fs, app)
        == if h.ok then Outcome(h.req, h.sent, false) else After(h.sent, Dispatch(routes, j + 1, h.req, fs, app))
  {
  }

  lemma AfterAfter(a: seq<string>, b: seq<string>, o: Outcome)
    ensures After(a, After(b, o)) == After(a + b, o)
  {
    Assoc(a, b, o.sent);
  }

  // ---------------------------------------------------------------- properties

  /** The last bytes sent are the 404. */
  predicate EndsNotFound(sent: seq<string>) {
    sent != [] && sent[|sent| - 1] == NotFoundResponse()
  }

  lemma EndsNotFoundAfter(a: seq<string>, b: seq<string>)
    requires EndsNotFound(b)
    ensures EndsNotFound(a + b)
  {
    assert (a + b)[|a + b| - 1] == b[|b| - 1];
  }

  /** A scan that ends in the 404 sends it last. */
  lemma {:induction false} NotFoundLast(routes: seq<HttpRoute>, j: nat, req: HttpRequest, fs: Storage, app: App)
    requires TableOk(routes) && j < |routes| && req.uri.Some? && StorageOk(fs)
    ensures Dispatch(routes, j, req, fs, app).notFound ==> EndsNotFound(Dispatch(routes, j, req, fs, app).sent)
    decreases |routes| - j
  {
    var rt := routes[j];
    if rt.httpMethod != HttpNone {
      DispatchStep(routes, j, req, fs, app);
      if !Matches(rt, req) {
        NotFoundLast(routes, j + 1, req, fs, app);
      } else {
        var h := Handle(rt, req, fs, app);
        if !h.ok {
          var rest := Dispatch(routes, j + 1, h.req, fs, app);
          NotFoundLast(routes, j + 1, h.req, fs, app);
          if rest.notFound {
            EndsNotFoundAfter(h.sent, rest.sent);
          }
        }
      }
    }
  }

  /** Entries j to k-1 are neither terminators nor matches for the request. */
  predicate Skips(routes: seq<HttpRoute>, j: nat, k: nat, req: HttpRequest)
    requires TableOk(routes) && req.uri.Some?
  {
    j <= k < |routes| &&
    forall l :: j <= l < k ==> routes[l].httpMethod != HttpNone && !Matches(routes[l], req)
  }

  /** Entries that do not match are passed over without a call. */
  lemma {:induction false} DispatchSkips(routes: seq<HttpRoute>, j: nat, k: nat, req: HttpRequest, fs: Storage, app: App)
    requires TableOk(routes) && req.uri.Some? && StorageOk(fs)
    requires Skips(routes, j, k, req)
    ensures Dispatch(routes, j, req, fs, app) == Dispatch(routes, k, req, fs, app)
    decreases k - j
  {
    if j < k {
      assert routes[j].httpMethod != HttpNone && !Matches(routes[j], req);
      DispatchSkips(routes, j + 1, k, req, fs, app);
    }
  }

  /**
    The first matching entry decides: when its handler returns true, only
    that handler ran and no 404 is sent; when the terminator comes first,
    the request is untouched and the only bytes sent are the 404.
  */
  lemma FirstMatchWins(routes: seq<HttpRoute>, k: nat, req: HttpRequest, fs: Storage, app: App)
    requires TableOk(routes) && req.uri.Some? && StorageOk(fs)
    requires Skips(routes, 0, k, req)
    ensures routes[k].httpMethod == HttpNone ==>
      Dispatch(routes, 0, req, fs, app) == Outcome(req, [NotFoundResponse()], true)
    ensures routes[k].httpMethod != HttpNone && Matches(routes[k], req) && Handle(routes[k], req, fs, app).ok ==>
      var h := Handle(routes[k], req, fs, app);
      Dispatch(routes, 0, req, fs, app) == Outcome(h.req, h.sent, false)
  {
    DispatchSkips(routes, 0, k, req, fs, app);
  }

  /** A pattern "stem*" matches exactly the URIs that start with stem. */
  lemma WildcardIsPrefix(stem: string, uri: string)
    ensures UriMatches(stem + "*", uri) <==> stem <= uri
  {
    var p := stem + "*";
    assert p[..|p| - 1] == stem;
    if p == uri {
      assert uri[..|stem|] == stem;
    }
  }

  /** A pattern not ending in '*' matches only the identical URI. */
  lemma LiteralIsEquality(pattern: string, uri: string)
    requires pattern != [] && pattern[|pattern| - 1] != '*'
    ensures UriMatches(pattern, uri) <==> pattern == uri
  {
  }

  /**
    Two patterns of the demonstration table: the literal "/static" matches
    "/static" only, and "/test?*" matches every URI with a query after
    "/test" but not "/test" itself.
  */
  lemma TestPatterns()
    ensures UriMatches("/static", "/static")
    ensures !UriMatches("/static", "/static/x")
    ensures UriMatches("/test?*", "/test?a=1")
    ensures UriMatches("/test?*", "/test?")
    ensures !UriMatches("/test?*", "/test")
  {
    LiteralIsEquality("/static", "/static");
    LiteralIsEquality("/static", "/static/x");
    assert "/test?*" == "/test?" + "*";
    WildcardIsPrefix("/test?", "/test?a=1");
    WildcardIsPrefix("/test?", "/test?");
    WildcardIsPrefix("/test?", "/test");
  }

  /**
    The route table of the demonstration program: application handlers 0 to
    4 (the directory listing handler among them), the file handler for
    every other GET, and the terminator.
  */
  const TestRoutes: seq<HttpRoute> := [
    HttpRoute(HttpGet, "/favicon.ico", Responder(0), None),
    HttpRoute(HttpAny, "/static", Responder(1), None),
    HttpRoute(HttpGet, "/test?*", Responder(2), None),
    HttpRoute(HttpPost, "/test", Responder(3), None),
    HttpRoute(HttpGet, "/", Responder(4), None),
    HttpRoute(HttpGet, "*", FileHandler, None),
    HttpRoute(HttpNone, "", Responder(5), None)]

  /** In the demonstration table a POST to a URI no entry names is answered with the 404, whatever the handlers do. */
  lemma TestPostElsewhere(req: HttpRequest, fs: Storage, app: App)
    requires StorageOk(fs) && req.httpMethod == HttpPost && req.uri == Some("/other")
    ensures Dispatch(TestRoutes, 0, req, fs, app) == Outcome(req, [NotFoundResponse()], true)
  {
    TestTableOk();
    assert !UriMatches("/static", "/other") && !UriMatches("/test", "/other") by {
      assert "/static"[1] != "/other"[1];
      assert "/test"[1] != "/other"[1];
    }
    forall l | 0 <= l < 6
      ensures TestRoutes[l].httpMethod != HttpNone && !Matches(TestRoutes[l], req)
    {
    }
    assert Skips(TestRoutes, 0, 6, req);
    FirstMatchWins(TestRoutes, 6, req, fs, app);
  }

  /**
    In the demonstration table a GET of "/test?a=1" reaches the third entry,
    whose handler (cgiGet) parses the query and answers: the slot the router
    leaves has its URI cut at the '?' and holds the parameter a=1.
  */
  lemma TestGetQuery(req: HttpRequest, fs: Storage, app: App, sent: seq<string>)
    requires StorageOk(fs) && req.httpMethod == HttpGet && req.uri == Some("/test?a=1")
    requires app(2, None, req) == (true, Params.ParamsStep(req, HttpQuery), sent)
    ensures TableOk(TestRoutes) && Dispatch(TestRoutes, 0, req, fs, app)
      == Outcome(req.(uri := Some("/test"), args := [Arg("a", "1")]), sent, false)
  {
    TestQueryRoute(req);
    FirstMatchWins(TestRoutes, 2, req, fs, app);
    TestQuery(req);
  }

  /** "/test?a=1" passes over the first two entries of the demonstration table and matches the third. */
  lemma TestQueryRoute(req: HttpRequest)
    requires req.httpMethod == HttpGet && req.uri == Some("/test?a=1")
    ensures TableOk(TestRoutes) && Skips(TestRoutes, 0, 2, req) && Matches(TestRoutes[2], req)
  {
    TestTableOk();
    TestPatterns();
    assert TestRoutes[0].uri[1] != "/test?a=1"[1];
    assert TestRoutes[1].uri[1] != "/test?a=1"[1];
  }

  /** cgiGet's parse of "/test?a=1": the URI is cut to "/test" and the one parameter is a=1. */
  lemma TestQuery(req: HttpRequest)
    requires req.httpMethod == HttpGet && req.uri == Some("/test?a=1")
    ensures Params.ParamsStep(req, HttpQuery) == req.(uri := Some("/test"), args := [Arg("a", "1")])
  {
    assert "/test?a=1" == "/test" + "?" + "a=1";
    Params.QueryParams(req, "/test", "a=1");
    Params.OneParam();
  }

  lemma TestTableOk()
    ensures TableOk(TestRoutes)
  {
  }

  /**
    A GET of a file the storage lacks reaches the catch-all file handler,
    which declines, and the scan ends in the 404.
  */
  lemma TestMissingFile(req: HttpRequest, fs: Storage, app: App)
    requires StorageOk(fs) && req.httpMethod == HttpGet && req.uri == Some("/x.htm")
    requires "/x.htm" !in fs
    ensures Dispatch(TestRoutes, 0, req, fs, app) == Outcome(req, [NotFoundResponse()], true)
  {
    TestTableOk();
    TestPatternsMiss();
    assert Skips(TestRoutes, 0, 5, req);
    DispatchSkips(TestRoutes, 0, 5, req, fs, app);
    MissingAtCatchAll(req, fs, app);
  }

  lemma MissingAtCatchAll(req: HttpRequest, fs: Storage, app: App)
    requires StorageOk(fs) && req.httpMethod == HttpGet && req.uri == Some("/x.htm")
    requires "/x.htm" !in fs && TableOk(TestRoutes) && UriMatches(TestRoutes[5].uri, "/x.htm")
    ensures Dispatch(TestRoutes, 5, req, fs, app) == Outcome(req, [NotFoundResponse()], true)
  {
    assert FilePath(req, None) == "/x.htm";
    assert Handle(TestRoutes[5], req, fs, app) == Handled(false, req, []);
    DispatchStep(TestRoutes, 5, req, fs, app);
    assert Dispatch(TestRoutes, 6, req, fs, app) == Outcome(req, [NotFoundResponse()], true);
  }

  /** Of the demonstration patterns, only the catch-all matches "/x.htm". */
  lemma TestPatternsMiss()
    ensures forall j :: 0 <= j < 5 ==> !UriMatches(TestRoutes[j].uri, "/x.htm")
    ensures UriMatches(TestRoutes[5].uri, "/x.htm")
  {
    assert !UriMatches("/test?*", "/x.htm") by {
      assert "/test?*" == "/test?" + "*";
      assert "/test?"[1] != "/x.htm"[1];
      WildcardIsPrefix("/test?", "/x.htm");
    }
    assert "*" == "" + "*";
    WildcardIsPrefix("", "/x.htm");
  }
}
