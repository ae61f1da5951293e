/**
 * The worker's `fetch` handler (src/index.ts:80-131) as a pure decision on the
 * request verb and the URL's pathname. The first matching branch answers.
 */
module Router {
  import opened Wrappers
  import opened Strings
  import opened AasaBuilder

  /** The branch of the handler that answers a request. */
  datatype Route = Preflight | AasaDocument | Health | ServiceInfo

  const WellKnownAasaPath: string := "/.well-known/apple-app-site-association"
  const RootAasaPath: string := "/apple-app-site-association"
  const HealthPath: string := "/api/health"

  /** The two locations Apple fetches the association file from. Both end
      in the file's name, and neither is the health path. */
  predicate IsAasaPath(path: string): (b: bool)
    ensures b ==> EndsWith(path, RootAasaPath)
    ensures b ==> path != HealthPath
  {
    path == WellKnownAasaPath || path == RootAasaPath
  }

  /** Which branch answers `verb path`. Each route is characterised on its
      own: an earlier branch shadows a later one, so `OPTIONS` wins on every
      path, and the health path answers any verb except `OPTIONS`. */
  function Dispatch(verb: string, path: string): (r: Route)
    ensures r == Preflight <==> verb == "OPTIONS"
    ensures r == AasaDocument <==> verb == "GET" && IsAasaPath(path)
    ensures r == Health <==> verb != "OPTIONS" && path == HealthPath
    ensures r == ServiceInfo <==>
              verb != "OPTIONS" && !(verb == "GET" && IsAasaPath(path)) && path != HealthPath
  {
    if verb == "OPTIONS" then Preflight
    else if verb == "GET" && IsAasaPath(path) then AasaDocument
    else if path == HealthPath then Health
    else ServiceInfo
  }

  /** The response body before `JSON.stringify`. */
  datatype Body =
    | NoBody
    | AasaBody(doc: Aasa)
    | HealthBody(status: string, timestamp: string, aasa: string)
    | ServiceBody(service: string, endpoints: seq<(string, string)>)

  datatype Response = Response(status: int, body: Body)

  /** The endpoints the default response advertises, each with its description. */
  const Endpoints: seq<(string, string)> := [
    (WellKnownAasaPath, "AASA"),
    (RootAasaPath, "AASA (alt)"),
    (HealthPath, "health check")
  ]

  /** The response to `verb path`, with the environment `env` and the
      current time `now` (already rendered as an ISO-8601 string). */
  function Handle(verb: string, path: string, env: Env, now: string): (resp: Response)
    ensures resp.status == 200 || resp.status == 204
    ensures resp.status == 204 <==> verb == "OPTIONS"
    ensures resp.body == NoBody <==> verb == "OPTIONS"
    ensures resp.body.AasaBody? <==> verb == "GET" && IsAasaPath(path)
    ensures resp.body.AasaBody? ==> resp == Response(200, AasaBody(Build(env)))
    ensures resp.body.HealthBody? <==> verb != "OPTIONS" && path == HealthPath
    ensures resp.body.HealthBody? ==>
              resp.body.status == "healthy" && resp.body.aasa == "enabled" && resp.body.timestamp == now
    ensures resp.body.ServiceBody? <==> Dispatch(verb, path) == ServiceInfo
    ensures resp.body.ServiceBody? ==> resp == Response(200, ServiceBody("OpenMesh API", Endpoints))
  {
    match Dispatch(verb, path)
    case Preflight => Response(204, NoBody)
    case AasaDocument => Response(200, AasaBody(Build(env)))
    case Health => Response(200, HealthBody("healthy", now, "enabled"))
    case ServiceInfo => Response(200, ServiceBody("OpenMesh API", Endpoints))
  }

  /** The association file is served only to `GET`: any other verb except
      `OPTIONS` falls through to the default description, still with 200. */
  lemma NonGetAasaIsServiceInfo(verb: string, path: string, env: Env, now: string)
    requires IsAasaPath(path) && verb != "GET" && verb != "OPTIONS"
    ensures Dispatch(verb, path) == ServiceInfo
    ensures Handle(verb, path, env, now) == Response(200, ServiceBody("OpenMesh API", Endpoints))
  {
  }

  /** Every endpoint the default response advertises is answered by its own
      branch for `GET`, not by the default. */
  lemma AdvertisedEndpointsRouted(i: int)
    requires 0 <= i < |Endpoints|
    ensures Dispatch("GET", Endpoints[i].0) != ServiceInfo
  {
  }

  /** A `GET` of the association file returns the document whose single
      `details` entry carries the configured app identifier. */
  lemma AasaResponseDocument(path: string, env: Env, now: string)
    requires IsAasaPath(path)
    ensures var resp := Handle("GET", path, env, now);
            && resp.status == 200
            && resp.body.AasaBody?
            && resp.body.doc.applinks.apps == []
            && resp.body.doc.applinks.details[0].appID == AppId(env)
            && resp.body.doc.webcredentials.apps == [AppId(env)]
  {
  }

  /** With no environment bindings, `GET /.well-known/apple-app-site-association`
      serves the default app identifier and the "/callback" paths. */
  lemma DefaultAasaResponse(now: string)
    ensures var resp := Handle("GET", WellKnownAasaPath, Env(None, None, None), now);
            && resp.status == 200
            && resp.body.AasaBody?
            && resp.body.doc.applinks.details[0].appID == DefaultTeamId + "." + DefaultBundleId
            && resp.body.doc.applinks.details[0].paths == ["/callback", "/callback*", "/callback/*"]
  {
    var env := Env(None, None, None);
    DefaultAppId(env);
    DefaultDocumentPaths(env);
  }
}
