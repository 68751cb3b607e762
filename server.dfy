/**
 * The request closure Config::init hands to the HTTP server: an API-key
 * gate, then the two handlers on /api/weather_reports, and a plain-text
 * greeting for everything else. The random oid (15 alphanumeric
 * characters, as rand's Alphanumeric draws them), the clock and the
 * database's faults come in as parameters.
 */
module Server {
  import opened Wrappers
  import opened Reports
  import opened Storage

  const ReportsPath := "/api/weather_reports"
  const Greeting := "hello world"

  /**
   * What the handler reads of a request: the Authorization header, the url,
   * the method (verb), and the POST form as parsed (None when parsing failed).
   */
  datatype Request<V> = Request(
    authorization: Option<string>,
    url: string,
    verb: string,
    body: Option<Form<V>>)

  datatype Response<V> =
    | NotFound                      // Response::empty_404()
    | BadRequest                    // try_or_400! on a form that does not parse
    | Json(report: WeatherReport<V>)
    | NoData                        // GET on an empty table
    | Text(text: string)

  /** Which branch of the closure a request takes. */
  datatype Route = Denied | Ingest | Retrieve | Fallback

  /** The header is present and equal, character for character, to the key. */
  predicate Authorized<V>(req: Request<V>, apikey: string) {
    req.authorization == Some(apikey)
  }

  /**
   * The branch taken: the key is checked before the url and the method are
   * looked at, so every request without the right key is denied, whatever
   * it asks for.
   */
  function Dispatch<V>(req: Request<V>, apikey: string): (route: Route)
    ensures route == Denied <==> !Authorized(req, apikey)
    ensures route == Ingest <==> Authorized(req, apikey) && req.url == ReportsPath && req.verb == "POST"
    ensures route == Retrieve <==> Authorized(req, apikey) && req.url == ReportsPath && req.verb == "GET"
  {
    if req.authorization.None? then Denied
    else if req.authorization.value != apikey then Denied
    else if req.url == ReportsPath then
      if req.verb == "POST" then Ingest
      else if req.verb == "GET" then Retrieve
      else Fallback
    else Fallback
  }

  /** Two requests that fail the key check take the same branch, whatever their url, method and body. */
  lemma DeniedLooksAlike<V>(a: Request<V>, b: Request<V>, apikey: string)
    requires !Authorized(a, apikey) && !Authorized(b, apikey)
    ensures Dispatch(a, apikey) == Dispatch(b, apikey) == Denied
  {
  }

  /**
   * One request. A denied request gets 404 and leaves the table alone. A
   * POST builds a new report from the form, saves it and echoes it whatever
   * the save returned; a form that does not parse gets 400 and saves
   * nothing. A GET leaves the table alone and returns a row of greatest
   * timestamp, or NoData on an empty table. Anything else gets the greeting.
   */
  method Serve<V>(apikey: string, req: Request<V>, table: ReportTable<V>,
                  oid: string, now: int, fault: Fault) returns (resp: Response<V>)
    requires table.Valid()
    requires GeneratedOid(oid)
    modifies table
    ensures table.Valid()
    ensures Dispatch(req, apikey) == Denied ==> resp == NotFound && unchanged(table)
    ensures Dispatch(req, apikey) == Ingest && req.body.None? ==> resp == BadRequest && unchanged(table)
    ensures Dispatch(req, apikey) == Ingest && req.body.Some? ==>
              var report := FromForm(req.body.value, oid, now);
              && resp == Json(report)
              && table.Snapshot() == Upsert(old(table.Snapshot()), report, fault).table
    ensures Dispatch(req, apikey) == Retrieve ==>
              && unchanged(table)
              && (table.rows == [] ==> resp == NoData)
              && (table.rows != [] ==> resp.Json? && IsLatest(table.rows, resp.report))
    ensures Dispatch(req, apikey) == Fallback ==> resp == Text(Greeting) && unchanged(table)
  {
    if req.authorization.None? {
      return NotFound;
    } else if req.authorization.value != apikey {
      return NotFound;
    }
    if req.url == ReportsPath {
      if req.verb == "POST" {
        if req.body.None? {
          return BadRequest;
        }
        var report := FromForm(req.body.value, oid, now);
        var _ := table.Save(report, fault);
        return Json(report);
      }
      if req.verb == "GET" {
        var latest := table.SelectLatest();
        if latest.None? {
          return NoData;
        }
        return Json(latest.value);
      }
    }
    return Text(Greeting);
  }
}
