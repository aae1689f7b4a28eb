/**
  The `/case-search` endpoint: `fetch_case`'s outcome for a given browser
  session, and the status and body `case_search` answers with.
*/
module CaseSearch {
  import opened Wrappers
  import opened CaseTable

  /** How the browser session on the court's site ends. Everything that leads
      there (navigation, form filling, the captcha copy, the click, the waits)
      is outside the model. */
  datatype PageOutcome =
    | CaptchaMissing                        // the captcha text did not appear within 5 s
    | TableNotLoaded                        // the results table did not fill within 15 s
    | TableLoaded(rows: seq<seq<string>>)   // the cell texts of each results-table row
    | BrowserFailure                        // any other exception the browser raised

  /** What `fetch_case` hands back to its caller: an error dictionary, the list
      of records, or an exception it let through. */
  datatype FetchOutcome =
    | ErrorDict(error: string)
    | CaseList(records: seq<CaseRecord>)
    | Raised

  const CaptchaError := "Captcha not found on page."
  const TableError := "Case table did not load in time."

  /** The outcome of `fetch_case` for a browser session that ends in `page`:
      a list exactly when the table loaded, and otherwise one of the two
      error dictionaries or an exception. */
  function FetchResult(page: PageOutcome): (r: FetchOutcome)
    ensures r.CaseList? <==> page.TableLoaded?
    ensures r.ErrorDict? ==> r.error == CaptchaError || r.error == TableError
  {
    match page
    case CaptchaMissing => ErrorDict(CaptchaError)
    case TableNotLoaded => ErrorDict(TableError)
    case TableLoaded(rows) => CaseList(ParseRows(rows))
    case BrowserFailure => Raised
  }

  /** `fetch_case` after the browser work: the two timeouts become error
      dictionaries, any other browser exception propagates, and a loaded table
      is run through the row loop. This is the same dispatch as `FetchResult`,
      written as a method so that the loaded table goes through the loop of
      `ParseTable` rather than its specification. */
  method FetchCase(page: PageOutcome) returns (outcome: FetchOutcome)
    ensures outcome == FetchResult(page)
  {
    match page {
      case CaptchaMissing =>
        outcome := ErrorDict(CaptchaError);
      case TableNotLoaded =>
        outcome := ErrorDict(TableError);
      case TableLoaded(rows) =>
        var caseData := ParseTable(rows);
        outcome := CaseList(caseData);
      case BrowserFailure =>
        outcome := Raised;
    }
  }

  /** The three request fields, each absent or a string. */
  datatype Request = Request(caseType: Option<string>, caseNumber: Option<string>, year: Option<string>)

  /** Python falsiness of a field: absent or the empty string. */
  predicate Falsy(v: Option<string>) {
    v.None? || v.value == ""
  }

  predicate MissingParameter(req: Request) {
    Falsy(req.caseType) || Falsy(req.caseNumber) || Falsy(req.year)
  }

  datatype Body = ErrorBody(error: string) | CaseDetails(caseDetails: seq<CaseRecord>)
  datatype Response = Response(status: nat, body: Body)

  const MissingMessage := "Missing parameters"
  const NotFoundMessage := "Data not found"

  /** The status decision of `case_search`, for a request and the fetch it
      would run on the request's three fields. With a field missing the
      answer is 400 whatever the fetch would do; otherwise an error
      dictionary or an empty list is 404, an exception 500, and a non-empty
      list 200 with exactly those records. */
  function CaseSearchResponse(req: Request, fetch: (string, string, string) -> FetchOutcome): (resp: Response)
    ensures resp.status in {200, 400, 404, 500}
    ensures resp.status == 400 <==> MissingParameter(req)
    ensures resp.status == 400 ==> resp.body == ErrorBody(MissingMessage)
    ensures !MissingParameter(req) ==>
      var out := fetch(req.caseType.value, req.caseNumber.value, req.year.value);
      && (resp.status == 404 <==> out.ErrorDict? || (out.CaseList? && out.records == []))
      && (resp.status == 500 <==> out.Raised?)
      && (resp.status == 200 <==> out.CaseList? && out.records != [])
      && (resp.status == 200 ==> resp.body == CaseDetails(out.records))
      && (resp.status != 200 ==> resp.body == ErrorBody(NotFoundMessage))
  {
    if MissingParameter(req) then
      Response(400, ErrorBody(MissingMessage))
    else
      match fetch(req.caseType.value, req.caseNumber.value, req.year.value)
      case ErrorDict(_) => Response(404, ErrorBody(NotFoundMessage))
      case CaseList(records) =>
        if records == [] then Response(404, ErrorBody(NotFoundMessage))
        else Response(200, CaseDetails(records))
      case Raised => Response(500, ErrorBody(NotFoundMessage))
  }

  /** With a field missing the fetch is never run: the answer is the same
      whatever the fetch would have done. */
  lemma MissingParameterNeverFetches(req: Request, f1: (string, string, string) -> FetchOutcome,
                                     f2: (string, string, string) -> FetchOutcome)
    requires MissingParameter(req)
    ensures CaseSearchResponse(req, f1) == CaseSearchResponse(req, f2)
  {
  }

  /** The whole request against the live site, abstracted as the session
      outcome the site produces for the three fields: when the results table
      loads, the answer is 404 exactly when no row has four cells, and
      otherwise 200 with the records of the row loop. */
  lemma SearchOverLoadedTable(req: Request, site: (string, string, string) -> PageOutcome)
    requires !MissingParameter(req)
    requires site(req.caseType.value, req.caseNumber.value, req.year.value).TableLoaded?
    ensures var rows := site(req.caseType.value, req.caseNumber.value, req.year.value).rows;
            var resp := CaseSearchResponse(req, (a, b, c) => FetchResult(site(a, b, c)));
            && (resp.status == 404 <==> forall i | 0 <= i < |rows| :: |rows[i]| < 4)
            && (resp.status != 404 ==> resp == Response(200, CaseDetails(ParseRows(rows))))
  {
    var rows := site(req.caseType.value, req.caseNumber.value, req.year.value).rows;
    ParseRowsEmpty(rows);
  }

  /** When the session ends before a table is read, the client learns only
      that no data was found: the two timeouts give 404, any other browser
      exception 500, and neither of the fetch's own error messages reaches
      the response. */
  lemma SearchWhenSessionFails(req: Request, site: (string, string, string) -> PageOutcome)
    requires !MissingParameter(req)
    requires !site(req.caseType.value, req.caseNumber.value, req.year.value).TableLoaded?
    ensures var page := site(req.caseType.value, req.caseNumber.value, req.year.value);
            var resp := CaseSearchResponse(req, (a, b, c) => FetchResult(site(a, b, c)));
            && resp.body == ErrorBody(NotFoundMessage)
            && (resp.status == 500 <==> page == BrowserFailure)
            && (resp.status == 404 <==> page != BrowserFailure)
  {
  }
}
