/** The connection handler of `src/simple_server.rs`: scanning the header
    lines of one connection for a bearer credential and turning the store's
    answer into a status line. A connection is the finite sequence of what
    each successive `lines()` read yields. */
module SimpleServer {
  import opened Results
  import opened Tokens
  import opened TokenStores

  /** `HttpResponse`: the two answers the server gives. */
  datatype HttpResponse = OkStatus | Unauthorised

  /** `HttpResponse::as_str`: an HTTP/1.1 status line, 200 or 401, followed
      by the empty line that ends the headers; no header and no body. */
  function AsStr(response: HttpResponse): (s: string)
    ensures |s| >= 16 && s[..9] == "HTTP/1.1 " && s[|s| - 4..] == "\r\n\r\n"
    ensures s[9..12] == (if response == OkStatus then "200" else "401")
  {
    match response
    case OkStatus => "HTTP/1.1 200 OK\r\n\r\n"
    case Unauthorised => "HTTP/1.1 401 UNAUTHORISED\r\n\r\n"
  }

  /** One item of `BufRead::lines` on the connection: a line with its
      terminator removed, a read that hit the timeout, or another I/O error. */
  datatype HeaderRead = HeaderLine(text: string) | TimedOut | IoError

  /** Why serving a connection ends without a response being written. */
  datatype ServeError =
    | HeaderTimeout              // reading headers timed out
    | HeaderReadFailed           // reading headers failed otherwise
    | StoreFailed(cause: StoreError)
    | ResponseWriteFailed

  /** Exact and case-sensitive, with a single space after each word. */
  const BearerPrefix: string := "Authorization: Bearer "

  /** A read the scan moves past: a non-empty line without the bearer prefix. */
  predicate PassesOver(rd: HeaderRead) {
    rd.HeaderLine? && !(BearerPrefix <= rd.text) && rd.text != ""
  }

  /** The position of the first read the scan stops at, or the number of
      reads when it moves past all of them. */
  function StopIndex(incoming: seq<HeaderRead>): (i: nat)
    ensures i <= |incoming|
    ensures forall j :: 0 <= j < i ==> PassesOver(incoming[j])
    ensures i < |incoming| ==> !PassesOver(incoming[i])
  {
    if incoming == [] || !PassesOver(incoming[0]) then 0 else 1 + StopIndex(incoming[1..])
  }

  /** What `extract_auth_token` returns: decided by the first read that is
      not a plain header line. A bearer line gives its remainder, an empty
      line or the end of the input gives `None`, a failed read an error. */
  function ScanResult(incoming: seq<HeaderRead>): Result<Option<string>, ServeError> {
    var i := StopIndex(incoming);
    if i == |incoming| then Ok(None)
    else
      match incoming[i]
      case TimedOut => Err(HeaderTimeout)
      case IoError => Err(HeaderReadFailed)
      case HeaderLine(text) =>
        if BearerPrefix <= text then Ok(Some(text[|BearerPrefix|..])) else Ok(None)
  }

  /** `extract_auth_token`: reads header lines until one starts with the
      bearer prefix (its remainder is the credential) or one is empty. The
      prefix test comes first, so a bare prefix line yields an empty credential. */
  method ExtractAuthToken(incoming: seq<HeaderRead>) returns (r: Result<Option<string>, ServeError>)
    ensures r == ScanResult(incoming)
  {
    var i := 0;
    while i < |incoming|
      invariant 0 <= i <= |incoming|
      invariant forall j :: 0 <= j < i ==> PassesOver(incoming[j])
    {
      match incoming[i] {
        case HeaderLine(text) =>
          if BearerPrefix <= text {
            assert StopIndex(incoming) == i;
            return Ok(Some(text[|BearerPrefix|..]));
          }
          if text == "" {
            break;
          }
        case TimedOut =>
          assert StopIndex(incoming) == i;
          return Err(HeaderTimeout);
        case IoError =>
          assert StopIndex(incoming) == i;
          return Err(HeaderReadFailed);
      }
      i := i + 1;
    }
    assert StopIndex(incoming) == i;
    r := Ok(None);
  }

  /** The first bearer line before any empty line or failed read decides the credential. */
  lemma ScanFindsBearer(incoming: seq<HeaderRead>, i: nat, credential: string)
    requires i < |incoming| && incoming[i] == HeaderLine(BearerPrefix + credential)
    requires forall j :: 0 <= j < i ==> PassesOver(incoming[j])
    ensures ScanResult(incoming) == Ok(Some(credential))
  {
    assert StopIndex(incoming) == i;
    assert (BearerPrefix + credential)[|BearerPrefix|..] == credential;
  }

  /** An empty line before any bearer line ends the scan with no credential. */
  lemma ScanStopsAtEmptyLine(incoming: seq<HeaderRead>, i: nat)
    requires i < |incoming| && incoming[i] == HeaderLine("")
    requires forall j :: 0 <= j < i ==> PassesOver(incoming[j])
    ensures ScanResult(incoming) == Ok(None)
  {
    assert StopIndex(incoming) == i;
  }

  /** A timeout or read error before any bearer or empty line is an error. */
  lemma ScanFailsOnReadError(incoming: seq<HeaderRead>, i: nat)
    requires i < |incoming| && (incoming[i].TimedOut? || incoming[i].IoError?)
    requires forall j :: 0 <= j < i ==> PassesOver(incoming[j])
    ensures ScanResult(incoming) == Err(if incoming[i].TimedOut? then HeaderTimeout else HeaderReadFailed)
  {
    assert StopIndex(incoming) == i;
  }

  /** Input that ends with only plain header lines gives no credential. */
  lemma ScanExhausted(incoming: seq<HeaderRead>)
    requires forall j :: 0 <= j < |incoming| ==> PassesOver(incoming[j])
    ensures ScanResult(incoming) == Ok(None)
  {
    assert StopIndex(incoming) == |incoming|;
  }

  /** Once the scan stops, nothing the client sends afterwards is examined. */
  lemma {:induction false} ScanIgnoresLaterReads(incoming: seq<HeaderRead>, later: seq<HeaderRead>)
    requires StopIndex(incoming) < |incoming|
    ensures StopIndex(incoming + later) == StopIndex(incoming)
    ensures ScanResult(incoming + later) == ScanResult(incoming)
  {
    var i := StopIndex(incoming);
    var all := incoming + later;
    assert all[i] == incoming[i];
    forall j | 0 <= j < i ensures PassesOver(all[j]) {
      assert all[j] == incoming[j];
    }
  }

  /** A plain header line in front of a connection changes nothing about the scan. */
  lemma ScanSkipsPlainLine(rd: HeaderRead, rest: seq<HeaderRead>)
    requires PassesOver(rd)
    ensures StopIndex([rd] + rest) == 1 + StopIndex(rest)
    ensures ScanResult([rd] + rest) == ScanResult(rest)
  {
    assert ([rd] + rest)[1..] == rest;
  }

  /** The header name and the scheme are matched case-sensitively: a
      lower-case bearer line is skipped like any other header. */
  lemma ScanIsCaseSensitive(credential: string, rest: seq<HeaderRead>)
    ensures ScanResult([HeaderLine("authorization: bearer " + credential)] + rest) == ScanResult(rest)
  {
    var line := "authorization: bearer " + credential;
    assert line[0] != BearerPrefix[0];
    ScanSkipsPlainLine(HeaderLine(line), rest);
  }

  /** `respond`: the response is written, or writing it fails. */
  function Written(response: HttpResponse, writeSucceeds: bool): Result<HttpResponse, ServeError> {
    if writeSucceeds then Ok(response) else Err(ResponseWriteFailed)
  }

  /** `serve_connection`: `Ok(response)` when `response` was written, `Err`
      when nothing was written. A scan error or a failing store check ends
      the connection with no response at all; no credential gives 401
      without consulting the store; a credential gives 200 exactly when it
      is the secret of a token in the store. */
  method ServeConnection(store: TokenStore, incoming: seq<HeaderRead>, writeSucceeds: bool)
    returns (r: Result<HttpResponse, ServeError>)
    requires store.Valid()
    ensures ScanResult(incoming).Err? ==> r == Err(ScanResult(incoming).error)
    ensures ScanResult(incoming) == Ok(None) ==> r == Written(Unauthorised, writeSucceeds)
    ensures ScanResult(incoming).Ok? && ScanResult(incoming).value.Some? && store.tokens.None? ==>
              r == Err(StoreFailed(NotLoaded))
    ensures r == Ok(OkStatus) <==>
              writeSucceeds && store.tokens.Some? && ScanResult(incoming).Ok? && ScanResult(incoming).value.Some?
              && ScanResult(incoming).value.value in Secrets(store.tokens.value)
    ensures ScanResult(incoming).Ok? && ScanResult(incoming).value.Some? && store.tokens.Some? ==>
              r == Written(if ScanResult(incoming).value.value in Secrets(store.tokens.value)
                           then OkStatus else Unauthorised, writeSucceeds)
    ensures r == Ok(Unauthorised) ==> writeSucceeds && ScanResult(incoming).Ok?
  {
    var authToken := ExtractAuthToken(incoming);
    if authToken.Err? {
      return Err(authToken.error);
    }
    match authToken.value {
      case Some(credential) =>
        var found := store.ContainsToken(credential);
        if found.Err? {
          return Err(StoreFailed(found.error));
        }
        r := Written(if found.value then OkStatus else Unauthorised, writeSucceeds);
      case None =>
        r := Written(Unauthorised, writeSucceeds);
    }
  }
}
