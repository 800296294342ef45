/** The client of the remote car info service
    (internal/repository/api/car_info/repository.go): the base URL with its
    trailing slashes trimmed, the request URL for a registration number, and
    the classification of what comes back. The HTTP exchange itself is an
    input: a `Reply` says how far the exchange got and what it produced. */
module CarInfoClient {
  import opened Wrappers
  import opened Errors
  import Model
  import Query

  /** The client value: the base URL of the service. */
  datatype Repository = Repository(url: string)

  /** `strings.TrimRight(s, c)` for a single cutset character: drops every
      trailing `c`. */
  function TrimRight(s: string, c: char): (r: string)
    ensures r <= s
    ensures r == [] || r[|r| - 1] != c
    ensures forall i :: |r| <= i < |s| ==> s[i] == c
    decreases |s|
  {
    if |s| > 0 && s[|s| - 1] == c then TrimRight(s[..|s| - 1], c) else s
  }

  /** Trimming twice trims nothing more. */
  lemma TrimRightIdempotent(s: string, c: char)
    ensures TrimRight(TrimRight(s, c), c) == TrimRight(s, c)
  {
  }

  /** Two URLs that differ only in trailing slashes give the same client. */
  lemma {:induction false} TrimRightIgnoresTrailing(s: string, c: char, n: nat)
    ensures TrimRight(s + seq(n, _ => c), c) == TrimRight(s, c)
    decreases n
  {
    if n > 0 {
      var t := s + seq(n, _ => c);
      assert t[..|t| - 1] == s + seq(n - 1, _ => c);
      TrimRightIgnoresTrailing(s, c, n - 1);
    } else {
      assert s + seq(n, _ => c) == s;
    }
  }

  /** `New(url)`: the stored base URL is the given one without its trailing
      slashes: a prefix of it, never ending in '/', and only slashes cut. */
  function New(url: string): (r: Repository)
    ensures r.url <= url
    ensures r.url == [] || r.url[|r.url| - 1] != '/'
    ensures forall i :: |r.url| <= i < |url| ==> url[i] == '/'
  {
    Repository(TrimRight(url, '/'))
  }

  /** Building a client from an already trimmed URL keeps it as it is. */
  lemma NewIdempotent(url: string)
    ensures New(New(url).url) == New(url)
  {
    TrimRightIdempotent(url, '/');
  }

  const InfoPath: string := "/info?regNum="

  /** The GET request's URL: the registration number is appended verbatim,
      with no escaping. */
  function RequestUrl(r: Repository, regNum: string): string {
    r.url + InfoPath + regNum
  }

  /** The registration number read back from a request URL of client `r`. */
  function RegNumOf(r: Repository, u: string): string
    requires |u| >= |r.url| + |InfoPath|
  {
    u[|r.url| + |InfoPath|..]
  }

  /** The URL is the base, the path and the registration number in that order,
      and the registration number can be read back from it unchanged; so two
      different registration numbers never share a URL. */
  lemma RequestUrlRoundTrip(r: Repository, regNum: string)
    ensures var u := RequestUrl(r, regNum);
      |u| == |r.url| + |InfoPath| + |regNum|
      && u[..|r.url|] == r.url && u[|r.url|..|r.url| + |InfoPath|] == InfoPath
      && RegNumOf(r, u) == regNum
  {
    var u := RequestUrl(r, regNum);
    assert u == (r.url + InfoPath) + regNum;
    assert u[..|r.url|] == r.url;
  }

  lemma RequestUrlInjective(r: Repository, a: string, b: string)
    requires RequestUrl(r, a) == RequestUrl(r, b)
    ensures a == b
  {
    RequestUrlRoundTrip(r, a);
    RequestUrlRoundTrip(r, b);
  }

  /** What reading and decoding the body of a 200 answer produced. */
  datatype Body = Unreadable(cause: string) | Undecodable(cause: string) | Decoded(info: Model.CarInfo)

  /** How far the HTTP exchange got: the request could not be built, the
      transport failed, or the service answered with a status and a body. */
  datatype Reply =
    | RequestRejected(cause: string)
    | TransportFailed(cause: string)
    | Answered(status: int, body: Body)

  const StatusOK: int := 200
  const StatusNotFound: int := 404

  /** The detail of the error for a 404: the registration number looked up. */
  function RegNumDetail(regNum: string): string {
    "failed to get car info by regNum - " + regNum
  }

  /** The detail of the error for an unexpected status: the status in decimal. */
  function StatusDetail(status: int): string {
    "request failed with status - " + FormatInt(status)
  }

  /** `GetCarInfo`: the decoded car info for a 200 answer with a readable JSON
      body; NotFound for a 404; HTTPRequestFailed for every other failure.
      Every error it returns is built from a sentinel. */
  function GetCarInfo(r: Repository, q: Query.CarInfo, reply: Reply): (res: Result<Model.CarInfo>)
    ensures res.Fail? ==> Classified(res.error)
  {
    match reply
    case RequestRejected(cause) => Fail(Caused(HTTPRequestFailed, cause))
    case TransportFailed(cause) => Fail(Caused(HTTPRequestFailed, cause))
    case Answered(status, body) =>
      if status != StatusOK then
        if status == StatusNotFound then
          Fail(Tagged(NotFound, RegNumDetail(q.regNum)))
        else
          Fail(Tagged(HTTPRequestFailed, StatusDetail(status)))
      else
        match body
        case Unreadable(cause) => Fail(Caused(HTTPRequestFailed, cause))
        case Undecodable(cause) => Fail(Caused(HTTPRequestFailed, cause))
        case Decoded(info) => Ok(info)
  }

  /** Success exactly for a 200 answer whose body decodes, and then the result
      is the decoded value. */
  lemma GetCarInfoSucceeds(r: Repository, q: Query.CarInfo, reply: Reply)
    ensures GetCarInfo(r, q, reply).Ok? <==> reply.Answered? && reply.status == StatusOK && reply.body.Decoded?
    ensures GetCarInfo(r, q, reply).Ok? ==> GetCarInfo(r, q, reply).value == reply.body.info
  {
  }

  /** A 404 answer is a NotFound error whose text names the registration number. */
  lemma NotFoundStatus(r: Repository, q: Query.CarInfo, body: Body)
    ensures var res := GetCarInfo(r, q, Answered(StatusNotFound, body));
      res.Fail? && KindOf(res.error) == NotFound
      && Text(res.error) == "not found: " + RegNumDetail(q.regNum)
  {
    assert KindText(NotFound) + ": " == "not found: ";
  }

  /** Any other non-200 status is an HTTPRequestFailed error carrying the status. */
  lemma OtherStatus(r: Repository, q: Query.CarInfo, status: int, body: Body)
    requires status != StatusOK && status != StatusNotFound
    ensures var res := GetCarInfo(r, q, Answered(status, body));
      res.Fail? && KindOf(res.error) == HTTPRequestFailed
      && Text(res.error) == "http request failed: " + StatusDetail(status)
  {
  }

  /** Failures to build the request, to exchange it, to read the body or to
      decode it are all HTTPRequestFailed errors that carry the cause's text. */
  lemma ExchangeFailures(r: Repository, q: Query.CarInfo, reply: Reply)
    requires reply.RequestRejected? || reply.TransportFailed?
      || (reply.Answered? && reply.status == StatusOK && !reply.body.Decoded?)
    ensures var res := GetCarInfo(r, q, reply);
      var cause := if reply.Answered? then reply.body.cause else reply.cause;
      res.Fail? && KindOf(res.error) == HTTPRequestFailed
      && Text(res.error) == "http request failed: " + cause
  {
  }

  /** Only a 404 answer yields NotFound; every other error is HTTPRequestFailed. */
  lemma NotFoundOnlyFor404(r: Repository, q: Query.CarInfo, reply: Reply)
    requires GetCarInfo(r, q, reply).Fail?
    ensures Is(GetCarInfo(r, q, reply).error, NotFound) <==> reply.Answered? && reply.status == StatusNotFound
    ensures !Is(GetCarInfo(r, q, reply).error, NotFound) ==> Is(GetCarInfo(r, q, reply).error, HTTPRequestFailed)
  {
  }

  /** The answer for a looked-up registration number names an owner whenever it
      is a success: the service dereferences that owner without a check. */
  predicate OwnerPresent(reply: Reply) {
    reply.Answered? && reply.status == StatusOK && reply.body.Decoded? ==> reply.body.info.owner.Some?
  }
}
