/** The shared axios instance: a fixed configuration (base URL, 10-second
    timeout, JSON content type), a request interceptor that attaches the stored
    access token as a bearer credential (section 2.1 of RFC 6750), and a response
    interceptor that forgets the access token whenever the server answers
    401 Unauthorized (section 15.5.2 of RFC 9110) and always hands the failure
    back to the caller. Each exchange is one atomic step over the token store. */
module HttpClient {
  import opened Wrappers
  import opened TokenStore

  datatype Method = Get | Head | Post | Put | Patch | Delete

  /** The request configuration the interceptors see. */
  datatype Request = Request(
    verb: Method,
    baseUrl: string,
    url: string,
    timeoutMs: nat,
    headers: map<string, string>)

  /** What came back from the network: nothing (network error, timeout) or a status. */
  datatype Raw = NoResponse | Response(status: int)

  /** The settled promise of one exchange: resolved with a status, or rejected
      with the status of the error's response (`None` when there was none). */
  datatype Outcome = Ok(status: int) | Err(response: Option<int>)

  datatype Client = Client(baseUrl: string, timeoutMs: nat, defaultHeaders: map<string, string>)

  datatype Exchange = Exchange(sent: Request, store: Store, outcome: Outcome)

  const TimeoutMs := 10000
  const ContentType := "Content-Type"
  const Authorization := "Authorization"
  const JsonHeaders: map<string, string> := map[ContentType := "application/json"]
  const LocalApiUrl := "http://127.0.0.1:8000/"

  /** frontend/src/services/api.js: the base URL is the local development origin. */
  const ServicesClient := Client(LocalApiUrl, TimeoutMs, JsonHeaders)

  /** frontend/api/api.js: the base URL comes from the build environment. */
  function EnvClient(envUrl: string): Client {
    Client(envUrl, TimeoutMs, JsonHeaders)
  }

  /** The configuration axios builds for one call before the interceptors run. */
  function Config(c: Client, m: Method, url: string): Request {
    Request(m, c.baseUrl, url, c.timeoutMs, c.defaultHeaders)
  }

  /** The header value of section 2.1 of RFC 6750. */
  function BearerCredential(token: string): string {
    "Bearer " + token
  }

  /** Reads a credential back out of an Authorization header value. */
  function BearerToken(header: string): Option<string> {
    if |header| >= 7 && header[..7] == "Bearer " then Some(header[7..]) else None
  }

  lemma BearerRoundTrip(token: string)
    ensures BearerToken(BearerCredential(token)) == Some(token)
  {
    assert BearerCredential(token)[..7] == "Bearer ";
    assert BearerCredential(token)[7..] == token;
  }

  /** Request interceptor: reads the access token and, when it is truthy, sets
      the Authorization header; the store is only read. */
  function Authorize(store: Store, req: Request): (r: Request)
    ensures r.verb == req.verb && r.baseUrl == req.baseUrl
    ensures r.url == req.url && r.timeoutMs == req.timeoutMs
    ensures Truthy(GetItem(store, AuthToken)) ==>
              Authorization in r.headers
              && BearerToken(r.headers[Authorization]) == Some(store[AuthToken])
    ensures !Truthy(GetItem(store, AuthToken)) ==> r == req
    ensures r.headers.Keys == req.headers.Keys + (if Truthy(GetItem(store, AuthToken)) then {Authorization} else {})
    ensures forall h :: h in req.headers && h != Authorization ==> r.headers[h] == req.headers[h]
  {
    var token := GetItem(store, AuthToken);
    if Truthy(token) then
      BearerRoundTrip(token.value);
      req.(headers := req.headers[Authorization := BearerCredential(token.value)])
    else
      req
  }

  /** axios' default `validateStatus`: only 2xx statuses resolve. */
  function Settle(raw: Raw): (o: Outcome)
    ensures o.Ok? <==> raw.Response? && 200 <= raw.status < 300
    ensures o.Ok? ==> o.status == raw.status
    ensures o == Err(None) <==> raw == NoResponse
    ensures o.Err? && o.response.Some? ==> raw == Response(o.response.value)
  {
    match raw
    case NoResponse => Err(None)
    case Response(s) => if 200 <= s < 300 then Ok(s) else Err(Some(s))
  }

  /** Response interceptor: a success passes through; a failure whose response
      status is exactly 401 removes the access token; every failure is rejected
      again to the caller, unchanged. */
  function Intercept(store: Store, o: Outcome): (r: (Store, Outcome))
    ensures r.1 == o
    ensures o == Err(Some(401)) ==>
              AuthToken !in r.0
              && (forall k :: k != AuthToken ==> (k in r.0 <==> k in store))
              && (forall k :: k in r.0 ==> r.0[k] == store[k])
    ensures o != Err(Some(401)) ==> r.0 == store
  {
    match o
    case Ok(_) => (store, o)
    case Err(status) =>
      if status == Some(401) then (RemoveItem(store, AuthToken), o) else (store, o)
  }

  /** One exchange through the client: the request interceptor, the network, the
      status check and the response interceptor. */
  function Send(c: Client, store: Store, m: Method, url: string, raw: Raw): (e: Exchange)
    ensures e.sent.baseUrl == c.baseUrl && e.sent.timeoutMs == c.timeoutMs
    ensures e.sent.verb == m && e.sent.url == url
    ensures Truthy(GetItem(store, AuthToken)) ==>
              Authorization in e.sent.headers
              && BearerToken(e.sent.headers[Authorization]) == Some(store[AuthToken])
    ensures !Truthy(GetItem(store, AuthToken)) ==> e.sent.headers == c.defaultHeaders
    ensures e.outcome.Ok? <==> raw.Response? && 200 <= raw.status < 300
    ensures raw == Response(401) ==> GetItem(e.store, AuthToken) == None
    ensures forall k :: k != AuthToken ==> GetItem(e.store, k) == GetItem(store, k)
    ensures raw != Response(401) ==> e.store == store
  {
    var sent := Authorize(store, Config(c, m, url));
    var o := Settle(raw);
    var (store', o') := Intercept(store, o);
    Exchange(sent, store', o')
  }

  /** Every failure reaches the caller: the exchange's outcome is exactly the
      settled network result, 401 included; nothing is swallowed or retried. */
  lemma FailuresPropagate(c: Client, store: Store, m: Method, url: string, raw: Raw)
    ensures Send(c, store, m, url, raw).outcome == Settle(raw)
    ensures raw.NoResponse? ==> Send(c, store, m, url, raw).outcome == Err(None)
  {
  }

  /** Once a 401 has been processed, a later request built from the default
      configuration carries no Authorization header, even if an earlier request
      went out with the now-invalidated token. */
  lemma {:induction false} NoStaleTokenAfterUnauthorized(
    c: Client, store: Store, m1: Method, u1: string, m2: Method, u2: string, m3: Method, u3: string)
    requires Authorization !in c.defaultHeaders
    ensures var first := Send(c, store, m1, u1, Response(200));
            var second := Send(c, first.store, m2, u2, Response(401));
            var third := Authorize(second.store, Config(c, m3, u3));
            Authorization !in third.headers
  {
    var first := Send(c, store, m1, u1, Response(200));
    assert first.store == store;
    var second := Send(c, first.store, m2, u2, Response(401));
    assert GetItem(second.store, AuthToken) == None;
  }

  /** frontend/api/api.js is the same client with an environment-supplied base
      URL: same timeout and JSON default, same header rule, same 401 rule. */
  lemma EnvClientBehaviour(envUrl: string, store: Store, m: Method, url: string, raw: Raw)
    ensures var e := Send(EnvClient(envUrl), store, m, url, raw);
            && e.sent.baseUrl == envUrl
            && e.sent.timeoutMs == 10000
            && e.sent.headers[ContentType] == "application/json"
            && (Truthy(GetItem(store, AuthToken)) <==> Authorization in e.sent.headers)
            && (Truthy(GetItem(store, AuthToken)) ==>
                  e.sent.headers[Authorization] == "Bearer " + store[AuthToken])
            && (raw == Response(401) ==> AuthToken !in e.store)
            && (forall k :: k != AuthToken ==> GetItem(e.store, k) == GetItem(store, k))
            && (raw != Response(401) ==> e.store == store)
            && e.outcome == Settle(raw)
  {
  }
}
