/** `checkAuthStatus`: a HEAD request (section 9.3.2 of RFC 9110) to the
    identity endpoint, collapsed into a boolean. It never throws and writes
    nothing itself; the only store change is the client's own 401 rule. */
module SessionProbe {
  import opened Wrappers
  import opened TokenStore
  import opened HttpClient

  const UserInfoPath := "account/userinfo/"

  datatype ProbeResult = ProbeResult(authenticated: bool, sent: Request, store: Store)

  /** The caller's reading of a settled probe: resolved with exactly 200. */
  function IsAuthenticated(o: Outcome): (b: bool)
    ensures b <==> o == Ok(200)
  {
    match o
    case Ok(s) => s == 200
    case Err(_) => false
  }

  /** The whole probe, through the shared client. */
  function CheckAuthStatus(store: Store, raw: Raw): (r: ProbeResult)
    ensures r.authenticated <==> raw == Response(200)
    ensures r.sent.verb == Head && r.sent.url == UserInfoPath
    ensures raw != Response(401) ==> r.store == store
    ensures raw == Response(401) ==> GetItem(r.store, AuthToken) == None
    ensures forall k :: k != AuthToken ==> GetItem(r.store, k) == GetItem(store, k)
  {
    var e := Send(ServicesClient, store, Head, UserInfoPath, raw);
    ProbeResult(IsAuthenticated(e.outcome), e.sent, e.store)
  }

  /** A resolved status other than 200 (say 204) is not an authenticated session,
      and neither is any rejection: 401, 403, a network error or a timeout. */
  lemma ProbeFalseCases(store: Store, raw: Raw)
    ensures raw == Response(204) ==> !CheckAuthStatus(store, raw).authenticated
    ensures raw == NoResponse ==> !CheckAuthStatus(store, raw).authenticated
    ensures raw.Response? && !(200 <= raw.status < 300) ==> !CheckAuthStatus(store, raw).authenticated
  {
  }

  /** Probing is idempotent: a second probe with the same answer reports the same
      and leaves the store as the first left it. */
  lemma ProbeIdempotent(store: Store, raw: Raw)
    ensures var first := CheckAuthStatus(store, raw);
            var second := CheckAuthStatus(first.store, raw);
            second.authenticated == first.authenticated && second.store == first.store
  {
    var first := CheckAuthStatus(store, raw);
    if raw == Response(401) {
      assert AuthToken !in first.store;
      assert RemoveItem(first.store, AuthToken) == first.store;
    }
  }
}
