/** The login page's two handlers: password login and Google login. Each sets
    `loading` and clears the error first, posts through the shared client, stores
    the returned token pair on success and reloads, records an error on failure,
    and always ends with `loading` false. */
module LoginPage {
  import opened Wrappers
  import opened TokenStore
  import opened HttpClient

  const LoginPath := "account/login/"
  const GoogleLoginPath := "account/google-login/"
  const GoogleFailed := "Google login failed. Please try again."

  /** The server's answer: the network result and the fields of its JSON body the
      page reads (`None` is an absent field, `undefined` in the page). */
  datatype Reply = Reply(raw: Raw, access: Option<string>, refresh: Option<string>, error: Option<string>)

  /** The page state after a handler has finished. `error` is a JavaScript value:
      a string or `undefined` (`None`). `threw` is set when the catch block itself
      failed (reading `response.data` of a failure without a response). */
  datatype Run = Run(
    loading: bool,
    error: Option<string>,
    store: Store,
    sent: Request,
    payload: map<string, string>,
    reloaded: bool,
    threw: bool)

  /** Whether the page shows its error box: the error is truthy. */
  predicate ShowsError(r: Run) {
    r.error.Some? && r.error.value != ""
  }

  /** On success both tokens are written, coerced to strings. */
  function StoreTokens(store: Store, access: Option<string>, refresh: Option<string>): (r: Store)
    ensures GetItem(r, AuthToken) == Some(JsString(access))
    ensures GetItem(r, RefreshToken) == Some(JsString(refresh))
    ensures forall k :: k != AuthToken && k != RefreshToken ==> GetItem(r, k) == GetItem(store, k)
  {
    SetItem(SetItem(store, AuthToken, JsString(access)), RefreshToken, JsString(refresh))
  }

  /** `handleSubmit`: post the two field values to the login endpoint. */
  function HandleSubmit(store: Store, email: string, password: string, reply: Reply): (r: Run)
    ensures !r.loading
    ensures r.sent.verb == Post && r.sent.url == LoginPath
    ensures r.payload == map["email" := email, "password" := password]
    ensures r.reloaded <==> Settle(reply.raw).Ok?
    ensures r.reloaded ==> r.store == StoreTokens(store, reply.access, reply.refresh) && r.error == Some("")
    ensures reply.raw.Response? && Settle(reply.raw).Err? ==> r.error == reply.error && !r.threw
    ensures reply.raw.NoResponse? ==> r.error == Some("") && r.threw
    ensures !r.reloaded ==> r.store == Send(ServicesClient, store, Post, LoginPath, reply.raw).store
  {
    var e := Send(ServicesClient, store, Post, LoginPath, reply.raw);
    var body := map["email" := email, "password" := password];
    match e.outcome
    case Ok(_) => Run(false, Some(""), StoreTokens(e.store, reply.access, reply.refresh), e.sent, body, true, false)
    case Err(response) =>
      if response.Some? then Run(false, reply.error, e.store, e.sent, body, false, false)
      else Run(false, Some(""), e.store, e.sent, body, false, true)
  }

  /** `handleGoogleLogin`: post the Google credential; any failure shows one fixed
      message. */
  function HandleGoogleLogin(store: Store, credential: Option<string>, reply: Reply): (r: Run)
    ensures !r.loading && !r.threw
    ensures r.sent.verb == Post && r.sent.url == GoogleLoginPath
    ensures credential.Some? ==> r.payload == map["token" := credential.value]
    ensures credential.None? ==> r.payload == map[]
    ensures r.reloaded <==> Settle(reply.raw).Ok?
    ensures r.reloaded ==> r.store == StoreTokens(store, reply.access, reply.refresh) && r.error == Some("")
    ensures !r.reloaded ==> r.error == Some(GoogleFailed) && ShowsError(r)
  {
    var e := Send(ServicesClient, store, Post, GoogleLoginPath, reply.raw);
    var body := if credential.Some? then map["token" := credential.value] else map[];
    match e.outcome
    case Ok(_) => Run(false, Some(""), StoreTokens(e.store, reply.access, reply.refresh), e.sent, body, true, false)
    case Err(_) => Run(false, Some(GoogleFailed), e.store, e.sent, body, false, false)
  }

  /** After a successful login every later request carries the new access token
      as its bearer credential. */
  lemma LoginAuthorizesLaterRequests(store: Store, email: string, password: string, reply: Reply,
                                     m: Method, url: string)
    requires Settle(reply.raw).Ok? && reply.access.Some? && reply.access.value != ""
    ensures var r := HandleSubmit(store, email, password, reply);
            var next := Authorize(r.store, Config(ServicesClient, m, url));
            Authorization in next.headers && BearerToken(next.headers[Authorization]) == reply.access
  {
    var r := HandleSubmit(store, email, password, reply);
    assert GetItem(r.store, AuthToken) == reply.access;
  }

  /** After a successful Google login every later request carries the access
      token the backend returned as its bearer credential. */
  lemma GoogleLoginAuthorizesLaterRequests(store: Store, credential: Option<string>, reply: Reply,
                                           m: Method, url: string)
    requires Settle(reply.raw).Ok? && reply.access.Some? && reply.access.value != ""
    ensures var r := HandleGoogleLogin(store, credential, reply);
            var next := Authorize(r.store, Config(ServicesClient, m, url));
            r.reloaded && Authorization in next.headers && BearerToken(next.headers[Authorization]) == reply.access
  {
    var r := HandleGoogleLogin(store, credential, reply);
    assert GetItem(r.store, AuthToken) == reply.access;
  }

  /** A successful reply without an `access` field stores the text "undefined",
      which is truthy: later requests go out as `Bearer undefined`. */
  lemma MissingAccessIsSentAsUndefined(store: Store, email: string, password: string, reply: Reply,
                                       m: Method, url: string)
    requires Settle(reply.raw).Ok? && reply.access.None?
    ensures var r := HandleSubmit(store, email, password, reply);
            Authorize(r.store, Config(ServicesClient, m, url)).headers[Authorization] == "Bearer undefined"
  {
    var r := HandleSubmit(store, email, password, reply);
    assert GetItem(r.store, AuthToken) == Some("undefined");
  }

  /** The password form shows an error exactly when a response came back as a
      failure with a non-empty `error` field; a failure without a response shows
      nothing. */
  lemma SubmitErrorShown(store: Store, email: string, password: string, reply: Reply)
    ensures ShowsError(HandleSubmit(store, email, password, reply)) <==>
              reply.raw.Response? && Settle(reply.raw).Err? && reply.error.Some? && reply.error.value != ""
  {
  }
}
