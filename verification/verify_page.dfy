/** The email-verification page: one GET with the token from the route, a
    navigation to the login page on success, nothing on failure, and a loading
    flag that always ends false. */
module VerifyPage {
  import opened Wrappers
  import opened TokenStore
  import opened HttpClient

  const LoginRoute := "/login"
  const Verifying := "Verifying account..."
  const Complete := "Verification complete. Redirecting..."

  function VerifyPath(token: string): string {
    "account/verifyEmail/" + token + "/"
  }

  datatype Run = Run(loading: bool, sent: Request, store: Store, navigateTo: Option<string>)

  /** The mount effect. */
  function VerifyEmail(store: Store, token: string, raw: Raw): (r: Run)
    ensures !r.loading
    ensures r.sent.verb == Get && r.sent.url == VerifyPath(token)
    ensures r.navigateTo.Some? <==> raw.Response? && 200 <= raw.status < 300
    ensures r.navigateTo.Some? ==> r.navigateTo.value == LoginRoute
    ensures raw != Response(401) ==> r.store == store
  {
    var e := Send(ServicesClient, store, Get, VerifyPath(token), raw);
    Run(false, e.sent, e.store, if e.outcome.Ok? then Some(LoginRoute) else None)
  }

  /** The text the page renders for a given `loading` flag. */
  function Render(loading: bool): (text: string)
    ensures text == Verifying <==> loading
  {
    if loading then Verifying else Complete
  }

  /** The page renders the completion text after a failed verification too: the
      text does not depend on the outcome, only the navigation does. */
  lemma CompletionTextRegardless(store: Store, token: string, raw: Raw)
    ensures Render(VerifyEmail(store, token, raw).loading) == Complete
    ensures raw.NoResponse? ==> VerifyEmail(store, token, raw).navigateTo == None
  {
  }

  /** The token travels as the one path segment between the fixed prefix and the
      trailing slash. */
  lemma TokenInPath(token: string)
    ensures var p := VerifyPath(token);
            |p| == |"account/verifyEmail/"| + |token| + 1
            && p[|"account/verifyEmail/"|..|p| - 1] == token
  {
  }
}
