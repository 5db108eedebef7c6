/** The registration page: react-hook-form's per-field rules (checked on submit,
    first failing rule per field), the reCAPTCHA gate, the POST, and the mapping
    from the server's error body to the single message the page shows. */
module RegisterPage {
  import opened Wrappers
  import opened Text
  import opened TokenStore
  import opened HttpClient

  const RegisterPath := "/account/register/"
  const LoginRoute := "/login"

  const UsernameRequired := "Username is required"
  const UsernameShort := "Minimum length is 2 characters"
  const EmailRequired := "Email is required"
  const EmailInvalid := "Invalid email address"
  const PasswordRequired := "Password is required"
  const PasswordShort := "Minimum length is 8 characters"
  const ConfirmRequired := "Please confirm your password"
  const PasswordsDiffer := "Passwords do not match"

  const CaptchaMissing := "Please complete the reCAPTCHA"
  const EmailInUse := "Email is already in use"
  const BadRequest := "Bad request, please contact support"
  const Unknown := "An unknown error occurred. Please try again later."

  datatype Form = Form(username: string, email: string, password1: string, password2: string)

  // ------------------------------------------------------------ email pattern

  /** The pattern `^\S+@\S+\.\S+$`: no whitespace anywhere, an `@` after at least
      one character, and later a `.` with at least one character on each side.
      Because `\S` also matches `@` and `.`, any such pair of positions will do. */
  predicate EmailPattern(s: string) {
    (forall m :: 0 <= m < |s| ==> !IsJsWhitespace(s[m]))
    && exists i, j :: 1 <= i && i + 2 <= j <= |s| - 2 && s[i] == '@' && s[j] == '.'
  }

  predicate NoWhitespace(s: string) {
    forall m :: 0 <= m < |s| ==> !IsJsWhitespace(s[m])
  }

  /** The pattern's reading as three non-empty, whitespace-free parts. */
  lemma PatternOfParts(a: string, b: string, c: string)
    requires a != [] && b != [] && c != []
    requires NoWhitespace(a) && NoWhitespace(b) && NoWhitespace(c)
    ensures EmailPattern(a + "@" + b + "." + c)
  {
    var s := a + "@" + b + "." + c;
    assert s[|a|] == '@';
    assert s[|a| + 1 + |b|] == '.';
    forall m | 0 <= m < |s|
      ensures !IsJsWhitespace(s[m])
    {
      if m < |a| {
        assert s[m] == a[m];
      } else if |a| < m < |a| + 1 + |b| {
        assert s[m] == b[m - |a| - 1];
      } else if m > |a| + 1 + |b| {
        assert s[m] == c[m - |a| - 2 - |b|];
      }
    }
  }

  /** A single left-to-right scan deciding the pattern: it keeps the first `@`
      that has a character before it and the last `.` that has a character after
      it, and stops at the first whitespace. */
  method MatchEmail(s: string) returns (b: bool)
    ensures b <==> EmailPattern(s)
  {
    var k := 0;
    var at := -1;
    var dot := -1;
    while k < |s|
      invariant 0 <= k <= |s|
      invariant forall m :: 0 <= m < k ==> !IsJsWhitespace(s[m])
      invariant at == -1 ==> forall m :: 1 <= m < k ==> s[m] != '@'
      invariant at != -1 ==> 1 <= at < k && s[at] == '@' && forall m :: 1 <= m < at ==> s[m] != '@'
      invariant dot == -1 ==> forall m :: 0 <= m < k && m <= |s| - 2 ==> s[m] != '.'
      invariant dot != -1 ==> 0 <= dot < k && dot <= |s| - 2 && s[dot] == '.'
      invariant dot != -1 ==> forall m :: dot < m < k && m <= |s| - 2 ==> s[m] != '.'
    {
      if IsJsWhitespace(s[k]) {
        return false;
      }
      if s[k] == '@' && k >= 1 && at == -1 {
        at := k;
      }
      if s[k] == '.' && k <= |s| - 2 {
        dot := k;
      }
      k := k + 1;
    }
    b := at != -1 && dot != -1 && at + 2 <= dot;
  }

  // --------------------------------------------------------- field rules

  /** The first failing rule of each field, in react-hook-form's order: required,
      then minimum length (UTF-16 code units), then pattern, then `validate`. */
  function UsernameError(v: string): (e: Option<string>)
    ensures e == None <==> v != "" && Utf16Length(v) >= 2
  {
    if v == "" then Some(UsernameRequired)
    else if Utf16Length(v) < 2 then Some(UsernameShort)
    else None
  }

  function EmailError(v: string): (e: Option<string>)
    ensures e == None <==> EmailPattern(v)
  {
    if v == "" then Some(EmailRequired)
    else if !EmailPattern(v) then Some(EmailInvalid)
    else None
  }

  function Password1Error(v: string): (e: Option<string>)
    ensures e == None <==> v != "" && Utf16Length(v) >= 8
  {
    if v == "" then Some(PasswordRequired)
    else if Utf16Length(v) < 8 then Some(PasswordShort)
    else None
  }

  function Password2Error(v: string, password1: string): (e: Option<string>)
    ensures e == None <==> v != "" && v == password1
  {
    if v == "" then Some(ConfirmRequired)
    else if v != password1 then Some(PasswordsDiffer)
    else None
  }

  /** Field name to message, for every field whose rules fail. */
  function FieldErrors(f: Form): (errs: map<string, string>)
    ensures errs == map[] <==>
              f.username != "" && Utf16Length(f.username) >= 2 && EmailPattern(f.email)
              && f.password1 != "" && Utf16Length(f.password1) >= 8 && f.password2 == f.password1
    ensures "password2" in errs && f.password2 != "" ==> errs["password2"] == PasswordsDiffer
  {
    var m := Put(map[], "username", UsernameError(f.username));
    var m := Put(m, "email", EmailError(f.email));
    var m := Put(m, "password1", Password1Error(f.password1));
    Put(m, "password2", Password2Error(f.password2, f.password1))
  }

  /** Records a field's message when it has one. */
  function Put(m: map<string, string>, k: string, e: Option<string>): (r: map<string, string>)
    ensures e.Some? ==> k in r && r[k] == e.value
    ensures forall j :: j in m && j != k ==> j in r && r[j] == m[j]
    ensures e.None? ==> r == m
  {
    if e.Some? then m[k := e.value] else m
  }

  // ---------------------------------------------------------- submission

  /** The body of a failed response as the page sees it: nothing (no response),
      a text body (Django's HTML error page, for instance), or a JSON object of
      lists of messages keyed by field or `non_field_errors`. */
  datatype ErrorData = NoData | Text(text: string) | Json(fields: map<string, seq<string>>)

  /** The catch block's choice of message. `None` is `undefined`: an empty
      `non_field_errors` list has no first entry. */
  function ErrorMessage(d: ErrorData): (m: Option<string>)
    ensures d.Json? && "email" in d.fields ==> m == Some(EmailInUse)
    ensures d.Json? && "email" !in d.fields && "non_field_errors" in d.fields ==>
              (if d.fields["non_field_errors"] != [] then m == Some(d.fields["non_field_errors"][0]) else m == None)
    ensures d.Json? && "email" !in d.fields && "non_field_errors" !in d.fields ==> m == Some(BadRequest)
    ensures d == NoData || d == Text("") ==> m == Some(Unknown)
    ensures d.Text? && d.text != "" ==> m == Some(BadRequest)
  {
    match d
    case NoData => Some(Unknown)
    case Text(t) => if t == "" then Some(Unknown) else Some(BadRequest)
    case Json(fields) =>
      if "email" in fields then Some(EmailInUse)
      else if "non_field_errors" in fields then
        (if fields["non_field_errors"] != [] then Some(fields["non_field_errors"][0]) else None)
      else Some(BadRequest)
  }

  datatype Run = Run(
    loading: bool,
    fieldErrors: map<string, string>,
    nonFieldError: Option<string>,
    sent: Option<Request>,
    payload: map<string, string>,
    store: Store,
    navigateTo: Option<string>)

  /** The messages on screen before a submit: the field messages and the
      page's own message (`""` at first). */
  datatype Shown = Shown(fieldErrors: map<string, string>, nonFieldError: Option<string>)

  function ShownInitial(): (s: Shown)
    ensures s.fieldErrors == map[] && s.nonFieldError == Some("")
  {
    Shown(map[], Some(""))
  }

  /** A submit, in the order the layers see it.
      - The browser's own check of the `type="email"` input comes first: the
        form sets no `noValidate`, so a non-empty value that is not a valid
        e-mail address in the HTML Standard's sense cancels the submit event
        and nothing else runs. `nativeEmailOk` is that verdict.
      - Then react-hook-form's field rules: a failing rule records the field
        messages and keeps the submit handler from running, so the page's own
        message stays as it was.
      - Then the handler: it clears the message, checks the reCAPTCHA value
        (`None` while the widget holds no token) and POSTs the form fields with
        it. `data` is the failure body when there is a response. */
  function Submit(store: Store, shown: Shown, f: Form, nativeEmailOk: bool, recaptcha: Option<string>,
                  raw: Raw, data: ErrorData): (r: Run)
    ensures !r.loading
    ensures !nativeEmailOk ==>
              r.fieldErrors == shown.fieldErrors && r.nonFieldError == shown.nonFieldError
              && r.sent == None && r.navigateTo == None
    ensures nativeEmailOk ==> r.fieldErrors == FieldErrors(f)
    ensures nativeEmailOk && FieldErrors(f) != map[] ==>
              r.sent == None && r.nonFieldError == shown.nonFieldError && r.navigateTo == None
    ensures nativeEmailOk && FieldErrors(f) == map[] && !Truthy(recaptcha) ==>
              r.sent == None && r.nonFieldError == Some(CaptchaMissing) && r.navigateTo == None
    ensures r.sent.Some? <==> nativeEmailOk && FieldErrors(f) == map[] && Truthy(recaptcha)
    ensures r.sent.Some? ==>
              r.sent.value.verb == Post && r.sent.value.url == RegisterPath
              && r.payload == map["username" := f.username, "email" := f.email, "password1" := f.password1,
                                  "password2" := f.password2, "recaptcha" := recaptcha.value]
    ensures r.navigateTo.Some? <==> r.sent.Some? && Settle(raw).Ok?
    ensures r.navigateTo.Some? ==> r.navigateTo == Some(LoginRoute) && r.nonFieldError == Some("")
    ensures r.sent.Some? && raw.NoResponse? ==> r.nonFieldError == Some(Unknown)
    ensures r.sent.Some? && raw.Response? && Settle(raw).Err? ==> r.nonFieldError == ErrorMessage(data)
    ensures r.sent.None? ==> r.store == store
  {
    if !nativeEmailOk then
      Run(false, shown.fieldErrors, shown.nonFieldError, None, map[], store, None)
    else
      var errs := FieldErrors(f);
      if errs != map[] then
        Run(false, errs, shown.nonFieldError, None, map[], store, None)
      else if !Truthy(recaptcha) then
        Run(false, errs, Some(CaptchaMissing), None, map[], store, None)
      else
        var body := map["username" := f.username, "email" := f.email, "password1" := f.password1,
                        "password2" := f.password2, "recaptcha" := recaptcha.value];
        var e := Send(ServicesClient, store, Post, RegisterPath, raw);
        match e.outcome
        case Ok(_) => Run(false, errs, Some(""), Some(e.sent), body, e.store, Some(LoginRoute))
        case Err(response) =>
          var d := if response.Some? then data else NoData;
          Run(false, errs, ErrorMessage(d), Some(e.sent), body, e.store, None)
  }

  /** What a run leaves on screen for the next submit. */
  function ShownAfter(r: Run): Shown {
    Shown(r.fieldErrors, r.nonFieldError)
  }

  /** A message the handler set outlives a later submit that the field rules
      stop: a valid form sent without the reCAPTCHA, then a form with an empty
      username, still shows the reCAPTCHA message. */
  lemma StaleMessageSurvivesFieldFailure(store: Store, f: Form, g: Form, raw: Raw, data: ErrorData)
    requires FieldErrors(f) == map[] && g.username == ""
    ensures var first := Submit(store, ShownInitial(), f, true, None, raw, data);
            var second := Submit(first.store, ShownAfter(first), g, true, None, raw, data);
            first.nonFieldError == Some(CaptchaMissing)
            && second.nonFieldError == Some(CaptchaMissing)
            && "username" in second.fieldErrors && second.sent == None
  {
    assert UsernameError(g.username).Some?;
  }

  /** A stopped submit changes nothing but the field messages, and a
      submit the browser cancels changes nothing at all; either way the next
      submit behaves as if the stopped one had not happened. */
  lemma {:induction false} StoppedSubmitIsForgotten(store: Store, shown: Shown, f: Form, nativeEmailOk: bool,
                                                    g: Form, recaptcha: Option<string>, raw: Raw, data: ErrorData)
    requires !nativeEmailOk || FieldErrors(f) != map[]
    requires FieldErrors(g) == map[] && Truthy(recaptcha)
    ensures var first := Submit(store, shown, f, nativeEmailOk, None, raw, data);
            first.store == store && first.nonFieldError == shown.nonFieldError
            && Submit(first.store, ShownAfter(first), g, true, recaptcha, raw, data)
               == Submit(store, shown, g, true, recaptcha, raw, data)
  {
  }

  /** Every JSON error body with an `email` key is reported as "Email is already
      in use", whatever the message under that key says. */
  lemma AnyEmailErrorReadsAsInUse(fields: map<string, seq<string>>, other: seq<string>)
    requires "email" in fields
    ensures ErrorMessage(Json(fields)) == Some(EmailInUse)
    ensures ErrorMessage(Json(fields["non_field_errors" := other])) == Some(EmailInUse)
  {
  }

  /** The decision procedure and the field rule agree on every input. */
  method CheckEmailField(v: string) returns (e: Option<string>)
    ensures e == EmailError(v)
    ensures e == None <==> EmailPattern(v)
  {
    if v == "" {
      e := Some(EmailRequired);
    } else {
      var ok := MatchEmail(v);
      e := if ok then None else Some(EmailInvalid);
    }
  }
}
