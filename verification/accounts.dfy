/** The server's account lifecycle: registration (serializer field checks, then
    `validate`, then `create`), one-shot email verification, login, the identity
    endpoint, password reset by token, password and username changes, and Google
    sign-in. Users are keyed by their stored email; reset tokens by their value.
    Password hashing is left abstract (a stored password is compared as given),
    and the clock, token minting, uuid4 values and the Google token check arrive
    as parameters. */
module Accounts {
  import opened Wrappers
  import opened Text

  /** A UUID value; a path segment that is not UUID text is `None`. */
  type Uuid = nat

  const RoleChoices: set<string> := {"admin", "blogger", "guest"}
  const DefaultRole := "blogger"
  /** The role the identity endpoint demands. */
  const PortfolioRole := "userPortfolio"
  /** A reset link lives one hour, in seconds. */
  const ResetLifetime := 3600

  datatype User = User(
    username: string,
    email: string,
    role: string,
    password: Option<string>,
    isActive: bool,
    isEmailVerified: bool,
    verificationToken: Uuid)

  datatype ResetToken = ResetToken(owner: string, expiresAt: int)

  datatype Db = Db(users: map<string, User>, resets: map<Uuid, ResetToken>)

  function Empty(): Db {
    Db(map[], map[])
  }

  /** `PasswordResetToken.is_valid`: the expiry instant itself still counts. */
  predicate IsValid(t: ResetToken, now: int) {
    now <= t.expiresAt
  }

  /** `check_password`: a user without a usable password never matches. */
  predicate CheckPassword(u: User, raw: string) {
    u.password == Some(raw)
  }

  predicate UsernameTaken(db: Db, name: string) {
    exists e :: e in db.users && db.users[e].username == name
  }

  // ---------------------------------------------------------- table invariants

  predicate KeysMatch(db: Db) {
    forall e :: e in db.users ==> db.users[e].email == e
  }

  predicate UniqueUsernames(db: Db) {
    forall a, b :: a in db.users && b in db.users && a != b ==> db.users[a].username != db.users[b].username
  }

  predicate RolesDeclared(db: Db) {
    forall e :: e in db.users ==> db.users[e].role in RoleChoices
  }

  predicate VerifiedActive(db: Db) {
    forall e :: e in db.users ==> db.users[e].isEmailVerified ==> db.users[e].isActive
  }

  /** The foreign key of a reset token. */
  predicate ResetsOwned(db: Db) {
    forall t :: t in db.resets ==> db.resets[t].owner in db.users
  }

  predicate OneResetEach(db: Db) {
    forall t, u :: t in db.resets && u in db.resets && t != u ==> db.resets[t].owner != db.resets[u].owner
  }

  /** The invariants every operation keeps: each user is filed under its own
      email; usernames are unique; roles are declared ones; a verified user is
      active; every reset token belongs to a stored user, and no user holds two. */
  predicate Wf(db: Db) {
    KeysMatch(db) && UniqueUsernames(db) && RolesDeclared(db) && VerifiedActive(db)
    && ResetsOwned(db) && OneResetEach(db)
  }

  /** Storing a user row, new or updated, under its own email keeps the
      invariants when its username is free, its role declared, and it is not
      verified without being active. */
  lemma PutUserKeepsWf(db: Db, u: User)
    requires Wf(db)
    requires u.role in RoleChoices && (u.isEmailVerified ==> u.isActive)
    requires forall k :: k in db.users && k != u.email ==> db.users[k].username != u.username
    ensures Wf(db.(users := db.users[u.email := u]))
  {
    var d := db.(users := db.users[u.email := u]);
    forall a, b | a in d.users && b in d.users && a != b
      ensures d.users[a].username != d.users[b].username
    {
    }
  }

  // ------------------------------------------------------------------ replies

  datatype Body =
    | Detail(key: string, text: string)
    | FieldErrors(errors: map<string, seq<string>>)
    | ErrorRepr(errors: map<string, seq<string>>)
    | Tokens(refresh: string, access: string)
    | UserBody(user: User)
    | NotAuthenticated
    | ServerError

  datatype Reply = Reply(status: int, body: Body)

  datatype Outcome = Outcome(db: Db, reply: Reply)

  function Error400(text: string): Reply {
    Reply(400, Detail("error", text))
  }

  function Crash(): Reply {
    Reply(500, ServerError)
  }

  const Unauthorized := Reply(401, NotAuthenticated)

  /** A freshly minted pair of JWTs; minting is not modelled. */
  datatype Issued = Issued(refresh: string, access: string)

  /** The validators that are not modelled character by character: Django's
      `EmailValidator` and `UnicodeUsernameValidator`. */
  datatype Oracles = Oracles(validEmail: string -> bool, validUsername: string -> bool)

  // ------------------------------------------------------ serializer fields

  const Required := "This field is required."
  const Blank := "This field may not be blank."
  const NullCharacters := "Null characters are not allowed."
  const InvalidEmail := "Enter a valid email address."
  const InvalidUsername := "Enter a valid username. This value may contain only letters, numbers, and @/./+/-/_ characters."
  const UsernameExists := "A user with that username already exists."
  const EmailExists := "custom user with this email already exists."

  function AtLeast(n: nat): string {
    "Ensure this field has at least " + NatToString(n) + " characters."
  }

  function AtMost(n: nat): string {
    "Ensure this field has no more than " + NatToString(n) + " characters."
  }

  /** One field after DRF's checks: every failing validator's message, or the
      cleaned value. */
  datatype Checked = Rejected(messages: seq<string>) | Accepted(value: string)

  function If(fails: bool, message: string): (r: seq<string>)
    ensures r == [] <==> !fails
  {
    if fails then [message] else []
  }

  /** The validator stage: all validators run and their messages are collected. */
  function Validators(s: string, failures: seq<string>): (c: Checked)
    ensures c.Accepted? <==> failures == []
    ensures c.Accepted? ==> c.value == s
    ensures c.Rejected? ==> c.messages == failures && c.messages != []
  {
    if failures == [] then Accepted(s) else Rejected(failures)
  }

  /** A `CharField`'s own validators: maximum length, minimum length, no NUL. */
  function CharChecks(s: string, min: nat, max: Option<nat>): (fs: seq<string>)
    ensures fs == [] <==> (max.None? || |s| <= max.value) && min <= |s| && '\0' !in s
  {
    If(max.Some? && |s| > max.value, AtMost(max.GetOr(0))) + If(|s| < min, AtLeast(min)) + If('\0' in s, NullCharacters)
  }

  /** A `CharField`'s conversion: present, then whitespace-trimmed, then not
      blank. Each of these stops the field at its first failure. */
  function CharInput(x: Option<string>): (c: Checked)
    ensures c.Accepted? <==> x.Some? && PyStrip(x.value) != ""
    ensures c.Accepted? ==> c.value == PyStrip(x.value)
    ensures x.None? ==> c == Rejected([Required])
    ensures x.Some? && PyStrip(x.value) == "" ==> c == Rejected([Blank])
  {
    if x.None? then Rejected([Required])
    else if PyStrip(x.value) == "" then Rejected([Blank])
    else Accepted(PyStrip(x.value))
  }

  /** A `CharField` with optional length bounds, counted in code points. */
  function CharField(x: Option<string>, min: nat, max: Option<nat>): (c: Checked)
    ensures c.Accepted? <==> CharInput(x).Accepted? && CharChecks(CharInput(x).value, min, max) == []
    ensures c.Accepted? ==> c.value == PyStrip(x.value)
  {
    match CharInput(x)
    case Rejected(m) => Rejected(m)
    case Accepted(s) => Validators(s, CharChecks(s, min, max))
  }

  /** A plain `EmailField`: the character checks, then the address check. */
  function EmailInput(v: Oracles, x: Option<string>): (c: Checked)
    ensures c.Accepted? <==> CharInput(x).Accepted? && CharChecks(CharInput(x).value, 0, None) == []
                             && v.validEmail(CharInput(x).value)
    ensures c.Accepted? ==> c.value == PyStrip(x.value)
  {
    match CharInput(x)
    case Rejected(m) => Rejected(m)
    case Accepted(s) => Validators(s, CharChecks(s, 0, None) + If(!v.validEmail(s), InvalidEmail))
  }

  /** Adds a rejected field's messages to the error map. */
  function Put(errs: map<string, seq<string>>, name: string, c: Checked): (r: map<string, seq<string>>)
    ensures c.Rejected? ==> name in r && r[name] == c.messages
    ensures forall k :: k in errs && k != name ==> k in r && r[k] == errs[k]
    ensures r.Keys <= errs.Keys + {name}
    ensures c.Accepted? ==> r == errs
  {
    if c.Rejected? then errs[name := c.messages] else errs
  }

  // ------------------------------------------------------------ registration

  datatype RegisterForm = RegisterForm(
    username: Option<string>,
    email: Option<string>,
    password1: Option<string>,
    password2: Option<string>,
    role: Option<string>)

  /** The cleaned values that reach `validate`. */
  datatype Attrs = Attrs(username: string, email: string, password1: string, password2: string, role: Option<string>)

  /** The model's `username`: the username pattern, uniqueness, then the
      `CharField` checks with at most 150 code points. */
  function UsernameField(db: Db, v: Oracles, x: Option<string>): (c: Checked)
    ensures c.Accepted? <==>
              CharInput(x).Accepted? && v.validUsername(CharInput(x).value)
              && !UsernameTaken(db, CharInput(x).value) && CharChecks(CharInput(x).value, 0, Some(150)) == []
    ensures c.Accepted? ==> c.value == PyStrip(x.value)
  {
    match CharInput(x)
    case Rejected(m) => Rejected(m)
    case Accepted(s) =>
      Validators(s, If(!v.validUsername(s), InvalidUsername) + If(UsernameTaken(db, s), UsernameExists)
                    + CharChecks(s, 0, Some(150)))
  }

  /** The model's `email`: uniqueness, the `CharField` checks with at most 254
      code points, then the address check. */
  function EmailField(db: Db, v: Oracles, x: Option<string>): (c: Checked)
    ensures c.Accepted? <==>
              CharInput(x).Accepted? && CharInput(x).value !in db.users
              && CharChecks(CharInput(x).value, 0, Some(254)) == [] && v.validEmail(CharInput(x).value)
    ensures c.Accepted? ==> c.value == PyStrip(x.value)
  {
    match CharInput(x)
    case Rejected(m) => Rejected(m)
    case Accepted(s) =>
      Validators(s, If(s in db.users, EmailExists) + CharChecks(s, 0, Some(254)) + If(!v.validEmail(s), InvalidEmail))
  }

  /** The model's `role`, a choice field that may be left out. */
  function RoleField(x: Option<string>): (c: Option<Checked>)
    ensures c.None? <==> x.None?
    ensures c.Some? ==> (c.value.Accepted? <==> x.value in RoleChoices)
    ensures c.Some? && c.value.Accepted? ==> c.value.value == x.value
  {
    if x.None? then None
    else if x.value in RoleChoices then Some(Accepted(x.value))
    else Some(Rejected(["\"" + x.value + "\" is not a valid choice."]))
  }

  datatype Result = Pass(attrs: Attrs) | Fail(errors: map<string, seq<string>>)

  /** The field stage: every field is checked and every failing field
      reported; only when none fails are the cleaned values passed on. */
  function RegistrationFields(db: Db, v: Oracles, f: RegisterForm): (r: Result)
    ensures r.Pass? <==>
              UsernameField(db, v, f.username).Accepted? && EmailField(db, v, f.email).Accepted?
              && CharField(f.password1, 0, None).Accepted? && CharField(f.password2, 0, None).Accepted?
              && (f.role.None? || f.role.value in RoleChoices)
    ensures r.Pass? ==>
              r.attrs == Attrs(PyStrip(f.username.value), PyStrip(f.email.value),
                               PyStrip(f.password1.value), PyStrip(f.password2.value), f.role)
    ensures r.Fail? ==> r.errors != map[]
  {
    var u := UsernameField(db, v, f.username);
    var e := EmailField(db, v, f.email);
    var p1 := CharField(f.password1, 0, None);
    var p2 := CharField(f.password2, 0, None);
    var ro := RoleField(f.role);
    var errs := Put(Put(Put(Put(map[], "username", u), "email", e), "password1", p1), "password2", p2);
    var errs := if ro.Some? then Put(errs, "role", ro.value) else errs;
    if u.Accepted? && e.Accepted? && p1.Accepted? && p2.Accepted? && (ro.None? || ro.value.Accepted?) then
      Pass(Attrs(u.value, e.value, p1.value, p2.value, f.role))
    else
      assert u.Rejected? ==> "username" in errs;
      assert e.Rejected? ==> "email" in errs;
      assert p1.Rejected? ==> "password1" in errs;
      assert p2.Rejected? ==> "password2" in errs;
      Fail(errs)
  }

  const EmailInUse := "Email is already in use!"
  const PasswordsDiffer := "Passwords do not match!"
  const PasswordTooShort := "Passwords must be at least 8 characters long!"

  function NonField(message: string): map<string, seq<string>> {
    map["non_field_errors" := [message]]
  }

  /** `UserRegistrationSerializer.validate`: three checks in order, the first
      failure reported under `non_field_errors`; a pass returns the values as
      they came. */
  function Validate(db: Db, a: Attrs): (r: Result)
    ensures r.Pass? <==> a.email !in db.users && a.password1 == a.password2 && |a.password1| >= 8
    ensures r.Pass? ==> r.attrs == a
    ensures a.email in db.users ==> r == Fail(NonField(EmailInUse))
    ensures a.email !in db.users && a.password1 != a.password2 ==> r == Fail(NonField(PasswordsDiffer))
    ensures (a.email !in db.users && a.password1 == a.password2 && |a.password1| < 8) ==>
              r == Fail(NonField(PasswordTooShort))
  {
    if a.email in db.users then Fail(NonField(EmailInUse))
    else if a.password1 != a.password2 then Fail(NonField(PasswordsDiffer))
    else if |a.password1| < 8 then Fail(NonField(PasswordTooShort))
    else Pass(a)
  }

  /** The email-in-use check of `validate` never fires: the field stage has
      already rejected a taken email under the `email` key, so `validate`
      decides on the passwords alone. */
  lemma ValidateEmailCheckUnreachable(db: Db, v: Oracles, f: RegisterForm)
    requires RegistrationFields(db, v, f).Pass?
    ensures RegistrationFields(db, v, f).attrs.email !in db.users
    ensures var a := RegistrationFields(db, v, f).attrs;
            Validate(db, a).Pass? <==> a.password1 == a.password2 && |a.password1| >= 8
  {
    assert EmailField(db, v, f.email).Accepted?;
  }

  /** The position of the last `@`, if any. */
  function LastAt(s: string): (i: Option<nat>)
    ensures i.Some? ==> i.value < |s| && s[i.value] == '@' && forall k :: i.value < k < |s| ==> s[k] != '@'
    ensures i.None? ==> forall k :: 0 <= k < |s| ==> s[k] != '@'
  {
    if s == [] then None
    else if s[|s| - 1] == '@' then Some(|s| - 1)
    else LastAt(s[..|s| - 1])
  }

  /** `UserManager.normalize_email`: the part after the last `@` is lower-cased. */
  function NormalizeEmail(e: string): (r: string)
    ensures |r| == |e|
    ensures LastAt(e).None? ==> r == e
    ensures LastAt(e).Some? ==>
              r[..LastAt(e).value + 1] == e[..LastAt(e).value + 1]
              && r[LastAt(e).value + 1..] == Lower(e[LastAt(e).value + 1..])
  {
    match LastAt(e)
    case None => e
    case Some(i) =>
      var r := e[..i] + "@" + Lower(e[i + 1..]);
      assert r[..i + 1] == e[..i + 1];
      r
  }

  /** A newly created account: inactive and unverified until its link is used. */
  function NewUser(a: Attrs, role: string, token: Uuid): (u: User)
    ensures !u.isActive && !u.isEmailVerified && u.password == Some(a.password1)
    ensures u.email == NormalizeEmail(a.email) && u.username == a.username && u.role == role
    ensures u.verificationToken == token
  {
    User(a.username, NormalizeEmail(a.email), role, Some(a.password1), false, false, token)
  }

  /** `create` as written: it passes `role=role` and also spreads the cleaned
      values, which hold `role` whenever the client sent one; Python rejects the
      repeated keyword, so such a request fails before anything is stored.
      Otherwise the row is stored under the normalised email, and a clash with
      the unique column fails the request. */
  function CreateAsWritten(db: Db, a: Attrs, token: Uuid): (r: Option<Db>)
    ensures a.role.Some? ==> r.None?
    ensures r.Some? <==> a.role.None? && NormalizeEmail(a.email) !in db.users
    ensures r.Some? ==> r.value == db.(users := db.users[NormalizeEmail(a.email) := NewUser(a, DefaultRole, token)])
  {
    if a.role.Some? then None
    else
      var u := NewUser(a, DefaultRole, token);
      if u.email in db.users then None else Some(db.(users := db.users[u.email := u]))
  }

  /** `create` as evidently intended: the chosen role, or the default one. */
  function Create(db: Db, a: Attrs, token: Uuid): (r: Option<Db>)
    ensures r.Some? <==> NormalizeEmail(a.email) !in db.users
    ensures r.Some? ==>
              r.value == db.(users := db.users[NormalizeEmail(a.email) := NewUser(a, a.role.GetOr(DefaultRole), token)])
  {
    var u := NewUser(a, a.role.GetOr(DefaultRole), token);
    if u.email in db.users then None else Some(db.(users := db.users[u.email := u]))
  }

  const Registered := "User registered. Please check your email to verify your account."

  /** The role a successful registration stores, by `create` variant. */
  function StoredRole(a: Attrs, fixedCreate: bool): string {
    if fixedCreate then a.role.GetOr(DefaultRole) else DefaultRole
  }

  /** The registration endpoint, parameterised by the `create` it uses: field
      errors, then `validate` errors, are answered 400 with the error map; a
      failing `create` is a server error; otherwise the new row is stored. */
  function RegisterWith(db: Db, v: Oracles, f: RegisterForm, token: Uuid, fixedCreate: bool): (o: Outcome)
    ensures o.reply.status in {201, 400, 500}
    ensures o.reply.status != 201 ==> o.db == db
    ensures RegistrationFields(db, v, f).Fail? ==> o.reply == Reply(400, FieldErrors(RegistrationFields(db, v, f).errors))
    ensures (RegistrationFields(db, v, f).Pass? && Validate(db, RegistrationFields(db, v, f).attrs).Fail?) ==>
              o.reply == Reply(400, FieldErrors(Validate(db, RegistrationFields(db, v, f).attrs).errors))
    ensures o.reply.status == 201 ==>
              RegistrationFields(db, v, f).Pass?
              && var a := RegistrationFields(db, v, f).attrs;
              Validate(db, a).Pass? && NormalizeEmail(a.email) !in db.users
              && o.db == db.(users := db.users[NormalizeEmail(a.email) := NewUser(a, StoredRole(a, fixedCreate), token)])
  {
    match RegistrationFields(db, v, f)
    case Fail(errs) => Outcome(db, Reply(400, FieldErrors(errs)))
    case Pass(a) =>
      match Validate(db, a)
      case Fail(errs) => Outcome(db, Reply(400, FieldErrors(errs)))
      case Pass(_) =>
        var created := if fixedCreate then Create(db, a, token) else CreateAsWritten(db, a, token);
        if created.None? then Outcome(db, Crash())
        else Outcome(created.value, Reply(201, Detail("success", Registered)))
  }

  /** Registration as written: a form naming a role is never stored. */
  function RegisterAsWritten(db: Db, v: Oracles, f: RegisterForm, token: Uuid): (o: Outcome)
    ensures f.role.Some? ==> o.reply.status != 201 && o.db == db
    ensures o.reply.status == 201 ==> RegistrationFields(db, v, f).Pass?
  {
    RegisterWith(db, v, f, token, false)
  }

  /** Registration as evidently intended: the chosen role is stored. */
  function Register(db: Db, v: Oracles, f: RegisterForm, token: Uuid): (o: Outcome)
    ensures o.reply.status == 201 ==>
              RegistrationFields(db, v, f).Pass?
              && var k := NormalizeEmail(RegistrationFields(db, v, f).attrs.email);
              k in o.db.users && k !in db.users
              && o.db.users[k].role == f.role.GetOr(DefaultRole)
              && !o.db.users[k].isActive && o.db.users[k].verificationToken == token
  {
    RegisterWith(db, v, f, token, true)
  }

  /** A client that sends no role sees the same endpoint either way. */
  lemma RegisterAgreesWithoutRole(db: Db, v: Oracles, f: RegisterForm, token: Uuid)
    requires f.role.None?
    ensures RegisterAsWritten(db, v, f, token) == Register(db, v, f, token)
  {
  }

  /** Every valid form that names a role fails as written, with nothing
      stored, and is stored with that role once `create` honours it. */
  lemma ExplicitRoleFails(db: Db, v: Oracles, f: RegisterForm, token: Uuid)
    requires f.role.Some? && RegistrationFields(db, v, f).Pass?
    requires Validate(db, RegistrationFields(db, v, f).attrs).Pass?
    requires NormalizeEmail(RegistrationFields(db, v, f).attrs.email) !in db.users
    ensures RegisterAsWritten(db, v, f, token) == Outcome(db, Crash())
    ensures var o := Register(db, v, f, token);
            var k := NormalizeEmail(RegistrationFields(db, v, f).attrs.email);
            o.reply.status == 201 && o.db.users[k].role == f.role.value
  {
  }

  /** Cleaning a cleaned value again accepts it unchanged. */
  lemma CharFieldIdempotent(x: Option<string>, min: nat, max: Option<nat>)
    requires CharField(x, min, max).Accepted?
    ensures CharField(Some(CharField(x, min, max).value), min, max) == CharField(x, min, max)
  {
    StripIdempotent(x.value, IsPyWhitespace);
  }

  lemma RegisterKeepsWf(db: Db, v: Oracles, f: RegisterForm, token: Uuid, fixedCreate: bool)
    requires Wf(db)
    ensures Wf(RegisterWith(db, v, f, token, fixedCreate).db)
  {
    var o := RegisterWith(db, v, f, token, fixedCreate);
    if o.reply.status == 201 {
      var a := RegistrationFields(db, v, f).attrs;
      PutUserKeepsWf(db, NewUser(a, StoredRole(a, fixedCreate), token));
    }
  }

  // ------------------------------------------------------------ verification

  function Holders(db: Db, token: Uuid): set<string> {
    set e | e in db.users && db.users[e].verificationToken == token
  }

  lemma SingletonUnique(s: set<string>)
    requires |s| == 1
    ensures forall x, y :: x in s && y in s ==> x == y
  {
    var x :| x in s;
    assert |s - {x}| == |s| - 1;
    assert s - {x} == {};
  }

  const Verified := "Email verified and account activated successfully."
  const AlreadyVerified := "Email already verified."
  const InvalidToken := "Invalid token."

  /** `EmailVerificationAPIView.get`: the user holding the token is verified and
      activated once; a second use fails; an unknown token fails; a path segment
      that is not a UUID, or a token held by two users, fails the request. */
  function VerifyEmail(db: Db, token: Option<Uuid>): (o: Outcome)
    ensures o.reply.status != 200 ==> o.db == db
    ensures token.None? ==> o.reply == Crash()
    ensures token.Some? && |Holders(db, token.value)| == 0 ==> o.reply == Error400(InvalidToken)
    ensures token.Some? && |Holders(db, token.value)| > 1 ==> o.reply == Crash()
    ensures o.reply.status == 200 ==>
              token.Some?
              && (exists e :: Holders(db, token.value) == {e} && !db.users[e].isEmailVerified
                    && o.db == db.(users := db.users[e := db.users[e].(isEmailVerified := true, isActive := true)]))
    ensures (token.Some? && |Holders(db, token.value)| == 1 && o.reply.status != 200) ==>
              o.reply == Error400(AlreadyVerified)
  {
    if token.None? then Outcome(db, Crash())
    else
      var hs := Holders(db, token.value);
      if |hs| == 0 then Outcome(db, Error400(InvalidToken))
      else if |hs| > 1 then Outcome(db, Crash())
      else
        SingletonUnique(hs);
        var e :| e in hs;
        assert hs == {e};
        var u := db.users[e];
        if u.isEmailVerified then Outcome(db, Error400(AlreadyVerified))
        else Outcome(db.(users := db.users[e := u.(isEmailVerified := true, isActive := true)]),
                     Reply(200, Detail("success", Verified)))
  }

  /** The link is one-shot: after a successful verification the same token is
      answered "Email already verified.". */
  lemma VerifyTwiceFails(db: Db, token: Option<Uuid>)
    requires VerifyEmail(db, token).reply.status == 200
    ensures VerifyEmail(VerifyEmail(db, token).db, token).reply == Error400(AlreadyVerified)
  {
    var o := VerifyEmail(db, token);
    var e :| Holders(db, token.value) == {e} && !db.users[e].isEmailVerified
             && o.db == db.(users := db.users[e := db.users[e].(isEmailVerified := true, isActive := true)]);
    assert Holders(o.db, token.value) == {e};
  }

  lemma VerifyKeepsWf(db: Db, token: Option<Uuid>)
    requires Wf(db)
    ensures Wf(VerifyEmail(db, token).db)
  {
    var o := VerifyEmail(db, token);
    if o.reply.status == 200 {
      var e :| Holders(db, token.value) == {e} && !db.users[e].isEmailVerified
               && o.db == db.(users := db.users[e := db.users[e].(isEmailVerified := true, isActive := true)]);
      assert e in Holders(db, token.value);
      PutUserKeepsWf(db, db.users[e].(isEmailVerified := true, isActive := true));
    }
  }

  // ------------------------------------------------------------------- login

  const NoAccount := "No account found with this email."
  const WrongPassword := "Incorrect password."
  const NotActive := "Account is not active. Please verify your email."
  const NotVerified := "Email is not verified. Please check your email for the verification link."

  /** The login serializer's field stage: an `EmailField` and a `CharField`. */
  function LoginFields(v: Oracles, email: Option<string>, password: Option<string>): (r: Result)
    ensures r.Pass? <==> EmailInput(v, email).Accepted? && CharField(password, 0, None).Accepted?
    ensures r.Pass? ==> r.attrs.email == PyStrip(email.value) && r.attrs.password1 == PyStrip(password.value)
    ensures r.Fail? ==> r.errors != map[]
  {
    var e := EmailInput(v, email);
    var p := CharField(password, 0, None);
    if e.Accepted? && p.Accepted? then Pass(Attrs("", e.value, p.value, p.value, None))
    else
      assert e.Rejected? ==> "email" in Put(Put(map[], "email", e), "password", p);
      Fail(Put(Put(map[], "email", e), "password", p))
  }

  /** `UserLoginAPIView.post`: the checks run in a fixed order and the first
      failure is the single `error` message; only a matching password on an
      active, verified account is answered with a token pair. Field errors are
      answered with the whole error map as the `error` text. */
  function Login(db: Db, v: Oracles, email: Option<string>, password: Option<string>, issued: Issued): (o: Outcome)
    ensures o.db == db
    ensures o.reply.status in {200, 400}
    ensures LoginFields(v, email, password).Fail? ==> o.reply == Reply(400, ErrorRepr(LoginFields(v, email, password).errors))
    ensures o.reply.status == 200 <==>
              LoginFields(v, email, password).Pass?
              && var a := LoginFields(v, email, password).attrs;
              a.email in db.users && CheckPassword(db.users[a.email], a.password1)
              && db.users[a.email].isActive && db.users[a.email].isEmailVerified
    ensures o.reply.status == 200 ==> o.reply.body == Tokens(issued.refresh, issued.access)
    ensures LoginFields(v, email, password).Pass? ==>
              var a := LoginFields(v, email, password).attrs;
              (a.email !in db.users ==> o.reply == Error400(NoAccount))
              && ((a.email in db.users && !CheckPassword(db.users[a.email], a.password1)) ==>
                    o.reply == Error400(WrongPassword))
              && ((a.email in db.users && CheckPassword(db.users[a.email], a.password1)
                   && !db.users[a.email].isActive) ==>
                    o.reply == Error400(NotActive))
              && ((a.email in db.users && CheckPassword(db.users[a.email], a.password1)
                   && db.users[a.email].isActive && !db.users[a.email].isEmailVerified) ==>
                    o.reply == Error400(NotVerified))
  {
    match LoginFields(v, email, password)
    case Fail(errs) => Outcome(db, Reply(400, ErrorRepr(errs)))
    case Pass(a) =>
      if a.email !in db.users then Outcome(db, Error400(NoAccount))
      else
        var u := db.users[a.email];
        if !CheckPassword(u, a.password1) then Outcome(db, Error400(WrongPassword))
        else if !u.isActive then Outcome(db, Error400(NotActive))
        else if !u.isEmailVerified then Outcome(db, Error400(NotVerified))
        else Outcome(db, Reply(200, Tokens(issued.refresh, issued.access)))
  }

  /** A freshly registered account cannot log in until its link is used, and
      after that the registration password works (for an address that is its own
      normal form, logged in with the cleaned values). */
  lemma RegisterVerifyLogin(db: Db, v: Oracles, f: RegisterForm, token: Uuid, issued: Issued)
    requires forall e :: e in db.users ==> db.users[e].verificationToken != token
    requires Register(db, v, f, token).reply.status == 201
    requires NormalizeEmail(RegistrationFields(db, v, f).attrs.email) == RegistrationFields(db, v, f).attrs.email
    ensures var a := RegistrationFields(db, v, f).attrs;
            var db1 := Register(db, v, f, token).db;
            Login(db1, v, Some(a.email), Some(a.password1), issued).reply == Error400(NotActive)
            && VerifyEmail(db1, Some(token)).reply.status == 200
            && Login(VerifyEmail(db1, Some(token)).db, v, Some(a.email), Some(a.password1), issued).reply.status == 200
  {
    var a := RegistrationFields(db, v, f).attrs;
    var u := NewUser(a, f.role.GetOr(DefaultRole), token);
    RegisterStoresUnder(db, v, f, token);
    var db1 := db.(users := db.users[a.email := u]);
    RegisteredCredentialsPassLoginForm(db, v, f);
    LoginDecides(db1, v, a.email, a.password1, issued);
    HoldersAfterInsert(db, u, token);
    VerifySingleHolder(db1, a.email, token);
    var db2 := db1.(users := db1.users[a.email := u.(isEmailVerified := true, isActive := true)]);
    LoginDecides(db2, v, a.email, a.password1, issued);
  }

  lemma RegisterStoresUnder(db: Db, v: Oracles, f: RegisterForm, token: Uuid)
    requires Register(db, v, f, token).reply.status == 201
    requires NormalizeEmail(RegistrationFields(db, v, f).attrs.email) == RegistrationFields(db, v, f).attrs.email
    ensures var a := RegistrationFields(db, v, f).attrs;
            Register(db, v, f, token).db == db.(users := db.users[a.email := NewUser(a, f.role.GetOr(DefaultRole), token)])
  {
  }

  /** A new row holding a token no stored user holds is that token's only holder. */
  lemma HoldersAfterInsert(db: Db, u: User, token: Uuid)
    requires forall e :: e in db.users ==> db.users[e].verificationToken != token
    requires u.verificationToken == token
    ensures Holders(db.(users := db.users[u.email := u]), token) == {u.email}
  {
  }

  /** With a single unverified holder, verification succeeds and flips exactly
      that user's two flags. */
  lemma VerifySingleHolder(db: Db, e: string, token: Uuid)
    requires Holders(db, token) == {e} && !db.users[e].isEmailVerified
    ensures VerifyEmail(db, Some(token)) ==
            Outcome(db.(users := db.users[e := db.users[e].(isEmailVerified := true, isActive := true)]),
                    Reply(200, Detail("success", Verified)))
  {
    assert e in Holders(db, token);
  }

  /** With a clean form, login depends only on the stored row. */
  lemma LoginDecides(db: Db, v: Oracles, e: string, p: string, issued: Issued)
    requires LoginFields(v, Some(e), Some(p)) == Pass(Attrs("", e, p, p, None))
    requires e in db.users && CheckPassword(db.users[e], p)
    ensures !db.users[e].isActive ==> Login(db, v, Some(e), Some(p), issued).reply == Error400(NotActive)
    ensures db.users[e].isActive && db.users[e].isEmailVerified ==>
              Login(db, v, Some(e), Some(p), issued).reply == Reply(200, Tokens(issued.refresh, issued.access))
  {
  }

  /** The address and password a registration accepted pass the login form's
      own field checks unchanged. */
  lemma RegisteredCredentialsPassLoginForm(db: Db, v: Oracles, f: RegisterForm)
    requires RegistrationFields(db, v, f).Pass?
    ensures var a := RegistrationFields(db, v, f).attrs;
            LoginFields(v, Some(a.email), Some(a.password1)) == Pass(Attrs("", a.email, a.password1, a.password1, None))
  {
    var a := RegistrationFields(db, v, f).attrs;
    CharFieldIdempotent(f.password1, 0, None);
    StripIdempotent(f.email.value, IsPyWhitespace);
    assert EmailField(db, v, f.email).Accepted?;
    assert EmailInput(v, Some(a.email)).Accepted?;
  }

  // ---------------------------------------------------------------- identity

  /** A request's credentials resolve to a stored, active user. */
  predicate Authenticated(db: Db, auth: Option<string>) {
    auth.Some? && auth.value in db.users && db.users[auth.value].isActive
  }

  /** `UserInfoAPIView` as written: the authenticated user is returned only when
      their role is "userPortfolio". */
  function UserInfoAsWritten(db: Db, auth: Option<string>): (o: Outcome)
    ensures o.db == db
    ensures !Authenticated(db, auth) ==> o.reply == Unauthorized
    ensures o.reply.status == 200 <==> Authenticated(db, auth) && db.users[auth.value].role == PortfolioRole
    ensures (Authenticated(db, auth) && db.users[auth.value].role != PortfolioRole) ==>
              o.reply == Reply(403, Detail("error", "Access denied"))
  {
    if !Authenticated(db, auth) then Outcome(db, Unauthorized)
    else if db.users[auth.value].role != PortfolioRole then Outcome(db, Reply(403, Detail("error", "Access denied")))
    else Outcome(db, Reply(200, UserBody(db.users[auth.value])))
  }

  /** No stored user can pass: "userPortfolio" is not a declared role, so every
      authenticated request is refused. */
  lemma NoUserPassesUserInfo(db: Db, auth: Option<string>)
    requires Wf(db)
    ensures UserInfoAsWritten(db, auth).reply.status != 200
    ensures Authenticated(db, auth) ==> UserInfoAsWritten(db, auth).reply.status == 403
  {
    assert PortfolioRole !in RoleChoices;
  }

  /** The identity endpoint as evidently intended: any authenticated user gets
      their own record. */
  function UserInfo(db: Db, auth: Option<string>): (o: Outcome)
    ensures o.db == db
    ensures o.reply.status == 200 <==> Authenticated(db, auth)
    ensures o.reply.status == 200 ==> o.reply.body == UserBody(db.users[auth.value])
    ensures o.reply.status != 200 ==> o.reply == Unauthorized
  {
    if !Authenticated(db, auth) then Outcome(db, Unauthorized)
    else Outcome(db, Reply(200, UserBody(db.users[auth.value])))
  }

  // ---------------------------------------------------------- password reset

  const NoSuchUser := "No user found with this email address."
  const ResetSent := "Password reset email has been sent."
  const ResetInvalid := "The reset link is invalid"
  const ResetExpired := "The reset link has expired"
  const ResetDone := "Password has been reset successfully."

  /** The reset tokens with every token of `owner` removed. */
  function DropOwner(resets: map<Uuid, ResetToken>, owner: string): (r: map<Uuid, ResetToken>)
    ensures forall t :: t in r <==> t in resets && resets[t].owner != owner
    ensures forall t :: t in r ==> r[t] == resets[t]
  {
    map t | t in resets && resets[t].owner != owner :: resets[t]
  }

  /** The reset request's one field: an `EmailField` whose address must belong
      to a user. */
  function ResetEmailField(db: Db, v: Oracles, email: Option<string>): (c: Checked)
    ensures c.Accepted? <==> EmailInput(v, email).Accepted? && PyStrip(email.value) in db.users
    ensures c.Accepted? ==> c.value == PyStrip(email.value)
  {
    match EmailInput(v, email)
    case Rejected(m) => Rejected(m)
    case Accepted(s) => Validators(s, If(s !in db.users, NoSuchUser))
  }

  /** `RequestPasswordResetEmail.post`: the address must belong to a user (a
      field error otherwise); that user's earlier tokens are deleted and one new
      token, expiring an hour from now, is stored. A clash of the new value with
      another user's token fails the request, and the model then keeps the
      earlier tokens: under autocommit the source has already deleted them
      (views.py:116) when the insert fails. `GoogleLogin`, by contrast, keeps
      the row its first save committed. */
  function RequestReset(db: Db, v: Oracles, email: Option<string>, now: int, token: Uuid): (o: Outcome)
    ensures o.reply.status in {200, 400, 500}
    ensures o.reply.status != 200 ==> o.db == db
    ensures o.reply.status == 400 <==> ResetEmailField(db, v, email).Rejected?
    ensures o.reply.status == 400 ==> o.reply.body.FieldErrors? && o.reply.body.errors.Keys == {"email"}
    ensures o.reply.status == 200 ==>
              email.Some? && PyStrip(email.value) in db.users
              && o.db == db.(resets := DropOwner(db.resets, PyStrip(email.value))[token := ResetToken(PyStrip(email.value), now + ResetLifetime)])
  {
    match ResetEmailField(db, v, email)
    case Rejected(m) => Outcome(db, Reply(400, FieldErrors(map["email" := m])))
    case Accepted(e) =>
      var kept := DropOwner(db.resets, e);
      if token in kept then Outcome(db, Crash())
      else Outcome(db.(resets := kept[token := ResetToken(e, now + ResetLifetime)]),
                   Reply(200, Detail("success", ResetSent)))
  }

  /** After a request the user holds exactly one token, the new one. */
  lemma RequestResetLeavesOneToken(db: Db, v: Oracles, email: Option<string>, now: int, token: Uuid)
    requires RequestReset(db, v, email, now, token).reply.status == 200
    ensures var o := RequestReset(db, v, email, now, token);
            var e := PyStrip(email.value);
            token in o.db.resets && o.db.resets[token] == ResetToken(e, now + ResetLifetime)
            && forall t :: t in o.db.resets && o.db.resets[t].owner == e ==> t == token
  {
  }

  lemma RequestResetKeepsWf(db: Db, v: Oracles, email: Option<string>, now: int, token: Uuid)
    requires Wf(db)
    ensures Wf(RequestReset(db, v, email, now, token).db)
  {
    var o := RequestReset(db, v, email, now, token);
    if o.reply.status == 200 {
      var e := PyStrip(email.value);
      ReplaceResetKeepsWf(db, e, token, now + ResetLifetime);
    }
  }

  /** Dropping a stored user's tokens and adding one new token for them keeps
      the invariants. */
  lemma ReplaceResetKeepsWf(db: Db, e: string, token: Uuid, expiresAt: int)
    requires Wf(db) && e in db.users
    ensures Wf(db.(resets := DropOwner(db.resets, e)[token := ResetToken(e, expiresAt)]))
  {
    var r := DropOwner(db.resets, e)[token := ResetToken(e, expiresAt)];
    forall t, u | t in r && u in r && t != u
      ensures r[t].owner != r[u].owner
    {
      if t != token && u != token {
        assert r[t] == db.resets[t] && r[u] == db.resets[u];
      }
    }
  }

  /** `SetNewPasswordAPIView.post`: the new password (8 to 68 code points after
      trimming) is checked first; then a path segment that is not a UUID fails
      the request, and an unknown token, then an expired one (which is kept),
      are refused; otherwise the owner's password is set and the token
      deleted. */
  function ConfirmReset(db: Db, token: Option<Uuid>, password: Option<string>, now: int): (o: Outcome)
    requires ResetsOwned(db)
    ensures o.reply.status in {200, 400, 500}
    ensures o.reply.status != 200 ==> o.db == db
    ensures CharField(password, 8, Some(68)).Rejected? ==> o.reply.status == 400 && o.reply.body.FieldErrors?
    ensures (CharField(password, 8, Some(68)).Accepted? && token.None?) ==> o.reply == Crash()
    ensures (CharField(password, 8, Some(68)).Accepted? && token.Some? && token.value !in db.resets) ==>
              o.reply == Error400(ResetInvalid)
    ensures (CharField(password, 8, Some(68)).Accepted? && token.Some? && token.value in db.resets
             && !IsValid(db.resets[token.value], now)) ==>
              o.reply == Error400(ResetExpired)
    ensures o.reply.status == 200 <==>
              CharField(password, 8, Some(68)).Accepted? && token.Some? && token.value in db.resets
              && IsValid(db.resets[token.value], now)
    ensures o.reply.status == 200 ==>
              var owner := db.resets[token.value].owner;
              o.db.resets == db.resets - {token.value}
              && o.db.users == db.users[owner := db.users[owner].(password := Some(PyStrip(password.value)))]
  {
    match CharField(password, 8, Some(68))
    case Rejected(m) => Outcome(db, Reply(400, FieldErrors(map["password" := m])))
    case Accepted(p) =>
      if token.None? then Outcome(db, Crash())
      else if token.value !in db.resets then Outcome(db, Error400(ResetInvalid))
      else if !IsValid(db.resets[token.value], now) then Outcome(db, Error400(ResetExpired))
      else
        var owner := db.resets[token.value].owner;
        Outcome(Db(db.users[owner := db.users[owner].(password := Some(p))], db.resets - {token.value}),
                Reply(200, Detail("success", ResetDone)))
  }

  lemma ConfirmResetKeepsWf(db: Db, token: Option<Uuid>, password: Option<string>, now: int)
    requires Wf(db)
    ensures Wf(ConfirmReset(db, token, password, now).db)
  {
    var o := ConfirmReset(db, token, password, now);
    if o.reply.status == 200 {
      var owner := db.resets[token.value].owner;
      var d := db.(resets := db.resets - {token.value});
      PutUserKeepsWf(d, db.users[owner].(password := Some(PyStrip(password.value))));
    }
  }

  /** The link works up to and including its expiry instant, and only once; an
      expired link is refused and stays stored. */
  lemma ResetLinkLifecycle(db: Db, v: Oracles, email: Option<string>, now: int, token: Uuid,
                           password: Option<string>, later: int)
    requires Wf(db)
    requires RequestReset(db, v, email, now, token).reply.status == 200
    requires CharField(password, 8, Some(68)).Accepted?
    ensures var db1 := RequestReset(db, v, email, now, token).db;
            Wf(db1)
            && (later <= now + ResetLifetime <==> ConfirmReset(db1, Some(token), password, later).reply.status == 200)
            && (later > now + ResetLifetime ==>
                  ConfirmReset(db1, Some(token), password, later) == Outcome(db1, Error400(ResetExpired)))
            && (later <= now + ResetLifetime ==>
                  var db2 := ConfirmReset(db1, Some(token), password, later).db;
                  Wf(db2) && ConfirmReset(db2, Some(token), password, later).reply == Error400(ResetInvalid))
  {
    RequestResetKeepsWf(db, v, email, now, token);
    var db1 := RequestReset(db, v, email, now, token).db;
    ConfirmResetKeepsWf(db1, Some(token), password, later);
  }

  // ------------------------------------------------ password and username

  const PasswordChanged := "Password changed successfully."
  const WrongOldPassword := "Incorrect old password."
  const UsernameChanged := "Username changed successfully."
  const UsernameInUse := "This username is already taken."

  /** `ChangePasswordView.post`: authentication, both fields, then the old
      password decide; only then is the new one stored. */
  function ChangePassword(db: Db, auth: Option<string>, oldPassword: Option<string>, newPassword: Option<string>)
    : (o: Outcome)
    ensures o.reply.status != 200 ==> o.db == db
    ensures !Authenticated(db, auth) ==> o.reply == Unauthorized
    ensures o.reply.status == 200 <==>
              Authenticated(db, auth) && CharField(oldPassword, 0, None).Accepted?
              && CharField(newPassword, 8, None).Accepted?
              && CheckPassword(db.users[auth.value], PyStrip(oldPassword.value))
    ensures o.reply.status == 200 ==>
              o.db == db.(users := db.users[auth.value := db.users[auth.value].(password := Some(PyStrip(newPassword.value)))])
    ensures (Authenticated(db, auth) && CharField(oldPassword, 0, None).Accepted?
             && CharField(newPassword, 8, None).Accepted?
             && !CheckPassword(db.users[auth.value], PyStrip(oldPassword.value))) ==>
              o.reply == Error400(WrongOldPassword)
  {
    if !Authenticated(db, auth) then Outcome(db, Unauthorized)
    else
      var o := CharField(oldPassword, 0, None);
      var n := CharField(newPassword, 8, None);
      if o.Rejected? || n.Rejected? then
        Outcome(db, Reply(400, FieldErrors(Put(Put(map[], "old_password", o), "new_password", n))))
      else
        var u := db.users[auth.value];
        if !CheckPassword(u, o.value) then Outcome(db, Error400(WrongOldPassword))
        else Outcome(db.(users := db.users[auth.value := u.(password := Some(n.value))]),
                     Reply(200, Detail("message", PasswordChanged)))
  }

  /** After a change the new password matches and the old one no longer does. */
  lemma ChangePasswordReplaces(db: Db, auth: Option<string>, oldPassword: Option<string>, newPassword: Option<string>)
    requires ChangePassword(db, auth, oldPassword, newPassword).reply.status == 200
    requires PyStrip(oldPassword.value) != PyStrip(newPassword.value)
    ensures var u := ChangePassword(db, auth, oldPassword, newPassword).db.users[auth.value];
            CheckPassword(u, PyStrip(newPassword.value)) && !CheckPassword(u, PyStrip(oldPassword.value))
  {
  }

  /** `ChangeUsernameView.post`: a name already held by anyone, the caller
      included, is refused. */
  function ChangeUsername(db: Db, auth: Option<string>, newName: Option<string>, password: Option<string>): (o: Outcome)
    ensures o.reply.status != 200 ==> o.db == db
    ensures !Authenticated(db, auth) ==> o.reply == Unauthorized
    ensures o.reply.status == 200 <==>
              Authenticated(db, auth) && CharField(newName, 3, Some(150)).Accepted?
              && CharField(password, 0, None).Accepted?
              && CheckPassword(db.users[auth.value], PyStrip(password.value))
              && !UsernameTaken(db, PyStrip(newName.value))
    ensures o.reply.status == 200 ==>
              o.db == db.(users := db.users[auth.value := db.users[auth.value].(username := PyStrip(newName.value))])
    ensures (Authenticated(db, auth) && CharField(newName, 3, Some(150)).Accepted?
             && CharField(password, 0, None).Accepted?
             && CheckPassword(db.users[auth.value], PyStrip(password.value))
             && UsernameTaken(db, PyStrip(newName.value))) ==>
              o.reply == Error400(UsernameInUse)
  {
    if !Authenticated(db, auth) then Outcome(db, Unauthorized)
    else
      var n := CharField(newName, 3, Some(150));
      var p := CharField(password, 0, None);
      if n.Rejected? || p.Rejected? then
        Outcome(db, Reply(400, FieldErrors(Put(Put(map[], "new_username", n), "password", p))))
      else
        var u := db.users[auth.value];
        if !CheckPassword(u, p.value) then Outcome(db, Error400(WrongPassword))
        else if UsernameTaken(db, n.value) then Outcome(db, Error400(UsernameInUse))
        else Outcome(db.(users := db.users[auth.value := u.(username := n.value)]),
                     Reply(200, Detail("message", UsernameChanged)))
  }

  /** Asking for one's own current name is refused as taken. */
  lemma OwnNameIsTaken(db: Db, auth: Option<string>, password: Option<string>)
    requires Authenticated(db, auth)
    requires PyStrip(db.users[auth.value].username) == db.users[auth.value].username
    ensures ChangeUsername(db, auth, Some(db.users[auth.value].username), password).reply.status != 200
  {
    assert UsernameTaken(db, db.users[auth.value].username);
  }

  lemma ChangesKeepWf(db: Db, auth: Option<string>, a: Option<string>, b: Option<string>)
    requires Wf(db)
    ensures Wf(ChangePassword(db, auth, a, b).db)
    ensures Wf(ChangeUsername(db, auth, a, b).db)
  {
    if ChangeUsername(db, auth, a, b).reply.status == 200 {
      PutUserKeepsWf(db, db.users[auth.value].(username := PyStrip(a.value)));
    }
    if ChangePassword(db, auth, a, b).reply.status == 200 {
      PutUserKeepsWf(db, db.users[auth.value].(password := Some(PyStrip(b.value))));
    }
  }

  // ----------------------------------------------------------- Google sign-in

  /** What Google's token check yields: the claims read, or `None` when the
      token is refused. */
  datatype GoogleClaims = GoogleClaims(email: Option<string>, name: Option<string>)

  /** The row `get_or_create` inserts before the view fills it in: no username,
      no usable password, active (the model default) and unverified. */
  function BareUser(email: string, token: Uuid): (u: User)
    ensures u.email == email && u.username == "" && u.password.None?
    ensures u.isActive && !u.isEmailVerified && u.role == DefaultRole
  {
    User("", email, DefaultRole, None, true, false, token)
  }

  /** `GoogleLoginView.post`. An existing address gets tokens unchanged. A new
      one is inserted bare and then given the Google name and marked verified;
      each write can hit the username constraint. The first write failing
      stores nothing; the second failing leaves the bare row behind. */
  function GoogleLogin(db: Db, claims: Option<GoogleClaims>, issued: Issued, token: Uuid): (o: Outcome)
    ensures claims.None? ==> o == Outcome(db, Error400("Invalid token"))
    ensures (claims.Some? && claims.value.email.None?) ==> o == Outcome(db, Crash())
    ensures (claims.Some? && claims.value.email.Some? && claims.value.email.value in db.users) ==>
              o == Outcome(db, Reply(200, Tokens(issued.refresh, issued.access)))
    ensures o.reply.status in {200, 400, 500}
    ensures o.reply.status == 200 ==> o.reply.body == Tokens(issued.refresh, issued.access)
    ensures (o.reply.status == 200 && claims.value.email.value !in db.users) ==>
              o.db == db.(users := db.users[claims.value.email.value :=
                                              BareUser(claims.value.email.value, token).(
                                                username := claims.value.name.GetOr(""), isEmailVerified := true)])
    ensures (o.reply.status == 500 && o.db != db) ==>
              o.db == db.(users := db.users[claims.value.email.value := BareUser(claims.value.email.value, token)])
  {
    if claims.None? then Outcome(db, Error400("Invalid token"))
    else if claims.value.email.None? then Outcome(db, Crash())
    else
      var e := claims.value.email.value;
      var name := claims.value.name.GetOr("");
      if e in db.users then Outcome(db, Reply(200, Tokens(issued.refresh, issued.access)))
      else if UsernameTaken(db, "") then Outcome(db, Crash())
      else
        var bare := BareUser(e, token);
        if UsernameTaken(db, name) then Outcome(db.(users := db.users[e := bare]), Crash())
        else Outcome(db.(users := db.users[e := bare.(username := name, isEmailVerified := true)]),
                     Reply(200, Tokens(issued.refresh, issued.access)))
  }

  /** A second sign-in with the same claims changes nothing more. */
  lemma GoogleLoginIdempotent(db: Db, claims: Option<GoogleClaims>, issued: Issued, token: Uuid)
    ensures var db1 := GoogleLogin(db, claims, issued, token).db;
            GoogleLogin(db1, claims, issued, token).db == db1
  {
  }

  /** A Google name already held by a registered user fails the sign-in, leaves
      an active, unverified row with an empty username behind, and the next
      sign-in with the same claims is answered with tokens for that row. */
  lemma GoogleNameClash(db: Db, e: string, name: string, issued: Issued, token: Uuid)
    requires e !in db.users && !UsernameTaken(db, "") && UsernameTaken(db, name)
    ensures var claims := Some(GoogleClaims(Some(e), Some(name)));
            var o := GoogleLogin(db, claims, issued, token);
            o.reply == Crash() && e in o.db.users && o.db.users[e] == BareUser(e, token)
            && GoogleLogin(o.db, claims, issued, token).reply.status == 200
  {
  }

  lemma GoogleLoginKeepsWf(db: Db, claims: Option<GoogleClaims>, issued: Issued, token: Uuid)
    requires Wf(db)
    ensures Wf(GoogleLogin(db, claims, issued, token).db)
  {
    var o := GoogleLogin(db, claims, issued, token);
    if o.db != db {
      var e := claims.value.email.value;
      PutUserKeepsWf(db, o.db.users[e]);
    }
  }
}
