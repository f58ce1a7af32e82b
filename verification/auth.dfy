/** The sign-in and registration pages: the ordered checks of the
    registration form, the request body it sends, and where a signed-in
    user is sent. */
module Auth {
  import opened Wrappers
  import opened JsText
  import opened Session

  /** The registration form's fields, as typed. */
  datatype Form = Form(fullName: string, email: string, studentId: string, level: string,
                       phone: string, password: string, confirmPassword: string)

  /** The first failed check, in the order the page makes them. */
  datatype RegError = PasswordMismatch | PasswordTooShort | LevelMissing

  /** The registration request body; `level` is `None` where `parseInt` gives NaN. */
  datatype Body = Body(email: string, password: string, fullName: string, studentId: string,
                       level: Option<int>, phone: string)

  const MinPasswordLength: nat := 6

  /** The registration handler's checks: the two passwords must agree, the
      password must have at least six characters, and a level must be chosen.
      The first failure is reported; otherwise the body is built from the
      trimmed identity fields, the untouched password and `parseInt` of the level. */
  function ValidateRegistration(form: Form): (r: Result<Body, RegError>)
    ensures r == Failure(PasswordMismatch) <==> form.password != form.confirmPassword
    ensures r == Failure(PasswordTooShort) <==>
              form.password == form.confirmPassword && |form.password| < 6
    ensures r == Failure(LevelMissing) <==>
              form.password == form.confirmPassword && |form.password| >= 6 && form.level == ""
    ensures r.Success? ==> (r.value.password == form.password
                            && r.value.fullName == Trim(form.fullName)
                            && r.value.email == Trim(form.email)
                            && r.value.studentId == Trim(form.studentId)
                            && r.value.phone == Trim(form.phone)
                            && r.value.level == ParseInt(form.level))
  {
    var fullName := Trim(form.fullName);
    var email := Trim(form.email);
    var studentId := Trim(form.studentId);
    var phone := Trim(form.phone);
    if form.password != form.confirmPassword then Failure(PasswordMismatch)
    else if |form.password| < MinPasswordLength then Failure(PasswordTooShort)
    else if form.level == "" then Failure(LevelMissing)
    else Success(Body(email, form.password, fullName, studentId, ParseInt(form.level), phone))
  }

  /** A body is built exactly when all three checks pass. */
  lemma RegistrationAcceptedIffChecksPass(form: Form)
    ensures ValidateRegistration(form).Success? <==>
            (form.password == form.confirmPassword && |form.password| >= 6 && form.level != "")
  {
    var r := ValidateRegistration(form);
    if r.Failure? {
      assert r == Failure(r.error);
      match r.error
      case PasswordMismatch =>
      case PasswordTooShort =>
      case LevelMissing =>
    }
  }

  /** A six-character password that matches its confirmation passes the length check. */
  lemma SixCharactersSuffice(form: Form)
    requires form.password == form.confirmPassword && |form.password| == 6
    ensures ValidateRegistration(form) != Failure(PasswordTooShort)
    ensures form.level != "" ==> ValidateRegistration(form).Success?
  {
  }

  /** The checks only look at the passwords and the level: the identity
      fields never decide between acceptance and an error. */
  lemma ChecksIgnoreIdentityFields(form: Form, other: Form)
    requires form.password == other.password && form.confirmPassword == other.confirmPassword
    requires form.level == other.level
    ensures ValidateRegistration(form).Success? == ValidateRegistration(other).Success?
    ensures ValidateRegistration(form).Failure? ==> ValidateRegistration(form) == ValidateRegistration(other)
  {
  }

  // ---------------------------------------------------------------------------
  // Where a signed-in user goes
  // ---------------------------------------------------------------------------

  /** The page a user with `role` lands on. */
  function LandingPage(role: string): (r: string)
    ensures r == "admin.html" <==> role == "admin"
    ensures r == "admin.html" || r == "dashboard.html"
  {
    if role == "admin" then "admin.html" else "dashboard.html"
  }

  /** The outcome of the check at the top of the sign-in pages. A signed-in
      visitor whose stored user record decodes to `null` makes the page read
      a role of `null`, which raises an error. */
  datatype Redirect = StayOnPage | GoTo(page: string) | ScriptError

  /** On the login or registration page, a signed-in visitor is sent to the
      page for their role. */
  function ExistingSessionRedirect(store: Store, decode: Decoder, path: string): (r: Redirect)
    ensures r.StayOnPage? <==>
              !IsLoggedIn(store) || !(Contains(path, "login.html") || Contains(path, "register.html"))
    ensures r.GoTo? ==> GetUser(store, decode).Some? && r.page == LandingPage(GetUser(store, decode).value.role)
    ensures r.ScriptError? <==> !r.StayOnPage? && GetUser(store, decode).None?
  {
    if IsLoggedIn(store) && (Contains(path, "login.html") || Contains(path, "register.html")) then
      match GetUser(store, decode)
      case None => ScriptError
      case Some(user) => GoTo(LandingPage(user.role))
    else StayOnPage
  }

  /** After a successful sign-in: the token and the encoded user are saved and
      the user is sent to the page for their role. */
  function AfterLogin(store: Store, token: string, user: User, userRecord: string): (r: (Store, string))
    ensures r.0 == SaveSession(store, token, userRecord)
    ensures r.1 == "admin.html" <==> user.role == "admin"
    ensures user.role != "admin" ==> r.1 == "dashboard.html"
  {
    (SaveSession(store, token, userRecord), LandingPage(user.role))
  }

  /** After a successful registration: the session is saved and the user is
      sent to the dashboard, whatever their role. */
  function AfterRegistration(store: Store, token: string, userRecord: string): (r: (Store, string))
    ensures r.0 == SaveSession(store, token, userRecord)
    ensures r.1 == "dashboard.html"
  {
    (SaveSession(store, token, userRecord), "dashboard.html")
  }

  /** Coming back to the login or registration page after signing in leads to
      the same page the sign-in itself chose, provided the saved record decodes
      to the user. */
  lemma ReturnVisitAgreesWithLogin(store: Store, token: string, user: User, userRecord: string,
                                   decode: Decoder, path: string)
    requires token != "" && userRecord != "" && decode(userRecord) == Some(user)
    requires Contains(path, "login.html") || Contains(path, "register.html")
    ensures ExistingSessionRedirect(AfterLogin(store, token, user, userRecord).0, decode, path)
            == GoTo(AfterLogin(store, token, user, userRecord).1)
  {
    SavedSessionReadsBack(store, token, userRecord, decode);
  }

  /** After signing in, the session reports admin exactly when the sign-in sent
      the user to the admin page. */
  lemma AdminPageIffAdminSession(store: Store, token: string, user: User, userRecord: string,
                                 decode: Decoder)
    requires userRecord != "" && decode(userRecord) == Some(user)
    ensures IsAdmin(AfterLogin(store, token, user, userRecord).0, decode)
            <==> AfterLogin(store, token, user, userRecord).1 == "admin.html"
  {
    SavedSessionReadsBack(store, token, userRecord, decode);
  }
}
