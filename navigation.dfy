/**
 * Where the login page (login.js) and the student dashboard (student-dashboard.js) send the
 * browser: the form check, the session the login stores, and the choice of target page from
 * the stored user type and the `redirect` query parameter.
 *
 * A target is the value assigned to `window.location.href`; `None` means the page stays.
 * `sessionStorage` holds at most one `user` entry, modelled as `Option<Session>`; `redirect`
 * is what `URLSearchParams.get` returned (`None` for `null`).
 */
module Navigation {
  import opened Wrappers
  import opened JsString

  /** The `user` entry of `sessionStorage`. */
  datatype Session = Session(username: string, password: string, userType: string)

  /** What submitting the login form does. */
  datatype LoginOutcome =
    | ShowError(message: string)
    | LoggedIn(session: Session, target: string)

  const MissingFieldsError: string := "Please fill in all fields"

  const LoginPage: string := "login.html"
  const StudentDashboard: string := "student-dashboard.html"
  const TeacherRoute: string := "/teacher"
  const TeacherPage: string := "index.html"
  const AdminPage: string := "admin.html"

  /** `if (redirectUrl)`: a present, non-empty `redirect` parameter. */
  predicate Truthy(redirect: Option<string>) {
    redirect.Some? && redirect.value != ""
  }

  /** The `switch (userType)` of `attemptLogin`: unknown types go to the teacher route. */
  function LoginTable(userType: string): string {
    match userType
    case "student" => StudentDashboard
    case "teacher" => TeacherRoute
    case "admin" => AdminPage
    case _ => TeacherRoute
  }

  /** The `switch (user.userType)` of `checkExistingLogin`: no `default`, so unknown types stay. */
  function ExistingTable(userType: string): Option<string> {
    match userType
    case "student" => Some(StudentDashboard)
    case "teacher" => Some(TeacherRoute)
    case "admin" => Some(AdminPage)
    case _ => None
  }

  /** Where `attemptLogin` sends the browser: the redirect parameter first, then the user type. */
  function LoginTarget(userType: string, redirect: Option<string>): (target: string)
    ensures Truthy(redirect) ==> target == redirect.value
    ensures !Truthy(redirect) ==> target == LoginTable(userType)
  {
    if Truthy(redirect) then redirect.value else LoginTable(userType)
  }

  /**
   * The submit handler: both fields are trimmed, a blank one shows the error and attempts
   * nothing; otherwise the trimmed fields and the selected type are stored and the browser moves on.
   */
  function SubmitLogin(username: string, password: string, userType: string, redirect: Option<string>): (r: LoginOutcome)
    ensures r.ShowError? <==> Trim(username) == "" || Trim(password) == ""
    ensures r.ShowError? ==> r.message == MissingFieldsError
    ensures r.LoggedIn? ==>
              && r.session == Session(Trim(username), Trim(password), userType)
              && r.target == LoginTarget(userType, redirect)
  {
    var u, p := Trim(username), Trim(password);
    if u == "" || p == "" then ShowError(MissingFieldsError)
    else LoggedIn(Session(u, p, userType), LoginTarget(userType, redirect))
  }

  /** `checkExistingLogin`: nothing without a stored session; else the redirect, else the type. */
  function ExistingLoginTarget(stored: Option<Session>, redirect: Option<string>): (target: Option<string>)
    ensures stored.None? ==> target.None?
    ensures stored.Some? && Truthy(redirect) ==> target == redirect
  {
    if stored.None? then None
    else if Truthy(redirect) then redirect
    else ExistingTable(stored.value.userType)
  }

  /** `checkAuthentication` of the dashboard: only students stay. */
  function DashboardTarget(stored: Option<Session>): (target: Option<string>)
    ensures target.None? <==> stored.Some? && stored.value.userType == "student"
  {
    if stored.None? then Some(LoginPage)
    else
      match stored.value.userType
      case "student" => None
      case "teacher" => Some(TeacherPage)
      case "admin" => Some(AdminPage)
      case _ => Some(LoginPage)
  }

  /** `openExerciseSet(id)`: the student page with the set's id as the `exerciseSet` parameter. */
  function OpenExerciseSetUrl(exerciseSetId: string): string {
    "student.html?exerciseSet=" + exerciseSetId
  }

  /** The browser state the dashboard's `logout` touches. */
  datatype Browser = Browser(user: Option<Session>, location: string)

  /** `logout`: the session entry is removed, then the login page is opened. */
  function Logout(b: Browser): (r: Browser)
    ensures r.user.None? && r.location == LoginPage
  {
    Browser(None, LoginPage)
  }

  // ---------------------------------------------------------------------------------------
  // Properties

  /** Without a redirect, the login page's table for the known and the unknown types. */
  lemma LoginDestinations(other: string)
    requires other != "student" && other != "teacher" && other != "admin"
    ensures LoginTarget("student", None) == StudentDashboard
    ensures LoginTarget("teacher", None) == TeacherRoute
    ensures LoginTarget("admin", None) == AdminPage
    ensures LoginTarget(other, None) == TeacherRoute
    ensures ExistingLoginTarget(Some(Session("", "", other)), None).None?
  {
  }

  /**
   * An already logged-in visitor goes where a fresh login would, except for an unknown type
   * without a redirect: the fresh login goes to the teacher route, the stored one stays put.
   */
  lemma ExistingAgreesWithLogin(s: Session, redirect: Option<string>)
    ensures Truthy(redirect) || s.userType in {"student", "teacher", "admin"} ==>
              ExistingLoginTarget(Some(s), redirect) == Some(LoginTarget(s.userType, redirect))
    ensures !Truthy(redirect) && s.userType !in {"student", "teacher", "admin"} ==>
              ExistingLoginTarget(Some(s), redirect).None? && LoginTarget(s.userType, redirect) == TeacherRoute
  {
  }

  /** The dashboard's table: no session or an unknown type back to login, teacher and admin away. */
  lemma DashboardDestinations(s: Session)
    ensures DashboardTarget(None) == Some(LoginPage)
    ensures s.userType == "teacher" ==> DashboardTarget(Some(s)) == Some(TeacherPage)
    ensures s.userType == "admin" ==> DashboardTarget(Some(s)) == Some(AdminPage)
    ensures s.userType !in {"student", "teacher", "admin"} ==> DashboardTarget(Some(s)) == Some(LoginPage)
  {
  }

  /**
   * The two pages disagree about teachers: the login page sends them to `/teacher`, the
   * dashboard to `index.html`. Students and admins are sent to the same place by both.
   */
  lemma TeacherDestinationsDisagree(s: Session)
    ensures s.userType == "teacher" ==> Some(LoginTarget(s.userType, None)) != DashboardTarget(Some(s))
    ensures s.userType == "admin" ==> Some(LoginTarget(s.userType, None)) == DashboardTarget(Some(s))
  {
  }

  /** A student who logs in without a redirect lands on the dashboard, which lets them stay. */
  lemma StudentLoginStays(username: string, password: string)
    requires Trim(username) != "" && Trim(password) != ""
    ensures var r := SubmitLogin(username, password, "student", None);
      r.LoggedIn? && r.target == StudentDashboard && DashboardTarget(Some(r.session)).None?
  {
  }

  /** After logging out, the dashboard sends the browser back to login. */
  lemma LogoutThenDashboard(b: Browser)
    ensures DashboardTarget(Logout(b).user) == Some(LoginPage)
  {
  }

  /** Different set ids open different pages. */
  lemma OpenExerciseSetInjective(a: string, b: string)
    requires OpenExerciseSetUrl(a) == OpenExerciseSetUrl(b)
    ensures a == b
  {
    var prefix := "student.html?exerciseSet=";
    assert OpenExerciseSetUrl(a)[|prefix|..] == a;
    assert OpenExerciseSetUrl(b)[|prefix|..] == b;
  }
}
