/** The login page (`Login`): a username is verified first, then the user
    either types a password or, on first login, sets one. The authentication
    store's calls are inputs (how they settled); the toasts and the route
    navigated to are outputs. */
module Login {
  import opened Js

  datatype Role = Admin | Teacher | Student

  datatype Form = Form(
    username: string,
    password: string,
    newPassword: string,
    confirmPassword: string,
    role: Role,
    settingPassword: bool,
    verifying: bool)

  const Initial := Form("", "", "", "", Admin, false, true)

  /** Which of the three forms is on screen. */
  datatype Screen = UsernameScreen | PasswordScreen | SetPasswordScreen

  function ScreenOf(f: Form): Screen {
    if f.verifying then UsernameScreen
    else if f.settingPassword then SetPasswordScreen
    else PasswordScreen
  }

  /** The set-password flag is only ever raised after leaving the username
      screen. */
  predicate Consistent(f: Form) {
    f.verifying ==> !f.settingPassword
  }

  datatype Route = AdminTeachers | TeacherHome | StudentExams

  function Path(r: Route): string {
    match r
    case AdminTeachers => "/admin/teachers"
    case TeacherHome => "/teacher"
    case StudentExams => "/student/exams"
  }

  datatype Toast = Success(text: string) | Error(text: string)

  datatype Outcome = Outcome(form: Form, toasts: seq<Toast>, navigate: Option<Route>)

  /** What `verifyUsername` answers: no such user, or a user that may still
      need to set a password. */
  datatype Verified = NotFound | Found(requiresPasswordSetup: bool)

  /** What `login` answers. */
  datatype LoggedIn = LoggedIn(role: Role, requiresPasswordSetup: bool)

  /** `handleVerifyUsername`. */
  function VerifyUsername(f: Form, reply: Settled<Verified>): (o: Outcome)
    ensures Trim(f.username) == [] ==>
              o == Outcome(f, [Error("Please enter a username")], None)
    ensures Trim(f.username) != [] && reply.Resolved? && reply.value.Found? ==>
              !o.form.verifying
              && (o.form.settingPassword <==> f.settingPassword || reply.value.requiresPasswordSetup)
    ensures !(Trim(f.username) != [] && reply.Resolved? && reply.value.Found?) ==> o.form == f
    ensures o.form.username == f.username && o.form.role == f.role && o.navigate.None?
  {
    if Trim(f.username) == [] then Outcome(f, [Error("Please enter a username")], None)
    else match reply
      case Rejected(_) => Outcome(f, [Error("Failed to verify username")], None)
      case Resolved(NotFound) => Outcome(f, [Error("Username not found")], None)
      case Resolved(Found(setup)) =>
        if setup then
          Outcome(f.(verifying := false, settingPassword := true),
                  [Success("Please set your password for first-time login")], None)
        else Outcome(f.(verifying := false), [], None)
  }

  /** Where a signed-in user of each role lands. */
  function HomeOf(r: Role): Route {
    match r
    case Admin => AdminTeachers
    case Teacher => TeacherHome
    case Student => StudentExams
  }

  /** `handleLogin`: a user who still has to set a password is sent to that
      form; everyone else is routed by the role the server reports. */
  function LogIn(f: Form, reply: Settled<LoggedIn>): (o: Outcome)
    ensures reply.Resolved? && reply.value.requiresPasswordSetup ==>
              o.form == f.(settingPassword := true) && o.navigate.None?
    ensures reply.Resolved? && !reply.value.requiresPasswordSetup ==>
              o.form == f && o.navigate == Some(HomeOf(reply.value.role))
              && o.toasts == [Success("Login successful")]
    ensures reply.Rejected? ==> o.form == f && o.navigate.None? && |o.toasts| == 1 && o.toasts[0].Error?
  {
    match reply
    case Rejected(msg) =>
      Outcome(f, [Error(if msg != "" then msg else "Invalid username or password")], None)
    case Resolved(user) =>
      if user.requiresPasswordSetup then
        Outcome(f.(settingPassword := true), [Success("Please set your password for first-time login")], None)
      else Outcome(f, [Success("Login successful")], Some(HomeOf(user.role)))
  }

  /** `handleSetPassword`. The two entries must match (checked first) and be
      at least six characters long; then the password is stored and the user
      logged in with it and sent to the teacher dashboard if the selected
      role is teacher, otherwise to the student exams. */
  function SetPassword(f: Form, stored: Settled<()>, reply: Settled<LoggedIn>): (o: Outcome)
    ensures o.form == f
    ensures f.newPassword != f.confirmPassword ==>
              o.toasts == [Error("Passwords do not match")] && o.navigate.None?
    ensures f.newPassword == f.confirmPassword && |f.newPassword| < 6 ==>
              o.toasts == [Error("Password must be at least 6 characters long")] && o.navigate.None?
    ensures o.navigate.Some? <==>
              f.newPassword == f.confirmPassword && |f.newPassword| >= 6 && stored.Resolved? && reply.Resolved?
    ensures o.navigate.Some? ==> o.navigate.value == if f.role == Teacher then TeacherHome else StudentExams
  {
    if f.newPassword != f.confirmPassword then Outcome(f, [Error("Passwords do not match")], None)
    else if |f.newPassword| < 6 then
      Outcome(f, [Error("Password must be at least 6 characters long")], None)
    else if stored.Rejected? then Outcome(f, [Error("Failed to set password")], None)
    else if reply.Rejected? then
      Outcome(f, [Success("Password set successfully"), Error("Failed to set password")], None)
    else
      Outcome(f, [Success("Password set successfully")],
              Some(if f.role == Teacher then TeacherHome else StudentExams))
  }

  /** `resetForm`: back to the username screen with every password field
      cleared; the username and role stay. */
  function ResetForm(f: Form): (g: Form)
    ensures ScreenOf(g) == UsernameScreen && Consistent(g)
    ensures g.username == f.username && g.role == f.role
    ensures g.password == "" && g.newPassword == "" && g.confirmPassword == ""
  {
    f.(verifying := true, settingPassword := false, password := "", newPassword := "", confirmPassword := "")
  }

  /** Choosing a role button always resets the form. */
  function SelectRole(f: Form, r: Role): (g: Form)
    ensures g == ResetForm(f).(role := r)
  {
    ResetForm(f.(role := r))
  }

  /** A blank username never reaches the server: the outcome is the same
      whatever the verification would have answered. */
  lemma BlankUsernameNotVerified(f: Form, a: Settled<Verified>, b: Settled<Verified>)
    requires AllSpace(f.username)
    ensures VerifyUsername(f, a) == VerifyUsername(f, b)
    ensures VerifyUsername(f, a).form == f
  {
    BlankIffAllSpace(f.username);
  }

  /** From a consistent form, a verified username goes to the set-password
      screen iff the server says a password must be set, and to the password
      screen otherwise. */
  lemma VerifiedUsernameScreen(f: Form, setup: bool)
    requires Consistent(f) && ScreenOf(f) == UsernameScreen && Trim(f.username) != []
    ensures var g := VerifyUsername(f, Resolved(Found(setup))).form;
            Consistent(g) && ScreenOf(g) == if setup then SetPasswordScreen else PasswordScreen
  {
  }

  /** Each role's landing page. */
  lemma RoleRoutes()
    ensures Path(HomeOf(Admin)) == "/admin/teachers"
    ensures Path(HomeOf(Teacher)) == "/teacher"
    ensures Path(HomeOf(Student)) == "/student/exams"
  {
  }

  /** Logging in from the password screen keeps the form consistent: it
      moves to the set-password screen iff the server says a password must
      be set, and otherwise stays where it is. */
  lemma LogInKeepsConsistent(f: Form, reply: Settled<LoggedIn>)
    requires Consistent(f) && ScreenOf(f) == PasswordScreen
    ensures var g := LogIn(f, reply).form;
            Consistent(g)
            && ScreenOf(g) == if reply.Resolved? && reply.value.requiresPasswordSetup
                              then SetPasswordScreen else PasswordScreen
  {
  }

  /** After setting a password, only whether the login succeeded matters:
      the role the server reports is not consulted. */
  lemma SetPasswordIgnoresServerRole(f: Form, stored: Settled<()>, a: Settled<LoggedIn>, b: Settled<LoggedIn>)
    requires a.Resolved? <==> b.Resolved?
    ensures SetPassword(f, stored, a) == SetPassword(f, stored, b)
  {
  }

  /** A teacher or student who sets a password lands where logging in would
      have sent them; an admin lands on the student exams instead of the
      admin home. */
  lemma SetPasswordLanding(f: Form, stored: Settled<()>, reply: Settled<LoggedIn>)
    requires SetPassword(f, stored, reply).navigate.Some?
    ensures f.role != Admin ==> SetPassword(f, stored, reply).navigate.value == HomeOf(f.role)
    ensures f.role == Admin ==> SetPassword(f, stored, reply).navigate.value != HomeOf(Admin)
  {
  }

  /** A mismatch is reported even when the password is also too short. */
  lemma MismatchReportedFirst(f: Form, stored: Settled<()>, reply: Settled<LoggedIn>)
    requires f.newPassword != f.confirmPassword && |f.newPassword| < 6
    ensures SetPassword(f, stored, reply).toasts == [Error("Passwords do not match")]
  {
  }
}
