/** The demo admin session: the login page's credential check and loading
    flag, the "isAdmin" item it stores, logout, and the dashboard's guard. */
module AdminSession {
  import opened Optional

  /** The only credential pair the demo login accepts. */
  const AdminEmail: string := "admin@incaphyto.com"
  const AdminPassword: string := "admin123"

  /** The value stored under "isAdmin" on a successful sign-in. */
  const AdminFlagValue: string := "true"

  /** The stored "isAdmin" item (None when absent) and the login page's
      loading flag. */
  datatype State = State(adminFlag: Option<string>, loading: bool)

  /** What the user sees when an attempt resolves. */
  datatype Outcome = Welcome | InvalidCredentials

  datatype Resolution = Resolution(state: State, outcome: Outcome)

  /** Where the dashboard sends the user when it is mounted. */
  datatype Route = StayOnDashboard | RedirectToLogin

  /** The stored item read as a JavaScript condition: absent and empty are
      both false. */
  predicate SignedIn(s: State)
  {
    s.adminFlag.Some? && s.adminFlag.value != []
  }

  /** Exact, case-sensitive comparison with the demo pair, no trimming. */
  predicate ValidCredentials(email: string, password: string)
  {
    email == AdminEmail && password == AdminPassword
  }

  /** The submit button is enabled only while no attempt is pending. */
  predicate CanSubmit(s: State)
  {
    !s.loading
  }

  /** Submitting the form: a pending attempt starts and the loading flag is
      raised; while one is pending the disabled button submits nothing. */
  function Submit(s: State): (t: State)
    ensures t.loading
    ensures t.adminFlag == s.adminFlag
    ensures !CanSubmit(t)
  {
    s.(loading := true)
  }

  /** The pending attempt resolves: the flag is stored exactly when the
      credentials are the demo pair, and the loading flag drops either way. */
  function Resolve(s: State, email: string, password: string): (r: Resolution)
    ensures !r.state.loading && CanSubmit(r.state)
    ensures r.outcome == Welcome <==> ValidCredentials(email, password)
    ensures r.outcome == Welcome ==> r.state.adminFlag == Some(AdminFlagValue) && SignedIn(r.state)
    ensures r.outcome == InvalidCredentials ==> r.state.adminFlag == s.adminFlag
  {
    if email == AdminEmail && password == AdminPassword then
      Resolution(State(Some(AdminFlagValue), false), Welcome)
    else
      Resolution(s.(loading := false), InvalidCredentials)
  }

  /** A whole sign-in attempt from the login page as the user sees it: a
      click while an attempt is pending does nothing. */
  function Attempt(s: State, email: string, password: string): (t: State)
    ensures s.loading ==> t == s
    ensures !s.loading ==> !t.loading
    ensures !s.loading ==> (SignedIn(t) <==> ValidCredentials(email, password) || SignedIn(s))
  {
    if !CanSubmit(s) then s else Resolve(Submit(s), email, password).state
  }

  /** Logging out removes the stored item. */
  function Logout(s: State): (t: State)
    ensures !SignedIn(t)
    ensures t.adminFlag == None && t.loading == s.loading
  {
    s.(adminFlag := None)
  }

  /** The dashboard's mount-time check of the stored item. */
  function DashboardGuard(s: State): (r: Route)
    ensures r == StayOnDashboard <==> SignedIn(s)
  {
    if s.adminFlag.None? || s.adminFlag.value == [] then RedirectToLogin else StayOnDashboard
  }

  /** The loading flag brackets an attempt: raised from submission until the
      attempt resolves, lowered afterwards whatever the outcome. */
  lemma LoadingBrackets(s: State, email: string, password: string)
    requires CanSubmit(s)
    ensures Submit(s).loading
    ensures !Resolve(Submit(s), email, password).state.loading
    ensures !Attempt(s, email, password).loading
  {
  }

  /** A failed attempt leaves the stored flag as it was. */
  lemma FailedAttemptKeepsFlag(s: State, email: string, password: string)
    requires !ValidCredentials(email, password)
    ensures Attempt(s, email, password).adminFlag == s.adminFlag
  {
  }

  /** After a successful attempt the dashboard admits the user; after a
      logout it sends them back to the login page. */
  lemma GuardFollowsSession(s: State, email: string, password: string)
    requires CanSubmit(s) && ValidCredentials(email, password)
    ensures DashboardGuard(Attempt(s, email, password)) == StayOnDashboard
    ensures DashboardGuard(Logout(Attempt(s, email, password))) == RedirectToLogin
  {
  }

  /** Starting signed out, only the demo pair gets past the dashboard guard. */
  lemma GuardRequiresCredentials(email: string, password: string)
    ensures DashboardGuard(Attempt(State(None, false), email, password)) == StayOnDashboard
            <==> ValidCredentials(email, password)
  {
  }
}
