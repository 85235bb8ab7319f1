/**
 * The dashboard shell: an in-memory user store with its signup/login handler, and the router
 * that picks the page for a path, gated on the session.
 */
module App {
  import opened Util

  // ---------------------------------------------------------------- session and store

  /** The session store: whether someone is logged in, and as whom. */
  datatype Session = Session(loggedIn: bool, email: string)

  /** The session the app starts with. */
  const LoggedOut: Session := Session(false, "")

  /** The input that fired the auth handler. */
  datatype Button = SignupButton | LoginButton | OtherTrigger

  const MissingCredentials: string := "Enter email & password"
  const AlreadyExists: string := "User already exists"
  const SignedUp: string := "Signup successful!"
  const InvalidLogin: string := "Invalid login"
  const LoggedIn: string := "Login successful!"

  /** The handler's effect: the store afterwards, the new session and the message shown. */
  datatype AuthResult = AuthResult(users: map<string, string>, session: Session, message: string)

  /**
   * The signup/login handler over the store `users` (email to password). An email or password
   * that is missing or empty is written "".
   */
  function AuthStep(users: map<string, string>, button: Button, email: string, password: string, current: Session)
    : (r: AuthResult)
    // the store only grows, by at most the given email, and no password is ever replaced
    ensures forall e :: e in users ==> e in r.users && r.users[e] == users[e]
    ensures r.users.Keys <= users.Keys + {email}
    // a missing field is reported before the button is looked at
    ensures email == "" || password == "" ==> r == AuthResult(users, current, MissingCredentials)
    ensures button == SignupButton && email != "" && password != "" ==>
      if email in users then r == AuthResult(users, current, AlreadyExists)
      else r.users == users[email := password] && r.session == Session(true, email) && r.message == SignedUp
    ensures button == LoginButton && email != "" && password != "" ==>
      r == if email in users && users[email] == password then AuthResult(users, Session(true, email), LoggedIn)
           else AuthResult(users, current, InvalidLogin)
    ensures button == OtherTrigger && email != "" && password != "" ==> r == AuthResult(users, current, "")
    // a session only changes to one whose credentials are in the store
    ensures r.session != current ==> r.session == Session(true, email) && email in r.users && r.users[email] == password
  {
    if email == "" || password == "" then AuthResult(users, current, MissingCredentials)
    else
      match button
      case SignupButton =>
        if email in users then AuthResult(users, current, AlreadyExists)
        else AuthResult(users[email := password], Session(true, email), SignedUp)
      case LoginButton =>
        if email !in users || users[email] != password then AuthResult(users, current, InvalidLogin)
        else AuthResult(users, Session(true, email), LoggedIn)
      case OtherTrigger => AuthResult(users, current, "")
  }

  /** The process-wide user store, updated in place by signups. */
  class UserStore {
    var users: map<string, string>

    constructor ()
      ensures users == map[]
    {
      users := map[];
    }

    /** The auth handler: returns the new session and the message, and records a successful signup. */
    method Auth(button: Button, email: string, password: string, current: Session)
      returns (session: Session, message: string)
      modifies this
      ensures AuthResult(users, session, message) == AuthStep(old(users), button, email, password, current)
    {
      if email == "" || password == "" {
        return current, MissingCredentials;
      }
      if button == SignupButton {
        if email in users {
          return current, AlreadyExists;
        }
        users := users[email := password];
        return Session(true, email), SignedUp;
      }
      if button == LoginButton {
        if email !in users || users[email] != password {
          return current, InvalidLogin;
        }
        return Session(true, email), LoggedIn;
      }
      return current, "";
    }
  }

  /**
   * After a signup with a new email: signing up again with it fails, logging in with its password
   * succeeds, and logging in with any other password fails.
   */
  lemma SignupThenLogin(users: map<string, string>, email: string, password: string, other: string, current: Session)
    requires email != "" && password != "" && other != "" && email !in users
    ensures var after := AuthStep(users, SignupButton, email, password, current);
      && after.session == Session(true, email)
      && AuthStep(after.users, SignupButton, email, other, after.session).message == AlreadyExists
      && AuthStep(after.users, SignupButton, email, other, after.session).users[email] == password
      && AuthStep(after.users, LoginButton, email, password, LoggedOut).session == Session(true, email)
      && (other != password ==> AuthStep(after.users, LoginButton, email, other, LoggedOut).message == InvalidLogin)
  {
  }

  /** A client of the store: the signup and login sequence of a user. */
  method SignupAndLoginScenario() {
    var store := new UserStore();
    var s, m := store.Auth(SignupButton, "a@x.com", "pw1", LoggedOut);
    assert s == Session(true, "a@x.com") && m == SignedUp;
    s, m := store.Auth(SignupButton, "a@x.com", "pw2", LoggedOut);
    assert s == LoggedOut && m == AlreadyExists;
    s, m := store.Auth(LoginButton, "a@x.com", "wrong", LoggedOut);
    assert s == LoggedOut && m == InvalidLogin;
    s, m := store.Auth(LoginButton, "a@x.com", "pw1", LoggedOut);
    assert s == Session(true, "a@x.com") && m == LoggedIn;
  }

  // ---------------------------------------------------------------- routing

  /** The pages the router can show. */
  datatype Page = LoginPage | HomePage | BarChartsPage | TreemapsPage | PieChartPage | SurfacePlotsPage | MapPage

  /** The route table: the paths the router recognises and the page each one shows. */
  const Routes: map<string, Page> := map[
    "/" := HomePage,
    "/home" := HomePage,
    "/bar-charts" := BarChartsPage,
    "/treemaps" := TreemapsPage,
    "/pie-chart" := PieChartPage,
    "/3d-surface" := SurfacePlotsPage,
    "/rr-map" := MapPage,
    "/logout" := LoginPage
  ]

  /** The links of the navigation bar, in order. */
  const NavbarHrefs: seq<string> := ["/home", "/bar-charts", "/treemaps", "/pie-chart", "/3d-surface", "/rr-map", "/logout"]

  /**
   * The page for a path: the login page for everyone not logged in; otherwise the route table's
   * page, with home for any path it does not know.
   */
  function RenderPage(path: string, user: Session): (p: Page)
    ensures !user.loggedIn ==> p == LoginPage
    ensures user.loggedIn ==> p == if path in Routes then Routes[path] else HomePage
  {
    if !user.loggedIn then LoginPage
    else if path == "/" || path == "/home" then HomePage
    else if path == "/bar-charts" then BarChartsPage
    else if path == "/treemaps" then TreemapsPage
    else if path == "/pie-chart" then PieChartPage
    else if path == "/3d-surface" then SurfacePlotsPage
    else if path == "/rr-map" then MapPage
    else if path == "/logout" then LoginPage
    else HomePage
  }

  /** For a logged-in user the login page appears for "/logout" and for no other path. */
  lemma LoginPageOnlyOnLogout(path: string, user: Session)
    requires user.loggedIn
    ensures RenderPage(path, user) == LoginPage <==> path == "/logout"
  {
  }

  /** The page each navigation link leads to, in link order. */
  function LinkedPages(user: Session): (r: seq<Page>)
    ensures |r| == |NavbarHrefs|
    ensures forall i :: 0 <= i < |NavbarHrefs| ==> r[i] == RenderPage(NavbarHrefs[i], user)
  {
    seq(|NavbarHrefs|, i requires 0 <= i < |NavbarHrefs| => RenderPage(NavbarHrefs[i], user))
  }

  /**
   * Each navigation link leads to a different page, and together they reach every page; the
   * session is not an output of routing, so after "/logout" the user is still logged in and
   * every link still leads to its page.
   */
  lemma NavbarReachesEveryPage(user: Session)
    requires user.loggedIn
    ensures NoDup(LinkedPages(user))
    ensures forall p: Page :: p in LinkedPages(user)
  {
    var pages := [HomePage, BarChartsPage, TreemapsPage, PieChartPage, SurfacePlotsPage, MapPage, LoginPage];
    assert LinkedPages(user) == pages;
    forall p: Page ensures p in pages {
      match p
      case LoginPage => assert pages[6] == p;
      case HomePage => assert pages[0] == p;
      case BarChartsPage => assert pages[1] == p;
      case TreemapsPage => assert pages[2] == p;
      case PieChartPage => assert pages[3] == p;
      case SurfacePlotsPage => assert pages[4] == p;
      case MapPage => assert pages[5] == p;
    }
  }
}
