/**
  The request handlers of app.py reduced to transitions over an in-memory
  user store and a session: `save_click`, `register`, `login`, `dashboard`
  and `logout`.
 */
module App {
  import opened Wrappers
  import opened History

  /** The stored output of the password-hashing primitive. */
  type Hash = string

  /** A user record; `history` is the nullable comma-joined column. */
  datatype User = User(username: string, password: Hash, history: Option<string>)

  /**
    The user table keyed by the unique username column, and the session's
    logged-in username (`None` when anonymous).
   */
  datatype State = State(users: map<string, User>, session: Option<string>)

  /** One handler call: the state afterwards and what the handler answered. */
  datatype Step<+R> = Step(state: State, response: R)

  /** Every record sits under its own username and the session names a stored user. */
  predicate Valid(st: State) {
    && (forall u :: u in st.users ==> st.users[u].username == u)
    && (st.session.Some? ==> st.session.value in st.users)
  }

  /** `current_user.is_authenticated`: the session names a user that loads. */
  predicate Authenticated(st: State) {
    st.session.Some? && st.session.value in st.users
  }

  /** A fresh application: no users, nobody logged in. */
  const Empty: State := State(map[], None)

  // ---------------------------------------------------------------- save_click

  /** 200 with the updated history column, or 400 "Invalid request". */
  datatype ClickResponse = ClickSaved(history: string) | InvalidRequest

  /**
    `save_click`: a truthy code from an authenticated user is added to that
    user's history; anything else is rejected and changes nothing.
   */
  function SaveClick(st: State, code: Option<string>): (r: Step<ClickResponse>)
    ensures r.response.InvalidRequest? <==> !(Truthy(code) && Authenticated(st))
    ensures r.response.InvalidRequest? ==> r.state == st
    ensures r.response.ClickSaved? ==>
              var me := st.session.value;
              && r.state.session == st.session
              && r.state.users.Keys == st.users.Keys
              && (forall u :: u in st.users && u != me ==> r.state.users[u] == st.users[u])
              && r.state.users[me].username == st.users[me].username
              && r.state.users[me].password == st.users[me].password
              && r.state.users[me].history == Some(r.response.history)
              && r.response.history == AddHistory(st.users[me].history, code.value)
    ensures Valid(st) ==> Valid(r.state)
  {
    if Truthy(code) && Authenticated(st) then
      var me := st.session.value;
      var user := st.users[me];
      var updated := user.(history := Some(AddHistory(user.history, code.value)));
      Step(st.(users := st.users[me := updated]), ClickSaved(updated.history.value))
    else
      Step(st, InvalidRequest)
  }

  // ------------------------------------------------------------------ register

  /** Why a registration was refused (the flashed message). */
  datatype RegisterError = PasswordMismatch | UsernameTaken

  /** Redirect to the login page after creating the account, or a refusal. */
  datatype RegisterResponse = Created | Refused(reason: RegisterError)

  /**
    `register`: mismatched passwords are refused first, then a taken
    username; otherwise a record with the hashed password and no history is
    added. `hashed` is the salted hash the hashing primitive produced for
    `password`. The session is never touched: registering does not log in.
   */
  function Register(st: State, username: string, password: string, confirm: string, hashed: Hash)
    : (r: Step<RegisterResponse>)
    ensures r.response == Refused(PasswordMismatch) <==> password != confirm
    ensures r.response == Refused(UsernameTaken) <==> password == confirm && username in st.users
    ensures r.response.Refused? ==> r.state == st
    ensures r.response.Created? ==>
              && username !in st.users
              && r.state.users.Keys == st.users.Keys + {username}
              && |r.state.users| == |st.users| + 1
              && r.state.users[username] == User(username, hashed, None)
              && (forall u :: u in st.users ==> r.state.users[u] == st.users[u])
    ensures r.state.session == st.session
    ensures Valid(st) ==> Valid(r.state)
  {
    if password != confirm then
      Step(st, Refused(PasswordMismatch))
    else if username in st.users then
      Step(st, Refused(UsernameTaken))
    else
      Step(st.(users := st.users[username := User(username, hashed, None)]), Created)
  }

  // --------------------------------------------------------------------- login

  /** The HTTP method of a request to `/login`. */
  datatype Method = Get | Post

  /** What `login` answered. */
  datatype LoginResponse =
    | AlreadyLoggedIn     // redirect home without looking at the form
    | LoggedIn            // session established, redirect home
    | IncorrectPassword   // flash "Incorrect password..." and show the form
    | UnknownUser         // flash "Invalid username or password" and show the form
    | LoginForm           // plain GET: show the form

  /**
    `login`: an authenticated session short-circuits; a POST looks the user
    up, distinguishing an unknown username from a wrong password, and only a
    password that `check` accepts against the stored hash logs the user in.
   */
  function Login(st: State, verb: Method, username: string, password: string,
                 check: (Hash, string) -> bool): (r: Step<LoginResponse>)
    ensures r.response == AlreadyLoggedIn <==> Authenticated(st)
    ensures r.response == LoginForm <==> !Authenticated(st) && verb == Get
    ensures r.response == UnknownUser <==>
              !Authenticated(st) && verb == Post && username !in st.users
    ensures r.response == IncorrectPassword <==>
              && !Authenticated(st) && verb == Post && username in st.users
              && !check(st.users[username].password, password)
    ensures r.response == LoggedIn <==>
              && !Authenticated(st) && verb == Post && username in st.users
              && check(st.users[username].password, password)
    ensures r.response == LoggedIn ==> r.state == st.(session := Some(username))
    ensures r.response != LoggedIn ==> r.state == st
    ensures Valid(st) ==> Valid(r.state)
  {
    if Authenticated(st) then Step(st, AlreadyLoggedIn)
    else if verb == Get then Step(st, LoginForm)
    else if username !in st.users then assert verb == Post; Step(st, UnknownUser)
    else if check(st.users[username].password, password) then
      Step(st.(session := Some(username)), LoggedIn)
    else Step(st, IncorrectPassword)
  }

  // ------------------------------------------------------- dashboard and logout

  /** `login_required` turned the request away (redirect to the login view). */
  datatype Unauthenticated = Unauthenticated

  /** `dashboard`: the logged-in user's history as a list of codes. */
  function GetDashboard(st: State): (r: Result<seq<string>, Unauthenticated>)
    ensures r.Failure? <==> !Authenticated(st)
    ensures r.Success? ==> r.value == Dashboard(st.users[st.session.value].history)
  {
    if Authenticated(st) then Success(Dashboard(st.users[st.session.value].history))
    else Failure(Unauthenticated)
  }

  /** `logout`: ends an authenticated session; the user table is untouched. */
  function Logout(st: State): (r: Result<State, Unauthenticated>)
    ensures r.Failure? <==> !Authenticated(st)
    ensures r.Success? ==> r.value.users == st.users && r.value.session == None
    ensures r.Success? && Valid(st) ==> Valid(r.value)
  {
    if Authenticated(st) then Success(st.(session := None)) else Failure(Unauthenticated)
  }

  // ---------------------------------------------------------------- properties

  /** A new account can log in with the password it was registered with. */
  lemma RegisterThenLogin(st: State, username: string, password: string, hashed: Hash,
                          check: (Hash, string) -> bool)
    requires Valid(st) && !Authenticated(st)
    requires check(hashed, password)
    requires Register(st, username, password, password, hashed).response == Created
    ensures
      var after := Register(st, username, password, password, hashed).state;
      Login(after, Post, username, password, check).response == LoggedIn
  {
  }

  /** Saving the same comma-free code twice leaves the history as saving it once did. */
  lemma SaveClickTwice(st: State, code: string)
    requires Authenticated(st) && code != "" && Delimited.Comma !in code
    ensures
      var once := SaveClick(st, Some(code));
      var twice := SaveClick(once.state, Some(code));
      twice.state == once.state && twice.response == once.response
  {
    var me := st.session.value;
    AddHistoryIdempotent(st.users[me].history, code);
  }

  /**
    Register "alice", log in, click "N1" twice, read the dashboard, log out:
    the history holds "N1" once and the dashboard is refused afterwards.
   */
  lemma AliceScenario(hashed: Hash, check: (Hash, string) -> bool)
    requires check(hashed, "pw123")
    ensures
      var s1 := Register(Empty, "alice", "pw123", "pw123", hashed);
      var s2 := Login(s1.state, Post, "alice", "pw123", check);
      var s3 := SaveClick(s2.state, Some("N1"));
      var s4 := SaveClick(s3.state, Some("N1"));
      var out := Logout(s4.state);
      && s1.response == Created && !Authenticated(s1.state)
      && s2.response == LoggedIn
      && s3.response == ClickSaved("N1")
      && s4.response == ClickSaved("N1")
      && GetDashboard(s4.state) == Success(["N1"])
      && out.Success?
      && GetDashboard(out.value) == Failure(Unauthenticated)
  {
    var s1 := Register(Empty, "alice", "pw123", "pw123", hashed);
    var s2 := Login(s1.state, Post, "alice", "pw123", check);
    var s3 := SaveClick(s2.state, Some("N1"));
    assert s3.state.users["alice"].history == Some("N1");
    assert Delimited.Split("N1") == ["N1"];
  }

  /** A wrong password neither logs in nor changes anything. */
  lemma WrongPassword(st: State, username: string, password: string,
                      check: (Hash, string) -> bool)
    requires !Authenticated(st) && username in st.users
    requires !check(st.users[username].password, password)
    ensures
      var r := Login(st, Post, username, password, check);
      r.response == IncorrectPassword && r.state == st && !Authenticated(r.state)
  {
  }
}
