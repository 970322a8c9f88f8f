/** The routes of app.py as pure transitions over (users, ledger, session).
    Every handler returns the next state together with a small tag for what
    the browser receives (a redirect, a rendered page or an error status). */
module App {
  import opened Common
  import opened Records
  import UserStore
  import Ledger

  /** The submitted form fields; `request.form[name]` on a missing name
      aborts the request with status 400. */
  type Form = map<string, string>

  /** The password hasher. `hash` gives one fixed hash per password, standing
      for `generate_password_hash` without its per-call random salt, and
      `verify(hash, password)` stands for `check_password_hash`. Nothing else
      is assumed about either. */
  datatype Crypto = Crypto(hash: string -> string, verify: (string, string) -> bool)

  /** Both tables and the signed-cookie session of one browser. */
  datatype State = State(users: UserStore.Users, ledger: Ledger.Ledger, session: Option<UserId>)

  ghost predicate Valid(st: State)
  {
    UserStore.Valid(st.users) && Ledger.Valid(st.ledger)
  }

  datatype Route =
    | Home
    | RegisterPage
    | Register(form: Form)
    | LoginPage
    | Login(form: Form)
    | Dashboard
    | Logout
    | SendRequest(receiver: UserId)
    | AcceptRequest(request: RequestId)
  {
    /** The routes that first redirect to login when the session holds no
        user id. */
    predicate NeedsSession()
    {
      Dashboard? || SendRequest? || AcceptRequest?
    }
  }

  /** What `dashboard.html` is rendered with (app.py:101-105). */
  datatype DashboardView = DashboardView(
    user: User,
    others: UserStore.Users,
    incoming: Ledger.Ledger,
    acceptedUsers: seq<Option<User>>)

  datatype Outcome =
    | RedirectToLogin
    | RedirectToDashboard
    | ShowRegister
    | ShowLogin(rejected: bool)
    | ShowDashboard(view: DashboardView)
    | BadRequest
    | ServerError

  datatype Response = Response(state: State, outcome: Outcome)

  const RegisterFields: set<string> := {"name", "email", "password", "instagram", "discord"}
  const LoginFields: set<string> := {"email", "password"}

  /** POST /register (app.py:54-71). The five form fields are read first; the
      password is hashed; the commit fails on the unique `email` column, which
      the handler does not catch, so a taken address ends in a server error
      with nothing stored. */
  function HandleRegister(st: State, form: Form, crypto: Crypto): (r: Response)
    ensures r.state.ledger == st.ledger && r.state.session == st.session
    ensures !(RegisterFields <= form.Keys) ==> r == Response(st, BadRequest)
    ensures RegisterFields <= form.Keys && UserStore.HasEmail(st.users, form["email"]) ==>
      r == Response(st, ServerError)
    ensures r.outcome == RedirectToLogin <==>
      RegisterFields <= form.Keys && !UserStore.HasEmail(st.users, form["email"])
    ensures r.outcome == RedirectToLogin ==>
      && |r.state.users| == |st.users| + 1
      && r.state.users[..|st.users|] == st.users
      && var u := r.state.users[|st.users|];
         && !UserStore.HasId(st.users, u.id)
         && u.name == form["name"] && u.email == form["email"]
         && u.passwordHash == crypto.hash(form["password"])
         && u.instagram == form["instagram"] && u.discord == form["discord"]
    ensures Valid(st) ==> Valid(r.state)
  {
    if !(RegisterFields <= form.Keys) then Response(st, BadRequest)
    else
      var hashed := crypto.hash(form["password"]);
      match UserStore.Insert(st.users, form["name"], form["email"], hashed, form["instagram"], form["discord"])
      case None => Response(st, ServerError)
      case Some(users') => Response(st.(users := users'), RedirectToLogin)
  }

  /** Some user holds `email` and the verifier accepts `password` against the
      stored hash. */
  ghost predicate CredentialsMatch(users: UserStore.Users, email: string, password: string, crypto: Crypto)
  {
    exists i :: 0 <= i < |users| && users[i].email == email && crypto.verify(users[i].passwordHash, password)
  }

  /** POST /login (app.py:77-87): look the user up by e-mail, check the
      password, and on success bind the session to that user. Any failure
      shows the same "invalid email or password" page and changes nothing. */
  function HandleLogin(st: State, form: Form, crypto: Crypto): (r: Response)
    ensures r.state.users == st.users && r.state.ledger == st.ledger
    ensures !(LoginFields <= form.Keys) ==> r == Response(st, BadRequest)
    ensures r.outcome != RedirectToDashboard ==> r.state == st
    ensures LoginFields <= form.Keys && r.outcome != RedirectToDashboard ==> r.outcome == ShowLogin(true)
    ensures r.outcome == RedirectToDashboard ==>
      exists i :: 0 <= i < |st.users| && st.users[i].email == form["email"]
        && crypto.verify(st.users[i].passwordHash, form["password"])
        && r.state.session == Some(st.users[i].id)
    ensures UserStore.EmailsUnique(st.users) ==>
      (r.outcome == RedirectToDashboard <==>
        LoginFields <= form.Keys && CredentialsMatch(st.users, form["email"], form["password"], crypto))
  {
    if !(LoginFields <= form.Keys) then Response(st, BadRequest)
    else
      var email := form["email"];
      var password := form["password"];
      match UserStore.FindByEmail(st.users, email)
      case None => Response(st, ShowLogin(true))
      case Some(u) =>
        if crypto.verify(u.passwordHash, password) then
          Response(st.(session := Some(u.id)), RedirectToDashboard)
        else
          assert UserStore.EmailsUnique(st.users) ==>
            forall i :: 0 <= i < |st.users| && st.users[i].email == email ==> st.users[i] == u
          by {
            if UserStore.EmailsUnique(st.users) {
              forall i | 0 <= i < |st.users| && st.users[i].email == email
                ensures st.users[i] == u
              {
                UserStore.FindByEmailFindsRow(st.users, i);
              }
            }
          }
          Response(st, ShowLogin(true))
  }

  /** The list of buddies on the dashboard (app.py:98-99): for every accepted
      request the user sent, in table order, the user row looked up by the
      request's receiver key; a receiver key with no user row gives `None`. */
  function AcceptedUsers(users: UserStore.Users, l: Ledger.Ledger, user: UserId): (r: seq<Option<User>>)
    ensures |r| == |Ledger.AcceptedSentBy(l, user)|
    ensures forall i :: 0 <= i < |r| ==>
      var b := Ledger.AcceptedSentBy(l, user)[i];
      && (r[i].Some? <==> UserStore.HasId(users, b.receiver))
      && (r[i].Some? ==> r[i].value in users && r[i].value.id == b.receiver)
  {
    var accepted := Ledger.AcceptedSentBy(l, user);
    seq(|accepted|, i requires 0 <= i < |accepted| => UserStore.Get(users, accepted[i].receiver))
  }

  /** GET /dashboard (app.py:91-105). Read-only. Without a session it
      redirects to login; a session naming no user row crashes on `user.id`. */
  function HandleDashboard(st: State): (r: Response)
    ensures r.state == st
    ensures st.session.None? ==> r.outcome == RedirectToLogin
    ensures st.session.Some? && !UserStore.HasId(st.users, st.session.value) ==> r.outcome == ServerError
    ensures st.session.Some? && UserStore.HasId(st.users, st.session.value) ==>
      && r.outcome.ShowDashboard?
      && var me := st.session.value;
         var v := r.outcome.view;
         && v.user in st.users && v.user.id == me
         && (forall u :: u in v.others <==> u in st.users && u.id != me)
         && (forall b :: b in v.incoming <==> b in st.ledger && b.receiver == me && b.status == Pending)
         && v.acceptedUsers == AcceptedUsers(st.users, st.ledger, me)
  {
    match st.session
    case None => Response(st, RedirectToLogin)
    case Some(me) =>
      match UserStore.Get(st.users, me)
      case None => Response(st, ServerError)
      case Some(user) =>
        var view := DashboardView(
          user,
          UserStore.Others(st.users, user.id),
          Ledger.Incoming(st.ledger, user.id),
          AcceptedUsers(st.users, st.ledger, user.id));
        Response(st, ShowDashboard(view))
  }

  /** The largest value SQLite stores in an `INTEGER` column. The route
      converter `<int:...>` accepts any non-negative number, but binding one
      above this to a query makes the driver raise `OverflowError`, which no
      handler catches. */
  const MaxSqlInt: nat := 0x7FFF_FFFF_FFFF_FFFF

  predicate FitsColumn(n: nat)
  {
    n <= MaxSqlInt
  }

  /** GET /send_request/<receiver> (app.py:115-127). Neither the receiver's
      existence nor `receiver != sender` is checked. The duplicate lookup
      binds both ids, so an id too large for SQLite fails with nothing stored. */
  function HandleSendRequest(st: State, receiver: UserId): (r: Response)
    ensures r.state.users == st.users && r.state.session == st.session
    ensures st.session.None? ==> r == Response(st, RedirectToLogin)
    ensures st.session.Some? && !(FitsColumn(st.session.value) && FitsColumn(receiver)) ==>
      r == Response(st, ServerError)
    ensures st.session.Some? && FitsColumn(st.session.value) && FitsColumn(receiver) ==>
      var sender := st.session.value;
      && r.outcome == RedirectToDashboard
      && Ledger.HasPair(r.state.ledger, sender, receiver)
      && (Ledger.HasPair(st.ledger, sender, receiver) ==> r.state.ledger == st.ledger)
      && (!Ledger.HasPair(st.ledger, sender, receiver) ==>
            && |r.state.ledger| == |st.ledger| + 1
            && r.state.ledger[..|st.ledger|] == st.ledger
            && r.state.ledger[|st.ledger|].sender == sender
            && r.state.ledger[|st.ledger|].receiver == receiver
            && r.state.ledger[|st.ledger|].status == Pending)
  {
    match st.session
    case None => Response(st, RedirectToLogin)
    case Some(sender) =>
      if !FitsColumn(sender) || !FitsColumn(receiver) then Response(st, ServerError)
      else Response(st.(ledger := Ledger.Send(st.ledger, sender, receiver)), RedirectToDashboard)
  }

  /** GET /accept_request/<id> (app.py:131-140). A missing request or a caller
      who is not its receiver is silently ignored; an id too large for SQLite
      fails in the lookup with nothing changed. */
  function HandleAcceptRequest(st: State, id: RequestId): (r: Response)
    ensures r.state.users == st.users && r.state.session == st.session
    ensures st.session.None? ==> r == Response(st, RedirectToLogin)
    ensures st.session.Some? && !FitsColumn(id) ==> r == Response(st, ServerError)
    ensures st.session.Some? && FitsColumn(id) ==> r.outcome == RedirectToDashboard
    ensures st.session.Some? && !Ledger.MayAccept(st.ledger, id, st.session.value) ==>
      r.state == st
    ensures st.session.Some? && FitsColumn(id) && Ledger.MayAccept(st.ledger, id, st.session.value)
            && Ledger.IdsDistinct(st.ledger) ==>
      && |r.state.ledger| == |st.ledger|
      && forall i :: 0 <= i < |st.ledger| ==>
           if st.ledger[i].id == id then r.state.ledger[i] == st.ledger[i].(status := Accepted)
           else r.state.ledger[i] == st.ledger[i]
  {
    match st.session
    case None => Response(st, RedirectToLogin)
    case Some(me) =>
      if !FitsColumn(id) then Response(st, ServerError)
      else
        var l' := Ledger.Accept(st.ledger, id, me);
        Response(st.(ledger := l'), RedirectToDashboard)
  }

  /** One request of one browser, dispatched on its route. `/` redirects to
      login (app.py:48-49); GET /register and GET /login render their forms;
      `/logout` drops the session whether or not one exists (app.py:109-111). */
  function Step(st: State, route: Route, crypto: Crypto): (r: Response)
    ensures route.NeedsSession() && st.session.None? ==> r == Response(st, RedirectToLogin)
    ensures route.Logout? ==> r.state.session.None?
    ensures !route.Login? && !route.Logout? ==> r.state.session == st.session
    ensures !route.Register? ==> r.state.users == st.users
    ensures |st.users| <= |r.state.users| && r.state.users[..|st.users|] == st.users
    ensures !route.SendRequest? && !route.AcceptRequest? ==> r.state.ledger == st.ledger
    ensures Ledger.NeverRevokes(st.ledger, r.state.ledger)
    ensures forall i :: |st.ledger| <= i < |r.state.ledger| ==>
      && r.state.ledger[i].status == Pending
      && route.SendRequest? && st.session == Some(r.state.ledger[i].sender)
    ensures forall i :: 0 <= i < |st.ledger| && r.state.ledger[i].status != st.ledger[i].status ==>
      && st.ledger[i].status == Pending && r.state.ledger[i].status == Accepted
      && route == AcceptRequest(st.ledger[i].id) && st.session == Some(st.ledger[i].receiver)
    ensures Valid(st) ==> Valid(r.state)
  {
    match route
    case Home => Response(st, RedirectToLogin)
    case RegisterPage => Response(st, ShowRegister)
    case Register(form) => HandleRegister(st, form, crypto)
    case LoginPage => Response(st, ShowLogin(false))
    case Login(form) => HandleLogin(st, form, crypto)
    case Dashboard => HandleDashboard(st)
    case Logout => Response(st.(session := None), RedirectToLogin)
    case SendRequest(receiver) => HandleSendRequest(st, receiver)
    case AcceptRequest(id) => HandleAcceptRequest(st, id)
  }
}
