/** The register / request / accept walk through the application, from an
    empty database, for any hasher whose verifier accepts a password against
    its own hash. */
module Scenario {
  import opened Common
  import opened Records
  import UserStore
  import Ledger
  import opened App
  import opened Traces

  /** Login form for `email` and `password`. */
  function LoginForm(email: string, password: string): Form
  {
    map["email" := email, "password" := password]
  }

  /** Registration form with empty contact handles. */
  function RegisterForm(name: string, email: string, password: string): Form
  {
    map["name" := name, "email" := email, "password" := password, "instagram" := "", "discord" := ""]
  }

  function Alice(crypto: Crypto): User
  {
    User(1, "alice", "a@x.com", crypto.hash("pw1"), "", "")
  }

  function Bob(crypto: Crypto): User
  {
    User(2, "bob", "b@x.com", crypto.hash("pw2"), "", "")
  }

  lemma RegisterAliceThenBob(crypto: Crypto)
    ensures var a := Step(Init, Register(RegisterForm("alice", "a@x.com", "pw1")), crypto).state;
      && a == State([Alice(crypto)], [], None)
      && Step(a, Register(RegisterForm("bob", "b@x.com", "pw2")), crypto).state
         == State([Alice(crypto), Bob(crypto)], [], None)
  {
    var a := Step(Init, Register(RegisterForm("alice", "a@x.com", "pw1")), crypto).state;
    assert !UserStore.HasEmail([], "a@x.com");
    assert a.users[0].id == 1;
    assert a.users == [Alice(crypto)];
    var b := Step(a, Register(RegisterForm("bob", "b@x.com", "pw2")), crypto).state;
    assert !UserStore.HasEmail(a.users, "b@x.com");
    assert b.users[1].id == 2;
    assert b.users == [Alice(crypto), Bob(crypto)];
  }

  lemma LoginAs(crypto: Crypto, ledger: Ledger.Ledger, session: Option<UserId>, who: User, password: string)
    requires forall p :: crypto.verify(crypto.hash(p), p)
    requires (who == Alice(crypto) && password == "pw1") || (who == Bob(crypto) && password == "pw2")
    ensures var st := State([Alice(crypto), Bob(crypto)], ledger, session);
      Step(st, Login(LoginForm(who.email, password)), crypto).state == st.(session := Some(who.id))
  {
    var users := [Alice(crypto), Bob(crypto)];
    var i := if who == Alice(crypto) then 0 else 1;
    assert users[i] == who;
    UserStore.FindByEmailFindsRow(users, i);
  }

  lemma AliceSendsToBob(crypto: Crypto)
    ensures Step(State([Alice(crypto), Bob(crypto)], [], Some(1)), SendRequest(2), crypto).state
      == State([Alice(crypto), Bob(crypto)], [BuddyRequest(1, 1, 2, Pending)], Some(1))
  {
    var d := Step(State([Alice(crypto), Bob(crypto)], [], Some(1)), SendRequest(2), crypto).state;
    assert d.ledger[0].id == 1;
  }

  /** The five requests of the first half, one at a time. */
  lemma FirstHalfSteps(crypto: Crypto)
    requires forall p :: crypto.verify(crypto.hash(p), p)
    ensures var users := [Alice(crypto), Bob(crypto)];
      var d := State(users, [BuddyRequest(1, 1, 2, Pending)], Some(1));
      && Step(Init, Register(RegisterForm("alice", "a@x.com", "pw1")), crypto).state == State([Alice(crypto)], [], None)
      && Step(State([Alice(crypto)], [], None), Register(RegisterForm("bob", "b@x.com", "pw2")), crypto).state
         == State(users, [], None)
      && Step(State(users, [], None), Login(LoginForm("a@x.com", "pw1")), crypto).state == State(users, [], Some(1))
      && Step(State(users, [], Some(1)), SendRequest(2), crypto).state == d
      && Step(d, Login(LoginForm("b@x.com", "pw2")), crypto).state == d.(session := Some(2))
  {
    RegisterAliceThenBob(crypto);
    LoginAs(crypto, [], None, Alice(crypto), "pw1");
    AliceSendsToBob(crypto);
    LoginAs(crypto, [BuddyRequest(1, 1, 2, Pending)], Some(1), Bob(crypto), "pw2");
  }

  /** The last three requests of the first half: alice logs in, sends to bob,
      and bob logs in. */
  lemma FirstHalfTail(crypto: Crypto)
    requires forall p :: crypto.verify(crypto.hash(p), p)
    ensures Run(State([Alice(crypto), Bob(crypto)], [], None), FirstHalfRoutes()[2..], crypto)
      == State([Alice(crypto), Bob(crypto)], [BuddyRequest(1, 1, 2, Pending)], Some(2))
  {
    var users := [Alice(crypto), Bob(crypto)];
    var routes := FirstHalfRoutes();
    var b := State(users, [], None);
    var c := State(users, [], Some(1));
    var d := State(users, [BuddyRequest(1, 1, 2, Pending)], Some(1));
    var e := d.(session := Some(2));
    FirstHalfSteps(crypto);
    assert routes[4..][1..] == routes[5..] == [];
    assert Run(d, routes[4..], crypto) == e;
    assert routes[3..][1..] == routes[4..];
    assert Run(c, routes[3..], crypto) == e;
    assert routes[2..][1..] == routes[3..];
  }

  /** Alice and bob register, alice logs in and sends bob a request, bob
      logs in. */
  lemma FirstHalf(crypto: Crypto)
    requires forall p :: crypto.verify(crypto.hash(p), p)
    ensures Run(Init, FirstHalfRoutes(), crypto)
      == State([Alice(crypto), Bob(crypto)], [BuddyRequest(1, 1, 2, Pending)], Some(2))
  {
    var users := [Alice(crypto), Bob(crypto)];
    var routes := FirstHalfRoutes();
    var a := State([Alice(crypto)], [], None);
    var b := State(users, [], None);
    RegisterAliceThenBob(crypto);
    FirstHalfTail(crypto);
    assert routes[1..][1..] == routes[2..];
    assert Run(a, routes[1..], crypto) == Run(b, routes[2..], crypto);
  }

  /** Bob accepts request 1, then alice logs in again. */
  lemma SecondHalf(crypto: Crypto)
    requires forall p :: crypto.verify(crypto.hash(p), p)
    ensures Run(State([Alice(crypto), Bob(crypto)], [BuddyRequest(1, 1, 2, Pending)], Some(2)), SecondHalfRoutes(), crypto)
      == State([Alice(crypto), Bob(crypto)], [BuddyRequest(1, 1, 2, Accepted)], Some(1))
  {
    var routes := SecondHalfRoutes();
    var users := [Alice(crypto), Bob(crypto)];
    var e := State(users, [BuddyRequest(1, 1, 2, Pending)], Some(2));
    var f := Step(e, AcceptRequest(1), crypto).state;
    assert Ledger.MayAccept(e.ledger, 1, 2);
    assert f == State(users, [BuddyRequest(1, 1, 2, Accepted)], Some(2));
    LoginAs(crypto, f.ledger, f.session, Alice(crypto), "pw1");
    var g := f.(session := Some(1));
    assert Run(g, routes[2..], crypto) == g;
    assert Run(f, routes[1..], crypto) == g;
  }

  lemma BobSeesAlicesRequest(crypto: Crypto)
    ensures var out := HandleDashboard(State([Alice(crypto), Bob(crypto)], [BuddyRequest(1, 1, 2, Pending)], Some(2))).outcome;
      out.ShowDashboard? && out.view.incoming == [BuddyRequest(1, 1, 2, Pending)]
  {
    var l := [BuddyRequest(1, 1, 2, Pending)];
    assert l[1..] == [];
    UserStore.GetFindsRow([Alice(crypto), Bob(crypto)], 1);
  }

  lemma AliceSeesBob(crypto: Crypto)
    ensures var out := HandleDashboard(State([Alice(crypto), Bob(crypto)], [BuddyRequest(1, 1, 2, Accepted)], Some(1))).outcome;
      out.ShowDashboard? && out.view.acceptedUsers == [Some(Bob(crypto))]
  {
    var users := [Alice(crypto), Bob(crypto)];
    var l := [BuddyRequest(1, 1, 2, Accepted)];
    assert l[1..] == [];
    assert Ledger.AcceptedSentBy(l, 1) == l;
    UserStore.GetFindsRow(users, 0);
    UserStore.GetFindsRow(users, 1);
  }

  function FirstHalfRoutes(): seq<Route>
  {
    [ Register(RegisterForm("alice", "a@x.com", "pw1")),
      Register(RegisterForm("bob", "b@x.com", "pw2")),
      Login(LoginForm("a@x.com", "pw1")),
      SendRequest(2),
      Login(LoginForm("b@x.com", "pw2")) ]
  }

  function SecondHalfRoutes(): seq<Route>
  {
    [AcceptRequest(1), Login(LoginForm("a@x.com", "pw1"))]
  }

  /** The walk through the application: alice and bob register, alice logs in
      and sends bob a request, bob logs in and sees it as his one incoming
      request, accepts it, and alice's dashboard then lists bob. It holds for
      any hasher whose verifier accepts a password against its own hash. */
  lemma EndToEnd(crypto: Crypto)
    requires forall p :: crypto.verify(crypto.hash(p), p)
    ensures var s1 := Run(Init, FirstHalfRoutes(), crypto);
      var bobView := HandleDashboard(s1).outcome;
      var s2 := Run(s1, SecondHalfRoutes(), crypto);
      var aliceView := HandleDashboard(s2).outcome;
      && bobView.ShowDashboard?
      && bobView.view.incoming == [BuddyRequest(1, 1, 2, Pending)]
      && aliceView.ShowDashboard?
      && aliceView.view.acceptedUsers == [Some(Bob(crypto))]
  {
    FirstHalf(crypto);
    BobSeesAlicesRequest(crypto);
    SecondHalf(crypto);
    AliceSeesBob(crypto);
  }
}
