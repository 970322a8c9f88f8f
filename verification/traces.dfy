/** Sequences of requests from one browser against one database, starting from
    empty tables: what every reachable state satisfies and what a whole run
    can and cannot do to the ledger. */
module Traces {
  import opened Common
  import opened Records
  import UserStore
  import Ledger
  import opened App

  /** Fresh database, browser without a session. */
  const Init: State := State([], [], None)

  /** The state after serving `routes` in order. */
  function Run(st: State, routes: seq<Route>, crypto: Crypto): (st': State)
    ensures |st.ledger| <= |st'.ledger| && |st.users| <= |st'.users|
    decreases |routes|
  {
    if |routes| == 0 then st
    else Run(Step(st, routes[0], crypto).state, routes[1..], crypto)
  }

  /** The session, when present, names a user row: sessions are only ever set
      by a successful login, and users are never deleted. */
  ghost predicate SessionNamesUser(st: State)
  {
    st.session.Some? ==> UserStore.HasId(st.users, st.session.value)
  }

  /** Every accepted request was accepted by a logged-in receiver, so its
      receiver names a user row. */
  ghost predicate AcceptedReceiversExist(st: State)
  {
    forall i :: 0 <= i < |st.ledger| && st.ledger[i].status == Accepted ==>
      UserStore.HasId(st.users, st.ledger[i].receiver)
  }

  ghost predicate Inv(st: State)
  {
    Valid(st) && SessionNamesUser(st) && AcceptedReceiversExist(st)
  }

  lemma HasIdGrows(us: UserStore.Users, us': UserStore.Users, id: UserId)
    requires |us| <= |us'| && us'[..|us|] == us
    requires UserStore.HasId(us, id)
    ensures UserStore.HasId(us', id)
  {
    var i :| 0 <= i < |us| && us[i].id == id;
    assert us'[i] == us'[..|us|][i];
  }

  lemma InitInv()
    ensures Inv(Init)
  {
  }

  /** Every route keeps the invariant. */
  lemma StepPreservesInv(st: State, route: Route, crypto: Crypto)
    requires Inv(st)
    ensures Inv(Step(st, route, crypto).state)
  {
    var st' := Step(st, route, crypto).state;
    if st'.session.Some? {
      if route.Login? && st'.session != st.session {
        assert HandleLogin(st, route.form, crypto).outcome == RedirectToDashboard;
      } else {
        HasIdGrows(st.users, st'.users, st'.session.value);
      }
    }
    forall i | 0 <= i < |st'.ledger| && st'.ledger[i].status == Accepted
      ensures UserStore.HasId(st'.users, st'.ledger[i].receiver)
    {
      assert i < |st.ledger|;
      assert st'.ledger[i].receiver == st.ledger[i].receiver;
      HasIdGrows(st.users, st'.users, st.ledger[i].receiver);
    }
  }

  /** Every state reached from an invariant state keeps the invariant. */
  lemma {:induction false} RunPreservesInv(st: State, routes: seq<Route>, crypto: Crypto)
    requires Inv(st)
    ensures Inv(Run(st, routes, crypto))
    decreases |routes|
  {
    if |routes| > 0 {
      StepPreservesInv(st, routes[0], crypto);
      RunPreservesInv(Step(st, routes[0], crypto).state, routes[1..], crypto);
    }
  }

  /** No sequence of requests takes an accepted request back to pending,
      removes a request or changes its id, sender or receiver. */
  lemma {:induction false} RunNeverRevokes(st: State, routes: seq<Route>, crypto: Crypto)
    ensures Ledger.NeverRevokes(st.ledger, Run(st, routes, crypto).ledger)
    decreases |routes|
  {
    if |routes| > 0 {
      var next := Step(st, routes[0], crypto).state;
      RunNeverRevokes(next, routes[1..], crypto);
      Ledger.NeverRevokesTransitive(st.ledger, next.ledger, Run(next, routes[1..], crypto).ledger);
    }
  }

  /** A request that was pending at the start of a run and is accepted at its
      end was accepted by a route naming it, served while its receiver was
      logged in. */
  lemma {:induction false} RunAcceptsOnlyByReceiver(st: State, routes: seq<Route>, crypto: Crypto, i: nat)
    requires i < |st.ledger| && st.ledger[i].status == Pending
    requires Run(st, routes, crypto).ledger[i].status == Accepted
    ensures exists k :: (0 <= k < |routes| && routes[k] == AcceptRequest(st.ledger[i].id)
      && Run(st, routes[..k], crypto).session == Some(st.ledger[i].receiver))
    decreases |routes|
  {
    RunNeverRevokes(st, routes, crypto);
    if |routes| == 0 {
      assert false;
    } else {
      var next := Step(st, routes[0], crypto).state;
      assert routes[..0] == [];
      if next.ledger[i].status == Accepted {
        assert routes[0] == AcceptRequest(st.ledger[i].id) && st.session == Some(st.ledger[i].receiver);
      } else {
        assert next.ledger[i].status == Pending;
        assert next.ledger[i].id == st.ledger[i].id && next.ledger[i].receiver == st.ledger[i].receiver;
        RunAcceptsOnlyByReceiver(next, routes[1..], crypto, i);
        var k :| 0 <= k < |routes[1..]| && routes[1..][k] == AcceptRequest(st.ledger[i].id)
          && Run(next, routes[1..][..k], crypto).session == Some(st.ledger[i].receiver);
        assert routes[..k + 1][1..] == routes[1..][..k];
        assert routes[k + 1] == AcceptRequest(st.ledger[i].id);
      }
    }
  }

  /** With the invariant, the dashboard of a logged-in user always renders and
      every entry of its accepted list resolves to a user row. */
  lemma DashboardResolvesBuddies(st: State)
    requires Inv(st) && st.session.Some?
    ensures HandleDashboard(st).outcome.ShowDashboard?
    ensures forall k :: 0 <= k < |HandleDashboard(st).outcome.view.acceptedUsers| ==>
      HandleDashboard(st).outcome.view.acceptedUsers[k].Some?
  {
    var me := st.session.value;
    var accepted := Ledger.AcceptedSentBy(st.ledger, me);
    forall k | 0 <= k < |accepted|
      ensures UserStore.HasId(st.users, accepted[k].receiver)
    {
      assert accepted[k] in st.ledger;
      var j :| 0 <= j < |st.ledger| && st.ledger[j] == accepted[k];
    }
  }

  /** From an empty database, after any sequence of requests that leaves a
      browser logged in, the dashboard renders and lists only real users as
      buddies. */
  lemma ReachableDashboardResolves(routes: seq<Route>, crypto: Crypto)
    requires Run(Init, routes, crypto).session.Some?
    ensures HandleDashboard(Run(Init, routes, crypto)).outcome.ShowDashboard?
    ensures var v := HandleDashboard(Run(Init, routes, crypto)).outcome.view;
      forall k :: 0 <= k < |v.acceptedUsers| ==> v.acceptedUsers[k].Some?
  {
    InitInv();
    RunPreservesInv(Init, routes, crypto);
    DashboardResolvesBuddies(Run(Init, routes, crypto));
  }

  /** Two identical `send_request` calls store the same ledger as one. */
  lemma SendRequestIdempotent(st: State, receiver: UserId, crypto: Crypto)
    ensures var once := Step(st, SendRequest(receiver), crypto).state;
      Step(once, SendRequest(receiver), crypto).state == once
  {
    if st.session.Some? {
      Ledger.SendIdempotent(st.ledger, st.session.value, receiver);
    }
  }

  /** A sends a request to B; then the caller `actor` opens the accept link for
      it. The request becomes accepted exactly when `actor` is B, and nothing
      else in the ledger moves. */
  lemma SendThenAccept(st: State, a: UserId, b: UserId, actor: UserId, crypto: Crypto)
    requires Ledger.IdsDistinct(st.ledger)
    requires st.session == Some(a) && !Ledger.HasPair(st.ledger, a, b)
    requires FitsColumn(a) && FitsColumn(b) && FitsColumn(Ledger.NextId(st.ledger))
    ensures var sent := Step(st, SendRequest(b), crypto).state;
      var n := |st.ledger|;
      var acc := Step(sent.(session := Some(actor)), AcceptRequest(sent.ledger[n].id), crypto).state;
      && |sent.ledger| == n + 1 && sent.ledger[n].status == Pending
      && (actor == b ==> acc.ledger == sent.ledger[n := sent.ledger[n].(status := Accepted)])
      && (actor != b ==> acc.ledger == sent.ledger)
  {
    var sent := Step(st, SendRequest(b), crypto).state;
    var n := |st.ledger|;
    var id := sent.ledger[n].id;
    assert Ledger.IdsDistinct(sent.ledger);
    forall j | 0 <= j < n
      ensures sent.ledger[j].id != id
    {
      assert sent.ledger[j] == st.ledger[j];
    }
    var acc := Step(sent.(session := Some(actor)), AcceptRequest(id), crypto).state;
    if actor == b {
      assert Ledger.MayAccept(sent.ledger, id, actor);
      assert acc.ledger == sent.ledger[n := sent.ledger[n].(status := Accepted)];
    } else {
      assert !Ledger.MayAccept(sent.ledger, id, actor);
    }
  }
}
