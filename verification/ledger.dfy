/** The `buddy_request` table and the two writes made to it: `send_request`
    inserts a pending request unless one exists for the same ordered pair, and
    `accept_request` flips one request to accepted when its receiver asks
    (app.py:32-36, 113-140). */
module Ledger {
  import opened Common
  import opened Records

  type Ledger = seq<BuddyRequest>

  /** Primary keys are distinct. */
  ghost predicate IdsDistinct(l: Ledger)
  {
    forall i, j :: 0 <= i < j < |l| ==> l[i].id != l[j].id
  }

  /** At most one request per ordered (sender, receiver) pair. The database
      has no such constraint; in a sequential run the check in `send_request`
      maintains it. */
  ghost predicate NoDuplicatePairs(l: Ledger)
  {
    forall i, j :: 0 <= i < j < |l| ==>
      l[i].sender != l[j].sender || l[i].receiver != l[j].receiver
  }

  ghost predicate Valid(l: Ledger)
  {
    IdsDistinct(l) && NoDuplicatePairs(l)
  }

  /** Some request, whatever its status, goes from `sender` to `receiver`. */
  ghost predicate HasPair(l: Ledger, sender: UserId, receiver: UserId)
  {
    exists i :: 0 <= i < |l| && l[i].sender == sender && l[i].receiver == receiver
  }

  ghost predicate HasId(l: Ledger, id: RequestId)
  {
    exists i :: 0 <= i < |l| && l[i].id == id
  }

  /** Lookup of a request by primary key, as a position in the table. */
  function Find(l: Ledger, id: RequestId): (o: Option<nat>)
    ensures o.Some? <==> HasId(l, id)
    ensures o.Some? ==> o.value < |l| && l[o.value].id == id
  {
    First(l, (r: BuddyRequest) => r.id == id)
  }

  /** With distinct keys, the lookup lands on the one row holding the key. */
  lemma FindIsUnique(l: Ledger, i: nat)
    requires IdsDistinct(l)
    requires i < |l|
    ensures Find(l, l[i].id) == Some(i)
  {
    var o := Find(l, l[i].id);
    assert o.Some?;
  }

  /** Key for a new request: one more than the largest key in use. */
  function NextId(l: Ledger): (id: RequestId)
    ensures id >= 1 && !HasId(l, id)
  {
    NextKey(l, (r: BuddyRequest) => r.id)
  }

  /** `l'` is `l` after some writes of this module: no row is removed or
      re-keyed, sender and receiver never change, and an accepted request
      stays accepted. New rows may follow. */
  ghost predicate NeverRevokes(l: Ledger, l': Ledger)
  {
    && |l| <= |l'|
    && (forall i :: 0 <= i < |l| ==>
          && l'[i].id == l[i].id
          && l'[i].sender == l[i].sender
          && l'[i].receiver == l[i].receiver
          && (l[i].status == Accepted ==> l'[i].status == Accepted))
  }

  lemma NeverRevokesTransitive(l1: Ledger, l2: Ledger, l3: Ledger)
    requires NeverRevokes(l1, l2) && NeverRevokes(l2, l3)
    ensures NeverRevokes(l1, l3)
  {
    forall i | 0 <= i < |l1|
      ensures l3[i].id == l1[i].id && l3[i].sender == l1[i].sender
      ensures l3[i].receiver == l1[i].receiver
      ensures l1[i].status == Accepted ==> l3[i].status == Accepted
    {
      assert i < |l2|;
    }
  }

  /** The write of `send_request` (app.py:120-125): look for any request with
      this exact (sender, receiver) pair, whatever its status; only when none
      exists, append a new one, which takes the column default `Pending`. */
  function Send(l: Ledger, sender: UserId, receiver: UserId): (l': Ledger)
    ensures HasPair(l, sender, receiver) ==> l' == l
    ensures !HasPair(l, sender, receiver) ==>
      && |l'| == |l| + 1 && l'[..|l|] == l
      && l'[|l|].sender == sender && l'[|l|].receiver == receiver
      && l'[|l|].status == Pending && !HasId(l, l'[|l|].id)
    ensures HasPair(l', sender, receiver)
    ensures NeverRevokes(l, l')
    ensures Valid(l) ==> Valid(l')
  {
    var existing := First(l, (r: BuddyRequest) => r.sender == sender && r.receiver == receiver);
    if existing.Some? then l
    else
      var l' := l + [BuddyRequest(NextId(l), sender, receiver, Pending)];
      assert l'[..|l|] == l;
      assert l'[|l|].sender == sender && l'[|l|].receiver == receiver;
      assert forall i :: 0 <= i < |l| ==> l'[i] == l[i];
      l'
  }

  /** The request `id` exists and `actor` is its receiver: the only case in
      which `accept_request` writes (app.py:136). */
  ghost predicate MayAccept(l: Ledger, id: RequestId, actor: UserId)
  {
    exists i :: 0 <= i < |l| && l[i].id == id && l[i].receiver == actor
  }

  /** The write of `accept_request` (app.py:135-138): load the request by key
      and, if it exists and `actor` is its receiver, set its status to
      `Accepted`; otherwise leave the table alone. */
  function Accept(l: Ledger, id: RequestId, actor: UserId): (l': Ledger)
    ensures |l'| == |l|
    ensures forall i :: 0 <= i < |l| ==>
      l'[i].id == l[i].id && l'[i].sender == l[i].sender && l'[i].receiver == l[i].receiver
    ensures forall i :: 0 <= i < |l| && l[i].id != id ==> l'[i] == l[i]
    ensures IdsDistinct(l) && MayAccept(l, id, actor) ==>
      forall i :: 0 <= i < |l| && l[i].id == id ==> l'[i].status == Accepted
    ensures !MayAccept(l, id, actor) ==> l' == l
    ensures forall i :: 0 <= i < |l| && l[i].status != l'[i].status ==>
      l[i].status == Pending && l'[i].status == Accepted && l[i].id == id && l[i].receiver == actor
    ensures NeverRevokes(l, l')
    ensures Valid(l) ==> Valid(l')
  {
    match Find(l, id)
    case None => l
    case Some(i) =>
      if l[i].receiver == actor then
        var l' := l[i := l[i].(status := Accepted)];
        assert forall j :: 0 <= j < |l| && j != i ==> l'[j] == l[j];
        assert l'[i].status == Accepted && l[i].id == id;
        l'
      else
        assert IdsDistinct(l) ==> forall j :: 0 <= j < |l| && l[j].id == id ==> j == i;
        l
  }

  /** The incoming list of the dashboard (app.py:97): the pending requests
      addressed to `user`, in table order. */
  function Incoming(l: Ledger, user: UserId): (r: Ledger)
    ensures forall b :: b in r <==> b in l && b.receiver == user && b.status == Pending
    ensures multiset(r) <= multiset(l)
  {
    FilterMultiset(l, (b: BuddyRequest) => b.receiver == user && b.status == Pending);
    Filter(l, (b: BuddyRequest) => b.receiver == user && b.status == Pending)
  }

  /** The accepted requests `user` sent (app.py:98), in table order. */
  function AcceptedSentBy(l: Ledger, user: UserId): (r: Ledger)
    ensures forall b :: b in r <==> b in l && b.sender == user && b.status == Accepted
    ensures multiset(r) <= multiset(l)
  {
    FilterMultiset(l, (b: BuddyRequest) => b.sender == user && b.status == Accepted);
    Filter(l, (b: BuddyRequest) => b.sender == user && b.status == Accepted)
  }

  /** Sending twice in the same direction stores the same table as sending
      once (app.py:121-122). */
  lemma SendIdempotent(l: Ledger, sender: UserId, receiver: UserId)
    ensures Send(Send(l, sender, receiver), sender, receiver) == Send(l, sender, receiver)
  {
    assert HasPair(Send(l, sender, receiver), sender, receiver);
  }

  /** The duplicate check only looks at the same direction: a request from
      `receiver` to `sender` does not stop one from `sender` to `receiver`
      (app.py:121). */
  lemma SendIsDirectional(l: Ledger, a: UserId, b: UserId)
    requires HasPair(l, b, a) && !HasPair(l, a, b)
    ensures |Send(l, a, b)| == |l| + 1
    ensures HasPair(Send(l, a, b), a, b) && HasPair(Send(l, a, b), b, a)
  {
    var i :| 0 <= i < |l| && l[i].sender == b && l[i].receiver == a;
    assert Send(l, a, b)[i] == l[i];
  }

  /** A request that `send_request` creates shows up last in its receiver's
      list of incoming requests, after the ones already there (app.py:97, 123). */
  lemma SendShowsAsIncoming(l: Ledger, sender: UserId, receiver: UserId)
    requires !HasPair(l, sender, receiver)
    ensures var l' := Send(l, sender, receiver);
      Incoming(l', receiver) == Incoming(l, receiver) + [l'[|l|]]
  {
    var l' := Send(l, sender, receiver);
    var p := (b: BuddyRequest) => b.receiver == receiver && b.status == Pending;
    assert l' == l + [l'[|l|]] by {
      assert l' == l'[..|l|] + [l'[|l|]];
    }
    FilterAppend(l, [l'[|l|]], p);
    assert [l'[|l|]][1..] == [];
  }

  /** The lookup by key only looks at keys: two tables with the same keys in
      the same positions find a key at the same position. */
  lemma FindSameKeys(l: Ledger, l': Ledger, id: RequestId)
    requires |l| == |l'| && forall i :: 0 <= i < |l| ==> l'[i].id == l[i].id
    ensures Find(l', id) == Find(l, id)
  {
    var o, o' := Find(l, id), Find(l', id);
    if o.Some? && o'.Some? {
      assert !(o.value < o'.value) && !(o'.value < o.value);
    }
  }

  /** Accepting twice is the same as accepting once, whatever the keys. */
  lemma AcceptIdempotent(l: Ledger, id: RequestId, actor: UserId)
    ensures IdsDistinct(l) ==> IdsDistinct(Accept(l, id, actor))
    ensures Accept(Accept(l, id, actor), id, actor) == Accept(l, id, actor)
  {
    var l1 := Accept(l, id, actor);
    FindSameKeys(l, l1, id);
    match Find(l, id)
    case None =>
    case Some(i) =>
      if l[i].receiver == actor {
        assert l1 == l[i := l[i].(status := Accepted)];
        assert l1[i := l1[i].(status := Accepted)] == l1;
      }
  }
}
