/** The `user` table: rows in insertion order, looked up by primary key or by
    e-mail, with the `unique=True` constraint on `email` (app.py:24-30). */
module UserStore {
  import opened Common
  import opened Records

  type Users = seq<User>

  /** Primary keys are distinct. */
  ghost predicate IdsDistinct(us: Users)
  {
    forall i, j :: 0 <= i < j < |us| ==> us[i].id != us[j].id
  }

  /** The unique constraint on the `email` column (app.py:27). */
  ghost predicate EmailsUnique(us: Users)
  {
    forall i, j :: 0 <= i < j < |us| ==> us[i].email != us[j].email
  }

  /** What the database guarantees about the table at every commit. */
  ghost predicate Valid(us: Users)
  {
    IdsDistinct(us) && EmailsUnique(us)
  }

  ghost predicate HasId(us: Users, id: UserId)
  {
    exists i :: 0 <= i < |us| && us[i].id == id
  }

  ghost predicate HasEmail(us: Users, email: string)
  {
    exists i :: 0 <= i < |us| && us[i].email == email
  }

  /** Lookup of a user by primary key: the row holding it, if any. */
  function Get(us: Users, id: UserId): (o: Option<User>)
    ensures o.Some? <==> HasId(us, id)
    ensures o.Some? ==> o.value in us && o.value.id == id
  {
    match First(us, (u: User) => u.id == id)
    case None => None
    case Some(i) => Some(us[i])
  }

  /** Lookup of a user by e-mail for `login` (app.py:81): the first row in
      table order holding that address, if any. */
  function FindByEmail(us: Users, email: string): (o: Option<User>)
    ensures o.Some? <==> HasEmail(us, email)
    ensures o.Some? ==> o.value in us && o.value.email == email
  {
    match First(us, (u: User) => u.email == email)
    case None => None
    case Some(i) => Some(us[i])
  }

  /** With distinct keys, a lookup by key returns exactly the row holding it. */
  lemma GetFindsRow(us: Users, i: nat)
    requires IdsDistinct(us)
    requires i < |us|
    ensures Get(us, us[i].id) == Some(us[i])
  {
    var o := Get(us, us[i].id);
    assert o.Some?;
    var j :| 0 <= j < |us| && us[j] == o.value;
  }

  /** With unique e-mails, the lookup by e-mail returns exactly the row holding
      it, so `first()` never has to choose between two accounts. */
  lemma FindByEmailFindsRow(us: Users, i: nat)
    requires EmailsUnique(us)
    requires i < |us|
    ensures FindByEmail(us, us[i].email) == Some(us[i])
  {
    var o := FindByEmail(us, us[i].email);
    assert o.Some?;
    var j :| 0 <= j < |us| && us[j] == o.value;
  }

  /** Key for a new row: one more than the largest key in use. */
  function NextId(us: Users): (id: UserId)
    ensures id >= 1 && !HasId(us, id)
  {
    NextKey(us, (u: User) => u.id)
  }

  /** The insert of `register` (app.py:65-68): the unique constraint on
      `email` rejects the commit when the address is taken; otherwise the
      new row gets a fresh key and goes at the end. */
  function Insert(us: Users, name: string, email: string, passwordHash: string,
                  instagram: string, discord: string): (r: Option<Users>)
    ensures r.None? <==> HasEmail(us, email)
    ensures r.Some? ==> |r.value| == |us| + 1 && r.value[..|us|] == us
    ensures r.Some? ==> var u := r.value[|us|];
      && !HasId(us, u.id)
      && u.name == name && u.email == email && u.passwordHash == passwordHash
      && u.instagram == instagram && u.discord == discord
    ensures r.Some? && Valid(us) ==> Valid(r.value)
  {
    if FindByEmail(us, email).Some? then None
    else
      var us' := us + [User(NextId(us), name, email, passwordHash, instagram, discord)];
      assert us'[..|us|] == us;
      Some(us')
  }

  /** The user list of the dashboard (app.py:96): every user except
      the one with key `id`, in table order. */
  function Others(us: Users, id: UserId): (r: Users)
    ensures forall u :: u in r <==> u in us && u.id != id
    ensures multiset(r) <= multiset(us)
  {
    FilterMultiset(us, (u: User) => u.id != id);
    Filter(us, (u: User) => u.id != id)
  }
}
