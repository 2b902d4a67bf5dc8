/** `AuthService`: registration, which creates the user together with a
    one-minute ACTIVE subscription on the "Free" plan, and the two login
    decisions. Password hashing and comparison are bcrypt calls and enter as
    parameters: the registration receives the finished hash, the logins a
    `matches(password, storedHash)` predicate. */
module Auth {
  import opened Outcomes
  import opened Ids
  import opened Schema

  /** The name `register` looks the starting plan up by. */
  const FreePlanName: string := "Free"

  /** Some user already has this username or this e-mail. */
  predicate Taken(users: map<int, User>, username: string, email: string) {
    exists k :: k in users && (users[k].username == username || users[k].email == email)
  }

  /** The active plans named "Free". */
  function FreePlans(plans: map<int, Plan>): set<int> {
    set p | p in plans && plans[p].name == FreePlanName && plans[p].isActive
  }

  /** Every subscription belongs to an existing user (the foreign key). */
  predicate OwnersExist(db: Db) {
    forall k :: k in db.subs ==> db.subs[k].userId in db.users
  }

  /** `register`. The user row and its subscription are created by one
      nested write; the welcome e-mail sent afterwards is not modelled. */
  function Register(db: Db, username: string, email: string, passwordHash: string,
                    avatar: Option<string>, now: int): (r: Reply<int>)
    ensures r.out.Err? ==> r.db == db
    ensures r.out == Err(BadRequest) <==> Taken(db.users, username, email)
    ensures r.out == Err(NotFound) <==> !Taken(db.users, username, email) && FreePlans(db.plans) == {}
    ensures r.out.Ok? <==> !Taken(db.users, username, email) && FreePlans(db.plans) != {}
    ensures r.out.Ok? ==>
      var id := r.out.value;
      && id !in db.users
      && r.db.users == db.users[id := User(username, email, passwordHash, USER, avatar, true)]
      && r.db == db.(users := r.db.users, subs := r.db.subs)
      && exists s ::
           && s !in db.subs
           && r.db.subs == db.subs[s := Subscription(id, Min(FreePlans(db.plans)), now, now + LifetimeMs, ACTIVE, false, now)]
  {
    if Taken(db.users, username, email) then Reply(db, Err(BadRequest))
    else if FreePlans(db.plans) == {} then Reply(db, Err(NotFound))
    else
      var plan := Min(FreePlans(db.plans));
      var id := FreshId(db.users.Keys);
      var s := FreshId(db.subs.Keys);
      var sub := Subscription(id, plan, now, now + LifetimeMs, ACTIVE, false, now);
      Reply(db.(users := db.users[id := User(username, email, passwordHash, USER, avatar, true)],
                subs := db.subs[s := sub]), Ok(id))
  }

  /** With the foreign key in place, a new user owns exactly one
      subscription, live, on an active "Free" plan, and the foreign key and
      "at most one live record per user" both survive. */
  lemma RegisterGivesOneLiveSubscription(db: Db, username: string, email: string, passwordHash: string,
                                         avatar: Option<string>, now: int)
    requires OwnersExist(db) && OneLivePerUser(db.subs)
    requires Register(db, username, email, passwordHash, avatar, now).out.Ok?
    ensures var r := Register(db, username, email, passwordHash, avatar, now);
      && |OwnedBy(r.db.subs, r.out.value)| == 1
      && LiveOf(r.db.subs, r.out.value) == OwnedBy(r.db.subs, r.out.value)
      && OwnersExist(r.db)
      && OneLivePerUser(r.db.subs)
  {
    var r := Register(db, username, email, passwordHash, avatar, now);
    var id := r.out.value;
    var s :| s !in db.subs &&
      r.db.subs == db.subs[s := Subscription(id, Min(FreePlans(db.plans)), now, now + LifetimeMs, ACTIVE, false, now)];
    assert OwnedBy(r.db.subs, id) == {s} by {
      forall k | k in r.db.subs && k != s
        ensures r.db.subs[k].userId != id
      {
        assert db.subs[k].userId in db.users;
      }
    }
    assert LiveOf(r.db.subs, id) == {s};
  }

  /** The user `findFirst({ OR: [{ email }, { username }] })` finds for the
      login identifier: the lowest id among those whose e-mail or username
      equals it. */
  function Lookup(users: map<int, User>, identifier: string): (r: Option<int>)
    ensures r.None? <==> forall k :: k in users ==> users[k].email != identifier && users[k].username != identifier
    ensures r.Some? ==> r.value in users && (users[r.value].email == identifier || users[r.value].username == identifier)
  {
    var hits := set k | k in users && (users[k].email == identifier || users[k].username == identifier);
    assert forall k :: k in users && (users[k].email == identifier || users[k].username == identifier) ==> k in hits;
    if hits == {} then None else Some(Min(hits))
  }

  /** `login` and `loginAdmin`, whose checks are identical: an unknown
      identifier and a wrong password fail alike with Unauthorized. Neither
      the role nor the `status` flag of the user is consulted. */
  function Login(users: map<int, User>, identifier: string, password: string,
                 matches: (string, string) -> bool): (r: Result<int>)
    ensures r.Err? ==> r.error == Unauthorized
    ensures r.Ok? <==> Lookup(users, identifier).Some? && matches(password, users[Lookup(users, identifier).value].password)
    ensures r.Ok? ==> r.value == Lookup(users, identifier).value
  {
    match Lookup(users, identifier)
    case None => Err(Unauthorized)
    case Some(k) => if matches(password, users[k].password) then Ok(k) else Err(Unauthorized)
  }

  /** Changing a user's role or deactivating them does not change any login
      decision, so `loginAdmin` admits users of role USER and soft-deleted
      users log in. */
  lemma LoginIgnoresRoleAndStatus(users: map<int, User>, k: int, role: Role, status: bool,
                                  identifier: string, password: string, matches: (string, string) -> bool)
    requires k in users
    ensures Login(users[k := users[k].(role := role, status := status)], identifier, password, matches)
         == Login(users, identifier, password, matches)
  {
    var users' := users[k := users[k].(role := role, status := status)];
    assert users'.Keys == users.Keys;
    assert forall j :: j in users ==>
      (users'[j].email == users[j].email && users'[j].username == users[j].username && users'[j].password == users[j].password);
    assert (set j | j in users' && (users'[j].email == identifier || users'[j].username == identifier))
        == (set j | j in users && (users[j].email == identifier || users[j].username == identifier));
  }
}
