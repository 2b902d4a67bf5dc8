/** `UsersService`: creating users and admins, updating a user field by
    field, the soft delete, and the active / inactive listings. Password
    hashing is a bcrypt call and enters as the finished hash (on create) or
    as a function (on update); the e-mail sent after a create is not
    modelled. */
module Users {
  import opened Outcomes
  import opened Json
  import opened Ids
  import opened Text
  import opened Schema
  import opened Transforms
  import opened Auth

  /** No two users share a username, and no two share an e-mail. */
  ghost predicate UniqueIdentity(users: map<int, User>) {
    forall a, b :: a in users && b in users && a != b ==>
      users[a].username != users[b].username && users[a].email != users[b].email
  }

  /** The common body of `createUser` and `createAdmin`: Conflict when the
      username or the e-mail is taken by any user, active or not; otherwise
      a new active user with role `role` under the next id. */
  function AddUser(users: map<int, User>, username: string, email: string, passwordHash: string,
                   avatar: Option<string>, role: Role): (r: Result<(map<int, User>, int)>)
    ensures r.Err? <==> Taken(users, username, email)
    ensures r.Err? ==> r.error == Conflict
    ensures r.Ok? ==>
      && r.value.1 !in users
      && r.value.0 == users[r.value.1 := User(username, email, passwordHash, role, avatar, true)]
  {
    if Taken(users, username, email) then Err(Conflict)
    else
      var id := FreshId(users.Keys);
      Ok((users[id := User(username, email, passwordHash, role, avatar, true)], id))
  }

  /** `createUser`: the schema's default role, USER. */
  function CreateUser(users: map<int, User>, username: string, email: string, passwordHash: string,
                      avatar: Option<string>): (r: Result<(map<int, User>, int)>)
    ensures r.Err? <==> Taken(users, username, email)
    ensures r.Ok? ==> r.value.1 in r.value.0 && r.value.0[r.value.1].role == USER && r.value.0[r.value.1].status
  {
    AddUser(users, username, email, passwordHash, avatar, USER)
  }

  /** `createAdmin`: the same checks, role ADMIN. */
  function CreateAdmin(users: map<int, User>, username: string, email: string, passwordHash: string,
                       avatar: Option<string>): (r: Result<(map<int, User>, int)>)
    ensures r.Err? <==> Taken(users, username, email)
    ensures r.Ok? ==> r.value.1 in r.value.0 && r.value.0[r.value.1].role == ADMIN && r.value.0[r.value.1].status
  {
    AddUser(users, username, email, passwordHash, avatar, ADMIN)
  }

  /** Creating a user or an admin keeps usernames and e-mails unique. */
  lemma AddUserKeepsIdentityUnique(users: map<int, User>, username: string, email: string,
                                   passwordHash: string, avatar: Option<string>, role: Role)
    requires UniqueIdentity(users)
    ensures var r := AddUser(users, username, email, passwordHash, avatar, role);
      r.Ok? ==> UniqueIdentity(r.value.0)
  {
  }

  /** `updateMe` / `updateUser`: NotFound for a missing user; username,
      e-mail and password change only when sent as non-blank strings, are
      trimmed, and the password is stored hashed; the avatar changes only
      when a file name is sent; BadRequest when nothing changes. Role and
      status are never touched, and no other user changes. */
  function UpdateUser(users: map<int, User>, id: int, username: Option<Value>, email: Option<Value>,
                      password: Option<Value>, hashOf: string -> string, filename: Option<string>)
    : (r: Result<(map<int, User>, User)>)
    ensures r.Ok? <==>
      id in users && (NonBlankText(username).Some? || NonBlankText(email).Some?
                      || NonBlankText(password).Some? || (filename.Some? && filename.value != ""))
    ensures r == Err(NotFound) <==> id !in users
    ensures r == Err(BadRequest) <==>
      id in users && NonBlankText(username).None? && NonBlankText(email).None?
      && NonBlankText(password).None? && !(filename.Some? && filename.value != "")
    ensures r.Ok? ==>
      var u := r.value.1;
      && r.value.0 == users[id := u]
      && u.role == users[id].role && u.status == users[id].status
      && u.username == NonBlankText(username).GetOr(users[id].username)
      && u.email == NonBlankText(email).GetOr(users[id].email)
      && u.password == (match NonBlankText(password) case Some(p) => hashOf(p) case None => users[id].password)
      && u.avatar == (if filename.Some? && filename.value != "" then filename else users[id].avatar)
  {
    ApplyUserUpdate(users, id, NonBlankText(username), NonBlankText(email), NonBlankText(password), hashOf, filename)
  }

  /** The update once each text field has been reduced to the value it
      selects (`None` for "leave the column alone"). */
  function ApplyUserUpdate(users: map<int, User>, id: int, name: Option<string>, mail: Option<string>,
                           pass: Option<string>, hashOf: string -> string, filename: Option<string>)
    : Result<(map<int, User>, User)>
  {
    if id !in users then Err(NotFound)
    else if name.None? && mail.None? && pass.None? && !(filename.Some? && filename.value != "") then Err(BadRequest)
    else
      var u := Patched(users[id], name, mail, pass, hashOf, filename);
      Ok((users[id := u], u))
  }

  /** The row after an update whose cleaned fields are `name`, `mail` and
      `pass`. */
  function Patched(prev: User, name: Option<string>, mail: Option<string>, pass: Option<string>,
                   hashOf: string -> string, filename: Option<string>): User
  {
    var sent := filename.Some? && filename.value != "";
    prev.(username := name.GetOr(prev.username),
          email := mail.GetOr(prev.email),
          password := if pass.Some? then hashOf(pass.value) else prev.password,
          avatar := if sent then filename else prev.avatar)
  }

  /** The users the active listing shows. */
  function ActiveUsers(users: map<int, User>): set<int> {
    set k | k in users && users[k].status
  }

  /** The users the inactive listing shows. */
  function InactiveUsers(users: map<int, User>): set<int> {
    set k | k in users && !users[k].status
  }

  /** `deleteUser`: NotFound for a missing user; otherwise a soft delete
      that only clears the status. */
  function DeleteUser(users: map<int, User>, id: int): (r: Result<map<int, User>>)
    ensures r.Err? <==> id !in users
    ensures r.Err? ==> r.error == NotFound
    ensures r.Ok? ==> r.value == users[id := users[id].(status := false)]
  {
    if id !in users then Err(NotFound) else Ok(users[id := users[id].(status := false)])
  }

  /** After a soft delete the user leaves the active listing and joins the
      inactive one, every other user stays where it was, and deleting again
      changes nothing. */
  lemma DeleteUserMovesToInactive(users: map<int, User>, id: int)
    requires id in users
    ensures var u := DeleteUser(users, id).value;
      && ActiveUsers(u) == ActiveUsers(users) - {id}
      && InactiveUsers(u) == InactiveUsers(users) + {id}
      && DeleteUser(u, id) == Ok(u)
  {
    var u := DeleteUser(users, id).value;
    assert u[id := u[id].(status := false)] == u;
  }

  /** `getInActiveUser`: NotFound when no user is inactive. */
  function GetInactiveUsers(users: map<int, User>): (r: Result<set<int>>)
    ensures r.Err? <==> forall k :: k in users ==> users[k].status
    ensures r.Err? ==> r.error == NotFound
    ensures r.Ok? ==> r.value != {} && forall k :: k in r.value <==> k in users && !users[k].status
  {
    var ids := InactiveUsers(users);
    assert forall k :: k in ids <==> k in users && !users[k].status;
    NoElementMeansEmpty(ids);
    if ids == {} then Err(NotFound) else Ok(ids)
  }

  /** `getAllUsers` as written: its guard tests the array `findMany`
      returns for falsiness, which an array never is, so it answers with the
      active users and never fails, even when there are none. */
  function GetAllUsersAsWritten(users: map<int, User>): (r: Result<set<int>>)
    ensures r.Ok? && forall k :: k in r.value <==> k in users && users[k].status
  {
    Ok(ActiveUsers(users))
  }

  /** The listing the guard was written for: NotFound when no user is
      active, like its inactive counterpart. */
  function GetAllUsers(users: map<int, User>): (r: Result<set<int>>)
    ensures r.Err? <==> forall k :: k in users ==> !users[k].status
    ensures r.Err? ==> r.error == NotFound
    ensures r.Ok? ==> r.value != {} && forall k :: k in r.value <==> k in users && users[k].status
  {
    var ids := ActiveUsers(users);
    assert forall k :: k in ids <==> k in users && users[k].status;
    NoElementMeansEmpty(ids);
    if ids == {} then Err(NotFound) else Ok(ids)
  }

  /** The discrepancy: with no active user the written listing succeeds
      with an empty list where the intended one reports NotFound. */
  lemma GetAllUsersGuardIsDead()
    ensures GetAllUsersAsWritten(map[]) == Ok({})
    ensures GetAllUsers(map[]) == Err(NotFound)
  {
    NoElementMeansEmpty(ActiveUsers(map[]));
  }

  /** The two listings split the users: every user is in exactly one. */
  lemma ListingsPartitionUsers(users: map<int, User>)
    ensures ActiveUsers(users) + InactiveUsers(users) == users.Keys
    ensures ActiveUsers(users) * InactiveUsers(users) == {}
  {
  }

  /** `updateMe` / `updateUser` never move a user between the active and
      inactive listings. */
  lemma UpdateUserKeepsListings(users: map<int, User>, id: int, username: Option<Value>, email: Option<Value>,
                                password: Option<Value>, hashOf: string -> string, filename: Option<string>)
    requires UpdateUser(users, id, username, email, password, hashOf, filename).Ok?
    ensures var u := UpdateUser(users, id, username, email, password, hashOf, filename).value.0;
      ActiveUsers(u) == ActiveUsers(users) && InactiveUsers(u) == InactiveUsers(users)
  {
    var row := UpdateUser(users, id, username, email, password, hashOf, filename).value.1;
    RewriteKeepsListings(users, id, row);
  }

  /** Rewriting a user's row with the same status keeps both listings. */
  lemma RewriteKeepsListings(users: map<int, User>, id: int, row: User)
    requires id in users && row.status == users[id].status
    ensures ActiveUsers(users[id := row]) == ActiveUsers(users)
    ensures InactiveUsers(users[id := row]) == InactiveUsers(users)
  {
    var u := users[id := row];
    assert forall k :: k in u ==> u[k].status == users[k].status;
  }

  /** Applying the same cleaned fields twice equals applying them once. */
  lemma {:induction false} ApplyUserUpdateTwice(users: map<int, User>, id: int, name: Option<string>, mail: Option<string>,
                                                pass: Option<string>, hashOf: string -> string, filename: Option<string>)
    requires ApplyUserUpdate(users, id, name, mail, pass, hashOf, filename).Ok?
    ensures var u := ApplyUserUpdate(users, id, name, mail, pass, hashOf, filename).value.0;
      ApplyUserUpdate(u, id, name, mail, pass, hashOf, filename).value.0 == u
  {
    var u := ApplyUserUpdate(users, id, name, mail, pass, hashOf, filename).value.0;
    assert u[id := Patched(u[id], name, mail, pass, hashOf, filename)] == u;
  }

  /** Sending the same update twice equals sending it once. */
  lemma UpdateUserIdempotent(users: map<int, User>, id: int, username: Option<Value>, email: Option<Value>,
                             password: Option<Value>, hashOf: string -> string, filename: Option<string>)
    requires UpdateUser(users, id, username, email, password, hashOf, filename).Ok?
    ensures var u := UpdateUser(users, id, username, email, password, hashOf, filename).value.0;
      UpdateUser(u, id, username, email, password, hashOf, filename).value.0 == u
  {
    ApplyUserUpdateTwice(users, id, NonBlankText(username), NonBlankText(email), NonBlankText(password), hashOf, filename);
  }

  /** The update does not look for another user holding the new username,
      so renaming user `b` to the username of user `a` succeeds and leaves
      two users with one username; only the database's unique index stands
      in the way. */
  lemma UpdateUserCanDuplicateUsername(users: map<int, User>, a: int, b: int, hashOf: string -> string)
    requires UniqueIdentity(users)
    requires a in users && b in users && a != b
    requires users[a].username != "" && IsTrimmed(users[a].username)
    ensures var r := UpdateUser(users, b, Some(Str(users[a].username)), None, None, hashOf, None);
      r.Ok? && r.value.0[a].username == r.value.0[b].username && !UniqueIdentity(r.value.0)
  {
    var name := users[a].username;
    assert Trim(name) == name;
    assert NonBlankText(Some(Str(name))) == Some(name);
    var r := UpdateUser(users, b, Some(Str(name)), None, None, hashOf, None);
    assert r.Ok?;
    assert r.value.0[b].username == name && r.value.0[a] == users[a];
  }
}
