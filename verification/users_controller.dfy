/**
 * User registration (controllers/users.js, POST `/`): presence check,
 * then length check, then the password is hashed and the user stored.
 */
module UsersController {
  import opened Wrappers
  import opened ObjectIds
  import opened Http
  import opened Store

  /** The fields of the request body the handler reads. */
  datatype UserRequest = UserRequest(username: Option<string>, name: Option<string>, password: Option<string>)

  /** The error `user.save()` throws when the unique index on `username` rejects the document. */
  datatype Failure = UsernameNotUnique

  const MissingMessage := "username or password missing"
  const LengthMessage := "username and password must be greater than 3 characters"

  /** The shortest accepted username and password. */
  const MinLength: nat := 3

  /** `bcrypt.hash` cost factor. */
  const SaltRounds: nat := 10

  /** JavaScript truthiness of an optional string: present and not empty. */
  predicate Truthy(v: Option<string>)
  {
    v.Some? && v.value != ""
  }

  /**
   * The two ordered checks of the handler: a missing or empty username or
   * password is reported first; otherwise either one shorter than three
   * characters is reported; otherwise the request passes.
   */
  function CheckRequest(body: UserRequest): (r: Option<string>)
    ensures r == Some(MissingMessage) <==> !(Truthy(body.username) && Truthy(body.password))
    ensures r == Some(LengthMessage) <==>
              Truthy(body.username) && Truthy(body.password)
              && (|body.username.value| < MinLength || |body.password.value| < MinLength)
    ensures r.None? <==>
              body.username.Some? && |body.username.value| >= MinLength
              && body.password.Some? && |body.password.value| >= MinLength
  {
    if !(Truthy(body.username) && Truthy(body.password)) then Some(MissingMessage)
    else if |body.username.value| < MinLength || |body.password.value| < MinLength then Some(LengthMessage)
    else None
  }

  /**
   * POST `/`: after the checks, stores a user holding the username, the
   * name and `hash(password, SaltRounds)` (never the password itself) with
   * no blogs, and answers 200 with it. A rejected request, or a username
   * already in use, leaves the store unchanged. `hash` stands for
   * `bcrypt.hash`.
   */
  method Register(db: Db, hash: (string, nat) -> string, body: UserRequest) returns (res: Response<User, Failure>)
    requires db.Valid()
    modifies db
    ensures db.Valid()
    ensures db.blogs == old(db.blogs)
    ensures CheckRequest(body).Some? ==> res == Sent(400, ErrorJson(CheckRequest(body).value)) && unchanged(db)
    ensures CheckRequest(body).None? && UsernameTaken(old(db.users), body.username.value) ==>
              res == Forwarded(UsernameNotUnique) && unchanged(db)
    ensures CheckRequest(body).None? && !UsernameTaken(old(db.users), body.username.value) ==>
              var user := User(body.username.value, body.name, hash(body.password.value, SaltRounds), []);
              && res.Sent? && res.status == 200 && res.payload.Saved?
              && res.payload.id !in old(db.users)
              && res.payload.record == user
              && db.users == old(db.users)[res.payload.id := user]
              && |db.users| == |old(db.users)| + 1
  {
    var check := CheckRequest(body);
    if check.Some? {
      return Sent(400, ErrorJson(check.value));
    }
    var passwordHash := hash(body.password.value, SaltRounds);
    var user := User(body.username.value, body.name, passwordHash, []);
    if UsernameTaken(db.users, user.username) {
      return Forwarded(UsernameNotUnique);
    }
    var id := db.nextId;
    AddUserConsistent(db.blogs, db.users, id, user);
    db.users := db.users[id := user];
    db.nextId := id + 1;
    res := Sent(200, Saved(id, user));
  }

  /**
   * The same valid registration sent twice: the second is refused as a
   * duplicate username and changes nothing, so at most one user is added
   * and exactly one user holds that username afterwards.
   */
  method RegisterTwice(db: Db, hash: (string, nat) -> string, body: UserRequest)
    returns (first: Response<User, Failure>, second: Response<User, Failure>)
    requires db.Valid()
    requires CheckRequest(body).None?
    modifies db
    ensures db.Valid()
    ensures second == Forwarded(UsernameNotUnique)
    ensures first.Sent? <==> !UsernameTaken(old(db.users), body.username.value)
    ensures |db.users| == if first.Sent? then |old(db.users)| + 1 else |old(db.users)|
    ensures exists u :: u in db.users && db.users[u].username == body.username.value
    ensures forall u, v ::
              (u in db.users && v in db.users && db.users[u].username == body.username.value
               && db.users[v].username == body.username.value) ==> u == v
  {
    first := Register(db, hash, body);
    ghost var afterFirst := db.users;
    assert UsernameTaken(db.users, body.username.value) by {
      if first.Sent? {
        assert db.users[first.payload.id].username == body.username.value;
      }
    }
    second := Register(db, hash, body);
    assert db.users == afterFirst;
  }
}
