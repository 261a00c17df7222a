/** The user resource controller: the helpers `isEmptyOrNull` and `getUserProps`
    and the request handlers `create`, `get`, `update`, `deleteViewer` and
    `logout`, acting on an in-memory user table and on the requester's session.
    Each handler answers with a status code and a body. */
module UserController {
  import opened JsString

  type Id = nat
  type Timestamp = nat

  /** A row of the user table, with everything the handlers store in it. */
  datatype UserRecord = UserRecord(
    id: Id,
    username: string,
    email: Option<string>,
    password: string,
    salt: string,
    createdAt: Timestamp,
    updatedAt: Timestamp)

  /** What `getUserProps` hands out: the five public fields of a user. */
  datatype PublicUser = PublicUser(
    id: Id,
    username: string,
    email: Option<string>,
    createdAt: Timestamp,
    updatedAt: Timestamp)

  /** A response body. `RawError` is a caught exception object sent as it is. */
  datatype Body =
    | Message(message: string)
    | Profile(user: PublicUser)
    | NullViewer
    | RawError

  datatype Response = Response(status: nat, body: Body)

  const FillOutAllFields := "Please fill out all fields."
  const PasswordsDoNotMatch := "Your passwords do not match."
  const AuthError := "Auth error"
  const LoggedOut := "You are successfully logged out"
  const UserGetNotFound := "404 on user get"
  const MustProvidePassword := "You must provide a password."
  const UpdateNotFound := "404 no user on update"
  const ViewerNotFound := "Forbidden: User Not Found"

  /** `isEmptyOrNull`: the field is absent, empty, or empty once trimmed, which
      is the case exactly when it is absent or made of whitespace only. */
  function IsEmptyOrNull(s: Option<string>): (r: bool)
    ensures r <==> s.None? || AllWhitespace(s.value)
  {
    s.None? || s.value == "" || Trim(s.value) == ""
  }

  /** One non-whitespace character makes a field filled. */
  lemma FilledByOneChar(s: string, i: nat)
    requires i < |s| && !IsWhitespace(s[i])
    ensures !IsEmptyOrNull(Some(s))
  {
  }

  /** A field that is not blank is truthy, so `field || fallback` picks it. */
  lemma FilledIsTruthy(s: Option<string>)
    requires !IsEmptyOrNull(s)
    ensures Truthy(s)
  {
  }

  /** `getUserProps`: the allow-listed public fields, copied from the record. */
  function Project(u: UserRecord): PublicUser {
    PublicUser(u.id, u.username, u.email, u.createdAt, u.updatedAt)
  }

  /** Salt and password never reach a projection: records that differ only in
      them project to the same public user. */
  lemma ProjectionHidesSecrets(u: UserRecord, password: string, salt: string)
    ensures Project(u.(password := password, salt := salt)) == Project(u)
  {
  }

  /** Every other field does reach it: two records project alike exactly when
      they are equal once salt and password are set aside. */
  lemma ProjectionKeepsPublicFields(u: UserRecord, v: UserRecord)
    ensures Project(u) == Project(v) <==> u.(password := v.password, salt := v.salt) == v
  {
  }

  /** The username `create` stores is lower-case and, like the one supplied,
      not blank. */
  lemma StoredUsernameIsFilledAndLower(username: Option<string>)
    requires !IsEmptyOrNull(username)
    ensures !IsEmptyOrNull(Some(ToLower(username.value))) && IsLower(ToLower(username.value))
  {
    ToLowerKeepsBlankness(username.value);
    ToLowerIsLower(username.value);
  }

  /** The user table's invariant: every row is stored under its own id, and
      ids are handed out in increasing order below `bound`, so a fresh id is
      never already taken. */
  ghost predicate KeyedBelow(users: map<Id, UserRecord>, bound: Id) {
    forall id :: id in users ==> users[id].id == id && id < bound
  }

  /** Adding a row under the next id keeps the invariant. */
  lemma AddKeepsKeyed(users: map<Id, UserRecord>, bound: Id, u: UserRecord)
    requires KeyedBelow(users, bound) && u.id == bound
    ensures bound !in users && KeyedBelow(users[bound := u], bound + 1)
  {
  }

  /** Rewriting a row in place under its own id keeps the invariant. */
  lemma ReplaceKeepsKeyed(users: map<Id, UserRecord>, bound: Id, u: UserRecord)
    requires KeyedBelow(users, bound) && u.id in users
    ensures KeyedBelow(users[u.id := u], bound)
  {
  }

  /** Removing a row keeps the invariant. */
  lemma RemoveKeepsKeyed(users: map<Id, UserRecord>, bound: Id, id: Id)
    requires KeyedBelow(users, bound)
    ensures KeyedBelow(users - {id}, bound)
  {
  }

  /** The controller's view of the world: the user table, the identity attached
      to the requester's session, the id the table hands out next, and the
      one-way password hash. */
  class Controller {
    var users: map<Id, UserRecord>
    var session: Option<Id>
    var nextId: Id
    const hash: (string, string) -> string

    /** The table is keyed by id, below the next id to hand out. */
    ghost predicate Valid()
      reads this
    {
      KeyedBelow(users, nextId)
    }

    constructor (hash: (string, string) -> string)
      ensures Valid()
      ensures users == map[] && session == None && nextId == 1 && this.hash == hash
    {
      users := map[];
      session := None;
      nextId := 1;
      this.hash := hash;
    }

    /** `create`: registers a user and logs the requester in as that user.
        `salt` is the freshly generated salt, `now` the creation time, and
        `loginSucceeds` whether attaching the user to the session worked. */
    method Create(username: Option<string>, password: Option<string>, verify: Option<string>,
                  salt: string, now: Timestamp, loginSucceeds: bool)
      returns (resp: Response)
      requires Valid()
      modifies this
      ensures Valid()
      // any blank field is rejected first, before anything is written
      ensures IsEmptyOrNull(username) || IsEmptyOrNull(password) || IsEmptyOrNull(verify) ==>
        resp == Response(500, Message(FillOutAllFields)) && unchanged(this)
      // then a password that differs from its confirmation, still writing nothing
      ensures !IsEmptyOrNull(username) && !IsEmptyOrNull(password) && !IsEmptyOrNull(verify) &&
              password != verify ==>
        resp == Response(500, Message(PasswordsDoNotMatch)) && unchanged(this)
      // otherwise exactly one new row, holding the lower-cased name and the hash
      ensures !IsEmptyOrNull(username) && !IsEmptyOrNull(password) && !IsEmptyOrNull(verify) &&
              password == verify ==>
        var id := old(nextId);
        && id !in old(users)
        && users == old(users)[id := UserRecord(id, ToLower(username.value), None,
                                                hash(password.value, salt), salt, now, now)]
        && nextId == id + 1
        && (loginSucceeds ==>
              session == Some(id) && resp == Response(200, Profile(Project(users[id]))))
        && (!loginSucceeds ==>
              session == old(session) && resp == Response(500, Message(AuthError)))
    {
      if IsEmptyOrNull(username) || IsEmptyOrNull(password) || IsEmptyOrNull(verify) {
        return Response(500, Message(FillOutAllFields));
      }
      if password != verify {
        return Response(500, Message(PasswordsDoNotMatch));
      }
      var digest := hash(password.value, salt);
      var user := UserRecord(nextId, ToLower(username.value), None, digest, salt, now, now);
      AddKeepsKeyed(users, nextId, user);
      users := users[user.id := user];
      nextId := nextId + 1;
      if loginSucceeds {
        session := Some(user.id);
        return Response(200, Profile(Project(user)));
      }
      return Response(500, Message(AuthError));
    }

    /** `logout`: clears the session, whether or not there was one. */
    method Logout() returns (resp: Response)
      requires Valid()
      modifies this
      ensures Valid()
      ensures session == None && users == old(users) && nextId == old(nextId)
      ensures resp == Response(200, Message(LoggedOut))
    {
      session := None;
      return Response(200, Message(LoggedOut));
    }

    /** `get`: the public view of one user, or 404; reads the table only. */
    method Get(userId: Id) returns (resp: Response)
      ensures resp.status == 200 <==> userId in users
      ensures userId !in users ==> resp == Response(404, Message(UserGetNotFound))
      ensures userId in users ==> resp.body == Profile(Project(users[userId]))
    {
      if userId !in users {
        return Response(404, Message(UserGetNotFound));
      }
      var user := users[userId];
      return Response(200, Profile(Project(user)));
    }

    /** `update`: overwrites email and username with the supplied values that
        are truthy, and the password with the supplied one, stored as given. */
    method Update(userId: Id, email: Option<string>, username: Option<string>,
                  password: Option<string>, now: Timestamp)
      returns (resp: Response)
      requires Valid()
      modifies this
      ensures Valid()
      // a blank password is rejected before the table is even looked at
      ensures IsEmptyOrNull(password) ==>
        resp == Response(500, Message(MustProvidePassword)) && unchanged(this)
      ensures !IsEmptyOrNull(password) && userId !in old(users) ==>
        resp == Response(404, Message(UpdateNotFound)) && unchanged(this)
      ensures !IsEmptyOrNull(password) && userId in old(users) ==>
        var before := old(users)[userId];
        && userId in users
        && users == old(users)[userId := users[userId]]
        && users[userId].id == userId
        && users[userId].email == (if Truthy(email) then email else before.email)
        && users[userId].username == (if Truthy(username) then username.value else before.username)
        && users[userId].password == password.value
        && users[userId].salt == before.salt
        && users[userId].createdAt == before.createdAt
        && users[userId].updatedAt == now
        && session == old(session) && nextId == old(nextId)
        && resp == Response(200, Profile(Project(users[userId])))
    {
      if IsEmptyOrNull(password) {
        return Response(500, Message(MustProvidePassword));
      }
      if userId !in users {
        return Response(404, Message(UpdateNotFound));
      }
      var user := users[userId];
      var updated := user.(
        email := if Truthy(email) then email else user.email,
        username := if Truthy(username) then username.value else user.username,
        password := if Truthy(password) then password.value else user.password,
        updatedAt := now);
      ReplaceKeepsKeyed(users, nextId, updated);
      users := users[userId := updated];
      return Response(200, Profile(Project(updated)));
    }

    /** `deleteViewer`: the requester deletes their own account and is logged
        out. Without a session, reading the session's user id throws, and the
        exception is answered with 500. */
    method DeleteViewer() returns (resp: Response)
      requires Valid()
      modifies this
      ensures Valid()
      ensures old(session).None? ==> resp == Response(500, RawError) && unchanged(this)
      ensures old(session).Some? && old(session).value !in old(users) ==>
        resp == Response(403, Message(ViewerNotFound)) && unchanged(this)
      ensures old(session).Some? && old(session).value in old(users) ==>
        && session == None
        && users == old(users) - {old(session).value}
        && nextId == old(nextId)
        && resp == Response(200, NullViewer)
    {
      if session.None? {
        return Response(500, RawError);
      }
      var id := session.value;
      if id !in users {
        return Response(403, Message(ViewerNotFound));
      }
      session := None;
      RemoveKeepsKeyed(users, nextId, id);
      users := users - {id};
      return Response(200, NullViewer);
    }
  }

  /** Helper for the `RegisterThenFetch` scenario: the name it registers,
      lowered. */
  lemma AliceLowered()
    ensures ToLower("Alice") == "alice"
  {
  }

  /** Clients of the handlers. Registering "Alice" stores "alice" with the
      hashed password and logs the requester in; fetching finds exactly that. */
  method RegisterThenFetch(hash: (string, string) -> string)
  {
    var c := new Controller(hash);
    FilledByOneChar("Alice", 0);
    FilledByOneChar("secret", 0);
    var r := c.Create(Some("Alice"), Some("secret"), Some("secret"), "salt", 7, true);
    AliceLowered();
    assert c.users[1] == UserRecord(1, "alice", None, hash("secret", "salt"), "salt", 7, 7);
    assert c.session == Some(1);
    r := c.Get(1);
    assert r == Response(200, Profile(PublicUser(1, "alice", None, 7, 7)));
    r := c.Get(2);
    assert r == Response(404, Message(UserGetNotFound));
  }

  /** A whitespace password is refused; an update giving only an email and a
      password keeps the username and stores the new password as given. */
  method UpdateEmailOnly(c: Controller, id: Id)
    requires c.Valid() && id in c.users
    modifies c
  {
    var before := c.users[id];
    var r := c.Update(id, Some("a@example.com"), None, Some(" "), 8);
    assert r == Response(500, Message(MustProvidePassword));
    FilledByOneChar("new", 0);
    r := c.Update(id, Some("a@example.com"), None, Some("new"), 8);
    assert c.users[id] == before.(email := Some("a@example.com"), password := "new", updatedAt := 8);
  }

  /** Deleting one's own account logs out; a second attempt, now without a
      session, fails with 500; logging out twice answers the same both times. */
  method DeleteTwiceThenLogoutTwice(c: Controller, id: Id)
    requires c.Valid() && c.session == Some(id) && id in c.users
    modifies c
  {
    var r := c.DeleteViewer();
    assert r == Response(200, NullViewer) && id !in c.users && c.session == None;
    r := c.DeleteViewer();
    assert r == Response(500, RawError);
    r := c.Logout();
    var r' := c.Logout();
    assert r == r' == Response(200, Message(LoggedOut));
  }
}
