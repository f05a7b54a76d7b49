/** The user routes: creating a player with an optional display name and
    looking one up by identifier. */
module Users {
  import opened Wrappers
  import opened Text
  import opened UserHelpers
  import opened Model

  datatype UserError =
    | UsernameNotString
    | UsernameInvalid
    | CreateUserFailed   // the insert threw; 500, as the route tests expect
    | UserIdRequired
    | InvalidUserId
    | UnknownUser
  {
    function Code(): nat
    {
      match this
      case CreateUserFailed => 500
      case UnknownUser => 404
      case _ => 400
    }
  }

  /** `POST /users`. `freshId` is the identifier the store generates; an
      insert that collides with an existing user fails. */
  function CreateUserRoute(st: Store, username: Json, freshId: Id): (r: Step<User, UserError>)
    ensures r.reply.Failure? ==> r.store == st
    ensures r.reply == Failure(UsernameNotString) <==> !username.Undefined? && !username.Str?
    ensures r.reply == Failure(UsernameInvalid) <==> username.Str? && !IsValidUsername(username.s)
    ensures r.reply == Failure(CreateUserFailed) <==>
      (username.Undefined? || (username.Str? && IsValidUsername(username.s))) && freshId in st.users
    ensures r.reply.Success? ==>
      var u := r.reply.value;
      && u.userId == freshId
      && u.username == (if username.Str? then Some(Trim(username.s)) else None)
      && r.store == st.(users := st.users[freshId := u])
  {
    if !username.Undefined? && !username.Str? then Step(Failure(UsernameNotString), st)
    else if username.Str? && !IsValidUsername(username.s) then Step(Failure(UsernameInvalid), st)
    else if freshId in st.users then Step(Failure(CreateUserFailed), st)
    else
      // `username ? username.trim() : undefined`, then `username || null`:
      // a valid name trims to a non-empty string.
      var name := if username.Str? && username.s != "" then Some(Trim(username.s)) else None;
      var u := User(freshId, name);
      Step(Success(u), st.(users := st.users[freshId := u]))
  }

  /** `GET /users/:id`. Reading never changes the store. */
  function GetUserRoute(st: Store, id: string): (r: Result<User, UserError>)
    ensures r == Failure(UserIdRequired) <==> IsBlank(id)
    ensures r == Failure(InvalidUserId) <==> !IsBlank(id) && !IsValidUserId(id)
    ensures r == Failure(UnknownUser) <==> IsValidUserId(id) && id !in st.users
    ensures r.Success? ==> id in st.users && r.value == st.users[id]
  {
    ValidUserIdNotBlank(id);
    if IsBlank(id) then Failure(UserIdRequired)
    else if !IsValidUserId(id) then Failure(InvalidUserId)
    else if id !in st.users then Failure(UnknownUser)
    else Success(st.users[id])
  }

  /** A well-formed identifier is not blank, so it always reaches the format check. */
  lemma ValidUserIdNotBlank(id: string)
    ensures IsValidUserId(id) ==> !IsBlank(id)
  {
    if IsValidUserId(id) {
      ValidUserIdIsTrimmed(id);
      assert |id| == 36;
    }
  }

  /** A malformed identifier is refused before any lookup: the reply is the
      same whatever users exist. */
  lemma MalformedIdIgnoresStore(st1: Store, st2: Store, id: string)
    requires !IsValidUserId(id)
    ensures GetUserRoute(st1, id) == GetUserRoute(st2, id)
  {
  }

  /** Every stored display name is valid and already trimmed. */
  predicate UsernamesWellFormed(users: map<Id, User>)
  {
    forall id :: id in users && users[id].username.Some? ==>
      IsValidUsername(users[id].username.value) && Trim(users[id].username.value) == users[id].username.value
  }

  /** Creating a user keeps every stored display name valid and trimmed. */
  lemma CreateKeepsUsernamesWellFormed(st: Store, username: Json, freshId: Id)
    requires UsernamesWellFormed(st.users)
    ensures UsernamesWellFormed(CreateUserRoute(st, username, freshId).store.users)
  {
    var r := CreateUserRoute(st, username, freshId);
    if r.reply.Success? {
      if username.Str? {
        StoredNameWellFormed(username.s);
      }
      InsertKeepsUsernamesWellFormed(st.users, freshId, r.reply.value);
    }
  }

  /** The trimmed form of a valid name is valid and already trimmed. */
  lemma StoredNameWellFormed(s: string)
    requires IsValidUsername(s)
    ensures IsValidUsername(Trim(s)) && Trim(Trim(s)) == Trim(s)
  {
    UsernameTrimInvariant(s);
    TrimIdempotent(s);
  }

  /** Adding a user whose name, if any, is valid and trimmed keeps every stored
      name valid and trimmed. */
  lemma InsertKeepsUsernamesWellFormed(users: map<Id, User>, id: Id, u: User)
    requires UsernamesWellFormed(users)
    requires u.username.Some? ==> IsValidUsername(u.username.value) && Trim(u.username.value) == u.username.value
    ensures UsernamesWellFormed(users[id := u])
  {
    var m := users[id := u];
    forall k | k in m && m[k].username.Some?
      ensures IsValidUsername(m[k].username.value) && Trim(m[k].username.value) == m[k].username.value
    {
      if k != id {
        assert m[k] == users[k];
      }
    }
  }

  /** Looking up a freshly created user by its (well-formed) identifier
      returns exactly the user that was created. */
  lemma CreateThenGet(st: Store, username: Json, freshId: Id)
    requires IsValidUserId(freshId)
    requires CreateUserRoute(st, username, freshId).reply.Success?
    ensures
      var r := CreateUserRoute(st, username, freshId);
      GetUserRoute(r.store, freshId) == Success(r.reply.value)
  {
    ValidUserIdNotBlank(freshId);
  }

  /** The rejections of the route tests: a number, an empty and a
      whitespace-only name (`spaces`) are refused and create nothing. */
  lemma CreateUserExamples(st: Store, freshId: Id, spaces: string)
    requires spaces == "   "
    ensures CreateUserRoute(st, Num(123.0), freshId) == Step(Failure(UsernameNotString), st)
    ensures CreateUserRoute(st, Str(""), freshId) == Step(Failure(UsernameInvalid), st)
    ensures CreateUserRoute(st, Str(spaces), freshId) == Step(Failure(UsernameInvalid), st)
  {
    assert IsBlank(spaces);
  }

  /** The 51-character name of the route tests is refused and creates nothing. */
  lemma CreateUserRefusesLongName(st: Store, freshId: Id, long: string)
    requires long == seq(51, _ => 'a')
    ensures CreateUserRoute(st, Str(long), freshId) == Step(Failure(UsernameInvalid), st)
  {
    PlainUsernameLength(long);
  }

  /** The success case of the route tests: the plain name `name` is stored as given. */
  lemma CreateUserAcceptsExample(st: Store, freshId: Id, name: string)
    requires freshId !in st.users && name == "testplayer"
    ensures CreateUserRoute(st, Str(name), freshId).reply == Success(User(freshId, Some(name)))
  {
    PlainUsernameLength(name);
  }

  /** The malformed-identifier lookup of the route tests is refused with 400,
      whatever users exist. */
  lemma GetUserExamples(st: Store, bad: string)
    requires bad == "invalid-uuid-format"
    ensures GetUserRoute(st, bad) == Failure(InvalidUserId)
  {
    assert !IsWhitespace(bad[0]);
    assert !IsValidUserId(bad) by {
      assert |bad| != 36;
    }
  }
}
