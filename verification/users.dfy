/** Accounts: registration, login, profiles and username availability
    (backend/app/api/users.py over the `users` table of backend/app/models/user.py). */
module Users {
  import opened Common

  /** A row of `users`. `full_name` is nullable; `last_login` is unset until the
      first successful login. */
  datatype User = User(
    id: nat,
    username: string,
    email: string,
    fullName: Option<string>,
    passwordHash: string,
    createdAt: Time,
    lastLogin: Option<Time>)

  /** The table in the order the database enumerates it; `.first()` without an
      `ORDER BY` picks the first matching row in this order. */
  type Table = seq<User>

  /** The table's constraints: the primary key and the two unique columns. */
  predicate UniqueAccounts(users: Table) {
    forall i, j :: 0 <= i < j < |users| ==>
      users[i].id != users[j].id && users[i].username != users[j].username && users[i].email != users[j].email
  }

  /** `UserResponse`: every column except the password hash. */
  datatype UserView = UserView(id: nat, username: string, email: string, fullName: Option<string>,
                               createdAt: Time, lastLogin: Option<Time>)

  function View(u: User): (v: UserView)
    ensures v.id == u.id && v.username == u.username && v.email == u.email && v.fullName == u.fullName
    ensures v.createdAt == u.createdAt && v.lastLogin == u.lastLogin
  {
    UserView(u.id, u.username, u.email, u.fullName, u.createdAt, u.lastLogin)
  }

  const UsernameTaken := "El nombre de usuario ya está en uso"
  const EmailTaken := "El email ya está registrado"
  const BadCredentials := "Usuario o contraseña incorrectos"
  const UserNotFound := "Usuario no encontrado"

  /** The position of the first row satisfying `p`, if any. */
  function FirstWhere(users: Table, p: User -> bool): (r: Option<nat>)
    ensures r.Some? ==> r.value < |users| && p(users[r.value]) && forall k :: 0 <= k < r.value ==> !p(users[k])
    ensures r.None? ==> forall k :: 0 <= k < |users| ==> !p(users[k])
  {
    if |users| == 0 then None
    else if p(users[0]) then Some(0)
    else
      match FirstWhere(users[1..], p)
      case None => None
      case Some(i) => Some(i + 1)
  }

  /** The filter of register and login: the row's username is `username` or its
      email is `email`. */
  function Matches(username: string, email: string): User -> bool {
    (u: User) => u.username == username || u.email == email
  }

  /** `UserCreate`. */
  datatype Registration = Registration(username: string, email: string, fullName: Option<string>, password: string)

  /** `register_user`: the first row sharing the username or the email decides the
      400: the username message when that row has the username, the email message
      otherwise. With no such row the account is appended, its password stored only
      as `hash(password)`. `hash` is SHA-256 in hex; `now` is the server default. */
  function Register(users: Table, freshId: nat, input: Registration, hash: string -> string, now: Time): (r: (Table, Result<UserView>))
    requires forall u :: u in users ==> u.id != freshId
    ensures r.1.Err? ==> r.0 == users && r.1.status == BadRequest
    ensures r.1.Ok? <==> forall u :: u in users ==> u.username != input.username && u.email != input.email
    ensures r.1.Err? ==>
      var i := FirstWhere(users, Matches(input.username, input.email));
      && i.Some?
      && (r.1.detail == UsernameTaken <==> users[i.value].username == input.username)
      && (r.1.detail == EmailTaken <==> users[i.value].username != input.username)
    ensures r.1.Ok? ==>
      var u := User(freshId, input.username, input.email, input.fullName, hash(input.password), now, None);
      r.0 == users + [u] && r.1.value == View(u)
    ensures UniqueAccounts(users) ==> UniqueAccounts(r.0)
  {
    match FirstWhere(users, Matches(input.username, input.email))
    case Some(i) =>
      if users[i].username == input.username then (users, Err(BadRequest, UsernameTaken))
      else (users, Err(BadRequest, EmailTaken))
    case None =>
      assert forall u :: u in users ==> u.username != input.username && u.email != input.email by {
        forall u | u in users ensures u.username != input.username && u.email != input.email {
          var k :| 0 <= k < |users| && users[k] == u;
          assert !Matches(input.username, input.email)(users[k]);
        }
      }
      var u := User(freshId, input.username, input.email, input.fullName, hash(input.password), now, None);
      (users + [u], Ok(View(u)))
  }

  /** `login_user`: the first row whose username or email is the given text is the
      account; an unknown account and a wrong password give the same 401 and change
      nothing. A success stamps `last_login` on that row alone. */
  function Login(users: Table, usernameOrEmail: string, password: string, hash: string -> string, now: Time): (r: (Table, Result<UserView>))
    ensures r.1.Err? ==> r.0 == users && r.1 == Err(Unauthorized, BadCredentials)
    ensures var i := FirstWhere(users, Matches(usernameOrEmail, usernameOrEmail));
      r.1.Ok? <==> i.Some? && users[i.value].passwordHash == hash(password)
    ensures r.1.Ok? ==>
      var i := FirstWhere(users, Matches(usernameOrEmail, usernameOrEmail)).value;
      && r.0 == users[i := users[i].(lastLogin := Some(now))]
      && r.1.value == View(r.0[i])
      && r.1.value.lastLogin == Some(now)
    ensures |r.0| == |users|
    ensures forall k :: 0 <= k < |users| ==> r.0[k].(lastLogin := users[k].lastLogin) == users[k]
  {
    match FirstWhere(users, Matches(usernameOrEmail, usernameOrEmail))
    case None => (users, Err(Unauthorized, BadCredentials))
    case Some(i) =>
      if users[i].passwordHash != hash(password) then (users, Err(Unauthorized, BadCredentials))
      else
        var logged := users[i].(lastLogin := Some(now));
        (users[i := logged], Ok(View(logged)))
  }

  /** `get_user_profile`: 404 when no row has the username. */
  function GetProfile(users: Table, username: string): (r: Result<UserView>)
    ensures r.Err? <==> forall u :: u in users ==> u.username != username
    ensures r.Err? ==> r == Err(NotFound, UserNotFound)
    ensures r.Ok? ==> exists u :: u in users && u.username == username && r.value == View(u)
  {
    match FirstWhere(users, (u: User) => u.username == username)
    case None => Err(NotFound, UserNotFound)
    case Some(i) =>
      assert users[i] in users;
      Ok(View(users[i]))
  }

  /** The response of `check_username_availability`. */
  datatype Availability = Availability(username: string, available: bool)

  /** `check_username_availability`: available exactly when no row has the username. */
  function CheckAvailability(users: Table, username: string): (r: Availability)
    ensures r.username == username
    ensures r.available <==> forall u :: u in users ==> u.username != username
  {
    var found := FirstWhere(users, (u: User) => u.username == username);
    assert found.Some? ==> users[found.value] in users;
    Availability(username, found.None?)
  }

  // ---------------------------------------------------------------------------
  // How the endpoints relate

  /** Registration is possible only for a username reported available, and makes it
      unavailable. */
  lemma RegisterTakesUsername(users: Table, freshId: nat, input: Registration, hash: string -> string, now: Time)
    requires forall u :: u in users ==> u.id != freshId
    requires Register(users, freshId, input, hash, now).1.Ok?
    ensures CheckAvailability(users, input.username).available
    ensures !CheckAvailability(Register(users, freshId, input, hash, now).0, input.username).available
    ensures GetProfile(Register(users, freshId, input, hash, now).0, input.username) == Register(users, freshId, input, hash, now).1
  {
    var r := Register(users, freshId, input, hash, now);
    var u := r.0[|users|];
    assert u in r.0;
    forall v | v in r.0 && v.username == input.username ensures v == u {
      var k :| 0 <= k < |r.0| && r.0[k] == v;
    }
  }

  /** A newly registered account can log in with its password by username, unless
      some older account's email is that very username. */
  lemma RegisterThenLogin(users: Table, freshId: nat, input: Registration, hash: string -> string, now: Time, later: Time)
    requires forall u :: u in users ==> u.id != freshId
    requires forall u :: u in users ==> u.email != input.username
    requires Register(users, freshId, input, hash, now).1.Ok?
    ensures var registered := Register(users, freshId, input, hash, now).0;
      var login := Login(registered, input.username, input.password, hash, later);
      && login.1.Ok?
      && login.1.value.id == freshId
      && login.1.value.lastLogin == Some(later)
  {
    var registered := Register(users, freshId, input, hash, now).0;
    var m := Matches(input.username, input.username);
    forall k | 0 <= k < |users| ensures !m(registered[k]) {
      assert registered[k] == users[k];
      assert users[k] in users;
    }
    assert m(registered[|users|]);
    var i := FirstWhere(registered, m);
    assert i == Some(|users|);
  }

  /** A username already taken by a later row is reported as a taken email when an
      earlier row holds the email: the message follows the first matching row. */
  lemma RegisterReportsFirstMatchingRow(hash: string -> string)
    ensures var users := [User(1, "ana", "x@example.com", None, "h1", 0, None),
                          User(2, "bob", "b@example.com", None, "h2", 0, None)];
      Register(users, 3, Registration("bob", "x@example.com", None, "pw"), hash, 0).1 == Err(BadRequest, EmailTaken)
  {
    var users := [User(1, "ana", "x@example.com", None, "h1", 0, None),
                  User(2, "bob", "b@example.com", None, "h2", 0, None)];
    assert Matches("bob", "x@example.com")(users[0]);
    assert FirstWhere(users, Matches("bob", "x@example.com")) == Some(0);
  }
}
