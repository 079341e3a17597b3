/** The user handlers (DB/controllers/users.controller.ts). They call the
    users service by the names `getUserById`, `getUserByEmail`, `createUser`,
    `updateUser` and `promoteUser`; here those calls run the statements of
    `getUserById`, `getUserByEmail`, `createUsuario`, `updateUsuario` and
    `promoteUsuario`. `surname` and `description` have no column in those
    statements and are not stored. Password hashing, hash comparison and
    token signing are parameters. */
module UsersController {
  import opened Js
  import opened Http
  import opened Rows
  import opened UsersService

  /** The fields of `req.body` the user handlers destructure. */
  datatype UserBody = UserBody(
    name: JsValue,
    surname: JsValue,
    email: JsValue,
    password: JsValue,
    description: JsValue)

  /** `getUserByEmail(email)`: a string is looked up; undefined and null match
      no row; any other value does not fit the text column and the query fails. */
  function LookupEmail(rows: seq<User>, email: JsValue): (r: Result<Option<User>>)
    ensures r.Err? <==> !(email.Str? || email.Undefined? || email.Null?)
    ensures r.Ok? && r.value.Some? ==> email.Str? && r.value.value in rows && r.value.value.email == email.s
    ensures email.Str? && (exists u :: u in rows && u.email == email.s) ==> r.Ok? && r.value.Some?
  {
    match email
    case Str(s) => Ok(GetUserByEmail(rows, s))
    case Undefined => Ok(None)
    case Null => Ok(None)
    case _ => Err("invalid input for column email")
  }

  /** Every email belongs to one user at most. */
  ghost predicate UniqueEmails(rows: seq<User>)
  {
    forall i, j :: 0 <= i < j < |rows| ==> rows[i].email != rows[j].email
  }

  // ---------------------------------------------------------------------
  // register

  /** The checks of `register` before the insert: 400 when a field is
      falsy (before any store call), 500 when the email lookup fails, 400
      when the email is taken. */
  function RegisterGuard(b: UserBody, existing: Result<Option<User>>): (g: Guard)
    ensures !(Truthy(b.name) && Truthy(b.surname) && Truthy(b.email) && Truthy(b.password)) ==> g == Stop(BAD_REQUEST)
    ensures g == Proceed <==>
      Truthy(b.name) && Truthy(b.surname) && Truthy(b.email) && Truthy(b.password) && existing == Ok(None)
    ensures existing.Ok? && existing.value.Some? ==> g == Stop(BAD_REQUEST)
    ensures g.Stop? ==> g.status in {BAD_REQUEST, SERVER_ERROR}
  {
    if !Truthy(b.name) || !Truthy(b.surname) || !Truthy(b.email) || !Truthy(b.password) then Stop(BAD_REQUEST)
    else
      match existing
      case Err(_) => Stop(SERVER_ERROR)
      case Ok(Some(_)) => Stop(BAD_REQUEST)
      case Ok(None) => Proceed
  }

  /** `register`: the checks, then the password is hashed (a non-string
      password makes the hash throw: 500) and exactly one user is inserted
      with the hash, not the password; 201, or 500 when the insert fails. */
  method Register(users: UserTable, b: UserBody, hash: string -> string) returns (status: int)
    requires users.Valid()
    modifies users
    ensures users.Valid()
    ensures var g := RegisterGuard(b, LookupEmail(old(users.rows), b.email));
      && (g.Stop? ==> status == g.status && users.rows == old(users.rows))
      && (g == Proceed ==>
            && (status == CREATED <==> b.name.Str? && b.email.Str? && b.password.Str?)
            && (status != CREATED ==> status == SERVER_ERROR && users.rows == old(users.rows)))
    ensures status == CREATED ==>
      && |users.rows| == |old(users.rows)| + 1 && users.rows[..|old(users.rows)|] == old(users.rows)
      && var u := users.rows[|old(users.rows)|];
         u.name == b.name.s && u.email == b.email.s && u.password == hash(b.password.s) && !u.admin
    ensures status == CREATED && UniqueEmails(old(users.rows)) ==> UniqueEmails(users.rows)
  {
    ghost var before := users.rows;
    var g := RegisterGuard(b, LookupEmail(users.rows, b.email));
    if g.Stop? {
      return g.status;
    }
    if !b.password.Str? {
      return SERVER_ERROR;
    }
    var hashed := hash(b.password.s);
    var r := users.CreateUsuario(b.name, b.email, Str(hashed));
    if r.Err? {
      return SERVER_ERROR;
    }
    status := CREATED;
    if UniqueEmails(before) {
      AppendKeepsEmailsUnique(before, users.rows);
    }
  }

  /** Appending a user whose email no stored user has keeps emails unique. */
  lemma AppendKeepsEmailsUnique(rows: seq<User>, rows': seq<User>)
    requires UniqueEmails(rows)
    requires |rows'| == |rows| + 1 && rows'[..|rows|] == rows
    requires GetUserByEmail(rows, rows'[|rows|].email).None?
    ensures UniqueEmails(rows')
  {
    forall i, j | 0 <= i < j < |rows'|
      ensures rows'[i].email != rows'[j].email
    {
      if j == |rows| {
        assert rows'[i] == rows[i];
        assert rows[i] in rows;
      } else {
        assert rows'[i] == rows[i] && rows'[j] == rows[j];
      }
    }
  }

  // ---------------------------------------------------------------------
  // login

  /** What a successful login sends: the user's id and a token for it. */
  datatype LoginPayload = LoginPayload(id: int, token: string)

  /** `login`, in order: 400 when email or password is falsy, 500 when the
      lookup fails, 400 for an unknown email, 500 when the password is not a
      string (the comparison throws), 400 for a wrong password; otherwise 200
      with the user's id and a token signed for that id. */
  function LoginReply(users: seq<User>, b: UserBody, compare: (string, string) -> bool, sign: int -> string)
    : (r: Reply<LoginPayload>)
    ensures !(Truthy(b.email) && Truthy(b.password)) ==> r == Reply(BAD_REQUEST, None)
    ensures Truthy(b.email) && Truthy(b.password) && b.email.Str? && (forall u :: u in users ==> u.email != b.email.s)
            ==> r == Reply(BAD_REQUEST, None)
    ensures r.status == OK <==> r.payload.Some?
    ensures r.payload.Some? ==>
      && b.email.Str? && b.password.Str?
      && (exists u :: u in users && u.email == b.email.s && compare(b.password.s, u.password) && u.idUser == r.payload.value.id)
      && r.payload.value.token == sign(r.payload.value.id)
    ensures r.status in {OK, BAD_REQUEST, SERVER_ERROR}
    ensures Truthy(b.email) && Truthy(b.password) && !b.email.Str? ==> r == Reply(SERVER_ERROR, None)
    ensures Truthy(b.email) && Truthy(b.password) && b.email.Str? && GetUserByEmail(users, b.email.s).Some? ==>
      var u := GetUserByEmail(users, b.email.s).value;
      && (!b.password.Str? ==> r == Reply(SERVER_ERROR, None))
      && (b.password.Str? ==>
            && (r.status == OK <==> compare(b.password.s, u.password))
            && (r.status != OK ==> r == Reply(BAD_REQUEST, None))
            && (r.status == OK ==> r.payload.value == LoginPayload(u.idUser, sign(u.idUser))))
  {
    if !Truthy(b.email) || !Truthy(b.password) then Reply(BAD_REQUEST, None)
    else
      match LookupEmail(users, b.email)
      case Err(_) => Reply(SERVER_ERROR, None)
      case Ok(None) => Reply(BAD_REQUEST, None)
      case Ok(Some(u)) =>
        if !b.password.Str? then Reply(SERVER_ERROR, None)
        else if !compare(b.password.s, u.password) then Reply(BAD_REQUEST, None)
        else Reply(OK, Some(LoginPayload(u.idUser, sign(u.idUser))))
  }

  /** A user who has just registered with an unused email can log in with
      the same password, provided the hash comparison accepts a password
      against its own hash: the reply is 200 with the new user's id and a
      token for it. */
  lemma LoginAfterRegister(rows: seq<User>, u: User, password: string,
                           hash: string -> string, compare: (string, string) -> bool, sign: int -> string)
    requires compare(password, hash(password))
    requires GetUserByEmail(rows, u.email).None?
    requires u.password == hash(password)
    requires u.email != "" && password != ""
    ensures LoginReply(rows + [u], UserBody(Undefined, Undefined, Str(u.email), Str(password), Undefined), compare, sign)
            == Reply(OK, Some(LoginPayload(u.idUser, sign(u.idUser))))
  {
    var found := GetUserByEmail(rows + [u], u.email);
    assert u in rows + [u];
    assert found.value in rows + [u];
    assert found.value !in rows;
  }

  // ---------------------------------------------------------------------
  // getUser and updateUser: self or admin

  /** A caller may read or change a user's profile when the caller is an
      admin or the route id is `===` the token's id claim. */
  predicate SelfOrAdmin(requester: User, id: NumberValue, tokenUserId: JsValue)
  {
    requester.admin || StrictEquals(id, tokenUserId)
  }

  /** The authorization checks `getUser` and `updateUser` share, in order:
      401 without a token user, 500 when the caller's lookup fails, 401 when
      the caller is not stored, 403 unless self or admin. */
  function SelfOrAdminGuard(id: NumberValue, tokenUserId: JsValue, requester: Result<Option<User>>): (g: Guard)
    ensures !Truthy(tokenUserId) ==> g == Stop(UNAUTHORIZED)
    ensures Truthy(tokenUserId) && requester.Err? ==> g == Stop(SERVER_ERROR)
    ensures Truthy(tokenUserId) && requester == Ok(None) ==> g == Stop(UNAUTHORIZED)
    ensures g == Proceed <==>
      Truthy(tokenUserId) && requester.Ok? && requester.value.Some? && SelfOrAdmin(requester.value.value, id, tokenUserId)
    ensures g == Stop(FORBIDDEN) <==>
      Truthy(tokenUserId) && requester.Ok? && requester.value.Some? && !SelfOrAdmin(requester.value.value, id, tokenUserId)
  {
    if !Truthy(tokenUserId) then Stop(UNAUTHORIZED)
    else
      match requester
      case Err(_) => Stop(SERVER_ERROR)
      case Ok(None) => Stop(UNAUTHORIZED)
      case Ok(Some(u)) =>
        var isAdmin := u.admin;
        if !isAdmin && !StrictEquals(id, tokenUserId) then Stop(FORBIDDEN) else Proceed
  }

  /** `getUser`: the authorization checks, then the requested user: 500 when
      that lookup fails (a NaN id), 404 when absent, otherwise 200 with it.
      A 404 is only ever given to an authorized caller. */
  function GetUserReply(users: seq<User>, requestedId: NumberValue, tokenUserId: JsValue): (r: Reply<User>)
    ensures var g := SelfOrAdminGuard(requestedId, tokenUserId, LookupUser(users, tokenUserId));
      && (g.Stop? ==> r == Reply(g.status, None))
      && (r.status == NOT_FOUND ==> g == Proceed)
      && (g == Proceed && requestedId.NaN? ==> r == Reply(SERVER_ERROR, None))
      && (g == Proceed && requestedId.Num? ==>
            && (r.status == OK <==> exists u :: u in users && u.idUser == requestedId.n)
            && (r.status != OK ==> r == Reply(NOT_FOUND, None)))
    ensures r.status == OK <==> r.payload.Some?
    ensures r.payload.Some? ==>
      && requestedId.Num? && r.payload.value in users && r.payload.value.idUser == requestedId.n
      && exists caller :: caller in users && SelfOrAdmin(caller, requestedId, tokenUserId) && Num(caller.idUser) == tokenUserId
  {
    var requester := LookupUser(users, tokenUserId);
    match SelfOrAdminGuard(requestedId, tokenUserId, requester)
    case Stop(status) => Reply(status, None)
    case Proceed =>
      match LookupUser(users, requestedId)
      case Err(_) => Reply(SERVER_ERROR, None)
      case Ok(None) => Reply(NOT_FOUND, None)
      case Ok(Some(u)) => Reply(OK, Some(u))
  }

  /** Over the users table, a user who is not an admin reads only their own
      profile. */
  lemma NonAdminReadsOnlySelf(users: seq<User>, nextId: int, requestedId: NumberValue, tokenUser: int)
    requires ValidUsers(users, nextId)
    requires forall u :: u in users && u.idUser == tokenUser ==> !u.admin
    requires GetUserReply(users, requestedId, Num(tokenUser)).status == OK
    ensures requestedId == Num(tokenUser)
  {
  }

  /** `bcrypt.hash(password)` only when a password was sent: undefined when it
      is falsy, its hash when it is a string, and a throw otherwise. */
  function HashedPassword(password: JsValue, hash: string -> string): (r: Result<JsValue>)
    ensures !Truthy(password) ==> r == Ok(Undefined)
    ensures Truthy(password) && password.Str? ==> r == Ok(Str(hash(password.s)))
    ensures r.Err? <==> Truthy(password) && !password.Str?
  {
    if !Truthy(password) then Ok(Undefined)
    else if password.Str? then Ok(Str(hash(password.s)))
    else Err("data must be a string")
  }

  /** `updateUser`: 400 for a 0 or NaN id, then the authorization checks,
      then the partial update of `usuario`, `email` and `pass` (the hash, or
      nothing when no password was sent); 200 with the id, or 500 when the
      hash or the service throws. The table changes only when every check
      passes. */
  method UpdateUser(users: UserTable, id: NumberValue, tokenUserId: JsValue, b: UserBody, hash: string -> string)
    returns (status: int, updatedId: Option<int>)
    requires users.Valid()
    modifies users
    ensures users.Valid()
    ensures !Truthy(id) ==> status == BAD_REQUEST && updatedId == None && users.rows == old(users.rows)
    ensures Truthy(id) ==>
      var g := SelfOrAdminGuard(id, tokenUserId, LookupUser(old(users.rows), tokenUserId));
      && (g.Stop? ==> status == g.status && updatedId == None && users.rows == old(users.rows))
      && (g == Proceed ==>
            var hashed := HashedPassword(b.password, hash);
            && (hashed.Err? ==> status == SERVER_ERROR && users.rows == old(users.rows))
            && (hashed.Ok? ==>
                  var e := UsuarioUpdateEffect(old(users.rows), id.n, b.name, b.email, hashed.value);
                  && users.rows == e.rows
                  && (status == OK <==> e.touched.Ok?)
                  && (status == OK ==> updatedId == Some(id.n))
                  && (status != OK ==> status == SERVER_ERROR)))
  {
    if !Truthy(id) {
      return BAD_REQUEST, None;
    }
    var g := SelfOrAdminGuard(id, tokenUserId, LookupUser(users.rows, tokenUserId));
    if g.Stop? {
      return g.status, None;
    }
    var hashed := HashedPassword(b.password, hash);
    if hashed.Err? {
      return SERVER_ERROR, None;
    }
    var r := users.UpdateUsuario(id.n, b.name, b.email, hashed.value);
    if r.Err? {
      return SERVER_ERROR, None;
    }
    status, updatedId := OK, Some(id.n);
  }

  // ---------------------------------------------------------------------
  // Admin routes: promoteUser, crownUser, createUser, deleteUser

  /** `promoteUser`: 400 for a 0 or NaN id without touching the table;
      otherwise that user becomes an admin and the id comes back with 200. */
  method PromoteUser(users: UserTable, id: NumberValue) returns (status: int, promotedId: Option<int>)
    requires users.Valid()
    modifies users
    ensures users.Valid()
    ensures status == BAD_REQUEST <==> !Truthy(id)
    ensures status == BAD_REQUEST ==> promotedId == None && users.rows == old(users.rows)
    ensures status != BAD_REQUEST ==>
      status == OK && promotedId == Some(id.n) && users.rows == PromotedRows(old(users.rows), id.n)
  {
    if !Truthy(id) {
      return BAD_REQUEST, None;
    }
    var r := users.PromoteUsuario(id.n);
    status, promotedId := OK, Some(r);
  }

  /** `crownUser`: 400 for a 0 or NaN id; otherwise the handler calls a
      service function that does not exist, which throws, and answers 500.
      It never changes the table. */
  function CrownUserStatus(id: NumberValue): (status: int)
    ensures status == BAD_REQUEST <==> !Truthy(id)
    ensures status != BAD_REQUEST ==> status == SERVER_ERROR
  {
    if !Truthy(id) then BAD_REQUEST else SERVER_ERROR
  }

  /** `createUser` (the admin route): 400 when a field is falsy; otherwise
      the password is stored as sent, without hashing; 201, or 500 when the
      insert fails. */
  method CreateUser(users: UserTable, b: UserBody) returns (status: int)
    requires users.Valid()
    modifies users
    ensures users.Valid()
    ensures status == BAD_REQUEST <==> !(Truthy(b.name) && Truthy(b.surname) && Truthy(b.email) && Truthy(b.password))
    ensures status == CREATED <==>
      Truthy(b.name) && Truthy(b.surname) && Truthy(b.email) && Truthy(b.password)
      && b.name.Str? && b.email.Str? && b.password.Str?
    ensures status != BAD_REQUEST && status != CREATED ==> status == SERVER_ERROR
    ensures status != CREATED ==> users.rows == old(users.rows)
    ensures status == CREATED ==>
      && |users.rows| == |old(users.rows)| + 1 && users.rows[..|old(users.rows)|] == old(users.rows)
      && users.rows[|old(users.rows)|] == User(old(users.nextId), b.name.s, b.email.s, b.password.s, false, false)
  {
    if !Truthy(b.name) || !Truthy(b.surname) || !Truthy(b.email) || !Truthy(b.password) {
      return BAD_REQUEST;
    }
    var r := users.CreateUsuario(b.name, b.email, b.password);
    status := if r.Ok? then CREATED else SERVER_ERROR;
  }

  /** `deleteUser`: no check of its own; a NaN id does not fit the integer
      column and the statement fails (500); otherwise the row with that id
      goes and the id comes back with 200. */
  method DeleteUser(users: UserTable, id: NumberValue) returns (status: int, deletedId: Option<int>)
    requires users.Valid()
    modifies users
    ensures users.Valid()
    ensures status == SERVER_ERROR <==> id.NaN?
    ensures id.NaN? ==> deletedId == None && users.rows == old(users.rows)
    ensures id.Num? ==> status == OK && deletedId == Some(id.n) && users.rows == WithoutUser(old(users.rows), id.n)
  {
    if id.NaN? {
      return SERVER_ERROR, None;
    }
    var r := users.DeleteUsuario(id.n);
    status, deletedId := OK, Some(r);
  }
}
