/** The users table (`usuarios`) and the service functions over it
    (DB/services/users.service.ts): lookups by id and by email, the insert,
    the partial update, promotion to admin and deletion. None of the writing
    statements has a RETURNING clause, so the insert and the update hand
    back `rows[0]` of an empty result: undefined. */
module UsersService {
  import opened Js
  import opened Rows
  import opened SetClause

  /** A row of `usuarios`, with its fields named as the controllers and the
      middleware read them (`id_user`, `password`, `seller`, `admin`). */
  datatype User = User(
    idUser: int,
    name: string,
    email: string,
    password: string,
    seller: bool,
    admin: bool)

  function UserKey(u: User): int
  {
    u.idUser
  }

  // ---------------------------------------------------------------------
  // Columns, as the SQL statements see them

  /** The writable columns of `usuarios` (all but the serial id). */
  datatype UserCol = Usuario | Email | Pass | Seller | Admin

  /** The column's name in SQL text. */
  function UserColName(c: UserCol): string
  {
    match c
    case Usuario => "usuario"
    case Email => "email"
    case Pass => "pass"
    case Seller => "seller"
    case Admin => "admin"
  }

  /** The value a column of the row holds, as the driver hands it to JavaScript. */
  function UserColumn(u: User, c: UserCol): JsValue
  {
    match c
    case Usuario => Str(u.name)
    case Email => Str(u.email)
    case Pass => Str(u.password)
    case Seller => Bool(u.seller)
    case Admin => Bool(u.admin)
  }

  /** Text columns take strings, `seller` and `admin` booleans. */
  predicate FitsUserColumn(c: UserCol, v: JsValue)
  {
    match c
    case Usuario | Email | Pass => v.Str?
    case Seller | Admin => v.Bool?
  }

  /** `column = v` applied to one row: the column then holds v, and every
      other column, and the id, is as it was. */
  function SetUserColumn(u: User, c: UserCol, v: JsValue): (r: Result<User>)
    ensures r.Ok? <==> FitsUserColumn(c, v)
    ensures r.Ok? ==> r.value.idUser == u.idUser
    ensures r.Ok? ==> UserColumn(r.value, c) == v
    ensures r.Ok? ==> forall d :: d != c ==> UserColumn(r.value, d) == UserColumn(u, d)
  {
    if !FitsUserColumn(c, v) then Err("invalid input for column " + UserColName(c))
    else
      match c
      case Usuario => Ok(u.(name := v.s))
      case Email => Ok(u.(email := v.s))
      case Pass => Ok(u.(password := v.s))
      case Seller => Ok(u.(seller := v.b))
      case Admin => Ok(u.(admin := v.b))
  }

  /** The SET fragments of a statement applied to one row, left to right; the
      statement fails as a whole when one parameter does not fit its column. */
  function ApplyToUser(u: User, sets: seq<Assignment<UserCol>>, values: seq<JsValue>): (r: Result<User>)
    requires PlaceholdersInRange(sets, values)
    ensures r.Ok? <==> forall k :: 0 <= k < |sets| ==> FitsUserColumn(sets[k].column, values[sets[k].placeholder - 1])
    ensures r.Ok? ==> r.value.idUser == u.idUser
    decreases |sets|
  {
    if sets == [] then Ok(u)
    else
      assert sets[0] in sets;
      match SetUserColumn(u, sets[0].column, values[sets[0].placeholder - 1])
      case Err(e) => Err(e)
      case Ok(q) =>
        assert forall a :: a in sets[1..] ==> a in sets;
        var r := ApplyToUser(q, sets[1..], values);
        assert forall k :: 1 <= k < |sets| ==> sets[k] == sets[1..][k - 1];
        r
  }

  /** A column no fragment names keeps its value. */
  lemma {:induction false} ApplyKeepsOtherUserColumns(u: User, sets: seq<Assignment<UserCol>>, values: seq<JsValue>, c: UserCol)
    requires PlaceholdersInRange(sets, values)
    requires forall k :: 0 <= k < |sets| ==> sets[k].column != c
    requires ApplyToUser(u, sets, values).Ok?
    ensures UserColumn(ApplyToUser(u, sets, values).value, c) == UserColumn(u, c)
    decreases |sets|
  {
    if sets != [] {
      assert sets[0] in sets;
      var q := SetUserColumn(u, sets[0].column, values[sets[0].placeholder - 1]).value;
      assert forall a :: a in sets[1..] ==> a in sets;
      ApplyKeepsOtherUserColumns(q, sets[1..], values, c);
    }
  }

  /** A column exactly one fragment names ends up holding that fragment's parameter. */
  lemma {:induction false} ApplyWritesUserColumn(u: User, sets: seq<Assignment<UserCol>>, values: seq<JsValue>, k: nat)
    requires PlaceholdersInRange(sets, values)
    requires k < |sets|
    requires forall j :: 0 <= j < |sets| && j != k ==> sets[j].column != sets[k].column
    requires ApplyToUser(u, sets, values).Ok?
    ensures UserColumn(ApplyToUser(u, sets, values).value, sets[k].column) == values[sets[k].placeholder - 1]
    decreases |sets|
  {
    assert sets[0] in sets;
    var q := SetUserColumn(u, sets[0].column, values[sets[0].placeholder - 1]).value;
    assert forall a :: a in sets[1..] ==> a in sets;
    if k == 0 {
      ApplyKeepsOtherUserColumns(q, sets[1..], values, sets[0].column);
    } else {
      ApplyWritesUserColumn(q, sets[1..], values, k - 1);
    }
  }

  // ---------------------------------------------------------------------
  // updateUsuario: the partial-update clause builder

  /** The optional parameters of `updateUsuario` in their fixed order; each
      counts when truthy, so "" is skipped. */
  function UsuarioFields(usuario: JsValue, email: JsValue, pass: JsValue): seq<Field<UserCol>>
  {
    [TextField(Usuario, usuario)] + [TextField(Email, email)] + [TextField(Pass, pass)]
  }

  const USUARIO_UPDATE_COLUMNS: seq<UserCol> := [Usuario, Email, Pass]

  /** The present parameters of `updateUsuario`, one field at a time. */
  lemma UsuarioChosen(usuario: JsValue, email: JsValue, pass: JsValue)
    ensures Chosen(UsuarioFields(usuario, email, pass)) ==
      Pick(TextField(Usuario, usuario)) + Pick(TextField(Email, email)) + Pick(TextField(Pass, pass))
  {
    var s0 := [TextField(Usuario, usuario)];
    assert s0 == [] + s0;
    ChosenAppend([], s0[0]);
    var s1 := s0 + [TextField(Email, email)];
    ChosenAppend(s0, TextField(Email, email));
    ChosenAppend(s1, TextField(Pass, pass));
  }

  /** After the three optional parameters, the pushed arrays are the
      reference statement's. */
  lemma UsuarioBuilderDone(id: int, usuario: JsValue, email: JsValue, pass: JsValue,
                           chosen: seq<Field<UserCol>>, sets: seq<Assignment<UserCol>>, values: seq<JsValue>)
    requires chosen == Pick(TextField(Usuario, usuario)) + Pick(TextField(Email, email)) + Pick(TextField(Pass, pass))
    requires Tracks(sets, values, chosen)
    ensures Statement("usuarios", "id", UsuarioFields(usuario, email, pass), Num(id))
            == if sets == [] then Err(NO_FIELDS_TO_UPDATE)
               else Ok(UpdateStatement("usuarios", sets, "id", |sets| + 1, values + [Num(id)]))
  {
    UsuarioChosen(usuario, email, pass);
    TracksGivesStatement("usuarios", "id", UsuarioFields(usuario, email, pass), Num(id), sets, values);
  }

  /** Builds `UPDATE usuarios SET ... WHERE id = $(n+1)` and its parameters
      exactly as the service does, one optional parameter at a time; it is
      the reference statement over UsuarioFields, so the placeholders run
      1..n in lock-step with the values, the id comes last, and with nothing
      present it fails with "No fields to update" and issues no query. */
  method BuildUsuarioUpdate(id: int, usuario: JsValue, email: JsValue, pass: JsValue)
    returns (r: Result<UpdateStatement<UserCol>>)
    ensures r == Statement("usuarios", "id", UsuarioFields(usuario, email, pass), Num(id))
  {
    var fields: seq<Assignment<UserCol>> := [];
    var values: seq<JsValue> := [];
    assert Tracks(fields, values, []);
    fields, values := PushIfPresent(fields, values, TextField(Usuario, usuario), []);
    assert [] + Pick(TextField(Usuario, usuario)) == Pick(TextField(Usuario, usuario));
    ghost var chosen := Pick(TextField(Usuario, usuario));
    fields, values := PushIfPresent(fields, values, TextField(Email, email), chosen);
    chosen := chosen + Pick(TextField(Email, email));
    fields, values := PushIfPresent(fields, values, TextField(Pass, pass), chosen);
    chosen := chosen + Pick(TextField(Pass, pass));
    UsuarioBuilderDone(id, usuario, email, pass, chosen, fields, values);
    if |fields| == 0 {
      return Err(NO_FIELDS_TO_UPDATE);
    }
    r := Ok(UpdateStatement("usuarios", fields, "id", |fields| + 1, values + [Num(id)]));
  }

  /** The three optional parameters, position by position, over distinct columns. */
  lemma UsuarioFieldsShape(usuario: JsValue, email: JsValue, pass: JsValue)
    ensures var fs := UsuarioFields(usuario, email, pass);
      && |fs| == 3
      && fs[0] == TextField(Usuario, usuario) && fs[1] == TextField(Email, email) && fs[2] == TextField(Pass, pass)
      && (forall p :: 0 <= p < 3 ==> fs[p].column == USUARIO_UPDATE_COLUMNS[p])
      && DistinctColumns(fs)
      && (forall f :: f in fs ==> f.column != Seller && f.column != Admin)
  {
  }

  /** Which columns `updateUsuario` writes: each exactly when its parameter is truthy. */
  lemma UsuarioUpdatePresence(id: int, usuario: JsValue, email: JsValue, pass: JsValue)
    requires Statement("usuarios", "id", UsuarioFields(usuario, email, pass), Num(id)).Ok?
    ensures var u := Statement("usuarios", "id", UsuarioFields(usuario, email, pass), Num(id)).value;
      && (Writes(u, Usuario) <==> Truthy(usuario))
      && (Writes(u, Email) <==> Truthy(email))
      && (Writes(u, Pass) <==> Truthy(pass))
      && !Writes(u, Seller) && !Writes(u, Admin)
  {
    var fields := UsuarioFields(usuario, email, pass);
    UsuarioFieldsShape(usuario, email, pass);
    WritesIffFieldPresent("usuarios", "id", fields, Num(id), 0);
    WritesIffFieldPresent("usuarios", "id", fields, Num(id), 1);
    WritesIffFieldPresent("usuarios", "id", fields, Num(id), 2);
    WrittenIffPresent("usuarios", "id", fields, Num(id), Seller);
    WrittenIffPresent("usuarios", "id", fields, Num(id), Admin);
  }

  /** The fragments come in the fixed order usuario, email, pass, restricted
      to those present. */
  lemma UsuarioUpdateOrder(id: int, usuario: JsValue, email: JsValue, pass: JsValue, i: nat, j: nat)
    requires Statement("usuarios", "id", UsuarioFields(usuario, email, pass), Num(id)).Ok?
    requires i < j < |Statement("usuarios", "id", UsuarioFields(usuario, email, pass), Num(id)).value.sets|
    ensures var u := Statement("usuarios", "id", UsuarioFields(usuario, email, pass), Num(id)).value;
      exists p, q ::
        && 0 <= p < q < |USUARIO_UPDATE_COLUMNS|
        && USUARIO_UPDATE_COLUMNS[p] == u.sets[i].column
        && USUARIO_UPDATE_COLUMNS[q] == u.sets[j].column
  {
    UsuarioFieldsShape(usuario, email, pass);
    ColumnsInFieldOrder("usuarios", "id", UsuarioFields(usuario, email, pass), Num(id), i, j);
  }

  // ---------------------------------------------------------------------
  // Lookups

  /** `getUserById`: `SELECT * FROM usuarios WHERE id = $1`, then `rows[0]`,
      which is undefined (None) when no row has that id. */
  function GetUserById(rows: seq<User>, id: int): (r: Option<User>)
    ensures r.Some? <==> exists u :: u in rows && u.idUser == id
    ensures r.Some? ==> r.value in rows && r.value.idUser == id
  {
    FirstWhere(rows, (u: User) => u.idUser == id)
  }

  /** `getUserByEmail`: `SELECT * FROM usuarios WHERE email = $1`, then `rows[0]`. */
  function GetUserByEmail(rows: seq<User>, email: string): (r: Option<User>)
    ensures r.Some? <==> exists u :: u in rows && u.email == email
    ensures r.Some? ==> r.value in rows && r.value.email == email
  {
    FirstWhere(rows, (u: User) => u.email == email)
  }

  /** `getUserById(id)` for an id taken from a request or a token claim: a
      number is looked up; undefined and null are sent as NULL, which no row
      matches; any other value does not fit the integer column and the query
      fails. */
  function LookupUser(rows: seq<User>, id: JsValue): (r: Result<Option<User>>)
    ensures r.Err? <==> !(id.Num? || id.Undefined? || id.Null?)
    ensures r.Ok? && r.value.Some? ==> id.Num? && r.value.value in rows && r.value.value.idUser == id.n
    ensures id.Num? && (exists u :: u in rows && u.idUser == id.n) ==> r.Ok? && r.value.Some?
  {
    match id
    case Num(n) => Ok(GetUserById(rows, n))
    case Undefined => Ok(None)
    case Null => Ok(None)
    case _ => Err("invalid input syntax for type integer")
  }

  // ---------------------------------------------------------------------
  // Mutations

  /** The table after `UPDATE usuarios SET admin = true WHERE id = $1`. */
  function PromotedRows(rows: seq<User>, id: int): (r: seq<User>)
    ensures |r| == |rows|
    ensures forall k :: 0 <= k < |rows| ==> r[k] == if rows[k].idUser == id then rows[k].(admin := true) else rows[k]
  {
    seq(|rows|, k requires 0 <= k < |rows| => if rows[k].idUser == id then rows[k].(admin := true) else rows[k])
  }

  /** The table after `DELETE FROM usuarios WHERE id = $1`. */
  function WithoutUser(rows: seq<User>, id: int): (r: seq<User>)
    ensures forall u :: u in r <==> u in rows && u.idUser != id
    ensures Increasing(rows, UserKey) ==> Increasing(r, UserKey)
  {
    var keep := (u: User) => u.idUser != id;
    WhereKeepsIncreasing(rows, keep, UserKey);
    Where(rows, keep)
  }

  /** The table with the row of `q`'s id replaced by `q`. */
  function ReplaceUser(rows: seq<User>, q: User): (r: seq<User>)
    ensures |r| == |rows|
    ensures forall k :: 0 <= k < |rows| ==> r[k] == if rows[k].idUser == q.idUser then q else rows[k]
  {
    seq(|rows|, k requires 0 <= k < |rows| => if rows[k].idUser == q.idUser then q else rows[k])
  }

  /** What an update statement on `usuarios` does: the row it rewrote (none
      when no row has the key) or the failure, and the table afterwards. */
  datatype UserUpdateEffect = UserUpdateEffect(touched: Result<Option<User>>, rows: seq<User>)

  /** `client.query(query, values)` for an UPDATE on usuarios keyed by id: the
      SET fragments are applied to the row with that key; with no such row
      nothing changes, whatever the SET parameters are (PostgreSQL stores
      any parameter's text in these text columns, so the model's typing rule
      is applied only to a row that is found); a parameter that does not fit
      fails the whole statement and nothing changes. */
  function ExecuteUserUpdate(rows: seq<User>, u: UpdateStatement<UserCol>): (e: UserUpdateEffect)
    requires WellNumbered(u)
    ensures e.touched.Ok? && e.touched.value.Some? ==>
      && u.values[u.keyPlaceholder - 1].Num?
      && GetUserById(rows, u.values[u.keyPlaceholder - 1].n).Some?
      && PlaceholdersInRange(u.sets, u.values)
      && ApplyToUser(GetUserById(rows, u.values[u.keyPlaceholder - 1].n).value, u.sets, u.values) == Ok(e.touched.value.value)
      && e.touched.value.value.idUser == u.values[u.keyPlaceholder - 1].n
      && e.rows == ReplaceUser(rows, e.touched.value.value)
    ensures !(e.touched.Ok? && e.touched.value.Some?) ==> e.rows == rows
    ensures e.touched.Ok? && e.touched.value.None? <==>
      u.values[u.keyPlaceholder - 1].Num? && GetUserById(rows, u.values[u.keyPlaceholder - 1].n).None?
  {
    WellNumberedInRange(u);
    var key := u.values[u.keyPlaceholder - 1];
    if !key.Num? then UserUpdateEffect(Err("invalid input for column id"), rows)
    else
      match GetUserById(rows, key.n)
      case None => UserUpdateEffect(Ok(None), rows)
      case Some(p) =>
        match ApplyToUser(p, u.sets, u.values)
        case Err(e) => UserUpdateEffect(Err(e), rows)
        case Ok(q) => UserUpdateEffect(Ok(Some(q)), ReplaceUser(rows, q))
  }

  /** What `updateUsuario` does to the table: build the statement, then run it. */
  function UsuarioUpdateEffect(rows: seq<User>, id: int, usuario: JsValue, email: JsValue, pass: JsValue): UserUpdateEffect
  {
    match Statement("usuarios", "id", UsuarioFields(usuario, email, pass), Num(id))
    case Err(e) => UserUpdateEffect(Err(e), rows)
    case Ok(u) => ExecuteUserUpdate(rows, u)
  }

  /** Running a statement built over distinct columns: the i-th field's
      column holds the field's value when it is present, its old value otherwise. */
  lemma ExecuteSetsUserField(rows: seq<User>, fields: seq<Field<UserCol>>, id: int, i: nat)
    requires DistinctColumns(fields)
    requires i < |fields|
    requires Statement("usuarios", "id", fields, Num(id)).Ok?
    requires var e := ExecuteUserUpdate(rows, Statement("usuarios", "id", fields, Num(id)).value);
      e.touched.Ok? && e.touched.value.Some?
    ensures GetUserById(rows, id).Some?
    ensures var e := ExecuteUserUpdate(rows, Statement("usuarios", "id", fields, Num(id)).value);
      var p, q := GetUserById(rows, id).value, e.touched.value.value;
      UserColumn(q, fields[i].column) == if fields[i].present then fields[i].value else UserColumn(p, fields[i].column)
  {
    var p := GetUserById(rows, id).value;
    var u := Statement("usuarios", "id", fields, Num(id)).value;
    if fields[i].present {
      var k := StatementWritesFieldOnce("usuarios", "id", fields, Num(id), i);
      ApplyWritesUserColumn(p, u.sets, u.values, k);
    } else {
      KeepsUnwrittenUserColumn(p, fields, Num(id), fields[i].column);
    }
  }

  /** Applying a statement over distinct columns: the column of an absent
      field, or of no field at all, keeps its value. */
  lemma KeepsUnwrittenUserColumn(p: User, fields: seq<Field<UserCol>>, key: JsValue, c: UserCol)
    requires DistinctColumns(fields)
    requires forall f :: f in fields && f.column == c ==> !f.present
    requires Statement("usuarios", "id", fields, key).Ok?
    requires var u := Statement("usuarios", "id", fields, key).value;
      PlaceholdersInRange(u.sets, u.values) && ApplyToUser(p, u.sets, u.values).Ok?
    ensures var u := Statement("usuarios", "id", fields, key).value;
      UserColumn(ApplyToUser(p, u.sets, u.values).value, c) == UserColumn(p, c)
  {
    var u := Statement("usuarios", "id", fields, key).value;
    var chosen := Chosen(fields);
    forall k | 0 <= k < |u.sets|
      ensures u.sets[k].column != c
    {
      assert chosen[k] in chosen;
    }
    ApplyKeepsOtherUserColumns(p, u.sets, u.values, c);
  }

  /** Partial update correctness: the rewritten row keeps its id; `usuario`,
      `email` and `pass` hold the caller's value when it is truthy and their
      old value otherwise; `seller` and `admin` are untouched; the table has
      that row replaced and no other change. */
  lemma UsuarioUpdateWritesOnlyPresent(rows: seq<User>, id: int, usuario: JsValue, email: JsValue, pass: JsValue)
    requires UsuarioUpdateEffect(rows, id, usuario, email, pass).touched.Ok?
    requires UsuarioUpdateEffect(rows, id, usuario, email, pass).touched.value.Some?
    ensures GetUserById(rows, id).Some?
    ensures var e := UsuarioUpdateEffect(rows, id, usuario, email, pass);
      var p, q := GetUserById(rows, id).value, e.touched.value.value;
      && q.idUser == id
      && UserColumn(q, Usuario) == (if Truthy(usuario) then usuario else UserColumn(p, Usuario))
      && UserColumn(q, Email) == (if Truthy(email) then email else UserColumn(p, Email))
      && UserColumn(q, Pass) == (if Truthy(pass) then pass else UserColumn(p, Pass))
      && q.seller == p.seller && q.admin == p.admin
      && e.rows == ReplaceUser(rows, q)
  {
    var fields := UsuarioFields(usuario, email, pass);
    UsuarioFieldsShape(usuario, email, pass);
    var p := GetUserById(rows, id).value;
    ExecuteSetsUserField(rows, fields, id, 0);
    ExecuteSetsUserField(rows, fields, id, 1);
    ExecuteSetsUserField(rows, fields, id, 2);
    KeepsUnwrittenUserColumn(p, fields, Num(id), Seller);
    KeepsUnwrittenUserColumn(p, fields, Num(id), Admin);
  }

  /** The invariant of the table: a positive serial counter, ids strictly
      increasing in storage order, every id issued by the counter. */
  ghost predicate ValidUsers(rows: seq<User>, nextId: int)
  {
    && 0 < nextId
    && Increasing(rows, UserKey)
    && forall u :: u in rows ==> 0 < u.idUser < nextId
  }

  /** Rewriting rows in place without changing any id keeps the invariant. */
  lemma SameIdsKeepValid(rows: seq<User>, rows': seq<User>, nextId: int)
    requires ValidUsers(rows, nextId)
    requires |rows'| == |rows|
    requires forall k :: 0 <= k < |rows| ==> rows'[k].idUser == rows[k].idUser
    ensures ValidUsers(rows', nextId)
  {
    forall u | u in rows'
      ensures 0 < u.idUser < nextId
    {
      var k :| 0 <= k < |rows'| && rows'[k] == u;
      assert rows[k] in rows;
    }
  }

  /** `updateUsuario` keeps the invariant, whatever its parameters. */
  lemma UsuarioUpdateKeepsValid(rows: seq<User>, nextId: int, id: int, usuario: JsValue, email: JsValue, pass: JsValue)
    requires ValidUsers(rows, nextId)
    ensures ValidUsers(UsuarioUpdateEffect(rows, id, usuario, email, pass).rows, nextId)
  {
    var s := Statement("usuarios", "id", UsuarioFields(usuario, email, pass), Num(id));
    if s.Ok? {
      ExecuteKeepsValidUsers(rows, nextId, s.value);
    }
  }

  /** Running an update statement keeps the invariant. */
  lemma ExecuteKeepsValidUsers(rows: seq<User>, nextId: int, u: UpdateStatement<UserCol>)
    requires WellNumbered(u)
    requires ValidUsers(rows, nextId)
    ensures ValidUsers(ExecuteUserUpdate(rows, u).rows, nextId)
  {
    var e := ExecuteUserUpdate(rows, u);
    if e.touched.Ok? && e.touched.value.Some? {
      SameIdsKeepValid(rows, ReplaceUser(rows, e.touched.value.value), nextId);
    }
  }

  /** The `usuarios` table, with its serial id. */
  class UserTable {
    var rows: seq<User>
    var nextId: int

    ghost predicate Valid()
      reads this
    {
      ValidUsers(rows, nextId)
    }

    constructor ()
      ensures Valid() && rows == []
    {
      rows := [];
      nextId := 1;
    }

    /** `createUsuario`: `INSERT INTO usuarios (usuario, email, pass, admin)
        VALUES ($1, $2, $3, false)`, so a new user is never an admin (nor a
        seller, the column's default). Without RETURNING the call hands back
        undefined; it fails when a parameter does not fit its column. */
    method CreateUsuario(usuario: JsValue, email: JsValue, pass: JsValue) returns (r: Result<JsValue>)
      requires Valid()
      modifies this
      ensures Valid()
      ensures r.Ok? <==> usuario.Str? && email.Str? && pass.Str?
      ensures r.Ok? ==> r.value == Undefined
      ensures r.Ok? ==> |rows| == |old(rows)| + 1 && rows[..|old(rows)|] == old(rows)
      ensures r.Ok? ==> var u := rows[|old(rows)|];
        && u.name == usuario.s && u.email == email.s && u.password == pass.s
        && !u.admin && !u.seller
        && forall x :: x in old(rows) ==> x.idUser != u.idUser
      ensures r.Err? ==> rows == old(rows)
      ensures r.Ok? ==> rows[|old(rows)|].idUser == old(nextId) && nextId == old(nextId) + 1
      ensures r.Err? ==> nextId == old(nextId)
    {
      if !(usuario.Str? && email.Str? && pass.Str?) {
        return Err("invalid input for column of usuarios");
      }
      var u := User(nextId, usuario.s, email.s, pass.s, false, false);
      AppendKeepsIncreasing(rows, u, UserKey);
      rows := rows + [u];
      nextId := nextId + 1;
      r := Ok(Undefined);
    }

    /** `updateUsuario`: build the partial update and run it. Without
        RETURNING the call hands back undefined. */
    method UpdateUsuario(id: int, usuario: JsValue, email: JsValue, pass: JsValue) returns (r: Result<JsValue>)
      requires Valid()
      modifies this
      ensures Valid() && nextId == old(nextId)
      ensures var e := UsuarioUpdateEffect(old(rows), id, usuario, email, pass);
        && rows == e.rows
        && (r.Ok? <==> e.touched.Ok?)
        && (r.Ok? ==> r.value == Undefined)
        && (r.Err? ==> r.message == e.touched.message)
    {
      UsuarioUpdateKeepsValid(rows, nextId, id, usuario, email, pass);
      var statement := BuildUsuarioUpdate(id, usuario, email, pass);
      if statement.Err? {
        return Err(statement.message);
      }
      var effect := ExecuteUserUpdate(rows, statement.value);
      rows := effect.rows;
      if effect.touched.Err? {
        return Err(effect.touched.message);
      }
      r := Ok(Undefined);
    }

    /** `promoteUsuario`: sets `admin` on the row with that id and returns the id. */
    method PromoteUsuario(id: int) returns (r: int)
      requires Valid()
      modifies this
      ensures Valid() && nextId == old(nextId)
      ensures r == id
      ensures rows == PromotedRows(old(rows), id)
    {
      SameIdsKeepValid(rows, PromotedRows(rows, id), nextId);
      rows := PromotedRows(rows, id);
      r := id;
    }

    /** `deleteUsuario`: removes the row with that id and returns the id. */
    method DeleteUsuario(id: int) returns (r: int)
      requires Valid()
      modifies this
      ensures Valid() && nextId == old(nextId)
      ensures r == id
      ensures rows == WithoutUser(old(rows), id)
    {
      rows := WithoutUser(rows, id);
      r := id;
    }
  }

  /** Promotion makes exactly that user an admin: looked up by id afterwards
      it is the same row with `admin` set, and every other user reads back
      as before. */
  lemma PromotionSetsOnlyAdmin(rows: seq<User>, nextId: int, id: int, other: int)
    requires ValidUsers(rows, nextId)
    requires other != id
    ensures GetUserById(PromotedRows(rows, id), id) ==
      if GetUserById(rows, id).Some? then Some(GetUserById(rows, id).value.(admin := true)) else None
    ensures GetUserById(PromotedRows(rows, id), other) == GetUserById(rows, other)
  {
    var r := PromotedRows(rows, id);
    SameIdsKeepValid(rows, r, nextId);
    LookupAfterRewrite(rows, r, nextId, id, (u: User) => u.(admin := true));
    LookupAfterRewrite(rows, r, nextId, other, (u: User) => u);
  }

  /** With unique ids, a row found by id after a positionwise rewrite is the
      rewrite of the row found before. */
  lemma LookupAfterRewrite(rows: seq<User>, rows': seq<User>, nextId: int, id: int, f: User -> User)
    requires ValidUsers(rows, nextId) && ValidUsers(rows', nextId)
    requires |rows'| == |rows|
    requires forall k :: 0 <= k < |rows| && rows[k].idUser == id ==> rows'[k] == f(rows[k])
    requires forall k :: 0 <= k < |rows| ==> rows'[k].idUser == rows[k].idUser
    ensures GetUserById(rows', id) == if GetUserById(rows, id).Some? then Some(f(GetUserById(rows, id).value)) else None
  {
    var before := GetUserById(rows, id);
    var after := GetUserById(rows', id);
    if before.Some? {
      var k :| 0 <= k < |rows| && rows[k] == before.value;
      assert rows'[k] in rows';
      var j :| 0 <= j < |rows'| && rows'[j] == after.value;
      assert rows[j] in rows;
      IncreasingKeysUnique(rows, UserKey, rows[j], rows[k]);
      IncreasingKeysUnique(rows', UserKey, rows'[j], rows'[k]);
    }
  }
}
