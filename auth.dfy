/** The authentication middleware (DB/middleware/auth.ts): `verifyToken`
    reads the bearer token, asks the token library to verify it and records
    the `id` claim on the request; `verifySeller` and `verifyAdmin` let a
    request through only for a stored user with that role. The token
    library's `verify` is a parameter: an oracle from token text to its
    verdict. */
module Auth {
  import opened Js
  import opened Http
  import opened Rows
  import opened UsersService

  // ---------------------------------------------------------------------
  // String splitting, as JavaScript's `split` with a one-character separator

  /** `s.split(sep)`: the pieces between separators, in order; n separators
      give n + 1 pieces, some possibly empty. */
  function Split(s: string, sep: char): (r: seq<string>)
    ensures |r| >= 1
    ensures forall k :: 0 <= k < |r| ==> sep !in r[k]
    decreases |s|
  {
    if s == [] then [""]
    else
      var rest := Split(s[1..], sep);
      if s[0] == sep then [""] + rest
      else [[s[0]] + rest[0]] + rest[1..]
  }

  /** `pieces.join(sep)` */
  function Join(pieces: seq<string>, sep: char): string
    requires |pieces| >= 1
    decreases |pieces|
  {
    if |pieces| == 1 then pieces[0]
    else pieces[0] + [sep] + Join(pieces[1..], sep)
  }

  /** Splitting loses nothing: joining the pieces with the separator gives
      the string back. */
  lemma {:induction false} JoinSplit(s: string, sep: char)
    ensures Join(Split(s, sep), sep) == s
    decreases |s|
  {
    if s != [] {
      var rest := Split(s[1..], sep);
      JoinSplit(s[1..], sep);
      if s[0] == sep {
        assert ([""] + rest)[1..] == rest;
      } else {
        var r := [[s[0]] + rest[0]] + rest[1..];
        if |rest| == 1 {
          assert Join(r, sep) == [s[0]] + rest[0];
        } else {
          assert r[1..] == rest[1..];
          assert Join(rest, sep) == rest[0] + [sep] + Join(rest[1..], sep);
        }
        assert s == [s[0]] + s[1..];
      }
    }
  }

  /** A word without the separator, then the separator: the word is the
      first piece and the rest is split on its own. */
  lemma {:induction false} SplitAfterWord(w: string, rest: string, sep: char)
    requires sep !in w
    ensures Split(w + [sep] + rest, sep) == [w] + Split(rest, sep)
    decreases |w|
  {
    var s := w + [sep] + rest;
    if w == [] {
      assert s[1..] == rest;
    } else {
      assert s[1..] == w[1..] + [sep] + rest;
      SplitAfterWord(w[1..], rest, sep);
      assert [w[0]] + w[1..] == w;
    }
  }

  /** The first piece is the longest prefix without the separator: it is a
      prefix, and it is all of the string or is followed by the separator. */
  lemma {:induction false} FirstPieceIsPrefix(s: string, sep: char)
    ensures var t := Split(s, sep)[0];
      t <= s && (|t| < |s| ==> s[|t|] == sep)
    decreases |s|
  {
    if s != [] && s[0] != sep {
      FirstPieceIsPrefix(s[1..], sep);
      var t := Split(s[1..], sep)[0];
      assert Split(s, sep)[0] == [s[0]] + t;
      assert s == [s[0]] + s[1..];
    }
  }

  // ---------------------------------------------------------------------
  // verifyToken

  const BEARER := "Bearer "

  /** `!authHeader || !authHeader.startsWith("Bearer ")` is false: the header
      is there and begins with "Bearer " (so it is not the empty string). */
  predicate HasBearer(authorization: Option<string>)
  {
    authorization.Some? && BEARER <= authorization.value
  }

  /** `authHeader.split(" ")[1]`: the text after "Bearer " up to the next
      space, or to the end. */
  function BearerToken(header: string): (token: string)
    requires BEARER <= header
    ensures token <= header[|BEARER|..]
    ensures ' ' !in token
    ensures |token| < |header| - |BEARER| ==> header[|BEARER| + |token|] == ' '
  {
    var rest := header[|BEARER|..];
    assert header == "Bearer" + [' '] + rest;
    SplitAfterWord("Bearer", rest, ' ');
    FirstPieceIsPrefix(rest, ' ');
    Split(header, ' ')[1]
  }

  /** What a token verifies to: an exception, or the decoded payload, which
      is a plain string or an object that may carry an `id` claim. */
  datatype Claims = TextClaims(text: string) | ObjectClaims(id: Option<JsValue>)
  datatype Verification = Invalid | Verified(claims: Claims)

  /** How `verifyToken` ends: a 401 answer, `next()` with the request's user
      id set to the claim, or neither (a verified payload without `id`
      leaves the request hanging). */
  datatype TokenOutcome = Reject(status: int) | Next(idUser: JsValue) | Silent

  /** The decision of `verifyToken` for an Authorization header. */
  function TokenDecision(authorization: Option<string>, verify: string -> Verification): (o: TokenOutcome)
    ensures !HasBearer(authorization) ==> o == Reject(UNAUTHORIZED)
    ensures HasBearer(authorization) ==>
      var v := verify(BearerToken(authorization.value));
      && (o.Reject? <==> v.Invalid?)
      && (o.Reject? ==> o.status == UNAUTHORIZED)
      && (o.Next? <==> v.Verified? && v.claims.ObjectClaims? && v.claims.id.Some?)
      && (o.Next? ==> o.idUser == v.claims.id.value)
  {
    if !HasBearer(authorization) then Reject(UNAUTHORIZED)
    else
      match verify(BearerToken(authorization.value))
      case Invalid => Reject(UNAUTHORIZED)
      case Verified(ObjectClaims(Some(id))) => Next(id)
      case Verified(_) => Silent
  }

  /** The part of an Express request the middleware and handlers use: the
      Authorization header and the `id_user` field `verifyToken` sets. */
  class Request {
    const authorization: Option<string>
    var idUser: JsValue

    constructor (authorization: Option<string>)
      ensures this.authorization == authorization && idUser == Undefined
    {
      this.authorization := authorization;
      idUser := Undefined;
    }

    /** `verifyToken(req, res, next)`: sets `req.id_user` to the `id` claim
        exactly when it calls `next`, and leaves it alone otherwise. */
    method VerifyToken(verify: string -> Verification) returns (o: TokenOutcome)
      modifies this
      ensures o == TokenDecision(authorization, verify)
      ensures o.Next? ==> idUser == o.idUser
      ensures !o.Next? ==> idUser == old(idUser)
    {
      o := TokenDecision(authorization, verify);
      if o.Next? {
        idUser := o.idUser;
      }
    }
  }

  /** No request without a "Bearer " header, and none whose token fails
      verification, gets past `verifyToken`. */
  lemma NextNeedsVerifiedBearer(authorization: Option<string>, verify: string -> Verification)
    requires TokenDecision(authorization, verify).Next?
    ensures HasBearer(authorization)
    ensures verify(BearerToken(authorization.value)) ==
      Verified(ObjectClaims(Some(TokenDecision(authorization, verify).idUser)))
  {
  }

  /** A header of "Bearer " and a token without spaces passes exactly that token. */
  lemma TokenAfterBearer(token: string)
    requires ' ' !in token
    ensures BearerToken(BEARER + token) == token
  {
    var h := BEARER + token;
    assert h[|BEARER|..] == token;
  }

  // ---------------------------------------------------------------------
  // verifySeller and verifyAdmin

  /** `verifySeller` after `getUserById(req.id_user)`: a lookup exception is
      500; no user or a falsy `seller` is 403; otherwise `next()`. */
  function VerifySeller(lookup: Result<Option<User>>): (g: Guard)
    ensures g == Proceed <==> lookup.Ok? && lookup.value.Some? && lookup.value.value.seller
    ensures g == Stop(SERVER_ERROR) <==> lookup.Err?
    ensures g == Stop(FORBIDDEN) <==> lookup.Ok? && (lookup.value.None? || !lookup.value.value.seller)
  {
    match lookup
    case Err(_) => Stop(SERVER_ERROR)
    case Ok(None) => Stop(FORBIDDEN)
    case Ok(Some(u)) => if !u.seller then Stop(FORBIDDEN) else Proceed
  }

  /** `verifyAdmin`: the same gate on `admin`. */
  function VerifyAdmin(lookup: Result<Option<User>>): (g: Guard)
    ensures g == Proceed <==> lookup.Ok? && lookup.value.Some? && lookup.value.value.admin
    ensures g == Stop(SERVER_ERROR) <==> lookup.Err?
    ensures g == Stop(FORBIDDEN) <==> lookup.Ok? && (lookup.value.None? || !lookup.value.value.admin)
  {
    match lookup
    case Err(_) => Stop(SERVER_ERROR)
    case Ok(None) => Stop(FORBIDDEN)
    case Ok(Some(u)) => if !u.admin then Stop(FORBIDDEN) else Proceed
  }

  /** Over the users table, the admin gate lets a numeric id through exactly
      when a stored user with that id is an admin. */
  lemma AdminGateIff(rows: seq<User>, nextId: int, id: int)
    requires ValidUsers(rows, nextId)
    ensures VerifyAdmin(LookupUser(rows, Num(id))) == Proceed <==> exists u :: u in rows && u.idUser == id && u.admin
  {
    var found := GetUserById(rows, id);
    if u :| u in rows && u.idUser == id && u.admin {
      IncreasingKeysUnique(rows, UserKey, u, found.value);
    }
  }

  /** Over the users table, the seller gate lets a numeric id through exactly
      when a stored user with that id is a seller. */
  lemma SellerGateIff(rows: seq<User>, nextId: int, id: int)
    requires ValidUsers(rows, nextId)
    ensures VerifySeller(LookupUser(rows, Num(id))) == Proceed <==> exists u :: u in rows && u.idUser == id && u.seller
  {
    var found := GetUserById(rows, id);
    if u :| u in rows && u.idUser == id && u.seller {
      IncreasingKeysUnique(rows, UserKey, u, found.value);
    }
  }

  /** After `promoteUsuario`, a stored user passes the admin gate. */
  lemma PromotionOpensAdminGate(rows: seq<User>, nextId: int, id: int)
    requires ValidUsers(rows, nextId)
    requires GetUserById(rows, id).Some?
    ensures VerifyAdmin(LookupUser(PromotedRows(rows, id), Num(id))) == Proceed
  {
    PromotionSetsOnlyAdmin(rows, nextId, id, id + 1);
  }

  /** A user just created by `createUsuario` passes neither role gate. */
  lemma NewUserPassesNoGate(rows: seq<User>, u: User)
    requires forall x :: x in rows ==> x.idUser != u.idUser
    requires !u.admin && !u.seller
    ensures VerifyAdmin(LookupUser(rows + [u], Num(u.idUser))) == Stop(FORBIDDEN)
    ensures VerifySeller(LookupUser(rows + [u], Num(u.idUser))) == Stop(FORBIDDEN)
  {
    var found := GetUserById(rows + [u], u.idUser);
    assert found.value in rows + [u];
    assert found.value !in rows;
  }
}
