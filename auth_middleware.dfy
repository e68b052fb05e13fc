/**
 * middleware/auth.js: the bearer-token gate in front of the admin routes.
 * `authenticate` takes the token from the Authorization header, has it
 * verified and checks that its admin still exists; `authorizeAdmin` then
 * turns away a record whose role is set to something other than `admin`.
 */
module AuthMiddleware {
  import opened Optional
  import opened Http
  import opened Text
  import opened Tables
  import opened Store
  import AuthController

  /** The only prefix accepted, case-sensitively. */
  const BEARER := "Bearer "

  /**
   * `header.startsWith('Bearer ') ? header.split(' ')[1] : null`, a missing
   * header read as `''`, and an empty token treated like no token: the text
   * after `Bearer ` up to the next space, when that is not empty.
   */
  function ExtractToken(header: Option<string>): (r: Option<string>)
    ensures r.Some? <==> header.Some? && StartsWith(header.value, BEARER) && FieldBefore(header.value[|BEARER|..], ' ') != ""
    ensures r.Some? ==> r.value == FieldBefore(header.value[|BEARER|..], ' ')
  {
    var h := if header.Some? then header.value else "";
    if !StartsWith(h, BEARER) then None
    else
      var rest := h[|BEARER|..];
      assert h == "Bearer" + [' '] + rest;
      SplitAfterWord("Bearer", ' ', rest);
      SplitHead(rest, ' ');
      var token := Split(h, ' ')[1];
      if token == "" then None else Some(token)
  }

  /** A non-empty token without spaces, sent as `Bearer <token>`, is the token extracted. */
  lemma {:induction false} BearerRoundTrip(token: string)
    requires token != "" && ' ' !in token
    ensures ExtractToken(Some(BEARER + token)) == Some(token)
  {
    var h := BEARER + token;
    assert h[|BEARER|..] == token;
    FieldBeforeWhole(token, ' ');
  }

  lemma {:induction false} FieldBeforeWhole(s: string, sep: char)
    requires sep !in s
    ensures FieldBefore(s, sep) == s
    decreases |s|
  {
    if s != [] {
      FieldBeforeWhole(s[1..], sep);
    }
  }

  /** What the middleware does with a request: let it through, or answer. */
  datatype Gate = Pass(admin: int, record: Admin, payload: Payload) | Deny(status: Status, message: string)

  const NO_TOKEN := "No token provided."
  const BAD_TOKEN := "Invalid or expired token."
  const NO_ACCOUNT := "Account no longer exists."
  const ADMINS_ONLY := "Admins only."

  /**
   * `authenticate`: 401 without a token, when verification throws, or when
   * the admin named by the payload is gone; otherwise the admin and payload.
   */
  function Authentication(t: Table<Admin>, verify: string -> Option<Payload>, header: Option<string>): (r: Gate)
    ensures r.Deny? ==> r.status == Unauthorized
    ensures ExtractToken(header).None? ==> r == Deny(Unauthorized, NO_TOKEN)
    ensures ExtractToken(header).Some? && verify(ExtractToken(header).value).None? ==> r == Deny(Unauthorized, BAD_TOKEN)
    ensures r.Pass? <==> ExtractToken(header).Some? && verify(ExtractToken(header).value).Some?
                         && verify(ExtractToken(header).value).value.id in t.rows
    ensures r.Pass? ==> r.payload == verify(ExtractToken(header).value).value
                        && r.admin == r.payload.id && r.record == t.rows[r.admin]
  {
    match ExtractToken(header)
    case None => Deny(Unauthorized, NO_TOKEN)
    case Some(token) =>
      match verify(token)
      case None => Deny(Unauthorized, BAD_TOKEN)
      case Some(p) =>
        if p.id !in t.rows then Deny(Unauthorized, NO_ACCOUNT) else Pass(p.id, t.rows[p.id], p)
  }

  /** `req.admin.role && req.admin.role !== 'admin'`: a role is set and is not `admin`. */
  predicate ForeignRole(role: string) {
    role != "" && role != AuthController.ADMIN_ROLE
  }

  /** `authorizeAdmin`: `authenticate`, then 403 for a foreign role. */
  function Authorization(t: Table<Admin>, verify: string -> Option<Payload>, header: Option<string>): (r: Gate)
    ensures var a := Authentication(t, verify, header);
      && (a.Deny? ==> r == a)
      && (a.Pass? && ForeignRole(a.record.role) ==> r == Deny(Forbidden, ADMINS_ONLY))
      && (a.Pass? && !ForeignRole(a.record.role) ==> r == a)
    ensures r.Deny? && r.status == Forbidden <==>
              Authentication(t, verify, header).Pass? && ForeignRole(Authentication(t, verify, header).record.role)
  {
    var a := Authentication(t, verify, header);
    if a.Pass? && ForeignRole(a.record.role) then Deny(Forbidden, ADMINS_ONLY) else a
  }

  /** The parts of an Express request the middleware reads and writes. */
  class Request {
    const authorization: Option<string>
    var admin: Option<Admin>
    var jwtPayload: Option<Payload>

    constructor (authorization: Option<string>)
      ensures this.authorization == authorization && admin == None && jwtPayload == None
    {
      this.authorization := authorization;
      admin, jwtPayload := None, None;
    }
  }

  /** `authenticate`: on success `req.admin` and `req.jwtPayload` are set before `next()`. */
  method Authenticate(db: Backend, req: Request) returns (gate: Gate)
    modifies req
    ensures gate == Authentication(db.admins, db.libs.verify, req.authorization)
    ensures gate.Pass? ==> req.admin == Some(gate.record) && req.jwtPayload == Some(gate.payload)
    ensures gate.Deny? ==> req.admin == old(req.admin) && req.jwtPayload == old(req.jwtPayload)
  {
    var token := ExtractToken(req.authorization);
    if token.None? {
      return Deny(Unauthorized, NO_TOKEN);
    }
    var payload := db.libs.verify(token.value);
    if payload.None? {
      return Deny(Unauthorized, BAD_TOKEN);
    }
    var found := FindByPk(db.admins, payload.value.id);
    if found.None? {
      return Deny(Unauthorized, NO_ACCOUNT);
    }
    req.admin := found;
    req.jwtPayload := payload;
    gate := Pass(payload.value.id, found.value, payload.value);
  }

  /** `authorizeAdmin` */
  method AuthorizeAdmin(db: Backend, req: Request) returns (gate: Gate)
    modifies req
    ensures gate == Authorization(db.admins, db.libs.verify, req.authorization)
    ensures gate.Pass? ==> req.admin == Some(gate.record) && req.jwtPayload == Some(gate.payload)
    ensures var a := Authentication(db.admins, db.libs.verify, req.authorization);
      && (gate == Deny(Forbidden, ADMINS_ONLY) ==> req.admin == Some(a.record) && req.jwtPayload == Some(a.payload))
      && (a.Deny? ==> req.admin == old(req.admin) && req.jwtPayload == old(req.jwtPayload))
  {
    gate := Authenticate(db, req);
    if gate.Pass? && ForeignRole(req.admin.value.role) {
      gate := Deny(Forbidden, ADMINS_ONLY);
    }
  }

  /**
   * The token `login` hands out opens the admin routes for that admin, as
   * long as verification accepts what signing produced, the token has no
   * spaces, and the record's role is not foreign.
   */
  lemma LoginTokenAuthorizes(t: Table<Admin>, libs: Libs, email: string, password: string, token: string, k: int)
    requires Wf(t) && EmailsUnique(t)
    requires AuthController.Login(t, libs, true, email, password) == AuthController.Token(token, k)
    requires libs.verify(libs.sign(Payload(k, email))) == Some(Payload(k, email))
    requires token != "" && ' ' !in token
    requires !ForeignRole(t.rows[k].role)
    ensures Authorization(t, libs.verify, Some(BEARER + token)) == Pass(k, t.rows[k], Payload(k, email))
  {
    BearerRoundTrip(token);
    assert k in t.rows && t.rows[k].email == email;
  }
}
