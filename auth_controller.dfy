/**
 * controllers/authController.js: registration of an admin account, which
 * waits for manual approval, and login, which hands out a signed token.
 *
 * The request validators' verdict and the generated approval token are
 * inputs; the notification e-mail is sent without being awaited and has no
 * effect on the outcome.
 */
module AuthController {
  import opened Optional
  import opened Http
  import opened Tables
  import opened Store

  /** The role column's default, the only value its validator allows. */
  const ADMIN_ROLE := "admin"

  /** The record `register` creates: unapproved, with the hashed password and no pending reset. */
  function NewAdmin(libs: Libs, adminName: string, email: string, password: string, approvalToken: string): Admin {
    Admin(adminName, email, libs.hash(password), ADMIN_ROLE, false, approvalToken, None, None)
  }

  /**
   * `register`: 422 on a validation error, 409 for a registered email;
   * otherwise one unapproved admin is inserted (500 if the model's name
   * validator refuses it).
   */
  function RegisterEffect(s: State, libs: Libs, valid: bool, adminName: string, email: string, password: string, approvalToken: string): (r: Reply)
    requires Integrity(s)
    ensures !valid ==> r == Reply(Unprocessable, s)
    ensures valid && EmailTaken(s.admins, email) ==> r == Reply(Conflict, s)
    ensures r.status in {Created, Unprocessable, Conflict, ServerError}
    ensures r.status == Created <==> valid && !EmailTaken(s.admins, email) && AdminNameOk(adminName)
    ensures r.status == Created ==>
              && r.after.admins.next == s.admins.next + 1
              && r.after.admins.rows == s.admins.rows[s.admins.next := NewAdmin(libs, adminName, email, password, approvalToken)]
              && !r.after.admins.rows[s.admins.next].isApproved
    ensures r.status != Created ==> r.after == s
    ensures r.after == s.(admins := r.after.admins)
    ensures Integrity(r.after)
  {
    if !valid then Reply(Unprocessable, s)
    else if AdminWithEmail(s.admins, email).Some? then Reply(Conflict, s)
    else match AdminCreate(s.admins, NewAdmin(libs, adminName, email, password, approvalToken))
      case None => Reply(ServerError, s)
      case Some(t) => Reply(Created, s.(admins := t))
  }

  method Register(db: Backend, valid: bool, adminName: string, email: string, password: string, approvalToken: string) returns (status: Status)
    requires Integrity(db.Snapshot())
    modifies db
    ensures Reply(status, db.Snapshot()) == RegisterEffect(old(db.Snapshot()), db.libs, valid, adminName, email, password, approvalToken)
  {
    if !valid {
      return Unprocessable;
    }
    if AdminWithEmail(db.admins, email).Some? {
      return Conflict;
    }
    var id := db.CreateAdmin(NewAdmin(db.libs, adminName, email, password, approvalToken));
    status := if id.Some? then Created else ServerError;
  }

  /** What `login` answers: a token for an admin, or a refusal with its message. */
  datatype LoginResult = Token(token: string, admin: int) | Refused(status: Status, message: string)

  const BAD_CREDENTIALS := "Invalid credentials."
  const PENDING_APPROVAL := "Account pending manual approval."

  /**
   * `login`, which reads the admin table and changes nothing: 422 on a
   * validation error; 401 for an unknown email; 403 for an unapproved admin
   * whatever the password; 401 with the same message for a wrong password;
   * otherwise a token signed over the admin's id and email.
   */
  function Login(t: Table<Admin>, libs: Libs, valid: bool, email: string, password: string): (r: LoginResult)
    requires Wf(t) && EmailsUnique(t)
    ensures !valid ==> r.Refused? && r.status == Unprocessable
    ensures valid && !EmailTaken(t, email) ==> r == Refused(Unauthorized, BAD_CREDENTIALS)
    ensures forall k :: valid && k in t.rows && t.rows[k].email == email ==>
              && (!t.rows[k].isApproved ==> r == Refused(Forbidden, PENDING_APPROVAL))
              && (t.rows[k].isApproved && !libs.compare(password, t.rows[k].password) ==> r == Refused(Unauthorized, BAD_CREDENTIALS))
              && (t.rows[k].isApproved && libs.compare(password, t.rows[k].password) ==>
                    r == Token(libs.sign(Payload(k, email)), k))
    ensures r.Token? <==> valid && exists k :: (k in t.rows && t.rows[k].email == email && t.rows[k].isApproved
                                                && libs.compare(password, t.rows[k].password))
  {
    if !valid then Refused(Unprocessable, "")
    else match AdminWithEmail(t, email)
      case None => Refused(Unauthorized, BAD_CREDENTIALS)
      case Some(k) =>
        var a := t.rows[k];
        if !a.isApproved then Refused(Forbidden, PENDING_APPROVAL)
        else if !libs.compare(password, a.password) then Refused(Unauthorized, BAD_CREDENTIALS)
        else Token(libs.sign(Payload(k, a.email)), k)
  }

  /** A freshly registered admin cannot log in, whatever password is offered, until approved. */
  lemma RegisteredAdminAwaitsApproval(s: State, libs: Libs, adminName: string, email: string, password: string, approvalToken: string, attempt: string)
    requires Integrity(s)
    requires RegisterEffect(s, libs, true, adminName, email, password, approvalToken).status == Created
    ensures var s1 := RegisterEffect(s, libs, true, adminName, email, password, approvalToken).after;
      Login(s1.admins, libs, true, email, attempt) == Refused(Forbidden, PENDING_APPROVAL)
  {
    var s1 := RegisterEffect(s, libs, true, adminName, email, password, approvalToken).after;
    assert s.admins.next in s1.admins.rows && s1.admins.rows[s.admins.next].email == email;
  }
}
