/**
 * controllers/passwordController.js: password reset by a one-time code kept
 * on the admin record. `requestReset` stores a code and its expiry;
 * `verifyReset` accepts the code once, before it expires, and clears it.
 *
 * The request validators' verdict, the generated code, the clock reading and
 * whether the e-mail went out are inputs.
 */
module PasswordController {
  import opened Optional
  import opened Http
  import opened Tables
  import opened Store

  /** How long a code is valid: 10 minutes, in milliseconds. */
  const OTP_LIFETIME: int := 10 * 60 * 1000

  /**
   * `requestReset`: 422 on a validation error, 404 for an unknown email;
   * otherwise the admin's code and expiry are overwritten, and the answer is
   * 200 once the e-mail is sent (500 if sending throws, after the update).
   */
  function RequestResetEffect(s: State, valid: bool, email: string, otp: string, now: int, mailSent: bool): (r: Reply)
    requires Integrity(s)
    ensures !valid ==> r == Reply(Unprocessable, s)
    ensures valid && !EmailTaken(s.admins, email) ==> r == Reply(NotFound, s)
    ensures r.status in {Ok, Unprocessable, NotFound, ServerError}
    ensures r.status == Ok <==> valid && EmailTaken(s.admins, email) && mailSent
    ensures valid && EmailTaken(s.admins, email) ==>
              exists k :: k in s.admins.rows && s.admins.rows[k].email == email &&
                r.after.admins.rows == s.admins.rows[k := s.admins.rows[k].(resetOTP := Some(otp), resetOTPExpires := Some(now + OTP_LIFETIME))]
    ensures r.after.admins.next == s.admins.next
    ensures r.after == s.(admins := r.after.admins)
    ensures Integrity(r.after)
  {
    if !valid then Reply(Unprocessable, s)
    else match AdminWithEmail(s.admins, email)
      case None => Reply(NotFound, s)
      case Some(k) =>
        var a := s.admins.rows[k].(resetOTP := Some(otp), resetOTPExpires := Some(now + OTP_LIFETIME));
        AdminSaveKeepsIntegrity(s, k, a);
        var s1 := s.(admins := s.admins.(rows := s.admins.rows[k := a]));
        Reply(if mailSent then Ok else ServerError, s1)
  }

  method RequestReset(db: Backend, valid: bool, email: string, otp: string, now: int, mailSent: bool) returns (status: Status)
    requires Integrity(db.Snapshot())
    modifies db
    ensures Reply(status, db.Snapshot()) == RequestResetEffect(old(db.Snapshot()), valid, email, otp, now, mailSent)
  {
    if !valid {
      return Unprocessable;
    }
    var found := AdminWithEmail(db.admins, email);
    if found.None? {
      return NotFound;
    }
    var k := found.value;
    db.SaveAdmin(k, db.admins.rows[k].(resetOTP := Some(otp), resetOTPExpires := Some(now + OTP_LIFETIME)));
    status := if mailSent then Ok else ServerError;
  }

  /** A stored code that JavaScript treats as present: not `null` and not empty. */
  predicate Pending(a: Admin) {
    a.resetOTP.Some? && a.resetOTP.value != ""
  }

  /** `admin.resetOTPExpires < new Date()`: a `null` expiry compares as 0. */
  predicate Expired(a: Admin, now: int) {
    (if a.resetOTPExpires.Some? then a.resetOTPExpires.value else 0) < now
  }

  /** The answer `verifyReset` gives before touching the record. */
  datatype ResetCheck = Accept(id: int) | Refuse(status: Status, message: string)

  const NO_PENDING := "Invalid or expired OTP."
  const WRONG_CODE := "Incorrect OTP."
  const EXPIRED := "OTP has expired."

  /**
   * The checks of `verifyReset`, in order: validation (422), an admin with a
   * pending code, the code itself, then the expiry (400 each).
   */
  function CheckReset(t: Table<Admin>, valid: bool, email: string, otp: string, now: int): (r: ResetCheck)
    requires Wf(t) && EmailsUnique(t)
    ensures !valid ==> r.Refuse? && r.status == Unprocessable
    ensures valid && !EmailTaken(t, email) ==> r == Refuse(BadRequest, NO_PENDING)
    ensures r.Accept? <==> valid && exists k :: (k in t.rows && t.rows[k].email == email && Pending(t.rows[k])
                                                 && t.rows[k].resetOTP.value == otp && !Expired(t.rows[k], now))
    ensures r.Accept? ==> r.id in t.rows && t.rows[r.id].email == email
    ensures forall k :: valid && k in t.rows && t.rows[k].email == email ==>
              && (!Pending(t.rows[k]) ==> r == Refuse(BadRequest, NO_PENDING))
              && (Pending(t.rows[k]) && t.rows[k].resetOTP.value != otp ==> r == Refuse(BadRequest, WRONG_CODE))
              && (Pending(t.rows[k]) && t.rows[k].resetOTP.value == otp && Expired(t.rows[k], now) ==> r == Refuse(BadRequest, EXPIRED))
  {
    if !valid then Refuse(Unprocessable, "")
    else match AdminWithEmail(t, email)
      case None => Refuse(BadRequest, NO_PENDING)
      case Some(k) =>
        var a := t.rows[k];
        if !Pending(a) then Refuse(BadRequest, NO_PENDING)
        else if a.resetOTP.value != otp then Refuse(BadRequest, WRONG_CODE)
        else if Expired(a, now) then Refuse(BadRequest, EXPIRED)
        else Accept(k)
  }

  /**
   * `verifyReset`: on acceptance the password becomes the hash of the new
   * one and the code and expiry are cleared; a refusal changes nothing.
   */
  function VerifyResetEffect(s: State, libs: Libs, valid: bool, email: string, otp: string, newPassword: string, now: int): (r: Reply)
    requires Integrity(s)
    ensures r.status in {Ok, BadRequest, Unprocessable}
    ensures r.status == Ok <==> CheckReset(s.admins, valid, email, otp, now).Accept?
    ensures r.status != Ok ==> r.after == s
    ensures r.status == Ok ==>
              var k := CheckReset(s.admins, valid, email, otp, now).id;
              r.after.admins.rows == s.admins.rows[k := s.admins.rows[k].(password := libs.hash(newPassword), resetOTP := None, resetOTPExpires := None)]
    ensures r.after.admins.next == s.admins.next
    ensures r.after == s.(admins := r.after.admins)
    ensures Integrity(r.after)
  {
    match CheckReset(s.admins, valid, email, otp, now)
    case Refuse(status, _) => Reply(status, s)
    case Accept(k) =>
      var a := s.admins.rows[k].(password := libs.hash(newPassword), resetOTP := None, resetOTPExpires := None);
      AdminSaveKeepsIntegrity(s, k, a);
      Reply(Ok, s.(admins := s.admins.(rows := s.admins.rows[k := a])))
  }

  method VerifyReset(db: Backend, valid: bool, email: string, otp: string, newPassword: string, now: int) returns (status: Status)
    requires Integrity(db.Snapshot())
    modifies db
    ensures Reply(status, db.Snapshot()) == VerifyResetEffect(old(db.Snapshot()), db.libs, valid, email, otp, newPassword, now)
  {
    var check := CheckReset(db.admins, valid, email, otp, now);
    if check.Refuse? {
      return check.status;
    }
    var k := check.id;
    db.SaveAdmin(k, db.admins.rows[k].(password := db.libs.hash(newPassword), resetOTP := None, resetOTPExpires := None));
    status := Ok;
  }

  /**
   * A code just requested is accepted with the matching address up to and
   * including the last millisecond of its lifetime.
   */
  lemma VerifyAfterRequest(s: State, libs: Libs, email: string, otp: string, sentAt: int, mailSent: bool, newPassword: string, now: int)
    requires Integrity(s) && EmailTaken(s.admins, email)
    requires otp != "" && now <= sentAt + OTP_LIFETIME
    ensures var s1 := RequestResetEffect(s, true, email, otp, sentAt, mailSent).after;
      VerifyResetEffect(s1, libs, true, email, otp, newPassword, now).status == Ok
  {
    var s1 := RequestResetEffect(s, true, email, otp, sentAt, mailSent).after;
    var k :| k in s.admins.rows && s.admins.rows[k].email == email &&
      s1.admins.rows == s.admins.rows[k := s.admins.rows[k].(resetOTP := Some(otp), resetOTPExpires := Some(sentAt + OTP_LIFETIME))];
    assert k in s1.admins.rows && s1.admins.rows[k].email == email && Pending(s1.admins.rows[k]);
  }

  /** After its lifetime, the code just requested is refused as expired. */
  lemma ExpiredAfterLifetime(s: State, libs: Libs, email: string, otp: string, sentAt: int, mailSent: bool, newPassword: string, now: int)
    requires Integrity(s) && EmailTaken(s.admins, email)
    requires otp != "" && now > sentAt + OTP_LIFETIME
    ensures var s1 := RequestResetEffect(s, true, email, otp, sentAt, mailSent).after;
      VerifyResetEffect(s1, libs, true, email, otp, newPassword, now) == Reply(BadRequest, s1)
  {
    var s1 := RequestResetEffect(s, true, email, otp, sentAt, mailSent).after;
    var k :| k in s.admins.rows && s.admins.rows[k].email == email &&
      s1.admins.rows == s.admins.rows[k := s.admins.rows[k].(resetOTP := Some(otp), resetOTPExpires := Some(sentAt + OTP_LIFETIME))];
    assert k in s1.admins.rows && s1.admins.rows[k].email == email && Pending(s1.admins.rows[k]);
  }

  /** A code works once: after a successful reset the same request is refused. */
  lemma ResetCannotBeReplayed(s: State, libs: Libs, valid: bool, email: string, otp: string, newPassword: string, now: int)
    requires Integrity(s)
    requires VerifyResetEffect(s, libs, valid, email, otp, newPassword, now).status == Ok
    ensures var s1 := VerifyResetEffect(s, libs, valid, email, otp, newPassword, now).after;
      VerifyResetEffect(s1, libs, valid, email, otp, newPassword, now) == Reply(BadRequest, s1)
  {
    var k := CheckReset(s.admins, valid, email, otp, now).id;
    var s1 := VerifyResetEffect(s, libs, valid, email, otp, newPassword, now).after;
    assert k in s1.admins.rows && s1.admins.rows[k].email == email && !Pending(s1.admins.rows[k]);
  }

  /** A new request supersedes the pending code: the earlier code is refused as wrong. */
  lemma NewRequestSupersedes(s: State, libs: Libs, email: string, first: string, second: string, t1: int, t2: int, m1: bool, m2: bool, newPassword: string, now: int)
    requires Integrity(s) && EmailTaken(s.admins, email)
    requires second != "" && first != second
    ensures var s1 := RequestResetEffect(s, true, email, first, t1, m1).after;
      var s2 := RequestResetEffect(s1, true, email, second, t2, m2).after;
      VerifyResetEffect(s2, libs, true, email, first, newPassword, now) == Reply(BadRequest, s2)
  {
    var s1 := RequestResetEffect(s, true, email, first, t1, m1).after;
    var s2 := RequestResetEffect(s1, true, email, second, t2, m2).after;
    assert EmailTaken(s1.admins, email) by {
      var k :| k in s.admins.rows && s.admins.rows[k].email == email;
      assert k in s1.admins.rows && s1.admins.rows[k].email == email;
    }
    var k :| k in s1.admins.rows && s1.admins.rows[k].email == email &&
      s2.admins.rows == s1.admins.rows[k := s1.admins.rows[k].(resetOTP := Some(second), resetOTPExpires := Some(t2 + OTP_LIFETIME))];
    assert k in s2.admins.rows && s2.admins.rows[k].email == email && Pending(s2.admins.rows[k]);
  }
}
