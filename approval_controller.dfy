/**
 * controllers/approvalController.js: the link an operator follows to approve
 * or deny a registration, by the admin's approval token.
 */
module ApprovalController {
  import opened Optional
  import opened Http
  import opened Tables
  import opened Store

  /**
   * `approveAdmin`: 404 when no admin holds the token; `action=approve` sets
   * that admin's `isApproved`; any other action, or none, destroys the record.
   */
  function ApproveAdminEffect(s: State, token: string, action: Option<string>): (r: Reply)
    requires Integrity(s)
    ensures (forall k :: k in s.admins.rows ==> s.admins.rows[k].approvalToken != token) ==> r == Reply(NotFound, s)
    ensures r.status in {Ok, NotFound}
    ensures r.status == Ok <==> exists k :: k in s.admins.rows && s.admins.rows[k].approvalToken == token
    ensures r.status == NotFound ==> r.after == s
    ensures r.status == Ok ==>
              var k := AdminWithToken(s.admins, token).value;
              r.after.admins.rows == (if action == Some("approve") then s.admins.rows[k := s.admins.rows[k].(isApproved := true)]
                                      else s.admins.rows - {k})
    ensures r.after.admins.next == s.admins.next
    ensures r.after == s.(admins := r.after.admins)
    ensures Integrity(r.after)
  {
    match AdminWithToken(s.admins, token)
    case None => Reply(NotFound, s)
    case Some(k) =>
      if action == Some("approve") then
        AdminSaveKeepsIntegrity(s, k, s.admins.rows[k].(isApproved := true));
        Reply(Ok, s.(admins := s.admins.(rows := s.admins.rows[k := s.admins.rows[k].(isApproved := true)])))
      else
        AdminDestroyKeepsIntegrity(s, k);
        Reply(Ok, s.(admins := Without(s.admins, k)))
  }

  method ApproveAdmin(db: Backend, token: string, action: Option<string>) returns (status: Status)
    requires Integrity(db.Snapshot())
    modifies db
    ensures Reply(status, db.Snapshot()) == ApproveAdminEffect(old(db.Snapshot()), token, action)
  {
    var found := AdminWithToken(db.admins, token);
    if found.None? {
      return NotFound;
    }
    var k := found.value;
    if action == Some("approve") {
      db.SaveAdmin(k, db.admins.rows[k].(isApproved := true));
      return Ok;
    }
    db.DestroyAdmin(k);
    status := Ok;
  }

  /** Following the approve link twice leaves the same state as following it once. */
  lemma ApproveIdempotent(s: State, token: string)
    requires Integrity(s)
    ensures var s1 := ApproveAdminEffect(s, token, Some("approve")).after;
      ApproveAdminEffect(s1, token, Some("approve")) == Reply(ApproveAdminEffect(s, token, Some("approve")).status, s1)
  {
    var s1 := ApproveAdminEffect(s, token, Some("approve")).after;
    var found := AdminWithToken(s.admins, token);
    if found.Some? {
      var k := found.value;
      assert s1.admins.rows == s.admins.rows[k := s.admins.rows[k].(isApproved := true)];
      assert AdminWithToken(s1.admins, token) == found by {
        var again := AdminWithToken(s1.admins, token);
        assert k in s1.admins.rows && s1.admins.rows[k].approvalToken == token;
        assert again.value in s.admins.rows && s.admins.rows[again.value].approvalToken == token;
      }
      assert s1.admins.rows[k := s1.admins.rows[k].(isApproved := true)] == s1.admins.rows;
    }
  }
}
