/**
 * Registration, sign-in and session validation used together, as a client
 * of the staff-authentication service sees them.
 */
module Scenarios {
  import opened Store
  import opened StaffSession
  import opened Auth

  /**
   * A login held only by inactive or deleted rows cannot sign in, yet it
   * still blocks a new registration under the same address.
   */
  lemma RetiredLoginBlocksRegistration(users: StaffUserTable, login: string)
    requires exists i :: 0 <= i < |users.rows| && users.rows[i].login == login
    requires forall i :: 0 <= i < |users.rows| && users.rows[i].login == login ==>
      users.rows[i].active != 1 || users.rows[i].deleted != 0
    ensures users.FindByLogin(login).Ok?
    ensures users.FindActiveByLogin(login).Err?
  {
  }

  /**
   * A new address registers, then signs in with its password and gets a
   * session that is valid until it expires; a second attempt with a
   * password the hash rejects fails with the not-found error and adds no
   * session row.
   */
  method RegisterThenSignIn(users: StaffUserTable, sessions: SessionRepo, req: AddStaffRequest, env: Environment,
                            wrongPassword: string, uuid: string, later: nat)
    returns (added: AddOutcome, signedIn: Result<Session>, rejected: Result<Session>)
    requires users.Valid() && sessions.Valid()
    requires users.FindByLogin(req.email).Err?
    requires ValidateRequest(req, env.isEmail) && env.rand.ok && !env.insertFails
    requires env.argon2.Sound()
    requires HashPassword(env.argon2, req.password, RandomBytes(env.rand)).Some?
    requires env.argon2.verifyEncoded(HashPassword(env.argon2, req.password, RandomBytes(env.rand)).value, wrongPassword) != Some(true)
    requires forall i :: 0 <= i < |sessions.rows| ==> sessions.rows[i].token != uuid
    modifies users, sessions
    ensures added.UserAdded? && added.user.login == req.email && added.user.email == req.email
    ensures added.user.active == 1 && added.user.deleted == 0 && added.user.projectId == 1
    ensures signedIn.Ok? && signedIn.value.staffId == added.user.id && signedIn.value.token == uuid
    ensures signedIn.value.expireAt == env.now + 108000
    ensures sessions.IsValid(uuid, env.now, false) == Ok(true)
    ensures sessions.IsValid(uuid, later, false) == Ok(later < env.now + 108000)
    ensures rejected == Err(RowNotFound)
    ensures sessions.rows == old(sessions.rows) + [signedIn.value]
  {
    added := Add(users, req, env);
    var stored := users.rows[|users.rows| - 1];
    assert users.FindActiveByLogin(req.email) == Ok(stored) by {
      assert stored.CanSignIn(req.email);
      assert forall i :: 0 <= i < |users.rows| - 1 ==> users.rows[i].login != req.email;
    }
    signedIn := AuthUser(users, sessions, req.email, req.password, env.argon2, env.now, uuid);
    rejected := AuthUser(users, sessions, req.email, wrongPassword, env.argon2, env.now, uuid);
    FreshSessionLifecycle(sessions, later);
  }

  /**
   * Registering an address that any row already holds answers "user
   * already exists" and leaves the table as it was, whatever the request's
   * password or the row's flags.
   */
  method RegisterTwice(users: StaffUserTable, req: AddStaffRequest, env: Environment)
    returns (first: AddOutcome, second: AddOutcome)
    requires users.Valid()
    requires !env.dupCheckFails
    modifies users
    ensures first.UserAdded? ==> second == UserAlreadyExists(req.email)
    ensures first.UserAdded? ==> users.rows == old(users.rows) + [first.user]
  {
    first := Add(users, req, env);
    ghost var afterFirst := users.rows;
    second := Add(users, req, env);
    assert users.rows == afterFirst;
  }

  /**
   * When the duplicate-login query errors, registration goes ahead for an
   * address that is already taken: a second row with the same login is
   * inserted, and the re-read by login answers with the older row.
   */
  method FailedDuplicateCheckAdmitsDuplicate(users: StaffUserTable, req: AddStaffRequest, env: Environment)
    returns (out: AddOutcome)
    requires users.Valid()
    requires users.FindByLogin(req.email).Ok?
    requires env.dupCheckFails && ValidateRequest(req, env.isEmail) && env.rand.ok && !env.insertFails
    requires HashPassword(env.argon2, req.password, RandomBytes(env.rand)).Some?
    modifies users
    ensures out == UserAdded(old(users.FindByLogin(req.email)).value)
    ensures |users.rows| == old(|users.rows|) + 1
    ensures users.rows[|users.rows| - 1].login == req.email
    ensures out.user != users.rows[|users.rows| - 1]
  {
    ghost var before := users.rows;
    out := Add(users, req, env);
    assert users.rows[..|before|] == before;
    assert forall i :: 0 <= i < |before| ==> users.rows[i] == before[i];
  }
}
