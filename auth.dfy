/**
 * Staff registration and authentication over the `staff_users` table.
 *
 * The foreign libraries are oracles passed in by the caller: the argon2
 * crate (`Argon2`), OpenSSL's random generator (`Entropy`) and the
 * validator crate's e-mail check (`isEmail`). `NOW()` is `now`.
 */
module Auth {
  import opened Store
  import opened StaffSession

  const PASSWD_MIN_LEN: int := 12
  const PASSWD_MAX_LEN: int := 64
  const SALT_LEN: nat := 32

  /** Lifetime of a session issued by `AuthUser`: thirty hours, in seconds. */
  const SESSION_LIFETIME: nat := 3_600 * 30

  newtype byte = x: int | 0 <= x < 256

  /** The `[u8; SALT_LEN]` salt. */
  type SaltBytes = s: seq<byte> | |s| == SALT_LEN witness seq(SALT_LEN, _ => 0)

  datatype StaffUser = StaffUser(
    id: DbId,
    projectId: int,
    email: string,
    createdAt: nat,
    updatedAt: nat,
    login: string,
    active: int,
    deleted: int,
    password: string,
    salt: string)
  {
    /** The row filter of the login query: this login, active and not deleted. */
    predicate CanSignIn(l: string) {
      login == l && active == 1 && deleted == 0
    }
  }

  /** Body of a registration request. */
  datatype AddStaffRequest = AddStaffRequest(projectId: int, email: string, password: string)

  datatype Variant = Argon2d | Argon2i | Argon2id
  datatype ThreadMode = Sequential | Parallel

  /** Parameters of the argon2 crate's hashing call. */
  datatype Config = Config(
    variant: Variant,
    version: nat,
    memCost: nat,
    timeCost: nat,
    lanes: nat,
    threadMode: ThreadMode,
    secret: seq<byte>,
    ad: seq<byte>,
    hashLength: nat)

  /** Argon2i version 0x13, 4096 KiB, 10 passes, 4 lanes, a 32-byte digest. */
  const HASH_CONFIG := Config(Argon2i, 0x13, 4096, 10, 4, Parallel, [], [], 32)

  /**
   * The argon2 crate: `hash_encoded` and `verify_encoded`, with `None`
   * standing for the error either may return. Passwords are handed over
   * as strings; their UTF-8 encoding is not modelled.
   */
  datatype Argon2 = Argon2(
    hashEncoded: (string, SaltBytes, Config) -> Option<string>,
    verifyEncoded: (string, string) -> Option<bool>)
  {
    /** What the library promises: an encoded hash verifies the password it was made from. */
    ghost predicate Sound() {
      forall pw: string, salt: SaltBytes ::
        hashEncoded(pw, salt, HASH_CONFIG).Some? ==>
          verifyEncoded(hashEncoded(pw, salt, HASH_CONFIG).value, pw) == Some(true)
    }

    /**
     * The library's encoded form under `HASH_CONFIG`: the parameter header,
     * then the 32-byte salt and the 32-byte digest in unpadded base64
     * (43 characters each) separated by `$`, 117 characters in all.
     */
    ghost predicate EncodedForm() {
      forall pw: string, salt: SaltBytes ::
        hashEncoded(pw, salt, HASH_CONFIG).Some? ==>
          && ENCODED_HEADER <= hashEncoded(pw, salt, HASH_CONFIG).value
          && |hashEncoded(pw, salt, HASH_CONFIG).value| == ENCODED_LEN
    }
  }

  const ENCODED_HEADER: string := "$argon2i$v=19$m=4096,t=10,p=4$"
  const ENCODED_LEN: nat := 117

  /** OpenSSL's `rand_bytes`: whether it succeeds and the bytes it writes. */
  datatype Entropy = Entropy(ok: bool, bytes: nat -> byte)

  /** Everything a registration request depends on besides the table. */
  datatype Environment = Environment(
    now: nat,
    isEmail: string -> bool,
    rand: Entropy,
    argon2: Argon2,
    /** the duplicate-login query errors */
    dupCheckFails: bool,
    /** the INSERT statement errors */
    insertFails: bool)

  /** What the registration handler answers. */
  datatype AddOutcome =
    | UserAlreadyExists(email: string)
    | ValidationError
    | CannotInsert
    | UserAdded(user: StaffUser)
    | ReReadFailed
    /** the handler panics: `rand_bytes` or `hash_encoded` failed */
    | Panicked

  /** The salt the entropy source produces. */
  function RandomBytes(rand: Entropy): (s: SaltBytes)
  {
    var s := seq(SALT_LEN, i requires 0 <= i < SALT_LEN => rand.bytes(i));
    assert |s| == SALT_LEN;
    s
  }

  /** Fills a zeroed 32-byte buffer from the entropy source; a source failure panics. */
  method GenerateRandomSalt(rand: Entropy) returns (salt: Option<SaltBytes>)
    ensures salt.Some? <==> rand.ok
    ensures salt.Some? ==> forall i :: 0 <= i < SALT_LEN ==> salt.value[i] == rand.bytes(i)
    ensures salt.Some? ==> salt.value == RandomBytes(rand)
  {
    var buf := new byte[SALT_LEN](_ => 0);
    var i := 0;
    while i < SALT_LEN
      invariant 0 <= i <= SALT_LEN
      invariant forall j :: 0 <= j < i ==> buf[j] == rand.bytes(j)
    {
      buf[i] := rand.bytes(i);
      i := i + 1;
    }
    if !rand.ok {
      return None;
    }
    salt := Some(buf[..]);
  }

  /** The encoded argon2 hash of `password` under the fixed parameters; `None` is the panic. */
  function HashPassword(argon2: Argon2, password: string, salt: SaltBytes): (r: Option<string>)
    ensures r == argon2.hashEncoded(password, salt, Config(Argon2i, 0x13, 4096, 10, 4, Parallel, [], [], 32))
  {
    argon2.hashEncoded(password, salt, HASH_CONFIG)
  }

  /**
   * A password that passes validation is never stored as itself: its
   * encoded hash is longer than any valid password.
   */
  lemma HashIsNotPlaintext(argon2: Argon2, req: AddStaffRequest, isEmail: string -> bool, salt: SaltBytes)
    requires argon2.EncodedForm() && ValidateRequest(req, isEmail)
    requires HashPassword(argon2, req.password, salt).Some?
    ensures HashPassword(argon2, req.password, salt).value != req.password
    ensures ENCODED_HEADER <= HashPassword(argon2, req.password, salt).value
  {
  }

  /** Whether `password` matches the encoded hash; a library error counts as a mismatch. */
  function VerifyPassword(argon2: Argon2, encoded: string, password: string): (ok: bool)
    ensures ok <==> argon2.verifyEncoded(encoded, password) == Some(true)
  {
    match argon2.verifyEncoded(encoded, password)
    case Some(b) => b
    case None => false
  }

  /** The request's validation: an e-mail address and a password of 12 to 64 characters. */
  function ValidateRequest(req: AddStaffRequest, isEmail: string -> bool): (ok: bool)
    ensures ok <==> isEmail(req.email) && 12 <= |req.password| <= 64
  {
    isEmail(req.email) && PASSWD_MIN_LEN <= |req.password| && |req.password| <= PASSWD_MAX_LEN
  }

  /** The salt column: each byte becomes the character with that code point. */
  function SaltToString(salt: SaltBytes): (s: string)
    ensures |s| == SALT_LEN
    ensures forall i :: 0 <= i < SALT_LEN ==> s[i] as int == salt[i] as int
  {
    seq(SALT_LEN, i requires 0 <= i < SALT_LEN => (salt[i] as int) as char)
  }

  /** Distinct salts are stored as distinct strings. */
  lemma SaltToStringInjective(a: SaltBytes, b: SaltBytes)
    requires SaltToString(a) == SaltToString(b)
    ensures a == b
  {
  }

  class StaffUserTable {
    /** The table's rows in insertion order. */
    var rows: seq<StaffUser>
    /** The table's AUTO_INCREMENT counter. */
    var nextId: DbId

    ghost predicate Valid()
      reads this
    {
      && (forall i :: 0 <= i < |rows| ==> rows[i].id < nextId)
      && (forall i, j :: 0 <= i < j < |rows| ==> rows[i].id < rows[j].id)
    }

    /** An empty table whose first generated id is 1. */
    constructor ()
      ensures Valid()
      ensures rows == [] && nextId == 1
    {
      rows := [];
      nextId := 1;
    }

    /** `SELECT * FROM staff_users WHERE login = ?`, whatever the row's flags. */
    function FindByLogin(login: string): (r: Result<StaffUser>)
      reads this
      ensures r.Ok? ==> r.value in rows && r.value.login == login
      ensures r.Err? <==> forall i :: 0 <= i < |rows| ==> rows[i].login != login
      ensures r.Err? ==> r.error == RowNotFound
    {
      FetchOne(rows, (u: StaffUser) => u.login == login)
    }

    /** `select * from staff_users where login = ? and active = 1 and deleted = 0` */
    function FindActiveByLogin(login: string): (r: Result<StaffUser>)
      reads this
      ensures r.Ok? ==> r.value in rows && r.value.login == login && r.value.active == 1 && r.value.deleted == 0
      ensures r.Err? <==> forall i :: 0 <= i < |rows| ==> !rows[i].CanSignIn(login)
      ensures r.Err? ==> r.error == RowNotFound
    {
      FetchOne(rows, (u: StaffUser) => u.CanSignIn(login))
    }

    /** `INSERT INTO staff_users` with a generated id and both timestamps at `now`. */
    method Insert(projectId: int, email: string, login: string, active: int, deleted: int,
                  password: string, salt: string, now: nat)
      requires Valid()
      modifies this
      ensures Valid()
      ensures nextId == old(nextId) + 1
      ensures rows == old(rows) + [StaffUser(old(nextId), projectId, email, now, now, login, active, deleted, password, salt)]
    {
      rows := rows + [StaffUser(nextId, projectId, email, now, now, login, active, deleted, password, salt)];
      nextId := nextId + 1;
    }
  }

  /**
   * The registration handler: duplicate check (a failed query reads as
   * "no such user"), validation, salt and hash, insert with project 1,
   * active and not deleted, then the row re-read by login.
   */
  method Add(users: StaffUserTable, req: AddStaffRequest, env: Environment) returns (out: AddOutcome)
    requires users.Valid()
    modifies users
    ensures users.Valid()
    ensures
      if !env.dupCheckFails && old(users.FindByLogin(req.email)).Ok? then out == UserAlreadyExists(req.email)
      else if !ValidateRequest(req, env.isEmail) then out == ValidationError
      else if !env.rand.ok || HashPassword(env.argon2, req.password, RandomBytes(env.rand)).None? then out == Panicked
      else if env.insertFails then out == CannotInsert
      else out.UserAdded? && users.FindByLogin(req.email) == Ok(out.user)
    ensures !out.UserAdded? ==> users.rows == old(users.rows) && users.nextId == old(users.nextId)
    ensures out.UserAdded? ==>
      && users.nextId == old(users.nextId) + 1
      && users.rows == old(users.rows) + [StaffUser(old(users.nextId), 1, req.email, env.now, env.now, req.email, 1, 0,
                                                    HashPassword(env.argon2, req.password, RandomBytes(env.rand)).value,
                                                    SaltToString(RandomBytes(env.rand)))]
    ensures out.UserAdded? && old(users.FindByLogin(req.email)).Err? ==> out.user == users.rows[|users.rows| - 1]
    ensures out.UserAdded? && env.argon2.EncodedForm() ==> users.rows[|users.rows| - 1].password != req.password
  {
    var existUsers := users.FindByLogin(req.email);
    var userExists := if env.dupCheckFails then false else existUsers.Ok?;
    if userExists {
      return UserAlreadyExists(req.email);
    }
    if !ValidateRequest(req, env.isEmail) {
      return ValidationError;
    }
    var login := req.email;
    var salt := GenerateRandomSalt(env.rand);
    if salt.None? {
      return Panicked;
    }
    var hashedPassword := HashPassword(env.argon2, req.password, salt.value);
    if hashedPassword.None? {
      return Panicked;
    }
    if env.insertFails {
      return CannotInsert;
    }
    users.Insert(1, req.email, login, 1, 0, hashedPassword.value, SaltToString(salt.value), env.now);
    assert users.rows[|users.rows| - 1].login == req.email;
    var eUsers := users.FindByLogin(req.email);
    match eUsers {
      case Ok(user) => out := UserAdded(user);
      case Err(_) => out := ReReadFailed;
    }
  }

  /**
   * Signs a staff user in: the active, non-deleted row with this login,
   * the password checked against its hash, then a new session of
   * `SESSION_LIFETIME` seconds. A missing user and a wrong password give
   * the same error and create no session.
   */
  method AuthUser(users: StaffUserTable, sessions: SessionRepo, userLogin: string, proposedPassword: string,
                  argon2: Argon2, now: nat, uuid: string) returns (r: Result<Session>)
    requires sessions.Valid()
    modifies sessions
    ensures sessions.Valid()
    ensures r.Ok? <==>
      users.FindActiveByLogin(userLogin).Ok? &&
      VerifyPassword(argon2, users.FindActiveByLogin(userLogin).value.password, proposedPassword)
    ensures r.Err? ==> r.error == RowNotFound
    ensures r.Err? ==> sessions.rows == old(sessions.rows) && sessions.nextId == old(sessions.nextId)
    ensures r.Ok? ==>
      && r.value == Session(old(sessions.nextId), users.FindActiveByLogin(userLogin).value.id, uuid, now, now, now + 108000, 0)
      && sessions.rows == old(sessions.rows) + [r.value]
      && sessions.nextId == old(sessions.nextId) + 1
  {
    var user := users.FindActiveByLogin(userLogin);
    if user.Err? {
      return Err(user.error);
    }
    if VerifyPassword(argon2, user.value.password, proposedPassword) {
      var res := sessions.Add(user.value.id, SESSION_LIFETIME, now, uuid);
      r := Ok(res.value);
    } else {
      r := Err(RowNotFound);
    }
  }
}
