/**
 * The `staff_session` table and the repository over it. A row is a bearer
 * session of one staff user; `unix_timestamp()` is the `now` parameter and
 * MySQL's `UUID()` is the `uuid` parameter supplied by the caller.
 */
module StaffSession {
  import opened Store

  datatype Session = Session(
    id: DbId,
    staffId: DbId,
    token: string,
    createdAt: nat,
    updatedAt: nat,
    expireAt: nat,
    locked: int)
  {
    /** The row filter of `is_valid`: this token, not yet expired, not locked. */
    predicate LiveFor(t: string, now: nat) {
      token == t && expireAt > now && locked == 0
    }
  }

  class SessionRepo {
    /** The table's rows in insertion order. */
    var rows: seq<Session>
    /** The table's AUTO_INCREMENT counter: the id the next insert receives. */
    var nextId: DbId

    /** Auto-increment ids: strictly increasing in insertion order and below the counter. */
    ghost predicate Valid()
      reads this
    {
      && (forall i :: 0 <= i < |rows| ==> rows[i].id < nextId)
      && (forall i, j :: 0 <= i < j < |rows| ==> rows[i].id < rows[j].id)
    }

    /** An empty table whose first generated id is 1. */
    constructor ()
      ensures Valid()
      ensures rows == [] && nextId == 1
    {
      rows := [];
      nextId := 1;
    }

    /** `select * from staff_session where token = ?` */
    function GetByToken(token: string): (r: Result<Session>)
      reads this
      ensures r.Ok? ==> r.value in rows && r.value.token == token
      ensures r.Err? <==> forall i :: 0 <= i < |rows| ==> rows[i].token != token
      ensures r.Err? ==> r.error == RowNotFound
    {
      FetchOne(rows, (s: Session) => s.token == token)
    }

    /** `select * from staff_session where id = ?` */
    function GetById(id: DbId): (r: Result<Session>)
      reads this
      ensures r.Ok? ==> r.value in rows && r.value.id == id
      ensures r.Err? <==> forall i :: 0 <= i < |rows| ==> rows[i].id != id
      ensures r.Err? ==> r.error == RowNotFound
    {
      FetchOne(rows, (s: Session) => s.id == id)
    }

    /**
     * Inserts a row for `staffId` that is created and updated at `now`,
     * expires `lifetime` seconds later and is not locked, then returns the
     * row read back by the generated id.
     */
    method Add(staffId: DbId, lifetime: nat, now: nat, uuid: string) returns (r: Result<Session>)
      requires Valid()
      modifies this
      ensures Valid()
      ensures nextId == old(nextId) + 1
      ensures r == Ok(Session(old(nextId), staffId, uuid, now, now, now + lifetime, 0))
      ensures rows == old(rows) + [r.value]
      ensures forall s :: s in old(rows) ==> s.id < r.value.id
      ensures r == GetById(old(nextId))
    {
      var row := Session(nextId, staffId, uuid, now, now, now + lifetime, 0);
      rows := rows + [row];
      var lastId := nextId;
      nextId := nextId + 1;
      r := GetById(lastId);
      assert rows[|rows| - 1] == row;
      assert forall i :: 0 <= i < |rows| - 1 ==> rows[i].id < lastId;
      assert r.Ok? && r.value in rows;
    }

    /**
     * `select count(*) ... where token = ? and expireAt > unix_timestamp()
     * and locked = 0`, answered with whether the count is positive. When
     * the count query itself fails (`countFails`) the count reads as zero.
     */
    function IsValid(token: string, now: nat, countFails: bool): (r: Result<bool>)
      reads this
      ensures r.Ok?
      ensures r.value <==> !countFails && exists i :: 0 <= i < |rows| && rows[i].LiveFor(token, now)
    {
      var cnt := if countFails then 0 else CountWhere(rows, (s: Session) => s.LiveFor(token, now));
      Ok(cnt > 0)
    }

    /** Not implemented in the source: reports `false` and changes nothing. */
    function Expire(session: Session): (r: Result<bool>)
      ensures r == Ok(false)
    {
      Ok(false)
    }

    /** Not implemented in the source: reports `false` and changes nothing. */
    function Lock(session: Session): (r: Result<bool>)
      ensures r == Ok(false)
    {
      Ok(false)
    }
  }

  /**
   * A session whose token no other row carries is valid exactly until its
   * expiry time, while it is not locked.
   */
  lemma UniqueTokenValidity(repo: SessionRepo, k: nat, now: nat)
    requires k < |repo.rows|
    requires forall i :: 0 <= i < |repo.rows| && i != k ==> repo.rows[i].token != repo.rows[k].token
    ensures repo.IsValid(repo.rows[k].token, now, false) == Ok(repo.rows[k].locked == 0 && now < repo.rows[k].expireAt)
  {
  }

  /**
   * The row `add` appends with a token no earlier row carries and a
   * positive lifetime is valid at its creation time and at every instant
   * before `expireAt`, and invalid from `expireAt` on.
   */
  lemma FreshSessionLifecycle(repo: SessionRepo, later: nat)
    requires |repo.rows| > 0
    requires var s := repo.rows[|repo.rows| - 1];
      s.locked == 0 && s.expireAt > s.createdAt &&
      forall i :: 0 <= i < |repo.rows| - 1 ==> repo.rows[i].token != s.token
    ensures var s := repo.rows[|repo.rows| - 1];
      && repo.IsValid(s.token, s.createdAt, false) == Ok(true)
      && repo.IsValid(s.token, later, false) == Ok(later < s.expireAt)
  {
  }
}
