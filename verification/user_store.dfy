/** The `users` table and `SQLUserRepository` (backend/internal/models/user.go).
    Users are never removed: deletion clears `is_active`, and every read
    sees active users only.  The `email` column is UNIQUE across all rows,
    active or not, as the schema in backend/tests/integration_test.go
    declares. */
module UserStore {
  import opened Wrappers
  import opened Sql

  datatype User = User(
    id: int,
    email: string,
    passwordHash: string,
    fullName: string,
    emailVerified: bool,
    isActive: bool,
    createdAt: nat,
    updatedAt: nat)

  datatype Store = Store(rows: map<int, User>, nextId: int)

  const Empty := Store(map[], 1)

  /** The message SQLite gives when the UNIQUE constraint on `email` fails. */
  const EmailTakenConstraint := "UNIQUE constraint failed: users.email"

  /** Ids as in every table, and no two rows share an email. */
  predicate Valid(s: Store) {
    && s.nextId >= 1
    && (forall id :: id in s.rows ==> 1 <= id < s.nextId && s.rows[id].id == id)
    && (forall i, j :: i in s.rows && j in s.rows && s.rows[i].email == s.rows[j].email ==> i == j)
  }

  /** Some row, active or not, already holds the email. */
  predicate EmailTaken(s: Store, email: string) {
    exists id :: id in s.rows && s.rows[id].email == email
  }

  /** The row exists and is active. */
  predicate ActiveAt(s: Store, id: int) {
    id in s.rows && s.rows[id].isActive
  }

  /** `Create`: inserts the caller's email, hash, name and the two flags as
      given, with a fresh id and `now` as creation and update time; an email
      held by any row breaks the UNIQUE constraint. */
  function Create(s: Store, user: User, now: nat): (r: Result<(Store, User), DbError>)
    requires Valid(s)
    ensures EmailTaken(s, user.email) <==> r == Failure(ConstraintViolation(EmailTakenConstraint))
    ensures r.Success? ==> var (s', row) := r.value;
      Valid(s') && row.id !in s.rows && s'.rows == s.rows[row.id := row]
      && row.email == user.email && row.passwordHash == user.passwordHash
      && row.fullName == user.fullName && row.emailVerified == user.emailVerified
      && row.isActive == user.isActive && row.createdAt == now && row.updatedAt == now
  {
    if EmailTaken(s, user.email) then Failure(ConstraintViolation(EmailTakenConstraint))
    else
      var row := user.(id := s.nextId, createdAt := now, updatedAt := now);
      Success((Store(s.rows[row.id := row], s.nextId + 1), row))
  }

  /** `GetByID`: an active user, or `None` for a missing or deactivated one. */
  function GetByID(s: Store, id: int): (r: Option<User>)
    ensures r.Some? <==> ActiveAt(s, id)
    ensures r.Some? ==> r.value == s.rows[id]
  {
    if ActiveAt(s, id) then Some(s.rows[id]) else None
  }

  /** The WHERE clauses of the reads. */
  function ActiveWithEmail(email: string): User -> bool {
    (u: User) => u.email == email && u.isActive
  }

  predicate IsActive(u: User) {
    u.isActive
  }

  function NewestFirst(u: User): int {
    -(u.createdAt as int)
  }

  /** `GetByEmail`: the active user with that email, or `None`. */
  function GetByEmail(s: Store, email: string): (r: Option<User>)
    ensures r.Some? ==> r.value in s.rows.Values && r.value.email == email && r.value.isActive
    ensures Valid(s) ==> (r.Some? <==> exists id :: ActiveAt(s, id) && s.rows[id].email == email)
  {
    var found := Select(s.rows, 1, s.nextId, ActiveWithEmail(email));
    GetByEmailSelects(s, email);
    if |found| == 0 then None else Some(found[0])
  }

  lemma GetByEmailSelects(s: Store, email: string)
    ensures Valid(s) ==>
      (|Select(s.rows, 1, s.nextId, ActiveWithEmail(email))| > 0 <==> exists id :: ActiveAt(s, id) && s.rows[id].email == email)
    ensures var found := Select(s.rows, 1, s.nextId, ActiveWithEmail(email));
      |found| > 0 ==> found[0] in s.rows.Values && found[0].email == email && found[0].isActive
  {
    var found := Select(s.rows, 1, s.nextId, ActiveWithEmail(email));
    if Valid(s) && exists id :: ActiveAt(s, id) && s.rows[id].email == email {
      var id :| ActiveAt(s, id) && s.rows[id].email == email;
      assert ActiveWithEmail(email)(s.rows[id]);
      assert s.rows[id] in found;
    }
    if |found| > 0 {
      assert ActiveWithEmail(email)(found[0]);
      var id :| 1 <= id < s.nextId && id in s.rows && s.rows[id] == found[0];
      assert ActiveAt(s, id) && s.rows[id].email == email;
    }
  }

  /** Because emails are unique, the user `GetByEmail` finds is the one row
      that holds the email. */
  lemma GetByEmailFinds(s: Store, id: int)
    requires Valid(s) && ActiveAt(s, id)
    ensures GetByEmail(s, s.rows[id].email) == Some(s.rows[id])
  {
    var r := GetByEmail(s, s.rows[id].email);
    assert r.Some?;
    var j :| j in s.rows && s.rows[j] == r.value;
  }

  /** A created user is found again by id and by email exactly when it was
      stored active. */
  lemma CreateThenGet(s: Store, user: User, now: nat)
    requires Valid(s) && Create(s, user, now).Success?
    ensures var (s', row) := Create(s, user, now).value;
      (GetByID(s', row.id) == Some(row) <==> user.isActive)
      && (GetByEmail(s', user.email) == Some(row) <==> user.isActive)
  {
    var (s', row) := Create(s, user, now).value;
    if user.isActive {
      GetByEmailFinds(s', row.id);
    }
  }

  /** `Update`: rewrites email, full name and verification flag of an active
      user and stamps `updated_at`; the hash and the active flag are never
      touched.  A missing or deactivated user is `ErrNoRows`; an email held
      by another row breaks the UNIQUE constraint. */
  function Update(s: Store, user: User, now: nat): (r: Result<Store, DbError>)
    ensures !ActiveAt(s, user.id) <==> r == Failure(ErrNoRows)
    ensures ActiveAt(s, user.id) ==>
      (r.Failure? <==> exists k :: k in s.rows && k != user.id && s.rows[k].email == user.email)
    ensures r.Success? ==> user.id in r.value.rows
    ensures r.Success? ==>
      var before := s.rows[user.id];
      r.value.nextId == s.nextId && r.value.rows.Keys == s.rows.Keys
      && (forall k :: k in s.rows && k != user.id ==> r.value.rows[k] == s.rows[k])
      && r.value.rows[user.id]
         == before.(email := user.email, fullName := user.fullName,
                    emailVerified := user.emailVerified, updatedAt := now)
    ensures r.Success? && Valid(s) ==> Valid(r.value)
  {
    if !ActiveAt(s, user.id) then Failure(ErrNoRows)
    else if exists k :: k in s.rows && k != user.id && s.rows[k].email == user.email then
      Failure(ConstraintViolation(EmailTakenConstraint))
    else
      var after := s.rows[user.id].(email := user.email, fullName := user.fullName,
                                    emailVerified := user.emailVerified, updatedAt := now);
      Success(s.(rows := s.rows[user.id := after]))
  }

  /** `Delete`: deactivates the row and keeps it.  It matches on the id
      alone, so deleting an already deactivated user succeeds again. */
  function Delete(s: Store, id: int, now: nat): (r: Result<Store, DbError>)
    ensures id !in s.rows <==> r == Failure(ErrNoRows)
    ensures r.Success? ==>
      r.value.nextId == s.nextId && r.value.rows.Keys == s.rows.Keys
      && (forall k :: k in s.rows && k != id ==> r.value.rows[k] == s.rows[k])
      && r.value.rows[id] == s.rows[id].(isActive := false, updatedAt := now)
    ensures r.Success? && Valid(s) ==> Valid(r.value)
  {
    if id !in s.rows then Failure(ErrNoRows)
    else Success(s.(rows := s.rows[id := s.rows[id].(isActive := false, updatedAt := now)]))
  }

  /** A deleted user can no longer be read or updated by id or by email,
      yet its row still holds the email, so creating a user with that email
      breaks the UNIQUE constraint. */
  lemma DeleteHides(s: Store, id: int, now: nat, user: User, later: nat)
    requires Valid(s) && id in s.rows && user.email == s.rows[id].email
    ensures var d := Delete(s, id, now).value;
      GetByID(d, id) == None && GetByEmail(d, user.email) == None
      && Update(d, user.(id := id), later) == Failure(ErrNoRows)
      && Create(d, user, later) == Failure(ConstraintViolation(EmailTakenConstraint))
  {
    var d := Delete(s, id, now).value;
    assert Valid(d);
    assert d.rows[id].email == user.email;
  }

  /** `List`: active users, newest first, after skipping `offset`, at most
      `limit`. */
  function List(s: Store, limit: int, offset: int): (r: seq<User>)
    ensures forall u :: u in r ==> u.isActive && u in s.rows.Values
    ensures forall i, j :: 0 <= i < j < |r| ==> r[i].createdAt >= r[j].createdAt
    ensures limit >= 0 ==> |r| <= limit
    ensures r == Page(SortBy(Select(s.rows, 1, s.nextId, IsActive), NewestFirst), limit, offset)
  {
    var r := Query(s.rows, s.nextId, IsActive, NewestFirst, limit, offset);
    assert Sorted(r, NewestFirst);
    r
  }

  /** Unpaged, `List` holds every active user. */
  lemma ListComplete(s: Store, id: int)
    requires Valid(s) && ActiveAt(s, id)
    ensures s.rows[id] in List(s, -1, 0)
  {
    QueryComplete(s.rows, s.nextId, IsActive, NewestFirst, id);
  }

  /** Every page of `List` is a window of the full list, and consecutive
      pages join up with nothing skipped or repeated. */
  lemma ListPages(s: Store, limit: int, offset: int, a: nat, b: nat, start: nat)
    ensures List(s, limit, offset) == Page(List(s, -1, 0), limit, offset)
    ensures List(s, a, start) + List(s, b, start + a) == List(s, a + b, start)
  {
    QueryWindow(s.rows, s.nextId, IsActive, NewestFirst, limit, offset);
    QueryPagesTile(s.rows, s.nextId, IsActive, NewestFirst, a, b, start);
  }
}
