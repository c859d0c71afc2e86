/**
  The `users` table and the three operations of the account service that touch
  it: account creation, credential verification and password reset.

  The table is kept as its rows in insertion order together with the value of
  the AUTOINCREMENT sequence (`lastId`, the largest id ever handed out).  The
  UNIQUE constraint on `email` and the PRIMARY KEY on `id` are the invariant
  `Valid`; every operation preserves it.  Emails are compared by exact,
  case-sensitive string equality, as SQLite's default collation does.
 */
module Users {
  import opened Wrappers
  import opened Bcrypt

  type Email = string

  /** `created_at`: an ISO-8601 text supplied by the clock, opaque here. */
  type Timestamp = string

  /** One row of `users(id, name, email, password_hash, created_at)`. */
  datatype Row = Row(id: nat, name: string, email: Email, passwordHash: PasswordHash, createdAt: Timestamp)

  /** The public identity handed to the session: no credential in it. */
  datatype Identity = Identity(id: nat, name: string, email: Email)

  /** The table's rows and the AUTOINCREMENT counter. */
  datatype Table = Table(rows: seq<Row>, lastId: nat)

  /** The `(ok, msg)` pair returned by account creation, with the table after it. */
  datatype CreateResult = CreateResult(table: Table, ok: bool, msg: Option<string>)

  const DuplicateEmailMessage := "Email already exists."

  function IdentityOf(row: Row): Identity
  {
    Identity(row.id, row.name, row.email)
  }

  /** UNIQUE(email): no two rows share an email. */
  ghost predicate UniqueEmails(rows: seq<Row>)
  {
    forall i, j :: 0 <= i < j < |rows| ==> rows[i].email != rows[j].email
  }

  /** The PRIMARY KEY with AUTOINCREMENT: ids are distinct and none exceeds the counter. */
  ghost predicate IdsIssued(t: Table)
  {
    && (forall i, j :: 0 <= i < j < |t.rows| ==> t.rows[i].id != t.rows[j].id)
    && (forall i :: 0 <= i < |t.rows| ==> 1 <= t.rows[i].id <= t.lastId)
  }

  /** The constraints of the schema. */
  ghost predicate Valid(t: Table)
  {
    UniqueEmails(t.rows) && IdsIssued(t)
  }

  /** Some row carries this email. */
  predicate HasEmail(rows: seq<Row>, email: Email)
  {
    exists i :: 0 <= i < |rows| && rows[i].email == email
  }

  /** Two rows agree on every column except `password_hash`. */
  predicate SameExceptHash(a: Row, b: Row)
  {
    a.id == b.id && a.name == b.name && a.email == b.email && a.createdAt == b.createdAt
  }

  /** The freshly created table of a new database file. */
  function Empty(): (t: Table)
    ensures Valid(t)
    ensures forall e :: !HasEmail(t.rows, e)
  {
    Table([], 0)
  }

  /**
    `SELECT ... WHERE email=?` followed by `fetchone()`.  The query has no
    ORDER BY, so SQLite promises no order; the model takes the first matching
    row in insertion order.  Under UNIQUE(email) there is at most one such row
    (`FindRowUnique`), so the choice does not matter.
   */
  function FindRow(rows: seq<Row>, email: Email): (r: Option<nat>)
    ensures r.Some? ==> r.value < |rows| && rows[r.value].email == email
    ensures r.Some? ==> forall j :: 0 <= j < r.value ==> rows[j].email != email
    ensures r.None? <==> !HasEmail(rows, email)
  {
    if rows == [] then None
    else if rows[0].email == email then Some(0)
    else match FindRow(rows[1..], email)
      case None => None
      case Some(k) => Some(k + 1)
  }

  /** Under UNIQUE(email), the row that carries an email is the one lookup finds. */
  lemma FindRowUnique(rows: seq<Row>, email: Email, i: nat)
    requires UniqueEmails(rows)
    requires i < |rows| && rows[i].email == email
    ensures FindRow(rows, email) == Some(i)
  {
  }

  /**
    `create_user(name, email, password)`: insert a row with a fresh id, the
    hash of the password and the current time.  A duplicate email violates
    the UNIQUE constraint, which fails the insert as a whole and is reported
    as `(False, "Email already exists.")`.
   */
  function CreateUser(t: Table, name: string, email: Email, password: string, salt: Salt, now: Timestamp): (r: CreateResult)
    ensures r.ok <==> !HasEmail(t.rows, email)
    ensures r.ok ==> r.msg == None
    ensures !r.ok ==> r.table == t && r.msg == Some(DuplicateEmailMessage)
    ensures r.ok ==> |r.table.rows| == |t.rows| + 1 && r.table.rows[..|t.rows|] == t.rows
    ensures r.ok ==> var row := r.table.rows[|t.rows|];
              && row.name == name && row.email == email && row.createdAt == now
              && Verify(password, row.passwordHash)
    ensures r.ok && IdsIssued(t) ==>
              forall i :: 0 <= i < |t.rows| ==> t.rows[i].id < r.table.rows[|t.rows|].id
    ensures Valid(t) ==> Valid(r.table)
  {
    if FindRow(t.rows, email).Some? then
      CreateResult(t, false, Some(DuplicateEmailMessage))
    else
      VerifyHash(password, password, salt);
      var id := t.lastId + 1;
      var row := Row(id, name, email, Hash(password, salt), now);
      var t' := Table(t.rows + [row], id);
      assert forall i :: 0 <= i < |t.rows| ==> t'.rows[i] == t.rows[i];
      assert t'.rows[..|t.rows|] == t.rows;
      CreateResult(t', true, None)
  }

  /**
    `verify_user(email, password)`: look the email up and check the password
    against the stored hash; the public identity on success, `None` otherwise
    (the same `None` whether the email is unknown or the password is wrong).
   */
  function VerifyUser(t: Table, email: Email, password: string): (r: Option<Identity>)
    ensures r.Some? ==> exists i :: 0 <= i < |t.rows| && t.rows[i].email == email
                          && Verify(password, t.rows[i].passwordHash) && r.value == IdentityOf(t.rows[i])
    ensures !HasEmail(t.rows, email) ==> r == None
    ensures UniqueEmails(t.rows) ==>
              (r.Some? <==> exists i :: 0 <= i < |t.rows| && t.rows[i].email == email
                                        && Verify(password, t.rows[i].passwordHash))
  {
    match FindRow(t.rows, email)
    case None => None
    case Some(i) =>
      if Verify(password, t.rows[i].passwordHash) then Some(IdentityOf(t.rows[i])) else None
  }

  /** `UPDATE users SET password_hash=? WHERE email=?` over a run of rows. */
  function SetHashWhere(rows: seq<Row>, email: Email, h: PasswordHash): (r: seq<Row>)
    ensures |r| == |rows|
    ensures forall i :: 0 <= i < |rows| ==>
              r[i] == if rows[i].email == email then rows[i].(passwordHash := h) else rows[i]
  {
    if rows == [] then []
    else [if rows[0].email == email then rows[0].(passwordHash := h) else rows[0]]
         + SetHashWhere(rows[1..], email, h)
  }

  /**
    `reset_password(email, new_password)`: replace the hash on the rows with
    this email by a hash of the new password.  No matching row means zero
    rows updated and nothing reported.
   */
  function ResetPassword(t: Table, email: Email, newPassword: string, salt: Salt): (r: Table)
    ensures r.lastId == t.lastId && |r.rows| == |t.rows|
    ensures forall i :: 0 <= i < |t.rows| ==> SameExceptHash(t.rows[i], r.rows[i])
    ensures forall i :: 0 <= i < |t.rows| && t.rows[i].email != email ==> r.rows[i] == t.rows[i]
    ensures forall i :: 0 <= i < |t.rows| && t.rows[i].email == email ==>
              Verify(newPassword, r.rows[i].passwordHash)
              && forall p :: Verify(p, r.rows[i].passwordHash) ==> p == newPassword
    ensures !HasEmail(t.rows, email) ==> r == t
    ensures Valid(t) ==> Valid(r)
  {
    var h := Hash(newPassword, salt);
    assert forall p :: Verify(p, h) <==> p == newPassword by {
      forall p ensures Verify(p, h) <==> p == newPassword {
        VerifyHash(p, newPassword, salt);
      }
    }
    var r := Table(SetHashWhere(t.rows, email, h), t.lastId);
    assert !HasEmail(t.rows, email) ==> r.rows == t.rows;
    r
  }
}
