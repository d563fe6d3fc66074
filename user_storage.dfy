/** The users table and the three queries the server runs on it: by id, by email
    (case-insensitively, through lower-casing) and insert. */
module UserStorage {
  import opened Wrappers
  import opened Text
  import opened Permissions

  /** Column widths of the users table: `email varchar(320)`, `firstName`/`lastName varchar(50)`. */
  const EmailMaxLength: nat := 320
  const NameMaxLength: nat := 50

  /** A row of the users table, password hash included. */
  datatype FullUser = FullUser(
    id: nat,
    email: string,
    password: string,
    firstName: string,
    lastName: string,
    role: Role,
    createdAt: nat)

  /** The public profile: the row without password and creation time. */
  datatype PublicUser = PublicUser(id: nat, email: string, firstName: string, lastName: string, role: Role)

  function ToPublic(u: FullUser): (p: PublicUser)
    ensures p.id == u.id && p.email == u.email && p.role == u.role
    ensures p.firstName == u.firstName && p.lastName == u.lastName
  {
    PublicUser(u.id, u.email, u.firstName, u.lastName, u.role)
  }

  /** The fields handed to `create`. Fields a request may leave out are optional; the
      password is always the stored form computed by the caller. */
  datatype InsertUser = InsertUser(
    email: Option<string>,
    password: string,
    firstName: Option<string>,
    lastName: Option<string>,
    role: Option<Role>)

  /** Why an insert is rejected: `toLowerCase` of a missing email throws before the
      database is reached; the database refuses over-long values, missing required
      columns and a second row with the same email. */
  datatype DbError = TypeError | ValueTooLong(column: string) | NotNullViolation(column: string)
                   | UniqueViolation(column: string)

  /** `SELECT ... WHERE id = $1`, first row. */
  function FindById(rows: seq<FullUser>, id: nat): (r: Option<FullUser>)
    ensures r.Some? ==> r.value in rows && r.value.id == id
    ensures r.None? ==> forall k :: 0 <= k < |rows| ==> rows[k].id != id
  {
    if rows == [] then None
    else if rows[0].id == id then Some(rows[0])
    else FindById(rows[1..], id)
  }

  /** `SELECT ... WHERE email = $1`, first row. */
  function FindByEmail(rows: seq<FullUser>, email: string): (r: Option<FullUser>)
    ensures r.Some? ==> r.value in rows && r.value.email == email
    ensures r.None? ==> forall k :: 0 <= k < |rows| ==> rows[k].email != email
  {
    if rows == [] then None
    else if rows[0].email == email then Some(rows[0])
    else FindByEmail(rows[1..], email)
  }

  /** `byEmail`: an empty or missing email finds nothing without a query; otherwise
      the row whose (lower-case) email equals the lowered argument. */
  function ByEmailQuery(rows: seq<FullUser>, email: Option<string>): (r: Option<FullUser>)
    ensures email.None? || email.value == [] ==> r.None?
    ensures r.Some? ==> r.value in rows && r.value.email == ToLower(email.value)
    ensures email.Some? && email.value != [] && r.None? ==>
              forall k :: 0 <= k < |rows| ==> rows[k].email != ToLower(email.value)
  {
    if email.None? || email.value == [] then None else FindByEmail(rows, ToLower(email.value))
  }

  /** The error an insert of `u` into `rows` raises, if any, in the order they arise:
      the JavaScript `toLowerCase` call, value conversion, NOT NULL, then the unique index. */
  function InsertError(rows: seq<FullUser>, u: InsertUser): (e: Option<DbError>)
    ensures e.None? <==>
              && u.email.Some? && |u.email.value| <= EmailMaxLength
              && u.firstName.Some? && |u.firstName.value| <= NameMaxLength
              && u.lastName.Some? && |u.lastName.value| <= NameMaxLength
              && FindByEmail(rows, ToLower(u.email.value)).None?
    ensures e == Some(UniqueViolation("email")) <==>
              && u.email.Some? && |u.email.value| <= EmailMaxLength
              && u.firstName.Some? && |u.firstName.value| <= NameMaxLength
              && u.lastName.Some? && |u.lastName.value| <= NameMaxLength
              && FindByEmail(rows, ToLower(u.email.value)).Some?
  {
    if u.email.None? then Some(TypeError)
    else if |u.email.value| > EmailMaxLength then Some(ValueTooLong("email"))
    else if u.firstName.Some? && |u.firstName.value| > NameMaxLength then Some(ValueTooLong("firstName"))
    else if u.lastName.Some? && |u.lastName.value| > NameMaxLength then Some(ValueTooLong("lastName"))
    else if u.firstName.None? then Some(NotNullViolation("firstName"))
    else if u.lastName.None? then Some(NotNullViolation("lastName"))
    else if FindByEmail(rows, ToLower(u.email.value)).Some? then Some(UniqueViolation("email"))
    else None
  }

  /** The table invariant: ids below the next serial value and pairwise distinct,
      emails stored lower-case and unique. */
  ghost predicate WellFormed(rows: seq<FullUser>, nextId: nat) {
    && (forall k :: 0 <= k < |rows| ==> rows[k].id < nextId && IsLowerCase(rows[k].email))
    && (forall j, k :: 0 <= j < k < |rows| ==> rows[j].id != rows[k].id && rows[j].email != rows[k].email)
  }

  class UserTable {
    var rows: seq<FullUser>
    var nextId: nat
    var clock: nat

    ghost predicate Valid()
      reads this
    {
      WellFormed(rows, nextId)
    }

    constructor ()
      ensures Valid() && rows == []
    {
      rows, nextId, clock := [], 1, 0;
    }

    /** `byId(id)`: the row with that id, or none. */
    method ById(id: nat) returns (u: Option<FullUser>)
      ensures u == FindById(rows, id)
      ensures u.Some? ==> u.value in rows && u.value.id == id
    {
      u := FindById(rows, id);
    }

    /** `byEmail(email)`. */
    method ByEmail(email: Option<string>) returns (u: Option<FullUser>)
      ensures u == ByEmailQuery(rows, email)
    {
      u := ByEmailQuery(rows, email);
    }

    /** `create(u)`: inserts one row with the email lowered, the role defaulted to
        DISTRIBUTOR and the next serial id and time; a rejected insert changes nothing. */
    method Create(u: InsertUser) returns (r: Result<FullUser, DbError>)
      requires Valid()
      modifies this
      ensures Valid()
      ensures r.Err? ==> InsertError(old(rows), u) == Some(r.error) && rows == old(rows)
      ensures r.Ok? ==> InsertError(old(rows), u) == None && rows == old(rows) + [r.value]
      ensures r.Ok? ==> && r.value.id == old(nextId) && r.value.id !in IdsOf(old(rows))
                        && r.value.email == ToLower(u.email.value)
                        && r.value.password == u.password
                        && r.value.firstName == u.firstName.value
                        && r.value.lastName == u.lastName.value
                        && r.value.role == u.role.GetOr(DISTRIBUTOR)
                        && r.value.createdAt == old(clock)
    {
      var err := InsertError(rows, u);
      if err.Some? {
        return Err(err.value);
      }
      var row := FullUser(nextId, ToLower(u.email.value), u.password, u.firstName.value,
                          u.lastName.value, u.role.GetOr(DISTRIBUTOR), clock);
      rows := rows + [row];
      nextId := nextId + 1;
      clock := clock + 1;
      r := Ok(row);
    }
  }

  function IdsOf(rows: seq<FullUser>): set<nat> {
    set k | 0 <= k < |rows| :: rows[k].id
  }

  /** `byEmail(e)` and `byEmail(e.toLowerCase())` give the same answer. */
  lemma ByEmailIgnoresCase(rows: seq<FullUser>, e: string)
    ensures ByEmailQuery(rows, Some(e)) == ByEmailQuery(rows, Some(ToLower(e)))
  {
    ToLowerIdempotent(e);
  }

  /** Looking up by email after appending a row: earlier rows win, then the new one. */
  lemma {:induction false} FindByEmailAppend(rows: seq<FullUser>, row: FullUser, e: string)
    ensures FindByEmail(rows + [row], e) ==
              if FindByEmail(rows, e).Some? then FindByEmail(rows, e)
              else if row.email == e then Some(row) else None
  {
    if rows != [] {
      assert (rows + [row])[1..] == rows[1..] + [row];
      FindByEmailAppend(rows[1..], row, e);
    }
  }

  /** Looking up by id after appending a row: earlier rows win, then the new one. */
  lemma {:induction false} FindByIdAppend(rows: seq<FullUser>, row: FullUser, id: nat)
    ensures FindById(rows + [row], id) ==
              if FindById(rows, id).Some? then FindById(rows, id)
              else if row.id == id then Some(row) else None
  {
    if rows != [] {
      assert (rows + [row])[1..] == rows[1..] + [row];
      FindByIdAppend(rows[1..], row, id);
    }
  }

  /** After a successful `create(u)`, `byEmail` with any casing of `u.email` that is
      not empty finds exactly the new row, and `byId` of its id finds it too. */
  lemma CreatedRowIsFound(rows: seq<FullUser>, nextId: nat, row: FullUser, e: string)
    requires WellFormed(rows, nextId)
    requires row.id == nextId
    requires FindByEmail(rows, row.email).None?
    requires e != [] && ToLower(e) == row.email
    ensures ByEmailQuery(rows + [row], Some(e)) == Some(row)
    ensures FindById(rows + [row], row.id) == Some(row)
  {
    FindByEmailAppend(rows, row, row.email);
    FindByIdAppend(rows, row, row.id);
  }

  /** In a well-formed table, `byId` of a row's id gives back that row: a session that
      stores only the id re-reads the same user. */
  lemma {:induction false} FindByIdOfRow(rows: seq<FullUser>, nextId: nat, k: nat)
    requires WellFormed(rows, nextId) && k < |rows|
    ensures FindById(rows, rows[k].id) == Some(rows[k])
  {
    if k > 0 {
      assert rows[0].id != rows[k].id;
      assert rows[1..][k - 1] == rows[k];
      FindByIdOfRow(rows[1..], nextId, k - 1);
    }
  }

  /** The unique index: an otherwise valid insert whose lowered email is already
      stored is rejected, whatever the casing of the new email. */
  lemma DuplicateEmailRejected(rows: seq<FullUser>, u: InsertUser, k: nat)
    requires k < |rows| && u.email.Some? && u.firstName.Some? && u.lastName.Some?
    requires |u.email.value| <= EmailMaxLength
    requires |u.firstName.value| <= NameMaxLength && |u.lastName.value| <= NameMaxLength
    requires rows[k].email == ToLower(u.email.value)
    ensures InsertError(rows, u) == Some(UniqueViolation("email"))
  {
  }
}
