/** The authentication routes: register, login, logout and "who am I", the local
    strategy's credential check, and the session that stores only a user id. */
module Auth {
  import opened Wrappers
  import opened Text
  import opened Permissions
  import opened UserStorage
  import opened Password

  const EmailInUse: string := "Email already in use"
  const CredentialsRequired: string := "Email and password are required"
  const InvalidCredentials: string := "Invalid email or password"

  /** The server-side session: `serializeUser` stores the user's id and nothing else. */
  class Session {
    var userId: Option<nat>

    constructor ()
      ensures userId == None
    {
      userId := None;
    }
  }

  /** The fields of a register or login request body; a missing field is `None`. */
  datatype Body = Body(
    email: Option<string>,
    password: Option<string>,
    firstName: Option<string>,
    lastName: Option<string>,
    role: Option<Role>)

  /** What a handler sends: plain text, a `{message}` object, a user row, a bare status,
      or an error passed to `next(err)` (the framework then answers 500). */
  datatype Reply =
    | SendText(status: nat, text: string)
    | SendMessage(status: nat, message: string)
    | SendUser(status: nat, user: FullUser)
    | SendStatus(status: nat)
    | NextError

  /** `serializeUser`: the session keeps the id. */
  function Serialize(u: FullUser): nat { u.id }

  /** `deserializeUser`: the user is re-read by id on every request. */
  function Deserialize(rows: seq<FullUser>, id: nat): (u: Option<FullUser>)
    ensures u.Some? ==> u.value in rows && u.value.id == id
    ensures u.None? <==> forall k :: 0 <= k < |rows| ==> rows[k].id != id
  {
    FindById(rows, id)
  }

  /** Serializing a stored user and deserializing the id gives back the same row. */
  lemma SessionRoundTrip(rows: seq<FullUser>, nextId: nat, k: nat)
    requires WellFormed(rows, nextId) && k < |rows|
    ensures Deserialize(rows, Serialize(rows[k])) == Some(rows[k])
  {
    FindByIdOfRow(rows, nextId, k);
  }

  /** The principal of a request: the user whose id the session holds, if it still exists. */
  function CurrentUser(rows: seq<FullUser>, session: Option<nat>): Option<FullUser> {
    if session.None? then None else Deserialize(rows, session.value)
  }

  /** The local strategy's verify callback: `false` (here `Ok(None)`) for an unknown
      email or a wrong password, the user for a matching password, and an error when
      the stored form cannot be compared. */
  function VerifyCredentials(rows: seq<FullUser>, kdf: KeyDerivation, email: string, password: string)
    : (r: Result<Option<FullUser>, CompareError>)
    ensures ByEmailQuery(rows, Some(email)).None? ==> r == Ok(None)
    ensures r.Ok? && r.value.Some? <==>
              && ByEmailQuery(rows, Some(email)).Some?
              && ComparePasswords(kdf, password, ByEmailQuery(rows, Some(email)).value.password) == Ok(true)
    ensures r.Ok? && r.value.Some? ==> r.value == ByEmailQuery(rows, Some(email))
    ensures ByEmailQuery(rows, Some(email)).Some?
            && ComparePasswords(kdf, password, ByEmailQuery(rows, Some(email)).value.password) == Ok(false) ==>
              r == Ok(None)
    ensures ByEmailQuery(rows, Some(email)).Some?
            && ComparePasswords(kdf, password, ByEmailQuery(rows, Some(email)).value.password).Err? ==>
              r == Err(ComparePasswords(kdf, password, ByEmailQuery(rows, Some(email)).value.password).error)
  {
    var user := ByEmailQuery(rows, Some(email));
    if user.None? then Ok(None)
    else
      match ComparePasswords(kdf, password, user.value.password)
      case Err(e) => Err(e)
      case Ok(same) => if same then Ok(user) else Ok(None)
  }

  /** A user registered with a non-empty email and a password then passes the local
      strategy with any casing of that email and the same password. */
  lemma RegisteredUserCanLogIn(rows: seq<FullUser>, nextId: nat, row: FullUser, kdf: KeyDerivation,
                               email: string, password: string, salt: seq<byte>)
    requires WellFormed(rows, nextId) && row.id == nextId
    requires FindByEmail(rows, row.email).None?
    requires email != [] && row.email == ToLower(email) && |salt| == SaltLength
    requires row.password == HashPassword(kdf, password, salt)
    ensures VerifyCredentials(rows + [row], kdf, email, password) == Ok(Some(row))
  {
    CreatedRowIsFound(rows, nextId, row, email);
    HashThenCompare(kdf, password, salt);
  }

  /** A stored user whose hashed password was made from another password that the KDF
      tells apart is refused by the local strategy, which Login answers with 401. */
  lemma WrongPasswordRejected(rows: seq<FullUser>, kdf: KeyDerivation, email: string,
                              supplied: string, password: string, salt: seq<byte>)
    requires |salt| == SaltLength
    requires ByEmailQuery(rows, Some(email)).Some?
    requires ByEmailQuery(rows, Some(email)).value.password == HashPassword(kdf, password, salt)
    requires kdf(supplied, HexEncode(salt)) != kdf(password, HexEncode(salt))
    ensures VerifyCredentials(rows, kdf, email, supplied) == Ok(None)
  {
    CompareAgainstHash(kdf, supplied, password, salt);
  }

  /** POST /api/register. The salt stands for `randomBytes(16)`. */
  method Register(users: UserTable, session: Session, kdf: KeyDerivation, salt: seq<byte>, body: Body)
    returns (reply: Reply)
    requires users.Valid() && |salt| == SaltLength
    modifies users, session
    ensures users.Valid()
    ensures ByEmailQuery(old(users.rows), body.email).Some? ==>
              reply == SendText(400, EmailInUse) && users.rows == old(users.rows)
              && session.userId == old(session.userId)
    ensures ByEmailQuery(old(users.rows), body.email).None? && body.password.None? ==>
              reply == NextError && users.rows == old(users.rows) && session.userId == old(session.userId)
    ensures reply.SendUser? ==>
              && reply.status == 201 && body.email.Some? && body.password.Some?
              && users.rows == old(users.rows) + [reply.user]
              && reply.user.password == HashPassword(kdf, body.password.value, salt)
              && reply.user.email == ToLower(body.email.value)
              && reply.user.role == body.role.GetOr(DISTRIBUTOR)
              && body.firstName.Some? && reply.user.firstName == body.firstName.value
              && body.lastName.Some? && reply.user.lastName == body.lastName.value
              && reply.user.id == old(users.nextId)
              && session.userId == Some(reply.user.id)
    ensures !reply.SendUser? ==> users.rows == old(users.rows) && session.userId == old(session.userId)
    ensures reply.SendText? || reply.SendUser? || reply.NextError?
    ensures ByEmailQuery(old(users.rows), body.email).None? && body.password.Some?
            && InsertError(old(users.rows), InsertUser(body.email, HashPassword(kdf, body.password.value, salt),
                                                       body.firstName, body.lastName, body.role)).None? ==>
              reply.SendUser? && reply.status == 201
    ensures reply.NextError? <==>
              && ByEmailQuery(old(users.rows), body.email).None?
              && (body.password.None? ||
                  InsertError(old(users.rows), InsertUser(body.email, HashPassword(kdf, body.password.value, salt),
                                                          body.firstName, body.lastName, body.role)).Some?)
  {
    var existing := users.ByEmail(body.email);
    if existing.Some? {
      return SendText(400, EmailInUse);
    }
    if body.password.None? {
      return NextError;
    }
    var hashed := HashPassword(kdf, body.password.value, salt);
    var created := users.Create(InsertUser(body.email, hashed, body.firstName, body.lastName, body.role));
    if created.Err? {
      return NextError;
    }
    session.userId := Some(Serialize(created.value));
    reply := SendUser(201, created.value);
  }

  /** POST /api/login. */
  method Login(users: UserTable, session: Session, kdf: KeyDerivation, body: Body) returns (reply: Reply)
    modifies session
    ensures body.email.None? || body.email.value == [] || body.password.None? || body.password.value == [] ==>
              reply == SendMessage(400, CredentialsRequired)
    ensures body.email.Some? && body.email.value != [] && body.password.Some? && body.password.value != [] ==>
              match VerifyCredentials(users.rows, kdf, body.email.value, body.password.value)
              case Err(_) => reply == NextError
              case Ok(None) => reply == SendMessage(401, InvalidCredentials)
              case Ok(Some(u)) => reply == SendUser(200, u)
    ensures reply.SendUser? ==> session.userId == Some(reply.user.id)
    ensures !reply.SendUser? ==> session.userId == old(session.userId)
  {
    if body.email.None? || body.email.value == [] || body.password.None? || body.password.value == [] {
      return SendMessage(400, CredentialsRequired);
    }
    var userExists := users.ByEmail(body.email);
    if userExists.None? {
      return SendMessage(401, InvalidCredentials);
    }
    var verdict := VerifyCredentials(users.rows, kdf, body.email.value, body.password.value);
    match verdict
    case Err(_) =>
      reply := NextError;
    case Ok(user) =>
      if user.None? {
        reply := SendMessage(401, InvalidCredentials);
      } else {
        session.userId := Some(Serialize(user.value));
        reply := SendUser(200, user.value);
      }
  }

  /** POST /api/logout: the session forgets the user; doing it twice is no error. */
  method Logout(session: Session) returns (reply: Reply)
    modifies session
    ensures session.userId == None && reply == SendStatus(200)
  {
    session.userId := None;
    reply := SendStatus(200);
  }

  /** GET /api/user: 401 without a principal, otherwise the full row with status 200. */
  method WhoAmI(users: UserTable, session: Session) returns (reply: Reply)
    ensures CurrentUser(users.rows, session.userId).None? <==> reply == SendStatus(401)
    ensures CurrentUser(users.rows, session.userId).Some? ==>
              reply == SendUser(200, CurrentUser(users.rows, session.userId).value)
  {
    var user := CurrentUser(users.rows, session.userId);
    if user.None? {
      return SendStatus(401);
    }
    reply := SendUser(200, user.value);
  }
}
