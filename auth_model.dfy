/**
 * The user table and the authentication operations of server/models/authModel.js.
 *
 * The Postgres table becomes an in-memory map from id to row held by a Store
 * object; bcrypt and jsonwebtoken become the Hasher and Codec values passed in.
 * Each call is one atomic step.
 */
module AuthModel {
  import opened Wrappers

  type UserId = nat
  type Timestamp = nat
  type Salt = string
  type Token = string

  /** One row of `users`: the DDL's columns plus the `password` column the INSERT writes. */
  datatype Row = Row(id: UserId, name: string, email: string, passwordHash: string, createdAt: Timestamp)

  /** A row with the password column removed: the only user shape ever returned. */
  datatype PublicUser = PublicUser(id: UserId, name: string, email: string, createdAt: Timestamp)

  function Sanitize(row: Row): (user: PublicUser)
    ensures user.id == row.id && user.name == row.name && user.email == row.email
    ensures user.createdAt == row.createdAt
  {
    PublicUser(row.id, row.name, row.email, row.createdAt)
  }

  /** The errors thrown by the model functions, one per distinct message. */
  datatype AuthError = UserExists | InvalidCredentials | InvalidToken | UserNotFound

  function Message(e: AuthError): (text: string) {
    match e
    case UserExists => "User already exists with this email"
    case InvalidCredentials => "Invalid email or password"
    case InvalidToken => "Invalid or expired token"
    case UserNotFound => "User not found"
  }

  // ---------------------------------------------------------------------------
  // Collaborators: the password hasher (bcrypt) and the token codec (jsonwebtoken)
  // ---------------------------------------------------------------------------

  /** bcrypt: `hash(password, salt)` and `compare(password, hash)`. */
  datatype Hasher = Hasher(hash: (string, Salt) -> string, compare: (string, string) -> bool)

  /** A password always matches its own hash, whatever salt was drawn. */
  ghost predicate HasherSound(h: Hasher) {
    forall p, s :: h.compare(p, h.hash(p, s))
  }

  /** The payload `{ id }` signed by generateToken. */
  datatype Claims = Claims(id: UserId)

  /** The failures jwt.verify can raise. */
  datatype CodecError = Malformed | BadSignature | Expired | NotYetActive

  /**
   * jsonwebtoken with the process-wide secret and expiry fixed: `sign` issues a
   * token for an id, `decode` verifies one at the moment of the call.
   */
  datatype Codec = Codec(sign: UserId -> Token, decode: Token -> Result<Claims, CodecError>)

  /** A freshly issued token verifies and carries the id it was issued for. */
  ghost predicate CodecSound(c: Codec) {
    forall id :: c.decode(c.sign(id)) == Ok(Claims(id))
  }

  /** Issued tokens are non-empty and contain no space (the compact JWT form). */
  ghost predicate WireSafe(c: Codec) {
    forall id :: c.sign(id) != "" && ' ' !in c.sign(id)
  }

  // ---------------------------------------------------------------------------
  // The user table
  // ---------------------------------------------------------------------------

  type Table = map<UserId, Row>

  /** The UNIQUE constraint on `email`. */
  ghost predicate EmailsUnique(t: Table) {
    forall a, b :: a in t && b in t && t[a].email == t[b].email ==> a == b
  }

  /** Rows are stored under their own id, ids come from the SERIAL sequence, emails are unique. */
  ghost predicate TableValid(t: Table, nextId: UserId) {
    && 1 <= nextId
    && (forall id :: id in t ==> t[id].id == id && 1 <= id < nextId)
    && EmailsUnique(t)
  }

  /** `SELECT * FROM users WHERE email = $1` returns at least one row. */
  predicate EmailTaken(t: Table, email: string): (b: bool)
    ensures b <==> email in (set row | row in t.Values :: row.email)
  {
    exists id :: id in t && t[id].email == email
  }

  /** `SELECT * FROM users WHERE email = $1`, first row. */
  function FindByEmail(t: Table, email: string): (r: Option<Row>)
    requires EmailsUnique(t)
    ensures r.Some? <==> EmailTaken(t, email)
    ensures r.Some? ==> r.value.email == email && exists id :: id in t && t[id] == r.value
  {
    if EmailTaken(t, email) then
      var id :| id in t && t[id].email == email;
      Some(t[id])
    else None
  }

  /** The row RegisterUser inserts for a fresh email. */
  function NewRow(nextId: UserId, name: string, email: string, password: string, h: Hasher, salt: Salt, now: Timestamp): (row: Row) {
    Row(nextId, name, email, h.hash(password, salt), now)
  }

  class Store {
    var rows: Table
    var nextId: UserId

    ghost predicate Valid()
      reads this
    {
      TableValid(rows, nextId)
    }

    /** An empty `users` table whose SERIAL sequence starts at 1. */
    constructor ()
      ensures Valid() && rows == map[] && nextId == 1
    {
      rows := map[];
      nextId := 1;
    }

    /**
     * registerUser: reject a taken email, otherwise insert a row carrying the
     * salted hash and return it without the password column. `salt` stands for
     * bcrypt.genSalt's random draw and `now` for the column default NOW().
     */
    method RegisterUser(name: string, email: string, password: string, h: Hasher, salt: Salt, now: Timestamp)
      returns (r: Result<PublicUser, AuthError>)
      requires Valid()
      modifies this
      ensures Valid()
      ensures EmailTaken(old(rows), email) ==>
        r == Err(UserExists) && rows == old(rows) && nextId == old(nextId)
      ensures r.Err? ==> Message(r.error) == "User already exists with this email"
      ensures !EmailTaken(old(rows), email) ==>
        && r == Ok(PublicUser(old(nextId), name, email, now))
        && rows == old(rows)[old(nextId) := NewRow(old(nextId), name, email, password, h, salt, now)]
        && nextId == old(nextId) + 1
    {
      if EmailTaken(rows, email) {
        return Err(UserExists);
      }
      var hashedPassword := h.hash(password, salt);
      var id := nextId;
      rows := rows[id := Row(id, name, email, hashedPassword, now)];
      nextId := nextId + 1;
      r := Ok(Sanitize(rows[id]));
    }
  }

  /**
   * loginUser: an unknown email and a wrong password fail with the same error;
   * success returns the matching row without its password.
   */
  function LoginUser(t: Table, email: string, password: string, h: Hasher): (r: Result<PublicUser, AuthError>)
    requires EmailsUnique(t)
    ensures r.Err? ==> r.error == InvalidCredentials && Message(r.error) == "Invalid email or password"
    ensures !EmailTaken(t, email) ==> r == Err(InvalidCredentials)
    ensures r.Ok? <==> exists id :: id in t && t[id].email == email && h.compare(password, t[id].passwordHash)
    ensures r.Ok? ==> exists id :: id in t && t[id].email == email && r.value == Sanitize(t[id])
  {
    match FindByEmail(t, email)
    case None => Err(InvalidCredentials)
    case Some(user) =>
      if h.compare(password, user.passwordHash) then Ok(Sanitize(user))
      else Err(InvalidCredentials)
  }

  /** generateToken: a token that verifies, under a sound codec, to the id it was issued for. */
  function GenerateToken(c: Codec, userId: UserId): (token: Token)
    ensures CodecSound(c) ==> VerifyToken(c, token) == Ok(Claims(userId))
  {
    c.sign(userId)
  }

  /** verifyToken: every codec failure becomes the one error InvalidToken. */
  function VerifyToken(c: Codec, token: Token): (r: Result<Claims, AuthError>)
    ensures r.Err? <==> c.decode(token).Err?
    ensures r.Err? ==> r.error == InvalidToken && Message(r.error) == "Invalid or expired token"
    ensures r.Ok? ==> r.value == c.decode(token).value
  {
    match c.decode(token)
    case Ok(claims) => Ok(claims)
    case Err(_) => Err(InvalidToken)
  }

  /** getUserById: the row's public columns, or UserNotFound when the id is absent. */
  function GetUserById(t: Table, id: UserId): (r: Result<PublicUser, AuthError>)
    ensures r.Err? <==> id !in t
    ensures r.Err? ==> r.error == UserNotFound && Message(r.error) == "User not found"
    ensures r.Ok? ==> r.value == Sanitize(t[id])
  {
    if id in t then Ok(Sanitize(t[id])) else Err(UserNotFound)
  }

  // ---------------------------------------------------------------------------
  // Properties across operations
  // ---------------------------------------------------------------------------

  /** The public view of a row does not depend on its password column. */
  lemma SanitizeHidesPassword(row: Row, otherHash: string)
    ensures Sanitize(row.(passwordHash := otherHash)) == Sanitize(row)
  {
  }

  /** Registering keeps the table valid, and the new user can log in with the password just given. */
  lemma RegisterThenLogin(t: Table, nextId: UserId, name: string, email: string, password: string,
                          h: Hasher, salt: Salt, now: Timestamp)
    requires TableValid(t, nextId) && !EmailTaken(t, email) && HasherSound(h)
    ensures var t' := t[nextId := NewRow(nextId, name, email, password, h, salt, now)];
      && TableValid(t', nextId + 1)
      && LoginUser(t', email, password, h) == Ok(PublicUser(nextId, name, email, now))
  {
    var t' := t[nextId := NewRow(nextId, name, email, password, h, salt, now)];
    assert TableValid(t', nextId + 1);
    assert t'[nextId].email == email;
    var found := FindByEmail(t', email);
    var id :| id in t' && t'[id] == found.value;
    assert id == nextId;
    assert h.compare(password, h.hash(password, salt));
  }

  /** Registering does not change the outcome of logging in with any other email. */
  lemma RegisterKeepsOtherLogins(t: Table, nextId: UserId, name: string, email: string, password: string,
                                 h: Hasher, salt: Salt, now: Timestamp, other: string, otherPassword: string)
    requires TableValid(t, nextId) && !EmailTaken(t, email) && other != email
    ensures var t' := t[nextId := NewRow(nextId, name, email, password, h, salt, now)];
      && EmailsUnique(t')
      && LoginUser(t', other, otherPassword, h) == LoginUser(t, other, otherPassword, h)
  {
    var t' := t[nextId := NewRow(nextId, name, email, password, h, salt, now)];
    assert EmailsUnique(t');
    if EmailTaken(t', other) {
      var k :| k in t' && t'[k].email == other;
      assert k in t && t[k].email == other;
    }
    if EmailTaken(t, other) {
      var a := FindByEmail(t, other).value;
      var ia :| ia in t && t[ia] == a;
      assert ia in t' && t'[ia].email == other;
      var b := FindByEmail(t', other).value;
      var ib :| ib in t' && t'[ib] == b;
      assert ib != nextId;
      assert ia == ib;
    }
  }

  /** Once registered, the new row is what getUserById returns for the issued id; other ids are unaffected. */
  lemma RegisterThenGetUser(t: Table, nextId: UserId, name: string, email: string, password: string,
                            h: Hasher, salt: Salt, now: Timestamp, id: UserId)
    ensures var t' := t[nextId := NewRow(nextId, name, email, password, h, salt, now)];
      GetUserById(t', id) == if id == nextId then Ok(PublicUser(nextId, name, email, now)) else GetUserById(t, id)
  {
  }
}
