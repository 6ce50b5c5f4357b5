/** app/auth.py: issuing access tokens, checking credentials, and turning a
    bearer token into the user it names.

    The password hasher and the JWT codec are libraries outside the model:
    they are passed in as functions. `verify(plain, hashed)` stands for the
    hasher's check; `encode(claims)` for signing a claim set with the server's
    secret key; `decode(token, now)` for checking a token's signature and
    expiry at time `now` and returning its claims, or `None` where the codec
    raises `JWTError`. */
module Auth {
  import opened Http
  import opened Text
  import Config
  import opened Models

  /** The JSON values a claim may hold, as far as the code inspects them. */
  datatype ClaimValue = JsonNull | JsonStr(s: string) | JsonInt(i: int)

  type Claims = map<string, ClaimValue>

  // ---------------------------------------------------------------------------
  // create_access_token

  /** The claim set `create_access_token` signs: a copy of the caller's claims
      with `exp` set to `now` plus the configured lifetime. */
  function AccessTokenClaims(data: Claims, now: int): (c: Claims)
    ensures c.Keys == data.Keys + {"exp"}
    ensures c["exp"] == JsonInt(now + Config.AccessTokenExpirySeconds)
    ensures forall k :: k in data && k != "exp" ==> c[k] == data[k]
  {
    data["exp" := JsonInt(now + Config.AccessTokenExpirySeconds)]
  }

  function CreateAccessToken(data: Claims, now: int, encode: Claims -> string): string {
    encode(AccessTokenClaims(data, now))
  }

  // ---------------------------------------------------------------------------
  // authenticate_user

  /** The user stored under `email`; the unique index on `email` makes it the
      only one. */
  function FindUserByEmail(users: map<int, User>, email: string): (r: Option<User>)
    requires UsersWellFormed(users)
    ensures r.Some? <==> EmailRegistered(users, email)
    ensures r.Some? ==> r.value.id in users && users[r.value.id] == r.value && r.value.email == email
  {
    if exists id :: id in users && users[id].email == email then
      var id :| id in users && users[id].email == email;
      Some(users[id])
    else None
  }

  /** `authenticate_user`: the user registered under the lower-cased email if
      the password checks out against the stored hash, and `None` otherwise,
      whether the email is unknown or the password wrong. */
  function AuthenticateUser(users: map<int, User>, email: string, password: string,
                            verify: (string, string) -> bool): (r: Option<User>)
    requires UsersWellFormed(users)
    ensures r.Some? <==>
      exists id :: id in users && users[id].email == Lower(email) && verify(password, users[id].hashedPassword)
    ensures r.Some? ==>
      && r.value.id in users && users[r.value.id] == r.value
      && r.value.email == Lower(email)
      && verify(password, r.value.hashedPassword)
  {
    match FindUserByEmail(users, Lower(email))
    case None => None
    case Some(user) => if verify(password, user.hashedPassword) then Some(user) else None
  }

  /** Emails that differ only in the case of their letters authenticate the
      same way. */
  lemma AuthenticateIgnoresCase(users: map<int, User>, email: string, other: string, password: string,
                                verify: (string, string) -> bool)
    requires UsersWellFormed(users)
    requires Lower(email) == Lower(other)
    ensures AuthenticateUser(users, email, password, verify) == AuthenticateUser(users, other, password, verify)
    ensures AuthenticateUser(users, email, password, verify) == AuthenticateUser(users, Lower(email), password, verify)
  {
    LowerIsCanonical(email, other);
  }

  // ---------------------------------------------------------------------------
  // get_current_user

  /** `int(payload.get("sub"))`: `None` where the claim is missing or null
      (the explicit check) or where `int()` raises `ValueError`. */
  function SubjectId(payload: Claims): (r: Option<int>)
    ensures r.Some? ==> "sub" in payload && payload["sub"] != JsonNull
    ensures "sub" in payload && payload["sub"].JsonInt? ==> r == Some(payload["sub"].i)
    ensures "sub" in payload && payload["sub"].JsonStr? ==> r == ParseInt(payload["sub"].s)
  {
    if "sub" !in payload then None
    else
      match payload["sub"]
      case JsonNull => None
      case JsonStr(s) => ParseInt(s)
      case JsonInt(i) => Some(i)
  }

  /** `get_current_user`: every failure, whether the token does not decode,
      has no subject, has a subject that is not an integer, or names no user,
      is the one 401 credentials error; on success the user is the one whose
      id the subject gives. */
  function GetCurrentUser(users: map<int, User>, token: string, now: int,
                          decode: (string, int) -> Option<Claims>): (r: Result<User>)
    requires UsersWellFormed(users)
    ensures r.Err? ==> r.error == CredentialsError
    ensures r.Ok? ==>
      && decode(token, now).Some?
      && SubjectId(decode(token, now).value) == Some(r.value.id)
      && r.value.id in users && users[r.value.id] == r.value
    ensures
      (&& decode(token, now).Some?
       && SubjectId(decode(token, now).value).Some?
       && SubjectId(decode(token, now).value).value in users)
      ==> r.Ok?
  {
    match decode(token, now)
    case None => Err(CredentialsError)
    case Some(payload) =>
      match SubjectId(payload)
      case None => Err(CredentialsError)
      case Some(userId) => if userId in users then Ok(users[userId]) else Err(CredentialsError)
  }

  /** The four ways `get_current_user` fails, one by one: each gives the same
      credentials error, so a caller cannot tell them apart. */
  lemma GetCurrentUserFailures(users: map<int, User>, token: string, now: int,
                               decode: (string, int) -> Option<Claims>)
    requires UsersWellFormed(users)
    ensures decode(token, now).None? ==>
      GetCurrentUser(users, token, now, decode) == Err(CredentialsError)
    ensures decode(token, now).Some? ==>
      var payload := decode(token, now).value;
      && ("sub" !in payload ==> GetCurrentUser(users, token, now, decode) == Err(CredentialsError))
      && ("sub" in payload && payload["sub"] == JsonNull ==>
            GetCurrentUser(users, token, now, decode) == Err(CredentialsError))
      && ("sub" in payload && payload["sub"].JsonStr? && ParseInt(payload["sub"].s).None? ==>
            GetCurrentUser(users, token, now, decode) == Err(CredentialsError))
      && (SubjectId(payload).Some? && SubjectId(payload).value !in users ==>
            GetCurrentUser(users, token, now, decode) == Err(CredentialsError))
  {
  }

  /** A token whose claims carry `sub = str(id)` of a stored user resolves to
      that user. */
  lemma ResolveSubject(users: map<int, User>, token: string, now: int,
                       decode: (string, int) -> Option<Claims>, id: int)
    requires UsersWellFormed(users)
    requires decode(token, now).Some?
    requires "sub" in decode(token, now).value
    requires decode(token, now).value["sub"] == JsonStr(IntToString(id))
    requires id in users
    ensures GetCurrentUser(users, token, now, decode) == Ok(users[id])
  {
    ParseIntOfIntToString(id);
  }
}
