/** app/routers/auth.py: signing up, logging in, and reading the current
    user. */
module AuthRouter {
  import opened Http
  import opened Text
  import Config
  import opened Models
  import opened Auth

  // ---------------------------------------------------------------------------
  // signup

  /** Adding a user whose lower-case email is not yet stored keeps the users
      table well formed, and registers exactly one more email. */
  lemma AddUserKeepsUsersWellFormed(users: map<int, User>, user: User)
    requires UsersWellFormed(users)
    requires user.id !in users
    requires IsLowerAscii(user.email)
    requires !EmailRegistered(users, user.email)
    ensures UsersWellFormed(users[user.id := user])
    ensures forall e :: EmailRegistered(users[user.id := user], e) <==> EmailRegistered(users, e) || e == user.email
  {
    var after := users[user.id := user];
    forall e | EmailRegistered(after, e)
      ensures EmailRegistered(users, e) || e == user.email
    {
      var id :| id in after && after[id].email == e;
      if id != user.id {
        assert users[id].email == e;
      }
    }
    forall e | EmailRegistered(users, e)
      ensures EmailRegistered(after, e)
    {
      var id :| id in users && users[id].email == e;
      assert after[id] == users[id];
    }
    assert after[user.id].email == user.email;
  }

  /** `signup`: a lower-cased email that is already stored is refused with 400
      and nothing changes; otherwise exactly one user is added, under a fresh
      id, with the lower-cased email and the hash of the password. */
  method Signup(db: Database, payload: UserCreate, now: int, hash: string -> string) returns (r: Result<User>)
    requires db.Valid()
    modifies db
    ensures db.Valid()
    ensures db.notes == old(db.notes) && db.nextNoteId == old(db.nextNoteId)
    ensures EmailRegistered(old(db.users), Lower(payload.email)) ==>
      && r == Err(EmailTaken)
      && db.users == old(db.users)
      && db.nextUserId == old(db.nextUserId)
    ensures !EmailRegistered(old(db.users), Lower(payload.email)) ==>
      && r == Ok(User(old(db.nextUserId), Lower(payload.email), hash(payload.password), now))
      && old(db.nextUserId) !in old(db.users)
      && db.users == old(db.users)[old(db.nextUserId) := r.value]
      && db.nextUserId == old(db.nextUserId) + 1
  {
    var email := Lower(payload.email);
    if EmailRegistered(db.users, email) {
      return Err(EmailTaken);
    }
    var user := User(db.nextUserId, email, hash(payload.password), now);
    LowerIsCanonical(payload.email, payload.email);
    AddUserKeepsUsersWellFormed(db.users, user);
    db.users := db.users[user.id := user];
    db.nextUserId := db.nextUserId + 1;
    r := Ok(user);
  }

  /** Signing up "a@x.com" and then "A@X.COM" on an empty database: the first
      succeeds, the second is refused as a duplicate. */
  method SignupTwiceWithCaseVariant(now: int, hash: string -> string)
    returns (first: Result<User>, second: Result<User>)
    ensures first.Ok? && first.value.email == "a@x.com"
    ensures second == Err(EmailTaken)
  {
    var db := new Database();
    first := Signup(db, UserCreate("a@x.com", "pw1"), now, hash);
    assert Lower("a@x.com") == "a@x.com";
    assert Lower("A@X.COM") == "a@x.com";
    second := Signup(db, UserCreate("A@X.COM", "pw2"), now, hash);
  }

  // ---------------------------------------------------------------------------
  // login

  /** The claims `login` passes to `create_access_token`. */
  function SubjectClaims(userId: int): Claims {
    map["sub" := JsonStr(IntToString(userId))]
  }

  /** `login`: 401 whenever `authenticate_user` finds nothing; otherwise a
      bearer token that encodes exactly the claims `sub = str(user.id)` and
      `exp = now + lifetime`. */
  function Login(users: map<int, User>, payload: UserLogin, now: int,
                 verify: (string, string) -> bool, encode: Claims -> string): (r: Result<Token>)
    requires UsersWellFormed(users)
    ensures r.Err? <==> AuthenticateUser(users, payload.email, payload.password, verify).None?
    ensures r.Err? ==> r.error == LoginFailed
    ensures r.Ok? ==>
      var user := AuthenticateUser(users, payload.email, payload.password, verify).value;
      && r.value.tokenType == "bearer"
      && r.value.accessToken == encode(map["sub" := JsonStr(IntToString(user.id)),
                                           "exp" := JsonInt(now + Config.AccessTokenExpirySeconds)])
  {
    match AuthenticateUser(users, payload.email, payload.password, verify)
    case None => Err(LoginFailed)
    case Some(user) => Ok(Token(CreateAccessToken(SubjectClaims(user.id), now, encode), "bearer"))
  }

  /** The token `login` issues resolves, through `get_current_user`, to the
      user who logged in, at any later time at which the codec still hands
      back the claims it signed (that is, before the token expires). */
  lemma LoginThenResolve(users: map<int, User>, payload: UserLogin, now: int, later: int,
                         verify: (string, string) -> bool, encode: Claims -> string,
                         decode: (string, int) -> Option<Claims>)
    requires UsersWellFormed(users)
    requires AuthenticateUser(users, payload.email, payload.password, verify).Some?
    requires var claims := AccessTokenClaims(
               SubjectClaims(AuthenticateUser(users, payload.email, payload.password, verify).value.id), now);
             decode(encode(claims), later) == Some(claims)
    ensures Login(users, payload, now, verify, encode).Ok?
    ensures GetCurrentUser(users, Login(users, payload, now, verify, encode).value.accessToken, later, decode)
            == Ok(AuthenticateUser(users, payload.email, payload.password, verify).value)
  {
    var user := AuthenticateUser(users, payload.email, payload.password, verify).value;
    var token := Login(users, payload, now, verify, encode).value.accessToken;
    assert token == encode(AccessTokenClaims(SubjectClaims(user.id), now));
    ResolveSubject(users, token, later, decode, user.id);
  }

  // ---------------------------------------------------------------------------
  // read_current_user

  /** `read_current_user`: answers with the user `get_current_user` resolved
      from the token, and with its error otherwise; nothing else is looked up. */
  function ReadCurrentUser(users: map<int, User>, token: string, now: int,
                           decode: (string, int) -> Option<Claims>): (r: Result<User>)
    requires UsersWellFormed(users)
    ensures r == GetCurrentUser(users, token, now, decode)
    ensures r.Ok? ==> r.value.id in users && users[r.value.id] == r.value
  {
    match GetCurrentUser(users, token, now, decode)
    case Err(e) => Err(e)
    case Ok(user) => Ok(user)
  }
}
