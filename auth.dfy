/** The session and credential lifecycle: sign-up, login, token refresh and
    logout as a small state machine over each user's stored refresh token,
    and the public-handle allocator used by sign-up.

    bcrypt is an ideal hash (`Hash`, `VerifyPassword`). Signing a JWT and
    verifying one depend on secrets and the clock, so the tokens a call
    issues and the outcome of verifying the presented token are parameters. */
module Auth {
  import opened Common
  import opened Db
  import opened Ascii
  import opened Handles

  const MsgEmailTaken := "User with this email already exists"
  const MsgInvalidCredentials := "Invalid credentials"
  const MsgTokenMissing := "Refresh token is missing"
  const MsgInvalidRefresh := "Invalid refresh token"
  const MsgInvalidOrExpired := "Invalid or expired refresh token"
  const MsgLoggedOut := "Logged out successfully"
  const MsgResetSent := "If user exists, password reset email sent"

  const AccessCookie := "access_token"
  const RefreshCookie := "refresh_token"
  /** 15 minutes, in milliseconds. */
  const AccessMaxAge: nat := 15 * 60 * 1000
  /** 7 days, in milliseconds. */
  const RefreshMaxAge: nat := 7 * 24 * 60 * 60 * 1000

  /** `bcrypt.hash(password, 10)`, with cost and salt left out. */
  function Hash(password: string): PasswordHash {
    PasswordHash(password)
  }

  /** `bcrypt.compare(password, hash)` */
  predicate VerifyPassword(password: string, hash: PasswordHash) {
    hash == Hash(password)
  }

  /** A stored hash accepts exactly the password it was made from. */
  lemma VerifyPasswordExact(password: string, other: string)
    ensures VerifyPassword(other, Hash(password)) <==> other == password
  {
  }

  /** The access and refresh tokens `generateTokens` signs for a user. */
  datatype Tokens = Tokens(accessToken: string, refreshToken: string)

  /** What verifying the presented refresh token yields: its subject, or
      the error `jwtService.verify` throws (bad signature, expired, ...). */
  datatype Verification = Verified(sub: Id) | Rejected(reason: Error)

  datatype SameSite = Strict | Lax

  datatype CookieOp =
    | SetCookie(name: string, value: string, httpOnly: bool, secure: bool, sameSite: SameSite, maxAge: nat)
    | ClearCookie(name: string)

  /** The user fields every authentication response carries. */
  datatype AuthUser = AuthUser(id: Id, email: string, name: Option<string>, publicHandle: string)

  datatype Session = Session(user: AuthUser, cookies: seq<CookieOp>)

  datatype Reply = Reply(message: string, cookies: seq<CookieOp>)

  function AuthUserOf(u: User): (r: AuthUser)
    ensures r.id == u.id && r.email == u.email && r.name == u.name && r.publicHandle == u.publicHandle
  {
    AuthUser(u.id, u.email, u.name, u.publicHandle)
  }

  /** `setCookies`: the issued tokens under their two names, never
      readable from scripts, secure and same-site strict exactly in
      production (lax otherwise); the refresh cookie lives 672 times as long
      as the access cookie (7 days against 15 minutes). */
  function SetCookies(production: bool, tokens: Tokens): (c: seq<CookieOp>)
    ensures |c| == 2
    ensures c[0].SetCookie? && c[0].name == AccessCookie && c[0].value == tokens.accessToken
    ensures c[1].SetCookie? && c[1].name == RefreshCookie && c[1].value == tokens.refreshToken
    ensures forall i :: 0 <= i < |c| ==>
      c[i].SetCookie? && c[i].httpOnly && c[i].secure == production && (c[i].sameSite == Strict <==> production)
    ensures c[0].maxAge == 900000 && c[1].maxAge == 604800000 && c[1].maxAge == 672 * c[0].maxAge
  {
    var sameSite := if production then Strict else Lax;
    [ SetCookie(AccessCookie, tokens.accessToken, true, production, sameSite, AccessMaxAge),
      SetCookie(RefreshCookie, tokens.refreshToken, true, production, sameSite, RefreshMaxAge) ]
  }

  /** `clearCookies` */
  function ClearCookies(): seq<CookieOp> {
    [ClearCookie(AccessCookie), ClearCookie(RefreshCookie)]
  }

  /** Logout clears exactly the two cookies a session sets, whatever the
      environment and the tokens. */
  lemma CookieProperties(production: bool, tokens: Tokens)
    ensures |ClearCookies()| == |SetCookies(production, tokens)|
    ensures forall i :: 0 <= i < |ClearCookies()| ==>
      ClearCookies()[i].ClearCookie? && ClearCookies()[i].name == SetCookies(production, tokens)[i].name
  {
  }

  /** `user` with its stored refresh token replaced (`updateRefreshToken`). */
  function WithRefreshToken(users: map<Id, User>, id: Id, token: Option<string>): (r: map<Id, User>)
    requires id in users
    ensures r.Keys == users.Keys
    ensures r[id].refreshToken == token
    ensures forall k :: k in users ==> r[k] == (if k == id then users[k].(refreshToken := token) else users[k])
  {
    users[id := users[id].(refreshToken := token)]
  }

  /** Replacing a refresh token keeps emails and handles, so the table's
      invariant survives it. */
  lemma WithRefreshTokenValid(t: Tables, id: Id, token: Option<string>)
    requires t.Valid() && id in t.users
    ensures t.(users := WithRefreshToken(t.users, id, token)).Valid()
  {
    var u := WithRefreshToken(t.users, id, token);
    assert forall k :: k in u ==> u[k].email == t.users[k].email && u[k].publicHandle == t.users[k].publicHandle;
  }

  /** The checks of `login`: the user with that e-mail, if it has a password
      hash that accepts the password. Every failure is the same
      "Invalid credentials", so the reply does not tell which check failed. */
  function LoginCheck(users: map<Id, User>, email: string, password: string): (r: Result<Id>)
    requires EmailsUnique(users)
    ensures r.Ok? <==>
      exists id :: id in users && users[id].email == email
        && users[id].passwordHash.Some? && VerifyPassword(password, users[id].passwordHash.value)
    ensures r.Ok? ==> r.value in users && users[r.value].email == email
    ensures r.Err? ==> r.error == Unauthorized(MsgInvalidCredentials)
  {
    match UserByEmail(users, email)
    case None => Err(Unauthorized(MsgInvalidCredentials))
    case Some(id) =>
      var user := users[id];
      if user.passwordHash.None? then Err(Unauthorized(MsgInvalidCredentials))
      else if !VerifyPassword(password, user.passwordHash.value) then Err(Unauthorized(MsgInvalidCredentials))
      else Ok(id)
  }

  /** A user without its password hash: what `validateUser`, `getMe` and
      `updateMe` hand out. */
  datatype Account = Account(
    id: Id,
    email: string,
    refreshToken: Option<string>,
    publicHandle: string,
    name: Option<string>,
    headline: Option<string>,
    avatarUrl: Option<string>,
    locale: Option<string>)

  function WithoutHash(u: User): Account {
    Account(u.id, u.email, u.refreshToken, u.publicHandle, u.name, u.headline, u.avatarUrl, u.locale)
  }

  /** Stripping the hash loses the hash and nothing else: two users give the
      same account exactly when they differ at most in their hash. */
  lemma WithoutHashForgetsOnlyHash(u: User, v: User)
    ensures WithoutHash(u) == WithoutHash(v) <==> u == v.(passwordHash := u.passwordHash)
  {
  }

  /** `validateUser`: the account of the user whose hash accepts the
      password, or nothing. */
  function ValidateUser(users: map<Id, User>, email: string, password: string): (r: Option<Account>)
    requires EmailsUnique(users)
    ensures r.Some? ==> exists id :: id in users && r.value == WithoutHash(users[id]) && users[id].email == email
  {
    match UserByEmail(users, email)
    case Some(id) =>
      var user := users[id];
      if user.passwordHash.Some? && VerifyPassword(password, user.passwordHash.value)
      then Some(WithoutHash(user))
      else None
    case None => None
  }

  /** `validateUser` accepts exactly the credentials `login` accepts, and
      returns the account of the same user. */
  lemma ValidateUserAgreesWithLogin(users: map<Id, User>, email: string, password: string)
    requires EmailsUnique(users)
    ensures ValidateUser(users, email, password).Some? <==> LoginCheck(users, email, password).Ok?
    ensures LoginCheck(users, email, password).Ok? ==>
      ValidateUser(users, email, password) == Some(WithoutHash(users[LoginCheck(users, email, password).value]))
  {
  }

  /** `forgotPassword`: the same message whether or not the address is
      registered. */
  function ForgotPassword(users: map<Id, User>, email: string): (r: string)
    requires EmailsUnique(users)
    ensures r == MsgResetSent
  {
    match UserByEmail(users, email)
    case None => MsgResetSent
    case Some(_) => MsgResetSent
  }

  /** The checks of `refresh` that run inside its `try` block, before the
      catch clause rewrites the error. */
  function RefreshTry(users: map<Id, User>, token: string, verification: Verification): (r: Result<Id>)
    ensures r.Ok? <==>
      (verification.Verified? && verification.sub in users && users[verification.sub].refreshToken == Some(token))
    ensures r.Ok? ==> r.value == verification.sub
  {
    match verification
    case Rejected(reason) => Err(reason)
    case Verified(sub) =>
      if sub !in users || users[sub].refreshToken != Some(token) then Err(Unauthorized(MsgInvalidRefresh))
      else Ok(sub)
  }

  /** The catch clause of `refresh`: an `UnauthorizedException` is thrown
      again unchanged, anything else becomes "Invalid or expired refresh
      token". */
  function Rethrow(e: Error): (r: Error)
    ensures r.Unauthorized?
    ensures e.Unauthorized? ==> r == e
  {
    if e.Unauthorized? then e else Unauthorized(MsgInvalidOrExpired)
  }

  /** All the checks of `refresh`, with the token from the request's cookie
      (`None` when the cookie is absent). */
  function RefreshCheck(users: map<Id, User>, presented: Option<string>, verification: Verification): (r: Result<Id>)
    ensures !Truthy(presented) ==> r == Err(Unauthorized(MsgTokenMissing))
    ensures Truthy(presented) && verification.Rejected? ==>
      r == Err(if verification.reason.Unauthorized? then verification.reason else Unauthorized(MsgInvalidOrExpired))
    ensures (Truthy(presented) && verification.Verified?
             && (verification.sub !in users || users[verification.sub].refreshToken != presented)) ==>
      r == Err(Unauthorized(MsgInvalidRefresh))
  {
    if !Truthy(presented) then Err(Unauthorized(MsgTokenMissing))
    else match RefreshTry(users, presented.value, verification)
      case Ok(id) => Ok(id)
      case Err(e) => Err(Rethrow(e))
  }

  /** Refresh succeeds exactly when a non-empty token is presented, it
      verifies, and it is the one stored on its subject. */
  lemma RefreshSucceedsIff(users: map<Id, User>, presented: Option<string>, verification: Verification)
    ensures RefreshCheck(users, presented, verification).Ok? <==>
      Truthy(presented) && verification.Verified? && verification.sub in users
        && users[verification.sub].refreshToken == presented
    ensures RefreshCheck(users, presented, verification).Ok? ==>
      RefreshCheck(users, presented, verification).value == verification.sub
  {
  }

  /** Every failure of `refresh` reaches the client as Unauthorized. */
  lemma RefreshErrorsAreUnauthorized(users: map<Id, User>, presented: Option<string>, verification: Verification)
    ensures RefreshCheck(users, presented, verification).Err? ==>
      RefreshCheck(users, presented, verification).error.Unauthorized?
  {
  }

  /** After a login or refresh stores an issued token, presenting that token
      (when it verifies to the same user) refreshes the session. */
  lemma IssuedTokenRefreshes(users: map<Id, User>, id: Id, token: string)
    requires id in users && token != ""
    ensures RefreshCheck(WithRefreshToken(users, id, Some(token)), Some(token), Verified(id)) == Ok(id)
  {
  }

  /** After logout no token refreshes the session of the user who logged out,
      whatever it verifies to. */
  lemma LogoutThenRefreshFails(users: map<Id, User>, id: Id, presented: Option<string>, verification: Verification)
    requires id in users
    ensures RefreshCheck(WithRefreshToken(users, id, None), presented, verification) != Ok(id)
  {
    var after := WithRefreshToken(users, id, None);
    RefreshSucceedsIff(after, presented, verification);
  }

  /** Rotation: once a refresh has stored a new token that differs from the
      one presented, presenting the old one again is refused. The source does
      not guarantee that a newly signed token differs from the previous one,
      so the difference is an assumption here. */
  lemma RotatedTokenRefused(users: map<Id, User>, id: Id, previous: string, issued: string)
    requires id in users && previous != "" && issued != previous
    ensures RefreshCheck(WithRefreshToken(users, id, Some(issued)), Some(previous), Verified(id))
      == Err(Unauthorized(MsgInvalidRefresh))
  {
  }

  /** Logging out twice leaves the same table as logging out once. */
  lemma LogoutIdempotent(users: map<Id, User>, id: Id)
    requires id in users
    ensures WithRefreshToken(WithRefreshToken(users, id, None), id, None) == WithRefreshToken(users, id, None)
  {
  }

  /** The user row `signup` creates. */
  function NewUser(id: Id, email: string, password: string, name: Option<string>, handle: string): (u: User)
    ensures u.id == id && u.email == email && u.name == name && u.publicHandle == handle
    ensures u.passwordHash.Some? && VerifyPassword(password, u.passwordHash.value)
    ensures u.refreshToken.None? && u.headline.None? && u.avatarUrl.None? && u.locale.None?
  {
    User(id, email, Some(Hash(password)), None, handle, name, None, None, None)
  }

  class AuthService {
    const db: Database
    /** `NODE_ENV === 'production'` */
    const production: bool

    constructor (db: Database, production: bool)
      ensures this.db == db && this.production == production
    {
      this.db := db;
      this.production := production;
    }

    /** `generateUniqueHandle`: probes the base handle, then `base1`,
        `base2`, ... and returns the first one no user holds. */
    method GenerateUniqueHandle(email: string) returns (handle: string)
      requires db.Valid()
      ensures FirstFree(HandlesOf(db.users), BaseHandle(email), handle)
      ensures handle !in HandlesOf(db.users)
    {
      var base := BaseHandle(email);
      var taken := HandlesOf(db.users);
      handle := base;
      var counter: nat := 1;
      while true
        invariant handle == Candidate(base, counter - 1)
        invariant forall j :: 0 <= j < counter - 1 ==> Candidate(base, j) in taken
        decreases |taken| - (counter - 1)
      {
        var existing := UserByHandle(db.users, handle);
        if existing.None? {
          ghost var k: nat := counter - 1;
          assert handle !in taken && forall j :: 0 <= j < k ==> Candidate(base, j) in taken;
          return;
        }
        assert handle in taken;
        ProbeCountBound(taken, base, counter);
        handle := Candidate(base, counter);
        counter := counter + 1;
      }
    }

    /** `updateRefreshToken`: a database update of the user row, which
        fails when the row does not exist. */
    method UpdateRefreshToken(id: Id, token: Option<string>) returns (ok: bool)
      requires db.Valid()
      modifies db`users
      ensures db.Valid()
      ensures ok <==> id in old(db.users)
      ensures ok ==> db.users == WithRefreshToken(old(db.users), id, token)
      ensures !ok ==> db.users == old(db.users)
    {
      if id !in db.users {
        return false;
      }
      WithRefreshTokenValid(db.Snapshot(), id, token);
      db.users := WithRefreshToken(db.users, id, token);
      return true;
    }

    /** `signup`: refuses a registered e-mail; otherwise creates the user
        with the hashed password and a fresh handle, creates its profile,
        stores the issued refresh token and sets the session cookies. The
        password length is checked before the service is called. */
    method Signup(email: string, password: string, name: Option<string>, tokens: Tokens) returns (r: Result<Session>)
      requires db.Valid() && |password| >= 8
      modifies db`users, db`profiles, db`nextId
      ensures db.Valid()
      ensures old(UserByEmail(db.users, email)).Some? ==>
        r == Err(Conflict(MsgEmailTaken)) && unchanged(db`users, db`profiles, db`nextId)
      ensures old(UserByEmail(db.users, email)).None? ==>
        var id := old(db.nextId);
        && r.Ok?
        && r.value == Session(AuthUser(id, email, name, r.value.user.publicHandle), SetCookies(production, tokens))
        && FirstFree(HandlesOf(old(db.users)), BaseHandle(email), r.value.user.publicHandle)
        && db.users == old(db.users)[id := NewUser(id, email, password, name, r.value.user.publicHandle)
                                              .(refreshToken := Some(tokens.refreshToken))]
        && db.profiles == old(db.profiles)[id := Profile(id, None, db.defaults.profileVisible)]
        && db.nextId == id + 1
    {
      var existing := UserByEmail(db.users, email);
      if existing.Some? {
        return Err(Conflict(MsgEmailTaken));
      }
      var handle := GenerateUniqueHandle(email);
      var id := db.nextId;
      var user := NewUser(id, email, password, name, handle);
      InsertUser(user);
      var stored := UpdateRefreshToken(id, Some(tokens.refreshToken));
      TokenOnNewUser(old(db.users), user, Some(tokens.refreshToken));
      r := Ok(Session(AuthUser(id, email, name, handle), SetCookies(production, tokens)));
    }

    /** `user.create` followed by a separate `profile.create`: stores the
        user under the counter, then a profile of default visibility. The two
        writes are not one transaction in the code; the model performs both. */
    method InsertUser(user: User)
      requires db.Valid() && user.id == db.nextId
      requires forall k :: k in db.users ==> db.users[k].email != user.email
      requires user.publicHandle !in HandlesOf(db.users)
      modifies db`users, db`profiles, db`nextId
      ensures db.Valid()
      ensures db.users == old(db.users)[user.id := user]
      ensures db.profiles == old(db.profiles)[user.id := Profile(user.id, None, db.defaults.profileVisible)]
      ensures db.nextId == old(db.nextId) + 1
    {
      var profile := Profile(user.id, None, db.defaults.profileVisible);
      ghost var before := db.Snapshot();
      CreateUserValid(before, user, db.defaults.profileVisible);
      db.users := db.users[user.id := user];
      db.nextId := db.nextId + 1;
      db.profiles := db.profiles[user.id := profile];
      assert db.Snapshot() == before.(users := before.users[user.id := user], profiles := before.profiles[user.id := profile],
                                      nextId := before.nextId + 1);
    }

    /** `login`: on the checks of `LoginCheck`, stores the issued refresh
        token on the user and sets the session cookies; on failure nothing
        changes. */
    method Login(email: string, password: string, tokens: Tokens) returns (r: Result<Session>)
      requires db.Valid()
      modifies db`users
      ensures db.Valid()
      ensures var check := LoginCheck(old(db.users), email, password);
        && (check.Err? ==> r == Err(check.error) && db.users == old(db.users))
        && (check.Ok? ==>
              && r == Ok(Session(AuthUserOf(old(db.users)[check.value]), SetCookies(production, tokens)))
              && db.users == WithRefreshToken(old(db.users), check.value, Some(tokens.refreshToken)))
    {
      var existing := UserByEmail(db.users, email);
      if existing.None? || db.users[existing.value].passwordHash.None? {
        return Err(Unauthorized(MsgInvalidCredentials));
      }
      var user := db.users[existing.value];
      if !VerifyPassword(password, user.passwordHash.value) {
        return Err(Unauthorized(MsgInvalidCredentials));
      }
      var stored := UpdateRefreshToken(user.id, Some(tokens.refreshToken));
      r := Ok(Session(AuthUserOf(user), SetCookies(production, tokens)));
    }

    /** `refresh`: on the checks of `RefreshCheck`, rotates the stored
        refresh token to the newly issued one and sets the session cookies;
        on failure nothing changes. */
    method Refresh(presented: Option<string>, verification: Verification, tokens: Tokens) returns (r: Result<Session>)
      requires db.Valid()
      modifies db`users
      ensures db.Valid()
      ensures var check := RefreshCheck(old(db.users), presented, verification);
        && (check.Err? ==> r == Err(check.error) && db.users == old(db.users))
        && (check.Ok? ==>
              && r == Ok(Session(AuthUserOf(old(db.users)[check.value]), SetCookies(production, tokens)))
              && db.users == WithRefreshToken(old(db.users), check.value, Some(tokens.refreshToken)))
    {
      if !Truthy(presented) {
        return Err(Unauthorized(MsgTokenMissing));
      }
      var thrown: Option<Error> := None;
      if verification.Rejected? {
        thrown := Some(verification.reason);
      } else if verification.sub !in db.users || db.users[verification.sub].refreshToken != presented {
        thrown := Some(Unauthorized(MsgInvalidRefresh));
      }
      if thrown.Some? {
        return Err(Rethrow(thrown.value));
      }
      var user := db.users[verification.sub];
      var stored := UpdateRefreshToken(user.id, Some(tokens.refreshToken));
      r := Ok(Session(AuthUserOf(user), SetCookies(production, tokens)));
    }

    /** `logout`: clears the stored refresh token and the cookies. The update
        fails, and nothing is cleared, when the user row does not exist. */
    method Logout(id: Id) returns (r: Result<Reply>)
      requires db.Valid()
      modifies db`users
      ensures db.Valid()
      ensures id in old(db.users) ==>
        r == Ok(Reply(MsgLoggedOut, ClearCookies())) && db.users == WithRefreshToken(old(db.users), id, None)
      ensures id !in old(db.users) ==>
        r == Err(DatabaseError(RecordNotFound)) && db.users == old(db.users)
    {
      var ok := UpdateRefreshToken(id, None);
      if !ok {
        return Err(DatabaseError(RecordNotFound));
      }
      r := Ok(Reply(MsgLoggedOut, ClearCookies()));
    }
  }

  /** Storing a token on a user just inserted is inserting the user with
      that token. */
  lemma TokenOnNewUser(users: map<Id, User>, u: User, token: Option<string>)
    ensures WithRefreshToken(users[u.id := u], u.id, token) == users[u.id := u.(refreshToken := token)]
  {
  }

  /** Adding a user under the fresh id, with an unused e-mail and handle,
      and its profile, keeps the table's invariant. */
  lemma CreateUserValid(t: Tables, u: User, visible: bool)
    requires t.Valid() && u.id == t.nextId
    requires forall k :: k in t.users ==> t.users[k].email != u.email
    requires u.publicHandle !in HandlesOf(t.users)
    ensures t.(users := t.users[u.id := u], profiles := t.profiles[u.id := Profile(u.id, None, visible)],
               nextId := t.nextId + 1).Valid()
  {
    var t1 := t.(users := t.users[u.id := u], nextId := t.nextId + 1);
    AddUserValid(t, u);
    AddProfileValid(t1, Profile(u.id, None, visible));
  }

  /** Adding a user with a fresh id, a fresh e-mail and a free handle keeps
      the database valid. */
  lemma AddUserValid(t: Tables, u: User)
    requires t.Valid() && u.id == t.nextId
    requires forall k :: k in t.users ==> t.users[k].email != u.email
    requires u.publicHandle !in HandlesOf(t.users)
    ensures t.(users := t.users[u.id := u], nextId := t.nextId + 1).Valid()
  {
    var users, n := t.users[u.id := u], t.nextId + 1;
    Db.CounterGrows(t, n);
    InsertUserUnique(t.users, u);
    assert UsersKeyed(users, n);
    OwnersWiden(t.users.Keys, users.Keys, t.profiles, t.resumes, t.projects, t.achievements);
  }

  /** Adding the profile of an existing user keeps the database valid. */
  lemma AddProfileValid(t: Tables, p: Profile)
    requires t.Valid() && p.userId in t.users
    ensures t.(profiles := t.profiles[p.userId := p]).Valid()
  {
  }

  /** A user with a fresh e-mail and a free handle keeps both columns unique. */
  lemma InsertUserUnique(users: map<Id, User>, u: User)
    requires EmailsUnique(users) && HandlesUnique(users) && u.id !in users
    requires forall k :: k in users ==> users[k].email != u.email
    requires u.publicHandle !in HandlesOf(users)
    ensures EmailsUnique(users[u.id := u]) && HandlesUnique(users[u.id := u])
  {
    assert forall k :: k in users ==> users[k].publicHandle in HandlesOf(users);
  }
}
