/** The authentication core of the current backend revision: the credential,
    user and session tables, the authentication service over them, the idle
    session reaper and the /api/auth controller (register, login, refresh,
    ping, logout).

    Tokens are represented by the claims they carry; signing, parsing and the
    expiry check are one opaque validity predicate. Password hashing is an
    opaque encode/matches pair. Clock readings and random bytes are inputs. */
module CoreAuth {
  import opened Wrappers
  import opened Calendar
  import AgeValidation
  import HybridClockUUID

  type Email = string
  type UserId = string

  /** A signed token, seen through its claims: subject (the email), the
      userId claim, and issued-at / expiry in whole seconds. */
  datatype Jwt = Jwt(subject: Email, userId: UserId, issuedAt: int, expiresAt: int)

  /** Lifetimes of the two kinds of token, in seconds. */
  const AccessExpirationSeconds := 60 * 15
  const RefreshExpirationSeconds := 7 * 24 * 60 * 60

  /** The refresh-token cookie. */
  const RefreshCookieName := "refreshToken"
  const AuthPath := "/api/auth"

  /** Sessions unused for this many milliseconds are reaped. */
  const IdleTimeoutMillis := 5 * 60 * 1000

  /** The avatars a registration may choose; anything else is stored as "". */
  const Emojis: seq<string> := [
    "\U{1F60E}", "\U{1F604}", "\U{1F92A}", "\U{1F431}", "\U{1F9B8}",
    "\U{1F922}", "\U{2764}\U{FE0F}", "\U{1F60D}", "\U{1F467}", "\U{1F480}"
  ]

  /** A token minted at millisecond now: the claims keep whole seconds. */
  function Mint(email: Email, userId: UserId, now: int, lifetimeSeconds: int): Jwt {
    Jwt(email, userId, now / 1000, (now + lifetimeSeconds * 1000) / 1000)
  }

  function GenerateAccessToken(email: Email, userId: UserId, now: int): Jwt {
    Mint(email, userId, now, AccessExpirationSeconds)
  }

  function GenerateRefreshToken(email: Email, userId: UserId, now: int): Jwt {
    Mint(email, userId, now, RefreshExpirationSeconds)
  }

  /** Both tokens carry the email as subject and the userId claim, are issued
      at the current second, and expire 15 minutes (access) or 7 days
      (refresh) later. */
  lemma TokenLifetimes(email: Email, userId: UserId, now: int)
    ensures var a := GenerateAccessToken(email, userId, now);
      && a.subject == email && a.userId == userId
      && a.issuedAt == now / 1000 && a.expiresAt == a.issuedAt + 900
    ensures var r := GenerateRefreshToken(email, userId, now);
      && r.subject == email && r.userId == userId
      && r.issuedAt == now / 1000 && r.expiresAt == r.issuedAt + 604800
  {
    ShiftBySeconds(now, AccessExpirationSeconds);
    ShiftBySeconds(now, RefreshExpirationSeconds);
  }

  lemma ShiftBySeconds(now: int, seconds: int)
    ensures (now + seconds * 1000) / 1000 == now / 1000 + seconds
  {
    var q, r := now / 1000, now % 1000;
    assert now + seconds * 1000 == (q + seconds) * 1000 + r;
  }

  datatype PasswordEncoder = PasswordEncoder(encode: string -> string, matches: (string, string) -> bool)

  datatype User = User(id: UserId, name: string, avatar: string, dateOfBirth: Option<Date>)

  datatype Credential = Credential(email: Email, password: string, userId: UserId)

  /** A session: the refresh token that keys it, its user, and when it was
      issued and last used (epoch milliseconds). */
  datatype UserLogin = UserLogin(token: Jwt, user: UserId, issueTime: int, lastUseTime: int)

  datatype Store = Store(
    users: map<UserId, User>,
    credentials: map<Email, Credential>,
    logins: map<Jwt, UserLogin>)

  /** Every session row is stored under its own token, as the table's primary
      key makes it. */
  predicate Keyed(logins: map<Jwt, UserLogin>) {
    forall t :: t in logins ==> logins[t].token == t
  }

  datatype AuthError = IllegalArgument(message: string)

  datatype Cookie = Cookie(name: string, value: Option<Jwt>, httpOnly: bool, path: string, maxAge: int)

  /** The response envelope; data carries the access token when there is one. */
  datatype ApiResponse = ApiResponse(success: bool, message: Option<string>, data: Option<Jwt>, errorCode: Option<string>)

  datatype Reply = Reply(status: int, body: ApiResponse, cookies: seq<Cookie>)

  datatype RegisterRequest = RegisterRequest(
    name: string, email: Email, avatar: string, password: string, dateOfBirth: Option<Date>)

  datatype LoginRequest = LoginRequest(email: Email, password: string)

  // ---------------------------------------------------------------------
  // Lookups shared by the service and the pure transitions

  /** validateLogin: a credential exists for the email and the raw password
      matches its stored hash. */
  function CredentialsMatch(credentials: map<Email, Credential>, matches: (string, string) -> bool,
                            email: Email, rawPassword: string): (ok: bool)
    ensures ok <==> email in credentials && matches(rawPassword, credentials[email].password)
  {
    match Lookup(credentials, email)
    case None => false
    case Some(c) => matches(rawPassword, c.password)
  }

  function Lookup<K, V>(m: map<K, V>, k: K): (r: Option<V>)
    ensures r.Some? <==> k in m
    ensures r.Some? ==> r.value == m[k]
  {
    if k in m then Some(m[k]) else None
  }

  /** RegisterRequest.getAvatar: the allow-listed avatar, or "". What reaches
      the entity is always one of the ten emojis or empty, and it passes the
      avatar's @NotBlank exactly when the request chose from the list. */
  function AvatarOf(request: RegisterRequest): (avatar: string)
    ensures avatar in Emojis || avatar == ""
    ensures !Blank(avatar) <==> request.avatar in Emojis
    ensures !Blank(avatar) ==> avatar == request.avatar
  {
    EmojisNotBlank();
    if request.avatar in Emojis then request.avatar else ""
  }

  lemma EmojisNotBlank()
    ensures forall e :: e in Emojis ==> !Blank(e)
  {
    forall e | e in Emojis
      ensures !Blank(e)
    {
      assert e[0] > ' ';
    }
  }

  /** Java's isBlank as the @NotBlank check applies it (trim drops every
      character up to U+0020): nothing but such characters. */
  predicate Blank(s: string) {
    forall i :: 0 <= i < |s| ==> s[i] <= ' '
  }

  /** The bean-validation constraints checked when a User and its credential
      are saved: non-blank name of at most 50 characters, non-blank avatar,
      non-blank email, and a date of birth, when given, in the past and giving
      an age between 13 and 120. */
  predicate UserConstraintsHold(user: User, email: Email, today: Date) {
    && !Blank(user.name) && |user.name| <= 50
    && !Blank(user.avatar)
    && !Blank(email)
    && (user.dateOfBirth.Some? ==>
          && Before(user.dateOfBirth.value, today)
          && AgeValidation.MinimumAgeIsValid(AgeValidation.UserMinimumAge, user.dateOfBirth, today)
          && AgeValidation.MaximumAgeIsValid(AgeValidation.UserMaximumAge, user.dateOfBirth, today))
  }

  function RefreshCookie(token: Jwt): Cookie {
    Cookie(RefreshCookieName, Some(token), true, AuthPath, RefreshExpirationSeconds)
  }

  /** A cookie with max-age 0, which tells the browser to delete it. */
  function ClearedRefreshCookie(): Cookie {
    Cookie(RefreshCookieName, None, true, AuthPath, 0)
  }

  function Unauthorized(message: string): Reply {
    Reply(401, ApiResponse(false, Some(message), None, None), [])
  }

  // ---------------------------------------------------------------------
  // The handlers as transitions of the store

  /** register: a taken email is a conflict; otherwise a user with the
      generated id and its credential are saved together, unless the save
      fails (the entity constraints on the day today, or the store refusing
      it), which is answered with 500 and saves nothing. */
  function RegisterStep(s: Store, request: RegisterRequest, generatedId: UserId,
                        encode: string -> string, today: Date, storeAccepts: bool): (Store, Reply)
  {
    if request.email in s.credentials then
      (s, Reply(409, ApiResponse(false, Some("Email already registered"), None, Some("USER_EXISTS")), []))
    else
      var user := User(generatedId, request.name, AvatarOf(request), request.dateOfBirth);
      var credential := Credential(request.email, encode(request.password), generatedId);
      if UserConstraintsHold(user, request.email, today) && storeAccepts then
        (s.(users := s.users[generatedId := user], credentials := s.credentials[request.email := credential]),
         Reply(201, ApiResponse(true, Some("User registered successfully"), None, None), []))
      else
        (s, Reply(500, ApiResponse(false, Some("Internal server error"), None, None), []))
  }

  /** login: bad credentials are refused; otherwise an access token is
      returned, the refresh token is set as a cookie and a session keyed by it
      is saved with issue and last-use time now. */
  function LoginStep(s: Store, request: LoginRequest, now: int, matches: (string, string) -> bool): (Store, Reply)
  {
    if !CredentialsMatch(s.credentials, matches, request.email, request.password) then
      (s, Unauthorized("Invalid email or password"))
    else
      var userId := s.credentials[request.email].userId;
      var access := GenerateAccessToken(request.email, userId, now);
      var refresh := GenerateRefreshToken(request.email, userId, now);
      var login := UserLogin(refresh, userId, now, now);
      (s.(logins := s.logins[refresh := login]),
       Reply(202, ApiResponse(true, Some("logged in"), Some(access), None), [RefreshCookie(refresh)]))
  }

  /** refresh, as written: a missing or invalid token or an unknown email is
      refused; a valid token with no session makes the session lookup throw;
      otherwise a new access token is issued and the session's last-use time
      becomes now. */
  function RefreshStep(s: Store, cookie: Option<Jwt>, now: int, isValid: (Jwt, int) -> bool): (Store, Result<Reply, AuthError>)
  {
    if cookie.None? then (s, Success(Unauthorized("No token")))
    else if !isValid(cookie.value, now) then (s, Success(Unauthorized("Invalid or expired refresh token")))
    else if cookie.value.subject !in s.credentials then (s, Success(Unauthorized("No valid user found")))
    else if cookie.value !in s.logins then (s, Failure(IllegalArgument("UserLogin does not exist")))
    else
      var token := cookie.value;
      var access := GenerateAccessToken(token.subject, token.userId, now);
      var login := s.logins[token].(lastUseTime := now);
      (s.(logins := s.logins[login.token := login]),
       Success(Reply(202, ApiResponse(true, None, Some(access), None), [])))
  }

  /** ping: like refresh without the email check, and it issues no token. */
  function PingStep(s: Store, cookie: Option<Jwt>, now: int, isValid: (Jwt, int) -> bool): (Store, Result<Reply, AuthError>)
  {
    if cookie.None? || !isValid(cookie.value, now) then (s, Success(Unauthorized("Invalid or expired token")))
    else if cookie.value !in s.logins then (s, Failure(IllegalArgument("UserLogin does not exist")))
    else
      var login := s.logins[cookie.value].(lastUseTime := now);
      (s.(logins := s.logins[login.token := login]),
       Success(Reply(200, ApiResponse(true, Some("Activity recorded"), None, None), [])))
  }

  /** logout: a missing or invalid token is refused; otherwise the cookie is
      cleared and the session deleted (a missing session throws). */
  function LogoutStep(s: Store, cookie: Option<Jwt>, now: int, isValid: (Jwt, int) -> bool): (Store, Result<Reply, AuthError>)
  {
    if cookie.None? || !isValid(cookie.value, now) then
      (s, Success(Unauthorized("Invalid or expired refresh token")))
    else if cookie.value !in s.logins then (s, Failure(IllegalArgument("UserLogin does not exist")))
    else
      (s.(logins := s.logins - {cookie.value}),
       Success(Reply(202, ApiResponse(true, Some("Logged out successfully"), None, None), [ClearedRefreshCookie()])))
  }

  /** refresh as its null branch shows it was meant to work: a valid token
      with no session is refused with 401, the cookie is cleared and the
      (absent) session deleted. */
  function RefreshIntendedStep(s: Store, cookie: Option<Jwt>, now: int, isValid: (Jwt, int) -> bool): (Store, Result<Reply, AuthError>)
  {
    if cookie.Some? && isValid(cookie.value, now) && cookie.value.subject in s.credentials && cookie.value !in s.logins then
      (s.(logins := s.logins - {cookie.value}),
       Success(Reply(401, ApiResponse(false, Some("No valid user login"), None, None), [ClearedRefreshCookie()])))
    else RefreshStep(s, cookie, now, isValid)
  }

  /** ping as its null branch shows it was meant to work: a valid token with
      no session is refused with 401 and nothing changes. */
  function PingIntendedStep(s: Store, cookie: Option<Jwt>, now: int, isValid: (Jwt, int) -> bool): (Store, Result<Reply, AuthError>)
  {
    if cookie.Some? && isValid(cookie.value, now) && cookie.value !in s.logins then
      (s, Success(Unauthorized("No active session")))
    else PingStep(s, cookie, now, isValid)
  }

  /** logout as its null branch shows it was meant to work: a valid token with
      no session is refused with 401, the cookie being cleared already. */
  function LogoutIntendedStep(s: Store, cookie: Option<Jwt>, now: int, isValid: (Jwt, int) -> bool): (Store, Result<Reply, AuthError>)
  {
    if cookie.Some? && isValid(cookie.value, now) && cookie.value !in s.logins then
      (s, Success(Reply(401, ApiResponse(false, Some("Valid login does not exist"), None, None), [ClearedRefreshCookie()])))
    else LogoutStep(s, cookie, now, isValid)
  }

  // ---------------------------------------------------------------------
  // The idle-session sweep

  function Cutoff(now: int): int { now - IdleTimeoutMillis }

  predicate Stale(login: UserLogin, now: int) { login.lastUseTime < Cutoff(now) }

  /** The sessions one sweep at time now finds idle. */
  function StaleTokens(logins: map<Jwt, UserLogin>, now: int): set<Jwt> {
    set t | t in logins && Stale(logins[t], now)
  }

  /** The session table after one sweep at time now. */
  function Sweep(logins: map<Jwt, UserLogin>, now: int): map<Jwt, UserLogin> {
    logins - StaleTokens(logins, now)
  }

  // ---------------------------------------------------------------------
  // Properties of the transitions

  /** Registering a taken email answers 409 USER_EXISTS and changes nothing. */
  lemma RegisterConflict(s: Store, request: RegisterRequest, id: UserId, encode: string -> string,
                         today: Date, accepts: bool)
    requires request.email in s.credentials
    ensures var (s', reply) := RegisterStep(s, request, id, encode, today, accepts);
      s' == s && reply.status == 409 && reply.body.errorCode == Some("USER_EXISTS")
  {
  }

  /** A registration whose entity breaks a constraint (an avatar outside the
      allow-list, a date of birth giving an age under 13 or over 120, a blank
      or over-long name) is answered 500 and saves nothing. */
  lemma RegisterRejectsInvalidUser(s: Store, request: RegisterRequest, id: UserId, encode: string -> string,
                                   today: Date, accepts: bool)
    requires request.email !in s.credentials
    requires || request.avatar !in Emojis
             || Blank(request.name) || |request.name| > 50
             || (request.dateOfBirth.Some? && !Before(request.dateOfBirth.value, today))
             || (request.dateOfBirth.Some? && AgeInYears(request.dateOfBirth.value, today) < 13)
             || (request.dateOfBirth.Some? && AgeInYears(request.dateOfBirth.value, today) > 120)
    ensures var (s', reply) := RegisterStep(s, request, id, encode, today, accepts);
      s' == s && reply.status == 500
  {
  }

  /** A registration that saves adds exactly the user under the generated id,
      with the allow-listed avatar, and its credential under the email, with
      the encoded password; sessions are untouched. A user without a date of
      birth, with a non-blank name of at most 50 characters, an allow-listed
      avatar and a non-blank email is always saved when the store accepts. */
  lemma RegisterCreates(s: Store, request: RegisterRequest, id: UserId, encode: string -> string, today: Date)
    requires request.email !in s.credentials
    ensures var (s', reply) := RegisterStep(s, request, id, encode, today, true);
      reply.status == 201 ==>
      && s'.credentials.Keys == s.credentials.Keys + {request.email}
      && s'.credentials[request.email] == Credential(request.email, encode(request.password), id)
      && s'.users.Keys == s.users.Keys + {id}
      && s'.users[id] == User(id, request.name, request.avatar, request.dateOfBirth)
      && (forall e :: e in s.credentials ==> s'.credentials[e] == s.credentials[e])
      && s'.logins == s.logins
    ensures var (_, reply) := RegisterStep(s, request, id, encode, today, true);
      (request.dateOfBirth.None? && !Blank(request.name) && |request.name| <= 50
       && request.avatar in Emojis && !Blank(request.email)) ==> reply.status == 201
  {
  }

  /** The identifier of a new user is "u-" and ten letters: twelve
      characters, the width of the id column. */
  lemma RegisteredIdFitsColumn(now: int, counter: int, entropy: seq<bv8>)
    ensures var id := "u-" + HybridClockUUID.Id(HybridClockUUID.DefaultLength, now, counter, entropy);
      |id| == 12 && id[..2] == "u-" && HybridClockUUID.AllLetters(id[2..])
  {
    HybridClockUUID.IdDecodes(HybridClockUUID.DefaultLength, now, counter, entropy);
    var suffix := HybridClockUUID.Id(HybridClockUUID.DefaultLength, now, counter, entropy);
    assert ("u-" + suffix)[2..] == suffix;
  }

  /** Registering the same email twice: the second answer is 409 and there is
      exactly one credential for the email. */
  lemma {:induction false} RegisterTwice(s: Store, r1: RegisterRequest, r2: RegisterRequest,
                                         id1: UserId, id2: UserId, encode: string -> string,
                                         today: Date, accepts2: bool)
    requires r1.email !in s.credentials && r2.email == r1.email
    ensures var (s1, reply1) := RegisterStep(s, r1, id1, encode, today, true);
      var (s2, reply2) := RegisterStep(s1, r2, id2, encode, today, accepts2);
      reply1.status == 201 ==>
      && reply2.status == 409
      && s2 == s1
      && |s2.credentials| == |s.credentials| + 1
  {
    var (s1, reply1) := RegisterStep(s, r1, id1, encode, today, true);
    if reply1.status == 201 {
      assert s1.credentials.Keys == s.credentials.Keys + {r1.email};
    }
  }

  /** Bad credentials: 401 and no session. */
  lemma LoginRefused(s: Store, request: LoginRequest, now: int, matches: (string, string) -> bool)
    requires !CredentialsMatch(s.credentials, matches, request.email, request.password)
    ensures var (s', reply) := LoginStep(s, request, now, matches);
      s' == s && reply.status == 401 && reply.cookies == []
  {
  }

  /** Good credentials: a session keyed by the refresh token for the
      credential's user, issued and last used now; the refresh token goes into
      an HTTP-only cookie on /api/auth living 604800 seconds; the access
      token returned is for the same email and user. */
  lemma LoginOpensSession(s: Store, request: LoginRequest, now: int, matches: (string, string) -> bool)
    requires request.email in s.credentials
    requires matches(request.password, s.credentials[request.email].password)
    ensures var (s', reply) := LoginStep(s, request, now, matches);
      var userId := s.credentials[request.email].userId;
      var refresh := GenerateRefreshToken(request.email, userId, now);
      && reply.status == 202
      && reply.cookies == [Cookie("refreshToken", Some(refresh), true, "/api/auth", 604800)]
      && reply.body.data == Some(GenerateAccessToken(request.email, userId, now))
      && s'.logins == s.logins[refresh := UserLogin(refresh, userId, now, now)]
      && s'.users == s.users && s'.credentials == s.credentials
  {
  }

  /** Every handler keeps session rows stored under their own tokens. */
  lemma {:induction false} HandlersKeepSessionsKeyed(s: Store, cookie: Option<Jwt>, request: LoginRequest, now: int,
                                                     matches: (string, string) -> bool, isValid: (Jwt, int) -> bool)
    requires Keyed(s.logins)
    ensures Keyed(LoginStep(s, request, now, matches).0.logins)
    ensures Keyed(RefreshStep(s, cookie, now, isValid).0.logins)
    ensures Keyed(PingStep(s, cookie, now, isValid).0.logins)
    ensures Keyed(LogoutStep(s, cookie, now, isValid).0.logins)
    ensures Keyed(Sweep(s.logins, now))
  {
    var l := LoginStep(s, request, now, matches).0.logins;
    forall t | t in l ensures l[t].token == t {
    }
    if cookie.Some? && cookie.value in s.logins {
      var r := RefreshStep(s, cookie, now, isValid).0.logins;
      forall t | t in r ensures r[t].token == t {
      }
      var p := PingStep(s, cookie, now, isValid).0.logins;
      forall t | t in p ensures p[t].token == t {
      }
    }
  }

  /** A refresh, ping or logout that is refused with 401 or throws leaves the
      store as it was. */
  lemma FailuresChangeNothing(s: Store, cookie: Option<Jwt>, now: int, isValid: (Jwt, int) -> bool)
    ensures var (s', r) := RefreshStep(s, cookie, now, isValid); (r.Failure? || r.value.status == 401) ==> s' == s
    ensures var (s', r) := PingStep(s, cookie, now, isValid); (r.Failure? || r.value.status == 401) ==> s' == s
    ensures var (s', r) := LogoutStep(s, cookie, now, isValid); (r.Failure? || r.value.status == 401) ==> s' == s
  {
  }

  /** A missing or invalid token is answered 401 by refresh, ping and logout. */
  lemma InvalidTokenUnauthorized(s: Store, cookie: Option<Jwt>, now: int, isValid: (Jwt, int) -> bool)
    requires cookie.None? || !isValid(cookie.value, now)
    ensures var (_, r) := RefreshStep(s, cookie, now, isValid); r.Success? && r.value.status == 401
    ensures var (_, r) := PingStep(s, cookie, now, isValid); r.Success? && r.value.status == 401
    ensures var (_, r) := LogoutStep(s, cookie, now, isValid); r.Success? && r.value.status == 401
  {
  }

  /** A valid token whose session is gone makes refresh (when its email is
      still registered), ping and logout throw instead of answering 401. */
  lemma MissingSessionThrows(s: Store, token: Jwt, now: int, isValid: (Jwt, int) -> bool)
    requires isValid(token, now) && token !in s.logins
    ensures token.subject in s.credentials ==> RefreshStep(s, Some(token), now, isValid).1.Failure?
    ensures PingStep(s, Some(token), now, isValid).1.Failure?
    ensures LogoutStep(s, Some(token), now, isValid).1.Failure?
  {
  }

  /** A successful refresh issues an access token with the refresh token's
      email and user id, sets no cookie, and changes only that session's
      last-use time. */
  lemma RefreshBumpsSession(s: Store, token: Jwt, now: int, isValid: (Jwt, int) -> bool)
    requires Keyed(s.logins)
    requires isValid(token, now) && token.subject in s.credentials && token in s.logins
    ensures var (s', r) := RefreshStep(s, Some(token), now, isValid);
      && r.Success? && r.value.status == 202 && r.value.cookies == []
      && r.value.body.data == Some(GenerateAccessToken(token.subject, token.userId, now))
      && s'.logins.Keys == s.logins.Keys
      && s'.logins[token] == s.logins[token].(lastUseTime := now)
      && (forall t :: t in s.logins && t != token ==> s'.logins[t] == s.logins[t])
      && s'.users == s.users && s'.credentials == s.credentials
  {
  }

  /** A successful ping changes only that session's last-use time and issues
      no token. */
  lemma PingBumpsSession(s: Store, token: Jwt, now: int, isValid: (Jwt, int) -> bool)
    requires Keyed(s.logins)
    requires isValid(token, now) && token in s.logins
    ensures var (s', r) := PingStep(s, Some(token), now, isValid);
      && r.Success? && r.value.status == 200 && r.value.body.data == None && r.value.cookies == []
      && s'.logins == s.logins[token := s.logins[token].(lastUseTime := now)]
      && s'.users == s.users && s'.credentials == s.credentials
  {
  }

  /** A successful logout deletes exactly that session and clears the cookie
      with max-age 0. */
  lemma LogoutEndsSession(s: Store, token: Jwt, now: int, isValid: (Jwt, int) -> bool)
    requires isValid(token, now) && token in s.logins
    ensures var (s', r) := LogoutStep(s, Some(token), now, isValid);
      && r.Success? && r.value.status == 202
      && r.value.cookies == [Cookie("refreshToken", None, true, "/api/auth", 0)]
      && s'.logins == s.logins - {token}
      && s'.users == s.users && s'.credentials == s.credentials
  {
  }

  /** Login followed by a refresh with the cookie it set: the new access token
      carries the same user id, and the refresh token (the session key) is not
      replaced. */
  lemma {:induction false} LoginThenRefresh(s: Store, request: LoginRequest, t1: int, t2: int,
                                            matches: (string, string) -> bool, isValid: (Jwt, int) -> bool)
    requires Keyed(s.logins)
    requires CredentialsMatch(s.credentials, matches, request.email, request.password)
    requires var userId := s.credentials[request.email].userId;
      isValid(GenerateRefreshToken(request.email, userId, t1), t2)
    ensures var (s1, reply1) := LoginStep(s, request, t1, matches);
      var refresh := reply1.cookies[0].value.value;
      var (s2, r2) := RefreshStep(s1, Some(refresh), t2, isValid);
      && r2.Success? && r2.value.status == 202
      && r2.value.body.data.Some?
      && r2.value.body.data.value.userId == s.credentials[request.email].userId
      && r2.value.cookies == []
      && s2.logins.Keys == s1.logins.Keys
      && s2.logins[refresh].issueTime == t1 && s2.logins[refresh].lastUseTime == t2
  {
    var (s1, reply1) := LoginStep(s, request, t1, matches);
    var refresh := reply1.cookies[0].value.value;
    assert refresh in s1.logins && s1.logins[refresh].token == refresh;
  }

  /** Logout followed by a refresh with the same, still signature-valid
      token: as written the session lookup throws. */
  lemma {:induction false} LogoutThenRefreshThrows(s: Store, token: Jwt, t1: int, t2: int, isValid: (Jwt, int) -> bool)
    requires isValid(token, t1) && isValid(token, t2)
    requires token in s.logins && token.subject in s.credentials
    ensures var (s1, r1) := LogoutStep(s, Some(token), t1, isValid);
      && r1.Success? && r1.value.status == 202
      && RefreshStep(s1, Some(token), t2, isValid).1 == Failure(IllegalArgument("UserLogin does not exist"))
  {
    var (s1, r1) := LogoutStep(s, Some(token), t1, isValid);
    assert token !in s1.logins;
  }

  /** The intended refresh answers the same sequence with 401, clears the
      cookie and leaves the store without the session; on every other input
      it agrees with refresh as written. */
  lemma {:induction false} LogoutThenRefreshIntended(s: Store, token: Jwt, t1: int, t2: int, isValid: (Jwt, int) -> bool)
    requires isValid(token, t1) && isValid(token, t2)
    requires token in s.logins && token.subject in s.credentials
    ensures var (s1, _) := LogoutStep(s, Some(token), t1, isValid);
      var (s2, r2) := RefreshIntendedStep(s1, Some(token), t2, isValid);
      && r2 == Success(Reply(401, ApiResponse(false, Some("No valid user login"), None, None), [ClearedRefreshCookie()]))
      && s2 == s1 && token !in s2.logins
  {
    var (s1, _) := LogoutStep(s, Some(token), t1, isValid);
    assert token !in s1.logins;
    assert s1.logins - {token} == s1.logins;
  }

  /** With the intended handlers, a valid token whose session is gone gets a
      401 from refresh (email still registered), ping and logout, and the
      store keeps no session for it; refresh and logout clear the cookie. */
  lemma MissingSessionIntended(s: Store, token: Jwt, now: int, isValid: (Jwt, int) -> bool)
    requires isValid(token, now) && token !in s.logins
    ensures var (s', r) := RefreshIntendedStep(s, Some(token), now, isValid);
      token.subject in s.credentials ==>
      && r.Success? && r.value.status == 401 && r.value.cookies == [ClearedRefreshCookie()]
      && s' == s
    ensures var (s', r) := PingIntendedStep(s, Some(token), now, isValid);
      r.Success? && r.value.status == 401 && r.value.body.message == Some("No active session") && s' == s
    ensures var (s', r) := LogoutIntendedStep(s, Some(token), now, isValid);
      && r.Success? && r.value.status == 401 && r.value.cookies == [ClearedRefreshCookie()]
      && s' == s
  {
    assert s.logins - {token} == s.logins;
  }

  /** The intended ping and logout never throw, and agree with the handlers
      as written wherever those do not throw. */
  lemma PingLogoutIntendedNeverThrow(s: Store, cookie: Option<Jwt>, now: int, isValid: (Jwt, int) -> bool)
    ensures PingIntendedStep(s, cookie, now, isValid).1.Success?
    ensures LogoutIntendedStep(s, cookie, now, isValid).1.Success?
    ensures PingStep(s, cookie, now, isValid).1.Success? ==>
      PingIntendedStep(s, cookie, now, isValid) == PingStep(s, cookie, now, isValid)
    ensures LogoutStep(s, cookie, now, isValid).1.Success? ==>
      LogoutIntendedStep(s, cookie, now, isValid) == LogoutStep(s, cookie, now, isValid)
  {
  }

  lemma RefreshIntendedNeverThrows(s: Store, cookie: Option<Jwt>, now: int, isValid: (Jwt, int) -> bool)
    ensures RefreshIntendedStep(s, cookie, now, isValid).1.Success?
    ensures RefreshStep(s, cookie, now, isValid).1.Success? ==>
      RefreshIntendedStep(s, cookie, now, isValid) == RefreshStep(s, cookie, now, isValid)
  {
  }

  /** After a sweep no session is idle past the cutoff; every session used at
      or after the cutoff survives unchanged (a session exactly at the cutoff
      is kept); what was deleted is exactly the idle set. */
  lemma SweepRemovesExactlyStale(logins: map<Jwt, UserLogin>, now: int)
    ensures forall t :: t in Sweep(logins, now) ==> Sweep(logins, now)[t].lastUseTime >= now - 300000
    ensures forall t :: t in logins && logins[t].lastUseTime >= now - 300000 ==>
      t in Sweep(logins, now) && Sweep(logins, now)[t] == logins[t]
    ensures logins.Keys - Sweep(logins, now).Keys == StaleTokens(logins, now)
  {
  }

  /** A second sweep at the same time removes nothing more. */
  lemma SweepIdempotent(logins: map<Jwt, UserLogin>, now: int)
    ensures Sweep(Sweep(logins, now), now) == Sweep(logins, now)
  {
    assert StaleTokens(Sweep(logins, now), now) == {};
  }

  // ---------------------------------------------------------------------
  // The objects

  /** The tables behind the repositories. */
  class Database {
    var users: map<UserId, User>
    var credentials: map<Email, Credential>
    var logins: map<Jwt, UserLogin>

    constructor ()
      ensures Contents() == Store(map[], map[], map[])
    {
      users, credentials, logins := map[], map[], map[];
    }

    function Contents(): Store
      reads this
    {
      Store(users, credentials, logins)
    }
  }

  /** core.service.AuthenticationService. */
  class AuthenticationService {
    const db: Database
    const encoder: PasswordEncoder

    constructor (db: Database, encoder: PasswordEncoder)
      ensures this.db == db && this.encoder == encoder
    {
      this.db := db;
      this.encoder := encoder;
    }

    /** True exactly when a credential exists for the email and the raw
        password matches its hash. */
    function ValidateLogin(email: Email, rawPassword: string): (ok: bool)
      reads db
      ensures ok <==> email in db.credentials && encoder.matches(rawPassword, db.credentials[email].password)
    {
      CredentialsMatch(db.credentials, encoder.matches, email, rawPassword)
    }

    /** Saves the session: an upsert by its token. */
    method Login(userLogin: UserLogin)
      modifies db`logins
      ensures db.logins == old(db.logins)[userLogin.token := userLogin]
    {
      db.logins := db.logins[userLogin.token := userLogin];
    }

    /** Deletes the session with this token, if there is one. */
    method Logout(token: Jwt)
      modifies db`logins
      ensures db.logins == old(db.logins) - {token}
    {
      db.logins := db.logins - {token};
    }

    /** The session for a token; an absent session throws, so the result is
        never null. */
    function GetUserLogin(token: Jwt): (r: Result<UserLogin, AuthError>)
      reads db
      ensures r.Success? <==> token in db.logins
      ensures r.Success? ==> r.value == db.logins[token]
      ensures r.Failure? ==> r.error == IllegalArgument("UserLogin does not exist")
    {
      match Lookup(db.logins, token)
      case None => Failure(IllegalArgument("UserLogin does not exist"))
      case Some(login) => Success(login)
    }

    /** The credential for an email; an unknown email throws. */
    function GetUserCredentialByEmail(email: Email): (r: Result<Credential, AuthError>)
      reads db
      ensures r.Success? <==> email in db.credentials
      ensures r.Success? ==> r.value == db.credentials[email]
    {
      match Lookup(db.credentials, email)
      case None => Failure(IllegalArgument("User with email " + email + " does not exist"))
      case Some(c) => Success(c)
    }
  }

  /** core.service.SessionCleanupService: one run of the scheduled sweep. */
  class SessionCleanupService {
    const db: Database

    constructor (db: Database)
      ensures this.db == db
    {
      this.db := db;
    }

    /** Collects the sessions idle past now - 5 minutes and deletes them one
        by one. */
    method CleanUpIdleSessions(now: int)
      modifies db`logins
      ensures db.logins == Sweep(old(db.logins), now)
    {
      var staleLogins := StaleTokens(db.logins, now);
      ghost var stale := staleLogins;
      while staleLogins != {}
        invariant staleLogins <= stale
        invariant db.logins == old(db.logins) - (stale - staleLogins)
        decreases staleLogins
      {
        var login :| login in staleLogins;
        db.logins := db.logins - {login};
        staleLogins := staleLogins - {login};
      }
    }
  }

  /** core.controller.AuthController. */
  class AuthController {
    const auth: AuthenticationService
    const ids: HybridClockUUID.Generator
    /** JwtUtil.validateToken at a given time: signature and expiry. */
    const tokenIsValid: (Jwt, int) -> bool

    constructor (auth: AuthenticationService, ids: HybridClockUUID.Generator, tokenIsValid: (Jwt, int) -> bool)
      ensures this.auth == auth && this.ids == ids && this.tokenIsValid == tokenIsValid
    {
      this.auth := auth;
      this.ids := ids;
      this.tokenIsValid := tokenIsValid;
    }

    /** POST /register on day today at millisecond now. The id is drawn only
        for a new email; storeAccepts says whether the store, past the entity
        constraints, took the new rows. */
    method Register(request: RegisterRequest, today: Date, now: int, entropy: seq<bv8>, storeAccepts: bool)
      returns (reply: Reply)
      requires |entropy| == HybridClockUUID.RandomByteCount(HybridClockUUID.DefaultLength)
      modifies auth.db, ids
      ensures request.email in old(auth.db.credentials) ==> ids.counter == old(ids.counter)
      ensures request.email !in old(auth.db.credentials) ==> ids.counter == old(ids.counter) + 1
      ensures (auth.db.Contents(), reply) ==
        RegisterStep(old(auth.db.Contents()), request,
                     "u-" + HybridClockUUID.Id(HybridClockUUID.DefaultLength, now, ids.counter, entropy),
                     auth.encoder.encode, today, storeAccepts)
    {
      if request.email in auth.db.credentials {
        return Reply(409, ApiResponse(false, Some("Email already registered"), None, Some("USER_EXISTS")), []);
      }
      var suffix := ids.GenerateDefault(now, entropy);
      var id := "u-" + suffix;
      var user := User(id, request.name, AvatarOf(request), request.dateOfBirth);
      var credential := Credential(request.email, auth.encoder.encode(request.password), id);
      if UserConstraintsHold(user, credential.email, today) && storeAccepts {
        auth.db.users := auth.db.users[id := user];
        auth.db.credentials := auth.db.credentials[request.email := credential];
        reply := Reply(201, ApiResponse(true, Some("User registered successfully"), None, None), []);
      } else {
        reply := Reply(500, ApiResponse(false, Some("Internal server error"), None, None), []);
      }
    }

    /** POST /login. */
    method Login(request: LoginRequest, now: int) returns (reply: Reply)
      modifies auth.db`logins
      ensures (auth.db.Contents(), reply) == LoginStep(old(auth.db.Contents()), request, now, auth.encoder.matches)
    {
      var isValid := auth.ValidateLogin(request.email, request.password);
      if !isValid {
        return Unauthorized("Invalid email or password");
      }
      var credential := auth.GetUserCredentialByEmail(request.email);
      var userId := credential.value.userId;
      var accessToken := GenerateAccessToken(request.email, userId, now);
      var refreshToken := GenerateRefreshToken(request.email, userId, now);
      var cookie := RefreshCookie(refreshToken);
      auth.Login(UserLogin(refreshToken, userId, now, now));
      reply := Reply(202, ApiResponse(true, Some("logged in"), Some(accessToken), None), [cookie]);
    }

    /** POST /refresh. */
    method Refresh(refreshToken: Option<Jwt>, now: int) returns (r: Result<Reply, AuthError>)
      modifies auth.db`logins
      ensures (auth.db.Contents(), r) == RefreshStep(old(auth.db.Contents()), refreshToken, now, tokenIsValid)
    {
      if refreshToken.None? {
        return Success(Unauthorized("No token"));
      }
      var token := refreshToken.value;
      if !tokenIsValid(token, now) {
        return Success(Unauthorized("Invalid or expired refresh token"));
      }
      var email := token.subject;
      if email !in auth.db.credentials {
        return Success(Unauthorized("No valid user found"));
      }
      var userLogin := auth.GetUserLogin(token);
      if userLogin.Failure? {
        return Failure(userLogin.error);
      }
      var newAccessToken := GenerateAccessToken(email, token.userId, now);
      auth.Login(userLogin.value.(lastUseTime := now));
      r := Success(Reply(202, ApiResponse(true, None, Some(newAccessToken), None), []));
    }

    /** POST /ping. */
    method Ping(refreshToken: Option<Jwt>, now: int) returns (r: Result<Reply, AuthError>)
      modifies auth.db`logins
      ensures (auth.db.Contents(), r) == PingStep(old(auth.db.Contents()), refreshToken, now, tokenIsValid)
    {
      if refreshToken.None? || !tokenIsValid(refreshToken.value, now) {
        return Success(Unauthorized("Invalid or expired token"));
      }
      var userLogin := auth.GetUserLogin(refreshToken.value);
      if userLogin.Failure? {
        return Failure(userLogin.error);
      }
      auth.Login(userLogin.value.(lastUseTime := now));
      r := Success(Reply(200, ApiResponse(true, Some("Activity recorded"), None, None), []));
    }

    /** POST /logout. */
    method Logout(refreshToken: Option<Jwt>, now: int) returns (r: Result<Reply, AuthError>)
      modifies auth.db`logins
      ensures (auth.db.Contents(), r) == LogoutStep(old(auth.db.Contents()), refreshToken, now, tokenIsValid)
    {
      if refreshToken.None? || !tokenIsValid(refreshToken.value, now) {
        return Success(Unauthorized("Invalid or expired refresh token"));
      }
      var cookies := [ClearedRefreshCookie()];
      var userLogin := auth.GetUserLogin(refreshToken.value);
      if userLogin.Failure? {
        return Failure(userLogin.error);
      }
      auth.Logout(refreshToken.value);
      r := Success(Reply(202, ApiResponse(true, Some("Logged out successfully"), None, None), cookies));
    }
  }
}
