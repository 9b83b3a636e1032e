/**
 * The HTTP endpoints of the session-token lifecycle, each a step from the
 * store and a request (and, where tokens are signed or checked, the current
 * time in whole seconds) to a status, a JSON body and the next store.
 */
module Server {
  import opened Wrappers
  import opened Bcrypt
  import opened Jwt
  import opened Db
  import Text

  /** The JSON bodies the endpoints send. */
  datatype Body =
    | Error(error: string)
    | Message(message: string)
    | LoginTokens(accessToken: string, refreshToken: string, username: string)
    | AccessToken(accessToken: string)
    | Profile(id: UserId, username: string, nickname: string, description: string)

  datatype Reply = Reply(status: nat, body: Body, store: Store)

  /** Request bodies: a field is absent (`None`) or a string. */
  datatype RegisterRequest = RegisterRequest(username: Option<string>, password: Option<string>, nickname: Option<string>)
  datatype LoginRequest = LoginRequest(username: Option<string>, password: Option<string>)
  datatype TokenRequest = TokenRequest(refreshToken: Option<string>)

  const FieldsRequired := "Username and password required"
  const UserExists := "User already exists"
  const Registered := "User registered successfully"
  const ServerError := "Server error"
  const InvalidCredentials := "Invalid credentials"
  const RefreshRequired := "Refresh token required"
  const InvalidRefresh := "Invalid refresh token"
  const LoggedOut := "Logged out successfully"
  const AccessRequired := "Access token required"
  const InvalidAccess := "Invalid or expired token"
  const UserNotFound := "User not found"

  /** JavaScript truthiness of a string field: present and not empty. */
  predicate Truthy(v: Option<string>) {
    v.Some? && v.value != ""
  }

  /** `v || null`. */
  function OrNull(v: Option<string>): (r: Option<string>)
    ensures r.Some? <==> Truthy(v)
    ensures r.Some? ==> r == v
  {
    if Truthy(v) then v else None
  }

  /** `POST /api/register`. `salt` is the salt bcrypt draws for this call. */
  function Register(s: Store, req: RegisterRequest, salt: Salt): (r: Reply)
    ensures r.status == 201 || r.status == 400 || r.status == 500
    ensures r.status != 201 ==> r.store == s
    ensures !Truthy(req.username) || !Truthy(req.password) ==>
      r.status == 400 && r.body == Error(FieldsRequired)
    ensures Truthy(req.username) && Truthy(req.password) && FindUserByName(s, req.username.value).Some? ==>
      r.status == 400 && r.body == Error(UserExists)
    ensures r.status == 201 ==>
      var id := r.store.lastId;
      && Truthy(req.username) && Truthy(req.password)
      && FindUserByName(s, req.username.value).None?
      && r.body == Message(Registered)
      && id !in s.users && r.store.users.Keys == s.users.Keys + {id}
      && r.store.users[id] == User(req.username.value, Hash(req.password.value, salt), OrNull(req.nickname), None)
      && Extends(s, r.store)
  {
    if !Truthy(req.username) || !Truthy(req.password) then
      Reply(400, Error(FieldsRequired), s)
    else if FindUserByName(s, req.username.value).Some? then
      Reply(400, Error(UserExists), s)
    else
      match InsertUser(s, req.username.value, Hash(req.password.value, salt), OrNull(req.nickname))
      case Failure(_) => Reply(500, Error(ServerError), s)
      case Success(ins) => Reply(201, Message(Registered), ins.store)
  }

  /** Persists a freshly signed refresh token: a plain insert, and on any
      failure of it an insert-or-replace. */
  function StoreRefreshToken(s: Store, token: string, owner: UserId): (r: Result<Store, StoreError>)
    ensures r.Failure? <==> owner !in s.users
    ensures r.Success? ==> r.value == s.(tokens := s.tokens[token := owner])
  {
    match InsertToken(s, token, owner)
    case Success(s') => Success(s')
    case Failure(_) => InsertOrReplaceToken(s, token, owner)
  }

  /** `POST /api/login` at time `now`. */
  function Login(s: Store, req: LoginRequest, now: nat): (r: Reply)
    ensures r.status == 200 || r.status == 400 || r.status == 401 || r.status == 500
    ensures r.status != 200 ==> r.store == s
    ensures !Truthy(req.username) || !Truthy(req.password) ==>
      r.status == 400 && r.body == Error(FieldsRequired)
    // an unknown user and a wrong password are answered alike
    ensures r.status == 401 ==> r.body == Error(InvalidCredentials)
    ensures r.status == 200 ==>
      && Truthy(req.username) && Truthy(req.password)
      && FindUserByName(s, req.username.value).Some?
      && var id := FindUserByName(s, req.username.value).value;
      && var claims := Claims(id, req.username.value);
      && Compare(req.password.value, s.users[id].password)
      && r.body.LoginTokens?
      && r.body.username == req.username.value
      && Decode(r.body.accessToken) == Some(Sign(claims, AccessSecret, now, OneYear))
      && Decode(r.body.refreshToken) == Some(Sign(claims, RefreshSecret, now, SevenDays))
      && r.store == s.(tokens := s.tokens[r.body.refreshToken := id])
  {
    if !Truthy(req.username) || !Truthy(req.password) then
      Reply(400, Error(FieldsRequired), s)
    else
      match FindUserByName(s, req.username.value)
      case None => Reply(401, Error(InvalidCredentials), s)
      case Some(id) =>
        var user := s.users[id];
        if !Compare(req.password.value, user.password) then
          Reply(401, Error(InvalidCredentials), s)
        else
          var claims := Claims(id, user.username);
          var access := Sign(claims, AccessSecret, now, OneYear);
          var refresh := Sign(claims, RefreshSecret, now, SevenDays);
          DecodeEncode(access);
          DecodeEncode(refresh);
          match StoreRefreshToken(s, Encode(refresh), id)
          case Failure(_) => Reply(500, Error(ServerError), s)
          case Success(s') => Reply(200, LoginTokens(Encode(access), Encode(refresh), user.username), s')
  }

  /** `POST /api/refresh` at time `now`. The ledger plays no part. */
  function Refresh(s: Store, req: TokenRequest, now: nat): (r: Reply)
    ensures r.store == s
    ensures r.status == 200 || r.status == 401 || r.status == 403
    ensures r.status == 401 <==> !Truthy(req.refreshToken)
    ensures r.status == 401 ==> r.body == Error(RefreshRequired)
    ensures r.status == 403 ==> r.body == Error(InvalidRefresh)
    ensures Truthy(req.refreshToken) ==>
      (r.status == 200 <==> Verify(req.refreshToken.value, RefreshSecret, now).Some?)
    ensures r.status == 200 ==>
      && Truthy(req.refreshToken)
      && Decode(req.refreshToken.value).Some?
      && var t := Decode(req.refreshToken.value).value;
      && t.key == RefreshSecret && now < t.exp
      && r.body.AccessToken?
      && Decode(r.body.accessToken) == Some(Sign(t.claims, AccessSecret, now, OneYear))
  {
    if !Truthy(req.refreshToken) then
      Reply(401, Error(RefreshRequired), s)
    else
      match Verify(req.refreshToken.value, RefreshSecret, now)
      case None => Reply(403, Error(InvalidRefresh), s)
      case Some(t) =>
        var access := Sign(t.claims, AccessSecret, now, OneYear);
        DecodeEncode(access);
        DecodeEncode(t);
        Reply(200, AccessToken(Encode(access)), s)
  }

  /** `POST /api/logout`: deletes the token from the ledger and always succeeds. */
  function Logout(s: Store, req: TokenRequest): (r: Reply)
    ensures r.status == 200 && r.body == Message(LoggedOut)
    ensures r.store.users == s.users && r.store.lastId == s.lastId
    ensures req.refreshToken.Some? ==> r.store.tokens.Keys == s.tokens.Keys - {req.refreshToken.value}
    ensures req.refreshToken.None? ==> r.store == s
    ensures forall t :: t in r.store.tokens ==> r.store.tokens[t] == s.tokens[t]
  {
    Reply(200, Message(LoggedOut), DeleteToken(s, req.refreshToken))
  }

  /** `authHeader && authHeader.split(" ")[1]`: the second space-separated
      field of the Authorization header, whatever the first one says. */
  function Credential(header: Option<string>): (c: Option<string>)
    ensures c.Some? ==> ' ' !in c.value
  {
    match header
    case None => None
    case Some(h) =>
      if h == "" then Some(h)
      else
        var fields := Text.Split(h, ' ');
        if |fields| < 2 then None else Some(fields[1])
  }

  /** What `authenticateToken` does with a request: let it through to the
      next handler with the verified token as `req.user`, or answer it. */
  datatype Gate = Admit(user: Token) | Deny(status: nat, body: Body)

  /** `authenticateToken` at time `now`. */
  function Authenticate(header: Option<string>, now: nat): (g: Gate)
    ensures g.Deny? && g.status == 401 <==> !Truthy(Credential(header))
    ensures g.Deny? ==>
      (g.status == 401 && g.body == Error(AccessRequired)) || (g.status == 403 && g.body == Error(InvalidAccess))
    ensures g.Admit? ==> Credential(header) == Some(Encode(g.user)) && g.user.key == AccessSecret && now < g.user.exp
    ensures forall t :: Credential(header) == Some(Encode(t)) && t.key == AccessSecret && now < t.exp ==> g == Admit(t)
  {
    var token := Credential(header);
    if !Truthy(token) then Deny(401, Error(AccessRequired))
    else
      match Verify(token.value, AccessSecret, now)
      case None => Deny(403, Error(InvalidAccess))
      case Some(user) => Admit(user)
  }

  /** The handler behind the guard of `GET /api/profile`; a missing nickname
      or description is sent as the empty string. */
  function ProfileOf(s: Store, user: Token): (r: Reply)
    ensures r.store == s
    ensures r.status == 404 <==> user.claims.id !in s.users
    ensures r.status == 404 ==> r.body == Error(UserNotFound)
    ensures r.status != 404 ==>
      var u := s.users[user.claims.id];
      r.status == 200 && r.body == Profile(user.claims.id, u.username, u.nickname.GetOr(""), u.description.GetOr(""))
  {
    match FindUserById(s, user.claims.id)
    case None => Reply(404, Error(UserNotFound), s)
    case Some(u) =>
      var nickname := match u.nickname case Some(n) => n case None => "";
      var description := if Truthy(u.description) then u.description.value else "";
      Reply(200, Profile(user.claims.id, u.username, nickname, description), s)
  }

  /** `GET /api/profile` at time `now`: the guard, then the handler. */
  function GetProfile(s: Store, authorization: Option<string>, now: nat): (r: Reply)
    ensures r.store == s
    ensures Authenticate(authorization, now).Deny? ==>
      r.status == Authenticate(authorization, now).status && r.body == Authenticate(authorization, now).body
    ensures Authenticate(authorization, now).Admit? ==>
      (r.status == 200 <==> Authenticate(authorization, now).user.claims.id in s.users)
    ensures r.status == 200 ==>
      && Authenticate(authorization, now).Admit?
      && var id := Authenticate(authorization, now).user.claims.id;
      && id in s.users
      && r.body == Profile(id, s.users[id].username, s.users[id].nickname.GetOr(""), s.users[id].description.GetOr(""))
  {
    match Authenticate(authorization, now)
    case Deny(status, body) => Reply(status, body, s)
    case Admit(user) => ProfileOf(s, user)
  }
}
