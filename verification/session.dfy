/**
 * Properties of the session-token lifecycle that span calls: the store
 * invariants every endpoint keeps, which Authorization headers the guard
 * accepts, and what register, login, refresh and logout promise each other.
 */
module Session {
  import opened Wrappers
  import opened Bcrypt
  import opened Jwt
  import opened Db
  import opened Server
  import Text

  // ---------------------------------------------------------------------
  // Store invariants

  /** Registration keeps the store well formed, never reaches its server-error
      branch, and succeeds exactly for a new name with a password. */
  lemma RegisterValid(s: Store, req: RegisterRequest, salt: Salt)
    requires Valid(s)
    ensures var r := Register(s, req, salt);
      && Valid(r.store)
      && r.status != 500
      && (r.status == 201 <==> Truthy(req.username) && Truthy(req.password) && !HasUser(s, req.username.value))
  {
    if Truthy(req.username) && Truthy(req.password) {
      FindUserByNameExact(s, req.username.value, 0);
      InsertUserValid(s, req.username.value, Hash(req.password.value, salt), OrNull(req.nickname));
    }
  }

  /** Login keeps the store well formed and never reaches its server-error
      branch: the user it issues a token for exists, so the foreign key holds. */
  lemma LoginValid(s: Store, req: LoginRequest, now: nat)
    requires Valid(s)
    ensures Valid(Login(s, req, now).store)
    ensures Login(s, req, now).status != 500
  {
    var r := Login(s, req, now);
    if r.status == 200 {
      var id := FindUserByName(s, req.username.value).value;
      LedgerStatementsValid(s, r.body.refreshToken, id, None, 0);
    }
  }

  /** Refresh, logout and reading the profile keep the store well formed. */
  lemma OtherEndpointsValid(s: Store, req: TokenRequest, authorization: Option<string>, now: nat)
    requires Valid(s)
    ensures Valid(Refresh(s, req, now).store)
    ensures Valid(Logout(s, req).store)
    ensures Valid(GetProfile(s, authorization, now).store)
  {
    LedgerStatementsValid(s, "", 0, req.refreshToken, 0);
  }

  // ---------------------------------------------------------------------
  // Login

  /** A known user with a password: login succeeds exactly when the password
      matches the stored digest. */
  lemma LoginKnownUser(s: Store, id: UserId, password: string, now: nat)
    requires Valid(s) && id in s.users && s.users[id].username != "" && password != ""
    ensures var r := Login(s, LoginRequest(Some(s.users[id].username), Some(password)), now);
      r.status == (if Compare(password, s.users[id].password) then 200 else 401)
  {
    FindUserByNameExact(s, s.users[id].username, id);
    LoginValid(s, LoginRequest(Some(s.users[id].username), Some(password)), now);
  }

  /** An unknown username and a wrong password for a known one get the same
      reply, and neither touches the store. */
  lemma LoginFailuresAlike(s: Store, unknown: string, id: UserId, wrong: string, p: string, now: nat)
    requires Valid(s) && unknown != "" && p != "" && wrong != ""
    requires !HasUser(s, unknown)
    requires id in s.users && s.users[id].username != "" && !Compare(wrong, s.users[id].password)
    ensures Login(s, LoginRequest(Some(unknown), Some(p)), now)
         == Login(s, LoginRequest(Some(s.users[id].username), Some(wrong)), now)
         == Reply(401, Error(InvalidCredentials), s)
  {
    FindUserByNameExact(s, unknown, 0);
    FindUserByNameExact(s, s.users[id].username, id);
  }

  // ---------------------------------------------------------------------
  // Refresh and logout

  /** Refresh never consults the ledger: two stores give the same answer. */
  lemma RefreshIgnoresLedger(s: Store, s': Store, req: TokenRequest, now: nat)
    ensures Refresh(s, req, now).status == Refresh(s', req, now).status
    ensures Refresh(s, req, now).body == Refresh(s', req, now).body
  {
  }

  /** Logging out twice is logging out once; logging out without a token
      changes nothing. */
  lemma LogoutIdempotent(s: Store, req: TokenRequest)
    ensures Logout(Logout(s, req).store, req) == Logout(s, req)
    ensures Logout(s, TokenRequest(None)) == Reply(200, Message(LoggedOut), s)
  {
    var once := Logout(s, req).store;
    assert Logout(once, req).store.tokens == once.tokens;
  }

  // ---------------------------------------------------------------------
  // The Authorization header

  /** A header `scheme SP credential` (possibly followed by a space and more)
      yields the credential, whatever the scheme says. */
  lemma HeaderAccepted(scheme: string, credential: string, rest: string)
    requires ' ' !in scheme && ' ' !in credential && credential != ""
    requires rest == "" || rest[0] == ' '
    ensures Credential(Some(scheme + " " + credential + rest)) == Some(credential)
  {
    var h := scheme + " " + credential + rest;
    assert " " == [' '];
    assert h == scheme + [' '] + (credential + rest);
    Text.SplitAfterField(scheme, ' ', credential + rest);
    if rest == "" {
      assert credential + rest == credential;
      Text.SplitSingleField(credential, ' ');
    } else {
      assert credential + rest == credential + [' '] + rest[1..];
      Text.SplitAfterField(credential, ' ', rest[1..]);
    }
  }

  /** Conversely, a header from which the guard takes a credential has that
      shape: a first word without spaces, one space, the credential, and then
      the end or another space. */
  lemma AcceptedHeaderShape(h: string) returns (scheme: string, rest: string)
    requires Truthy(Credential(Some(h)))
    ensures ' ' !in scheme && (rest == "" || rest[0] == ' ')
    ensures h == scheme + " " + Credential(Some(h)).value + rest
  {
    var f := Text.Split(h, ' ');
    Text.JoinSplit(h, ' ');
    scheme := f[0];
    if |f| == 2 {
      rest := "";
      assert Text.Join(f[1..], ' ') == f[1];
    } else {
      rest := [' '] + Text.Join(f[2..], ' ');
      assert f[1..][1..] == f[2..];
      assert Text.Join(f[1..], ' ') == f[1] + [' '] + Text.Join(f[2..], ' ');
    }
  }

  /** A header that is one word (`"Bearer"`), or absent, carries no credential. */
  lemma OneWordRejected(w: string, now: nat)
    requires ' ' !in w
    ensures Authenticate(Some(w), now) == Deny(401, Error(AccessRequired))
    ensures Authenticate(None, now) == Deny(401, Error(AccessRequired))
  {
    if w != "" {
      Text.SplitSingleField(w, ' ');
    }
  }

  /** Two spaces after the first word (`"Bearer  x"`) leave an empty second
      field, which is refused as a missing credential. */
  lemma DoubleSpaceRejected(w: string, r: string, now: nat)
    requires ' ' !in w
    ensures Authenticate(Some(w + "  " + r), now) == Deny(401, Error(AccessRequired))
  {
    assert w + "  " + r == w + [' '] + ([' '] + r);
    Text.SplitAfterField(w, ' ', [' '] + r);
    assert ([' '] + r)[1..] == r;
  }

  /** The scheme word is not checked: `Basic` works as well as `Bearer`. */
  lemma SchemeIgnored(t: Token, now: nat)
    ensures Authenticate(Some("Basic " + Encode(t)), now) == Authenticate(Some("Bearer " + Encode(t)), now)
  {
    HeaderAccepted("Basic", Encode(t), "");
    HeaderAccepted("Bearer", Encode(t), "");
    assert "Basic" + " " == "Basic ";
    assert "Bearer" + " " == "Bearer ";
    assert "Basic" + " " + Encode(t) + "" == "Basic " + Encode(t);
    assert "Bearer" + " " + Encode(t) + "" == "Bearer " + Encode(t);
  }

  /** The guard admits `Bearer <token>` exactly when the token was signed with
      the access secret and has not expired; otherwise it answers 403. */
  lemma BearerAdmits(t: Token, now: nat)
    ensures Authenticate(Some("Bearer " + Encode(t)), now)
         == if t.key == AccessSecret && now < t.exp then Admit(t) else Deny(403, Error(InvalidAccess))
  {
    HeaderAccepted("Bearer", Encode(t), "");
    assert "Bearer" + " " == "Bearer ";
    assert "Bearer" + " " + Encode(t) + "" == "Bearer " + Encode(t);
    DecodeEncode(t);
  }

  // ---------------------------------------------------------------------
  // Across endpoints

  /** Registering a name and logging in with the same password issues tokens
      for the new user: an access token the guard admits for a year and a
      refresh token the ledger records. */
  lemma RegisterThenLogin(s: Store, username: string, password: string, nickname: Option<string>, salt: Salt, now: nat)
    requires Valid(s) && username != "" && password != "" && !HasUser(s, username)
    ensures var s1 := Register(s, RegisterRequest(Some(username), Some(password), nickname), salt).store;
            var r := Login(s1, LoginRequest(Some(username), Some(password)), now);
            var claims := Claims(s1.lastId, username);
      && r.status == 200
      && r.body == LoginTokens(Encode(Sign(claims, AccessSecret, now, OneYear)),
                               Encode(Sign(claims, RefreshSecret, now, SevenDays)), username)
      && r.store.tokens == s.tokens[r.body.refreshToken := s1.lastId]
  {
    var reg := Register(s, RegisterRequest(Some(username), Some(password), nickname), salt);
    RegisterValid(s, RegisterRequest(Some(username), Some(password), nickname), salt);
    var s1 := reg.store;
    var id := s1.lastId;
    LoginKnownUser(s1, id, password, now);
    var claims := Claims(id, username);
    var r := Login(s1, LoginRequest(Some(username), Some(password)), now);
    FindUserByNameExact(s1, username, id);
    EncodeDecode(r.body.accessToken);
    EncodeDecode(r.body.refreshToken);
  }

  /** A token pair signed at `now` for `claims`, as login issues it:
      `Bearer <access>` passes the guard for one year, `<refresh>` mints an
      access token for seven days, and neither passes the other's check. The
      store plays no part in either. */
  lemma IssuedPairWorks(s: Store, claims: Claims, now: nat, later: nat)
    ensures var access := Encode(Sign(claims, AccessSecret, now, OneYear));
            var refresh := Encode(Sign(claims, RefreshSecret, now, SevenDays));
      && Authenticate(Some("Bearer " + access), later)
         == (if later < now + OneYear then Admit(Sign(claims, AccessSecret, now, OneYear)) else Deny(403, Error(InvalidAccess)))
      && Refresh(s, TokenRequest(Some(refresh)), later)
         == (if later < now + SevenDays then Reply(200, AccessToken(Encode(Sign(claims, AccessSecret, later, OneYear))), s)
             else Reply(403, Error(InvalidRefresh), s))
      && Authenticate(Some("Bearer " + refresh), later) == Deny(403, Error(InvalidAccess))
      && Refresh(s, TokenRequest(Some(access)), later) == Reply(403, Error(InvalidRefresh), s)
  {
    var access := Sign(claims, AccessSecret, now, OneYear);
    var refresh := Sign(claims, RefreshSecret, now, SevenDays);
    BearerAdmits(access, later);
    BearerAdmits(refresh, later);
    VerifyIssued(claims, RefreshSecret, now, SevenDays, RefreshSecret, later);
    VerifyIssued(claims, AccessSecret, now, OneYear, RefreshSecret, later);
  }

  /** Logout does not revoke: after logging out a refresh token the ledger no
      longer holds it, yet it still mints access tokens until it expires. */
  lemma LogoutDoesNotRevoke(s: Store, claims: Claims, now: nat, later: nat)
    requires later < now + SevenDays
    ensures var refresh := Encode(Sign(claims, RefreshSecret, now, SevenDays));
            var out := Logout(s, TokenRequest(Some(refresh))).store;
      && refresh !in out.tokens
      && Refresh(out, TokenRequest(Some(refresh)), later).status == 200
  {
    var refresh := Encode(Sign(claims, RefreshSecret, now, SevenDays));
    IssuedPairWorks(Logout(s, TokenRequest(Some(refresh))).store, claims, now, later);
  }

  /** The profile of a freshly registered user, read with the access token
      login issues: the registered name, the nickname or "", no description. */
  lemma ProfileAfterRegister(s: Store, username: string, password: string, nickname: Option<string>, salt: Salt, now: nat, later: nat)
    requires Valid(s) && username != "" && password != "" && !HasUser(s, username)
    requires later < now + OneYear
    ensures var s1 := Register(s, RegisterRequest(Some(username), Some(password), nickname), salt).store;
            var r := Login(s1, LoginRequest(Some(username), Some(password)), now);
            GetProfile(r.store, Some("Bearer " + r.body.accessToken), later)
              == Reply(200, Profile(s1.lastId, username, OrNull(nickname).GetOr(""), ""), r.store)
  {
    var reg := Register(s, RegisterRequest(Some(username), Some(password), nickname), salt);
    RegisterValid(s, RegisterRequest(Some(username), Some(password), nickname), salt);
    RegisterThenLogin(s, username, password, nickname, salt, now);
    var s1 := reg.store;
    var r := Login(s1, LoginRequest(Some(username), Some(password)), now);
    var claims := Claims(s1.lastId, username);
    BearerAdmits(Sign(claims, AccessSecret, now, OneYear), later);
  }
}
