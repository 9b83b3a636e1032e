/**
 * The persistent store: the `users` table, the `refresh_tokens` ledger and
 * the constraints their schema declares, the statements the server issues
 * against them, and the seeding of default users at start-up.
 *
 * Rows are kept in maps keyed by their unique column. `lastId` is the
 * AUTOINCREMENT counter of `users`: a new row takes the next id and ids are
 * never reused. A statement fails only when it would break a constraint; it
 * then changes nothing.
 */
module Db {
  import opened Wrappers
  import opened Bcrypt

  type UserId = nat

  datatype User = User(username: string, password: Digest, nickname: Option<string>, description: Option<string>)

  /** `tokens` maps each refresh token string to the id of the user it was issued to. */
  datatype Store = Store(users: map<UserId, User>, tokens: map<string, UserId>, lastId: nat)

  datatype StoreError = UniqueViolation | PrimaryKeyViolation | ForeignKeyViolation

  /** The store right after both tables are created. */
  const Empty: Store := Store(map[], map[], 0)

  /** Every user id was handed out by the AUTOINCREMENT counter. */
  ghost predicate IdsAllocated(s: Store) {
    forall id :: id in s.users ==> 0 < id <= s.lastId
  }

  /** `username TEXT UNIQUE`. */
  ghost predicate UniqueUsernames(s: Store) {
    forall i, j :: i in s.users && j in s.users && s.users[i].username == s.users[j].username ==> i == j
  }

  /** `FOREIGN KEY (user_id) REFERENCES users(id)`: every token belongs to an existing user. */
  ghost predicate TokensOwned(s: Store) {
    forall t :: t in s.tokens ==> s.tokens[t] in s.users
  }

  ghost predicate Valid(s: Store) {
    IdsAllocated(s) && UniqueUsernames(s) && TokensOwned(s)
  }

  ghost predicate HasUser(s: Store, name: string) {
    exists id :: id in s.users && s.users[id].username == name
  }

  /** `r` keeps every user and every token of `s` as it was. */
  ghost predicate Extends(s: Store, r: Store) {
    && s.lastId <= r.lastId
    && r.tokens == s.tokens
    && forall id :: id in s.users ==> id in r.users && r.users[id] == s.users[id]
  }

  lemma EmptyValid()
    ensures Valid(Empty) && !HasUser(Empty, "")
  {
  }

  /** The first id in `from..last`, in rowid order, of a user called `name`. */
  function Scan(users: map<UserId, User>, name: string, from: nat, last: nat): (r: Option<UserId>)
    ensures r.Some? ==> from <= r.value <= last && r.value in users && users[r.value].username == name
    ensures r.Some? ==> forall id :: from <= id < r.value && id in users ==> users[id].username != name
    ensures r.None? ==> forall id :: from <= id <= last && id in users ==> users[id].username != name
    decreases last + 1 - from
  {
    if from > last then None
    else if from in users && users[from].username == name then Some(from)
    else Scan(users, name, from + 1, last)
  }

  /** `SELECT ... FROM users WHERE username = ?`. */
  function FindUserByName(s: Store, name: string): (r: Option<UserId>)
    ensures r.Some? ==> 0 < r.value <= s.lastId && r.value in s.users && s.users[r.value].username == name
    ensures r.None? ==> forall id :: 0 < id <= s.lastId && id in s.users ==> s.users[id].username != name
  {
    Scan(s.users, name, 1, s.lastId)
  }

  /** On a well-formed store the lookup finds a user exactly when one has that
      name, and then it finds that user. */
  lemma FindUserByNameExact(s: Store, name: string, id: UserId)
    requires Valid(s)
    ensures FindUserByName(s, name).Some? <==> HasUser(s, name)
    ensures id in s.users && s.users[id].username == name ==> FindUserByName(s, name) == Some(id)
  {
  }

  /** `SELECT ... FROM users WHERE id = ?`. */
  function FindUserById(s: Store, id: UserId): (r: Option<User>)
    ensures r.Some? <==> id in s.users
    ensures r.Some? ==> r.value == s.users[id]
  {
    if id in s.users then Some(s.users[id]) else None
  }

  datatype Inserted = Inserted(store: Store, id: UserId)

  /** `INSERT INTO users (username, password, nickname)`: the new row takes
      the next AUTOINCREMENT id and has no description. */
  function InsertUser(s: Store, username: string, password: Digest, nickname: Option<string>): (r: Result<Inserted, StoreError>)
    ensures r.Failure? ==> FindUserByName(s, username).Some? || s.lastId + 1 in s.users
    ensures r.Success? ==>
      var s', id := r.value.store, r.value.id;
      && id !in s.users && id == s'.lastId && s.lastId < id
      && s'.users.Keys == s.users.Keys + {id}
      && s'.users[id] == User(username, password, nickname, None)
      && Extends(s, s')
  {
    var id := s.lastId + 1;
    if FindUserByName(s, username).Some? then Failure(UniqueViolation)
    else if id in s.users then Failure(PrimaryKeyViolation)
    else Success(Inserted(Store(s.users[id := User(username, password, nickname, None)], s.tokens, id), id))
  }

  /** The insert succeeds on a well-formed store exactly when the name is free,
      and it keeps the store well formed. */
  lemma InsertUserValid(s: Store, username: string, password: Digest, nickname: Option<string>)
    requires Valid(s)
    ensures InsertUser(s, username, password, nickname).Success? <==> !HasUser(s, username)
    ensures InsertUser(s, username, password, nickname).Success? ==>
      Valid(InsertUser(s, username, password, nickname).value.store)
  {
    var r := InsertUser(s, username, password, nickname);
    if r.Success? {
      var s' := r.value.store;
      assert s.lastId + 1 !in s.users;
      forall i, j | i in s'.users && j in s'.users && s'.users[i].username == s'.users[j].username
        ensures i == j
      {
      }
    }
  }

  /** `INSERT INTO refresh_tokens (token, user_id)`: fails on a token already
      in the ledger (UNIQUE) or an unknown user (FOREIGN KEY). */
  function InsertToken(s: Store, token: string, owner: UserId): (r: Result<Store, StoreError>)
    ensures r.Failure? <==> token in s.tokens || owner !in s.users
    ensures r.Success? ==> r.value.tokens == s.tokens[token := owner] && token !in s.tokens
    ensures r.Success? ==> r.value.users == s.users && r.value.lastId == s.lastId
  {
    if token in s.tokens then Failure(UniqueViolation)
    else if owner !in s.users then Failure(ForeignKeyViolation)
    else Success(s.(tokens := s.tokens[token := owner]))
  }

  /** `INSERT OR REPLACE INTO refresh_tokens (token, user_id)`: a row with the
      same token is replaced; the foreign key still applies. */
  function InsertOrReplaceToken(s: Store, token: string, owner: UserId): (r: Result<Store, StoreError>)
    ensures r.Failure? <==> owner !in s.users
    ensures r.Success? ==> r.value.tokens == s.tokens[token := owner]
    ensures r.Success? ==> r.value.users == s.users && r.value.lastId == s.lastId
  {
    if owner !in s.users then Failure(ForeignKeyViolation)
    else Success(s.(tokens := s.tokens[token := owner]))
  }

  /** `DELETE FROM refresh_tokens WHERE token = ?`; an absent parameter binds
      NULL, which matches no row. */
  function DeleteToken(s: Store, token: Option<string>): (r: Store)
    ensures r.users == s.users && r.lastId == s.lastId
    ensures token.None? ==> r.tokens == s.tokens
    ensures token.Some? ==> r.tokens.Keys == s.tokens.Keys - {token.value}
    ensures forall t :: t in r.tokens ==> t in s.tokens && r.tokens[t] == s.tokens[t]
  {
    match token
    case None => s
    case Some(t) => s.(tokens := s.tokens - {t})
  }

  /** Deleting a user row; `ON DELETE CASCADE` takes its tokens with it. No
      endpoint of the server deletes users, but the schema fixes the effect. */
  function DeleteUser(s: Store, id: UserId): (r: Store)
    ensures r.users.Keys == s.users.Keys - {id} && r.lastId == s.lastId
    ensures forall i :: i in r.users ==> r.users[i] == s.users[i]
    ensures forall t :: t in r.tokens <==> t in s.tokens && s.tokens[t] != id
    ensures forall t :: t in r.tokens ==> r.tokens[t] == s.tokens[t]
  {
    Store(s.users - {id}, map t | t in s.tokens && s.tokens[t] != id :: s.tokens[t], s.lastId)
  }

  /** Every ledger statement keeps the store well formed. */
  lemma LedgerStatementsValid(s: Store, token: string, owner: UserId, gone: Option<string>, id: UserId)
    requires Valid(s)
    ensures InsertToken(s, token, owner).Success? ==> Valid(InsertToken(s, token, owner).value)
    ensures InsertOrReplaceToken(s, token, owner).Success? ==> Valid(InsertOrReplaceToken(s, token, owner).value)
    ensures Valid(DeleteToken(s, gone))
    ensures Valid(DeleteUser(s, id))
    ensures id in s.users ==> !HasUser(DeleteUser(s, id), s.users[id].username)
  {
  }

  datatype DefaultUser = DefaultUser(username: string, password: string)

  /** The accounts `initializeUsers` makes sure exist. */
  const DefaultUsers: seq<DefaultUser> := [DefaultUser("admin", "admin123"), DefaultUser("user", "password123")]

  /** One pass of the seeding loop for `d`: insert it unless its name is
      taken. `fails` says that one of the pass's statements throws; the loop
      catches that and the pass changes nothing. */
  function SeedUser(s: Store, d: DefaultUser, salt: Salt, fails: bool): (r: Store)
    ensures Extends(s, r)
    ensures r != s ==>
      && !fails && FindUserByName(s, d.username).None?
      && r.users.Keys == s.users.Keys + {r.lastId} && r.lastId !in s.users
      && r.users[r.lastId] == User(d.username, Hash(d.password, salt), None, None)
  {
    if fails then s
    else if FindUserByName(s, d.username).Some? then s
    else
      match InsertUser(s, d.username, Hash(d.password, salt), None)
      case Failure(_) => s
      case Success(ins) => ins.store
  }

  /** The seeding loop over `ds` in order, with one salt per entry; `broken`
      names the entries whose pass throws. */
  function SeedUsers(s: Store, ds: seq<DefaultUser>, salts: seq<Salt>, broken: set<string>): (r: Store)
    requires |salts| == |ds|
    ensures Extends(s, r)
    ensures forall id :: id in r.users && id !in s.users ==>
      exists i :: 0 <= i < |ds| && ds[i].username !in broken
        && r.users[id] == User(ds[i].username, Hash(ds[i].password, salts[i]), None, None)
        && FindUserByName(s, ds[i].username).None?
    decreases |ds|
  {
    if |ds| == 0 then s
    else
      var n := |ds| - 1;
      var prev := SeedUsers(s, ds[..n], salts[..n], broken);
      var r := SeedUser(prev, ds[n], salts[n], ds[n].username in broken);
      NoUserBeforeNoUser(s, prev, ds[n].username);
      r
  }

  /** A name the lookup misses in an extension of `s` is missed in `s` too. */
  lemma NoUserBeforeNoUser(s: Store, r: Store, name: string)
    requires Extends(s, r)
    ensures FindUserByName(r, name).None? ==> FindUserByName(s, name).None?
  {
    if FindUserByName(s, name).Some? {
      var id := FindUserByName(s, name).value;
      assert id in r.users && r.users[id] == s.users[id];
    }
  }

  /** `initializeUsers`. */
  function InitializeUsers(s: Store, salts: seq<Salt>, broken: set<string>): (r: Store)
    requires |salts| == |DefaultUsers|
    ensures Extends(s, r)
  {
    SeedUsers(s, DefaultUsers, salts, broken)
  }

  lemma {:induction false} SeedUserValid(s: Store, d: DefaultUser, salt: Salt, fails: bool)
    requires Valid(s)
    ensures Valid(SeedUser(s, d, salt, fails))
    ensures !fails ==> HasUser(SeedUser(s, d, salt, fails), d.username)
  {
    InsertUserValid(s, d.username, Hash(d.password, salt), None);
    if !fails && FindUserByName(s, d.username).Some? {
      var id := FindUserByName(s, d.username).value;
      assert s.users[id].username == d.username;
    }
    if !fails && FindUserByName(s, d.username).None? {
      var r := SeedUser(s, d, salt, fails);
      assert r.users[r.lastId].username == d.username;
    }
  }

  /** Seeding keeps the store well formed, and every entry whose pass does
      not throw exists afterwards. */
  lemma {:induction false} SeedUsersValid(s: Store, ds: seq<DefaultUser>, salts: seq<Salt>, broken: set<string>)
    requires Valid(s) && |salts| == |ds|
    ensures Valid(SeedUsers(s, ds, salts, broken))
    ensures forall i :: 0 <= i < |ds| && ds[i].username !in broken ==> HasUser(SeedUsers(s, ds, salts, broken), ds[i].username)
    decreases |ds|
  {
    if |ds| > 0 {
      var n := |ds| - 1;
      var prev := SeedUsers(s, ds[..n], salts[..n], broken);
      SeedUsersValid(s, ds[..n], salts[..n], broken);
      SeedUserValid(prev, ds[n], salts[n], ds[n].username in broken);
      var r := SeedUsers(s, ds, salts, broken);
      forall i | 0 <= i < |ds| && ds[i].username !in broken
        ensures HasUser(r, ds[i].username)
      {
        if i < n {
          assert ds[..n][i] == ds[i];
          var id :| id in prev.users && prev.users[id].username == ds[i].username;
          assert r.users[id] == prev.users[id];
        }
      }
    }
  }

  /** Absent failures both default accounts exist after seeding; a failure
      for one does not keep the other from being created. */
  lemma InitializeUsersCreates(s: Store, salts: seq<Salt>, broken: set<string>)
    requires Valid(s) && |salts| == |DefaultUsers|
    ensures Valid(InitializeUsers(s, salts, broken))
    ensures "admin" !in broken ==> HasUser(InitializeUsers(s, salts, broken), "admin")
    ensures "user" !in broken ==> HasUser(InitializeUsers(s, salts, broken), "user")
  {
    SeedUsersValid(s, DefaultUsers, salts, broken);
    assert DefaultUsers[0].username == "admin" && DefaultUsers[1].username == "user";
  }

  /** Seeding a store that already has every default name changes nothing. */
  lemma {:induction false} SeedUsersPresent(s: Store, ds: seq<DefaultUser>, salts: seq<Salt>, broken: set<string>)
    requires Valid(s) && |salts| == |ds|
    requires forall i :: 0 <= i < |ds| ==> HasUser(s, ds[i].username)
    ensures SeedUsers(s, ds, salts, broken) == s
    decreases |ds|
  {
    if |ds| > 0 {
      var n := |ds| - 1;
      forall i | 0 <= i < n
        ensures HasUser(s, ds[..n][i].username)
      {
        assert ds[..n][i] == ds[i];
      }
      SeedUsersPresent(s, ds[..n], salts[..n], broken);
      FindUserByNameExact(s, ds[n].username, 0);
      assert SeedUser(s, ds[n], salts[n], ds[n].username in broken) == s;
    }
  }

  /** Running `initializeUsers` again inserts nothing: after a run without
      failures a second run, whatever its salts and failures, leaves the store
      as the first run left it. */
  lemma InitializeUsersIdempotent(s: Store, salts: seq<Salt>, salts': seq<Salt>, broken': set<string>)
    requires Valid(s) && |salts| == |DefaultUsers| && |salts'| == |DefaultUsers|
    ensures var once := InitializeUsers(s, salts, {});
            InitializeUsers(once, salts', broken') == once
  {
    var once := InitializeUsers(s, salts, {});
    SeedUsersValid(s, DefaultUsers, salts, {});
    SeedUsersPresent(once, DefaultUsers, salts', broken');
  }
}
