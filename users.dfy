/** Admin users: listing, lookups by id, username and email, create with a
    hashed password, update, a soft delete that deactivates the account,
    the last-login stamp, and the credential check used at login. */
module Users {
  import opened Wrappers
  import opened Errors
  import opened Schema
  import opened Tables
  import opened DbSchema
  import opened Query
  import opened Store

  /** The stored hash of a password: the fixed prefix followed by the
      password. A real digest is not part of this model; what the model
      relies on is that equal hashes mean equal passwords. */
  const HashPrefix: string := "hashed_"

  function HashPassword(password: string): (h: string)
    ensures |h| == |HashPrefix| + |password|
    ensures h[..|HashPrefix|] == HashPrefix
  {
    HashPrefix + password
  }

  /** Two passwords with the same hash are the same password. */
  lemma {:induction false} HashInjective(a: string, b: string)
    requires HashPassword(a) == HashPassword(b)
    ensures a == b
  {
    assert a == HashPassword(a)[|HashPrefix|..];
    assert b == HashPassword(b)[|HashPrefix|..];
  }

  /** Every user, active or not, newest first. */
  function GetUsers(rows: seq<Row<User>>): (r: seq<Row<User>>)
    requires Chrono(rows)
    ensures |r| == |rows|
    ensures forall x :: x in r <==> x in rows
    ensures NewestFirstOrder(r)
  {
    NewestFirst(rows)
  }

  function GetUserById(rows: seq<Row<User>>, id: int): (r: Option<Row<User>>)
    ensures r.None? <==> !HasId(rows, id)
    ensures r.Some? ==> r.value in rows && r.value.id == id
  {
    Find(rows, id)
  }

  function WithUsername(username: string): Row<User> -> bool
  {
    (r: Row<User>) => r.val.username == username
  }

  function WithEmail(email: string): Row<User> -> bool
  {
    (r: Row<User>) => r.val.email == email
  }

  /** Lookup by username; it sees deactivated accounts too. */
  function GetUserByUsername(rows: seq<Row<User>>, username: string): (r: Option<Row<User>>)
    ensures r.None? <==> !KeyTaken(rows, UsernameOf, username)
    ensures r.Some? ==> r.value in rows && r.value.val.username == username
  {
    First(rows, WithUsername(username))
  }

  /** Lookup by email; it sees deactivated accounts too. */
  function GetUserByEmail(rows: seq<Row<User>>, email: string): (r: Option<Row<User>>)
    ensures r.None? <==> !KeyTaken(rows, UserEmailOf, email)
    ensures r.Some? ==> r.value in rows && r.value.val.email == email
  {
    First(rows, WithEmail(email))
  }

  /** Under the unique indexes, a user is what its username and its email
      find. */
  lemma {:induction false} LookupsFindTheUser(rows: seq<Row<User>>, x: Row<User>)
    requires UniqueBy(rows, UsernameOf) && UniqueBy(rows, UserEmailOf) && x in rows
    ensures GetUserByUsername(rows, x.val.username) == Some(x)
    ensures GetUserByEmail(rows, x.val.email) == Some(x)
  {
    var j :| 0 <= j < |rows| && rows[j] == x;
    var u := GetUserByUsername(rows, x.val.username).value;
    var i :| 0 <= i < |rows| && rows[i] == u;
    assert UsernameOf(rows[i].val) == UsernameOf(rows[j].val);
    var e := GetUserByEmail(rows, x.val.email).value;
    var k :| 0 <= k < |rows| && rows[k] == e;
    assert UserEmailOf(rows[k].val) == UserEmailOf(rows[j].val);
  }

  /** The login check: the account with that username, if it is active and
      the password hashes to its stored hash; null otherwise. */
  function ValidateUserCredentials(rows: seq<Row<User>>, username: string, password: string): (r: Option<Row<User>>)
    ensures r.Some? ==> r.value in rows && r.value.val.username == username
    ensures r.Some? ==> r.value.val.isActive && r.value.val.passwordHash == HashPassword(password)
  {
    match GetUserByUsername(rows, username)
    case None => None
    case Some(u) => if u.val.isActive && u.val.passwordHash == HashPassword(password) then Some(u) else None
  }

  /** Under the unique username index, a login succeeds exactly when some
      account has that username, is active, and stores the hash of the
      given password. */
  lemma {:induction false} CredentialsAccepted(rows: seq<Row<User>>, username: string, password: string)
    requires UniqueBy(rows, UsernameOf)
    ensures ValidateUserCredentials(rows, username, password).Some? <==>
      exists x | x in rows :: x.val.username == username && x.val.isActive && x.val.passwordHash == HashPassword(password)
  {
    if x :| x in rows && x.val.username == username && x.val.isActive && x.val.passwordHash == HashPassword(password) {
      assert KeyTaken(rows, UsernameOf, username);
      var u := GetUserByUsername(rows, username).value;
      var i :| 0 <= i < |rows| && rows[i] == u;
      var j :| 0 <= j < |rows| && rows[j] == x;
      assert UsernameOf(rows[i].val) == UsernameOf(rows[j].val);
    }
  }

  /** The row a create stores: the hash of the password instead of the
      password, active unless said otherwise, never logged in. */
  function NewUser(input: CreateUserInput): (u: User)
    ensures u.username == input.username && u.email == input.email
    ensures u.fullName == input.fullName && u.role == input.role
    ensures u.passwordHash == HashPassword(input.password)
    ensures u.isActive == input.isActive.GetOr(true) && u.lastLogin.None?
  {
    User(input.username, input.email, HashPassword(input.password), input.fullName, input.role,
         input.isActive.GetOr(true), None)
  }

  /** A given password replaces the stored hash by the new password's hash;
      `last_login` is not something an update sets. */
  function ApplyUserPatch(u: User, p: UpdateUserInput): (r: User)
    ensures r.lastLogin == u.lastLogin
    ensures p.password.None? ==> r.passwordHash == u.passwordHash
    ensures p.password.Some? ==> r.passwordHash == HashPassword(p.password.value)
  {
    User(p.username.GetOr(u.username), p.email.GetOr(u.email),
         if p.password.Some? then HashPassword(p.password.value) else u.passwordHash,
         p.fullName.GetOr(u.fullName), p.role.GetOr(u.role), p.isActive.GetOr(u.isActive), u.lastLogin)
  }

  // ------------------------------------------------------------- writes

  /** What `createUser` does when the write is stamped `now`: a username in
      use is refused, then an email in use; otherwise the row is appended. */
  function CreateUserSpec(t: Table<User>, input: CreateUserInput, now: nat): (Result<Row<User>, Error>, Table<User>)
  {
    if KeyTaken(t.rows, UsernameOf, input.username) then (Failure(UniqueViolation(Username)), t)
    else if KeyTaken(t.rows, UserEmailOf, input.email) then (Failure(UniqueViolation(UserEmail)), t)
    else (Success(Row(t.nextId, now, now, NewUser(input))), Insert(t, NewUser(input), now))
  }

  /** What `updateUser` does: null for an unknown id; a new username or
      email held by another user is refused; otherwise the patched row
      replaces the old one, stamped `now`. */
  function UpdateUserSpec(t: Table<User>, input: UpdateUserInput, now: nat): (Result<Option<Row<User>>, Error>, Table<User>)
  {
    match Find(t.rows, input.id)
    case None => (Success(None), t)
    case Some(before) =>
      var after := ApplyUserPatch(before.val, input);
      if !KeyFreeFor(t.rows, UsernameOf, after.username, input.id) then (Failure(UniqueViolation(Username)), t)
      else if !KeyFreeFor(t.rows, UserEmailOf, after.email, input.id) then (Failure(UniqueViolation(UserEmail)), t)
      else (Success(Some(before.(val := after, updatedAt := now))), Table(Update(t.rows, input.id, after, now), t.nextId))
  }

  /** What `deleteUser` does: the account is kept but deactivated, its
      `updated_at` refreshed; the result says whether the id was known. */
  function DeleteUserSpec(t: Table<User>, id: int, now: nat): (bool, Table<User>)
  {
    match Find(t.rows, id)
    case None => (false, t)
    case Some(u) => (true, Table(Update(t.rows, id, u.val.(isActive := false), now), t.nextId))
  }

  /** What `updateUserLastLogin` does: stamps `last_login` and `updated_at`
      with `now`; an unknown id changes nothing. */
  function UpdateUserLastLoginSpec(t: Table<User>, id: int, now: nat): Table<User>
  {
    match Find(t.rows, id)
    case None => t
    case Some(u) => Table(Update(t.rows, id, u.val.(lastLogin := Some(now)), now), t.nextId)
  }

  method CreateUser(db: Db, input: CreateUserInput) returns (res: Result<Row<User>, Error>)
    requires db.Valid()
    modifies db`users, db`clock
    ensures db.Valid()
    ensures (res, db.users) == CreateUserSpec(old(db.users), input, old(db.clock) + 1)
    ensures db.clock == if res.Success? then old(db.clock) + 1 else old(db.clock)
  {
    if KeyTaken(db.users.rows, UsernameOf, input.username) {
      return Failure(UniqueViolation(Username));
    }
    if KeyTaken(db.users.rows, UserEmailOf, input.email) {
      return Failure(UniqueViolation(UserEmail));
    }
    var now := db.clock + 1;
    var v := NewUser(input);
    ghost var s := db.Contents();
    var inserted := Insert(db.users, v, now);
    InsertKeepsConsistent(s, v, inserted, now);
    res := Success(Row(db.users.nextId, now, now, v));
    db.users, db.clock := inserted, now;
    assert db.Contents() == s.(users := inserted, clock := now);
  }

  method UpdateUser(db: Db, input: UpdateUserInput) returns (res: Result<Option<Row<User>>, Error>)
    requires db.Valid()
    modifies db`users, db`clock
    ensures db.Valid()
    ensures (res, db.users) == UpdateUserSpec(old(db.users), input, old(db.clock) + 1)
    ensures db.clock == if res.Success? && res.value.Some? then old(db.clock) + 1 else old(db.clock)
  {
    var found := Find(db.users.rows, input.id);
    if found.None? {
      return Success(None);
    }
    var before := found.value;
    var after := ApplyUserPatch(before.val, input);
    if !KeyFreeFor(db.users.rows, UsernameOf, after.username, input.id) {
      return Failure(UniqueViolation(Username));
    }
    if !KeyFreeFor(db.users.rows, UserEmailOf, after.email, input.id) {
      return Failure(UniqueViolation(UserEmail));
    }
    var now := db.clock + 1;
    ghost var s := db.Contents();
    var updated := Table(Update(db.users.rows, input.id, after, now), db.users.nextId);
    UpdateKeepsConsistent(s, input.id, after, updated, now);
    db.users, db.clock := updated, now;
    assert db.Contents() == s.(users := updated, clock := now);
    res := Success(Some(before.(val := after, updatedAt := now)));
  }

  method DeleteUser(db: Db, id: int) returns (existed: bool)
    requires db.Valid()
    modifies db`users, db`clock
    ensures db.Valid()
    ensures (existed, db.users) == DeleteUserSpec(old(db.users), id, old(db.clock) + 1)
    ensures db.clock == if existed then old(db.clock) + 1 else old(db.clock)
  {
    var found := Find(db.users.rows, id);
    if found.None? {
      return false;
    }
    var before := found.value;
    var after := before.val.(isActive := false);
    var now := db.clock + 1;
    ghost var s := db.Contents();
    OwnKeyFree(db.users.rows, UsernameOf, before);
    OwnKeyFree(db.users.rows, UserEmailOf, before);
    var updated := Table(Update(db.users.rows, id, after, now), db.users.nextId);
    UpdateKeepsConsistent(s, id, after, updated, now);
    db.users, db.clock := updated, now;
    assert db.Contents() == s.(users := updated, clock := now);
    existed := true;
  }

  method UpdateUserLastLogin(db: Db, id: int)
    requires db.Valid()
    modifies db`users, db`clock
    ensures db.Valid()
    ensures db.users == UpdateUserLastLoginSpec(old(db.users), id, old(db.clock) + 1)
    ensures db.clock == if HasId(old(db.users).rows, id) then old(db.clock) + 1 else old(db.clock)
  {
    var found := Find(db.users.rows, id);
    if found.None? {
      return;
    }
    var before := found.value;
    var after := before.val.(lastLogin := Some(db.clock + 1));
    var now := db.clock + 1;
    ghost var s := db.Contents();
    OwnKeyFree(db.users.rows, UsernameOf, before);
    OwnKeyFree(db.users.rows, UserEmailOf, before);
    var updated := Table(Update(db.users.rows, id, after, now), db.users.nextId);
    UpdateKeepsConsistent(s, id, after, updated, now);
    db.users, db.clock := updated, now;
    assert db.Contents() == s.(users := updated, clock := now);
  }

  // ------------------------------------------------- what the writes promise

  /** A create with a free username and email appends one active-by-default
      row whose stored hash is that of the password; the new account then
      logs in with that password, if active, and with no other. */
  lemma {:induction false} CreateUserFacts(t: Table<User>, clock: nat, input: CreateUserInput, other: string)
    requires WellFormed(t, clock) && UniqueBy(t.rows, UsernameOf) && UniqueBy(t.rows, UserEmailOf)
    ensures var (r, t') := CreateUserSpec(t, input, clock + 1);
      && (r.Failure? <==> KeyTaken(t.rows, UsernameOf, input.username) || KeyTaken(t.rows, UserEmailOf, input.email))
      && (r.Failure? ==> t' == t)
      && (r.Success? ==>
            && r.value.val == NewUser(input)
            && GetUserById(t'.rows, r.value.id) == Some(r.value)
            && GetUserByUsername(t'.rows, input.username) == Some(r.value)
            && GetUserByEmail(t'.rows, input.email) == Some(r.value)
            && ValidateUserCredentials(t'.rows, input.username, input.password)
               == (if input.isActive.GetOr(true) then Some(r.value) else None)
            && (other != input.password ==> ValidateUserCredentials(t'.rows, input.username, other).None?)
            && forall x | x in t.rows :: GetUserById(t'.rows, x.id) == Some(x))
  {
    var (r, t') := CreateUserSpec(t, input, clock + 1);
    if r.Success? {
      var v := NewUser(input);
      WellFormedLater(t, clock, clock + 1);
      FindAfterInsert(t, v, clock + 1);
      InsertKeepsUnique(t, UsernameOf, v, clock + 1);
      InsertKeepsUnique(t, UserEmailOf, v, clock + 1);
      LookupsFindTheUser(t'.rows, r.value);
      if other != input.password && HashPassword(other) == v.passwordHash {
        HashInjective(other, input.password);
      }
    }
  }

  /** An update of a known user changes that row only; a new password is
      the one the account logs in with from then on. */
  lemma {:induction false} UpdateUserFacts(t: Table<User>, clock: nat, input: UpdateUserInput)
    requires WellFormed(t, clock) && UniqueBy(t.rows, UsernameOf) && UniqueBy(t.rows, UserEmailOf)
    ensures var (r, t') := UpdateUserSpec(t, input, clock + 1);
      && (!HasId(t.rows, input.id) ==> r == Success(None) && t' == t)
      && (r.Failure? ==> t' == t)
      && (r.Success? && r.value.Some? ==>
            var before := GetUserById(t.rows, input.id).value;
            && r.value.value.val == ApplyUserPatch(before.val, input)
            && r.value.value.createdAt == before.createdAt
            && r.value.value.updatedAt > before.updatedAt
            && GetUserById(t'.rows, input.id) == r.value
            && (input.password.Some? && r.value.value.val.isActive ==>
                  ValidateUserCredentials(t'.rows, r.value.value.val.username, input.password.value) == r.value)
            && forall x | x in t.rows && x.id != input.id :: GetUserById(t'.rows, x.id) == Some(x))
  {
    var (r, t') := UpdateUserSpec(t, input, clock + 1);
    if r.Success? && r.value.Some? {
      var before := Find(t.rows, input.id).value;
      var after := ApplyUserPatch(before.val, input);
      FindAfterUpdate(t.rows, before, after, clock + 1);
      UpdateKeepsUnique(t.rows, UsernameOf, input.id, after, clock + 1);
      UpdateKeepsUnique(t.rows, UserEmailOf, input.id, after, clock + 1);
      assert r.value.value in t'.rows;
      LookupsFindTheUser(t'.rows, r.value.value);
    }
  }

  /** A soft delete keeps the account, found by id with every other column
      as it was, but deactivated with a later `updated_at`, so it no longer
      logs in with any password. */
  lemma {:induction false} DeleteUserFacts(t: Table<User>, clock: nat, id: int, password: string)
    requires WellFormed(t, clock) && UniqueBy(t.rows, UsernameOf)
    ensures var (r, t') := DeleteUserSpec(t, id, clock + 1);
      && r == HasId(t.rows, id)
      && (!r ==> t' == t)
      && (r ==>
            var before := GetUserById(t.rows, id).value;
            && GetUserById(t'.rows, id) == Some(before.(val := before.val.(isActive := false), updatedAt := clock + 1))
            && before.updatedAt < clock + 1
            && ValidateUserCredentials(t'.rows, before.val.username, password).None?
            && forall x | x in t.rows && x.id != id :: GetUserById(t'.rows, x.id) == Some(x))
  {
    var (r, t') := DeleteUserSpec(t, id, clock + 1);
    if r {
      var before := Find(t.rows, id).value;
      var after := before.val.(isActive := false);
      FindAfterUpdate(t.rows, before, after, clock + 1);
      OwnKeyFree(t.rows, UsernameOf, before);
      UpdateKeepsUnique(t.rows, UsernameOf, id, after, clock + 1);
      UsernameLookupAfterUpdate(t.rows, before, after, clock + 1);
    }
  }

  /** After rewriting one row whose username is unchanged, its username
      finds the rewritten row. */
  lemma UsernameLookupAfterUpdate(rows: seq<Row<User>>, before: Row<User>, after: User, now: nat)
    requires Chrono(rows) && before in rows && after.username == before.val.username
    requires UniqueBy(Update(rows, before.id, after, now), UsernameOf)
    ensures GetUserByUsername(Update(rows, before.id, after, now), after.username) == Some(before.(val := after, updatedAt := now))
  {
    var u := Update(rows, before.id, after, now);
    var j :| 0 <= j < |rows| && rows[j] == before;
    assert u[j] == before.(val := after, updatedAt := now);
    var f := GetUserByUsername(u, after.username).value;
    var i :| 0 <= i < |u| && u[i] == f;
    assert UsernameOf(u[i].val) == UsernameOf(u[j].val);
  }

  /** A login stamp sets `last_login` to the instant of the write and touches
      no other column of any row. */
  lemma {:induction false} LastLoginFacts(t: Table<User>, clock: nat, id: int)
    requires WellFormed(t, clock)
    ensures var t' := UpdateUserLastLoginSpec(t, id, clock + 1);
      && (!HasId(t.rows, id) ==> t' == t)
      && (HasId(t.rows, id) ==>
            var before := GetUserById(t.rows, id).value;
            && GetUserById(t'.rows, id).value.val == before.val.(lastLogin := Some(clock + 1))
            && GetUserById(t'.rows, id).value.updatedAt == clock + 1 > before.updatedAt
            && forall x | x in t.rows && x.id != id :: GetUserById(t'.rows, x.id) == Some(x))
  {
    if HasId(t.rows, id) {
      var before := Find(t.rows, id).value;
      FindAfterUpdate(t.rows, before, before.val.(lastLogin := Some(clock + 1)), clock + 1);
    }
  }

  // ------------------------------------------- the store invariant survives

  lemma InsertKeepsConsistent(s: Snapshot, v: User, t: Table<User>, now: nat)
    requires Consistent(s)
    requires !KeyTaken(s.users.rows, UsernameOf, v.username) && !KeyTaken(s.users.rows, UserEmailOf, v.email)
    requires now == s.clock + 1 && t == Insert(s.users, v, now)
    ensures Consistent(s.(users := t, clock := now))
  {
    WellFormedLater(s.users, s.clock, now);
    InsertWellFormed(s.users, v, now);
    InsertKeepsUnique(s.users, UsernameOf, v, now);
    InsertKeepsUnique(s.users, UserEmailOf, v, now);
    UsersReplaced(s, t, now);
  }

  lemma UpdateKeepsConsistent(s: Snapshot, id: int, v: User, t: Table<User>, now: nat)
    requires Consistent(s)
    requires KeyFreeFor(s.users.rows, UsernameOf, v.username, id) && KeyFreeFor(s.users.rows, UserEmailOf, v.email, id)
    requires now == s.clock + 1 && t == Table(Update(s.users.rows, id, v, now), s.users.nextId)
    ensures Consistent(s.(users := t, clock := now))
  {
    WellFormedLater(s.users, s.clock, now);
    UpdateWellFormed(s.users, id, v, now);
    UpdateKeepsUnique(s.users.rows, UsernameOf, id, v, now);
    UpdateKeepsUnique(s.users.rows, UserEmailOf, id, v, now);
    UsersReplaced(s, t, now);
  }
}
