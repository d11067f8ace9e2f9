/**
 * The `users` table (`username TEXT UNIQUE NOT NULL`, `password` holding a
 * salted hash) and the credential operations over it, as functions from
 * the table before to the table after.
 */
module Accounts {
  import opened SqlTable
  import opened Credentials

  datatype User = User(username: string, password: StoredHash)

  type UserTable = Table<User>

  const AdminName: string := "admin"
  const DefaultAdminPassword: string := "admin123"

  /** The UNIQUE constraint on `username`. */
  ghost predicate UniqueUsernames(t: UserTable) {
    forall i, j :: i in t.rows && j in t.rows && t.rows[i].username == t.rows[j].username ==> i == j
  }

  /** Some row carries this username. */
  predicate Taken(t: UserTable, username: string) {
    exists id :: id in t.rows && t.rows[id].username == username
  }

  /** How many rows carry this username. */
  ghost function CountNamed(t: UserTable, username: string): nat {
    |set id | id in t.rows && t.rows[id].username == username|
  }

  /** Python truthiness of `current_user`: neither None nor the empty string. */
  predicate LoggedIn(actingUser: Option<string>) {
    actingUser.Some? && actingUser.value != ""
  }

  datatype RegisterOutcome = Registered(id: int) | UsernameExists | NotLoggedIn

  /**
   * `register_user`: with no acting user, return before touching the table;
   * otherwise insert the hashed password, which the UNIQUE constraint
   * refuses when the username is already present.
   */
  function Register(t: UserTable, kdf: Kdf, actingUser: Option<string>, username: string,
                    password: string, salt: Salt): (r: (UserTable, RegisterOutcome))
    requires Valid(t)
    ensures Valid(r.0)
    ensures r.1 == NotLoggedIn <==> !LoggedIn(actingUser)
    ensures r.1 == UsernameExists <==> LoggedIn(actingUser) && Taken(t, username)
    ensures !r.1.Registered? ==> r.0 == t
    ensures r.1.Registered? ==>
      r.1.id > t.lastId && r.1.id !in t.rows && r.0.lastId == r.1.id &&
      r.0.rows == t.rows[r.1.id := User(username, HashPassword(kdf, password, salt))]
  {
    if !LoggedIn(actingUser) then (t, NotLoggedIn)
    else if Taken(t, username) then (t, UsernameExists)
    else
      var (t', id) := Insert(t, User(username, HashPassword(kdf, password, salt)));
      (t', Registered(id))
  }

  /** `init_db`: insert `admin` with the default password unless present. */
  function EnsureAdmin(t: UserTable, kdf: Kdf, salt: Salt): (r: UserTable)
    requires Valid(t)
    ensures Valid(r)
    ensures Taken(r, AdminName)
    ensures Taken(t, AdminName) ==> r == t
    ensures !Taken(t, AdminName) ==>
      r.lastId == t.lastId + 1 &&
      r.rows == t.rows[r.lastId := User(AdminName, HashPassword(kdf, DefaultAdminPassword, salt))]
  {
    if Taken(t, AdminName) then t
    else
      var r := Insert(t, User(AdminName, HashPassword(kdf, DefaultAdminPassword, salt))).0;
      assert r.rows[r.lastId].username == AdminName;
      r
  }

  /** `SELECT password FROM users WHERE username = ?` then `fetchone()`. */
  function StoredPassword(t: UserTable, username: string): (h: Option<StoredHash>)
    requires Valid(t)
    ensures h.Some? <==> Taken(t, username)
    ensures h.Some? ==>
      exists id :: id in t.rows && t.rows[id].username == username && t.rows[id].password == h.value
  {
    TakenInRows(t, username);
    match FirstWhere(Rows(t), (u: User) => u.username == username)
    case None => None
    case Some(row) => Some(row.value.password)
  }

  /** A username is taken exactly when a full scan meets a row carrying it. */
  lemma TakenInRows(t: UserTable, username: string)
    requires Valid(t)
    ensures Taken(t, username) <==> exists r :: r in Rows(t) && r.value.username == username
  {
    if Taken(t, username) {
      var id :| id in t.rows && t.rows[id].username == username;
      assert Row(id, t.rows[id]) in Rows(t);
    }
  }

  /** `authenticate_user`: a row exists and the password checks against it. */
  function Authenticate(t: UserTable, kdf: Kdf, username: string, password: string): (ok: bool)
    requires Valid(t)
    ensures ok ==> exists id :: id in t.rows && t.rows[id].username == username &&
                                CheckPassword(kdf, password, t.rows[id].password)
    ensures !Taken(t, username) ==> !ok
  {
    match StoredPassword(t, username)
    case None => false
    case Some(h) => CheckPassword(kdf, password, h)
  }

  // ---------------------------------------------------------------------
  // authenticate_user

  /**
   * Authentication succeeds exactly when the user's row exists and the
   * password verifies against the hash stored in it.
   */
  lemma AuthenticateIff(t: UserTable, kdf: Kdf, username: string, password: string)
    requires Valid(t) && UniqueUsernames(t)
    ensures Authenticate(t, kdf, username, password) <==>
      exists id :: id in t.rows && t.rows[id].username == username &&
        CheckPassword(kdf, password, t.rows[id].password)
  {
    var keep := (u: User) => u.username == username;
    var found := FirstWhere(Rows(t), keep);
    if found.Some? {
      var row := found.value;
      assert row.id in t.rows && t.rows[row.id] == row.value;
      forall id | id in t.rows && t.rows[id].username == username
        ensures t.rows[id].password == row.value.password
      {
        assert id == row.id;
      }
    } else {
      forall id | id in t.rows ensures t.rows[id].username != username {
        assert Row(id, t.rows[id]) in Rows(t);
      }
    }
  }

  // ---------------------------------------------------------------------
  // register_user

  /** With no acting user the table is untouched. */
  lemma RegisterNeedsLogin(t: UserTable, kdf: Kdf, actingUser: Option<string>, username: string,
                           password: string, salt: Salt)
    requires Valid(t) && !LoggedIn(actingUser)
    ensures Register(t, kdf, actingUser, username, password, salt) == (t, NotLoggedIn)
  {
  }

  /** A username already present is refused and the table is untouched. */
  lemma RegisterDuplicate(t: UserTable, kdf: Kdf, actingUser: Option<string>, username: string,
                          password: string, salt: Salt)
    requires Valid(t) && LoggedIn(actingUser) && Taken(t, username)
    ensures Register(t, kdf, actingUser, username, password, salt) == (t, UsernameExists)
  {
  }

  /** Registration never creates a second row with the same username. */
  lemma RegisterKeepsUnique(t: UserTable, kdf: Kdf, actingUser: Option<string>, username: string,
                            password: string, salt: Salt)
    requires Valid(t) && UniqueUsernames(t)
    ensures UniqueUsernames(Register(t, kdf, actingUser, username, password, salt).0)
    ensures CountNamed(Register(t, kdf, actingUser, username, password, salt).0, username) <= 1
  {
    var t' := Register(t, kdf, actingUser, username, password, salt).0;
    CountNamedAtMostOne(t', username);
  }

  /** A newly registered user can log in with the password just given. */
  lemma RegisterThenAuthenticate(t: UserTable, kdf: Kdf, actingUser: Option<string>,
                                 username: string, password: string, salt: Salt)
    requires Valid(t) && UniqueUsernames(t) && LoggedIn(actingUser) && !Taken(t, username)
    ensures Register(t, kdf, actingUser, username, password, salt).1.Registered?
    ensures Authenticate(Register(t, kdf, actingUser, username, password, salt).0, kdf, username, password)
  {
    var (t', outcome) := Register(t, kdf, actingUser, username, password, salt);
    var id := outcome.id;
    assert t'.rows[id] == User(username, HashPassword(kdf, password, salt));
    AuthenticateIff(t', kdf, username, password);
  }

  /** With a collision-free hash, no other password logs the new user in. */
  lemma RegisterThenWrongPassword(t: UserTable, kdf: Kdf, actingUser: Option<string>,
                                  username: string, password: string, other: string, salt: Salt)
    requires Valid(t) && UniqueUsernames(t) && LoggedIn(actingUser) && !Taken(t, username)
    requires CollisionFree(kdf) && other != password
    ensures !Authenticate(Register(t, kdf, actingUser, username, password, salt).0, kdf, username, other)
  {
    var (t', outcome) := Register(t, kdf, actingUser, username, password, salt);
    var id := outcome.id;
    assert t'.rows[id] == User(username, HashPassword(kdf, password, salt));
    RegisterKeepsUnique(t, kdf, actingUser, username, password, salt);
    AuthenticateIff(t', kdf, username, other);
    CheckRejectsOtherPassword(kdf, password, other, salt);
  }

  // ---------------------------------------------------------------------
  // init_db

  /** Under the UNIQUE constraint a username is on at most one row. */
  lemma CountNamedAtMostOne(t: UserTable, username: string)
    requires UniqueUsernames(t)
    ensures CountNamed(t, username) <= 1
    ensures Taken(t, username) ==> CountNamed(t, username) == 1
  {
    var named := set id | id in t.rows && t.rows[id].username == username;
    if Taken(t, username) {
      var id :| id in t.rows && t.rows[id].username == username;
      assert forall x :: x in named <==> x == id;
      assert named == {id};
    } else {
      assert forall x :: x !in named;
      assert named == {};
    }
  }

  /**
   * After `init_db` there is exactly one `admin` row; one that was there is
   * kept as it was, password included.
   */
  lemma EnsureAdminExactlyOne(t: UserTable, kdf: Kdf, salt: Salt)
    requires Valid(t) && UniqueUsernames(t)
    ensures UniqueUsernames(EnsureAdmin(t, kdf, salt))
    ensures Taken(EnsureAdmin(t, kdf, salt), AdminName)
    ensures CountNamed(EnsureAdmin(t, kdf, salt), AdminName) == 1
    ensures Taken(t, AdminName) ==> EnsureAdmin(t, kdf, salt) == t
  {
    var t' := EnsureAdmin(t, kdf, salt);
    if !Taken(t, AdminName) {
      assert t'.rows[t'.lastId].username == AdminName;
    }
    CountNamedAtMostOne(t', AdminName);
  }

  /** Running `init_db` again changes nothing, whatever salt it draws. */
  lemma EnsureAdminIdempotent(t: UserTable, kdf: Kdf, salt: Salt, salt': Salt)
    requires Valid(t)
    ensures EnsureAdmin(EnsureAdmin(t, kdf, salt), kdf, salt') == EnsureAdmin(t, kdf, salt)
  {
    var t' := EnsureAdmin(t, kdf, salt);
    if !Taken(t, AdminName) {
      assert t'.rows[t'.lastId].username == AdminName;
    }
  }

  /** A freshly created `admin` logs in with the default password. */
  lemma DefaultAdminLogsIn(t: UserTable, kdf: Kdf, salt: Salt)
    requires Valid(t) && UniqueUsernames(t) && !Taken(t, AdminName)
    ensures Authenticate(EnsureAdmin(t, kdf, salt), kdf, AdminName, DefaultAdminPassword)
  {
    var t' := EnsureAdmin(t, kdf, salt);
    assert t'.rows[t'.lastId] == User(AdminName, HashPassword(kdf, DefaultAdminPassword, salt));
    EnsureAdminExactlyOne(t, kdf, salt);
    AuthenticateIff(t', kdf, AdminName, DefaultAdminPassword);
  }
}
