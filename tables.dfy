/**
 * The users container and the role rules of mymail/tables.py: role
 * normalisation, the rule that the user "admin" is always an administrator,
 * the login decision of `verify_user`, the sorted user listing and the day
 * bounds of `_list_by_day_range`. The container is a map from user id to the
 * stored document; password hashing is opaque: the hash written is a
 * parameter and `check_password_hash` is a predicate parameter.
 */
module Tables {
  import opened Wrappers
  import opened Text
  import Sorting

  const RoleRevisor := "Revisor"
  const RoleAdmin := "Administrador"

  predicate IsRole(r: string)
  {
    r == RoleRevisor || r == RoleAdmin
  }

  predicate NamesAdmin(lowered: string)
  {
    lowered == "admin" || lowered == "administrador" || lowered == "administrator"
  }

  /** `normalize_role`: every stored or requested role becomes one of the two roles. */
  function NormalizeRole(role: string): (r: string)
    ensures IsRole(r)
    ensures IsBlank(role) ==> r == RoleRevisor
    ensures r == RoleAdmin <==> NamesAdmin(Lower(Strip(role)))
  {
    var role := Strip(role);
    var lowered := Lower(role);
    if role == "" then RoleRevisor
    else if NamesAdmin(lowered) then RoleAdmin
    else if lowered == "revisor" || lowered == "reviewer" then RoleRevisor
    else RoleRevisor
  }

  /** The role `create_user` and `set_user_role` store for an already stripped username. */
  function StoredRole(username: string, role: string): (r: string)
    ensures IsRole(r)
    ensures Lower(username) == "admin" ==> r == RoleAdmin
    ensures Lower(username) != "admin" ==> r == NormalizeRole(role)
  {
    var role := NormalizeRole(role);
    if Lower(username) == "admin" then RoleAdmin else role
  }

  /** A document of the users container; a field the last upsert did not write is `None`. */
  datatype UserDoc = UserDoc(passwordHash: Option<string>, role: Option<string>, active: Option<bool>)

  type Users = map<string, UserDoc>

  /**
   * `create_user`: upserts the full document of the stripped username, or
   * raises on an empty username or password. `hash` is what
   * `generate_password_hash(password)` returned.
   */
  function CreateUser(users: Users, username: string, password: string, role: string, hash: string): (r: Result<Users, string>)
    ensures r.Err? <==> IsBlank(username) || password == ""
  {
    var username := Strip(username);
    if username == "" then Err("username vacío")
    else if password == "" then Err("password vacío")
    else Ok(users[username := UserDoc(Some(hash), Some(StoredRole(username, role)), Some(true))])
  }

  /** The user created is active, holds the new hash and its stored role; nobody else changes. */
  lemma CreateUserWrites(users: Users, username: string, password: string, role: string, hash: string)
    requires CreateUser(users, username, password, role, hash).Ok?
    ensures var r := CreateUser(users, username, password, role, hash).value; var u := Strip(username);
      && r.Keys == users.Keys + {u}
      && r[u] == UserDoc(Some(hash), Some(StoredRole(u, role)), Some(true))
      && forall v :: v in users && v != u ==> r[v] == users[v]
  {
  }

  /**
   * `set_user_role` AS WRITTEN: it upserts a document holding only id, pk and
   * role, and an upsert replaces the whole stored document.
   */
  function SetUserRoleAsWritten(users: Users, username: string, role: string): (r: Result<Users, string>)
    ensures r.Err? <==> IsBlank(username)
  {
    var username := Strip(username);
    if username == "" then Err("username vac︽")
    else Ok(users[username := UserDoc(None, Some(StoredRole(username, role)), None)])
  }

  /** The as-written upsert leaves the user's document with a role and nothing else. */
  lemma SetUserRoleAsWrittenWrites(users: Users, username: string, role: string)
    requires SetUserRoleAsWritten(users, username, role).Ok?
    ensures var r := SetUserRoleAsWritten(users, username, role).value; var u := Strip(username);
      && r.Keys == users.Keys + {u}
      && r[u] == UserDoc(None, Some(StoredRole(u, role)), None)
  {
  }

  /** `set_user_role` as evidently intended: only the role of the stored document changes. */
  function SetUserRole(users: Users, username: string, role: string): (r: Result<Users, string>)
    ensures r.Err? <==> IsBlank(username)
  {
    var username := Strip(username);
    if username == "" then Err("username vac︽")
    else
      var doc := if username in users then users[username] else UserDoc(None, None, None);
      Ok(users[username := doc.(role := Some(StoredRole(username, role)))])
  }

  /** The intended update changes the role of that one document and nothing else. */
  lemma SetUserRoleWrites(users: Users, username: string, role: string)
    requires SetUserRole(users, username, role).Ok?
    ensures var r := SetUserRole(users, username, role).value; var u := Strip(username);
      && r.Keys == users.Keys + {u}
      && r[u].role == Some(StoredRole(u, role))
      && (u in users ==> r[u] == users[u].(role := Some(StoredRole(u, role))))
      && forall v :: v in users && v != u ==> r[v] == users[v]
  {
    var u := Strip(username);
    var doc := if u in users then users[u] else UserDoc(None, None, None);
    var stored := StoredRole(u, role);
    assert SetUserRole(users, username, role).value == users[u := doc.(role := Some(stored))];
  }

  datatype AuthResult = AuthResult(ok: bool, reason: string, role: string)

  /** The point read of `verify_user`: `None` when it raised (not found or any other error). */
  function ReadUser(users: Users, readFails: bool, u: string): (r: Option<UserDoc>)
    ensures r.Some? <==> !readFails && u in users
    ensures r.Some? ==> r.value == users[u]
  {
    if readFails || u !in users then None else Some(users[u])
  }

  /**
   * The decision of `verify_user` once the stripped username `u` was read:
   * the ladder missing, not_found, inactive, invalid, then success.
   */
  function Login(u: string, password: string, found: Option<UserDoc>, checkHash: (string, string) -> bool): (r: AuthResult)
    ensures r.ok ==> r.reason == "" && IsRole(r.role)
    ensures r.reason == "missing" <==> u == "" || password == ""
    ensures r.reason == "not_found" <==> u != "" && password != "" && found.None?
    ensures r.reason == "inactive" <==> u != "" && password != "" && found.Some? && found.value.active == Some(false)
    ensures r.reason == "invalid" <==>
      && u != "" && password != "" && found.Some? && found.value.active != Some(false)
      && !(found.value.passwordHash.Some? && found.value.passwordHash.value != "" &&
           checkHash(found.value.passwordHash.value, password))
    ensures r.ok <==>
      && u != "" && password != "" && found.Some?
      && found.value.active != Some(false)
      && found.value.passwordHash.Some? && found.value.passwordHash.value != ""
      && checkHash(found.value.passwordHash.value, password)
    ensures r.ok ==> r.role == StoredRole(u, RoleField(found.value))
  {
    if u == "" || password == "" then AuthResult(false, "missing", "")
    else if found.None? then AuthResult(false, "not_found", "")
    else
      var doc := found.value;
      if doc.active == Some(false) then AuthResult(false, "inactive", "")
      else
        var hash := if doc.passwordHash.Some? then doc.passwordHash.value else "";
        if hash == "" || !checkHash(hash, password) then AuthResult(false, "invalid", "")
        else
          var role := NormalizeRole(RoleField(doc));
          AuthResult(true, "", if Lower(u) == "admin" then RoleAdmin else role)
  }

  /**
   * `verify_user`: the login decision. `readFails` is a read of the users
   * container that raised for any reason; `checkHash` is `check_password_hash`.
   */
  function VerifyUser(users: Users, readFails: bool, username: string, password: string,
                      checkHash: (string, string) -> bool): (r: AuthResult)
    ensures r.reason == "missing" <==> IsBlank(username) || password == ""
    ensures r.reason == "not_found" <==> !IsBlank(username) && password != "" && (readFails || Strip(username) !in users)
    ensures r.reason == "inactive" <==>
      !IsBlank(username) && password != "" && !readFails && Strip(username) in users &&
      users[Strip(username)].active == Some(false)
    ensures r.reason == "invalid" <==>
      && !IsBlank(username) && password != "" && !readFails && Strip(username) in users
      && users[Strip(username)].active != Some(false)
      && !(users[Strip(username)].passwordHash.Some? && users[Strip(username)].passwordHash.value != "" &&
           checkHash(users[Strip(username)].passwordHash.value, password))
    ensures r.ok <==>
      && !IsBlank(username) && password != "" && !readFails && Strip(username) in users
      && users[Strip(username)].active != Some(false)
      && users[Strip(username)].passwordHash.Some? && users[Strip(username)].passwordHash.value != ""
      && checkHash(users[Strip(username)].passwordHash.value, password)
    ensures r.ok ==> IsRole(r.role) && r.role == StoredRole(Strip(username), RoleField(users[Strip(username)]))
  {
    var u := Strip(username);
    Login(u, password, ReadUser(users, readFails, u), checkHash)
  }

  /** A stored document with a matching hash, not deactivated, logs in under its stored role. */
  lemma {:induction false} DocLogsIn(u: string, password: string, doc: UserDoc, given: string,
                                     checkHash: (string, string) -> bool)
    requires u != "" && password != ""
    requires doc.active != Some(false) && doc.passwordHash.Some? && doc.passwordHash.value != ""
    requires checkHash(doc.passwordHash.value, password)
    requires doc.role == Some(StoredRole(u, given))
    ensures Login(u, password, Some(doc), checkHash) == AuthResult(true, "", StoredRole(u, given))
  {
    var stored := StoredRole(u, given);
    assert RoleField(doc) == stored;
    NormalizeRoleFixesRoles(stored);
    var r := Login(u, password, Some(doc), checkHash);
    assert r.ok;
    assert r.role == StoredRole(u, RoleField(doc));
  }

  /** `str(entity.get("role", "") or ROLE_REVISOR)`: the stored role, "Revisor" when missing or empty. */
  function RoleField(doc: UserDoc): string
  {
    if doc.role.None? || doc.role.value == "" then RoleRevisor else doc.role.value
  }

  lemma {:induction false} RevisorIsNormal(r: string)
    requires r == RoleRevisor
    ensures NormalizeRole(r) == r
  {
    assert Strip(r) == r by {
      assert IsTrimmed(r);
      StripTrimmed(r);
    }
    assert !NamesAdmin(Lower(r)) by {
      assert Lower(r) == "revisor";
    }
  }

  lemma {:induction false} AdminIsNormal(r: string)
    requires r == RoleAdmin
    ensures NormalizeRole(r) == r
  {
    assert Strip(r) == r by {
      assert IsTrimmed(r);
      StripTrimmed(r);
    }
    assert NamesAdmin(Lower(r)) by {
      assert Lower(r) == "administrador";
    }
  }

  /** The two roles are already normal. */
  lemma NormalizeRoleFixesRoles(r: string)
    requires IsRole(r)
    ensures NormalizeRole(r) == r
  {
    if r == RoleRevisor {
      RevisorIsNormal(r);
    } else {
      AdminIsNormal(r);
    }
  }

  /** A user just created logs in with the password it was created with, under the role stored for it. */
  lemma {:induction false} CreatedUserLogsIn(users: Users, username: string, password: string, role: string, hash: string,
                          checkHash: (string, string) -> bool)
    requires CreateUser(users, username, password, role, hash).Ok?
    requires hash != "" && checkHash(hash, password)
    ensures VerifyUser(CreateUser(users, username, password, role, hash).value, false, username, password, checkHash)
         == AuthResult(true, "", StoredRole(Strip(username), role))
  {
    var u := Strip(username);
    var created := CreateUser(users, username, password, role, hash).value;
    DocLogsIn(u, password, created[u], role, checkHash);
  }

  /** The as-written `set_user_role` locks its user out: the next login with the right password answers "invalid". */
  lemma {:induction false} SetUserRoleAsWrittenLocksOut(users: Users, username: string, password: string, hash: string,
                                     role: string, checkHash: (string, string) -> bool)
    requires CreateUser(users, username, password, RoleRevisor, hash).Ok?
    requires hash != "" && checkHash(hash, password)
    ensures var created := CreateUser(users, username, password, RoleRevisor, hash).value;
      VerifyUser(SetUserRoleAsWritten(created, username, role).value, false, username, password, checkHash)
      == AuthResult(false, "invalid", "")
  {
  }

  /** With the intended `set_user_role`, the user still logs in, now under the new role. */
  lemma {:induction false} SetUserRoleKeepsLogin(users: Users, username: string, password: string, hash: string,
                              role: string, checkHash: (string, string) -> bool)
    requires CreateUser(users, username, password, RoleRevisor, hash).Ok?
    requires hash != "" && checkHash(hash, password)
    ensures var created := CreateUser(users, username, password, RoleRevisor, hash).value;
      VerifyUser(SetUserRole(created, username, role).value, false, username, password, checkHash)
      == AuthResult(true, "", StoredRole(Strip(username), role))
  {
    var u := Strip(username);
    var created := CreateUser(users, username, password, RoleRevisor, hash).value;
    assert created[u] == UserDoc(Some(hash), Some(StoredRole(u, RoleRevisor)), Some(true));
    var updated := SetUserRole(created, username, role).value;
    assert updated[u] == UserDoc(Some(hash), Some(StoredRole(u, role)), Some(true));
    DocLogsIn(u, password, updated[u], role, checkHash);
  }

  /** One row of `list_users`: the id, the normalised role and "1"/"0" for the active flag. */
  datatype UserEntry = UserEntry(username: string, role: string, active: string)

  predicate WellFormed(e: UserEntry)
  {
    IsRole(e.role) && (e.active == "1" || e.active == "0")
  }

  /** One row: the role normalised ("Revisor" when missing), active unless stored as false. */
  function ToEntry(id: string, doc: UserDoc): (e: UserEntry)
    ensures WellFormed(e)
    ensures e.username == id
    ensures e.active == "0" <==> doc.active == Some(false)
  {
    UserEntry(id, NormalizeRole(RoleField(doc)), if doc.active == Some(false) then "0" else "1")
  }

  function ToEntries(rows: seq<(string, UserDoc)>): (r: seq<UserEntry>)
    ensures |r| == |rows|
    ensures forall i :: 0 <= i < |rows| ==> r[i] == ToEntry(rows[i].0, rows[i].1)
  {
    if rows == [] then [] else [ToEntry(rows[0].0, rows[0].1)] + ToEntries(rows[1..])
  }

  function ByUsername(a: UserEntry, b: UserEntry): bool
  {
    LexLe(a.username, b.username)
  }

  lemma ByUsernameTotalPreorder()
    ensures Sorting.TotalPreorder(ByUsername)
  {
    forall a: UserEntry, b: UserEntry ensures ByUsername(a, b) || ByUsername(b, a) {
      LexLeTotal(a.username, b.username);
    }
    forall a: UserEntry, b: UserEntry, c: UserEntry | ByUsername(a, b) && ByUsername(b, c)
      ensures ByUsername(a, c)
    {
      LexLeTransitive(a.username, b.username, c.username);
    }
  }

  /**
   * `list_users`: the rows the query returned (`None` when it raised), as
   * entries sorted by username.
   */
  function ListUsers(rows: Option<seq<(string, UserDoc)>>): (r: seq<UserEntry>)
    ensures rows.None? ==> r == []
    ensures rows.Some? ==> multiset(r) == multiset(ToEntries(rows.value))
    ensures forall e :: e in r ==> WellFormed(e)
    ensures Sorting.SortedBy(r, ByUsername)
  {
    if rows.None? then []
    else
      var entries := ToEntries(rows.value);
      ByUsernameTotalPreorder();
      Sorting.SortBySorted(entries, ByUsername);
      var r := Sorting.SortBy(entries, ByUsername);
      assert forall e :: e in r ==> WellFormed(e) by {
        forall e | e in r ensures WellFormed(e) {
          assert e in multiset(r);
          assert e in multiset(entries);
          var j :| 0 <= j < |entries| && entries[j] == e;
        }
      }
      r
  }

  /**
   * `_list_by_day_range`'s bounds: none (the empty answer) when either day is
   * blank, otherwise the two stripped days in ascending string order.
   */
  function DayRange(startDay: string, endDay: string): (r: Option<(string, string)>)
    ensures r.None? <==> IsBlank(startDay) || IsBlank(endDay)
    ensures r.Some? ==> LexLe(r.value.0, r.value.1)
    ensures r.Some? ==> multiset{r.value.0, r.value.1} == multiset{Strip(startDay), Strip(endDay)}
    ensures r.Some? && LexLe(Strip(startDay), Strip(endDay)) ==> r.value == (Strip(startDay), Strip(endDay))
  {
    var s, e := Strip(startDay), Strip(endDay);
    if s == "" || e == "" then None
    else if !LexLe(s, e) then
      LexLeTotal(s, e);
      Some((e, s))
    else Some((s, e))
  }
}
