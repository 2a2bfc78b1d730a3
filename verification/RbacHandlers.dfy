/**
  The repositories, the cached role service and the admin handler that pairs an update with
  the invalidation of the cache, as objects that change their fields, each run without
  interruption.  The contracts say which step of the RbacCache machine a call amounts to.

  The rows of a SELECT arrive in an order the database chooses, which is a parameter, as is
  whether a statement fails or something in a transaction throws.
 */
module RbacHandlers {
  import opened Options
  import opened RbacTables
  import opened Users
  import opened RbacCache

  class Database {
    var tables: Tables

    constructor (tables: Tables)
      ensures this.tables == tables
    {
      this.tables := tables;
    }
  }

  // ---------------------------------------------------------------------------------
  // Queries
  // ---------------------------------------------------------------------------------

  /** The rows are those of the set, in some order, each once. */
  ghost predicate ListsOnce<T(!new)>(rows: seq<T>, s: set<T>) {
    && (forall x :: x in rows <==> x in s)
    && (forall i, j :: 0 <= i < j < |rows| ==> rows[i] != rows[j])
  }

  ghost predicate Distinct(names: seq<string>) {
    forall i, j :: 0 <= i < j < |names| ==> names[i] != names[j]
  }

  function RoleRows(db: Tables, userId: string): set<Grant> {
    set g | g in db.userRoles && g.userId == userId && g.roleId in db.roles
  }

  function PermissionRows(db: Tables, userId: string): set<RolePermission> {
    set p | p in db.rolePermissions && HasRole(db, userId, p.roleId) && p.permissionId in db.permissions
  }

  // Ids of the roles and permissions whose names a result set lists.
  function RoleList(db: Tables, rows: seq<Grant>): seq<string>
    requires forall g :: g in rows ==> g.roleId in db.roles
  {
    seq(|rows|, i requires 0 <= i < |rows| => assert rows[i] in rows; db.roles[rows[i].roleId].name)
  }

  function PermissionList(db: Tables, rows: seq<RolePermission>): seq<string>
    requires forall p :: p in rows ==> p.permissionId in db.permissions
  {
    seq(|rows|, i requires 0 <= i < |rows| => assert rows[i] in rows; db.permissions[rows[i].permissionId])
  }

  ghost predicate RoleResult(db: Tables, userId: string, rows: Option<seq<Grant>>) {
    rows.Some? ==> ListsOnce(rows.value, RoleRows(db, userId))
  }

  ghost predicate PermissionResult(db: Tables, userId: string, rows: Option<seq<RolePermission>>) {
    rows.Some? ==> ListsOnce(rows.value, PermissionRows(db, userId))
  }

  /** A result set of the role query lists what the join gives, and no role twice. */
  lemma RoleListReads(db: Tables, userId: string, rows: seq<Grant>)
    requires ListsOnce(rows, RoleRows(db, userId))
    ensures Reads(db, Roles, userId, RoleList(db, rows))
    ensures Consistent(db) ==> Distinct(RoleList(db, rows))
  {
    var list := RoleList(db, rows);
    forall n ensures n in list <==> n in RoleNames(db, userId) {
      if n in list {
        var i :| 0 <= i < |list| && list[i] == n;
        assert rows[i] in rows;
        assert HasRole(db, userId, rows[i].roleId);
      }
      if n in RoleNames(db, userId) {
        var r :| r in db.roles && HasRole(db, userId, r) && db.roles[r].name == n;
        assert Grant(userId, r) in rows;
        var i :| 0 <= i < |rows| && rows[i] == Grant(userId, r);
        assert list[i] == n;
      }
    }
    if Consistent(db) {
      forall i, j | 0 <= i < j < |list| ensures list[i] != list[j] {
        assert rows[i] in rows && rows[j] in rows && rows[i] != rows[j];
      }
    }
  }

  /** The permission query lists what the join gives; a permission given by two roles appears twice. */
  lemma PermissionListReads(db: Tables, userId: string, rows: seq<RolePermission>)
    requires ListsOnce(rows, PermissionRows(db, userId))
    ensures Reads(db, Permissions, userId, PermissionList(db, rows))
  {
    var list := PermissionList(db, rows);
    forall n ensures n in list <==> n in PermissionNames(db, userId) {
      if n in list {
        var i :| 0 <= i < |list| && list[i] == n;
        assert rows[i] in rows;
        assert HasRole(db, userId, rows[i].roleId) && Gives(db, rows[i].roleId, n);
      }
      if n in PermissionNames(db, userId) {
        var r :| r in db.roles && HasRole(db, userId, r) && Gives(db, r, n);
        var p :| p in db.rolePermissions && p.roleId == r && p.permissionId in db.permissions &&
            db.permissions[p.permissionId] == n;
        assert p in rows;
        var i :| 0 <= i < |rows| && rows[i] == p;
        assert list[i] == n;
      }
    }
  }

  // The part of src/db/auth_repository.cpp that resolves roles and permissions.
  class RoleRepository {
    const db: Database

    constructor (db: Database)
      ensures this.db == db
    {
      this.db := db;
    }

    /** None for a query that fails: the list then stays empty. */
    method GetUserRoles(userId: string, rows: Option<seq<Grant>>) returns (roles: seq<string>)
      requires RoleResult(db.tables, userId, rows)
      ensures rows.None? ==> roles == []
      ensures rows.Some? ==> roles == RoleList(db.tables, rows.value) && Reads(db.tables, Roles, userId, roles)
    {
      roles := [];
      if rows.Some? {
        RoleListReads(db.tables, userId, rows.value);
        for i := 0 to |rows.value|
          invariant roles == RoleList(db.tables, rows.value)[..i]
        {
          assert rows.value[i] in rows.value;
          roles := roles + [db.tables.roles[rows.value[i].roleId].name];
        }
      }
    }

    method GetUserPermissions(userId: string, rows: Option<seq<RolePermission>>) returns (perms: seq<string>)
      requires PermissionResult(db.tables, userId, rows)
      ensures rows.None? ==> perms == []
      ensures rows.Some? ==>
          perms == PermissionList(db.tables, rows.value) && Reads(db.tables, Permissions, userId, perms)
    {
      perms := [];
      if rows.Some? {
        PermissionListReads(db.tables, userId, rows.value);
        for i := 0 to |rows.value|
          invariant perms == PermissionList(db.tables, rows.value)[..i]
        {
          assert rows.value[i] in rows.value;
          perms := perms + [db.tables.permissions[rows.value[i].permissionId]];
        }
      }
    }
  }

  // ---------------------------------------------------------------------------------
  // Transactions
  // ---------------------------------------------------------------------------------

  datatype ListedUser = ListedUser(
    id: string, loginName: string, email: string, isActive: bool, mustPwdChange: bool, roles: seq<string>)

  /** One entry a row, with the row's fields and exactly the roles the user has now, none twice. */
  ghost predicate ListsUsers(before: Tables, userRows: seq<string>, now: Tables, listed: seq<ListedUser>) {
    && |listed| == |userRows|
    && forall i :: 0 <= i < |listed| ==> ListsUser(before, userRows[i], now, listed[i])
  }

  ghost predicate ListsUser(before: Tables, id: string, now: Tables, entry: ListedUser) {
    && entry.id == id && id in before.users
    && entry.loginName == before.users[id].loginName && entry.email == before.users[id].email
    && entry.isActive == before.users[id].isActive && entry.mustPwdChange == before.users[id].mustPwdChange
    && Reads(now, Roles, id, entry.roles) && Distinct(entry.roles)
  }

  /** The names of one user's rows among the first k. */
  ghost predicate RolesAmong(db: Tables, rows: seq<Grant>, k: nat, userId: string, names: seq<string>)
    requires k <= |rows| && forall g :: g in rows ==> g.roleId in db.roles
  {
    && (forall n :: n in names <==> exists j :: 0 <= j < k && rows[j].userId == userId && RoleList(db, rows)[j] == n)
    && Distinct(names)
  }

  // src/db/admin_repository.cpp
  class AdminRepository {
    const db: Database

    constructor (db: Database)
      ensures this.db == db
    {
      this.db := db;
    }

    /**
      Two queries, between which the tables may change from `before` to `now`; None for one
      that fails, and then for the whole list.  Every user of the first is listed with exactly
      the roles the user has at the second, none twice.
     */
    method GetAllUsers(before: Tables, userRows: Option<seq<string>>, now: Tables, grantRows: Option<seq<Grant>>)
      returns (result: Option<seq<ListedUser>>)
      requires Consistent(now)
      requires userRows.Some? ==> ListsOnce(userRows.value, before.users.Keys)
      requires grantRows.Some? ==> ListsOnce(grantRows.value, now.userRoles)
      ensures result.Some? <==> userRows.Some? && grantRows.Some?
      ensures result.Some? ==> ListsUsers(before, userRows.value, now, result.value)
    {
      if userRows.None? || grantRows.None? {
        return None;
      }
      var listed := ListUsers(before, userRows.value, now, grantRows.value);
      return Some(listed);
    }

    method ListUsers(before: Tables, userRows: seq<string>, now: Tables, grantRows: seq<Grant>)
      returns (listed: seq<ListedUser>)
      requires Consistent(now) && ListsOnce(userRows, before.users.Keys) && ListsOnce(grantRows, now.userRoles)
      ensures ListsUsers(before, userRows, now, listed)
    {
      listed := [];
      for i := 0 to |userRows|
        invariant ListsUsers(before, userRows[..i], now, listed)
      {
        assert userRows[i] in userRows;
        var user := before.users[userRows[i]];
        var roles := RolesOf(now, grantRows, userRows[i]);
        var entry := ListedUser(userRows[i], user.loginName, user.email, user.isActive, user.mustPwdChange, roles);
        listed := listed + [entry];
      }
      assert userRows[..|userRows|] == userRows;
    }

    /** The inner loop: the names in the rows of one user. */
    method RolesOf(now: Tables, grantRows: seq<Grant>, userId: string) returns (roles: seq<string>)
      requires Consistent(now) && ListsOnce(grantRows, now.userRoles)
      ensures Reads(now, Roles, userId, roles) && Distinct(roles)
    {
      roles := [];
      for k := 0 to |grantRows|
        invariant RolesAmong(now, grantRows, k, userId, roles)
      {
        assert grantRows[k] in grantRows;
        if grantRows[k].userId == userId {
          var name := now.roles[grantRows[k].roleId].name;
          NameIsNew(now, grantRows, k, userId, roles);
          assert RoleList(now, grantRows)[k] == name;
          ghost var was := roles;
          roles := roles + [name];
          assert forall n :: n in roles <==> n in was || n == name;
        }
      }
      AllRowsRead(now, grantRows, userId, roles);
    }

    /** Returns false, and leaves everything as it was, when something throws before the COMMIT. */
    method CreateUser(userId: string, user: User, names: seq<string>, thrown: bool) returns (created: bool)
      requires Consistent(db.tables)
      modifies db
      ensures created == (!thrown && CreationAllowed(old(db.tables), userId, user, names))
      ensures db.tables == if created then Created(old(db.tables), userId, user, names) else old(db.tables)
      ensures Consistent(db.tables)
      ensures created <==>
        && !thrown && userId !in old(db.tables).users
        && (forall v :: v in old(db.tables).users ==>
              old(db.tables).users[v].loginName != user.loginName && old(db.tables).users[v].email != user.email)
        && (forall i, j, r :: 0 <= i < j < |names| && names[i] == names[j] && r in old(db.tables).roles ==>
              old(db.tables).roles[r].name != names[i])
      ensures created ==>
        && db.tables.users == old(db.tables).users[userId := user] && db.tables.roles == old(db.tables).roles
        && forall g :: g in db.tables.userRoles <==>
             || g in old(db.tables).userRoles
             || (g.userId == userId && g.roleId in db.tables.roles && db.tables.roles[g.roleId].name in names)
    {
      var work := db.tables;
      if userId in work.users || !LoginNameFree(work, userId, user.loginName) || !EmailFree(work, userId, user.email) {
        return false;
      }
      work := work.(users := work.users[userId := user]);
      assert Created(db.tables, userId, user, []) == work;
      CreationKeepsConstraints(db.tables, userId, user, []);
      var ok, done := GrantRoles(work, userId, names);
      SameRolesSameLists(db.tables, work, userId, names);
      if !ok || thrown {
        return false;
      }
      CreationKeepsConstraints(db.tables, userId, user, names);
      db.tables := done;
      return true;
    }

    /** Returns false, and leaves everything as it was, when something throws before the COMMIT. */
    method UpdateUser(userId: string, u: UserUpdate, thrown: bool) returns (updated: bool)
      requires Consistent(db.tables)
      modifies db
      ensures updated == (!thrown && UpdateAllowed(old(db.tables), userId, u))
      ensures db.tables == if updated then Updated(old(db.tables), userId, u) else old(db.tables)
      ensures Consistent(db.tables)
      ensures userId in old(db.tables).users ==>
        (updated <==>
         && !thrown && Consistent(WithColumns(old(db.tables), userId, u))
         && (u.roles.Array? ==>
             forall i, j, r ::
               (&& 0 <= i < j < |u.roles.names| && r in old(db.tables).roles
                && old(db.tables).roles[r].name == u.roles.names[i]) ==>
               u.roles.names[i] != u.roles.names[j]))
      ensures updated && userId in old(db.tables).users ==>
        && userId in db.tables.users
        && var was, row := old(db.tables).users[userId], db.tables.users[userId];
           && row.loginName == (if u.loginName.Some? then u.loginName.value else was.loginName)
           && row.email == (if u.email.Some? then u.email.value else was.email)
           && row.isActive == (if u.isActive.Some? then u.isActive.value else was.isActive)
           && row.mustPwdChange == (if u.mustPwdChange.Some? then u.mustPwdChange.value else was.mustPwdChange)
           && row.passwordHash == (if u.passwordHash.Some? then u.passwordHash.value else was.passwordHash)
      ensures updated ==> db.tables.users.Keys == old(db.tables).users.Keys && db.tables.roles == old(db.tables).roles
      ensures updated ==>
        forall v :: v in db.tables.users && v != userId ==> db.tables.users[v] == old(db.tables).users[v]
      ensures updated ==> forall g :: g in db.tables.userRoles <==>
        if g.userId == userId && u.roles.Array? then
          g.roleId in db.tables.roles && db.tables.roles[g.roleId].name in u.roles.names
        else g in old(db.tables).userRoles
    {
      UpdateInColumns(db.tables, userId, u);
      var ok, work := PatchUser(db.tables, userId, u);
      if !ok {
        return false;
      }
      if u.roles.Array? {
        work := work.(userRoles := GrantsOfOthers(work, userId));
        var granted, done := GrantRoles(work, userId, u.roles.names);
        SameRolesSameLists(db.tables, work, userId, u.roles.names);
        if !granted {
          return false;
        }
        work := done;
      }
      if thrown {
        return false;
      }
      UpdateKeepsConstraints(db.tables, userId, u);
      db.tables := work;
      return true;
    }

    /** The UPDATE statements, one for each member that is there. */
    method PatchUser(start: Tables, userId: string, u: UserUpdate) returns (ok: bool, done: Tables)
      requires Consistent(start)
      ensures ok == UpdateAllowed(start, userId, u.(roles := Missing))
      ensures ok ==> done == Updated(start, userId, u.(roles := Missing)) && Consistent(done)
    {
      ok, done := true, start;
      if userId !in start.users {
        return;
      }
      if (u.loginName.Some? && !LoginNameFree(start, userId, u.loginName.value)) ||
         (u.email.Some? && !EmailFree(start, userId, u.email.value)) {
        return false, start;
      }
      var user := start.users[userId];
      if u.loginName.Some? {
        user := user.(loginName := u.loginName.value);
      }
      if u.email.Some? {
        user := user.(email := u.email.value);
      }
      if u.isActive.Some? {
        user := user.(isActive := u.isActive.value);
      }
      if u.mustPwdChange.Some? {
        user := user.(mustPwdChange := u.mustPwdChange.value);
      }
      if u.passwordHash.Some? {
        user := user.(passwordHash := u.passwordHash.value);
      }
      done := start.(users := start.users[userId := user]);
      UpdateKeepsConstraints(start, userId, u.(roles := Missing));
    }

    /**
      The loop both transactions end with: look each name up and insert a row for the role, if
      there is one.  A second row for the same role violates the primary key, a row for an
      unknown user the foreign key.
     */
    method GrantRoles(start: Tables, userId: string, names: seq<string>) returns (ok: bool, done: Tables)
      requires Consistent(start) && forall g :: g in start.userRoles ==> g.userId != userId
      ensures ok == (NamesNoRoleTwice(start, names) && (userId in start.users || NamesNoRole(start, names)))
      ensures ok ==> done == start.(userRoles := start.userRoles + Granted(start, userId, names))
    {
      ok, done := true, start;
      for i := 0 to |names|
        invariant done == start.(userRoles := start.userRoles + Granted(start, userId, names[..i]))
        invariant NamesNoRoleTwice(start, names[..i])
        invariant userId in start.users || NamesNoRole(start, names[..i])
      {
        var ids := set r | r in done.roles && done.roles[r].name == names[i];
        assert forall r :: r in start.roles && start.roles[r].name == names[i] ==> r in ids;
        if ids == {} {
          SkipOneMore(start, userId, names, i);
        } else {
          var id :| id in ids;
          assert RoleExists(start, names[i]);
          if userId !in done.users {
            return false, done;
          }
          if Grant(userId, id) in done.userRoles {
            var j :| 0 <= j < i && names[j] == names[i];
            return false, done;
          }
          GrantOneMore(start, userId, names, i, id);
          done := done.(userRoles := done.userRoles + {Grant(userId, id)});
        }
      }
      assert names[..|names|] == names;
    }

    /** Two statements of their own: the first stays when the second fails. */
    method UpdateRole(roleId: string, name: string, description: string, nameOk: bool, descriptionOk: bool)
        returns (updated: bool)
      requires Consistent(db.tables)
      modifies db
      ensures Consistent(db.tables)
      ensures var allowed := roleId in old(db.tables).roles ==> RenameAllowed(old(db.tables), roleId, name);
        var named := name == "" || (nameOk && allowed);
        var t := if name == "" || !nameOk then old(db.tables) else Renamed(old(db.tables), roleId, name);
        && updated == (named && (description == "" || descriptionOk))
        && db.tables == if named && description != "" && descriptionOk then Described(t, roleId, description) else t
      ensures updated && roleId in old(db.tables).roles ==>
        && roleId in db.tables.roles
        && db.tables.roles[roleId].name == (if name != "" then name else old(db.tables).roles[roleId].name)
        && db.tables.roles[roleId].description ==
           (if description != "" then description else old(db.tables).roles[roleId].description)
      ensures forall r :: r != roleId ==>
        (r in db.tables.roles <==> r in old(db.tables).roles) &&
        (r in db.tables.roles ==> db.tables.roles[r] == old(db.tables).roles[r])
      ensures db.tables.users == old(db.tables).users && db.tables.userRoles == old(db.tables).userRoles
    {
      if name != "" {
        if !nameOk || (roleId in db.tables.roles && !RenameAllowed(db.tables, roleId, name)) {
          return false;
        }
        RenamingKeepsConstraints(db.tables, roleId, name);
        if roleId in db.tables.roles {
          db.tables := db.tables.(roles := db.tables.roles[roleId := db.tables.roles[roleId].(name := name)]);
        }
      }
      if description != "" {
        if !descriptionOk {
          return false;
        }
        DescribingKeepsConstraints(db.tables, roleId, description);
        if roleId in db.tables.roles {
          var role := db.tables.roles[roleId].(description := description);
          db.tables := db.tables.(roles := db.tables.roles[roleId := role]);
        }
      }
      return true;
    }
  }

  /** An accepted update, column by column and row by row. */
  lemma UpdateInColumns(db: Tables, userId: string, u: UserUpdate)
    requires Consistent(db)
    ensures var next := Updated(db, userId, u);
      && next.users.Keys == db.users.Keys && next.roles == db.roles
      && (forall v :: v in next.users && v != userId ==> next.users[v] == db.users[v])
      && (forall g :: g in next.userRoles <==>
            if g.userId == userId && u.roles.Array? then
              g.roleId in db.roles && db.roles[g.roleId].name in u.roles.names
            else g in db.userRoles)
    ensures userId in db.users ==> Updated(db, userId, u).users == WithColumns(db, userId, u).users
    ensures userId in db.users ==>
      (UpdateAllowed(db, userId, u) <==>
       && Consistent(WithColumns(db, userId, u))
       && (u.roles.Array? ==>
             forall i, j, r ::
               (0 <= i < j < |u.roles.names| && r in db.roles && db.roles[r].name == u.roles.names[i]) ==>
               u.roles.names[i] != u.roles.names[j]))
  {
    if userId in db.users {
      UpdateAllowedIffConsistent(db, userId, u.(roles := Missing));
      assert WithColumns(db, userId, u.(roles := Missing)) == WithColumns(db, userId, u);
      hide Consistent, WithColumns;
      if u.roles.Array? {
        RoleListAllowedIff(db, userId, u);
      }
    }
  }

  lemma SameRolesSameLists(db: Tables, work: Tables, userId: string, names: seq<string>)
    requires work.roles == db.roles
    ensures NamesNoRoleTwice(work, names) == NamesNoRoleTwice(db, names) &&
        NamesNoRole(work, names) == NamesNoRole(db, names)
    ensures Granted(work, userId, names) == Granted(db, userId, names)
  {
  }

  lemma SkipOneMore(db: Tables, userId: string, names: seq<string>, i: nat)
    requires i < |names| && !RoleExists(db, names[i])
    ensures Granted(db, userId, names[..i + 1]) == Granted(db, userId, names[..i])
    ensures NamesNoRoleTwice(db, names[..i]) ==> NamesNoRoleTwice(db, names[..i + 1])
    ensures NamesNoRole(db, names[..i]) ==> NamesNoRole(db, names[..i + 1])
  {
  }

  lemma GrantOneMore(db: Tables, userId: string, names: seq<string>, i: nat, id: string)
    requires Consistent(db) && i < |names| && id in db.roles && db.roles[id].name == names[i]
    requires Grant(userId, id) !in Granted(db, userId, names[..i])
    ensures Granted(db, userId, names[..i + 1]) == Granted(db, userId, names[..i]) + {Grant(userId, id)}
    ensures NamesNoRoleTwice(db, names[..i]) ==> NamesNoRoleTwice(db, names[..i + 1])
  {
  }

  lemma NameIsNew(db: Tables, rows: seq<Grant>, k: nat, userId: string, names: seq<string>)
    requires Consistent(db) && ListsOnce(rows, db.userRoles) && k < |rows| && rows[k].userId == userId
    requires forall g :: g in rows ==> g.roleId in db.roles
    requires RolesAmong(db, rows, k, userId, names)
    ensures RoleList(db, rows)[k] !in names
  {
  }

  lemma AllRowsRead(db: Tables, rows: seq<Grant>, userId: string, names: seq<string>)
    requires Consistent(db) && ListsOnce(rows, db.userRoles) && RolesAmong(db, rows, |rows|, userId, names)
    ensures Reads(db, Roles, userId, names)
  {
  }

  // ---------------------------------------------------------------------------------
  // The cached service
  // ---------------------------------------------------------------------------------

  function ReadRoles(db: Tables, rows: Option<seq<Grant>>): Option<seq<string>>
    requires rows.Some? ==> forall g :: g in rows.value ==> g.roleId in db.roles
  {
    if rows.Some? then Some(RoleList(db, rows.value)) else None
  }

  function ReadPermissions(db: Tables, rows: Option<seq<RolePermission>>): Option<seq<string>>
    requires rows.Some? ==> forall p :: p in rows.value ==> p.permissionId in db.permissions
  {
    if rows.Some? then Some(PermissionList(db, rows.value)) else None
  }

  // src/rbac/rbac_service.cpp
  class RbacService {
    const repo: RoleRepository
    var userPermissionsCache: Lists
    var userRolesCache: Lists

    constructor (repo: RoleRepository)
      ensures this.repo == repo && userPermissionsCache == map[] && userRolesCache == map[]
      ensures Consistent(repo.db.tables) ==> Coherent(Now())
    {
      this.repo := repo;
      userPermissionsCache, userRolesCache := map[], map[];
      if Consistent(repo.db.tables) {
        FreshCacheIsCoherent(repo.db.tables, "");
      }
    }

    /** The state of the RbacCache machine while no coroutine is in flight. */
    ghost function Now(): RbacCache.State
      reads this, repo.db
    {
      RbacCache.State(repo.db.tables, userRolesCache, userPermissionsCache, map[], [])
    }

    method HasPermission(userId: string, permission: string, rows: Option<seq<RolePermission>>) returns (result: bool)
      requires PermissionResult(repo.db.tables, userId, rows)
      modifies this
      ensures Returns(old(Now()), Lookup(Permissions, userId, permission, ReadPermissions(repo.db.tables, rows)),
          Now(), result)
      ensures old(Coherent(Now())) ==> (result ==> permission in PermissionNames(repo.db.tables, userId))
      ensures old(Coherent(Now())) && rows.Some? ==>
        (result <==>
         exists r, p ::
           && Grant(userId, r) in repo.db.tables.userRoles && r in repo.db.tables.roles
           && RolePermission(r, p) in repo.db.tables.rolePermissions
           && p in repo.db.tables.permissions && repo.db.tables.permissions[p] == permission)
      ensures userRolesCache == old(userRolesCache)
      ensures userId in old(userPermissionsCache) && old(userPermissionsCache)[userId] != [] ==>
        userPermissionsCache == old(userPermissionsCache) && result == (permission in old(userPermissionsCache)[userId])
      ensures userId !in old(userPermissionsCache) || old(userPermissionsCache)[userId] == [] ==>
        && userId in userPermissionsCache && result == (permission in userPermissionsCache[userId])
        && userPermissionsCache == old(userPermissionsCache)[userId := userPermissionsCache[userId]]
        && (rows.None? ==> userPermissionsCache[userId] == [])
    {
      ghost var was, op := Now(), Lookup(Permissions, userId, permission, ReadPermissions(repo.db.tables, rows));
      if rows.Some? { PermissionListReads(repo.db.tables, userId, rows.value); }
      JoinedRows(repo.db.tables, userId, permission);
      hide PermissionNames;
      var perms: seq<string> := [];
      if userId in userPermissionsCache {
        perms := userPermissionsCache[userId];
      }
      if perms == [] {
        perms := repo.GetUserPermissions(userId, rows);
        userPermissionsCache := userPermissionsCache[userId := perms];
      }
      result := permission in perms;
      LookupReturns(was, op, Now(), result);
      ReturnsExactly(was, op, Now(), result);
    }

    method HasRole(userId: string, role: string, rows: Option<seq<Grant>>) returns (result: bool)
      requires RoleResult(repo.db.tables, userId, rows)
      modifies this
      ensures Returns(old(Now()), Lookup(Roles, userId, role, ReadRoles(repo.db.tables, rows)), Now(), result)
      ensures old(Coherent(Now())) ==> (result ==> role in RoleNames(repo.db.tables, userId))
      ensures old(Coherent(Now())) && rows.Some? ==>
        (result <==>
         exists r ::
           && Grant(userId, r) in repo.db.tables.userRoles
           && r in repo.db.tables.roles && repo.db.tables.roles[r].name == role)
      ensures userPermissionsCache == old(userPermissionsCache)
      ensures userId in old(userRolesCache) && old(userRolesCache)[userId] != [] ==>
        userRolesCache == old(userRolesCache) && result == (role in old(userRolesCache)[userId])
      ensures userId !in old(userRolesCache) || old(userRolesCache)[userId] == [] ==>
        && userId in userRolesCache && result == (role in userRolesCache[userId])
        && userRolesCache == old(userRolesCache)[userId := userRolesCache[userId]]
        && (rows.None? ==> userRolesCache[userId] == [])
    {
      ghost var was, op := Now(), Lookup(Roles, userId, role, ReadRoles(repo.db.tables, rows));
      if rows.Some? { RoleListReads(repo.db.tables, userId, rows.value); }
      JoinedRows(repo.db.tables, userId, role);
      hide RoleNames;
      var roles: seq<string> := [];
      if userId in userRolesCache {
        roles := userRolesCache[userId];
      }
      if roles == [] {
        roles := repo.GetUserRoles(userId, rows);
        userRolesCache := userRolesCache[userId := roles];
      }
      result := role in roles;
      LookupReturns(was, op, Now(), result);
      ReturnsExactly(was, op, Now(), result);
    }

    method InvalidateCache(userId: string)
      modifies this
      ensures userPermissionsCache == old(userPermissionsCache) - {userId}
      ensures userRolesCache == old(userRolesCache) - {userId}
    {
      userPermissionsCache := userPermissionsCache - {userId};
      userRolesCache := userRolesCache - {userId};
    }
  }

  /** The lookup takes one idle state to the other and gives this one answer. */
  ghost predicate Returns(was: RbacCache.State, op: Operation, now: RbacCache.State, result: bool)
    requires op.Lookup?
  {
    && Perform(was, op).answers == was.answers + [Answer(op.kind, op.userId, op.name, result)]
    && now == Perform(was, op).(answers := was.answers)
  }

  /** The state after a lookup, in terms of the two cached lists. */
  lemma LookupReturns(was: RbacCache.State, op: Operation, now: RbacCache.State, result: bool)
    requires op.Lookup? && Proper(was, op) && was.procs == map[]
    requires var hit := Cached(was, op.kind, op.userId);
      var list := if hit != [] then hit else if op.read.Some? then op.read.value else [];
      && result == (op.name in list)
      && now == if hit != [] then was
                else if op.kind.Roles? then was.(roles := was.roles[op.userId := list])
                else was.(permissions := was.permissions[op.userId := list])
    ensures Returns(was, op, now, result)
  {
    hide Names, Coherent;
    var s1 := Next(was, Ask(0, op.kind, op.userId, op.name));
    if Cached(was, op.kind, op.userId) == [] {
      var list := if op.read.Some? then op.read.value else [];
      assert s1.procs == map[0 := Querying(op.kind, op.userId, op.name)];
      var s2 := Next(s1, Query(0, op.read));
      assert s2.procs == map[0 := Storing(op.kind, op.userId, op.name, list)];
      assert Next(s2, Resume(0)).procs == map[];
    }
  }

  lemma ReturnsExactly(was: RbacCache.State, op: Operation, now: RbacCache.State, result: bool)
    requires was.procs == map[] && op.Lookup? && Proper(was, op) && Returns(was, op, now, result)
    ensures Coherent(was) ==> Coherent(now) && (result ==> op.name in Names(was.db, op.kind, op.userId))
    ensures Coherent(was) && op.read.Some? ==> result == (op.name in Names(was.db, op.kind, op.userId))
  {
    hide Names, Perform, Coherent;
    if Coherent(was) {
      LookupStaysIdle(was, op);
      assert (was.answers + [Answer(op.kind, op.userId, op.name, result)])[|was.answers|] ==
          Answer(op.kind, op.userId, op.name, result);
      AnswersDoNotMatter(Perform(was, op), now);
    }
  }

  lemma AnswersDoNotMatter(s: RbacCache.State, t: RbacCache.State)
    requires Coherent(s) && t == s.(answers := t.answers)
    ensures Coherent(t)
  {
    OnlyTablesChange(s, t);
    forall u ensures CoherentFor(t, u) {
      assert CoherentFor(s, u);
    }
  }

  // ---------------------------------------------------------------------------------
  // The handler
  // ---------------------------------------------------------------------------------

  datatype Status = Success | BadRequest | Forbidden | ServerError

  // The JSON body of an update: members for the repository, and a new password in clear.
  datatype Body = Body(update: UserUpdate, password: Option<string>)

  /** A non-empty password replaces whatever hash the body carries, if it could be hashed. */
  function UpdateOf(body: Body, hash: Option<string>): UserUpdate {
    if body.password.Some? && body.password.value != "" && hash.Some? then body.update.(passwordHash := hash)
    else body.update
  }

  ghost function AfterIsAdmin(was: RbacCache.State, caller: Option<string>, rows: Option<seq<Grant>>): RbacCache.State
    requires caller.Some? ==> RoleResult(was.db, caller.value, rows)
  {
    if caller.None? then was
    else Perform(was, Lookup(Roles, caller.value, "admin", ReadRoles(was.db, rows))).(answers := was.answers)
  }

  // src/admin_ctrl.cpp
  class AdminCtrl {
    const service: RbacService
    const admins: AdminRepository

    constructor (service: RbacService, admins: AdminRepository)
      ensures this.service == service && this.admins == admins
    {
      this.service := service;
      this.admins := admins;
    }

    /** `caller` is the user of the HTTP session, if there is one. */
    method IsAdmin(caller: Option<string>, rows: Option<seq<Grant>>) returns (result: bool)
      requires caller.Some? ==> RoleResult(service.repo.db.tables, caller.value, rows)
      modifies service
      ensures caller.None? ==> !result && service.Now() == old(service.Now())
      ensures caller.Some? ==>
          Returns(old(service.Now()), Lookup(Roles, caller.value, "admin", ReadRoles(service.repo.db.tables, rows)),
          service.Now(), result)
      ensures result && old(Coherent(service.Now())) ==>
          caller.Some? && "admin" in RoleNames(service.repo.db.tables, caller.value)
      ensures old(Coherent(service.Now())) && rows.Some? && caller.Some? ==>
          result == ("admin" in RoleNames(service.repo.db.tables, caller.value))
    {
      if caller.None? {
        return false;
      }
      result := service.HasRole(caller.value, "admin", rows);
    }

    /**
      Whatever happens, a coherent cache stays coherent, and nothing but an administrator's
      accepted update changes the tables.
     */
    method UpdateUser(caller: Option<string>, rows: Option<seq<Grant>>, body: Option<Body>, userId: string,
        hash: Option<string>, thrown: bool)
      returns (status: Status)
      requires caller.Some? ==> RoleResult(service.repo.db.tables, caller.value, rows)
      requires admins.db == service.repo.db && Consistent(service.repo.db.tables)
      modifies service, admins.db
      ensures status == Success ==>
          body.Some? && !thrown && UpdateAllowed(old(admins.db.tables), userId, UpdateOf(body.value, hash))
      ensures status == ServerError ==>
          body.Some? && (thrown || !UpdateAllowed(old(admins.db.tables), userId, UpdateOf(body.value, hash)))
      ensures status == BadRequest ==> body.None?
      ensures admins.db.tables ==
          if status == Success then Updated(old(admins.db.tables), userId, UpdateOf(body.value, hash))
          else old(admins.db.tables)
      ensures service.Now() ==
        var looked := AfterIsAdmin(old(service.Now()), caller, rows);
        if status == Success then Perform(looked, Change(RbacCache.UpdateUser(0, userId, UpdateOf(body.value, hash))))
        else looked
      ensures status == Success && !body.value.update.roles.Missing? ==>
        userId !in service.userRolesCache && userId !in service.userPermissionsCache
      ensures status == Success && userId in old(admins.db.tables).users ==>
        && userId in admins.db.tables.users
        && admins.db.tables.users[userId].passwordHash ==
           if body.value.password.Some? && body.value.password.value != "" && hash.Some? then hash.value
           else if body.value.update.passwordHash.Some? then body.value.update.passwordHash.value
           else old(admins.db.tables).users[userId].passwordHash
      ensures old(Coherent(service.Now())) ==> Coherent(service.Now())
      ensures old(Coherent(service.Now())) && status != Forbidden ==>
          caller.Some? && "admin" in RoleNames(old(admins.db.tables), caller.value)
      ensures old(Coherent(service.Now())) && status == Forbidden && rows.Some? && caller.Some? ==>
          "admin" !in RoleNames(old(admins.db.tables), caller.value)
    {
      ghost var before := service.Now();
      var admin := IsAdmin(caller, rows);
      ghost var was := service.Now();
      assert Coherent(before) ==> Coherent(was) by {
        if Coherent(before) && caller.Some? {
          if rows.Some? { RoleListReads(was.db, caller.value, rows.value); }
          ReturnsExactly(before, Lookup(Roles, caller.value, "admin", ReadRoles(was.db, rows)), was, admin);
        }
      }
      if !admin {
        return Forbidden;
      }
      if body.None? {
        return BadRequest;
      }
      var update := body.value.update;
      if body.value.password.Some? && body.value.password.value != "" {
        if hash.Some? {
          update := update.(passwordHash := hash);
        }
      }
      var updated := admins.UpdateUser(userId, update, thrown);
      if !updated {
        return ServerError;
      }
      if !update.roles.Missing? {
        service.InvalidateCache(userId);
      }
      UpdateIsChange(was, userId, update, service.Now());
      return Success;
    }
  }

  /** Committing an update and then dropping the user's lists is one change of the machine. */
  lemma UpdateIsChange(was: RbacCache.State, userId: string, u: UserUpdate, now: RbacCache.State)
    requires was.procs == map[] && UpdateAllowed(was.db, userId, u)
    requires now == was.(db := Updated(was.db, userId, u),
                         roles := if u.roles.Missing? then was.roles else was.roles - {userId},
                         permissions := if u.roles.Missing? then was.permissions else was.permissions - {userId})
    ensures now == Perform(was, Change(RbacCache.UpdateUser(0, userId, u)))
    ensures Coherent(was) ==> Coherent(now)
  {
    hide UpdateAllowed, Updated, Coherent, Names;
    var s1 := Next(was, RbacCache.UpdateUser(0, userId, u));
    if u.roles.Missing? {
      assert s1 == now;
    } else {
      assert s1.procs == map[0 := Invalidating(userId)];
      assert Next(s1, Resume(0)).procs == map[];
    }
    if Coherent(was) {
      ChangeStaysIdle(was, Change(RbacCache.UpdateUser(0, userId, u)));
    }
  }
}
