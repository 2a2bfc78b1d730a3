/**
  The tables behind role-based access control, the joins that resolve a user's roles and
  permissions, and what the statements and transactions that change the tables do to them.
 */
module RbacTables {
  import opened Options
  import opened Users

  datatype Role = Role(name: string, description: string)
  datatype Grant = Grant(userId: string, roleId: string)
  datatype RolePermission = RolePermission(roleId: string, permissionId: string)

  datatype Tables = Tables(
    users: map<string, User>,
    roles: map<string, Role>,
    permissions: map<string, string>,
    userRoles: set<Grant>,
    rolePermissions: set<RolePermission>)

  /** The UNIQUE and REFERENCES constraints of the schema.  Key constraints are in the types. */
  ghost predicate Consistent(db: Tables) {
    && (forall u, v :: u in db.users && v in db.users && db.users[u].loginName == db.users[v].loginName ==> u == v)
    && (forall u, v :: u in db.users && v in db.users && db.users[u].email == db.users[v].email ==> u == v)
    && (forall r, s :: r in db.roles && s in db.roles && db.roles[r].name == db.roles[s].name ==> r == s)
    && (forall g :: g in db.userRoles ==> g.userId in db.users && g.roleId in db.roles)
    && (forall p :: p in db.rolePermissions ==> p.roleId in db.roles && p.permissionId in db.permissions)
  }

  // ---------------------------------------------------------------------------------
  // Joins
  // ---------------------------------------------------------------------------------

  datatype Kind = Roles | Permissions

  predicate HasRole(db: Tables, userId: string, roleId: string) {
    Grant(userId, roleId) in db.userRoles && roleId in db.roles
  }

  predicate Gives(db: Tables, roleId: string, permission: string) {
    exists p :: p in db.rolePermissions && p.roleId == roleId && p.permissionId in db.permissions
                && db.permissions[p.permissionId] == permission
  }

  function RoleNames(db: Tables, userId: string): set<string> {
    set r | r in db.roles && HasRole(db, userId, r) :: db.roles[r].name
  }

  function PermissionNames(db: Tables, userId: string): set<string> {
    set p | p in db.permissions.Values && exists r :: r in db.roles && HasRole(db, userId, r) && Gives(db, r, p)
  }

  /** The joins, table by table. */
  lemma JoinedRows(db: Tables, userId: string, name: string)
    ensures name in RoleNames(db, userId) <==>
      exists r ::
        && Grant(userId, r) in db.userRoles
        && r in db.roles && db.roles[r].name == name
    ensures name in PermissionNames(db, userId) <==>
      exists r, p ::
        && Grant(userId, r) in db.userRoles && r in db.roles
        && RolePermission(r, p) in db.rolePermissions
        && p in db.permissions && db.permissions[p] == name
  {
    if r, p :| && Grant(userId, r) in db.userRoles && r in db.roles && RolePermission(r, p) in db.rolePermissions
               && p in db.permissions && db.permissions[p] == name {
      assert HasRole(db, userId, r) && Gives(db, r, name);
    }
    if name in PermissionNames(db, userId) {
      var r :| r in db.roles && HasRole(db, userId, r) && Gives(db, r, name);
      var q :| q in db.rolePermissions && q.roleId == r && q.permissionId in db.permissions
               && db.permissions[q.permissionId] == name;
      assert RolePermission(r, q.permissionId) == q;
    }
    if name in RoleNames(db, userId) {
      var r :| r in db.roles && HasRole(db, userId, r) && db.roles[r].name == name;
    }
    if r :| Grant(userId, r) in db.userRoles && r in db.roles && db.roles[r].name == name {
      assert HasRole(db, userId, r);
    }
  }

  function Names(db: Tables, kind: Kind, userId: string): set<string> {
    match kind
    case Roles => RoleNames(db, userId)
    case Permissions => PermissionNames(db, userId)
  }

  // ---------------------------------------------------------------------------------
  // Creating and updating users
  // ---------------------------------------------------------------------------------

  // Member "roles" of an update.
  datatype RolesMember = Missing | NotAnArray | Array(names: seq<string>)

  datatype UserUpdate = UserUpdate(
    loginName: Option<string>, email: Option<string>, isActive: Option<bool>,
    mustPwdChange: Option<bool>, passwordHash: Option<string>, roles: RolesMember)

  predicate RoleExists(db: Tables, name: string) {
    exists r :: r in db.roles && db.roles[r].name == name
  }

  /** No role of the database occurs twice in the list; names of no role may. */
  predicate NamesNoRoleTwice(db: Tables, names: seq<string>) {
    forall i, j :: 0 <= i < j < |names| && names[i] == names[j] ==> !RoleExists(db, names[i])
  }

  predicate NamesNoRole(db: Tables, names: seq<string>) {
    forall i :: 0 <= i < |names| ==> !RoleExists(db, names[i])
  }

  function Granted(db: Tables, userId: string, names: seq<string>): set<Grant> {
    set r | r in db.roles && db.roles[r].name in names :: Grant(userId, r)
  }

  predicate LoginNameFree(db: Tables, userId: string, loginName: string) {
    forall u :: u in db.users && u != userId ==> db.users[u].loginName != loginName
  }

  predicate EmailFree(db: Tables, userId: string, email: string) {
    forall u :: u in db.users && u != userId ==> db.users[u].email != email
  }

  /** When the constraints let the whole update through. */
  predicate UpdateAllowed(db: Tables, userId: string, u: UserUpdate) {
    && (userId in db.users && u.loginName.Some? ==> LoginNameFree(db, userId, u.loginName.value))
    && (userId in db.users && u.email.Some? ==> EmailFree(db, userId, u.email.value))
    && (u.roles.Array? ==>
        NamesNoRoleTwice(db, u.roles.names) && (userId in db.users || NamesNoRole(db, u.roles.names)))
  }

  function Or<T>(o: Option<T>, default: T): T {
    if o.Some? then o.value else default
  }

  function Patched(user: User, u: UserUpdate): User {
    User(Or(u.loginName, user.loginName), Or(u.email, user.email), Or(u.passwordHash, user.passwordHash),
         Or(u.isActive, user.isActive), Or(u.mustPwdChange, user.mustPwdChange))
  }

  function GrantsOfOthers(db: Tables, userId: string): set<Grant> {
    set g | g in db.userRoles && g.userId != userId
  }

  function Updated(db: Tables, userId: string, u: UserUpdate): Tables {
    db.(users := if userId in db.users then db.users[userId := Patched(db.users[userId], u)] else db.users,
        userRoles := if u.roles.Array? then GrantsOfOthers(db, userId) + Granted(db, userId, u.roles.names)
            else db.userRoles)
  }

  predicate CreationAllowed(db: Tables, userId: string, user: User, names: seq<string>) {
    && userId !in db.users
    && LoginNameFree(db, userId, user.loginName)
    && EmailFree(db, userId, user.email)
    && NamesNoRoleTwice(db, names)
  }

  function Created(db: Tables, userId: string, user: User, names: seq<string>): Tables {
    db.(users := db.users[userId := user], userRoles := db.userRoles + Granted(db, userId, names))
  }

  // ---------------------------------------------------------------------------------
  // Creating, changing and deleting roles
  // ---------------------------------------------------------------------------------

  function RoleCreated(db: Tables, roleId: string, role: Role): Tables {
    if roleId in db.roles || RoleExists(db, role.name) then db else db.(roles := db.roles[roleId := role])
  }

  predicate RenameAllowed(db: Tables, roleId: string, name: string) {
    forall r :: r in db.roles && r != roleId && roleId in db.roles ==> db.roles[r].name != name
  }

  /** One UPDATE statement; the name is UNIQUE. */
  function Renamed(db: Tables, roleId: string, name: string): Tables {
    if roleId in db.roles && RenameAllowed(db, roleId, name) then
      db.(roles := db.roles[roleId := db.roles[roleId].(name := name)])
    else db
  }

  function Described(db: Tables, roleId: string, description: string): Tables {
    if roleId in db.roles then db.(roles := db.roles[roleId := db.roles[roleId].(description := description)]) else db
  }

  /** The DELETE cascades to the rows that refer to the role. */
  function RoleDeleted(db: Tables, roleId: string): Tables {
    db.(roles := db.roles - {roleId},
        userRoles := (set g | g in db.userRoles && g.roleId != roleId),
        rolePermissions := (set p | p in db.rolePermissions && p.roleId != roleId))
  }

  // ---------------------------------------------------------------------------------
  // What the operations do to the joins
  // ---------------------------------------------------------------------------------

  lemma UpdateKeepsConstraints(db: Tables, userId: string, u: UserUpdate)
    requires Consistent(db) && UpdateAllowed(db, userId, u)
    ensures Consistent(Updated(db, userId, u))
  {
  }

  lemma CreationKeepsConstraints(db: Tables, userId: string, user: User, names: seq<string>)
    requires Consistent(db) && CreationAllowed(db, userId, user, names)
    ensures Consistent(Created(db, userId, user, names))
  {
  }

  lemma RoleCreationKeepsConstraints(db: Tables, roleId: string, role: Role)
    requires Consistent(db)
    ensures Consistent(RoleCreated(db, roleId, role))
  {
  }

  lemma RenamingKeepsConstraints(db: Tables, roleId: string, name: string)
    requires Consistent(db)
    ensures Consistent(Renamed(db, roleId, name))
  {
  }

  lemma DescribingKeepsConstraints(db: Tables, roleId: string, description: string)
    requires Consistent(db)
    ensures Consistent(Described(db, roleId, description))
  {
  }

  lemma RoleDeletionKeepsConstraints(db: Tables, roleId: string)
    requires Consistent(db)
    ensures Consistent(RoleDeleted(db, roleId))
  {
  }

  /**
    A roles update leaves the user with precisely those roles of the list that exist, and
    every other user with the same row, roles and permissions as before.
   */
  lemma ReplacementIsExact(db: Tables, userId: string, u: UserUpdate)
    requires Consistent(db) && UpdateAllowed(db, userId, u) && u.roles.Array?
    ensures RoleNames(Updated(db, userId, u), userId) == set n | n in u.roles.names && RoleExists(db, n)
    ensures forall v, kind :: v != userId ==> Names(Updated(db, userId, u), kind, v) == Names(db, kind, v)
    ensures forall v :: v != userId && v in db.users ==>
        v in Updated(db, userId, u).users && Updated(db, userId, u).users[v] == db.users[v]
  {
    var next := Updated(db, userId, u);
    forall r ensures HasRole(next, userId, r) == (r in db.roles && db.roles[r].name in u.roles.names) {
    }
    forall n ensures n in RoleNames(next, userId) <==> n in u.roles.names && RoleExists(db, n) {
    }
    forall v, kind | v != userId ensures Names(next, kind, v) == Names(db, kind, v) {
      SameGrantsSameNames(db, next, v, kind);
    }
  }

  /** A successful creation adds this row and precisely those roles of the list that exist. */
  lemma CreationIsExact(db: Tables, userId: string, user: User, names: seq<string>)
    requires Consistent(db) && CreationAllowed(db, userId, user, names)
    ensures var next := Created(db, userId, user, names);
      && next.users == db.users[userId := user]
      && RoleNames(next, userId) == (set n | n in names && RoleExists(db, n))
      && forall v, kind :: v != userId ==> Names(next, kind, v) == Names(db, kind, v)
  {
    var next := Created(db, userId, user, names);
    forall r ensures HasRole(next, userId, r) == (r in db.roles && db.roles[r].name in names) {
    }
    forall n ensures n in RoleNames(next, userId) <==> n in names && RoleExists(db, n) {
    }
    forall v, kind | v != userId ensures Names(next, kind, v) == Names(db, kind, v) {
      SameGrantsSameNames(db, next, v, kind);
    }
  }

  /** The user's row with the columns that the update names. */
  function WithColumns(db: Tables, userId: string, u: UserUpdate): Tables
    requires userId in db.users
  {
    var row := db.users[userId];
    db.(users := db.users[userId := User(
      if u.loginName.Some? then u.loginName.value else row.loginName,
      if u.email.Some? then u.email.value else row.email,
      if u.passwordHash.Some? then u.passwordHash.value else row.passwordHash,
      if u.isActive.Some? then u.isActive.value else row.isActive,
      if u.mustPwdChange.Some? then u.mustPwdChange.value else row.mustPwdChange)])
  }

  /** Without a list of roles an update is accepted exactly if the constraints hold afterwards. */
  lemma UpdateAllowedIffConsistent(db: Tables, userId: string, u: UserUpdate)
    requires Consistent(db) && userId in db.users && !u.roles.Array?
    ensures UpdateAllowed(db, userId, u) <==> Consistent(WithColumns(db, userId, u))
    ensures Updated(db, userId, u) == WithColumns(db, userId, u)
  {
    var next := WithColumns(db, userId, u);
    if Consistent(next) {
      var row := next.users[userId];
      assert row.loginName == (if u.loginName.Some? then u.loginName.value else db.users[userId].loginName);
      forall v | v in db.users && v != userId ensures v in next.users && next.users[v] == db.users[v] {
      }
    }
  }

  /** An update of an unknown user without a list of roles is accepted and changes nothing. */
  lemma UnknownUserUpdate(db: Tables, userId: string, u: UserUpdate)
    requires userId !in db.users
    ensures UpdateAllowed(db, userId, u) <==> !u.roles.Array? || forall n :: n in u.roles.names ==> !RoleExists(db, n)
    ensures Consistent(db) && UpdateAllowed(db, userId, u) ==> Updated(db, userId, u) == db
  {
    if Consistent(db) && UpdateAllowed(db, userId, u) {
      assert GrantsOfOthers(db, userId) == db.userRoles;
      if u.roles.Array? {
        forall g ensures g !in Granted(db, userId, u.roles.names) {
          if g in Granted(db, userId, u.roles.names) {
            assert RoleExists(db, db.roles[g.roleId].name);
          }
        }
        assert Granted(db, userId, u.roles.names) == {};
      }
    }
  }

  /** A list of roles adds one condition: no role of the database is named twice. */
  lemma RoleListAllowedIff(db: Tables, userId: string, u: UserUpdate)
    requires userId in db.users && u.roles.Array?
    ensures UpdateAllowed(db, userId, u) <==>
      && UpdateAllowed(db, userId, u.(roles := Missing))
      && forall i, j, r :: 0 <= i < j < |u.roles.names| && r in db.roles && db.roles[r].name == u.roles.names[i]
           ==> u.roles.names[i] != u.roles.names[j]
  {
    var names := u.roles.names;
    if NamesNoRoleTwice(db, names) {
      forall i, j, r | 0 <= i < j < |names| && r in db.roles && db.roles[r].name == names[i]
        ensures names[i] != names[j]
      {
        assert RoleExists(db, names[i]);
      }
    }
  }

  /** The joins of a user depend on the user's grants and on the role and permission tables only. */
  lemma SameGrantsSameNames(db: Tables, next: Tables, v: string, kind: Kind)
    requires next.roles == db.roles && next.permissions == db.permissions && next.rolePermissions == db.rolePermissions
    requires forall r :: Grant(v, r) in next.userRoles <==> Grant(v, r) in db.userRoles
    ensures Names(next, kind, v) == Names(db, kind, v)
  {
  }

  lemma OtherUpdatesKeepNames(db: Tables, userId: string, u: UserUpdate, v: string, kind: Kind)
    requires v != userId || !u.roles.Array?
    ensures Names(Updated(db, userId, u), kind, v) == Names(db, kind, v)
  {
  }

  lemma CreationKeepsOtherNames(db: Tables, userId: string, user: User, names: seq<string>, v: string, kind: Kind)
    requires Consistent(db) && CreationAllowed(db, userId, user, names) && v != userId
    ensures Names(Created(db, userId, user, names), kind, v) == Names(db, kind, v)
  {
  }

  lemma UnknownUserHasNoNames(db: Tables, userId: string, kind: Kind)
    requires Consistent(db) && userId !in db.users
    ensures Names(db, kind, userId) == {}
  {
  }

  /** Names depend on the joined rows only. */
  lemma SameJoinsSameNames(db: Tables, next: Tables, v: string, kind: Kind)
    requires next.permissions == db.permissions
    requires forall r :: HasRole(next, v, r) == HasRole(db, v, r)
    requires forall r :: HasRole(db, v, r) ==> r in next.roles && next.roles[r].name == db.roles[r].name
    requires forall r, p :: HasRole(db, v, r) ==> Gives(next, r, p) == Gives(db, r, p)
    ensures Names(next, kind, v) == Names(db, kind, v)
  {
  }

  lemma RoleCreationKeepsNames(db: Tables, roleId: string, role: Role, v: string, kind: Kind)
    requires Consistent(db)
    ensures Names(RoleCreated(db, roleId, role), kind, v) == Names(db, kind, v)
  {
    var next := RoleCreated(db, roleId, role);
    assert forall r, p :: Gives(next, r, p) == Gives(db, r, p);
    SameJoinsSameNames(db, next, v, kind);
  }

  lemma DescribingKeepsNames(db: Tables, roleId: string, description: string, v: string, kind: Kind)
    ensures Names(Described(db, roleId, description), kind, v) == Names(db, kind, v)
  {
    var next := Described(db, roleId, description);
    assert forall r, p :: Gives(next, r, p) == Gives(db, r, p);
    SameJoinsSameNames(db, next, v, kind);
  }

  /** Renaming a role touches no permissions, and exactly the role lists of those who hold it. */
  lemma RenamingChangesNamesIff(db: Tables, roleId: string, name: string, v: string)
    requires Consistent(db) && roleId in db.roles && RenameAllowed(db, roleId, name)
    ensures PermissionNames(Renamed(db, roleId, name), v) == PermissionNames(db, v)
    ensures RoleNames(Renamed(db, roleId, name), v) != RoleNames(db, v)
       <==> db.roles[roleId].name != name && HasRole(db, v, roleId)
  {
    var next := Renamed(db, roleId, name);
    assert forall r, p :: Gives(next, r, p) == Gives(db, r, p);
    assert forall r :: HasRole(next, v, r) == HasRole(db, v, r);
    forall n ensures n in PermissionNames(next, v) <==> n in PermissionNames(db, v) {
      if n in PermissionNames(next, v) {
        var r :| r in next.roles && HasRole(next, v, r) && Gives(next, r, n);
        assert HasRole(db, v, r);
      }
      if n in PermissionNames(db, v) {
        var r :| r in db.roles && HasRole(db, v, r) && Gives(db, r, n);
        assert HasRole(next, v, r);
      }
    }
    if db.roles[roleId].name == name || !HasRole(db, v, roleId) {
      SameJoinsSameNames(db, next, v, Roles);
      assert Names(next, Roles, v) == Names(db, Roles, v);
    } else {
      assert HasRole(next, v, roleId) && next.roles[roleId].name == name;
      assert name in RoleNames(next, v) && name !in RoleNames(db, v);
    }
  }

  /** Deleting a role changes exactly the role lists of those who hold it. */
  lemma DeletionChangesRolesIff(db: Tables, roleId: string, v: string)
    requires Consistent(db)
    ensures RoleNames(RoleDeleted(db, roleId), v) != RoleNames(db, v) <==> HasRole(db, v, roleId)
  {
    var next := RoleDeleted(db, roleId);
    assert forall r :: HasRole(next, v, r) == (HasRole(db, v, r) && r != roleId);
    if HasRole(db, v, roleId) {
      assert db.roles[roleId].name in RoleNames(db, v) && db.roles[roleId].name !in RoleNames(next, v);
    } else {
      forall n ensures n in RoleNames(next, v) <==> n in RoleNames(db, v) {
        if n in RoleNames(db, v) {
          var r :| r in db.roles && HasRole(db, v, r) && db.roles[r].name == n;
          assert HasRole(next, v, r);
        }
      }
    }
  }

  /** The user has nothing through this role that another role of the user does not give. */
  ghost predicate RoleIsRedundant(db: Tables, roleId: string, v: string) {
    HasRole(db, v, roleId) ==>
      forall p :: Gives(db, roleId, p) ==> exists r :: r != roleId && HasRole(db, v, r) && Gives(db, r, p)
  }

  lemma DeletionKeepsPermissionsIff(db: Tables, roleId: string, v: string)
    requires Consistent(db)
    ensures PermissionNames(RoleDeleted(db, roleId), v) == PermissionNames(db, v) <==> RoleIsRedundant(db, roleId, v)
  {
    var next := RoleDeleted(db, roleId);
    assert forall r :: HasRole(next, v, r) == (HasRole(db, v, r) && r != roleId);
    forall r, p ensures Gives(next, r, p) == (Gives(db, r, p) && r != roleId) {
      if Gives(db, r, p) && r != roleId {
        var rp :| rp in db.rolePermissions && rp.roleId == r && rp.permissionId in db.permissions &&
            db.permissions[rp.permissionId] == p;
        assert rp in next.rolePermissions;
      }
    }
    forall n ensures n in PermissionNames(next, v) <==>
        exists r :: r != roleId && HasRole(db, v, r) && Gives(db, r, n) {
      if r :| r != roleId && HasRole(db, v, r) && Gives(db, r, n) {
        assert HasRole(next, v, r) && Gives(next, r, n);
      }
      if n in PermissionNames(next, v) {
        var r :| r in next.roles && HasRole(next, v, r) && Gives(next, r, n);
        assert r != roleId && HasRole(db, v, r) && Gives(db, r, n);
      }
    }
    forall n ensures n in PermissionNames(db, v) <==> exists r :: HasRole(db, v, r) && Gives(db, r, n) {
      if r :| HasRole(db, v, r) && Gives(db, r, n) {
        assert r in db.roles;
      }
    }
    if RoleIsRedundant(db, roleId, v) {
      forall n ensures n in PermissionNames(next, v) <==> n in PermissionNames(db, v) {
        if n in PermissionNames(db, v) {
          var r :| HasRole(db, v, r) && Gives(db, r, n);
          if r == roleId {
            assert exists q :: q != roleId && HasRole(db, v, q) && Gives(db, q, n);
          }
        }
      }
    } else {
      var p :| Gives(db, roleId, p) && !exists r :: r != roleId && HasRole(db, v, r) && Gives(db, r, p);
      assert p in PermissionNames(db, v) && p !in PermissionNames(next, v);
    }
  }
}
