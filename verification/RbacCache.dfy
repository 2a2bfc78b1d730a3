/**
  The cache of role and permission lists as a state machine.  A lookup is a coroutine that
  other work may overtake while it waits for the database, and an update of a user drops the
  user's cached lists only after its transaction has been committed.
 */
module RbacCache {
  import opened Options
  import opened RbacTables
  import opened Users

  type Lists = map<string, seq<string>>

  // A coroutine in flight: the step it takes when it is resumed, with its local variables.
  datatype Proc =
    | Querying(kind: Kind, userId: string, name: string)
    | Storing(kind: Kind, userId: string, name: string, list: seq<string>)
    | Invalidating(userId: string)

  datatype Answer = Answer(kind: Kind, userId: string, name: string, result: bool)

  datatype State = State(
    db: Tables, roles: Lists, permissions: Lists, procs: map<nat, Proc>,
    answers: seq<Answer>) // history: what the lookups returned

  datatype Action =
    | Ask(pid: nat, kind: Kind, userId: string, name: string)
    | Query(pid: nat, read: Option<seq<string>>) // None: the statement fails
    | Resume(pid: nat)
    | CreateUser(userId: string, user: User, names: seq<string>)
    | UpdateUser(pid: nat, userId: string, update: UserUpdate)
    | CreateRole(roleId: string, role: Role)
    | DescribeRole(roleId: string, description: string)
    | RenameRole(roleId: string, name: string)
    | DeleteRole(roleId: string)

  function ListsOf(s: State, kind: Kind): Lists {
    match kind
    case Roles => s.roles
    case Permissions => s.permissions
  }

  /** A user without an entry is looked up like one with an empty list. */
  function Cached(s: State, kind: Kind, userId: string): seq<string> {
    if userId in ListsOf(s, kind) then ListsOf(s, kind)[userId] else []
  }

  /** The list is an answer of the database: some order, repetitions allowed. */
  ghost predicate Reads(db: Tables, kind: Kind, userId: string, list: seq<string>) {
    forall n :: n in list <==> n in Names(db, kind, userId)
  }

  ghost predicate Enabled(s: State, a: Action) {
    match a
    case Ask(pid, _, _, _) => pid !in s.procs
    case UpdateUser(pid, _, _) => pid !in s.procs
    case Query(pid, read) =>
      && pid in s.procs && s.procs[pid].Querying?
      && (read.Some? ==> Reads(s.db, s.procs[pid].kind, s.procs[pid].userId, read.value))
    case Resume(pid) => pid in s.procs && !s.procs[pid].Querying?
    case _ => true
  }

  function Step(s: State, a: Action): State {
    match a
    case Ask(pid, kind, u, name) =>
      var list := Cached(s, kind, u);
      if list != [] then s.(answers := s.answers + [Answer(kind, u, name, name in list)])
      else s.(procs := s.procs[pid := Querying(kind, u, name)])
    case Query(pid, read) =>
      if pid in s.procs && s.procs[pid].Querying? then
        var p := s.procs[pid];
        s.(procs := s.procs[pid := Storing(p.kind, p.userId, p.name, if read.Some? then read.value else [])])
      else s
    case Resume(pid) => if pid in s.procs then Continue(s, pid) else s
    case CreateUser(u, user, names) =>
      if CreationAllowed(s.db, u, user, names) then s.(db := Created(s.db, u, user, names)) else s
    case UpdateUser(pid, u, update) =>
      if UpdateAllowed(s.db, u, update) then
        s.(db := Updated(s.db, u, update),
           procs := if update.roles.Missing? then s.procs else s.procs[pid := Invalidating(u)])
      else s
    case CreateRole(r, role) => s.(db := RoleCreated(s.db, r, role))
    case DescribeRole(r, description) => s.(db := Described(s.db, r, description))
    case RenameRole(r, name) => s.(db := Renamed(s.db, r, name))
    case DeleteRole(r) => s.(db := RoleDeleted(s.db, r))
  }

  function Continue(s: State, pid: nat): State
    requires pid in s.procs
  {
    match s.procs[pid]
    case Querying(_, _, _) => s
    case Storing(kind, u, name, list) =>
      var t := s.(procs := s.procs - {pid}, answers := s.answers + [Answer(kind, u, name, name in list)]);
      if kind.Roles? then t.(roles := s.roles[u := list]) else t.(permissions := s.permissions[u := list])
    case Invalidating(u) =>
      s.(roles := s.roles - {u}, permissions := s.permissions - {u}, procs := s.procs - {pid})
  }

  ghost function Next(s: State, a: Action): State {
    if Enabled(s, a) then Step(s, a) else s
  }

  ghost function Run(s: State, actions: seq<Action>): State {
    if actions == [] then s
    else Next(Run(s, actions[..|actions| - 1]), actions[|actions| - 1])
  }

  // ---------------------------------------------------------------------------------
  // Coherence
  // ---------------------------------------------------------------------------------

  /** The coroutine holds a list of the user's that it is about to store. */
  ghost predicate Holds(s: State, pid: nat, kind: Kind, u: string, list: seq<string>) {
    && pid in s.procs && s.procs[pid].Storing?
    && s.procs[pid].kind == kind && s.procs[pid].userId == u && s.procs[pid].list == list
  }

  ghost predicate InvalidationPending(s: State, pid: nat, u: string) {
    pid in s.procs && s.procs[pid] == Invalidating(u)
  }

  /** No update of the user is on its way from the database to the cache. */
  ghost predicate Settled(s: State, u: string) {
    forall pid :: !InvalidationPending(s, pid, u)
  }

  /** A list from which a lookup may be answered, now or later. */
  ghost predicate Known(s: State, kind: Kind, u: string, list: seq<string>) {
    list != [] && (Cached(s, kind, u) == list || exists pid :: Holds(s, pid, kind, u, list))
  }

  /** Every list of the user's, once settled, is the join. */
  ghost predicate CoherentFor(s: State, u: string) {
    Settled(s, u) ==> forall kind, list :: Known(s, kind, u, list) ==> Reads(s.db, kind, u, list)
  }

  ghost predicate Coherent(s: State) {
    Consistent(s.db) && forall u :: CoherentFor(s, u)
  }

  /** The invalidation is the user's last one, and a lookup has yet to store a list that is not the join. */
  ghost predicate Straddled(s: State, pid: nat, u: string) {
    && InvalidationPending(s, pid, u)
    && (forall q :: InvalidationPending(s, q, u) ==> q == pid)
    && exists q, kind, list :: Holds(s, q, kind, u, list) && list != [] && !Reads(s.db, kind, u, list)
  }

  /** The rename takes effect and a list in use belongs to a holder of the role. */
  ghost predicate RenameHits(s: State, r: string, name: string, u: string) {
    && r in s.db.roles && RenameAllowed(s.db, r, name) && s.db.roles[r].name != name
    && HasRole(s.db, u, r) && Settled(s, u) && exists list :: Known(s, Roles, u, list)
  }

  ghost predicate DeletionHits(s: State, r: string, u: string) {
    && HasRole(s.db, u, r) && Settled(s, u)
    && exists kind, list :: Known(s, kind, u, list) && (kind.Permissions? ==> !RoleIsRedundant(s.db, r, u))
  }

  /** The step is none of the three that can leave a wrong list of this user's behind. */
  ghost predicate HarmlessFor(s: State, a: Action, u: string) {
    match a
    case Resume(pid) => !Straddled(s, pid, u)
    case RenameRole(r, name) => !RenameHits(s, r, name, u)
    case DeleteRole(r) => !DeletionHits(s, r, u)
    case _ => true
  }

  // Where lists come from.

  lemma HeldWasHeldOrRead(s: State, a: Action, pid: nat, kind: Kind, u: string, list: seq<string>)
    requires Holds(Next(s, a), pid, kind, u, list) && list != []
    ensures Holds(s, pid, kind, u, list) || Reads(s.db, kind, u, list)
  {
  }

  lemma CachedWasKnown(s: State, a: Action, kind: Kind, u: string)
    requires Cached(Next(s, a), kind, u) != []
    ensures Known(s, kind, u, Cached(Next(s, a), kind, u))
  {
    var list := Cached(Next(s, a), kind, u);
    if Cached(s, kind, u) != list {
      assert Holds(s, a.pid, kind, u, list);
    }
  }

  lemma KnownWasKnownOrRead(s: State, a: Action, kind: Kind, u: string, list: seq<string>)
    requires Known(Next(s, a), kind, u, list)
    ensures Known(s, kind, u, list) || Reads(s.db, kind, u, list)
  {
    hide Next;
    if Cached(Next(s, a), kind, u) == list {
      CachedWasKnown(s, a, kind, u);
    } else {
      var pid :| Holds(Next(s, a), pid, kind, u, list);
      HeldWasHeldOrRead(s, a, pid, kind, u, list);
    }
  }

  // Steps of lookups and invalidations.

  predicate OnTables(a: Action) {
    a.CreateUser? || a.UpdateUser? || a.CreateRole? || a.DescribeRole? || a.RenameRole? || a.DeleteRole?
  }

  lemma LookupStepKeepsTables(s: State, a: Action)
    requires !OnTables(a)
    ensures Next(s, a).db == s.db
  {
  }

  lemma PendingStays(s: State, a: Action, q: nat, u: string)
    requires InvalidationPending(s, q, u) && a != Resume(q)
    ensures InvalidationPending(Next(s, a), q, u)
  {
  }

  lemma LookupStepKeepsCoherence(s: State, a: Action, u: string)
    requires CoherentFor(s, u) && !OnTables(a) && !(a.Resume? && InvalidationPending(s, a.pid, u))
    ensures CoherentFor(Next(s, a), u)
  {
    hide Next, Names;
    LookupStepKeepsTables(s, a);
    if Settled(s, u) {
      forall kind, list | Known(Next(s, a), kind, u, list) ensures Reads(s.db, kind, u, list) {
        KnownWasKnownOrRead(s, a, kind, u, list);
      }
    } else {
      var q :| InvalidationPending(s, q, u);
      PendingStays(s, a, q, u);
    }
  }

  /** An invalidation leaves of the user's lists those that lookups hold. */
  lemma KnownAfterInvalidation(s: State, pid: nat, u: string, kind: Kind, list: seq<string>)
    requires InvalidationPending(s, pid, u)
    ensures Known(Next(s, Resume(pid)), kind, u, list) <==> list != [] && exists q :: Holds(s, q, kind, u, list)
  {
    var t := Next(s, Resume(pid));
    assert Cached(t, kind, u) == [];
    assert forall q :: Holds(t, q, kind, u, list) == Holds(s, q, kind, u, list);
  }

  lemma SettledAfterInvalidation(s: State, pid: nat, u: string)
    requires InvalidationPending(s, pid, u)
    ensures Next(s, Resume(pid)).db == s.db
    ensures Settled(Next(s, Resume(pid)), u) <==> forall q :: InvalidationPending(s, q, u) ==> q == pid
  {
    var t := Next(s, Resume(pid));
    assert forall q :: InvalidationPending(t, q, u) <==> InvalidationPending(s, q, u) && q != pid;
  }

  /**
    Whatever has happened before, an invalidation makes the user's lists right if and only if
    another one is to follow or no lookup in flight holds a list that is not the join.
   */
  lemma InvalidationRestoresIff(s: State, pid: nat, u: string)
    requires InvalidationPending(s, pid, u)
    ensures CoherentFor(Next(s, Resume(pid)), u) <==> !Straddled(s, pid, u)
  {
    hide Next, Names;
    var t := Next(s, Resume(pid));
    SettledAfterInvalidation(s, pid, u);
    forall kind, list
      ensures Known(t, kind, u, list) <==> list != [] && exists q :: Holds(s, q, kind, u, list)
    {
      KnownAfterInvalidation(s, pid, u, kind, list);
    }
    if !CoherentFor(t, u) {
      var kind, list :| Known(t, kind, u, list) && !Reads(s.db, kind, u, list);
      var q :| Holds(s, q, kind, u, list);
      assert Straddled(s, pid, u);
    }
    if Straddled(s, pid, u) {
      var q, kind, list :| Holds(s, q, kind, u, list) && list != [] && !Reads(s.db, kind, u, list);
      assert Known(t, kind, u, list);
    }
  }

  // Steps that change the tables.

  lemma TablesStepKeepsLists(s: State, a: Action, u: string)
    requires OnTables(a) && Enabled(s, a)
    ensures forall kind, list :: Known(Next(s, a), kind, u, list) == Known(s, kind, u, list)
    ensures Settled(Next(s, a), u) <==>
            Settled(s, u) &&
                !(a.UpdateUser? && a.userId == u && UpdateAllowed(s.db, u, a.update) && !a.update.roles.Missing?)
  {
    hide UpdateAllowed, CreationAllowed, Updated, Created, RoleCreated, Described, Renamed, RoleDeleted;
    var t := Next(s, a);
    assert forall pid, kind, list :: Holds(t, pid, kind, u, list) == Holds(s, pid, kind, u, list);
    assert forall kind :: Cached(t, kind, u) == Cached(s, kind, u);
    if a.UpdateUser? && UpdateAllowed(s.db, a.userId, a.update) && !a.update.roles.Missing? {
      assert InvalidationPending(t, a.pid, a.userId);
      assert forall pid :: pid != a.pid ==> InvalidationPending(t, pid, u) == InvalidationPending(s, pid, u);
    } else {
      assert forall pid :: InvalidationPending(t, pid, u) == InvalidationPending(s, pid, u);
    }
  }

  lemma OnlyTablesChange(s: State, t: State)
    requires t.roles == s.roles && t.permissions == s.permissions && t.procs == s.procs
    ensures forall kind, u, list :: Known(t, kind, u, list) == Known(s, kind, u, list)
    ensures forall u :: Settled(t, u) == Settled(s, u)
  {
    assert forall pid, kind, u, list :: Holds(t, pid, kind, u, list) == Holds(s, pid, kind, u, list);
    assert forall pid, u :: InvalidationPending(t, pid, u) == InvalidationPending(s, pid, u);
    assert forall kind, u :: Cached(t, kind, u) == Cached(s, kind, u);
  }

  lemma BothRead(db: Tables, next: Tables, kind: Kind, u: string, list: seq<string>)
    requires Reads(db, kind, u, list)
    ensures Reads(next, kind, u, list) <==> Names(next, kind, u) == Names(db, kind, u)
  {
  }

  lemma ListedHasNames(db: Tables, kind: Kind, u: string, list: seq<string>)
    requires Reads(db, kind, u, list) && list != []
    ensures Names(db, kind, u) != {}
  {
    assert list[0] in list;
  }

  /** What a step does to the join of one user, of whom a list is in use. */
  lemma NamesAfterStep(s: State, a: Action, kind: Kind, u: string)
    requires Consistent(s.db) && OnTables(a) && Enabled(s, a) && Settled(Next(s, a), u) && Names(s.db, kind, u) != {}
    requires !a.RenameRole? && !a.DeleteRole?
    ensures Names(Next(s, a).db, kind, u) == Names(s.db, kind, u)
  {
    TablesStepKeepsLists(s, a, u);
    hide Names, Settled, Consistent;
    match a
    case CreateUser(v, user, names) =>
      if CreationAllowed(s.db, v, user, names) {
        if v == u {
          UnknownUserHasNoNames(s.db, u, kind);
        } else {
          CreationKeepsOtherNames(s.db, v, user, names, u, kind);
        }
      }
    case UpdateUser(_, v, update) =>
      if UpdateAllowed(s.db, v, update) {
        OtherUpdatesKeepNames(s.db, v, update, u, kind);
      }
    case CreateRole(r, role) => RoleCreationKeepsNames(s.db, r, role, u, kind);
    case DescribeRole(r, description) => DescribingKeepsNames(s.db, r, description, u, kind);
  }

  lemma TablesStepKeepsCoherence(s: State, a: Action, u: string)
    requires Consistent(s.db) && CoherentFor(s, u) && OnTables(a) && Enabled(s, a) && !a.RenameRole? && !a.DeleteRole?
    ensures CoherentFor(Next(s, a), u)
  {
    hide Next, Names;
    TablesStepKeepsLists(s, a, u);
    if Settled(Next(s, a), u) {
      forall kind, list | Known(s, kind, u, list) ensures Reads(Next(s, a).db, kind, u, list) {
        ListedHasNames(s.db, kind, u, list);
        NamesAfterStep(s, a, kind, u);
      }
    }
  }

  /** Renaming a role leaves a wrong list behind exactly when a list in use contains it. */
  lemma RenameKeepsCoherenceIff(s: State, r: string, name: string, u: string)
    requires Consistent(s.db) && CoherentFor(s, u)
    ensures CoherentFor(Next(s, RenameRole(r, name)), u) <==> !RenameHits(s, r, name, u)
  {
    var t := Next(s, RenameRole(r, name));
    OnlyTablesChange(s, t);
    if r in s.db.roles && RenameAllowed(s.db, r, name) {
      RenamingChangesNamesIff(s.db, r, name, u);
      forall kind, list | Known(s, kind, u, list) && Settled(s, u)
        ensures Reads(t.db, kind, u, list) <==> !(kind.Roles? && s.db.roles[r].name != name && HasRole(s.db, u, r))
      {
        BothRead(s.db, t.db, kind, u, list);
      }
    } else {
      assert t.db == s.db;
    }
  }

  /** So does deleting one, unless all it gave to the user is still given by other roles. */
  lemma DeletionKeepsCoherenceIff(s: State, r: string, u: string)
    requires Consistent(s.db) && CoherentFor(s, u)
    ensures CoherentFor(Next(s, DeleteRole(r)), u) <==> !DeletionHits(s, r, u)
  {
    var t := Next(s, DeleteRole(r));
    OnlyTablesChange(s, t);
    DeletionChangesRolesIff(s.db, r, u);
    DeletionKeepsPermissionsIff(s.db, r, u);
    forall kind, list | Known(s, kind, u, list) && Settled(s, u)
      ensures Reads(t.db, kind, u, list) <==>
          !(HasRole(s.db, u, r) && (kind.Permissions? ==> !RoleIsRedundant(s.db, r, u)))
    {
      BothRead(s.db, t.db, kind, u, list);
    }
  }

  // ---------------------------------------------------------------------------------
  // Steps and runs
  // ---------------------------------------------------------------------------------

  /** Of all steps, exactly three kinds leave a wrong list of the user's behind. */
  lemma StepKeepsCoherenceForIff(s: State, a: Action, u: string)
    requires Consistent(s.db) && CoherentFor(s, u)
    ensures CoherentFor(Next(s, a), u) <==> HarmlessFor(s, a, u)
  {
    hide Step, Consistent, CoherentFor;
    if !Enabled(s, a) {
    } else if a.Resume? && InvalidationPending(s, a.pid, u) {
      InvalidationRestoresIff(s, a.pid, u);
    } else if !OnTables(a) {
      LookupStepKeepsCoherence(s, a, u);
    } else if a.RenameRole? {
      RenameKeepsCoherenceIff(s, a.roleId, a.name, u);
    } else if a.DeleteRole? {
      DeletionKeepsCoherenceIff(s, a.roleId, u);
    } else {
      TablesStepKeepsCoherence(s, a, u);
    }
  }

  lemma StepKeepsConstraints(s: State, a: Action)
    requires Consistent(s.db)
    ensures Consistent(Next(s, a).db)
  {
    hide Consistent;
    match a
    case CreateUser(u, user, names) =>
      if CreationAllowed(s.db, u, user, names) {
        CreationKeepsConstraints(s.db, u, user, names);
      }
    case UpdateUser(_, u, update) =>
      if UpdateAllowed(s.db, u, update) {
        UpdateKeepsConstraints(s.db, u, update);
      }
    case CreateRole(r, role) => RoleCreationKeepsConstraints(s.db, r, role);
    case DescribeRole(r, description) => DescribingKeepsConstraints(s.db, r, description);
    case RenameRole(r, name) => RenamingKeepsConstraints(s.db, r, name);
    case DeleteRole(r) => RoleDeletionKeepsConstraints(s.db, r);
    case _ => LookupStepKeepsTables(s, a);
  }

  /** A step keeps every list of every user right if and only if it is harmless for all users. */
  lemma StepKeepsCoherenceIff(s: State, a: Action)
    requires Coherent(s)
    ensures Coherent(Next(s, a)) <==> forall u :: HarmlessFor(s, a, u)
  {
    hide Next, Consistent, CoherentFor, HarmlessFor;
    StepKeepsConstraints(s, a);
    forall u ensures CoherentFor(Next(s, a), u) <==> HarmlessFor(s, a, u) {
      StepKeepsCoherenceForIff(s, a, u);
    }
  }

  ghost predicate HarmlessRunFor(s: State, actions: seq<Action>, u: string) {
    forall k :: 0 <= k < |actions| ==> HarmlessFor(Run(s, actions[..k]), actions[k], u)
  }

  lemma {:induction false} RunKeepsConstraints(s: State, actions: seq<Action>)
    requires Consistent(s.db)
    ensures Consistent(Run(s, actions).db)
  {
    hide Consistent, Next;
    if actions != [] {
      RunKeepsConstraints(s, actions[..|actions| - 1]);
      StepKeepsConstraints(Run(s, actions[..|actions| - 1]), actions[|actions| - 1]);
    }
  }

  /** In every interleaving the lists of a user stay right as long as no step harms this user. */
  lemma {:induction false} RunKeepsCoherenceFor(s: State, actions: seq<Action>, u: string)
    requires Consistent(s.db) && CoherentFor(s, u) && HarmlessRunFor(s, actions, u)
    ensures CoherentFor(Run(s, actions), u)
  {
    hide Consistent, CoherentFor, HarmlessFor, Next;
    if actions != [] {
      var n := |actions| - 1;
      assert forall k :: 0 <= k < n ==> actions[..n][..k] == actions[..k];
      RunKeepsCoherenceFor(s, actions[..n], u);
      RunKeepsConstraints(s, actions[..n]);
      StepKeepsCoherenceForIff(Run(s, actions[..n]), actions[n], u);
    }
  }

  /** At every moment, if and only if no step does. */
  lemma {:induction false} RunKeepsCoherenceForIff(s: State, actions: seq<Action>, u: string)
    requires Consistent(s.db) && CoherentFor(s, u)
    ensures (forall k :: 0 <= k <= |actions| ==> CoherentFor(Run(s, actions[..k]), u)) <==>
            HarmlessRunFor(s, actions, u)
  {
    hide Consistent, CoherentFor, HarmlessFor, Next;
    if HarmlessRunFor(s, actions, u) {
      forall k | 0 <= k <= |actions| ensures CoherentFor(Run(s, actions[..k]), u) {
        assert forall j :: 0 <= j < k ==> actions[..k][..j] == actions[..j];
        RunKeepsCoherenceFor(s, actions[..k], u);
      }
    }
    if forall k :: 0 <= k <= |actions| ==> CoherentFor(Run(s, actions[..k]), u) {
      forall k | 0 <= k < |actions| ensures HarmlessFor(Run(s, actions[..k]), actions[k], u) {
        RunKeepsConstraints(s, actions[..k]);
        StepKeepsCoherenceForIff(Run(s, actions[..k]), actions[k], u);
        assert actions[..k + 1][..k] == actions[..k];
        assert CoherentFor(Run(s, actions[..k + 1]), u);
      }
    }
  }

  /**
    After any run, with any steps, an invalidation that is not straddled makes the lists of
    its user right again, and they stay right as long as no further step harms the user.
   */
  lemma InvalidationRestoresGuarantee(s: State, before: seq<Action>, pid: nat, after: seq<Action>, u: string)
    requires Consistent(s.db)
    requires InvalidationPending(Run(s, before), pid, u) && !Straddled(Run(s, before), pid, u)
    requires HarmlessRunFor(Next(Run(s, before), Resume(pid)), after, u)
    ensures CoherentFor(Run(Next(Run(s, before), Resume(pid)), after), u)
  {
    hide Consistent, CoherentFor, HarmlessFor, Next, Straddled, InvalidationPending;
    var t := Run(s, before);
    RunKeepsConstraints(s, before);
    InvalidationRestoresIff(t, pid, u);
    StepKeepsConstraints(t, Resume(pid));
    RunKeepsCoherenceFor(Next(t, Resume(pid)), after, u);
  }

  /** The service starts with empty caches, which are coherent. */
  lemma FreshCacheIsCoherent(db: Tables, u: string)
    requires Consistent(db)
    ensures Coherent(State(db, map[], map[], map[], [])) && Blank(State(db, map[], map[], map[], []), u)
  {
    var s := State(db, map[], map[], map[], []);
    assert forall pid, kind, v, list :: !Holds(s, pid, kind, v, list);
    assert forall kind, v, list :: !Known(s, kind, v, list);
  }

  // ---------------------------------------------------------------------------------
  // Answers
  // ---------------------------------------------------------------------------------

  /** The list from which the step answers. */
  function AnsweredFrom(s: State, a: Action): seq<string> {
    match a
    case Ask(_, kind, u, _) => Cached(s, kind, u)
    case Resume(pid) => if pid in s.procs && s.procs[pid].Storing? then s.procs[pid].list else []
    case _ => []
  }

  ghost predicate Answers(s: State, a: Action, answer: Answer) {
    Next(s, a).answers == s.answers + [answer]
  }

  lemma AnswerIsMembership(s: State, a: Action, answer: Answer)
    requires Answers(s, a, answer)
    ensures answer.result == (answer.name in AnsweredFrom(s, a))
    ensures AnsweredFrom(s, a) != [] ==> Known(s, answer.kind, answer.userId, AnsweredFrom(s, a))
    ensures a.Ask? ==> AnsweredFrom(s, a) != []
  {
    assert (s.answers + [answer])[|s.answers|] == answer;
    if a.Resume? && a.pid in s.procs && s.procs[a.pid].Storing? {
      assert Holds(s, a.pid, answer.kind, answer.userId, AnsweredFrom(s, a));
    }
  }

  /**
    While no update of the user is under way, and after steps that did not harm this user,
    whatever they did to others, a lookup never finds a name that the join does
    not give, and answers exactly like the join unless it had only an empty list to go by.
    An empty cached list never decides: the database is asked first.
   */
  lemma {:induction false} SettledAnswersAreExact(s: State, actions: seq<Action>, a: Action, answer: Answer)
    requires Consistent(s.db) && CoherentFor(s, answer.userId) && HarmlessRunFor(s, actions, answer.userId)
    requires Answers(Run(s, actions), a, answer) && Settled(Run(s, actions), answer.userId)
    ensures var t := Run(s, actions);
      && (answer.result ==> answer.name in Names(t.db, answer.kind, answer.userId))
      && (AnsweredFrom(t, a) != [] ==> answer.result == (answer.name in Names(t.db, answer.kind, answer.userId)))
      && (a.Ask? ==> AnsweredFrom(t, a) != [])
  {
    hide Consistent, Names, HarmlessRunFor, Run;
    var t := Run(s, actions);
    RunKeepsCoherenceFor(s, actions, answer.userId);
    AnswerIsMembership(t, a, answer);
    if AnsweredFrom(t, a) != [] {
      assert Known(t, answer.kind, answer.userId, AnsweredFrom(t, a));
    }
  }

  // ---------------------------------------------------------------------------------
  // All interleavings, with every kind of change
  // ---------------------------------------------------------------------------------

  /** No list of the user's is cached or about to be. */
  ghost predicate Blank(s: State, u: string) {
    forall kind, list :: !Known(s, kind, u, list)
  }

  ghost predicate NamedSince(s: State, actions: seq<Action>, kind: Kind, u: string, n: string) {
    exists k :: 0 <= k <= |actions| && n in Names(Run(s, actions[..k]).db, kind, u)
  }

  /** An invalidation leaves the user without lists if and only if no lookup holds one. */
  lemma InvalidationBlanksIff(s: State, pid: nat, u: string)
    requires InvalidationPending(s, pid, u)
    ensures Blank(Next(s, Resume(pid)), u) <==> forall q, kind, list :: Holds(s, q, kind, u, list) ==> list == []
  {
    hide Next;
    forall kind, list
      ensures Known(Next(s, Resume(pid)), kind, u, list) <==> list != [] && exists q :: Holds(s, q, kind, u, list)
    {
      KnownAfterInvalidation(s, pid, u, kind, list);
    }
    if q, kind, list :| Holds(s, q, kind, u, list) && list != [] {
      assert Known(Next(s, Resume(pid)), kind, u, list);
    }
  }

  lemma NamedSinceGrows(s: State, actions: seq<Action>, n: nat, kind: Kind, u: string, name: string)
    requires n <= |actions| && NamedSince(s, actions[..n], kind, u, name)
    ensures NamedSince(s, actions, kind, u, name)
  {
    hide Run;
    var k :| 0 <= k <= n && name in Names(Run(s, actions[..n][..k]).db, kind, u);
    assert actions[..n][..k] == actions[..k];
  }

  lemma {:induction false} ListsWereReadSince(s: State, actions: seq<Action>, kind: Kind, u: string,
      list: seq<string>, name: string)
    requires Blank(s, u) && Known(Run(s, actions), kind, u, list) && name in list
    ensures NamedSince(s, actions, kind, u, name)
  {
    hide Known, Next, Names;
    if actions != [] {
      var n := |actions| - 1;
      var t := Run(s, actions[..n]);
      KnownWasKnownOrRead(t, actions[n], kind, u, list);
      if Known(t, kind, u, list) {
        ListsWereReadSince(s, actions[..n], kind, u, list, name);
        NamedSinceGrows(s, actions, n, kind, u, name);
      } else {
        assert name in Names(t.db, kind, u);
      }
    }
  }

  /**
    In every interleaving, and whatever is done to roles: a lookup that finds a name after all
    lists of the user were dropped finds one that the user has had since then.
   */
  lemma {:induction false} PositiveAnswersWereTrueSince(s: State, actions: seq<Action>, a: Action, answer: Answer)
    requires Blank(s, answer.userId) && Answers(Run(s, actions), a, answer) && answer.result
    ensures NamedSince(s, actions, answer.kind, answer.userId, answer.name)
  {
    var t := Run(s, actions);
    AnswerIsMembership(t, a, answer);
    ListsWereReadSince(s, actions, answer.kind, answer.userId, AnsweredFrom(t, a), answer.name);
  }

  /** Between a rename and the next invalidation the old name is still found, the new one is not. */
  lemma RenamedRoleKeepsOldName(s: State, r: string, name: string, u: string, pid: nat)
    requires Coherent(s) && Settled(s, u) && Cached(s, Roles, u) != [] && HasRole(s.db, u, r)
    requires RenameAllowed(s.db, r, name) && s.db.roles[r].name != name && pid !in s.procs
    ensures var t := Next(s, RenameRole(r, name)); var former := s.db.roles[r].name;
      && Answers(t, Ask(pid, Roles, u, former), Answer(Roles, u, former, true)) && former !in RoleNames(t.db, u)
      && Answers(t, Ask(pid, Roles, u, name), Answer(Roles, u, name, false)) && name in RoleNames(t.db, u)
  {
    var t, former := Next(s, RenameRole(r, name)), s.db.roles[r].name;
    assert Known(s, Roles, u, Cached(s, Roles, u));
    assert CoherentFor(s, u) && Reads(s.db, Roles, u, Cached(s, Roles, u));
    assert former in RoleNames(s.db, u);
    assert HasRole(t.db, u, r) && t.db.roles[r].name == name;
    assert name in RoleNames(t.db, u) && name !in RoleNames(s.db, u);
    assert Cached(t, Roles, u) == Cached(s, Roles, u);
    assert former !in RoleNames(t.db, u);
  }

  function Straddle(kind: Kind, u: string, name: string, list: seq<string>, update: UserUpdate): seq<Action> {
    [Ask(0, kind, u, name), Query(0, Some(list)), UpdateUser(1, u, update), Resume(1), Resume(0)]
  }

  lemma RunFive(s: State, a: Action, b: Action, c: Action, d: Action, e: Action)
    ensures Run(s, [a, b, c, d, e]) == Next(Next(Next(Next(Next(s, a), b), c), d), e)
  {
    hide Next;
    assert [a, b, c, d, e][..4] == [a, b, c, d] && [a, b, c, d][..3] == [a, b, c];
    assert [a, b, c][..2] == [a, b] && [a, b][..1] == [a] && [a][..0] == [];
    assert Run(s, [a]) == Next(Run(s, []), a);
    assert Run(s, [a, b]) == Next(Run(s, [a]), b);
    assert Run(s, [a, b, c]) == Next(Run(s, [a, b]), c);
    assert Run(s, [a, b, c, d]) == Next(Run(s, [a, b, c]), d);
  }

  lemma StraddleReads(s: State, kind: Kind, u: string, name: string, list: seq<string>)
    requires s.procs == map[] && Cached(s, kind, u) == [] && Reads(s.db, kind, u, list)
    ensures Next(Next(s, Ask(0, kind, u, name)), Query(0, Some(list))) ==
        s.(procs := map[0 := Storing(kind, u, name, list)])
  {
  }

  lemma StraddleUpdates(s: State, u: string, waiting: Proc, update: UserUpdate)
    requires s.procs == map[0 := waiting] && UpdateAllowed(s.db, u, update) && update.roles.Array?
    ensures Next(Next(s, UpdateUser(1, u, update)), Resume(1))
         == s.(db := Updated(s.db, u, update), roles := s.roles - {u}, permissions := s.permissions - {u})
  {
    hide Names, UpdateAllowed, Updated;
    var t := Next(s, UpdateUser(1, u, update));
    assert t == s.(db := Updated(s.db, u, update), procs := map[0 := waiting, 1 := Invalidating(u)]);
    assert t.procs - {1} == map[0 := waiting];
  }

  lemma StraddleStores(s: State, kind: Kind, u: string, name: string, list: seq<string>)
    requires s.procs == map[0 := Storing(kind, u, name, list)]
    ensures var t := Next(s, Resume(0)); t.procs == map[] && t.db == s.db && Cached(t, kind, u) == list
  {
  }

  /** A lookup that straddles an invalidation stores the old list: what was taken away is found again. */
  lemma StraddlingLookupRestoresOldList(s: State, kind: Kind, u: string, name: string, list: seq<string>,
      update: UserUpdate)
    requires s.procs == map[] && Cached(s, kind, u) == []
    requires Reads(s.db, kind, u, list) && name in list
    requires UpdateAllowed(s.db, u, update) && update.roles.Array? && name !in Names(Updated(s.db, u, update), kind, u)
    ensures var t := Run(s, Straddle(kind, u, name, list, update));
      && t.procs == map[] && name !in Names(t.db, kind, u) && !Coherent(t)
      && Answers(t, Ask(0, kind, u, name), Answer(kind, u, name, true))
  {
    hide Names, Updated, UpdateAllowed, Run;
    RunFive(s, Ask(0, kind, u, name), Query(0, Some(list)), UpdateUser(1, u, update), Resume(1), Resume(0));
    var t := Run(s, Straddle(kind, u, name, list, update));
    StraddleReads(s, kind, u, name, list);
    var s2 := s.(procs := map[0 := Storing(kind, u, name, list)]);
    StraddleUpdates(s2, u, Storing(kind, u, name, list), update);
    var s4 := s2.(db := Updated(s.db, u, update), roles := s.roles - {u}, permissions := s.permissions - {u});
    StraddleStores(s4, kind, u, name, list);
    assert t == Next(s4, Resume(0));
    assert Known(t, kind, u, list) && Settled(t, u) && !Reads(t.db, kind, u, list);
    assert !CoherentFor(t, u);
  }

  // ---------------------------------------------------------------------------------
  // Uninterrupted operations
  // ---------------------------------------------------------------------------------

  datatype Operation =
    | Lookup(kind: Kind, userId: string, name: string, read: Option<seq<string>>)
    | Change(action: Action)

  ghost function Perform(s: State, op: Operation): State {
    match op
    case Lookup(kind, u, name, read) => Next(Next(Next(s, Ask(0, kind, u, name)), Query(0, read)), Resume(0))
    case Change(a) => Next(Next(s, a), Resume(0))
  }

  ghost function PerformAll(s: State, ops: seq<Operation>): State {
    if ops == [] then s
    else Perform(PerformAll(s, ops[..|ops| - 1]), ops[|ops| - 1])
  }

  /** Reads return what the join gives; no role in use is renamed or deleted. */
  ghost predicate Proper(s: State, op: Operation) {
    match op
    case Lookup(kind, u, name, read) => read.Some? ==> Reads(s.db, kind, u, read.value)
    case Change(a) =>
      && !a.Ask? && !a.Query? && !a.Resume? && (a.UpdateUser? ==> a.pid == 0)
      && forall u :: HarmlessFor(s, a, u)
  }

  ghost predicate ProperRun(s: State, ops: seq<Operation>) {
    forall k :: 0 <= k < |ops| ==> Proper(PerformAll(s, ops[..k]), ops[k])
  }

  /** What a lookup of an idle service amounts to. */
  ghost predicate LooksUp(s: State, op: Operation, t: State)
    requires op.Lookup?
  {
    && Coherent(t) && t.procs == map[] && t.db == s.db
    && exists result :: t.answers == s.answers + [Answer(op.kind, op.userId, op.name, result)]
         && (result ==> op.name in Names(s.db, op.kind, op.userId))
         && (op.read.Some? || Cached(s, op.kind, op.userId) != [] ==>
             result == (op.name in Names(s.db, op.kind, op.userId)))
  }

  lemma LookupHits(s: State, op: Operation)
    requires Coherent(s) && s.procs == map[] && op.Lookup? && Cached(s, op.kind, op.userId) != []
    ensures LooksUp(s, op, Perform(s, op))
  {
    hide Names, Consistent;
    var list, s1 := Cached(s, op.kind, op.userId), Next(s, Ask(0, op.kind, op.userId, op.name));
    StepKeepsCoherenceIff(s, Ask(0, op.kind, op.userId, op.name));
    assert CoherentFor(s, op.userId) && Known(s, op.kind, op.userId, list) && Settled(s, op.userId);
    assert Perform(s, op) == s1;
    assert s1.answers == s.answers + [Answer(op.kind, op.userId, op.name, op.name in list)];
  }

  lemma LookupReads(s: State, op: Operation)
    requires Coherent(s) && s.procs == map[] && op.Lookup? && Proper(s, op) && Cached(s, op.kind, op.userId) == []
    ensures LooksUp(s, op, Perform(s, op))
  {
    hide Names, Coherent, HarmlessFor;
    var kind, u, name := op.kind, op.userId, op.name;
    var got := if op.read.Some? then op.read.value else [];
    var s1 := Next(s, Ask(0, kind, u, name));
    var s2 := Next(s1, Query(0, op.read));
    var s3 := Next(s2, Resume(0));
    assert s1.procs == map[0 := Querying(kind, u, name)];
    assert s2.procs == map[0 := Storing(kind, u, name, got)];
    LookupIsHarmless(s, s1, s2, op);
    StepKeepsCoherenceIff(s, Ask(0, kind, u, name));
    StepKeepsCoherenceIff(s1, Query(0, op.read));
    StepKeepsCoherenceIff(s2, Resume(0));
    assert s3.procs == map[];
    assert s3.answers == s.answers + [Answer(kind, u, name, name in got)];
  }

  lemma LookupIsHarmless(s: State, s1: State, s2: State, op: Operation)
    requires op.Lookup? && 0 in s2.procs && s2.procs[0].Storing?
    ensures forall v :: HarmlessFor(s, Ask(0, op.kind, op.userId, op.name), v)
    ensures forall v :: HarmlessFor(s1, Query(0, op.read), v) && HarmlessFor(s2, Resume(0), v)
  {
  }

  lemma LookupStaysIdle(s: State, op: Operation)
    requires Coherent(s) && s.procs == map[] && op.Lookup? && Proper(s, op)
    ensures LooksUp(s, op, Perform(s, op))
  {
    hide LooksUp, Perform, Coherent, Proper;
    if Cached(s, op.kind, op.userId) != [] {
      LookupHits(s, op);
    } else {
      LookupReads(s, op);
    }
  }

  lemma ChangeStaysIdle(s: State, op: Operation)
    requires Coherent(s) && s.procs == map[] && op.Change? && Proper(s, op)
    ensures Coherent(Perform(s, op)) && Perform(s, op).procs == map[]
  {
    hide Coherent, Names, Updated, UpdateAllowed;
    var s1 := Next(s, op.action);
    StepKeepsCoherenceIff(s, op.action);
    if s1.procs == map[] {
      assert Next(s1, Resume(0)) == s1;
    } else {
      assert op.action.UpdateUser? && s1.procs == map[0 := Invalidating(op.action.userId)];
      StepKeepsCoherenceIff(s1, Resume(0));
      assert Next(s1, Resume(0)).procs == map[];
    }
  }

  lemma {:induction false} ProperRunsStayCoherent(s: State, ops: seq<Operation>)
    requires Coherent(s) && s.procs == map[] && ProperRun(s, ops)
    ensures Coherent(PerformAll(s, ops)) && PerformAll(s, ops).procs == map[]
  {
    hide Coherent, Proper, Perform;
    if ops != [] {
      var n := |ops| - 1;
      assert forall k :: 0 <= k < n ==> ops[..n][..k] == ops[..k];
      ProperRunsStayCoherent(s, ops[..n]);
      var t := PerformAll(s, ops[..n]);
      if ops[n].Lookup? {
        LookupStaysIdle(t, ops[n]);
      } else {
        ChangeStaysIdle(t, ops[n]);
      }
    }
  }

  /** After any run of uninterrupted operations, cached lookups answer exactly like the joins. */
  lemma {:induction false} UninterruptedLookupsAreExact(s: State, ops: seq<Operation>, kind: Kind, u: string,
      name: string, list: seq<string>)
    requires Coherent(s) && s.procs == map[] && ProperRun(s, ops)
    requires Reads(PerformAll(s, ops).db, kind, u, list)
    ensures var t := PerformAll(s, ops);
      Perform(t, Lookup(kind, u, name, Some(list))).answers ==
          t.answers + [Answer(kind, u, name, name in Names(t.db, kind, u))]
  {
    ProperRunsStayCoherent(s, ops);
    LookupStaysIdle(PerformAll(s, ops), Lookup(kind, u, name, Some(list)));
  }
}
