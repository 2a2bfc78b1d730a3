/**
  Login, second-factor login, logout, refresh, the middleware, the periodic cache sync and
  the expiry sweep as one state machine.  Every handler is a coroutine that other work may
  overtake at each co_await, so every database statement and every access to the cache is a
  step of its own, and handlers in flight are part of the state.
 */
module SessionMachine {
  import opened Credentials
  import opened Users
  import opened Sessions

  // A coroutine in flight: the step it takes when it is resumed, with its local variables.
  datatype Proc =
    // login gives up when the insert fails, login_totp does not
    | LoginCreate(token: string, meta: SessionMeta, strict: bool)
    | LoginPut(token: string, meta: SessionMeta)
    | LogoutDelete(token: string)
    | LogoutRemove(token: string)
    | RefreshUpdate(token: string, copy: SessionMeta, expiresAt: int)
    | RefreshPut(token: string, meta: SessionMeta)
    | MismatchDelete(token: string)
    | SyncQuery
    | SyncSwap(snapshot: Entries)

  datatype Passed = Passed(req: Request, userId: string)

  datatype State = State(
    accounts: Accounts, now: int, rows: Rows, cache: Entries, procs: map<nat, Proc>,
    issued: map<string, Binding>, // history: what every token so far was issued for
    passed: seq<Passed>)          // history: the requests the middleware passed on

  datatype Action =
    | Tick(seconds: nat)
    | ChangeAccounts(users: map<string, User>, secrets: map<string, string>)
    | StartLogin(pid: nat, token: string, binding: Binding, evidence: Evidence)
    | StartLogout(pid: nat, token: string)
    | StartRefresh(pid: nat, token: string)
    | StartSync(pid: nat)
    | Receive(pid: nat, req: Request)
    | Sweep(ok: bool)
    | Resume(pid: nat, ok: bool) // ok: whether the database statement, if any, succeeds

  /** Tokens are never issued twice: they contain 128 random bits. */
  ghost predicate Enabled(s: State, a: Action) {
    match a
    case Tick(_) => true
    case Sweep(_) => true
    case Resume(pid, _) => pid in s.procs
    case ChangeAccounts(_, _) => true
    case StartLogin(pid, token, b, e) => pid !in s.procs && token !in s.issued && Accepted(s.accounts, e, b.userId)
    case _ => a.pid !in s.procs
  }

  function Step(s: State, a: Action): State
    requires Enabled(s, a)
  {
    match a
    case Tick(n) => s.(now := s.now + n)
    case ChangeAccounts(users, secrets) => s.(accounts := s.accounts.(users := users, secrets := secrets))
    case StartLogin(pid, token, b, e) =>
      s.(procs := s.procs[pid := LoginCreate(token, NewMeta(b, s.now), e.Password?)],
         issued := s.issued[token := b])
    case StartLogout(pid, token) =>
      if token == "" then s else s.(procs := s.procs[pid := LogoutDelete(token)])
    case StartRefresh(pid, token) =>
      if token == "" || token !in s.cache then s
      else s.(procs := s.procs[pid := RefreshUpdate(token, s.cache[token], s.now + SESSION_SECONDS)])
    case StartSync(pid) => s.(procs := s.procs[pid := SyncQuery])
    case Receive(pid, req) =>
      var verdict := Judge(Lookup(s.cache, req.cookie), req);
      if verdict.Pass? then s.(passed := s.passed + [Passed(req, verdict.userId)])
      else if verdict.FingerprintMismatch? then s.(procs := s.procs[pid := MismatchDelete(req.cookie)])
      else s
    case Sweep(ok) =>
      if ok then s.(rows := map t | t in s.rows && !(s.rows[t].expiresAt < s.now) :: s.rows[t]) else s
    case Resume(pid, ok) => Continue(s, pid, ok)
  }

  function Continue(s: State, pid: nat, ok: bool): State
    requires pid in s.procs
  {
    var done := s.procs - {pid};
    match s.procs[pid]
    case LoginCreate(t, m, strict) =>
      if ok && t !in s.rows then s.(rows := s.rows[t := RowOf(m)], procs := s.procs[pid := LoginPut(t, m)])
      else if strict then s.(procs := done)
      else s.(procs := s.procs[pid := LoginPut(t, m)])
    case LoginPut(t, m) => s.(cache := s.cache[t := m], procs := done)
    case LogoutDelete(t) =>
      s.(rows := if ok then s.rows - {t} else s.rows, procs := s.procs[pid := LogoutRemove(t)])
    case LogoutRemove(t) => s.(cache := s.cache - {t}, procs := done)
    case RefreshUpdate(t, copy, e) =>
      if ok && t in s.rows then
        s.(rows := s.rows[t := s.rows[t].(expiresAt := e)],
           procs := s.procs[pid := RefreshPut(t, copy.(expiresAt := e))])
      else s.(procs := done)
    case RefreshPut(t, m) => s.(cache := s.cache[t := m], procs := done)
    case MismatchDelete(t) => s.(rows := if ok then s.rows - {t} else s.rows, procs := done)
    case SyncQuery => if ok then s.(procs := s.procs[pid := SyncSwap(Live(s.rows, s.now))]) else s.(procs := done)
    case SyncSwap(snapshot) => s.(cache := snapshot, procs := done)
  }

  /** An action that is not possible changes nothing. */
  ghost function Next(s: State, a: Action): State {
    if Enabled(s, a) then Step(s, a) else s
  }

  ghost function Run(s: State, actions: seq<Action>): State {
    if actions == [] then s
    else Next(Run(s, actions[..|actions| - 1]), actions[|actions| - 1])
  }

  /** A start of the service: sessions of earlier processes are still in the database. */
  function Start(c: Accounts, now: int, rows: Rows): State {
    State(c, now, rows, map[], map[], map t | t in rows :: BindingOf(MetaOf(rows[t])), [])
  }

  // ---------------------------------------------------------------------------------
  // The invariant of all interleavings
  // ---------------------------------------------------------------------------------

  ghost predicate Bound(issued: map<string, Binding>, t: string, m: SessionMeta) {
    t in issued && issued[t] == BindingOf(m)
  }

  ghost predicate EntriesBound(issued: map<string, Binding>, entries: Entries) {
    forall t :: t in entries ==> Bound(issued, t, entries[t])
  }

  ghost predicate RowsBound(issued: map<string, Binding>, rows: Rows) {
    forall t :: t in rows ==> Bound(issued, t, MetaOf(rows[t]))
  }

  /** Every copy of a session that the coroutine holds. */
  ghost predicate ProcBound(issued: map<string, Binding>, p: Proc) {
    match p
    case LoginCreate(t, m, _) => Bound(issued, t, m)
    case LoginPut(t, m) => Bound(issued, t, m)
    case RefreshUpdate(t, copy, _) => Bound(issued, t, copy)
    case RefreshPut(t, m) => Bound(issued, t, m)
    case SyncSwap(snapshot) => EntriesBound(issued, snapshot)
    case _ => true
  }

  ghost predicate Creating(s: State, pid: nat, t: string) {
    pid in s.procs && s.procs[pid].LoginCreate? && s.procs[pid].token == t
  }

  ghost predicate PassedFits(issued: map<string, Binding>, p: Passed) {
    && p.req.cookie in issued
    && issued[p.req.cookie].userId == p.userId
    && Fits(p.req, issued[p.req.cookie])
  }

  ghost predicate Invariant(s: State) {
    && RowsBound(s.issued, s.rows)
    && EntriesBound(s.issued, s.cache)
    && (forall pid :: pid in s.procs ==> ProcBound(s.issued, s.procs[pid]))
    && (forall p, q, t :: Creating(s, p, t) && Creating(s, q, t) ==> p == q)
    && (forall p, t :: Creating(s, p, t) ==> t !in s.rows)
    && (forall k :: 0 <= k < |s.passed| ==> PassedFits(s.issued, s.passed[k]))
  }

  lemma StartInvariant(c: Accounts, now: int, rows: Rows)
    ensures Invariant(Start(c, now, rows))
  {
  }

  lemma LoginKeepsInvariant(s: State, a: Action)
    requires Invariant(s) && Enabled(s, a) && a.StartLogin?
    ensures Invariant(Step(s, a))
  {
    var r := Step(s, a);
    forall pid | pid in r.procs ensures ProcBound(r.issued, r.procs[pid]) {
      if pid != a.pid {
        assert ProcBound(s.issued, s.procs[pid]);
      }
    }
    forall p, t | Creating(r, p, t)
      ensures t !in r.rows
      ensures if p == a.pid then t == a.token else Creating(s, p, t) && t != a.token
    {
      if p != a.pid {
        assert ProcBound(s.issued, s.procs[p]) && Creating(s, p, t);
      }
    }
    forall k | 0 <= k < |r.passed| ensures PassedFits(r.issued, r.passed[k]) {
      assert PassedFits(s.issued, s.passed[k]);
    }
  }

  lemma ReceiveKeepsInvariant(s: State, a: Action)
    requires Invariant(s) && Enabled(s, a) && a.Receive?
    ensures Invariant(Step(s, a))
  {
    var r := Step(s, a);
    if a.req.cookie in s.cache {
      PassIffFits(s.cache[a.req.cookie], a.req);
    }
    forall p, t | Creating(r, p, t) ensures Creating(s, p, t) {
    }
  }

  // Facts about one step that the proofs below share.

  lemma CreatingIsOld(s: State, a: Action, pid: nat, t: string)
    requires Creating(Next(s, a), pid, t) && t in s.issued
    ensures Creating(s, pid, t)
  {
  }

  lemma NewRowWasCreating(s: State, a: Action, t: string)
    requires t in Next(s, a).rows
    ensures t in s.rows || (a.Resume? && Creating(s, a.pid, t))
  {
  }

  lemma ResumeBindsStores(s: State, a: Action)
    requires Invariant(s) && Enabled(s, a) && a.Resume?
    ensures var r := Step(s, a); RowsBound(s.issued, r.rows) && EntriesBound(s.issued, r.cache)
  {
    assert ProcBound(s.issued, s.procs[a.pid]);
    if s.procs[a.pid].LoginCreate? {
      RowRoundTrip(s.procs[a.pid].meta);
    }
  }

  lemma ContinuedProcIsBound(s: State, pid: nat, ok: bool)
    requires RowsBound(s.issued, s.rows) && pid in s.procs && ProcBound(s.issued, s.procs[pid])
    requires pid in Continue(s, pid, ok).procs
    ensures ProcBound(s.issued, Continue(s, pid, ok).procs[pid])
  {
  }

  lemma ResumedProcIsBound(s: State, a: Action)
    requires Invariant(s) && Enabled(s, a) && a.Resume? && a.pid in Step(s, a).procs
    ensures ProcBound(s.issued, Step(s, a).procs[a.pid])
  {
    hide Continue, ProcBound;
    ContinuedProcIsBound(s, a.pid, a.ok);
  }

  lemma ResumeLeavesOthers(s: State, a: Action, pid: nat)
    requires Enabled(s, a) && a.Resume? && pid != a.pid
    ensures pid in Step(s, a).procs <==> pid in s.procs
    ensures pid in s.procs ==> Step(s, a).procs[pid] == s.procs[pid]
  {
  }

  lemma ResumeBindsProc(s: State, a: Action, pid: nat)
    requires Invariant(s) && Enabled(s, a) && a.Resume? && pid in Step(s, a).procs
    ensures ProcBound(s.issued, Step(s, a).procs[pid])
  {
    hide Step;
    if pid == a.pid {
      ResumedProcIsBound(s, a);
    } else {
      ResumeLeavesOthers(s, a, pid);
    }
  }

  lemma ResumeKeepsHistory(s: State, a: Action)
    requires Enabled(s, a) && a.Resume?
    ensures Step(s, a).issued == s.issued && Step(s, a).passed == s.passed
  {
  }

  lemma ResumeStartsNoLogin(s: State, a: Action, p: nat, t: string)
    requires Enabled(s, a) && a.Resume? && Creating(Step(s, a), p, t)
    ensures Creating(s, p, t) && p != a.pid
  {
  }

  lemma ResumeCreating(s: State, a: Action, p: nat, t: string)
    requires Invariant(s) && Enabled(s, a) && a.Resume? && Creating(Step(s, a), p, t)
    ensures Creating(s, p, t) && t !in Step(s, a).rows
  {
    hide Step;
    ResumeStartsNoLogin(s, a, p, t);
    if t in Step(s, a).rows {
      NewRowWasCreating(s, a, t);
    }
  }

  lemma ResumeKeepsInvariant(s: State, a: Action)
    requires Invariant(s) && Enabled(s, a) && a.Resume?
    ensures Invariant(Step(s, a))
  {
    hide Step;
    var r := Step(s, a);
    ResumeKeepsHistory(s, a);
    ResumeBindsStores(s, a);
    forall pid | pid in r.procs ensures ProcBound(r.issued, r.procs[pid]) {
      ResumeBindsProc(s, a, pid);
    }
    forall p, t | Creating(r, p, t) ensures Creating(s, p, t) && t !in r.rows {
      ResumeCreating(s, a, p, t);
    }
  }

  lemma StepKeepsInvariant(s: State, a: Action)
    requires Invariant(s)
    ensures Invariant(Next(s, a))
  {
    if Enabled(s, a) {
      match a
      case StartLogin(_, _, _, _) => LoginKeepsInvariant(s, a);
      case Receive(_, _) => ReceiveKeepsInvariant(s, a);
      case Resume(_, _) => ResumeKeepsInvariant(s, a);
      case Tick(_) => forall p, t | Creating(Next(s, a), p, t) ensures Creating(s, p, t) {}
      case Sweep(_) => forall p, t | Creating(Next(s, a), p, t) ensures Creating(s, p, t) {}
      case _ => forall p, t | Creating(Next(s, a), p, t) ensures Creating(s, p, t) {}
    }
  }

  lemma {:induction false} RunKeepsInvariant(s: State, actions: seq<Action>)
    requires Invariant(s)
    ensures Invariant(Run(s, actions))
  {
    if actions != [] {
      RunKeepsInvariant(s, actions[..|actions| - 1]);
      StepKeepsInvariant(Run(s, actions[..|actions| - 1]), actions[|actions| - 1]);
    }
  }

  // ---------------------------------------------------------------------------------
  // Token binding
  // ---------------------------------------------------------------------------------

  lemma {:induction false} RunAppend(s: State, first: seq<Action>, second: seq<Action>)
    ensures Run(s, first + second) == Run(Run(s, first), second)
  {
    if second == [] {
      assert first + second == first;
    } else {
      var n := |second| - 1;
      assert (first + second)[..|first + second| - 1] == first + second[..n];
      RunAppend(s, first, second[..n]);
    }
  }

  ghost predicate Extends(later: map<string, Binding>, earlier: map<string, Binding>) {
    forall t :: t in earlier ==> t in later && later[t] == earlier[t]
  }

  lemma StepIssues(s: State, a: Action)
    ensures Next(s, a).issued == if Enabled(s, a) && a.StartLogin? then s.issued[a.token := a.binding] else s.issued
  {
  }

  lemma {:induction false} IssuedNeverChanges(s: State, actions: seq<Action>)
    ensures Extends(Run(s, actions).issued, s.issued)
  {
    if actions != [] {
      IssuedNeverChanges(s, actions[..|actions| - 1]);
      StepIssues(Run(s, actions[..|actions| - 1]), actions[|actions| - 1]);
      hide Next;
    }
  }

  /** Some row, cache entry, sync snapshot or handler holds this copy of the token's session. */
  ghost predicate Copy(s: State, t: string, m: SessionMeta) {
    || (t in s.rows && MetaOf(s.rows[t]) == m)
    || (t in s.cache && s.cache[t] == m)
    || exists pid :: pid in s.procs && ProcHolds(s.procs[pid], t, m)
  }

  ghost predicate ProcHolds(p: Proc, t: string, m: SessionMeta) {
    match p
    case LoginCreate(u, n, _) => u == t && n == m
    case LoginPut(u, n) => u == t && n == m
    case RefreshUpdate(u, n, _) => u == t && n == m
    case RefreshPut(u, n) => u == t && n == m
    case SyncSwap(snapshot) => t in snapshot && snapshot[t] == m
    case _ => false
  }

  lemma CopyIsBound(s: State, t: string, m: SessionMeta)
    requires Invariant(s) && Copy(s, t, m)
    ensures Bound(s.issued, t, m)
  {
  }

  /**
    Any two copies of one token's session, wherever and whenever they are seen in a run,
    agree on user, address, user agent and CSRF token; only the expiry may differ.
   */
  lemma BindingIsStable(s: State, actions: seq<Action>, t: string, m: SessionMeta, m': SessionMeta)
    requires Invariant(s) && Copy(s, t, m) && Copy(Run(s, actions), t, m')
    ensures BindingOf(m) == BindingOf(m')
  {
    RunKeepsInvariant(s, actions);
    IssuedNeverChanges(s, actions);
    CopyIsBound(s, t, m);
    CopyIsBound(Run(s, actions), t, m');
  }

  // ---------------------------------------------------------------------------------
  // Mediation
  // ---------------------------------------------------------------------------------

  /** One of the first n actions is the login that issued token t for binding b. */
  ghost predicate IssuedBefore(actions: seq<Action>, n: nat, t: string, b: Binding) {
    exists i :: 0 <= i < n && i < |actions| && actions[i].StartLogin? && actions[i].token == t &&
        actions[i].binding == b
  }

  lemma {:induction false} IssuedHasOrigin(s: State, actions: seq<Action>, n: nat, t: string)
    requires n <= |actions| && t in Run(s, actions[..n]).issued
    ensures var b := Run(s, actions[..n]).issued[t];
            (t in s.issued && s.issued[t] == b) || IssuedBefore(actions, n, t, b)
  {
    if n == 0 {
      assert actions[..0] == [];
    } else {
      assert actions[..n][..n - 1] == actions[..n - 1];
      var u := Run(s, actions[..n - 1]);
      StepIssues(u, actions[n - 1]);
      hide Next;
      if t in u.issued && Run(s, actions[..n]).issued[t] == u.issued[t] {
        IssuedHasOrigin(s, actions, n - 1, t);
      } else {
        assert actions[n - 1].StartLogin? && actions[n - 1].token == t;
      }
    }
  }

  lemma OnlyReceivePasses(s: State, a: Action)
    ensures Next(s, a).passed != s.passed ==>
              && a.Receive? && Judge(Lookup(s.cache, a.req.cookie), a.req).Pass?
              && Next(s, a).passed == s.passed + [Passed(a.req, Judge(Lookup(s.cache, a.req.cookie), a.req).userId)]
  {
    hide Judge;
  }

  /**
    What a request starts: the deletion of its session exactly if that is cached for another
    client, whatever the verb; nothing else touches a store or a coroutine.
   */
  lemma ReceiveDeletesIffMismatch(s: State, pid: nat, req: Request)
    requires pid !in s.procs
    ensures var r := Next(s, Receive(pid, req));
      && r.rows == s.rows && r.cache == s.cache && r.issued == s.issued
      && r.procs == if && req.cookie != "" && req.cookie in s.cache
                       && (s.cache[req.cookie].ipAddress != req.ip || s.cache[req.cookie].userAgent != req.userAgent)
                    then s.procs[pid := MismatchDelete(req.cookie)] else s.procs
  {
  }

  /** The sweep deletes exactly the rows that expired before now. */
  lemma SweepDeletesExpired(s: State, ok: bool)
    ensures var r := Next(s, Sweep(ok));
      && r.cache == s.cache && r.procs == s.procs
      && (forall t :: t in r.rows <==> t in s.rows && !(ok && s.rows[t].expiresAt < s.now))
      && (forall t :: t in r.rows ==> r.rows[t] == s.rows[t])
  {
  }

  /** The only step that passes a request on, and what it takes. */
  lemma StepPasses(s: State, a: Action)
    requires Invariant(s) && Next(s, a).passed != s.passed
    ensures a.Receive? && a.req.cookie in s.issued
    ensures var b := s.issued[a.req.cookie]; Fits(a.req, b) && Next(s, a).passed == s.passed + [Passed(a.req, b.userId)]
  {
    hide Next;
    OnlyReceivePasses(s, a);
    PassIffFits(s.cache[a.req.cookie], a.req);
    assert Bound(s.issued, a.req.cookie, s.cache[a.req.cookie]);
  }

  // A token gets anywhere else only when its login goes on past the insert.

  /** A coroutine, other than the login before its insert, that holds a session of the token. */
  ghost predicate Carries(p: Proc, t: string) {
    match p
    case LoginPut(u, _) => u == t
    case RefreshUpdate(u, _, _) => u == t
    case RefreshPut(u, _) => u == t
    case SyncSwap(snapshot) => t in snapshot
    case _ => false
  }

  ghost predicate Carried(s: State, pid: nat, t: string) {
    pid in s.procs && Carries(s.procs[pid], t)
  }

  ghost predicate Established(s: State, t: string) {
    t in s.rows || t in s.cache || exists pid :: Carried(s, pid, t)
  }

  /** The step resumes the login that creates t, and login() has its row inserted. */
  ghost predicate LoginGoesOn(s: State, a: Action, t: string) {
    && a.Resume? && Creating(s, a.pid, t)
    && (s.procs[a.pid].strict ==> a.ok && t !in s.rows)
  }

  lemma RowComesFromLogin(s: State, a: Action, t: string)
    requires t in Next(s, a).rows
    ensures t in s.rows || LoginGoesOn(s, a, t)
  {
  }

  lemma EntryWasEstablished(s: State, a: Action, t: string)
    requires t in Next(s, a).cache
    ensures t in s.cache || (a.Resume? && Carried(s, a.pid, t))
  {
  }

  lemma CarriedWasEstablished(s: State, a: Action, pid: nat, t: string)
    requires Carried(Next(s, a), pid, t)
    ensures Carried(s, pid, t) || t in s.cache || t in s.rows || LoginGoesOn(s, a, t)
  {
  }

  lemma EstablishedByLogin(s: State, a: Action, t: string)
    requires Established(Next(s, a), t)
    ensures Established(s, t) || LoginGoesOn(s, a, t)
  {
    hide Next, LoginGoesOn, Carried;
    if t in Next(s, a).rows {
      RowComesFromLogin(s, a, t);
    } else if t in Next(s, a).cache {
      EntryWasEstablished(s, a, t);
    } else {
      var pid :| Carried(Next(s, a), pid, t);
      CarriedWasEstablished(s, a, pid, t);
    }
  }

  lemma {:induction false} EstablishedHasLogin(s: State, actions: seq<Action>, n: nat, t: string) returns (j: nat)
    requires n <= |actions| && Established(Run(s, actions[..n]), t) && !Established(s, t)
    ensures j < n && LoginGoesOn(Run(s, actions[..j]), actions[j], t)
  {
    hide Established, LoginGoesOn, Next;
    assert actions[..n] == [] || n > 0;
    if n > 0 {
      assert actions[..n][..n - 1] == actions[..n - 1];
      if LoginGoesOn(Run(s, actions[..n - 1]), actions[n - 1], t) {
        j := n - 1;
      } else {
        EstablishedByLogin(Run(s, actions[..n - 1]), actions[n - 1], t);
        j := EstablishedHasLogin(s, actions, n - 1, t);
      }
    }
  }

  /** Action i issues t for b, in the coroutine pid. */
  ghost predicate LoginAt(s: State, actions: seq<Action>, i: nat, pid: nat, t: string, b: Binding, e: Evidence) {
    i < |actions| && actions[i] == StartLogin(pid, t, b, e) && Enabled(Run(s, actions[..i]), actions[i])
  }

  lemma CreatingIsOldOrStarts(s: State, a: Action, pid: nat, t: string)
    requires Creating(Next(s, a), pid, t)
    ensures var p := Next(s, a).procs[pid];
            || (Creating(s, pid, t) && s.procs[pid] == p)
            || (&& Enabled(s, a) && a.StartLogin?
                && a == StartLogin(pid, t, BindingOf(p.meta), a.evidence) && p.strict == a.evidence.Password?)
  {
    hide Continue;
    if Enabled(s, a) && a.Resume? {
      ResumeStartsNoLogin(s, a, pid, t);
      ResumeLeavesOthers(s, a, pid);
    }
  }

  lemma {:induction false} CreatingHasStart(s: State, actions: seq<Action>, n: nat, pid: nat, t: string)
      returns (i: nat)
    requires n <= |actions| && s.procs == map[] && Creating(Run(s, actions[..n]), pid, t)
    ensures var p := Run(s, actions[..n]).procs[pid];
            && i < n && actions[i].StartLogin? && p.strict == actions[i].evidence.Password?
            && LoginAt(s, actions, i, pid, t, BindingOf(p.meta), actions[i].evidence)
  {
    hide Next;
    assert actions[..n] == [] || n > 0;
    if n > 0 {
      assert actions[..n][..n - 1] == actions[..n - 1];
      var u := Run(s, actions[..n - 1]);
      CreatingIsOldOrStarts(u, actions[n - 1], pid, t);
      if Creating(u, pid, t) && u.procs[pid] == Run(s, actions[..n]).procs[pid] {
        i := CreatingHasStart(s, actions, n - 1, pid, t);
      } else {
        i := n - 1;
      }
    }
  }

  /**
    Before action n a login for b was started with token t and went on past its insert: the
    row was inserted, or the login is one that does not look at the result.
   */
  ghost predicate LoggedIn(s: State, actions: seq<Action>, n: nat, i: nat, j: nat, t: string, b: Binding) {
    && i < j < n <= |actions| && actions[j].Resume? && actions[i].StartLogin?
    && LoginAt(s, actions, i, actions[j].pid, t, b, actions[i].evidence)
    && LoginGoesOn(Run(s, actions[..j]), actions[j], t)
    && Run(s, actions[..j]).procs[actions[j].pid].strict == actions[i].evidence.Password?
  }

  /** The session is one of an earlier life of the service, or of a login among the first n actions. */
  ghost predicate Issued(c: Accounts, now: int, rows: Rows, actions: seq<Action>, n: nat, t: string, b: Binding) {
    || (t in rows && BindingOf(MetaOf(rows[t])) == b)
    || exists i: nat, j: nat :: LoggedIn(Start(c, now, rows), actions, n, i, j, t, b)
  }

  lemma EstablishedIsIssued(c: Accounts, now: int, rows: Rows, actions: seq<Action>, n: nat, t: string)
    requires n <= |actions| && Established(Run(Start(c, now, rows), actions[..n]), t)
    ensures t in Run(Start(c, now, rows), actions[..n]).issued
    ensures Issued(c, now, rows, actions, n, t, Run(Start(c, now, rows), actions[..n]).issued[t])
  {
    hide Next, LoginGoesOn;
    var s := Start(c, now, rows);
    StartInvariant(c, now, rows);
    RunKeepsInvariant(s, actions[..n]);
    IssuedNeverChanges(s, actions[..n]);
    if t in rows {
      assert s.issued[t] == BindingOf(MetaOf(rows[t]));
    } else {
      var j := EstablishedHasLogin(s, actions, n, t);
      LoginGoesOnIsResume(Run(s, actions[..j]), actions[j], t);
      var i := CreatingHasStart(s, actions, j, actions[j].pid, t);
      StartedBindingStays(s, actions, n, i, actions[j].pid, t, actions[i].binding, actions[i].evidence);
      assert LoggedIn(s, actions, n, i, j, t, actions[i].binding);
    }
  }

  lemma LoginGoesOnIsResume(s: State, a: Action, t: string)
    requires LoginGoesOn(s, a, t)
    ensures a.Resume? && Creating(s, a.pid, t)
  {
  }

  lemma StartedBindingStays(
    s: State, actions: seq<Action>, n: nat, i: nat, pid: nat, t: string, b: Binding, e: Evidence)
    requires i < n <= |actions| && LoginAt(s, actions, i, pid, t, b, e)
    ensures t in Run(s, actions[..n]).issued && Run(s, actions[..n]).issued[t] == b
  {
    hide Next, Enabled;
    var u := Run(s, actions[..i + 1]);
    assert actions[..i + 1][..i] == actions[..i];
    StepIssues(Run(s, actions[..i]), actions[i]);
    assert actions[..n] == actions[..i + 1] + actions[i + 1..n];
    RunAppend(s, actions[..i + 1], actions[i + 1..n]);
    IssuedNeverChanges(u, actions[i + 1..n]);
  }

  /**
    Complete mediation: whenever a request passes, in any interleaving, its cookie was
    issued before (by a login of the run that went on past its insert, or to a session found
    in the database at the start) to the user it passes as, for this address and user agent;
    and if the request changes anything its header is the CSRF token issued with the cookie.
   */
  lemma PassedRequestsWereIssued(c: Accounts, now: int, rows: Rows, actions: seq<Action>, n: nat) returns (b: Binding)
    requires n < |actions|
    requires Next(Run(Start(c, now, rows), actions[..n]), actions[n]).passed
             != Run(Start(c, now, rows), actions[..n]).passed
    ensures actions[n].Receive? && Fits(actions[n].req, b) && Issued(c, now, rows, actions, n, actions[n].req.cookie, b)
    ensures Next(Run(Start(c, now, rows), actions[..n]), actions[n]).passed
            == Run(Start(c, now, rows), actions[..n]).passed + [Passed(actions[n].req, b.userId)]
  {
    hide Next, Issued;
    StartInvariant(c, now, rows);
    RunKeepsInvariant(Start(c, now, rows), actions[..n]);
    var s := Run(Start(c, now, rows), actions[..n]);
    StepPasses(s, actions[n]);
    OnlyReceivePasses(s, actions[n]);
    b := s.issued[actions[n].req.cookie];
    EstablishedIsIssued(c, now, rows, actions, n, actions[n].req.cookie);
  }

  /** ... and a request whose cookie was issued for something else never passes. */
  lemma MisfitNeverPasses(s: State, pid: nat, req: Request)
    requires Invariant(s) && (req.cookie !in s.issued || !Fits(req, s.issued[req.cookie]))
    ensures Next(s, Receive(pid, req)).passed == s.passed
  {
  }
}
