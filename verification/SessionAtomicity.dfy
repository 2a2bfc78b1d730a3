/**
  Uninterrupted operations are runs of the interleaved machine, so every theorem about all
  interleavings also holds of them.
 */
module SessionAtomicity {
  import opened Credentials
  import opened Sessions
  import opened SessionMachine
  import Atomic = SessionStore

  /** A request that presents token t from another address than it is bound to. */
  function Stranger(s: State, t: string): Request {
    Request(Get, t, if t in s.cache then s.cache[t].ipAddress + "?" else "", "", "")
  }

  /** The action with which a coroutine for the operation starts. */
  function First(s: State, op: Atomic.Operation, e: Evidence): Action {
    match op
    case Login(t, b, _) => StartLogin(0, t, b, e)
    case LoginTotp(t, b, _) => StartLogin(0, t, b, e)
    case Logout(t, _) => StartLogout(0, t)
    case Refresh(t, _) => StartRefresh(0, t)
    case Mismatch(t, _) => Receive(0, Stranger(s, t))
    case Sync(_) => StartSync(0)
    case Sweep(ok) => Sweep(ok)
  }

  /** A login is for a new token, and has accepted the evidence for its user. */
  ghost predicate MayLogIn(s: State, op: Atomic.Operation, e: Evidence) {
    op.Login? || op.LoginTotp? ==>
      op.token !in s.issued && Accepted(s.accounts, e, op.binding.userId) && (op.Login? <==> e.Password?)
  }

  /** It is then resumed until it ends: none of them has more than two steps to go. */
  function Uninterrupted(s: State, op: Atomic.Operation, e: Evidence): seq<Action> {
    [First(s, op, e), Resume(0, op.ok), Resume(0, op.ok)]
  }

  lemma RunThree(s: State, a: Action, b: Action, c: Action)
    ensures Run(s, [a, b, c]) == Next(Next(Next(s, a), b), c)
  {
    assert [a, b, c][..2] == [a, b] && [a, b][..1] == [a] && [a][..0] == [];
    assert Run(s, [a]) == Next(Run(s, []), a);
    assert Run(s, [a, b]) == Next(Run(s, [a]), b);
  }

  ghost predicate Performs(s: State, op: Atomic.Operation, r: State) {
    && r.procs == map[] && r.now == s.now && r.accounts == s.accounts
    && Atomic.Store(r.rows, r.cache) == Atomic.Perform(Atomic.Store(s.rows, s.cache), op, s.now)
  }

  lemma LoginPerforms(s: State, op: Atomic.Operation, e: Evidence, u: State, go: Action)
    requires s.procs == map[] && (op.Login? || op.LoginTotp?) && MayLogIn(s, op, e)
    requires u == Next(s, First(s, op, e)) && go == Resume(0, op.ok)
    ensures Performs(s, op, Next(Next(u, go), go))
  {
    var m := NewMeta(op.binding, s.now);
    assert u.procs == map[0 := LoginCreate(op.token, m, op.Login?)];
    var v := Next(u, go);
    if (op.ok && op.token !in s.rows) || op.LoginTotp? {
      assert v.procs == map[0 := LoginPut(op.token, m)];
      assert Next(v, go).procs == map[];
    } else {
      assert v.procs == map[];
    }
  }

  lemma LogoutPerforms(s: State, op: Atomic.Operation, e: Evidence, u: State, go: Action)
    requires s.procs == map[] && op.Logout?
    requires u == Next(s, First(s, op, e)) && go == Resume(0, op.ok)
    ensures Performs(s, op, Next(Next(u, go), go))
  {
    if op.token != "" {
      assert u.procs == map[0 := LogoutDelete(op.token)];
      assert Next(u, go).procs == map[0 := LogoutRemove(op.token)];
      assert Next(Next(u, go), go).procs == map[];
    }
  }

  lemma RefreshPerforms(s: State, op: Atomic.Operation, e: Evidence, u: State, go: Action)
    requires s.procs == map[] && op.Refresh?
    requires u == Next(s, First(s, op, e)) && go == Resume(0, op.ok)
    ensures Performs(s, op, Next(Next(u, go), go))
  {
  }

  lemma MismatchPerforms(s: State, op: Atomic.Operation, e: Evidence, u: State, go: Action)
    requires s.procs == map[] && op.Mismatch?
    requires u == Next(s, First(s, op, e)) && go == Resume(0, op.ok)
    ensures Performs(s, op, Next(Next(u, go), go))
  {
    var t := op.token;
    if t in s.cache {
      assert |Stranger(s, t).ip| != |s.cache[t].ipAddress|;
    }
    if t != "" && t in s.cache {
      assert u.procs == map[0 := MismatchDelete(t)];
      assert Next(u, go).procs == map[];
    } else {
      assert u == s;
    }
  }

  lemma SyncPerforms(s: State, op: Atomic.Operation, e: Evidence, u: State, go: Action)
    requires s.procs == map[] && op.Sync?
    requires u == Next(s, First(s, op, e)) && go == Resume(0, op.ok)
    ensures Performs(s, op, Next(Next(u, go), go))
  {
  }

  /** Starting an operation and resuming it until it ends has the effect that Perform states. */
  lemma UninterruptedIsPerform(s: State, op: Atomic.Operation, e: Evidence)
    requires s.procs == map[] && MayLogIn(s, op, e)
    ensures Performs(s, op, Run(s, Uninterrupted(s, op, e)))
  {
    var u, go := Next(s, First(s, op, e)), Resume(0, op.ok);
    RunThree(s, First(s, op, e), go, go);
    match op
    case Login(_, _, _) => LoginPerforms(s, op, e, u, go);
    case LoginTotp(_, _, _) => LoginPerforms(s, op, e, u, go);
    case Logout(_, _) => LogoutPerforms(s, op, e, u, go);
    case Refresh(_, _) => RefreshPerforms(s, op, e, u, go);
    case Mismatch(_, _) => MismatchPerforms(s, op, e, u, go);
    case Sync(_) => SyncPerforms(s, op, e, u, go);
    case Sweep(_) => assert u.procs == map[] && Next(Next(u, go), go) == u;
  }
}
