/**
  What it takes to revoke a session, under every interleaving: when a deleted row stays
  deleted, when a token can come back into the cache, and what logout, a fingerprint
  mismatch and a cache sync therefore achieve.
 */
module SessionRevocation {
  import opened Sessions
  import opened SessionMachine

  // ---------------------------------------------------------------------------------
  // The database row
  // ---------------------------------------------------------------------------------

  /** The token was issued, has no row, and no login is about to insert one. */
  ghost predicate RowGone(s: State, t: string) {
    t in s.issued && t !in s.rows && forall pid :: !Creating(s, pid, t)
  }

  lemma StepKeepsRowGone(s: State, a: Action, t: string)
    requires RowGone(s, t)
    ensures RowGone(Next(s, a), t)
  {
    hide Next;
    var r := Next(s, a);
    StepIssues(s, a);
    if t in r.rows {
      NewRowWasCreating(s, a, t);
    }
    forall pid ensures !Creating(r, pid, t) {
      if Creating(r, pid, t) {
        CreatingIsOld(s, a, pid, t);
      }
    }
  }

  lemma {:induction false} RowStaysGone(s: State, actions: seq<Action>, t: string)
    requires RowGone(s, t)
    ensures RowGone(Run(s, actions), t)
  {
    if actions != [] {
      hide Next;
      RowStaysGone(s, actions[..|actions| - 1], t);
      StepKeepsRowGone(Run(s, actions[..|actions| - 1]), actions[|actions| - 1], t);
    }
  }

  /** The row of the token has been inserted: no login is about to insert it. */
  ghost predicate Inserted(s: State, t: string) {
    t in s.issued && forall pid :: !Creating(s, pid, t)
  }

  lemma {:induction false} StaysInserted(s: State, actions: seq<Action>, t: string)
    requires Inserted(s, t)
    ensures Inserted(Run(s, actions), t)
  {
    if actions != [] {
      hide Next;
      var u, a := Run(s, actions[..|actions| - 1]), actions[|actions| - 1];
      StaysInserted(s, actions[..|actions| - 1], t);
      StepIssues(u, a);
      forall pid ensures !Creating(Run(s, actions), pid, t) {
        if Creating(Run(s, actions), pid, t) {
          CreatingIsOld(u, a, pid, t);
        }
      }
    }
  }

  /** Once a token's row is deleted, by whatever step, it never comes back. */
  lemma DeletionIsPermanent(s: State, before: seq<Action>, after: seq<Action>, t: string)
    requires Invariant(s) && t in s.rows && t !in Run(s, before).rows
    ensures t !in Run(s, before + after).rows
  {
    assert Bound(s.issued, t, MetaOf(s.rows[t]));
    forall pid ensures !Creating(s, pid, t) {
    }
    StaysInserted(s, before, t);
    RowStaysGone(Run(s, before), after, t);
    RunAppend(s, before, after);
  }

  // ---------------------------------------------------------------------------------
  // The cache entry
  // ---------------------------------------------------------------------------------

  /** A coroutine that will put the token into the cache when it goes on. */
  ghost predicate Puts(p: Proc, t: string) {
    match p
    case LoginCreate(u, _, _) => u == t
    case LoginPut(u, _) => u == t
    case RefreshPut(u, _) => u == t
    case SyncSwap(snapshot) => t in snapshot
    case _ => false
  }

  ghost predicate Putting(s: State, pid: nat, t: string) {
    pid in s.procs && Puts(s.procs[pid], t)
  }

  ghost predicate Refreshing(s: State, pid: nat, t: string) {
    pid in s.procs && s.procs[pid].RefreshUpdate? && s.procs[pid].token == t
  }

  /**
    The token is in the cache, or a coroutine is about to put it there, or it has a row
    that is still live or about to be revived by a refresh in flight.
   */
  ghost predicate CanReturn(s: State, t: string) {
    || t in s.cache
    || (exists pid :: Putting(s, pid, t))
    || (t in s.rows && (s.rows[t].expiresAt > s.now || exists pid :: Refreshing(s, pid, t)))
  }

  // Facts about one step.

  /** Where a coroutine that puts the token comes from. */
  lemma PuttingIsOld(s: State, a: Action, pid: nat, t: string)
    requires Putting(Next(s, a), pid, t) && t in s.issued
    ensures Putting(s, pid, t) || (t in s.rows && (s.rows[t].expiresAt > s.now || Refreshing(s, pid, t)))
  {
  }

  /** Where a refresh comes from. */
  lemma RefreshingIsOld(s: State, a: Action, pid: nat, t: string)
    requires Refreshing(Next(s, a), pid, t)
    ensures Refreshing(s, pid, t) || t in s.cache
  {
  }

  /** Where a cache entry comes from. */
  lemma CachedIsOld(s: State, a: Action, t: string)
    requires t in Next(s, a).cache
    ensures t in s.cache || (a.Resume? && Putting(s, a.pid, t))
  {
  }

  /** Only a refresh moves an expiry. */
  lemma RowIsOld(s: State, a: Action, t: string)
    requires t in Next(s, a).rows && t in s.rows
    ensures Next(s, a).rows[t] == s.rows[t] || (a.Resume? && Refreshing(s, a.pid, t))
    ensures Next(s, a).now >= s.now
  {
  }

  lemma StepCannotReturn(s: State, a: Action, t: string)
    requires t in s.issued && !CanReturn(s, t)
    ensures !CanReturn(Next(s, a), t)
  {
    hide Next;
    var r := Next(s, a);
    if t in r.cache {
      CachedIsOld(s, a, t);
    }
    if t in r.rows {
      NewRowWasCreating(s, a, t);
      assert t !in s.rows ==> Putting(s, a.pid, t);
      RowIsOld(s, a, t);
    }
    forall pid ensures !Putting(r, pid, t) {
      if Putting(r, pid, t) {
        PuttingIsOld(s, a, pid, t);
      }
    }
    forall pid ensures !Refreshing(r, pid, t) || t !in r.rows {
      if Refreshing(r, pid, t) {
        RefreshingIsOld(s, a, pid, t);
      }
    }
  }

  lemma {:induction false} CannotReturn(s: State, actions: seq<Action>, t: string)
    requires t in s.issued && !CanReturn(s, t)
    ensures !CanReturn(Run(s, actions), t)
  {
    if actions != [] {
      hide Next;
      var front := actions[..|actions| - 1];
      CannotReturn(s, front, t);
      IssuedNeverChanges(s, front);
      StepCannotReturn(Run(s, front), actions[|actions| - 1], t);
    }
  }

  lemma {:induction false} UnusedPid(used: set<nat>) returns (pid: nat)
    ensures forall q :: q in used ==> q < pid
  {
    if used == {} {
      pid := 0;
    } else {
      var q :| q in used;
      var p := UnusedPid(used - {q});
      pid := if q < p then p else q + 1;
      assert used == (used - {q}) + {q};
    }
  }

  lemma RunOne(s: State, a: Action)
    ensures Run(s, [a]) == Next(s, a)
  {
  }

  lemma RunTwo(s: State, a: Action, b: Action)
    ensures Run(s, [a, b]) == Next(Next(s, a), b)
  {
    assert [a, b][..1] == [a];
    RunOne(s, a);
  }

  lemma PutReaches(s: State, pid: nat, t: string) returns (actions: seq<Action>)
    requires Putting(s, pid, t) && (Creating(s, pid, t) ==> t !in s.rows)
    ensures t in Run(s, actions).cache
  {
    var go := Resume(pid, true);
    RunOne(s, go);
    RunTwo(s, go, go);
    if s.procs[pid].LoginCreate? {
      var u := Next(s, go);
      assert Creating(s, pid, t);
      assert u.procs[pid] == LoginPut(t, s.procs[pid].meta);
      actions := [go, go];
    } else {
      actions := [go];
    }
  }

  lemma RefreshReaches(s: State, pid: nat, t: string) returns (actions: seq<Action>)
    requires Refreshing(s, pid, t) && t in s.rows
    ensures t in Run(s, actions).cache
  {
    var go := Resume(pid, true);
    RunTwo(s, go, go);
    assert Next(s, go).procs[pid].RefreshPut?;
    actions := [go, go];
  }

  lemma SyncReaches(s: State, t: string) returns (actions: seq<Action>)
    requires t in s.rows && s.rows[t].expiresAt > s.now
    ensures t in Run(s, actions).cache
  {
    var pid := UnusedPid(s.procs.Keys);
    var go := Resume(pid, true);
    var u := Next(s, StartSync(pid));
    assert u.procs[pid] == SyncQuery && u.rows == s.rows && u.now == s.now;
    var v := Next(u, go);
    assert v.procs[pid] == SyncSwap(Live(s.rows, s.now));
    actions := [StartSync(pid)] + [go, go];
    RunAppend(s, [StartSync(pid)], [go, go]);
    RunOne(s, StartSync(pid));
    RunTwo(u, go, go);
  }

  /** A continuation that brings the token into the cache. */
  lemma WayBack(s: State, t: string) returns (actions: seq<Action>)
    requires Invariant(s) && CanReturn(s, t)
    ensures t in Run(s, actions).cache
  {
    if t in s.cache {
      actions := [];
    } else if pid :| Putting(s, pid, t) {
      if s.procs[pid].LoginCreate? {
        assert Creating(s, pid, t);
      }
      actions := PutReaches(s, pid, t);
    } else if pid :| Refreshing(s, pid, t) && t in s.rows {
      actions := RefreshReaches(s, pid, t);
    } else {
      actions := SyncReaches(s, t);
    }
  }

  /**
    Revocation, exactly: an issued token can be in the cache again in some continuation of
    the run if and only if CanReturn holds now.
   */
  lemma ReturnsIff(s: State, t: string)
    requires Invariant(s) && t in s.issued
    ensures (exists actions :: t in Run(s, actions).cache) <==> CanReturn(s, t)
  {
    if CanReturn(s, t) {
      var actions := WayBack(s, t);
    } else {
      forall actions ensures t !in Run(s, actions).cache {
        CannotReturn(s, actions, t);
      }
    }
  }

  /** A token that cannot return admits no request any more. */
  lemma CannotReturnNeverPasses(s: State, actions: seq<Action>, pid: nat, req: Request)
    requires Invariant(s) && req.cookie in s.issued && !CanReturn(s, req.cookie)
    ensures Next(Run(s, actions), Receive(pid, req)).passed == Run(s, actions).passed
  {
    CannotReturn(s, actions, req.cookie);
  }

  // ---------------------------------------------------------------------------------
  // What the operations achieve
  // ---------------------------------------------------------------------------------

  /**
    A logout that completes has revoked its token if and only if its row is gone, or
    expired with no refresh in flight, and no login, refresh or sync that is already past
    its database statement still carries the token.
   */
  lemma LogoutRevokesIff(s: State, pid: nat, ok: bool, t: string)
    requires Invariant(s) && t in s.issued && pid in s.procs && s.procs[pid] == LogoutRemove(t)
    ensures var r := Next(s, Resume(pid, ok));
            (forall actions :: t !in Run(r, actions).cache)
            <==>
            && (forall q :: !Putting(s, q, t))
            && (t in s.rows ==> s.rows[t].expiresAt <= s.now && forall q :: !Refreshing(s, q, t))
  {
    var r := Next(s, Resume(pid, ok));
    StepKeepsInvariant(s, Resume(pid, ok));
    ReturnsIff(r, t);
    forall q ensures Putting(r, q, t) <==> Putting(s, q, t) {
    }
    forall q ensures Refreshing(r, q, t) <==> Refreshing(s, q, t) {
    }
    assert (forall actions :: t !in Run(r, actions).cache) <==> !CanReturn(r, t);
  }

  /** The row is gone and nothing in flight carries the token: only the cache may still hold it. */
  ghost predicate Drained(s: State, t: string) {
    t in s.issued && t !in s.rows && forall pid :: !Putting(s, pid, t)
  }

  lemma {:induction false} StaysDrained(s: State, actions: seq<Action>, t: string)
    requires Drained(s, t)
    ensures Drained(Run(s, actions), t)
  {
    if actions != [] {
      hide Next;
      var u, a := Run(s, actions[..|actions| - 1]), actions[|actions| - 1];
      StaysDrained(s, actions[..|actions| - 1], t);
      StepIssues(u, a);
      forall pid ensures Creating(u, pid, t) ==> Putting(u, pid, t) {
      }
      if t in Next(u, a).rows {
        NewRowWasCreating(u, a, t);
      }
      forall pid ensures !Putting(Run(s, actions), pid, t) {
        if Putting(Run(s, actions), pid, t) {
          PuttingIsOld(u, a, pid, t);
        }
      }
    }
  }

  /**
    The next sync to swap in cuts a deleted session off: from then on the token is never
    in the cache again, whatever else happens.
   */
  lemma SyncCutsOff(s: State, before: seq<Action>, pid: nat, ok: bool, after: seq<Action>, t: string)
    requires Invariant(s) && Drained(s, t)
    requires pid in Run(s, before).procs && Run(s, before).procs[pid].SyncSwap?
    ensures t !in Run(Next(Run(s, before), Resume(pid, ok)), after).cache
  {
    StaysDrained(s, before, t);
    RunKeepsInvariant(s, before);
    var u := Run(s, before);
    var r := Next(u, Resume(pid, ok));
    StepKeepsInvariant(u, Resume(pid, ok));
    assert !Putting(u, pid, t);
    forall q ensures !Putting(r, q, t) {
      assert !Putting(u, q, t);
    }
    CannotReturn(r, after, t);
  }

  lemma MismatchEnds(s: State, pid: nat, ok: bool, t: string)
    requires pid in s.procs && s.procs[pid] == MismatchDelete(t)
    ensures var r := Next(s, Resume(pid, ok));
            && r.issued == s.issued && r.now == s.now && r.cache == s.cache
            && r.rows == (if ok then s.rows - {t} else s.rows)
            && forall q :: Putting(r, q, t) == Putting(s, q, t) && Refreshing(r, q, t) == Refreshing(s, q, t)
  {
  }

  /**
    A fingerprint mismatch deletes the row but not the cache entry.  Completed, it has revoked
    its token if and only if the token is not cached, nothing in flight carries it, and a row
    that a failed DELETE has left is expired with no refresh in flight.
   */
  lemma MismatchRevokesIff(s: State, pid: nat, ok: bool, t: string)
    requires Invariant(s) && t in s.issued && pid in s.procs && s.procs[pid] == MismatchDelete(t)
    ensures var r := Next(s, Resume(pid, ok));
            (forall actions :: t !in Run(r, actions).cache)
            <==>
            && t !in s.cache && (forall q :: !Putting(s, q, t))
            && (!ok && t in s.rows ==> s.rows[t].expiresAt <= s.now && forall q :: !Refreshing(s, q, t))
  {
    hide Next;
    var r := Next(s, Resume(pid, ok));
    StepKeepsInvariant(s, Resume(pid, ok));
    MismatchEnds(s, pid, ok, t);
    ReturnsIff(r, t);
    assert (forall actions :: t !in Run(r, actions).cache) <==> !CanReturn(r, t);
  }

  /** The step resumes a logout of the token after its DELETE, or a sync that did not see its row. */
  ghost predicate TakesOut(s: State, a: Action, t: string) {
    && a.Resume? && a.pid in s.procs
    && (s.procs[a.pid] == LogoutRemove(t) || (s.procs[a.pid].SyncSwap? && t !in s.procs[a.pid].snapshot))
  }

  /** These are the only two steps that take a token out of the cache. */
  lemma TokenLeavesCacheIff(s: State, a: Action, t: string)
    requires t in s.cache
    ensures t !in Next(s, a).cache <==> TakesOut(s, a, t)
  {
  }

  ghost predicate NothingTakesOut(s: State, actions: seq<Action>, t: string) {
    forall k :: 0 <= k < |actions| ==> !TakesOut(Run(s, actions[..k]), actions[k], t)
  }

  lemma {:induction false} StaysCached(s: State, actions: seq<Action>, t: string)
    requires t in s.cache && NothingTakesOut(s, actions, t)
    ensures t in Run(s, actions).cache
  {
    hide Next, TakesOut;
    if actions != [] {
      var n := |actions| - 1;
      assert forall k :: 0 <= k < n ==> actions[..n][..k] == actions[..k];
      StaysCached(s, actions[..n], t);
      TokenLeavesCacheIff(Run(s, actions[..n]), actions[n], t);
    }
  }

  ghost predicate CachedThroughout(s: State, actions: seq<Action>, t: string) {
    forall k :: 0 <= k <= |actions| ==> t in Run(s, actions[..k]).cache
  }

  /**
    So a mismatch alone does not: although the documentation calls the session invalidated, the
    token is cached at every later moment if and only if no logout of it and no sync that did
    not see its row has gone on since ...
   */
  lemma {:induction false} StaysCachedIff(s: State, actions: seq<Action>, t: string)
    requires t in s.cache
    ensures CachedThroughout(s, actions, t) <==> NothingTakesOut(s, actions, t)
  {
    hide Next, TakesOut, Run;
    if NothingTakesOut(s, actions, t) {
      forall k | 0 <= k <= |actions| ensures t in Run(s, actions[..k]).cache {
        assert forall j :: 0 <= j < k ==> actions[..k][..j] == actions[..j];
        StaysCached(s, actions[..k], t);
      }
    }
    if CachedThroughout(s, actions, t) {
      forall k | 0 <= k < |actions| ensures !TakesOut(Run(s, actions[..k]), actions[k], t) {
        TokenLeavesCacheIff(Run(s, actions[..k]), actions[k], t);
        RunSnoc(s, actions, k);
        assert t in Run(s, actions[..k + 1]).cache;
      }
    }
  }

  lemma {:induction false} RunSnoc(s: State, actions: seq<Action>, k: nat)
    requires k < |actions|
    ensures Run(s, actions[..k + 1]) == Next(Run(s, actions[..k]), actions[k])
  {
    hide Next;
    assert actions[..k + 1][..k] == actions[..k];
  }

  /** ... and while it is, the bound client passes. */
  lemma BoundClientPassesIffCached(s: State, pid: nat, req: Request)
    requires Invariant(s) && pid !in s.procs && req.cookie in s.issued && Fits(req, s.issued[req.cookie])
    ensures Next(s, Receive(pid, req)).passed == (if req.cookie in s.cache
                                                  then s.passed + [Passed(req, s.issued[req.cookie].userId)]
                                                  else s.passed)
  {
    if req.cookie in s.cache {
      PassIffFits(s.cache[req.cookie], req);
      assert Bound(s.issued, req.cookie, s.cache[req.cookie]);
    }
  }

  /** After a mismatch the next sync takes the token out for good, if nothing in flight carries it. */
  lemma MismatchHoldsFromNextSync(
    s: State, pid: nat, before: seq<Action>, sync: nat, ok: bool, after: seq<Action>, t: string)
    requires Invariant(s) && t in s.issued && pid in s.procs && s.procs[pid] == MismatchDelete(t)
    requires forall q :: !Putting(s, q, t)
    requires var u := Run(Next(s, Resume(pid, true)), before); sync in u.procs && u.procs[sync].SyncSwap?
    ensures t !in Run(Next(Run(Next(s, Resume(pid, true)), before), Resume(sync, ok)), after).cache
  {
    var r := Next(s, Resume(pid, true));
    StepKeepsInvariant(s, Resume(pid, true));
    StepIssues(s, Resume(pid, true));
    forall q ensures !Putting(r, q, t) {
      assert !Putting(s, q, t);
    }
    SyncCutsOff(r, before, sync, ok, after, t);
  }
}
