/**
  What each session operation does to the two stores when nothing overtakes it: the
  specification of the handlers in AuthHandlers, and the theorems about how far the cache
  agrees with the table.
 */
module SessionStore {
  import opened Options
  import opened Sessions

  datatype Store = Store(rows: Rows, cache: Entries)

  // ---------------------------------------------------------------------------------
  // The operations
  // ---------------------------------------------------------------------------------

  datatype Operation =
    | Login(token: string, binding: Binding, ok: bool)
    | LoginTotp(token: string, binding: Binding, ok: bool)
    | Logout(token: string, ok: bool)
    | Refresh(token: string, ok: bool)
    | Mismatch(token: string, ok: bool) // the middleware finds the token with another fingerprint
    | Sync(ok: bool)
    | Sweep(ok: bool)

  /** The stores after an operation; ok tells whether its database statement succeeds. */
  function Perform(st: Store, op: Operation, now: int): Store {
    match op
    case Login(t, b, ok) =>
      if ok && t !in st.rows then Store(st.rows[t := RowOf(NewMeta(b, now))], st.cache[t := NewMeta(b, now)]) else st
    case LoginTotp(t, b, ok) =>
      Store(if ok && t !in st.rows then st.rows[t := RowOf(NewMeta(b, now))] else st.rows,
            st.cache[t := NewMeta(b, now)])
    case Logout(t, ok) =>
      if t == "" then st else Store(if ok then st.rows - {t} else st.rows, st.cache - {t})
    case Refresh(t, ok) =>
      if t == "" || t !in st.cache || !ok || t !in st.rows then st
      else Store(st.rows[t := st.rows[t].(expiresAt := now + SESSION_SECONDS)],
                 st.cache[t := st.cache[t].(expiresAt := now + SESSION_SECONDS)])
    case Mismatch(t, ok) =>
      if ok && t != "" && t in st.cache then Store(st.rows - {t}, st.cache) else st
    case Sync(ok) =>
      if ok then Store(st.rows, Live(st.rows, now)) else st
    case Sweep(ok) =>
      if ok then Store(map t | t in st.rows && !(st.rows[t].expiresAt < now) :: st.rows[t], st.cache) else st
  }

  // ---------------------------------------------------------------------------------
  // Runs of uninterrupted operations
  // ---------------------------------------------------------------------------------

  // lastSync: when the query of the last successful sync ran
  datatype World = World(now: int, store: Store, lastSync: Option<int>)

  datatype Event = Tick(seconds: nat) | Do(op: Operation)

  /** Issued tokens are new. */
  predicate Fresh(w: World, e: Event) {
    e.Do? && (e.op.Login? || e.op.LoginTotp?) ==>
        e.op.token != "" && e.op.token !in w.store.rows && e.op.token !in w.store.cache
  }

  function Advance(w: World, e: Event): World {
    if !Fresh(w, e) then w
    else
      match e
      case Tick(n) => w.(now := w.now + n)
      case Do(op) =>
        World(w.now, Perform(w.store, op, w.now), if op.Sync? && op.ok then Some(w.now) else w.lastSync)
  }

  function History(w: World, events: seq<Event>): World {
    if events == [] then w
    else Advance(History(w, events[..|events| - 1]), events[|events| - 1])
  }

  // ---------------------------------------------------------------------------------
  // Cache agreement
  // ---------------------------------------------------------------------------------

  /** Where both stores know a token they say the same about it. */
  ghost predicate Consistent(st: Store) {
    forall t :: t in st.rows && t in st.cache ==> st.cache[t] == MetaOf(st.rows[t])
  }

  /** Every unexpired session of the table is in the cache. */
  ghost predicate Covered(st: Store, now: int) {
    forall t :: t in st.rows && st.rows[t].expiresAt > now ==> t in st.cache
  }

  ghost predicate Agrees(w: World) {
    Consistent(w.store) && Covered(w.store, w.now)
  }

  /** A logout whose DELETE fails although the session is still alive. */
  ghost predicate LostLogout(w: World, e: Event) {
    && e.Do? && e.op.Logout? && !e.op.ok && e.op.token != ""
    && e.op.token in w.store.rows && w.store.rows[e.op.token].expiresAt > w.now
  }

  lemma AdvanceKeepsConsistent(w: World, e: Event)
    requires Consistent(w.store)
    ensures Consistent(Advance(w, e).store)
  {
  }

  /**
    Of all operations, with and without database failures, exactly one kind breaks the
    agreement between table and cache: a logout that loses its DELETE on a live session.
   */
  lemma AgreementBreaksIffLostLogout(w: World, e: Event)
    requires Agrees(w)
    ensures Agrees(Advance(w, e)) <==> !LostLogout(w, e)
  {
  }

  lemma SyncRestoresEquality(w: World)
    ensures var r := Advance(w, Do(Sync(true)));
            && Agrees(r)
            && forall t :: t in r.store.cache <==> t in r.store.rows && r.store.rows[t].expiresAt > r.now
  {
  }

  ghost predicate NoLostLogout(w: World, events: seq<Event>, from: nat) {
    forall i :: from <= i < |events| ==> !LostLogout(History(w, events[..i]), events[i])
  }

  lemma {:induction false} HistoryStep(w: World, events: seq<Event>, n: nat)
    requires n < |events|
    ensures History(w, events[..n + 1]) == Advance(History(w, events[..n]), events[n])
  {
    assert events[..n + 1][..n] == events[..n];
  }

  /**
    From the first successful sync on, every unexpired session of the table is in the
    cache with identical data, in every state of a run that loses no logout.
   */
  lemma {:induction false} AgreesFromFirstSync(w: World, events: seq<Event>, first: nat, n: nat)
    requires first < n <= |events| && events[first] == Do(Sync(true)) && NoLostLogout(w, events, first + 1)
    ensures Agrees(History(w, events[..n]))
  {
    HistoryStep(w, events, n - 1);
    if n - 1 == first {
      SyncRestoresEquality(History(w, events[..first]));
    } else {
      AgreesFromFirstSync(w, events, first, n - 1);
      AgreementBreaksIffLostLogout(History(w, events[..n - 1]), events[n - 1]);
    }
  }

  // ---------------------------------------------------------------------------------
  // How stale an admitted session can be
  // ---------------------------------------------------------------------------------

  /** Every cached session was unexpired when the last sync looked. */
  ghost predicate FreshSinceSync(w: World) {
    w.lastSync.Some? ==>
      && w.lastSync.value <= w.now
      && forall t :: t in w.store.cache ==> w.store.cache[t].expiresAt > w.lastSync.value
  }

  lemma {:induction false} StaysFreshSinceSync(w: World, events: seq<Event>)
    requires FreshSinceSync(w)
    ensures FreshSinceSync(History(w, events))
  {
    if events != [] {
      StaysFreshSinceSync(w, events[..|events| - 1]);
    }
  }

  /** A request passes on an expired session only if no sync has run since it expired. */
  lemma ExpiredPassOnlyBeforeSync(w: World, events: seq<Event>, req: Request)
    requires w.lastSync.None?
    requires var r := History(w, events);
             && Judge(Lookup(r.store.cache, req.cookie), req).Pass?
             && r.store.cache[req.cookie].expiresAt <= r.now
    ensures var r := History(w, events);
            r.lastSync.Some? ==> r.lastSync.value < r.store.cache[req.cookie].expiresAt
  {
    StaysFreshSinceSync(w, events);
  }
}
