/**
  Session records, their two representations, and the admission decision.

  A session is a row of the `sessions` table and an entry of the in-memory cache; both are
  keyed by the session token.  Times are whole seconds.
 */
module Sessions {
  import opened Options

  // A new or refreshed session lives for a day.
  const SESSION_SECONDS := 24 * 3600

  // include/cache/session_cache.hpp
  datatype SessionMeta = SessionMeta(
    userId: string, ipAddress: string, userAgent: string, expiresAt: int, csrfToken: string)

  // A row of table `sessions`; the JSON column may be NULL.
  datatype SessionRow = SessionRow(
    userId: string, expiresAt: int, ipAddress: string, userAgent: string, data: Option<map<string, string>>)

  // What a token is issued for.  Everything about a session except its expiry.
  datatype Binding = Binding(userId: string, ipAddress: string, userAgent: string, csrfToken: string)

  type Rows = map<string, SessionRow>
  type Entries = map<string, SessionMeta>

  /** The row that create_session inserts: an empty CSRF token is not stored at all. */
  function RowOf(m: SessionMeta): SessionRow {
    SessionRow(m.userId, m.expiresAt, m.ipAddress, m.userAgent,
               Some(if m.csrfToken != "" then map["csrf_token" := m.csrfToken] else map[]))
  }

  /** The cache entry that sync_from_db builds from a row. */
  function MetaOf(r: SessionRow): SessionMeta {
    var csrf := if r.data.Some? && "csrf_token" in r.data.value then r.data.value["csrf_token"] else "";
    SessionMeta(r.userId, r.ipAddress, r.userAgent, r.expiresAt, csrf)
  }

  /** A session that starts, or is refreshed, now. */
  function NewMeta(b: Binding, now: int): SessionMeta {
    SessionMeta(b.userId, b.ipAddress, b.userAgent, now + SESSION_SECONDS, b.csrfToken)
  }

  function BindingOf(m: SessionMeta): Binding {
    Binding(m.userId, m.ipAddress, m.userAgent, m.csrfToken)
  }

  /** What is written by a login comes back from a sync, with or without a CSRF token. */
  lemma RowRoundTrip(m: SessionMeta)
    ensures MetaOf(RowOf(m)) == m
  {
  }

  /** The rows with expires_at > CURRENT_TIMESTAMP, as cache entries. */
  function Live(rows: Rows, now: int): Entries {
    map t | t in rows && rows[t].expiresAt > now :: MetaOf(rows[t])
  }

  // ---------------------------------------------------------------------------------
  // Requests
  // ---------------------------------------------------------------------------------

  datatype Verb = Get | Post | Put | Delete | Patch | Head | Other

  datatype Request = Request(verb: Verb, cookie: string, ip: string, userAgent: string, csrfHeader: string)

  datatype Verdict =
    | NoCookie            // 401
    | UnknownSession      // 401
    | FingerprintMismatch // 401, the row is deleted
    | CsrfRejected        // 403
    | Pass(userId: string)

  predicate Mutating(v: Verb) {
    v in {Post, Put, Delete, Patch}
  }

  /** The branches of AuthMiddleware::invoke, given what the cache lookup returned. */
  function Judge(session: Option<SessionMeta>, req: Request): Verdict {
    if req.cookie == "" then NoCookie
    else if session.None? then UnknownSession
    else if session.value.ipAddress != req.ip || session.value.userAgent != req.userAgent then FingerprintMismatch
    else if Mutating(req.verb) && (req.csrfHeader == "" || req.csrfHeader != session.value.csrfToken) then CsrfRejected
    else Pass(session.value.userId)
  }

  /** Which answer a request gets: the tests and their order, one case each. */
  lemma JudgeCases(session: Option<SessionMeta>, req: Request)
    ensures Judge(session, req) == NoCookie <==> req.cookie == ""
    ensures Judge(session, req) == UnknownSession <==> req.cookie != "" && session == None
    ensures Judge(session, req) == FingerprintMismatch <==>
      && req.cookie != "" && session.Some?
      && !(session.value.ipAddress == req.ip && session.value.userAgent == req.userAgent)
    ensures Judge(session, req) == CsrfRejected <==>
      && req.cookie != "" && session.Some?
      && session.value.ipAddress == req.ip && session.value.userAgent == req.userAgent
      && req.verb in {Post, Put, Delete, Patch}
      && (req.csrfHeader == "" || req.csrfHeader != session.value.csrfToken)
    ensures Judge(session, req).Pass? ==> session.Some? && Judge(session, req).userId == session.value.userId
  {
  }

  /** A session that starts, or is refreshed, lasts a day from then. */
  lemma SessionLastsADay(b: Binding, now: int)
    ensures NewMeta(b, now).expiresAt == now + 86400 && BindingOf(NewMeta(b, now)) == b
    ensures NewMeta(b, now) == SessionMeta(b.userId, b.ipAddress, b.userAgent, now + 86400, b.csrfToken)
  {
  }

  function Lookup(entries: Entries, token: string): Option<SessionMeta> {
    if token in entries then Some(entries[token]) else None
  }

  /** The request fits a binding: same client and, for a change, the CSRF token issued with it. */
  predicate Fits(req: Request, b: Binding) {
    && req.cookie != ""
    && req.ip == b.ipAddress && req.userAgent == b.userAgent
    && (Mutating(req.verb) ==> req.csrfHeader == b.csrfToken != "")
  }

  /** A request passes, as the bound user, exactly when it fits the cached session's binding. */
  lemma PassIffFits(m: SessionMeta, req: Request)
    ensures Judge(Some(m), req) == Pass(m.userId) <==> Fits(req, BindingOf(m))
    ensures Judge(Some(m), req).Pass? ==> Judge(Some(m), req) == Pass(m.userId)
    ensures !Judge(None, req).Pass?
  {
  }
}
