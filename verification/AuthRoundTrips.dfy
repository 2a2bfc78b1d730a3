/**
  What a client sees over two calls: a login, then a request with the cookie it was given; and
  a logout, then a request.
 */
module AuthRoundTrips {
  import opened AuthHandlers
  import opened Hotp
  import opened Options
  import opened Sessions
  import opened Totp

  /**
    After a password login exactly the same client passes, as the user who logged in, and for a
    change only with the CSRF token it was given.  Any other client loses the session's row.
   */
  method RequestAfterLogin(
    auth: AuthCtrl, middleware: AuthMiddleware, body: Option<(string, string)>, client: Client, ticks: int,
    first: Option<string>, readOk: bool, totpOk: bool, drawn: Drawn, now: int, ok: bool,
    req: Request, session: HttpSession, deleteOk: bool)
    returns (status: Status, verdict: Verdict)
    requires middleware.cache == auth.cache && middleware.repo == auth.repo && auth.limiter.Valid()
    requires body.Some? ==> auth.users.ListsFirst(body.value.0, first)
    requires drawn.token != "" && drawn.csrfToken != "" && req.cookie == drawn.token
    modifies auth.cache, auth.repo, auth.limiter, session
    ensures status == Success ==>
      (verdict.Pass? <==>
       && req.ip == client.ip && req.userAgent == client.userAgent
       && (req.verb in {Post, Put, Delete, Patch} ==> req.csrfHeader == drawn.csrfToken))
    ensures status == Success && verdict.Pass? ==>
      && first == Some(verdict.userId)
      && "user_id" in session.attributes && session.attributes["user_id"] == verdict.userId
    ensures status == Success && !(req.ip == client.ip && req.userAgent == client.userAgent) ==>
      && verdict == FingerprintMismatch
      && (drawn.token in auth.repo.rows <==> !deleteOk)
    ensures status == Success && req.ip == client.ip && req.userAgent == client.userAgent ==>
      && drawn.token in auth.repo.rows && auth.repo.rows[drawn.token].expiresAt == now + 86400
  {
    status := auth.Login(body, client, ticks, first, readOk, totpOk, drawn, now, ok, null);
    verdict := middleware.Invoke(req, session, now, deleteOk);
  }

  /** The same after a login with a second factor, whose row may be missing. */
  method RequestAfterLoginTotp(
    auth: AuthCtrl, middleware: AuthMiddleware, body: Option<(string, string)>, client: Client, ticks: int,
    readOk: bool, systemTicks: int, drawn: Drawn, now: int, ok: bool,
    req: Request, session: HttpSession, deleteOk: bool)
    returns (status: Status, verdict: Verdict)
    requires middleware.cache == auth.cache && middleware.repo == auth.repo && auth.limiter.Valid()
    requires IsHmacSha1(auth.users.accounts.mac) && INT64_MIN <= systemTicks <= INT64_MAX
    requires drawn.token != "" && drawn.csrfToken != "" && req.cookie == drawn.token
    modifies auth.cache, auth.repo, auth.limiter, session
    ensures status == Success ==>
      && body.Some? && body.value.0 in auth.users.accounts.secrets
      && Accepts(auth.users.accounts.mac, auth.users.accounts.secrets[body.value.0], body.value.1, systemTicks)
    ensures status == Success ==>
      (verdict.Pass? <==>
       && req.ip == client.ip && req.userAgent == client.userAgent
       && (req.verb in {Post, Put, Delete, Patch} ==> req.csrfHeader == drawn.csrfToken))
    ensures status == Success && verdict.Pass? ==>
      && body.Some? && body.value.0 == verdict.userId
      && "user_id" in session.attributes && session.attributes["user_id"] == verdict.userId
    ensures status == Success && !(req.ip == client.ip && req.userAgent == client.userAgent) ==>
      && verdict == FingerprintMismatch
      && (deleteOk ==> drawn.token !in auth.repo.rows)
  {
    hide Accepts;
    status := auth.LoginTotp(body, client, ticks, readOk, systemTicks, drawn, now, ok, null);
    verdict := middleware.Invoke(req, session, now, deleteOk);
  }

  /** After an uninterrupted logout nobody passes with the cookie, even if the DELETE failed. */
  method RequestAfterLogout(
    auth: AuthCtrl, middleware: AuthMiddleware, now: int, ok: bool, req: Request, session: HttpSession, deleteOk: bool)
    returns (verdict: Verdict)
    requires middleware.cache == auth.cache && middleware.repo == auth.repo
    requires req.cookie != ""
    modifies auth.cache, auth.repo, session
    ensures verdict == UnknownSession && session.attributes == old(session.attributes)
  {
    auth.Logout(req.cookie, null, now, ok);
    verdict := middleware.Invoke(req, session, now, deleteOk);
  }
}
