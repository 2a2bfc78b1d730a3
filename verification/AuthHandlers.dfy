/**
  The session cache, the session table, the login handlers and the middleware as objects
  that change their fields, each run without interruption.  The contracts say which
  SessionStore operation a call amounts to; what those operations preserve is proved there.

  The password verifier, the HMAC, random tokens and clock readings are parameters.  Every
  database statement has a parameter telling whether it succeeds.
 */
module AuthHandlers {
  import opened Credentials
  import opened Hotp
  import opened Options
  import opened RateLimiting
  import opened Sessions
  import opened SessionStore
  import opened Totp
  import opened Users

  // ---------------------------------------------------------------------------------
  // The table and the cache
  // ---------------------------------------------------------------------------------

  // The part of src/db/auth_repository.cpp that works on table `sessions`.
  class SessionRepository {
    var rows: Rows

    constructor (rows: Rows)
      ensures this.rows == rows
    {
      this.rows := rows;
    }

    /** INSERT; the token column is UNIQUE. */
    method CreateSession(token: string, meta: SessionMeta, ok: bool) returns (created: bool)
      modifies this
      ensures created == (ok && token !in old(rows))
      ensures rows == if created then old(rows)[token := RowOf(meta)] else old(rows)
      ensures created ==>
        && rows[token].userId == meta.userId && rows[token].expiresAt == meta.expiresAt
        && rows[token].ipAddress == meta.ipAddress && rows[token].userAgent == meta.userAgent
        && rows[token].data == Some(if meta.csrfToken == "" then map[] else map["csrf_token" := meta.csrfToken])
    {
      if !ok || token in rows {
        return false;
      }
      var data: map<string, string> := map[];
      if meta.csrfToken != "" {
        data := data["csrf_token" := meta.csrfToken];
      }
      rows := rows[token := SessionRow(meta.userId, meta.expiresAt, meta.ipAddress, meta.userAgent, Some(data))];
      return true;
    }

    /** UPDATE; reports whether a row was affected.  A failing statement throws: None. */
    method RefreshSession(token: string, expiresAt: int, ok: bool) returns (affected: Option<bool>)
      modifies this
      ensures affected == if ok then Some(token in old(rows)) else None
      ensures rows ==
          if ok && token in old(rows) then old(rows)[token := old(rows)[token].(expiresAt := expiresAt)]
          else old(rows)
    {
      if !ok {
        return None;
      }
      if token !in rows {
        return Some(false);
      }
      rows := rows[token := rows[token].(expiresAt := expiresAt)];
      return Some(true);
    }

    method DeleteSession(token: string, ok: bool) returns (deleted: bool)
      modifies this
      ensures deleted == ok && rows == if ok then old(rows) - {token} else old(rows)
    {
      if ok {
        rows := rows - {token};
      }
      return ok;
    }

    /** The result set of the sync query, in whatever order the database returns it. */
    method SelectLive(now: int) returns (result: seq<(string, SessionRow)>)
      ensures forall i :: 0 <= i < |result| ==>
          result[i].0 in rows && result[i].1 == rows[result[i].0] && result[i].1.expiresAt > now
      ensures forall t :: t in rows && rows[t].expiresAt > now ==> (t, rows[t]) in result
    {
      result := [];
      var todo := rows.Keys;
      while todo != {}
        invariant todo <= rows.Keys
        invariant forall i :: 0 <= i < |result| ==>
            result[i].0 in rows && result[i].1 == rows[result[i].0] && result[i].1.expiresAt > now
        invariant forall t :: t in rows && t !in todo && rows[t].expiresAt > now ==> (t, rows[t]) in result
        decreases todo
      {
        var t :| t in todo;
        if rows[t].expiresAt > now {
          result := result + [(t, rows[t])];
        }
        todo := todo - {t};
      }
    }

    /** The background worker for session timeouts (src/main.cpp). */
    method DeleteExpired(now: int, ok: bool)
      modifies this
      ensures rows == Perform(Store(old(rows), map[]), Sweep(ok), now).rows
      ensures forall t :: t in rows <==> t in old(rows) && !(ok && old(rows)[t].expiresAt < now)
      ensures forall t :: t in rows ==> rows[t] == old(rows)[t]
    {
      if ok {
        rows := map t | t in rows && !(rows[t].expiresAt < now) :: rows[t];
      }
    }
  }

  // The part of src/db/auth_repository.cpp that reads users and TOTP secrets.
  class AccountRepository {
    var accounts: Accounts

    constructor (accounts: Accounts)
      ensures this.accounts == accounts
    {
      this.accounts := accounts;
    }

    /** Which user the database lists first of those that the identifier matches. */
    predicate ListsFirst(ident: string, first: Option<string>)
      reads this
    {
      match first
      case Some(id) => id in accounts.users && Matches(accounts.users[id], ident)
      case None => forall id :: id in accounts.users ==> !Matches(accounts.users[id], ident)
    }

    /** None if the query fails or matches nobody. */
    method FindUserByLoginOrEmail(ident: string, first: Option<string>, ok: bool) returns (user: Option<(string, User)>)
      requires ListsFirst(ident, first)
      ensures user.Some? <==>
        && ok
        && exists id ::
             id in accounts.users && (accounts.users[id].loginName == ident || accounts.users[id].email == ident)
      ensures user.Some? ==> first == Some(user.value.0) && user.value.0 in accounts.users
      ensures user.Some? ==> user.value.1 == accounts.users[user.value.0]
      ensures user.Some? ==> user.value.1.loginName == ident || user.value.1.email == ident
    {
      if !ok || first.None? {
        return None;
      }
      return Some((first.value, accounts.users[first.value]));
    }

    /** A query that fails counts as no second factor. */
    method CheckTotpEnabled(userId: string, ok: bool) returns (enabled: bool)
      ensures enabled <==> ok && userId in accounts.secrets
    {
      return ok && userId in accounts.secrets;
    }

    method GetTotpSecret(userId: string, ok: bool) returns (secret: Option<string>)
      ensures secret.Some? <==> ok && userId in accounts.secrets
      ensures secret.Some? ==> secret.value == accounts.secrets[userId]
    {
      if !ok || userId !in accounts.secrets {
        return None;
      }
      return Some(accounts.secrets[userId]);
    }
  }

  // include/cache/session_cache.hpp and src/cache/session_cache.cpp
  class SessionCache {
    var entries: Entries

    constructor ()
      ensures entries == map[]
    {
      entries := map[];
    }

    method GetSession(token: string) returns (session: Option<SessionMeta>)
      ensures session == Lookup(entries, token)
    {
      if token in entries {
        return Some(entries[token]);
      }
      return None;
    }

    method PutSession(token: string, meta: SessionMeta)
      modifies this
      ensures entries == old(entries)[token := meta]
    {
      entries := entries[token := meta];
    }

    method RemoveSession(token: string)
      modifies this
      ensures entries == old(entries) - {token}
    {
      entries := entries - {token};
    }

    /** Builds a new map from the rows and swaps it in; keeps the old one when the query fails. */
    method SyncFromDb(repo: SessionRepository, now: int, ok: bool)
      modifies this
      ensures Store(repo.rows, entries) == Perform(Store(repo.rows, old(entries)), Sync(ok), now)
      ensures !ok ==> entries == old(entries)
      ensures ok ==> forall t :: t in entries <==> t in repo.rows && repo.rows[t].expiresAt > now
      ensures ok ==> forall t :: t in entries ==>
        var row := repo.rows[t];
        && entries[t].userId == row.userId && entries[t].expiresAt == row.expiresAt
        && entries[t].ipAddress == row.ipAddress && entries[t].userAgent == row.userAgent
        && entries[t].csrfToken ==
           if row.data.Some? && "csrf_token" in row.data.value then row.data.value["csrf_token"] else ""
    {
      if !ok {
        return;
      }
      var result := repo.SelectLive(now);
      var newCache: Entries := map[];
      for i := 0 to |result|
        invariant forall t :: t in newCache ==>
            t in repo.rows && repo.rows[t].expiresAt > now && newCache[t] == MetaOf(repo.rows[t])
        invariant forall j :: 0 <= j < i ==> result[j].0 in newCache
      {
        var row := result[i].1;
        var csrf := "";
        if row.data.Some? && "csrf_token" in row.data.value {
          csrf := row.data.value["csrf_token"];
        }
        newCache := newCache[result[i].0 := SessionMeta(row.userId, row.ipAddress, row.userAgent, row.expiresAt, csrf)];
      }
      forall t | t in repo.rows && repo.rows[t].expiresAt > now ensures t in newCache {
        assert (t, repo.rows[t]) in result;
      }
      assert newCache == Live(repo.rows, now);
      entries := newCache;
    }
  }

  // ---------------------------------------------------------------------------------
  // Handlers
  // ---------------------------------------------------------------------------------

  // Attributes of the framework's own HTTP session.
  class HttpSession {
    var attributes: map<string, string>

    constructor ()
      ensures attributes == map[]
    {
      attributes := map[];
    }
  }

  // What a client tells about itself.
  datatype Client = Client(ip: string, userAgent: string)

  // The random values a login draws.
  datatype Drawn = Drawn(token: string, csrfToken: string)

  datatype Status =
    | BadRequest | TooManyRequests | Unauthorized | PasswordChangeRequired | MfaRequired | ServerError | Success

  class AuthCtrl {
    const cache: SessionCache
    const repo: SessionRepository
    const limiter: RateLimiter
    const users: AccountRepository

    constructor (cache: SessionCache, repo: SessionRepository, limiter: RateLimiter, users: AccountRepository)
      ensures this.cache == cache && this.repo == repo && this.limiter == limiter && this.users == users
    {
      this.cache, this.repo, this.limiter, this.users := cache, repo, limiter, users;
    }

    ghost function Stores(): Store
      reads cache, repo
    {
      Store(repo.rows, cache.entries)
    }

    /** The part of a login that decides on the account; it changes nothing. */
    method CheckPassword(ident: string, password: string, first: Option<string>, readOk: bool, totpOk: bool)
      returns (status: Status)
      requires users.ListsFirst(ident, first)
      ensures status in {Unauthorized, PasswordChangeRequired, MfaRequired, Success}
      ensures status != Unauthorized <==>
              && readOk && first.Some? && users.accounts.users[first.value].isActive
              && users.accounts.verify(password, users.accounts.users[first.value].passwordHash)
      ensures status != Unauthorized ==>
              (status == PasswordChangeRequired <==> users.accounts.users[first.value].mustPwdChange)
      ensures status == MfaRequired || status == Success ==>
              (status == MfaRequired <==> totpOk && first.value in users.accounts.secrets)
    {
      var found := users.FindUserByLoginOrEmail(ident, first, readOk);
      if found.None? || !found.value.1.isActive {
        return Unauthorized;
      }
      var (userId, user) := found.value;
      if !users.accounts.verify(password, user.passwordHash) {
        return Unauthorized;
      }
      if user.mustPwdChange {
        return PasswordChangeRequired;
      }
      var totpEnabled := users.CheckTotpEnabled(userId, totpOk);
      if totpEnabled {
        return MfaRequired;
      }
      return Success;
    }

    /**
      What both logins end with.  The password login needs the row (strict); the second-factor
      login goes on whether or not it could be inserted.
     */
    method OpenSession(userId: string, client: Client, drawn: Drawn, now: int, ok: bool, strict: bool,
                       session: HttpSession?)
      returns (issued: bool)
      modifies cache, repo, session
      ensures issued <==> !strict || (ok && drawn.token !in old(repo.rows))
      ensures if ok && drawn.token !in old(repo.rows)
              then drawn.token in repo.rows && repo.rows == old(repo.rows)[drawn.token := repo.rows[drawn.token]]
              else repo.rows == old(repo.rows)
      ensures !issued ==> cache.entries == old(cache.entries)
      ensures issued ==>
              && drawn.token in cache.entries
              && cache.entries == old(cache.entries)[drawn.token := cache.entries[drawn.token]]
      ensures issued ==>
              var entry := cache.entries[drawn.token];
              && entry.userId == userId && entry.ipAddress == client.ip && entry.userAgent == client.userAgent
              && entry.expiresAt == now + 86400 && entry.csrfToken == drawn.csrfToken
      ensures ok && drawn.token !in old(repo.rows) ==>
              var row := repo.rows[drawn.token];
              && row.userId == userId && row.ipAddress == client.ip && row.userAgent == client.userAgent
              && row.expiresAt == now + 86400 && MetaOf(row) == cache.entries[drawn.token]
      ensures issued ==>
              var binding := BindingOf(cache.entries[drawn.token]);
              var op := if strict then SessionStore.Login(drawn.token, binding, ok)
                        else SessionStore.LoginTotp(drawn.token, binding, ok);
              Stores() == Perform(old(Stores()), op, now)
      ensures session != null ==>
              session.attributes ==
              if !issued then old(session.attributes)
              else old(session.attributes)["authenticated" := "true"]["user_id" := userId]
                                          ["csrf_token" := drawn.csrfToken]
    {
      var expiresAt := now + SESSION_SECONDS;
      var meta := SessionMeta(userId, client.ip, client.userAgent, expiresAt, drawn.csrfToken);
      var created := repo.CreateSession(drawn.token, meta, ok);
      if strict && !created {
        return false;
      }
      cache.PutSession(drawn.token, meta);
      if session != null {
        session.attributes := session.attributes["authenticated" := "true"];
        session.attributes := session.attributes["user_id" := userId];
        session.attributes := session.attributes["csrf_token" := drawn.csrfToken];
      }
      return true;
    }

    /**
      A session comes into being exactly when the limiter admits the call, the identifier
      names an active account, the password is right, no password change is due, no second
      factor is found, and the row can be inserted; it is then in both stores with the same data.
      `first` is the user that the database lists first; readOk and totpOk tell whether the
      reads of the user and of the second factor succeed.
     */
    method Login(body: Option<(string, string)>, client: Client, ticks: int, first: Option<string>, readOk: bool,
                 totpOk: bool, drawn: Drawn, now: int, ok: bool, session: HttpSession?)
      returns (status: Status)
      requires limiter.Valid() && (body.Some? ==> users.ListsFirst(body.value.0, first))
      modifies cache, repo, limiter, session
      ensures limiter.Valid()
      ensures limiter.events == old(limiter.events) + if body.None? then [] else [Event(client.ip, Call(ticks, 5, 60))]
      ensures status == BadRequest <==> body.None?
      ensures body.Some? ==> (status == TooManyRequests <==> !old(limiter.Admits(client.ip, Call(ticks, 5, 60))))
      ensures status !in {BadRequest, TooManyRequests} ==>
              (status == Unauthorized <==>
               !(readOk && first.Some? && users.accounts.users[first.value].isActive
                 && users.accounts.verify(body.value.1, users.accounts.users[first.value].passwordHash)))
      ensures status !in {BadRequest, TooManyRequests, Unauthorized} ==>
              (status == PasswordChangeRequired <==> users.accounts.users[first.value].mustPwdChange)
      ensures status in {MfaRequired, ServerError, Success} ==>
              (status == MfaRequired <==> totpOk && first.value in users.accounts.secrets)
      ensures status in {ServerError, Success} ==> (status == Success <==> ok && drawn.token !in old(repo.rows))
      ensures status == Success ==> Accepted(users.accounts, Password(body.value.0, body.value.1), first.value)
      ensures status != Success ==> cache.entries == old(cache.entries) && repo.rows == old(repo.rows)
      ensures status == Success ==>
              && drawn.token in cache.entries && drawn.token in repo.rows
              && cache.entries == old(cache.entries)[drawn.token := cache.entries[drawn.token]]
              && repo.rows == old(repo.rows)[drawn.token := repo.rows[drawn.token]]
      ensures status == Success ==>
              var entry, row := cache.entries[drawn.token], repo.rows[drawn.token];
              && entry.userId == row.userId == first.value
              && entry.ipAddress == row.ipAddress == client.ip && entry.userAgent == row.userAgent == client.userAgent
              && entry.expiresAt == row.expiresAt == now + 86400
              && entry.csrfToken == drawn.csrfToken && MetaOf(row) == entry
      ensures status == Success ==>
              var binding := BindingOf(cache.entries[drawn.token]);
              Stores() == Perform(old(Stores()), SessionStore.Login(drawn.token, binding, true), now)
      ensures session != null ==>
              session.attributes ==
              if status != Success then old(session.attributes)
              else old(session.attributes)["authenticated" := "true"]["user_id" := first.value]
                                          ["csrf_token" := drawn.csrfToken]
    {
      hide Perform, MetaOf, BindingOf, Decide;
      if body.None? {
        return BadRequest;
      }
      var (ident, password) := body.value;
      var allowed := limiter.IsAllowed(client.ip, 5, 60, ticks);
      if !allowed {
        return TooManyRequests;
      }
      status := CheckPassword(ident, password, first, readOk, totpOk);
      if status != Success {
        return;
      }
      var userId := first.value;
      var issued := OpenSession(userId, client, drawn, now, ok, true, session);
      return if issued then Success else ServerError;
    }

    /** The part of a second-factor login that decides on the code; it changes nothing. */
    method CheckCode(userId: string, code: string, readOk: bool, systemTicks: int) returns (status: Status)
      requires IsHmacSha1(users.accounts.mac) && INT64_MIN <= systemTicks <= INT64_MAX
      ensures status in {BadRequest, Unauthorized, Success}
      ensures status == BadRequest <==> !(readOk && userId in users.accounts.secrets)
      ensures status == Success <==>
              && readOk && userId in users.accounts.secrets
              && Accepts(users.accounts.mac, users.accounts.secrets[userId], code, systemTicks)
    {
      hide Accepts;
      var secret := users.GetTotpSecret(userId, readOk);
      if secret.None? {
        return BadRequest;
      }
      var verified := ValidateCode(users.accounts.mac, secret.value, code, systemTicks);
      return if verified then Success else Unauthorized;
    }

    /**
      With a second factor the session is cached whether or not its row could be inserted,
      but only for a code that the secret stored for this user produces for the current time
      step or one of its neighbours.
     */
    method LoginTotp(body: Option<(string, string)>, client: Client, ticks: int, readOk: bool, systemTicks: int,
                     drawn: Drawn, now: int, ok: bool, session: HttpSession?)
      returns (status: Status)
      requires limiter.Valid() && IsHmacSha1(users.accounts.mac) && INT64_MIN <= systemTicks <= INT64_MAX
      modifies cache, repo, limiter, session
      ensures limiter.Valid()
      ensures limiter.events == old(limiter.events) + if body.None? then [] else [Event(client.ip, Call(ticks, 5, 60))]
      ensures body.None? ==> status == BadRequest
      ensures body.Some? ==> (status == TooManyRequests <==> !old(limiter.Admits(client.ip, Call(ticks, 5, 60))))
      ensures body.Some? && status != TooManyRequests ==>
              (status == BadRequest <==> !(readOk && body.value.0 in users.accounts.secrets))
      ensures status !in {BadRequest, TooManyRequests} ==>
              && status in {Unauthorized, Success}
              && (status == Success <==>
                  Accepts(users.accounts.mac, users.accounts.secrets[body.value.0], body.value.1, systemTicks))
      ensures status == Success ==> Accepted(users.accounts, SecondFactor(body.value.1, systemTicks), body.value.0)
      ensures status != Success ==> cache.entries == old(cache.entries) && repo.rows == old(repo.rows)
      ensures status == Success ==>
              && drawn.token in cache.entries
              && cache.entries == old(cache.entries)[drawn.token := cache.entries[drawn.token]]
      ensures status == Success ==>
              var entry := cache.entries[drawn.token];
              && entry.userId == body.value.0 && entry.ipAddress == client.ip && entry.userAgent == client.userAgent
              && entry.expiresAt == now + 86400 && entry.csrfToken == drawn.csrfToken
      ensures status == Success ==>
              if ok && drawn.token !in old(repo.rows) then
                && drawn.token in repo.rows && MetaOf(repo.rows[drawn.token]) == cache.entries[drawn.token]
                && repo.rows == old(repo.rows)[drawn.token := repo.rows[drawn.token]]
              else repo.rows == old(repo.rows)
      ensures status == Success ==>
              var binding := BindingOf(cache.entries[drawn.token]);
              Stores() == Perform(old(Stores()), SessionStore.LoginTotp(drawn.token, binding, ok), now)
      ensures session != null ==>
              session.attributes ==
              if status != Success then old(session.attributes)
              else old(session.attributes)["authenticated" := "true"]["user_id" := body.value.0]
                                          ["csrf_token" := drawn.csrfToken]
    {
      hide Accepts, Perform, MetaOf, BindingOf, Decide;
      if body.None? {
        return BadRequest;
      }
      var (userId, code) := body.value;
      var allowed := limiter.IsAllowed(client.ip, 5, 60, ticks);
      if !allowed {
        return TooManyRequests;
      }
      status := CheckCode(userId, code, readOk, systemTicks);
      if status != Success {
        return;
      }
      var _ := OpenSession(userId, client, drawn, now, ok, false, session);
      return Success;
    }

    /** The DELETE may fail; the cache entry and the attributes go in any case. */
    method Logout(cookie: string, session: HttpSession?, now: int, ok: bool)
      modifies cache, repo, session
      ensures Stores() == Perform(old(Stores()), SessionStore.Logout(cookie, ok), now)
      ensures cache.entries == old(cache.entries) - (if cookie == "" then {} else {cookie})
      ensures repo.rows == old(repo.rows) - (if ok && cookie != "" then {cookie} else {})
      ensures session != null ==> session.attributes == old(session.attributes) - {"authenticated", "user_id"}
    {
      if session != null {
        session.attributes := session.attributes - {"authenticated"};
        session.attributes := session.attributes - {"user_id"};
      }
      if cookie != "" {
        var _ := repo.DeleteSession(cookie, ok);
        cache.RemoveSession(cookie);
      }
    }

    /** Succeeds exactly when the session is cached and its row, expired or not, still exists. */
    method RefreshSession(cookie: string, now: int, ok: bool) returns (status: Status)
      modifies cache, repo
      ensures Stores() == Perform(old(Stores()), Refresh(cookie, ok), now)
      ensures status != Success ==> cache.entries == old(cache.entries) && repo.rows == old(repo.rows)
      ensures status == Success <==> cookie != "" && cookie in old(cache.entries) && ok && cookie in old(repo.rows)
      ensures status == Unauthorized <==> cookie == "" || cookie !in old(cache.entries)
      ensures status == Success ==>
        && cache.entries == old(cache.entries)[cookie := old(cache.entries)[cookie].(expiresAt := now + 86400)]
        && repo.rows == old(repo.rows)[cookie := old(repo.rows)[cookie].(expiresAt := now + 86400)]
    {
      if cookie == "" {
        return Unauthorized;
      }
      var cached := cache.GetSession(cookie);
      if cached.None? {
        return Unauthorized;
      }
      var expiresAt := now + SESSION_SECONDS;
      var refreshed := repo.RefreshSession(cookie, expiresAt, ok);
      if refreshed != Some(true) {
        return ServerError;
      }
      cache.PutSession(cookie, cached.value.(expiresAt := expiresAt));
      return Success;
    }

    /** The password-reset request passes the same limiter with other parameters. */
    method ResetPasswordRequest(email: Option<string>, client: Client, ticks: int) returns (status: Status)
      requires limiter.Valid()
      modifies limiter
      ensures limiter.Valid()
      ensures limiter.events ==
              old(limiter.events) + if email.None? then [] else [Event(client.ip, Call(ticks, 3, 300))]
      ensures status == BadRequest <==> email.None?
      ensures status == Success <==> email.Some? && old(limiter.Admits(client.ip, Call(ticks, 3, 300)))
    {
      if email.None? {
        return BadRequest;
      }
      var allowed := limiter.IsAllowed(client.ip, 3, 300, ticks);
      if !allowed {
        return TooManyRequests;
      }
      return Success;
    }
  }

  // src/auth_middleware.cpp
  class AuthMiddleware {
    const cache: SessionCache
    const repo: SessionRepository

    constructor (cache: SessionCache, repo: SessionRepository)
      ensures this.cache == cache && this.repo == repo
    {
      this.cache, this.repo := cache, repo;
    }

    /**
      The verdict on a request.  A mismatch deletes the row and leaves the cache alone; only
      a request that passes authenticates the HTTP session, as the session's own user.
     */
    method Invoke(req: Request, session: HttpSession?, now: int, ok: bool) returns (verdict: Verdict)
      modifies repo, session
      ensures verdict == Judge(Lookup(cache.entries, req.cookie), req)
      ensures verdict == NoCookie <==> req.cookie == ""
      ensures verdict == UnknownSession <==> req.cookie != "" && req.cookie !in cache.entries
      ensures verdict == FingerprintMismatch <==>
        && req.cookie != "" && req.cookie in cache.entries
        && !(cache.entries[req.cookie].ipAddress == req.ip && cache.entries[req.cookie].userAgent == req.userAgent)
      ensures verdict == CsrfRejected <==>
        && req.cookie != "" && req.cookie in cache.entries
        && cache.entries[req.cookie].ipAddress == req.ip && cache.entries[req.cookie].userAgent == req.userAgent
        && req.verb in {Post, Put, Delete, Patch}
        && (req.csrfHeader == "" || req.csrfHeader != cache.entries[req.cookie].csrfToken)
      ensures verdict.Pass? ==> req.cookie in cache.entries && verdict.userId == cache.entries[req.cookie].userId
      ensures repo.rows == old(repo.rows) - (if verdict.FingerprintMismatch? && ok then {req.cookie} else {})
      ensures Store(repo.rows, cache.entries)
              == if verdict.FingerprintMismatch?
                 then Perform(Store(old(repo.rows), cache.entries), Mismatch(req.cookie, ok), now)
                 else Store(old(repo.rows), cache.entries)
      ensures session != null ==> session.attributes == if verdict.Pass?
                then old(session.attributes)["authenticated" := "true"]["user_id" := cache.entries[req.cookie].userId]
                else old(session.attributes)
    {
      if req.cookie == "" {
        return NoCookie;
      }
      var cached := cache.GetSession(req.cookie);
      if cached.None? {
        return UnknownSession;
      }
      var data := cached.value;
      PassIffFits(data, req);
      if data.ipAddress != req.ip || data.userAgent != req.userAgent {
        var _ := repo.DeleteSession(req.cookie, ok);
        return FingerprintMismatch;
      }
      if req.verb == Post || req.verb == Put || req.verb == Delete || req.verb == Patch {
        if req.csrfHeader == "" || req.csrfHeader != data.csrfToken {
          return CsrfRejected;
        }
      }
      if session != null {
        session.attributes := session.attributes["authenticated" := "true"];
        session.attributes := session.attributes["user_id" := data.userId];
      }
      return Pass(data.userId);
    }
  }
}
