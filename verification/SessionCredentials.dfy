/**
  Sessions go back to accepted credentials, by what was stored about their users when the
  login checked them.
 */
module SessionCredentials {
  import opened Credentials
  import opened SessionMachine
  import opened Sessions

  lemma StepKeepsChecks(s: State, a: Action)
    ensures Next(s, a).accounts.verify == s.accounts.verify && Next(s, a).accounts.mac == s.accounts.mac
  {
  }

  lemma {:induction false} ChecksNeverChange(s: State, actions: seq<Action>)
    ensures Run(s, actions).accounts.verify == s.accounts.verify && Run(s, actions).accounts.mac == s.accounts.mac
  {
    hide Next;
    if actions != [] {
      ChecksNeverChange(s, actions[..|actions| - 1]);
      StepKeepsChecks(Run(s, actions[..|actions| - 1]), actions[|actions| - 1]);
    }
  }

  /**
    Before action n a login went on past its insert, and what it had been shown was right for
    this user: the password of the stored, active account the identifier names, or a code of
    the secret stored for the user.
   */
  ghost predicate LoggedInWith(s: State, actions: seq<Action>, n: nat, i: nat, j: nat, t: string, b: Binding) {
    && LoggedIn(s, actions, n, i, j, t, b)
    && var accounts := Run(s, actions[..i]).accounts;
       Accepted(accounts.(verify := s.accounts.verify, mac := s.accounts.mac), actions[i].evidence, b.userId)
  }

  lemma LoggedInIsAccepted(s: State, actions: seq<Action>, n: nat, i: nat, j: nat, t: string, b: Binding)
    requires LoggedIn(s, actions, n, i, j, t, b)
    ensures LoggedInWith(s, actions, n, i, j, t, b)
  {
    hide Accepted, Run, LoginGoesOn;
    ChecksNeverChange(s, actions[..i]);
  }

  /**
    Whenever a request passes, in any interleaving and whatever happens to the accounts
    meanwhile: its session is one of an earlier life of the service, or the login that issued
    it, to the user the request passes as, had accepted that user's credentials.
   */
  lemma {:induction false} PassGoesBackToCredentials(c: Accounts, now: int, rows: Rows, actions: seq<Action>, n: nat)
    returns (b: Binding)
    requires n < |actions|
    requires Next(Run(Start(c, now, rows), actions[..n]), actions[n]).passed
             != Run(Start(c, now, rows), actions[..n]).passed
    ensures actions[n].Receive? && Fits(actions[n].req, b)
    ensures Next(Run(Start(c, now, rows), actions[..n]), actions[n]).passed
            == Run(Start(c, now, rows), actions[..n]).passed + [Passed(actions[n].req, b.userId)]
    ensures var t := actions[n].req.cookie;
            || (t in rows && BindingOf(MetaOf(rows[t])) == b)
            || exists i: nat, j: nat :: LoggedInWith(Start(c, now, rows), actions, n, i, j, t, b)
  {
    hide Next, Run, LoggedIn, LoggedInWith;
    b := PassedRequestsWereIssued(c, now, rows, actions, n);
    var t := actions[n].req.cookie;
    if !(t in rows && BindingOf(MetaOf(rows[t])) == b) {
      var i: nat, j: nat :| LoggedIn(Start(c, now, rows), actions, n, i, j, t, b);
      LoggedInIsAccepted(Start(c, now, rows), actions, n, i, j, t, b);
    }
  }
}
