/** What login and login_totp check before they issue a session. */
module Credentials {
  import opened Hotp
  import opened Users
  import Totp

  type Verifier = (string, string) -> bool

  // The password verifier and the HMAC, and the stored users and TOTP secrets, by user id.
  datatype Accounts = Accounts(
    verify: Verifier, mac: Mac, users: map<string, User>, secrets: map<string, string>)

  // What a client presents.
  datatype Evidence =
    | Password(ident: string, password: string)
    | SecondFactor(code: string, checkedAt: int)

  predicate Matches(user: User, ident: string) {
    user.loginName == ident || user.email == ident
  }

  predicate PasswordAccepted(verify: Verifier, user: User, password: string) {
    user.isActive && verify(password, user.passwordHash) && !user.mustPwdChange
  }

  /** The evidence is right for the user, by what is stored about this user. */
  ghost predicate Accepted(c: Accounts, e: Evidence, userId: string) {
    match e
    case Password(ident, password) =>
      userId in c.users && Matches(c.users[userId], ident) && PasswordAccepted(c.verify, c.users[userId], password)
    case SecondFactor(code, at) =>
      userId in c.secrets && Totp.Accepts(c.mac, c.secrets[userId], code, at)
  }
}
