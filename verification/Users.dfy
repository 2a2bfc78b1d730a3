/** Rows of table `users`, without the id, by which the tables of the other modules are keyed. */
module Users {
  datatype User = User(loginName: string, email: string, passwordHash: string, isActive: bool, mustPwdChange: bool)
}
