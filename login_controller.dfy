/** `LoginController.log_in`: the outcome of a login as a `Status` for the
    login screen. `Account.from_login` is the profile factory's login. */
module LoginController {
  import opened Wrappers
  import Vault

  /** The flag, the logged-in account if any, and the message to show. */
  datatype Status = Status(success: bool, account: Option<Vault.Profile>, message: string)

  function LogIn(v: Vault.Vault, username: string, password: string): (s: Status)
    reads v
    ensures s.success <==> v.LoginProfile(username, password).Success?
    ensures s.success ==>
      s == Status(true, Some(Vault.Profile(username, password, v.accounts[username].salt)), "Logging you in...")
    ensures username !in v.accounts ==> s == Status(false, None, "Username does not exist")
    ensures username in v.accounts && !s.success ==> s == Status(false, None, "Wrong Password")
  {
    match v.LoginProfile(username, password)
    case Success(account) => Status(true, Some(account), "Logging you in...")
    case Failure(error) =>
      if error == Vault.UsernameDoesNotExist then Status(false, None, "Username does not exist")
      else Status(false, None, "Wrong Password")
  }
}
