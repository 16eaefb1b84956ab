/** Deleting one's own account from the entry screen: the master password
    is verified first, and only then are the account and its entries
    removed. */
module DeleteAccount {
  import Vault

  class DeleteController {
    /** The logged-in session. */
    const account: Vault.Profile
    const vault: Vault.Vault

    constructor(account: Vault.Profile, vault: Vault.Vault)
      ensures this.account == account && this.vault == vault
    {
      this.account := account;
      this.vault := vault;
    }

    /** `delete_account`: true, with the account and every entry of it
        deleted, exactly when the typed password verifies; otherwise false
        and nothing changes. The account row must exist, as
        `verify_password` reads it unchecked. */
    method DeleteAccount(inputPassword: string) returns (deleted: bool)
      requires account.account in vault.accounts
      modifies vault
      ensures deleted <==> old(vault.LoginProfile(account.account, inputPassword)).Success?
      ensures deleted ==>
        && vault.passwords == (map k | k in old(vault.passwords) && k.account != account.account :: old(vault.passwords)[k])
        && vault.accounts == old(vault.accounts) - {account.account}
      ensures !deleted ==> vault.passwords == old(vault.passwords) && vault.accounts == old(vault.accounts)
    {
      if vault.VerifyPassword(account, inputPassword) {
        vault.DeleteAccount(account);
        deleted := true;
      } else {
        deleted := false;
      }
    }
  }

  /** The two buttons of the confirmation screen. */
  datatype Button = SubmitButton | CancelButton

  /** What the screen does: close with a result, or stay open with a
      message. */
  datatype ScreenOutcome = Dismissed(result: bool) | ShowInfo(text: string)

  /** `DeleteAccountScreen.on_button_pressed` */
  method OnButtonPressed(controller: DeleteController, button: Button, typed: string) returns (outcome: ScreenOutcome)
    requires controller.account.account in controller.vault.accounts
    modifies controller.vault
    ensures button == CancelButton ==>
      && outcome == Dismissed(false)
      && controller.vault.passwords == old(controller.vault.passwords)
      && controller.vault.accounts == old(controller.vault.accounts)
    ensures button == SubmitButton ==>
      var verified := old(controller.vault.LoginProfile(controller.account.account, typed)).Success?;
      && (verified ==>
            && outcome == Dismissed(true)
            && controller.vault.passwords ==
                 (map k | k in old(controller.vault.passwords) && k.account != controller.account.account
                    :: old(controller.vault.passwords)[k])
            && controller.vault.accounts == old(controller.vault.accounts) - {controller.account.account})
      && (!verified ==>
            && outcome == ShowInfo("Wrong password entered")
            && controller.vault.passwords == old(controller.vault.passwords)
            && controller.vault.accounts == old(controller.vault.accounts))
  {
    if button == SubmitButton {
      var result := controller.DeleteAccount(typed);
      if result {
        outcome := Dismissed(result);
      } else {
        outcome := ShowInfo("Wrong password entered");
      }
    } else {
      outcome := Dismissed(false);
    }
  }
}
