/** The registration form: its inputs are checked in screen order, the
    first empty one or a password mismatch stops the check with a message,
    and only a form that passes reaches `ProfileFactory.register_profile`. */
module Register {
  import opened Wrappers
  import Crypto
  import Secrets
  import Vault

  /** One input of the form: widget id, widget name, typed value. */
  datatype FormInput = FormInput(id: string, name: string, value: string)

  /** `Register.field_filled` */
  function FieldFilled(value: string): (filled: bool)
    ensures filled <==> value != []
  {
    value != ""
  }

  /** What the check of the inputs concludes: a field left empty (by its
      name), differing passwords, or the username and password to commit. */
  datatype Validation = Incomplete(name: string) | Mismatch | Complete(username: string, password: string)

  /** The check of `inputs` in order, `username` and `first` being what the
      inputs already passed have set. */
  function Validate(inputs: seq<FormInput>, username: string, first: string): Validation
    decreases |inputs|
  {
    if inputs == [] then Complete(username, first)
    else
      var input := inputs[0];
      if !FieldFilled(input.value) then Incomplete(input.name)
      else if input.id == "new_username" then Validate(inputs[1..], input.value, first)
      else if input.id == "new_password" then Validate(inputs[1..], username, input.value)
      else if input.id == "new_password_again" then
        (if first == input.value then Complete(username, first) else Mismatch)
      else Validate(inputs[1..], username, first)
  }

  /** The three inputs of the registration screen, in screen order. */
  function StandardForm(username: string, password: string, passwordAgain: string): seq<FormInput> {
    [FormInput("new_username", "username", username),
     FormInput("new_password", "password", password),
     FormInput("new_password_again", "password", passwordAgain)]
  }

  /** On the registration screen: the first empty field is reported (both
      password inputs are named "password"), then a mismatch, and only
      otherwise the username and the first password go on. */
  lemma StandardFormValidation(username: string, password: string, passwordAgain: string)
    ensures Validate(StandardForm(username, password, passwordAgain), "", "") ==
      if username == [] then Incomplete("username")
      else if password == [] then Incomplete("password")
      else if passwordAgain == [] then Incomplete("password")
      else if password != passwordAgain then Mismatch
      else Complete(username, password)
  {
    var form := StandardForm(username, password, passwordAgain);
    assert "new_password"[4] != "new_username"[4];
    assert "new_password_again"[4] != "new_username"[4];
    assert |"new_password_again"| != |"new_password"|;
    var rest := form[1..];
    assert rest == [form[1], form[2]] && rest[1..] == [form[2]];
    if username != [] {
      assert Validate(form, "", "") == Validate(rest, username, "");
      if password != [] {
        assert Validate(rest, username, "") == Validate(rest[1..], username, password);
      }
    }
  }

  /** Any field that stops the check is an empty one, and it is the first
      empty field of the inputs examined. */
  lemma {:induction false} IncompleteIsFirstEmpty(inputs: seq<FormInput>, username: string, first: string)
    requires Validate(inputs, username, first).Incomplete?
    ensures exists k | 0 <= k < |inputs| ::
      && inputs[k].value == [] && inputs[k].name == Validate(inputs, username, first).name
      && forall j | 0 <= j < k :: inputs[j].value != []
    decreases |inputs|
  {
    var input := inputs[0];
    if !FieldFilled(input.value) {
      assert inputs[0].value == [];
    } else {
      assert input.id != "new_password_again";
      var u := if input.id == "new_username" then input.value else username;
      var f := if input.id == "new_password" then input.value else first;
      assert Validate(inputs, username, first) == Validate(inputs[1..], u, f);
      IncompleteIsFirstEmpty(inputs[1..], u, f);
      var k :| 0 <= k < |inputs[1..]| && inputs[1..][k].value == []
        && inputs[1..][k].name == Validate(inputs[1..], u, f).name
        && forall j | 0 <= j < k :: inputs[1..][j].value != [];
      assert inputs[k + 1] == inputs[1..][k];
      forall j | 0 <= j < k + 1 ensures inputs[j].value != [] {
        if j > 0 {
          assert inputs[j] == inputs[1..][j - 1];
        }
      }
    }
  }

  /** `Register.commit`: register through the profile factory. */
  method Commit(v: Vault.Vault, username: string, password: string, draws: nat -> nat, hashSalt: seq<Crypto.byte>)
    returns (r: Result<Vault.Profile, Vault.AuthError>)
    modifies v
    ensures v.passwords == old(v.passwords)
    ensures username in old(v.accounts) ==> r == Failure(Vault.UsernameAlreadyExists) && v.accounts == old(v.accounts)
    ensures username !in old(v.accounts) ==>
      && r == Success(Vault.Profile(username, password, Secrets.MakeSalt(draws)))
      && v.accounts == old(v.accounts)[username := Vault.Account(v.crypto.hash(hashSalt, password), Secrets.MakeSalt(draws))]
  {
    r := v.RegisterProfile(username, password, draws, hashSalt);
  }

  /** What the register button leads to: the message shown, and the
      profile the table screen is opened with, if any. */
  datatype Response = Response(message: string, tableFor: Option<Vault.Profile>)

  /** `VerticalButtons.on_register`: check the inputs in order, then commit. */
  method OnRegister(v: Vault.Vault, inputs: seq<FormInput>, draws: nat -> nat, hashSalt: seq<Crypto.byte>)
    returns (response: Response)
    modifies v
    ensures v.passwords == old(v.passwords)
    ensures match Validate(inputs, "", "")
      case Incomplete(name) =>
        response == Response("Please fill " + name + " field", None) && v.accounts == old(v.accounts)
      case Mismatch =>
        response == Response("Passwords don't match", None) && v.accounts == old(v.accounts)
      case Complete(username, password) =>
        if username in old(v.accounts) then
          response == Response("Username already exists", None) && v.accounts == old(v.accounts)
        else
          var salt := Secrets.MakeSalt(draws);
          && response == Response("Account has been registered!", Some(Vault.Profile(username, password, salt)))
          && v.accounts == old(v.accounts)[username := Vault.Account(v.crypto.hash(hashSalt, password), salt)]
  {
    var username := "";
    var firstPassword := "";
    var i := 0;
    while i < |inputs|
      invariant 0 <= i <= |inputs|
      invariant Validate(inputs, "", "") == Validate(inputs[i..], username, firstPassword)
    {
      var input := inputs[i];
      assert inputs[i..][1..] == inputs[i + 1..];
      if !FieldFilled(input.value) {
        return Response("Please fill " + input.name + " field", None);
      }
      if input.id == "new_username" {
        username := input.value;
      } else if input.id == "new_password" {
        firstPassword := input.value;
      } else if input.id == "new_password_again" {
        if firstPassword == input.value {
          break;
        } else {
          return Response("Passwords don't match", None);
        }
      }
      i := i + 1;
    }
    var r := Commit(v, username, firstPassword, draws, hashSalt);
    if r.Success? {
      response := Response("Account has been registered!", Some(r.value));
    } else {
      response := Response("Username already exists", None);
    }
  }
}
