/** The console front end: profile creation, login and the three entry
    menus, each working directly on the database. Console answers are
    parameters, consumed in order; when a menu would wait for an answer
    that is not there, it ends with `OutOfInput` and writes nothing. */
module Cli {
  import opened Wrappers
  import Text
  import Crypto
  import Secrets
  import Vault

  /** How a menu ended: the user left it, it completed with a value, it
      refused the request, or the answers ran out. */
  datatype MenuResult<T> = Exited | Done(value: T) | Refused | OutOfInput

  // ---------------------------------------------------------------- new_profile

  /** One pass through `create_profile`'s three prompts. */
  datatype Attempt = Attempt(name: string, password: string, passwordAgain: string)

  /** An attempt that `new_profile` stores: the two passwords agree and the
      name is not taken. */
  predicate Accepted(a: Attempt, accounts: map<string, Vault.Account>) {
    a.password == a.passwordAgain && a.name !in accounts
  }

  /** `new_profile`: re-prompt until the passwords agree and the name is
      free, then insert the account row. Attempt `i` hashes with
      `hashSalts(i)` and draws its salt from `draws(i)`. */
  method NewProfile(v: Vault.Vault, attempts: seq<Attempt>, draws: nat -> nat -> nat, hashSalts: nat -> seq<Crypto.byte>)
    returns (accepted: Option<nat>)
    modifies v
    ensures v.passwords == old(v.passwords)
    ensures accepted.None? ==>
      && v.accounts == old(v.accounts)
      && forall k | 0 <= k < |attempts| :: !Accepted(attempts[k], old(v.accounts))
    ensures accepted.Some? ==>
      var i := accepted.value;
      && i < |attempts|
      && Accepted(attempts[i], old(v.accounts))
      && (forall k | 0 <= k < i :: !Accepted(attempts[k], old(v.accounts)))
      && v.accounts == old(v.accounts)[attempts[i].name :=
           Vault.Account(v.crypto.hash(hashSalts(i), attempts[i].password), Secrets.MakeSalt(draws(i)))]
    ensures accepted.Some? && v.crypto.HasherSound() ==>
      var a := attempts[accepted.value];
      forall q :: v.LoginProfile(a.name, q).Success? <==> q == a.password
  {
    var i := 0;
    while i < |attempts|
      invariant 0 <= i <= |attempts|
      invariant v.accounts == old(v.accounts) && v.passwords == old(v.passwords)
      invariant forall k | 0 <= k < i :: !Accepted(attempts[k], old(v.accounts))
    {
      var a := attempts[i];
      if a.password == a.passwordAgain {
        var passwordHash := v.crypto.hash(hashSalts(i), a.password);
        var salt := Secrets.MakeSalt(draws(i));
        if a.name !in v.accounts {
          v.accounts := v.accounts[a.name := Vault.Account(passwordHash, salt)];
          if v.crypto.HasherSound() {
            forall q ensures v.LoginProfile(a.name, q).Success? <==> q == a.password {
              v.LoginAdmitsOnlyRegisteredPassword(a.name, hashSalts(i), a.password, q);
            }
          }
          return Some(i);
        }
      }
      i := i + 1;
    }
    accepted := None;
  }

  // ---------------------------------------------------------------- login

  /** `login`: the session triple when the account exists and the password
      verifies, otherwise nothing; it never writes. */
  function Login(v: Vault.Vault, accountName: string, password: string): (r: Option<Vault.Profile>)
    reads v
    ensures accountName !in v.accounts ==> r == None
    ensures accountName in v.accounts ==>
      (r.Some? <==> v.crypto.verify(v.accounts[accountName].passwordHash, password))
    ensures r.Some? ==> r.value == Vault.Profile(accountName, password, v.accounts[accountName].salt)
    ensures r.Some? <==> v.LoginProfile(accountName, password).Success?
    ensures r.Some? ==> r.value == v.LoginProfile(accountName, password).value
  {
    if accountName !in v.accounts then None
    else
      var row := v.accounts[accountName];
      if v.crypto.verify(row.passwordHash, password) then Some(Vault.Profile(accountName, password, row.salt))
      else None
  }

  // ---------------------------------------------------------------- selection

  /** The reading of one answer at a numbered prompt: `e` (any case) leaves,
      an integer in 1..counter picks that line, anything else re-prompts. */
  datatype Pick = Exit | Chosen(n: nat) | Retry

  function Classify(answer: string, counter: nat): (p: Pick)
    ensures p == Exit <==> Text.Lower(answer) == "e"
    ensures p.Chosen? ==> 1 <= p.n <= counter && Text.ParseInt(answer) == Some(p.n)
    ensures (Text.Lower(answer) != "e" && Text.ParseInt(answer).Some? && 1 <= Text.ParseInt(answer).value <= counter)
            ==> p.Chosen?
  {
    if Text.Lower(answer) == "e" then Exit
    else match Text.ParseInt(answer)
      case Some(n) => if 1 <= n <= counter then Chosen(n) else Retry
      case None => Retry
  }

  /** Exactly the answers "e" and "E" leave a numbered prompt. */
  lemma ExitAnswers(answer: string)
    ensures Classify(answer, 0) == Exit <==> answer == "e" || answer == "E"
  {
    Text.LowerIsLetter(answer, 'e');
  }

  /** The index of the first answer from `from` on that the prompt does not
      refuse, or `|answers|` if every one is refused. */
  function FirstDecisive(answers: seq<string>, from: nat, counter: nat): (i: nat)
    requires from <= |answers|
    ensures from <= i <= |answers|
    ensures forall k | from <= k < i :: Classify(answers[k], counter) == Retry
    ensures i < |answers| ==> Classify(answers[i], counter) != Retry
    decreases |answers| - from
  {
    if from == |answers| then from
    else
      var here := Classify(answers[from], counter);
      if here != Retry then from
      else
        var i := FirstDecisive(answers, from + 1, counter);
        assert forall k | from + 1 <= k < i :: Classify(answers[k], counter) == Retry;
        i
  }

  /** The `while True` selection loop: the first answer that is not refused
      decides, and `used` answers are consumed. `Retry` here means the
      answers ran out. */
  method SelectIndex(answers: seq<string>, counter: nat) returns (pick: Pick, used: nat)
    ensures var i := FirstDecisive(answers, 0, counter);
      if i < |answers| then pick == Classify(answers[i], counter) && used == i + 1
      else pick == Retry && used == |answers|
  {
    var i := 0;
    while i < |answers|
      invariant 0 <= i <= |answers|
      invariant FirstDecisive(answers, i, counter) == FirstDecisive(answers, 0, counter)
    {
      var inp := answers[i];
      if Text.Lower(inp) == "e" {
        assert Classify(inp, counter) == Exit;
        return Exit, i + 1;
      }
      var parsed := Text.ParseInt(inp);
      if parsed.Some? && 1 <= parsed.value <= counter {
        assert Classify(inp, counter) == Chosen(parsed.value);
        return Chosen(parsed.value), i + 1;
      }
      assert Classify(inp, counter) == Retry;
      i := i + 1;
    }
    return Retry, |answers|;
  }

  /** One line of the selection prompt: number, then website, then username. */
  function Line(number: nat, e: Vault.Entry): string {
    Text.NatToString(number) + ". Website/app: " + e.key.website + " // Username: " + e.key.username + "\n"
  }

  const Footer: string := "\nPress 'E' to exit"

  /** The lines for `entries`, numbered from 1 in the order given. */
  function Lines(entries: seq<Vault.Entry>): string
    decreases |entries|
  {
    if entries == [] then "" else Lines(entries[..|entries| - 1]) + Line(|entries|, entries[|entries| - 1])
  }

  /** Build the selection prompt with a running counter. */
  method BuildPrompt(entries: seq<Vault.Entry>) returns (prompt: string)
    ensures prompt == Lines(entries) + Footer
  {
    prompt := "";
    var counter := 0;
    while counter < |entries|
      invariant 0 <= counter <= |entries|
      invariant prompt == Lines(entries[..counter])
    {
      var record := entries[counter];
      counter := counter + 1;
      assert entries[..counter][..counter - 1] == entries[..counter - 1];
      prompt := prompt + Line(counter, record);
    }
    assert entries[..counter] == entries;
    prompt := prompt + Footer;
  }

  lemma {:induction false} LinesPrefix(entries: seq<Vault.Entry>, j: nat)
    requires j <= |entries|
    ensures Lines(entries[..j]) <= Lines(entries)
    decreases |entries|
  {
    if j < |entries| {
      var shorter := entries[..|entries| - 1];
      assert shorter[..j] == entries[..j];
      LinesPrefix(shorter, j);
    } else {
      assert entries[..j] == entries;
    }
  }

  /** Entry `k` (from 0) is shown on the line numbered k + 1, right after
      the lines of the entries before it. */
  lemma LineShown(entries: seq<Vault.Entry>, k: nat)
    requires k < |entries|
    ensures Lines(entries[..k]) + Line(k + 1, entries[k]) <= Lines(entries)
  {
    var upTo := entries[..k + 1];
    assert upTo[..|upTo| - 1] == entries[..k];
    assert upTo[|upTo| - 1] == entries[k];
    assert Lines(upTo) == Lines(entries[..k]) + Line(k + 1, entries[k]);
    LinesPrefix(entries, k + 1);
  }

  /** Typing the number a line shows selects that line. */
  lemma ShownNumberSelects(entries: seq<Vault.Entry>, k: nat)
    requires k < |entries|
    ensures Classify(Text.NatToString(k + 1), |entries|) == Chosen(k + 1)
  {
    var s := Text.NatToString(k + 1);
    Text.ParseIntOfNatToString(k + 1);
    assert Text.Lower(s)[0] == s[0];
  }

  // ---------------------------------------------------------------- retrieve

  /** `retrieve_profile_menu`: list the account's entries, read a selection,
      and decrypt the chosen entry with the key recomputed from the
      session's password and salt. A token the key rejects raises, which is
      `Refused` here. Nothing is written. */
  method RetrieveProfileMenu(v: Vault.Vault, p: Vault.Profile, answers: seq<string>)
    returns (prompt: string, listed: seq<Vault.Entry>, r: MenuResult<string>)
    ensures v.Lists(p.account, listed)
    ensures prompt == Lines(listed) + Footer
    ensures var i := FirstDecisive(answers, 0, |listed|);
      && (i == |answers| ==> r == OutOfInput)
      && (i < |answers| && Classify(answers[i], |listed|) == Exit ==> r == Exited)
      && (i < |answers| && Classify(answers[i], |listed|).Chosen? ==>
            var e := listed[Classify(answers[i], |listed|).n - 1];
            && (r.Done? || r == Refused)
            && (r.Done? <==> v.crypto.decrypt(v.Key(p), e.encryptedPassword).Some?)
            && (r.Done? ==> v.GetPasswordAt(p, e.key.website, e.key.username) == Success(r.value)))
  {
    listed := v.SelectEntries(p.account);
    prompt := BuildPrompt(listed);
    var pick, used := SelectIndex(answers, |listed|);
    match pick
    case Exit => r := Exited;
    case Retry => r := OutOfInput;
    case Chosen(n) =>
      var record := listed[n - 1];
      assert record.key == Vault.EntryKey(p.account, record.key.username, record.key.website);
      assert record.key in v.passwords && v.passwords[record.key] == record.encryptedPassword;
      match v.crypto.decrypt(v.Key(p), record.encryptedPassword)
      case Some(secret) => r := Done(secret);
      case None => r := Refused;
  }

  // ---------------------------------------------------------------- save

  /** An answer that cancels the wizard. */
  predicate Cancels(answer: string) {
    Text.Lower(answer) == "c"
  }

  /** Exactly the answers "c" and "C" cancel the wizard. */
  lemma CancelAnswers(answer: string)
    ensures Cancels(answer) <==> answer == "c" || answer == "C"
  {
    Text.LowerIsLetter(answer, 'c');
  }

  /** The answer to "random (R) or own (O) password?". */
  datatype Choice = Cancel | Random | Own | Invalid

  /** `pass_prompt_answer.lower()[0]` as written: an empty answer that does
      not cancel raises IndexError, which is `None` here. */
  function ChoiceAsWritten(answer: string): (c: Option<Choice>)
    ensures c == None <==> answer == []
  {
    if Cancels(answer) then Some(Cancel)
    else if answer == [] then None
    else if Text.LowerChar(answer[0]) == 'r' then Some(Random)
    else if Text.LowerChar(answer[0]) == 'o' then Some(Own)
    else Some(Invalid)
  }

  /** The reading the wizard uses: as written, except that an empty answer
      is invalid and re-prompts instead of raising. */
  function ChoiceOf(answer: string): (c: Choice)
    ensures c == Cancel <==> Cancels(answer)
    ensures answer == [] ==> c == Invalid
    ensures c == Random ==> answer != [] && Text.LowerChar(answer[0]) == 'r'
    ensures c == Own ==> answer != [] && Text.LowerChar(answer[0]) == 'o'
    ensures answer != [] && !Cancels(answer) && Text.LowerChar(answer[0]) == 'r' ==> c == Random
    ensures answer != [] && !Cancels(answer) && Text.LowerChar(answer[0]) == 'o' ==> c == Own
  {
    if Cancels(answer) then Cancel
    else if answer != [] && Text.LowerChar(answer[0]) == 'r' then Random
    else if answer != [] && Text.LowerChar(answer[0]) == 'o' then Own
    else Invalid
  }

  /** The two readings agree on every answer the code as written can
      handle; on the empty answer, the one it cannot, the wizard re-prompts. */
  lemma ChoiceAgreesWhereDefined(answer: string)
    ensures ChoiceAsWritten(answer).Some? ==> ChoiceAsWritten(answer) == Some(ChoiceOf(answer))
    ensures ChoiceAsWritten(answer).None? ==> ChoiceOf(answer) == Invalid
  {
  }

  /** The empty answer makes the code as written raise. */
  lemma EmptyChoiceRaises()
    ensures ChoiceAsWritten("") == None
    ensures ChoiceOf("") == Invalid
  {
  }

  /** The index of the first answer from `from` on that settles the
      password question, or `|answers|`. */
  function FirstChoice(answers: seq<string>, from: nat): (j: nat)
    requires from <= |answers|
    ensures from <= j <= |answers|
    ensures forall k | from <= k < j :: ChoiceOf(answers[k]) == Invalid
    ensures j < |answers| ==> ChoiceOf(answers[j]) != Invalid
    decreases |answers| - from
  {
    if from == |answers| || ChoiceOf(answers[from]) != Invalid then from
    else FirstChoice(answers, from + 1)
  }

  /** What the user asked the wizard to store. */
  datatype NewLogin = NewLogin(website: string, username: string, secret: string)

  /** The wizard's dialogue: website, username, then the password question
      until it is settled, then (for "own") the password itself. */
  function Wizard(answers: seq<string>, draws: nat -> nat): (w: MenuResult<NewLogin>)
    ensures w != Refused
    ensures w.Done? ==> |answers| >= 3 && w.value.website == answers[0] && w.value.username == answers[1]
    ensures w.Done? ==> !Cancels(answers[0]) && !Cancels(answers[1])
  {
    if |answers| < 1 then OutOfInput
    else if Cancels(answers[0]) then Exited
    else if |answers| < 2 then OutOfInput
    else if Cancels(answers[1]) then Exited
    else
      var j := FirstChoice(answers, 2);
      if j == |answers| then OutOfInput
      else if ChoiceOf(answers[j]) == Cancel then Exited
      else if ChoiceOf(answers[j]) == Random then Done(NewLogin(answers[0], answers[1], Secrets.GeneratePassword(draws)))
      else if j + 1 < |answers| then Done(NewLogin(answers[0], answers[1], answers[j + 1]))
      else OutOfInput
  }

  /** A password the wizard generates is 30 characters of `string.printable`;
      one the user types is taken as typed. */
  lemma WizardSecret(answers: seq<string>, draws: nat -> nat)
    requires Wizard(answers, draws).Done?
    ensures var j := FirstChoice(answers, 2);
      var secret := Wizard(answers, draws).value.secret;
      && j < |answers|
      && (ChoiceOf(answers[j]) == Random ==>
            |secret| == Secrets.GeneratedLength && forall c | c in secret :: c in Text.Printable)
      && (ChoiceOf(answers[j]) == Own ==> j + 1 < |answers| && secret == answers[j + 1])
  {
  }

  /** `save_login_menu`: run the wizard, encrypt the secret with the
      session's key and insert the entry; an insert that fails leaves the
      database as it was. */
  method SaveLoginMenu(v: Vault.Vault, p: Vault.Profile, answers: seq<string>, draws: nat -> nat, nonce: nat)
    returns (r: MenuResult<NewLogin>)
    modifies v
    ensures v.accounts == old(v.accounts)
    ensures var w := Wizard(answers, draws);
      if !w.Done? then r == w && v.passwords == old(v.passwords)
      else
        var key := Vault.EntryKey(p.account, w.value.username, w.value.website);
        if key in old(v.passwords) then r == Refused && v.passwords == old(v.passwords)
        else r == w && v.passwords == old(v.passwords)[key := v.EncryptPassword(p, nonce, w.value.secret)]
    ensures r.Done? && v.crypto.CipherSound() ==>
      v.GetPasswordAt(p, r.value.website, r.value.username) == Success(r.value.secret)
  {
    if |answers| < 1 {
      return OutOfInput;
    }
    var website := answers[0];
    if Cancels(website) {
      return Exited;
    }
    if |answers| < 2 {
      return OutOfInput;
    }
    var username := answers[1];
    if Cancels(username) {
      return Exited;
    }
    var i := 2;
    while i < |answers| && ChoiceOf(answers[i]) == Invalid
      invariant 2 <= i <= |answers|
      invariant forall k | 2 <= k < i :: ChoiceOf(answers[k]) == Invalid
    {
      i := i + 1;
    }
    assert i == FirstChoice(answers, 2);
    if i == |answers| {
      return OutOfInput;
    }
    var choice := ChoiceOf(answers[i]);
    var loginPassword: string;
    if choice == Cancel {
      return Exited;
    } else if choice == Random {
      loginPassword := Secrets.GeneratePassword(draws);
    } else {
      if i + 1 == |answers| {
        return OutOfInput;
      }
      loginPassword := answers[i + 1];
    }
    var token := v.EncryptPassword(p, nonce, loginPassword);
    var inserted := v.AddDetails(p, username, website, token);
    if inserted.Pass? {
      r := Done(NewLogin(website, username, loginPassword));
    } else {
      r := Refused;
    }
  }

  // ---------------------------------------------------------------- delete entry

  /** `delete_login_menu`: list the account's entries, read a selection,
      then delete the chosen row only if the next answer repeats its
      username exactly. */
  method DeleteLoginMenu(v: Vault.Vault, account: string, answers: seq<string>)
    returns (prompt: string, listed: seq<Vault.Entry>, r: MenuResult<Vault.EntryKey>)
    modifies v
    ensures v.accounts == old(v.accounts)
    ensures old(v.Lists(account, listed))
    ensures prompt == Lines(listed) + Footer
    ensures !r.Done? ==> v.passwords == old(v.passwords)
    ensures r.Done? ==>
      && r.value in old(v.passwords) && r.value.account == account
      && v.passwords == old(v.passwords) - {r.value}
    ensures var i := FirstDecisive(answers, 0, |listed|);
      && (i == |answers| ==> r == OutOfInput)
      && (i < |answers| && Classify(answers[i], |listed|) == Exit ==> r == Exited)
      && (i < |answers| && Classify(answers[i], |listed|).Chosen? ==>
            var e := listed[Classify(answers[i], |listed|).n - 1];
            if i + 1 == |answers| then r == OutOfInput
            else if answers[i + 1] == e.key.username then r == Done(e.key)
            else r == Refused)
  {
    listed := v.SelectEntries(account);
    prompt := BuildPrompt(listed);
    var pick, used := SelectIndex(answers, |listed|);
    match pick
    case Exit => r := Exited;
    case Retry => r := OutOfInput;
    case Chosen(n) =>
      var record := listed[n - 1];
      if used == |answers| {
        r := OutOfInput;
      } else if record.key.username == answers[used] {
        v.passwords := v.passwords - {Vault.EntryKey(account, record.key.username, record.key.website)};
        r := Done(record.key);
      } else {
        r := Refused;
      }
  }

  // ---------------------------------------------------------------- delete profile

  const DeleteConfirmation: string := "DELETE ACCOUNT"

  /** The confirmation is accepted exactly when it spells "delete account"
      letter by letter in either case. */
  lemma ConfirmationAnswers(confirmation: string)
    ensures Text.Upper(confirmation) == DeleteConfirmation <==>
      && |confirmation| == |DeleteConfirmation|
      && forall i | 0 <= i < |confirmation| ::
           confirmation[i] == DeleteConfirmation[i] || confirmation[i] == Text.LowerChar(DeleteConfirmation[i])
  {
    Text.UpperIs(confirmation, DeleteConfirmation);
  }

  /** `delete_profile_menu`: with the right master password and the
      confirmation phrase (any case), delete every entry of the account and
      then its account row, and report True; otherwise change nothing and
      report False. The source reads the account row unchecked, so it must
      exist. */
  method DeleteProfileMenu(v: Vault.Vault, account: string, password: string, confirmation: string)
    returns (status: bool)
    requires account in v.accounts
    modifies v
    ensures status <==>
      old(v.LoginProfile(account, password)).Success? && Text.Upper(confirmation) == DeleteConfirmation
    ensures status ==>
      && v.passwords == (map k | k in old(v.passwords) && k.account != account :: old(v.passwords)[k])
      && v.accounts == old(v.accounts) - {account}
      && v.Owned(account) == {}
      && forall q :: v.LoginProfile(account, q) == Failure(Vault.UsernameDoesNotExist)
    ensures !status ==> v.passwords == old(v.passwords) && v.accounts == old(v.accounts)
  {
    status := false;
    var passwordHash := v.accounts[account].passwordHash;
    if v.crypto.verify(passwordHash, password) {
      if Text.Upper(confirmation) == DeleteConfirmation {
        v.passwords := map k | k in v.passwords && k.account != account :: v.passwords[k];
        v.accounts := v.accounts - {account};
        status := true;
      }
    }
  }
}
