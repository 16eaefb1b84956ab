# password-manager: a Dafny model of the vault engine and its front ends

This project models the core of a small password manager. The manager keeps a
local database with two tables:

- `user_login` holds one row per account: name, argon2 hash of the master
  password, and a 16-character salt.
- `passwords` holds one row per stored login: (account, username, website)
  and the Fernet token of the login's password.

The key that encrypts an account's entries is never stored. It is recomputed
from the master password and the salt on every use.

The model covers:

- **The vault engine** (`ProfileFactory` and `Profile`): registration, login,
  listing, inserting, reading back, deleting entries, and deleting an account.
  - The database is the class `Vault.Vault`, with one map per table.
  - A `Profile` never changes after it is built, so it is a datatype.
  - argon2 and Fernet are function values in a `Crypto.Suite`. Three
    properties make them usable:
    - a password verifies against a hash only when it is the hashed password;
    - the encoded key-derivation output is longer than the 32 bytes taken
      from its tail;
    - decryption under the encrypting key returns the plaintext.
  - Each theorem that needs one of these properties takes it as a
    hypothesis. `Crypto.AxiomsSatisfiable` shows that all three can hold
    at once.
- **The entry table and fuzzy search**, in two forms:
  - the `Table` class, which numbers rows from 1 and returns the rows scoring
    above 0, stably sorted by non-increasing score;
  - its predecessor `Data`, whose unfiltered ranking the search screen then
    filters.

  The scorer is an abstract `Matcher`. `Ranking.PositiveOfSortDesc` proves
  the two pipelines show the same rows in the same order.
- **`TimeString`**: joins digit keypresses made within 400 ms of the first
  one into a single row number. The clock is a parameter.
- **The decision rules around the engine**:
  - the registration form's checks;
  - the login status messages;
  - verify-then-delete of an account;
  - the console menus: profile creation, login, numbered selection,
    the new-login wizard, entry deletion with username confirmation, and
    profile deletion with a typed confirmation.

  Console answers, random draws and nonces are parameters.

## Model

| member | source | states |
|---|---|---|
| Crypto.Suite.DeriveKey | src/model/register_model.py:44-57 | the key is a suffix of the encoded `hash_secret` output, at most 32 bytes, and exactly 32 when that output is longer |
| Crypto.AxiomsSatisfiable | src/model/register_model.py:145-155 | the hasher, key-derivation and cipher properties the vault relies on can all hold at once |
| Secrets.Choose | src/model/register_model.py:157-158 | `choice` repeated `length` times yields `length` characters, each from the alphabet |
| Secrets.MakeSalt | src/model/register_model.py:157-158 | the salt has 16 characters, each an ASCII letter or digit |
| Secrets.GeneratePassword | main.py:206 | the generated password has 30 characters, each from `string.printable` |
| Text.Lower | main.py:145 | `lower()` keeps the length, maps each character on its own, and leaves no capital letter |
| Text.Upper | main.py:314 | `upper()` keeps the length, maps each character on its own, and leaves no small letter |
| Text.LowerIs | main.py:145 | a text lower-cases to a given capital-free text iff each of its characters is that text's character or its capital |
| Text.UpperIs | main.py:314 | a text upper-cases to a given text without small letters iff each of its characters is that text's character or its small form |
| Text.LowerIsLetter | main.py:181 | a text lower-cases to one small letter iff it is that letter in either case |
| Text.NatToString | src/model/table.py:29-31 | `str(n)` is a non-empty digit string without a leading zero whose value is n |
| Text.ParseInt | main.py:149-150 | `int(inp)`: blank text raises (None), and a plain digit string reads as its decimal value; surrounding space, a sign and underscores between digits are also accepted |
| Text.ParseIntOfNatToString | main.py:149-153 | `int()` reads the number back from `str(n)` |
| Vault.Vault.constructor | start.py:31-35 | a fresh database has no accounts and no entries |
| Vault.Vault.SelectEntries | main.py:128 | the rows returned are the account's rows, each once, with their stored tokens, in some order |
| Vault.Vault.GetRecords | src/model/register_model.py:36-42 | a (website, username) pair is listed iff this account has an entry for it, and no pair is listed twice |
| Vault.Vault.Key | src/model/register_model.py:44-57 | the session key depends only on the password and salt, and is 32 bytes when the derivation output is long enough |
| Vault.Vault.EncryptPassword | src/model/register_model.py:84-86 | with a sound cipher, the session key decrypts the token back to the secret |
| Vault.Vault.GetPasswordAt | src/model/register_model.py:59-68 | a missing row is NotFound, and only then; DecryptionFailed exactly when the row exists and the session key rejects its token; otherwise the result is the decryption of the stored token under the session key |
| Vault.Vault.AddDetails | src/model/register_model.py:88-101 | a duplicate (account, username, website) fails with EntryAlreadyExist and changes nothing; otherwise exactly that one row is added |
| Vault.Vault.DeletePasswordAt | src/model/register_model.py:75-82 | exactly the row (account, username, website) is removed, a no-op when it is absent |
| Vault.Vault.VerifyPassword | src/model/register_model.py:111-121 | a mismatch is `false`, not an exception, and the result agrees with login |
| Vault.Vault.DeleteAccount | src/model/register_model.py:123-130 | every entry of the account and its account row go, other accounts' rows stay, and every later login reports UsernameDoesNotExist |
| Vault.Vault.RegisterProfile | src/model/register_model.py:160-184 | a taken name raises UsernameAlreadyExists and writes nothing; otherwise one account row (hash, fresh salt) is added and the profile carries name, cleartext password and that salt; with a sound hasher only that password logs in |
| Vault.Vault.LoginProfile | src/model/register_model.py:186-204 | UsernameDoesNotExist iff no row; WrongPassword iff the hash rejects the password; success iff the row exists and the hash accepts the password, and then the profile carries the stored salt; it never writes |
| Vault.Vault.LoginAdmitsOnlyRegisteredPassword | src/model/register_model.py:186-204 | with a sound hasher, the registered password logs in and every other one gets WrongPassword |
| Vault.Vault.SecretSurvivesRelogin | src/model/register_model.py:44-68 | a secret stored by one session is read back unchanged by any later session that logs in to the same account |
| Ranking.Positive | src/model/table.py:51-54 | the rows kept all score above 0 |
| Ranking.Insert | src/model/table.py:57 | inserting into a sorted sequence keeps it sorted, adding exactly one element |
| Ranking.SortDesc | src/model/table.py:57 | the result is in non-increasing score order, with the input's length |
| Ranking.SortDescPermutes | src/model/table.py:57 | the sort is a permutation (multiset equality) |
| Ranking.SortDescStable | src/model/table.py:57 | for every score, rows with that score keep their input order (stability of `sorted`) |
| Ranking.SortDescItems | src/table.py:83-90 | the sorted rows are the input rows, each as often as before |
| Ranking.PositiveOfSortDesc | src/table.py:260-263 | keeping scores above 0 after sorting equals sorting after keeping them |
| Ranking.PositivePreservesWithScore | src/model/table.py:51-57 | the filter drops no row with a positive score and keeps their order |
| Ranking.PositiveMembers | src/model/table.py:51-54 | every kept row was in the input and scores above 0 |
| Ranking.SortDescMembers | src/model/table.py:57 | the sort introduces no new rows |
| Rows.Enumerate | src/model/table.py:19-20 | `enumerate(records, 1)` numbers rows 1..n and keeps the records in order |
| Rows.MakeString | src/model/table.py:39-41 | the text a row is matched on: its ID, website and username joined by single spaces |
| Rows.ScoreRowsMembers | src/model/table.py:47-49 | each scored row carries the matcher's score of its joined text |
| Rows.ScoreRows | src/table.py:83-87 | scoring pairs each row with a score, keeping all rows in order |
| TableModel.Table.constructor | src/model/table.py:9-11 | a new table has no rows |
| TableModel.Table.PopulateTable | src/model/table.py:13-20 | the rows are replaced by the records numbered 1..n in input order |
| TableModel.Table.Generator | src/model/table.py:22-27 | the rows are yielded in order, unmodified |
| TableModel.Table.GetKey | src/model/table.py:29-31 | the key is the ID's decimal text, from which `int()` recovers the ID |
| TableModel.Table.GetFuzziedRecords | src/model/table.py:33-57 | the result holds exactly the rows scoring above 0, each once with its score, in non-increasing score order, stable on ties; the rows are not modified |
| TableModel.Table.AddRecord | src/model/table.py:59-68 | the new ID is len+1, the row is appended, and earlier rows and the numbering invariant are kept |
| TableScreen.Data.constructor | src/table.py:22-24 | a new helper has no records |
| TableScreen.Data.MakeTable | src/table.py:26-38 | the account's entries, numbered 1..n, are appended to `all_records` without clearing it |
| TableScreen.Data.RemakeRecords | src/table.py:40-47 | `all_records` is reset to the account's entries numbered 1..n |
| TableScreen.Data.AddRecord | src/table.py:49-53 | the new ID is len+1 and the row is appended |
| TableScreen.Data.DoFuzzy | src/table.py:69-90 | every row exactly once with its score, unfiltered, in non-increasing score order, stable on ties |
| TableScreen.OnMyTableFuzzied | src/table.py:248-263 | an empty query shows `all_records` in order; otherwise only rows scoring above 0, in ranked order, the same as the table model's search |
| TableScreen.ShowPositive | src/table.py:260-263 | the rows added back are exactly the ranked rows scoring above 0, in ranking order |
| TableScreen.ShownRowsMatch | src/table.py:260-263 | every row added back has a positive match score for the query |
| TableScreen.Next | src/table.py:194-210 | after a send the chunk is live and ends with the character sent |
| TableScreen.FirstSendFresh | src/table.py:179-210 | the first send after construction starts a chunk holding just that character |
| TableScreen.SendWithinOrAfterWindow | src/table.py:186-210 | within the timeout the character is appended and the start is kept; strictly after it the chunk restarts at `now` with just the character |
| TableScreen.ChunkWithinWindow | src/table.py:189-210 | sends within the window of the chunk start accumulate all characters and never move the start |
| TableScreen.FreshBurst | src/table.py:186-210 | a burst starting on an expired chunk, with every press within the timeout of the first, yields exactly the burst's characters |
| TableScreen.TimeString.constructor | src/table.py:179-184 | a new object has an empty, expired chunk |
| TableScreen.TimeString.Send | src/table.py:194-210 | the new state is the transition `Next` of the old one, and the result is the current chunk |
| Cli.Accepted | main.py:21-51 | an attempt is stored when its two passwords agree and its name is not yet taken |
| Cli.NewProfile | main.py:11-54 | the first attempt whose passwords agree and whose name is free is stored with its hash and a 16-character salt; earlier attempts write nothing; with a sound hasher only its password logs in |
| Cli.Login | main.py:57-83 | False when the row is missing or the password fails; otherwise (name, password, stored salt), agreeing with the profile factory's login |
| Cli.Line | main.py:133-135 | one prompt line: the number, then "Website/app:" with the website, then "Username:" with the username |
| Cli.Lines | main.py:130-135 | the lines of the entries in the order given, numbered from 1 |
| Cli.Classify | main.py:142-156 | `e` in any case exits; an integer in 1..counter selects; anything else re-prompts |
| Cli.ExitAnswers | main.py:145 | exactly the answers "e" and "E" leave a numbered prompt |
| Cli.FirstDecisive | main.py:142-156 | the index of the first answer the prompt does not refuse |
| Cli.SelectIndex | main.py:263-278 | the loop stops at the first accepted answer and reports it, or reports that the answers ran out |
| Cli.BuildPrompt | main.py:131-137 | the prompt is the numbered lines followed by the exit hint |
| Cli.LineShown | main.py:134-137 | entry k is shown on the line numbered k+1, website before username, after the lines of the entries before it |
| Cli.ShownNumberSelects | main.py:149-153 | typing a shown line number selects that line |
| Cli.RetrieveProfileMenu | main.py:121-174 | exit or out-of-input copies nothing; a selected entry is decrypted with the recomputed key, agreeing with `__get_password_at`; nothing is written |
| Cli.ChoiceAsWritten | main.py:203-212 | the password-choice answer as written: an empty answer raises |
| Cli.Cancels | main.py:180-184 | `cancel_wizard`: an answer cancels when it lower-cases to "c" |
| Cli.CancelAnswers | main.py:180-183 | exactly the answers "c" and "C" cancel the wizard |
| Cli.ChoiceOf | main.py:203-212 | the corrected reading: `c` cancels; otherwise a first letter `r`/`o` (either case) picks random/own and those picks need that letter; the empty answer is invalid |
| Cli.ChoiceAgreesWhereDefined | main.py:203-212 | the corrected reading agrees with the code wherever the code does not raise |
| Cli.EmptyChoiceRaises | main.py:205 | the empty answer raises in the code as written and re-prompts in the corrected reading |
| Cli.FirstChoice | main.py:199-212 | the index of the first answer that settles the password question |
| Cli.Wizard | main.py:186-212 | a completed wizard stores the first two answers as website and username, neither of which cancelled |
| Cli.WizardSecret | main.py:205-210 | a generated password is 30 printable characters; an own password is the answer typed after the choice |
| Cli.SaveLoginMenu | main.py:176-241 | a completed wizard inserts the encrypted secret under (account, username, website), or changes nothing if that row exists; the secret then reads back unchanged |
| Cli.DeleteLoginMenu | main.py:243-292 | deletes exactly the selected row, and only if the next answer equals its username; otherwise changes nothing |
| Cli.ConfirmationAnswers | main.py:314 | the confirmation is accepted iff it spells "delete account" letter by letter in either case |
| Cli.DeleteProfileMenu | main.py:294-327 | True, with every entry and the account row deleted, iff the password verifies and the upper-cased confirmation is DELETE ACCOUNT; otherwise False and nothing changes |
| Register.FieldFilled | src/register.py:22-23 | a field is filled iff it is not empty |
| Register.Validate | src/register.py:67-90 | the check of the inputs in screen order: the first empty one stops it, a username or first password is remembered, and the repeated password ends it with a match or a mismatch |
| Register.StandardFormValidation | src/register.py:62-98 | on the three-field screen: the first empty field is reported, then a mismatch, else username and first password are committed |
| Register.IncompleteIsFirstEmpty | src/register.py:67-71 | a check that stops on a field stops on the first empty field it examines |
| Register.Commit | src/register.py:25-29 | registration is delegated to the profile factory, with its duplicate-name outcome |
| Register.OnRegister | src/register.py:62-98 | an empty field or a mismatch gives its message and no write; otherwise the commit either opens the table for the new profile or reports "Username already exists" with no write |
| LoginController.LogIn | src/controller/login.py:7-15 | success iff the login succeeds, with the account and "Logging you in..."; otherwise "Username does not exist" or "Wrong Password" |
| DeleteAccount.DeleteController.constructor | src/screens/delete_account.py:9-10 | the controller holds the session |
| DeleteAccount.DeleteController.DeleteAccount | src/screens/delete_account.py:12-17 | true, with the account and its entries deleted, iff the password verifies; otherwise false and nothing changes |
| DeleteAccount.OnButtonPressed | src/screens/delete_account.py:41-51 | cancel dismisses with False and changes nothing; a verified submit dismisses with True after deleting the account row and exactly that account's entries, other rows kept; a failed one stays open with "Wrong password entered" and changes nothing |

## Left out

- argon2 and Fernet internals are not modelled: hashing, key derivation, base64 and the token format are abstract functions.
  - Text and bytes are one type: the UTF-8 `encode()`/`decode()` calls around them are not modelled.
  - `hash_secret` returns the encoded hash string, which is longer than 32 bytes. The key is its last 32 bytes, not a padded 30-byte raw digest.
- Vault.Vault.LoginProfile: treats every verification failure as WrongPassword. argon2's other errors (an invalid or corrupt stored hash) are not modelled.
- Vault.Vault.VerifyPassword: treats every verification failure as `false`. argon2's other errors (an invalid or corrupt stored hash) are not modelled.
- Vault.Vault.GetPasswordAt: a missing row is `NotFound` and a rejected token is `DecryptionFailed`. In the source these are an uncaught TypeError and an uncaught InvalidToken.
- Clipboard copies are not modelled (`copy_password_at`, `Data.copy_password`, `pyperclip` in the console). The secret that would be copied is returned instead.
- Data.delete_password and the table's key handling are not modelled. This includes `MyTable._on_key`, `action_copy` and `action_delete_entry`. They are widget glue around `delete_password_at`, `remake_records` and `TimeString.send`.
- Case mapping and `int()` are ASCII-only:
  - `lower()`/`upper()` change ASCII letters only;
  - `int()` accepts ASCII digits, underscores between digits, one sign, and surrounding `string.whitespace` or the separators 0x1C-0x1F; it rejects Unicode digits and non-ASCII spaces (such as 0x85 and 0xA0), which Python accepts.
- Randomness is not modelled as random:
  - `secrets.choice` is a function of index draws, so only the length and the character set of a salt or generated password are stated, not their distribution;
  - hash salts and Fernet nonces are parameters.
- Cli.NewProfile: attempt `i` uses the draws `draws(i)`. The source draws afresh on each call to `create_profile`.
- Cli.NewProfile: treats every insert failure as a taken name. The source catches any exception there.
- Cli.SaveLoginMenu: treats every insert failure as an existing (account, username, website) row.
- Cli.SaveLoginMenu: an empty answer to the random/own question re-prompts, through Cli.Wizard and Cli.ChoiceOf. The source raises IndexError there (see Findings); Cli.ChoiceAsWritten models that.
- Cli.RetrieveProfileMenu: a token the recomputed key rejects gives `Refused`. The source raises an uncaught InvalidToken at main.py:170.
- Vault.Vault.VerifyPassword, Cli.DeleteProfileMenu and DeleteAccount.DeleteController.DeleteAccount: require the account row to exist. The source reads it unchecked and raises TypeError without it (src/model/register_model.py:113, main.py:302). Every caller holds a logged-in session, whose row exists.
- Vault.Vault.constructor: starts with no accounts. Setup also inserts the account chosen during setup (start.py:37-41); that insert is a registration and is not modelled separately.
- Vault.Vault.SelectEntries: returns the rows in some order, because SQL fixes none.
- Database matters other than the two tables' contents are not modelled: connections, transactions, locking and I/O errors.
- The 400 ms window the table screen gives its TimeString (src/table.py:115) is the `timeout` parameter of `TableScreen.TimeString`, not a constant.
- TableScreen.TimeString.Send: takes one clock reading per send. The source reads the clock twice, once for the timeout check and once when restarting a chunk.
- The window is measured from the chunk's first character, as the code does. The comment at src/table.py:198 says "since last send".
- Match scores are reals: floating-point rounding, NaN and infinities are not modelled.
- The console's input/print/getpass loops are not modelled, nor is its top-level dispatch (main.py:86-119 and 329-354). Those dispatch lines also index `[0]` of possibly empty input.
- Console answers run out as `OutOfInput`, which writes nothing. The source would wait for more input.
- The Textual UI is not modelled: screens, widgets, focus, bindings and screen switching. The register screen's switch to the table is the `tableFor` profile of `Register.Response`.
- `helper.account.Account`, `helper.status.Status` and the `exceptions` module are not part of this model.
  - `LoginController.LogIn` uses the profile factory's login for `Account.from_login`.
  - `DeleteController` uses the vault's `VerifyPassword` and `DeleteAccount`.
  - A failed `Status` is taken to carry no account.

## Findings

| source | as written | input that shows it | evidently intended | confidence | as-written member | corrected member |
|---|---|---|---|---|---|---|
| main.py:205 | `pass_prompt_answer.lower()[0]` indexes the answer without checking that it is non-empty | pressing Enter (empty answer) at "Create random password (R) OR enter your own (O)?" raises IndexError and ends the program | treat the empty answer as invalid and ask again, like any other unrecognised answer | not executed | Cli.ChoiceAsWritten | Cli.ChoiceOf |
