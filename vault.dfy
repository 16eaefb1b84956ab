/** The credential vault engine: `ProfileFactory` (registration and login)
    and `Profile` (one logged-in account's entries) over the two tables of the
    password database.

    The database is the class `Vault`: `accounts` is the `user_login` table
    keyed by `account_name`, `passwords` is the `passwords` table keyed by
    (`account_name`, `username`, `website`). A `Profile` never changes after
    construction, so it is a value; each of its methods becomes a `Vault`
    member that takes the profile as its first argument, and each
    `ProfileFactory` method a `Vault` member of the same name. */
module Vault {
  import opened Wrappers
  import Crypto
  import Secrets

  /** A row of `user_login` without its key. */
  datatype Account = Account(passwordHash: string, salt: string)

  /** The primary key of a `passwords` row. */
  datatype EntryKey = EntryKey(account: string, username: string, website: string)

  /** A whole `passwords` row, as `SELECT *` returns it. */
  datatype Entry = Entry(key: EntryKey, encryptedPassword: string)

  /** A row of `get_records`: (website, username). */
  datatype Record = Record(website: string, username: string)

  /** An authenticated session: account name, cleartext master password, salt. */
  datatype Profile = Profile(account: string, password: string, salt: string)

  /** The exceptions `ProfileFactory` raises. */
  datatype AuthError = UsernameAlreadyExists | UsernameDoesNotExist | WrongPassword

  /** `EntryAlreadyExist`, and the two failures of reading an entry back: no
      such row (a TypeError on `fetchone()[0]` in the source) and a token
      Fernet rejects (InvalidToken). */
  datatype EntryError = EntryAlreadyExist | NotFound | DecryptionFailed

  class Vault {
    /** Table `user_login`. */
    var accounts: map<string, Account>
    /** Table `passwords`: the Fernet token of each entry, as text. */
    var passwords: map<EntryKey, string>
    /** The hashing and encryption libraries. */
    const crypto: Crypto.Suite

    constructor(crypto: Crypto.Suite)
      ensures this.crypto == crypto
      ensures accounts == map[] && passwords == map[]
    {
      this.crypto := crypto;
      accounts := map[];
      passwords := map[];
    }

    /** The keys of the entries owned by `account`. */
    ghost function Owned(account: string): set<EntryKey>
      reads this
    {
      set k | k in passwords && k.account == account
    }

    /** `rows` holds every row of `account`, each exactly once, with its
        stored token, in some order. */
    ghost predicate Lists(account: string, rows: seq<Entry>)
      reads this
    {
      && (forall i | 0 <= i < |rows| ::
            rows[i].key in passwords && rows[i].key.account == account
            && rows[i].encryptedPassword == passwords[rows[i].key])
      && (forall i, j | 0 <= i < j < |rows| :: rows[i].key != rows[j].key)
      && (forall k | k in passwords && k.account == account ::
            exists i | 0 <= i < |rows| :: rows[i].key == k)
    }

    /** `SELECT * FROM passwords WHERE account_name = ?`: every row of the
        account exactly once, in an order SQL leaves unspecified. */
    method SelectEntries(account: string) returns (rows: seq<Entry>)
      ensures Lists(account, rows)
    {
      var remaining := set k | k in passwords && k.account == account;
      rows := [];
      while remaining != {}
        invariant remaining <= Owned(account)
        invariant forall i | 0 <= i < |rows| ::
          rows[i].key in Owned(account) - remaining && rows[i].encryptedPassword == passwords[rows[i].key]
        invariant forall i, j | 0 <= i < j < |rows| :: rows[i].key != rows[j].key
        invariant forall k | k in Owned(account) - remaining :: exists i | 0 <= i < |rows| :: rows[i].key == k
        decreases remaining
      {
        var k :| k in remaining;
        ghost var before, remainingBefore := rows, remaining;
        rows := rows + [Entry(k, passwords[k])];
        remaining := remaining - {k};
        forall listed | listed in Owned(account) - remaining
          ensures exists i | 0 <= i < |rows| :: rows[i].key == listed
        {
          if listed == k {
            assert rows[|rows| - 1].key == listed;
          } else {
            assert listed in Owned(account) - remainingBefore;
            var i :| 0 <= i < |before| && before[i].key == listed;
            assert rows[i].key == listed;
          }
        }
      }
      forall k | k in passwords && k.account == account
        ensures exists i | 0 <= i < |rows| :: rows[i].key == k
      {
        assert k in Owned(account) - remaining;
      }
    }

    /** `Profile.get_records`: the (website, username) pairs of exactly this
        account's entries, each once. */
    method GetRecords(p: Profile) returns (records: seq<Record>)
      ensures forall r: Record :: r in records <==> EntryKey(p.account, r.username, r.website) in passwords
      ensures forall i, j | 0 <= i < j < |records| :: records[i] != records[j]
    {
      var rows := SelectEntries(p.account);
      records := seq(|rows|, i requires 0 <= i < |rows| => Record(rows[i].key.website, rows[i].key.username));
      forall r: Record | EntryKey(p.account, r.username, r.website) in passwords
        ensures r in records
      {
        var i :| 0 <= i < |rows| && rows[i].key == EntryKey(p.account, r.username, r.website);
        assert records[i] == r;
      }
    }

    /** `Profile.__get_hash` / `__get_key`: the Fernet key of a session,
        recomputed from its password and salt on every use. */
    function Key(p: Profile): (key: Crypto.Key)
      ensures crypto.KdfOutputLong() ==> |key| == Crypto.KeyLength
    {
      crypto.DeriveKey(p.password, p.salt)
    }

    /** `Profile.encrypt_password`: a token that the session's key decrypts
        back to the secret. */
    function EncryptPassword(p: Profile, nonce: nat, secret: string): (token: string)
      ensures crypto.CipherSound() ==> crypto.decrypt(Key(p), token) == Some(secret)
    {
      crypto.encrypt(Key(p), nonce, secret)
    }

    /** `Profile.__get_password_at`: the decrypted secret of one of this
        account's entries. */
    function GetPasswordAt(p: Profile, website: string, username: string): (r: Result<string, EntryError>)
      reads this
      ensures r == Failure(NotFound) <==> EntryKey(p.account, username, website) !in passwords
      ensures r.Success? ==>
        var key := EntryKey(p.account, username, website);
        key in passwords && crypto.decrypt(Key(p), passwords[key]) == Some(r.value)
      ensures var key := EntryKey(p.account, username, website);
        r == Failure(DecryptionFailed) <==> key in passwords && crypto.decrypt(Key(p), passwords[key]).None?
      ensures r != Failure(EntryAlreadyExist)
    {
      var key := EntryKey(p.account, username, website);
      if key !in passwords then Failure(NotFound)
      else
        match crypto.decrypt(Key(p), passwords[key])
        case Some(secret) => Success(secret)
        case None => Failure(DecryptionFailed)
    }

    /** `Profile.add_details`: insert one entry of this account, or raise
        EntryAlreadyExist without touching the existing row. */
    method AddDetails(p: Profile, username: string, website: string, token: string) returns (r: Outcome<EntryError>)
      modifies this
      ensures accounts == old(accounts)
      ensures var key := EntryKey(p.account, username, website);
        if key in old(passwords) then r == Fail(EntryAlreadyExist) && passwords == old(passwords)
        else r == Pass && passwords == old(passwords)[key := token]
    {
      var key := EntryKey(p.account, username, website);
      if key in passwords {
        r := Fail(EntryAlreadyExist);
      } else {
        passwords := passwords[key := token];
        r := Pass;
      }
    }

    /** `Profile.delete_password_at`: remove this account's row for
        (username, website) if there is one; nothing else changes. */
    method DeletePasswordAt(p: Profile, website: string, username: string)
      modifies this
      ensures accounts == old(accounts)
      ensures passwords == old(passwords) - {EntryKey(p.account, username, website)}
    {
      passwords := passwords - {EntryKey(p.account, username, website)};
    }

    /** `Profile.verify_password`: the typed password verifies against the
        stored hash, i.e. exactly when logging in with it would succeed.
        The source reads the account's row unchecked, so it must exist. */
    function VerifyPassword(p: Profile, password: string): (ok: bool)
      requires p.account in accounts
      reads this
      ensures ok <==> LoginProfile(p.account, password).Success?
    {
      crypto.verify(accounts[p.account].passwordHash, password)
    }

    /** `Profile.delete_account`: in one transaction, every entry of this
        account and then its `user_login` row. */
    method DeleteAccount(p: Profile)
      modifies this
      ensures passwords == map k | k in old(passwords) && k.account != p.account :: old(passwords)[k]
      ensures accounts == old(accounts) - {p.account}
      ensures Owned(p.account) == {}
      ensures forall password :: LoginProfile(p.account, password) == Failure(UsernameDoesNotExist)
    {
      passwords := map k | k in passwords && k.account != p.account :: passwords[k];
      accounts := accounts - {p.account};
    }

    /** `ProfileFactory.register_profile`: a fresh salt, the password's
        hash, and one new `user_login` row, or UsernameAlreadyExists and no
        write at all. */
    method RegisterProfile(username: string, password: string, draws: nat -> nat, hashSalt: seq<Crypto.byte>)
      returns (r: Result<Profile, AuthError>)
      modifies this
      ensures passwords == old(passwords)
      ensures username in old(accounts) ==> r == Failure(UsernameAlreadyExists) && accounts == old(accounts)
      ensures username !in old(accounts) ==>
        var salt := Secrets.MakeSalt(draws);
        && r == Success(Profile(username, password, salt))
        && accounts == old(accounts)[username := Account(crypto.hash(hashSalt, password), salt)]
      ensures r.Success? && crypto.HasherSound() ==>
        forall q :: LoginProfile(username, q).Success? <==> q == password
    {
      var salt := Secrets.MakeSalt(draws);
      if username in accounts {
        r := Failure(UsernameAlreadyExists);
      } else {
        accounts := accounts[username := Account(crypto.hash(hashSalt, password), salt)];
        r := Success(Profile(username, password, salt));
      }
    }

    /** `ProfileFactory.login_profile`: the three outcomes of a login; it
        never writes. */
    function LoginProfile(username: string, password: string): (r: Result<Profile, AuthError>)
      reads this
      ensures r == Failure(UsernameDoesNotExist) <==> username !in accounts
      ensures r == Failure(WrongPassword) <==>
        username in accounts && !crypto.verify(accounts[username].passwordHash, password)
      ensures r.Success? ==> username in accounts && r.value == Profile(username, password, accounts[username].salt)
      ensures r.Success? <==> username in accounts && crypto.verify(accounts[username].passwordHash, password)
    {
      if username !in accounts then Failure(UsernameDoesNotExist)
      else
        var account := accounts[username];
        if crypto.verify(account.passwordHash, password) then Success(Profile(username, password, account.salt))
        else Failure(WrongPassword)
    }

    /** Login after registration: with a sound hasher, the account whose row
        holds the hash of `registered` admits exactly that password, and
        every other one fails with WrongPassword. */
    lemma LoginAdmitsOnlyRegisteredPassword(username: string, hashSalt: seq<Crypto.byte>, registered: string, typed: string)
      requires crypto.HasherSound()
      requires username in accounts && accounts[username].passwordHash == crypto.hash(hashSalt, registered)
      ensures LoginProfile(username, typed).Success? <==> typed == registered
      ensures typed != registered ==> LoginProfile(username, typed) == Failure(WrongPassword)
    {
    }

    /** A secret stored through `encrypt_password` and `add_details` in one
        session is read back unchanged by any later session of the same
        account opened with a password that logs in: the key is recomputed
        from the same password and salt. */
    lemma SecretSurvivesRelogin(writer: Profile, hashSalt: seq<Crypto.byte>, website: string, username: string,
                                nonce: nat, secret: string, typed: string)
      requires crypto.HasherSound() && crypto.CipherSound()
      requires writer.account in accounts
      requires accounts[writer.account] == Account(crypto.hash(hashSalt, writer.password), writer.salt)
      requires EntryKey(writer.account, username, website) in passwords
      requires passwords[EntryKey(writer.account, username, website)] == EncryptPassword(writer, nonce, secret)
      requires LoginProfile(writer.account, typed).Success?
      ensures GetPasswordAt(LoginProfile(writer.account, typed).value, website, username) == Success(secret)
    {
      assert typed == writer.password;
      assert LoginProfile(writer.account, typed).value == writer;
    }
  }
}
