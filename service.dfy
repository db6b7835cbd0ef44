/** `AccountService`: registration and login on top of the account store.
    Registration applies three guards in order (blank username, blank or
    short password, username already present) and only then inserts; login
    is a lookup by username and does not look at the password. */
module Service {
  import opened Model
  import opened JavaString
  import opened DAO

  /** How the backend behaves during one registration: whether the
      duplicate-check lookup and the insert raise an `SQLException` (caught
      by the DAO and turned into `null`), and the key the backend generates
      for an inserted row. */
  datatype Backend = Backend(lookupFails: bool, insertFails: bool, generatedId: int)

  /** The password guard as written: rejected when blank or shorter than
      three UTF-16 code units. */
  predicate WeakPassword(password: string) {
    IsBlank(password) || Utf16Length(password) < 3
  }

  /** `registerNewAccount` on the table's contents: the value it returns and
      the table afterwards. It returns an account exactly when the username
      is not blank, the password is not blank and has at least three code
      units, the username was not found (or the lookup failed) and the insert
      worked; the account carries the given username and password under the
      generated key. The table changes exactly when an account is returned,
      and then only by appending it. */
  function Register(accounts: seq<Account>, account: Account, backend: Backend): (o: Outcome)
    ensures o.result.Some? <==>
              && !IsBlank(account.username)
              && !IsBlank(account.password)
              && Utf16Length(account.password) >= 3
              && (backend.lookupFails || forall i :: 0 <= i < |accounts| ==> accounts[i].username != account.username)
              && !backend.insertFails
    ensures o.result.Some? ==> o.result.value == Account(backend.generatedId, account.username, account.password)
    ensures o.result.None? <==> o.accounts == accounts
    ensures o.result.Some? ==> o.accounts == accounts + [o.result.value]
  {
    if IsBlank(account.username) then Outcome(None, accounts)
    else if WeakPassword(account.password) then Outcome(None, accounts)
    else if !backend.lookupFails && FindByUsername(accounts, account.username).Some? then Outcome(None, accounts)
    else Insert(accounts, account, backend.generatedId, backend.insertFails)
  }

  /** A blank username is rejected whatever the password and the backend do,
      and the table is left as it was. */
  lemma BlankUsernameRejected(accounts: seq<Account>, account: Account, backend: Backend)
    requires IsBlank(account.username)
    ensures Register(accounts, account, backend) == Outcome(None, accounts)
  {
  }

  /** A blank password, or one shorter than three code units, is rejected and
      the table is left as it was. */
  lemma WeakPasswordRejected(accounts: seq<Account>, account: Account, backend: Backend)
    requires WeakPassword(account.password)
    ensures Register(accounts, account, backend) == Outcome(None, accounts)
  {
  }

  /** A username the table already holds is rejected (when the lookup
      answers) and the table is left as it was. */
  lemma DuplicateUsernameRejected(accounts: seq<Account>, account: Account, backend: Backend, k: int)
    requires 0 <= k < |accounts| && accounts[k].username == account.username
    requires !backend.lookupFails
    ensures Register(accounts, account, backend) == Outcome(None, accounts)
  {
  }

  /** When the duplicate-check lookup answers, registration keeps the
      usernames in the table unique. */
  lemma RegisterPreservesUniqueness(accounts: seq<Account>, account: Account, backend: Backend)
    requires UniqueUsernames(accounts)
    requires !backend.lookupFails
    ensures UniqueUsernames(Register(accounts, account, backend).accounts)
  {
  }

  /** After a registration whose lookup answered, a lookup of the registered
      username finds the very account registration returned. */
  lemma {:induction false} LookupAfterRegister(accounts: seq<Account>, account: Account, backend: Backend)
    requires !backend.lookupFails
    requires Register(accounts, account, backend).result.Some?
    ensures var o := Register(accounts, account, backend);
            FindByUsername(o.accounts, account.username) == o.result
  {
    var o := Register(accounts, account, backend);
    var added := o.result.value;
    assert o.accounts == accounts + [added];
    assert o.accounts[|accounts|] == added && added.username == account.username;
    var r := FindByUsername(o.accounts, account.username);
    var i :| 0 <= i < |o.accounts| && o.accounts[i] == r.value && r.value.username == account.username;
  }

  /** The password guard follows the code, not the doc comment's "at least 4
      characters": a password of two characters is refused, one of three
      characters is taken. */
  lemma PasswordLengthBoundary()
    ensures WeakPassword("ab")
    ensures !WeakPassword("abc")
  {
    assert "abc"[0] == 'a';
  }

  /** For passwords made of Basic Multilingual Plane characters, the guard
      refuses exactly the blank ones and those of fewer than three
      characters. */
  lemma BmpPasswordGuard(password: string)
    requires forall i :: 0 <= i < |password| ==> password[i] as int < 0x1_0000
    ensures WeakPassword(password) <==> IsBlank(password) || |password| < 3
  {
    Utf16LengthOfBmp(password);
  }

  /** A three-character password registers, so the promise "at least 4
      characters" is not what the code enforces. */
  lemma {:induction false} ThreeCharacterPasswordAccepted(accounts: seq<Account>, id: int, username: string, generatedId: int)
    requires !IsBlank(username)
    requires forall i :: 0 <= i < |accounts| ==> accounts[i].username != username
    ensures Register(accounts, Account(id, username, "abc"), Backend(false, false, generatedId)).result
            == Some(Account(generatedId, username, "abc"))
  {
    PasswordLengthBoundary();
  }

  /** If the duplicate-check lookup raises an error, the check is passed and
      a second row with a taken username is inserted, unless the database
      rejects it: uniqueness depends on the lookup answering. In the model,
      where an insert goes last, a lookup of that username afterwards finds
      the older row. */
  lemma DuplicateWhenLookupFails()
    ensures var table := [Account(1, "alice", "1234")];
            var o := Register(table, Account(0, "alice", "5678"), Backend(true, false, 2));
            && o.accounts == table + [Account(2, "alice", "5678")]
            && !UniqueUsernames(o.accounts)
            && FindByUsername(o.accounts, "alice") == Some(Account(1, "alice", "1234"))
  {
    var table := [Account(1, "alice", "1234")];
    assert "alice"[0] == 'a';
    assert "5678"[0] == '5';
    var o := Register(table, Account(0, "alice", "5678"), Backend(true, false, 2));
    assert o.accounts[0].username == o.accounts[1].username;
  }

  /** The account service over one DAO. */
  class AccountService {
    const accountDAO: AccountDAO

    /** The service over the given DAO. */
    constructor (accountDAO: AccountDAO)
      ensures this.accountDAO == accountDAO
    {
      this.accountDAO := accountDAO;
    }

    /** `registerNewAccount`: returns the persisted account, or `None` when
        a guard rejects the request or the insert fails. Every rejection
        returns before the insert, so it leaves the table as it was. */
    method RegisterNewAccount(account: Account, backend: Backend) returns (r: Option<Account>)
      modifies accountDAO
      ensures Outcome(r, accountDAO.accounts) == Register(old(accountDAO.accounts), account, backend)
      ensures r.None? ==> accountDAO.accounts == old(accountDAO.accounts)
      ensures r.Some? ==> accountDAO.accounts == old(accountDAO.accounts) + [r.value]
      ensures !backend.lookupFails && old(UniqueUsernames(accountDAO.accounts)) ==> UniqueUsernames(accountDAO.accounts)
    {
      if !backend.lookupFails && UniqueUsernames(accountDAO.accounts) {
        RegisterPreservesUniqueness(accountDAO.accounts, account, backend);
      }
      if IsBlank(account.username) {
        return None;
      }
      if WeakPassword(account.password) {
        return None;
      }
      if accountDAO.GetAccountByUsername(account.username, backend.lookupFails).Some? {
        return None;
      }
      r := accountDAO.AddAccount(account, backend.generatedId, backend.insertFails);
    }

    /** `verifyLogin`: the stored account with the given username, or `None`
        when there is none or the lookup fails. The password supplied is not
        compared, and the table is only read. */
    function VerifyLogin(account: Account, lookupFails: bool): (r: Option<Account>)
      reads this, accountDAO
      ensures r.Some? ==> !lookupFails && r.value in accountDAO.accounts && r.value.username == account.username
      ensures !lookupFails && (exists a :: a in accountDAO.accounts && a.username == account.username) ==> r.Some?
    {
      accountDAO.GetAccountByUsername(account.username, lookupFails)
    }

    /** Two login attempts that differ only in the password get the same
        answer. */
    lemma VerifyLoginIgnoresPassword(account: Account, password: string, lookupFails: bool)
      ensures VerifyLogin(account, lookupFails) == VerifyLogin(account.(password := password), lookupFails)
    {
    }

    /** With unique usernames, a login finds exactly the row that holds the
        username. */
    lemma VerifyLoginFindsStoredRow(account: Account, k: int)
      requires UniqueUsernames(accountDAO.accounts)
      requires 0 <= k < |accountDAO.accounts| && accountDAO.accounts[k].username == account.username
      ensures VerifyLogin(account, false) == Some(accountDAO.accounts[k])
    {
      FindByUsernameUnique(accountDAO.accounts, k);
    }
  }
}
