/** The account store behind the service: `AccountDAO`. The `account` table
    is a sequence of rows in the order the backend returns them. A backend
    error (an `SQLException` the DAO catches and logs) is a parameter of each
    call, and so is the key the backend generates for an inserted row. */
module DAO {
  import opened Model

  /** No two rows share a username: what the registration pre-check aims to
      keep (nothing in the account service or the DAO enforces it). */
  ghost predicate UniqueUsernames(accounts: seq<Account>) {
    forall i, j :: 0 <= i < j < |accounts| ==> accounts[i].username != accounts[j].username
  }

  /** `SELECT * FROM account WHERE username = ?` followed by the first
      `rs.next()`: the first row with that username, or `None` when there is
      none. */
  function FindByUsername(accounts: seq<Account>, username: string): (r: Option<Account>)
    ensures r.None? <==> forall i :: 0 <= i < |accounts| ==> accounts[i].username != username
    ensures r.Some? ==> exists i :: 0 <= i < |accounts| && accounts[i] == r.value
                          && r.value.username == username
                          && forall j :: 0 <= j < i ==> accounts[j].username != username
  {
    if accounts == [] then None
    else if accounts[0].username == username then Some(accounts[0])
    else
      var r := FindByUsername(accounts[1..], username);
      assert forall i :: 1 <= i < |accounts| ==> accounts[i] == accounts[1..][i - 1];
      r
  }

  /** In a table whose usernames are unique, the row found for a username is
      the one row that carries it. */
  lemma FindByUsernameUnique(accounts: seq<Account>, k: int)
    requires UniqueUsernames(accounts)
    requires 0 <= k < |accounts|
    ensures FindByUsername(accounts, accounts[k].username) == Some(accounts[k])
  {
    var r := FindByUsername(accounts, accounts[k].username);
    var i :| 0 <= i < |accounts| && accounts[i] == r.value && r.value.username == accounts[k].username;
  }

  /** What a call that may write the table returns, and the table
      afterwards. */
  datatype Outcome = Outcome(result: Option<Account>, accounts: seq<Account>)

  /** `addAccount`: "new account object if successfully added, null
      otherwise". The row stores the given username and password under the
      generated key; the id the caller passed in is not used. A failed insert
      leaves the table as it was. */
  function Insert(accounts: seq<Account>, account: Account, generatedId: int, fails: bool): Outcome {
    if fails then Outcome(None, accounts)
    else
      var added := Account(generatedId, account.username, account.password);
      Outcome(Some(added), accounts + [added])
  }

  /** A successful insert of a username the table does not hold keeps the
      usernames unique. */
  lemma InsertPreservesUniqueness(accounts: seq<Account>, account: Account, generatedId: int, fails: bool)
    requires UniqueUsernames(accounts)
    requires FindByUsername(accounts, account.username).None?
    ensures UniqueUsernames(Insert(accounts, account, generatedId, fails).accounts)
  {
  }

  /** The Data Access Object for the `account` table. */
  class AccountDAO {
    /** The rows of the table, in the backend's order. */
    var accounts: seq<Account>

    /** A DAO over a table that already holds `accounts`. */
    constructor (accounts: seq<Account>)
      ensures this.accounts == accounts
    {
      this.accounts := accounts;
    }

    /** `getAccountByUsername`: "account, null if error or account does not
        exist". Only reads the table. */
    function GetAccountByUsername(username: string, fails: bool): (r: Option<Account>)
      reads this
      ensures r.Some? ==> !fails && r.value in accounts && r.value.username == username
      ensures r.None? ==> fails || forall a :: a in accounts ==> a.username != username
    {
      if fails then None else FindByUsername(accounts, username)
    }

    /** `addAccount`: inserts one row with the account's username and
        password, or on a backend error changes nothing and returns `None`. */
    method AddAccount(account: Account, generatedId: int, fails: bool) returns (r: Option<Account>)
      modifies this
      ensures Outcome(r, accounts) == Insert(old(accounts), account, generatedId, fails)
      ensures r.None? ==> accounts == old(accounts)
      ensures r.Some? ==> accounts == old(accounts) + [r.value]
    {
      if fails {
        r := None;
      } else {
        var added := Account(generatedId, account.username, account.password);
        accounts := accounts + [added];
        r := Some(added);
      }
    }
  }
}
