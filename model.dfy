/** The entity the account service works on: the `Model.Account` record
    (id, username, password) and the `null`-or-value convention the Java code
    uses for every lookup and insert result. */
module Model {

  /** `null` in the source becomes `None`. */
  datatype Option<+T> = None | Some(value: T)

  /** One row of the `account` table. The password is kept in plaintext, as
      the source stores and returns it. */
  datatype Account = Account(id: int, username: string, password: string)
}
