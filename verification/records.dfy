/** The two tables of the application (app.py:24-36) as immutable records. */
module Records {

  /** Primary keys are integer row ids; the `<int:...>` route converters only
      accept non-negative numbers. */
  type UserId = nat
  type RequestId = nat

  /** The `status` column: `'pending'` (the column default) or `'accepted'`. */
  datatype Status = Pending | Accepted

  /** A row of the `user` table. `passwordHash` holds the bcrypt output, never
      the plaintext; `instagram` and `discord` are free-text handles. */
  datatype User = User(
    id: UserId,
    name: string,
    email: string,
    passwordHash: string,
    instagram: string,
    discord: string)

  /** A row of the `buddy_request` table: a directed request from `sender` to
      `receiver`. */
  datatype BuddyRequest = BuddyRequest(
    id: RequestId,
    sender: UserId,
    receiver: UserId,
    status: Status)
}
