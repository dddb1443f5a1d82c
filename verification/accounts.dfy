/** The user record the server keeps for every account. Its schema file is not part of
    this model; the fields below are the ones the routes read and write. */
module Accounts {
  import opened Wrappers

  /** A user's database id, as the string the clients and the presence map use. */
  type UserId = string

  /** An account: the password is a hash and is never written by a profile update. A
      profile field is `None` when it is unset or was set to `null`. */
  datatype User = User(
    id: UserId,
    username: Option<string>,
    password: string,
    email: Option<string>,
    bio: Option<string>,
    avatar: Option<string>,
    theme: Option<string>)

  /** The user collection, looked up by id. */
  type Users = map<UserId, User>
}
