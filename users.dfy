/**
 * The user directory the workflow consults and provisions into. Only what the workflow
 * relies on is modelled: the active users, lookups by username and email, and account
 * creation, which refuses a username that is already taken.
 */
module UserDirectory {

  /** An account as the workflow hands it to the directory. */
  datatype User = User(username: string, email: string, password: string, roleId: string, storageQuota: int)

  class UserDao {
    /** The active users, in creation order. */
    var users: seq<User>

    constructor (initial: seq<User>)
      ensures users == initial
    {
      users := initial;
    }

    /** Some active user has this username. */
    predicate HasUsername(username: string)
      reads this
    {
      exists i :: 0 <= i < |users| && users[i].username == username
    }

    /** Some active user has this email. */
    predicate HasEmail(email: string)
      reads this
    {
      exists i :: 0 <= i < |users| && users[i].email == email
    }

    /**
     * Adds `user`, unless its username is already taken or the directory fails for a reason
     * of its own, which `fault` stands for. On failure nothing is added.
     */
    method Create(user: User, actorId: string, fault: bool) returns (created: bool)
      modifies this
      ensures created <==> !fault && !old(HasUsername(user.username))
      ensures users == if created then old(users) + [user] else old(users)
      ensures created ==> HasUsername(user.username) && HasEmail(user.email)
    {
      created := !fault && !HasUsername(user.username);
      if created {
        users := users + [user];
        assert users[|users| - 1] == user;
      }
    }
  }
}
