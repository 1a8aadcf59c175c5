/** The user role of the User interface and the session store's `user`
    object, reduced to the two fields the route guards read and write. */
module Users {
  import opened Wrappers

  /** `role: 'ADMIN' | 'USER'`. */
  datatype Role = ADMIN | USER

  /** The store's `user` object. It starts out as `{}`, so either field may
      be absent. */
  datatype UserRecord = UserRecord(id: Option<string>, role: Option<Role>)

  /** The session store that `useUser()` hands out. */
  class UserStore {
    var user: UserRecord

    /** A fresh store holds the empty object `{}`. */
    constructor ()
      ensures user == UserRecord(None, None)
    {
      user := UserRecord(None, None);
    }

    /** Patches the id and leaves the role as it was. */
    method SetUserId(id: string)
      modifies this
      ensures user == old(user).(id := Some(id))
      ensures user.role == old(user).role
    {
      user := user.(id := Some(id));
    }
  }
}
