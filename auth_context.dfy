/** The client's login state: an `isAuthenticated` flag mirrored in the
    browser's session storage under the key `isAuthenticated`, so that a reload
    keeps the user logged in. Session storage is reduced to one optional
    string field. */
module AuthContext {
  import opened Wrappers
  import opened Credentials

  /** The value the session-storage flag holds while logged in. */
  const LoggedInFlag := "true"

  /** Whether a stored flag means "logged in": only the exact text `true`. */
  predicate FlagSaysAuthenticated(stored: Option<string>)
  {
    stored == Some(LoggedInFlag)
  }

  class AuthSession {
    var isAuthenticated: bool
    /** The session-storage entry `isAuthenticated`, absent or a string. */
    var storedFlag: Option<string>

    /** Once the provider has mounted, the state and the stored flag agree. */
    predicate Valid()
      reads this
    {
      isAuthenticated == FlagSaysAuthenticated(storedFlag)
    }

    /** Mounting the provider: the initial state is read from the stored
        flag, which is left as found. */
    constructor (stored: Option<string>)
      ensures Valid()
      ensures storedFlag == stored
      ensures isAuthenticated <==> stored == Some("true")
    {
      storedFlag := stored;
      isAuthenticated := FlagSaysAuthenticated(stored);
    }

    /** `login`: succeeds exactly for the static pair; success records the
        flag and the state, failure changes nothing, even for a user who is
        already logged in. */
    method Login(username: string, password: string) returns (ok: bool)
      requires Valid()
      modifies this
      ensures Valid()
      ensures ok <==> username == "admin" && password == "password123"
      ensures ok ==> isAuthenticated && storedFlag == Some("true")
      ensures !ok ==> isAuthenticated == old(isAuthenticated) && storedFlag == old(storedFlag)
    {
      if IsStaticCredential(username, password) {
        storedFlag := Some(LoggedInFlag);
        isAuthenticated := true;
        return true;
      }
      return false;
    }

    /** `logout`: removes the stored flag and clears the state, whatever
        they were. */
    method Logout()
      requires Valid()
      modifies this
      ensures Valid()
      ensures !isAuthenticated && storedFlag.None?
    {
      storedFlag := None;
      isAuthenticated := false;
    }
  }

  /** A page reload mounts a new provider over the same session storage:
      the new state is the one the old session had, logged in or not. */
  method Reload(session: AuthSession) returns (reloaded: AuthSession)
    requires session.Valid()
    ensures fresh(reloaded) && reloaded.Valid()
    ensures reloaded.isAuthenticated == session.isAuthenticated
    ensures reloaded.storedFlag == session.storedFlag
  {
    reloaded := new AuthSession(session.storedFlag);
  }
}
