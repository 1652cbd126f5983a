/**
 * The session store: the signed-in user and the session, each possibly null.
 * The identity and session types of the authentication provider are opaque here.
 */
module AuthSlice {
  import opened Wrappers

  /** The payload of setSession. */
  datatype SessionPayload<U, S> = SessionPayload(user: Option<U>, session: Option<S>)

  class AuthState<U, S> {
    var user: Option<U>
    var session: Option<S>

    /** initialState: nobody signed in. */
    constructor ()
      ensures user == None && session == None
      ensures SelectUser() == None && SelectSession() == None
    {
      user := None;
      session := None;
    }

    /** setSession: both fields take the payload's values, whatever they were before. */
    method SetSession(payload: SessionPayload<U, S>)
      modifies this
      ensures user == payload.user && session == payload.session
      ensures SelectUser() == payload.user && SelectSession() == payload.session
    {
      user := payload.user;
      session := payload.session;
    }

    /**
     * clearSession: both fields become null. The new state does not depend on
     * the old one, so clearing twice leaves the same state as clearing once.
     */
    method ClearSession()
      modifies this
      ensures user == None && session == None
      ensures SelectUser() == None && SelectSession() == None
    {
      user := None;
      session := None;
    }

    /** selectUser. */
    function SelectUser(): Option<U>
      reads this
    {
      user
    }

    /** selectSession. */
    function SelectSession(): Option<S>
      reads this
    {
      session
    }
  }
}
