/** The header's greeting and logout, both driven by the session slot. */
module HeaderView {
  import opened Wrappers
  import opened Accounts
  import opened Storage

  /** `userName || "User"`: the greeting never shows an empty name. */
  function GreetingName(userName: string): (r: string)
    ensures r != ""
    ensures userName != "" ==> r == userName
    ensures userName == "" ==> r == "User"
  {
    if userName != "" then userName else "User"
  }

  /**
   * A name that passed validation is not empty, so an account that passed
   * registration is greeted by its own name after login, not by "User".
   */
  lemma GreetsRegisteredName(u: User)
    requires NameError(u.name).None?
    ensures u.name != ""
    ensures GreetingName(SessionOf(u).name) == u.name
  {
  }

  class Header {
    const storage: Store
    var userName: string

    constructor(storage: Store)
      ensures this.storage == storage && userName == ""
    {
      this.storage := storage;
      userName := "";
    }

    /**
     * The header effect: when authenticated and a session is stored, show
     * its name; otherwise keep the name shown.
     */
    method SyncUserName(isAuthenticated: bool)
      modifies this`userName
      ensures isAuthenticated && storage.currentUser.Some? ==> userName == storage.currentUser.value.name
      ensures !(isAuthenticated && storage.currentUser.Some?) ==> userName == old(userName)
    {
      if isAuthenticated {
        var currentUser := storage.currentUser;
        if currentUser.Some? {
          userName := currentUser.value.name;
        }
      }
    }

    /** The text after "Hi, ". */
    function Greeting(): (r: string)
      reads this
      ensures r != ""
      ensures userName != "" ==> r == userName
      ensures userName == "" ==> r == "User"
    {
      GreetingName(userName)
    }

    /** `handleLogout`: remove the session key and clear the shown name; harmless with no session. */
    method Logout()
      modifies this`userName, storage`currentUser
      ensures storage.currentUser.None? && userName == ""
      ensures Greeting() == "User"
    {
      storage.currentUser := None;
      userName := "";
    }
  }
}
