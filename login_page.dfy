/** The login form: its two fields, its single error line, and the credential lookup. */
module LoginPage {
  import opened Wrappers
  import opened Accounts
  import opened Storage

  datatype LoginField = LoginEmail | LoginPassword

  class LoginForm {
    const storage: Store
    var email: string
    var password: string
    var error: string

    constructor(storage: Store)
      ensures this.storage == storage
      ensures email == "" && password == "" && error == ""
    {
      this.storage := storage;
      email, password, error := "", "", "";
    }

    /** `handleInputChange`: store the typed value; any edit clears the error. */
    method InputChange(field: LoginField, value: string)
      modifies this`email, this`password, this`error
      ensures email == (if field == LoginEmail then value else old(email))
      ensures password == (if field == LoginPassword then value else old(password))
      ensures error == ""
    {
      match field {
        case LoginEmail => email := value;
        case LoginPassword => password := value;
      }
      error := "";
    }

    /**
     * `handleSubmit`: succeed exactly when some stored account (an absent
     * list reading as []) has this email and this password. On success the
     * first such account's name and email replace the session slot; on
     * failure the slot is kept and the one generic error is shown. The
     * account list is never written.
     */
    method Submit() returns (success: bool)
      modifies this`error, storage`currentUser
      ensures success <==> exists i | 0 <= i < |storage.Users()| :: Credentials(storage.Users()[i], email, password)
      ensures success ==> storage.currentUser == Some(SessionOf(storage.Users()[FirstMatch(storage.Users(), email, password)]))
      ensures success ==> error == old(error)
      ensures !success ==> storage.currentUser == old(storage.currentUser) && error == InvalidCredentials
    {
      var registeredUsers := storage.Users();
      var user := FindUser(registeredUsers, email, password);
      if user.Some? {
        storage.currentUser := Some(Session(user.value.name, user.value.email));
        success := true;
      } else {
        error := InvalidCredentials;
        success := false;
      }
      assert storage.Users() == registeredUsers;
    }
  }

  /** With no account list stored, every login fails. */
  lemma NoAccountsNoLogin(email: string, password: string)
    ensures FindUser([], email, password).None?
  {
  }
}
