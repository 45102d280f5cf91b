/**
 * The registration form: its field values and error map, validation,
 * per-field error clearing, and the storage part of submission.
 */
module RegisterPage {
  import opened Wrappers
  import opened Text
  import opened Accounts
  import opened Storage

  /** The form shows an error under `field` when its entry is present and not "". */
  predicate ShowsError(errors: map<Field, string>, field: Field) {
    field in errors && errors[field] != ""
  }

  /**
   * `handleInputChange`'s error update: a shown error under `field` is set
   * to "", and every other entry is kept as it was.
   */
  function ClearError(errors: map<Field, string>, field: Field): (r: map<Field, string>)
    ensures !ShowsError(r, field)
    ensures field in r <==> field in errors
    ensures forall f :: f != field ==> (f in r <==> f in errors)
    ensures forall f :: f != field && f in r ==> r[f] == errors[f]
  {
    if ShowsError(errors, field) then errors[field := ""] else errors
  }

  class RegisterForm {
    const storage: Store
    var name: string
    var email: string
    var password: string
    var errors: map<Field, string>

    /** An empty form with no errors. */
    constructor(storage: Store)
      ensures this.storage == storage
      ensures name == "" && email == "" && password == "" && errors == map[]
    {
      this.storage := storage;
      name, email, password, errors := "", "", "", map[];
    }

    /** `validateForm`: fill `newErrors` field by field, install it, and report whether it is empty. */
    method ValidateForm() returns (valid: bool)
      modifies this`errors
      ensures errors == FormErrors(name, email, password)
      ensures valid <==> errors == map[]
    {
      var newErrors: map<Field, string> := map[];
      if Trim(name) == "" {
        newErrors := newErrors[Name := NameRequired];
      }
      assert newErrors == WithError(map[], Name, NameError(name));
      ghost var afterName := newErrors;
      if Trim(email) == "" {
        newErrors := newErrors[Email := EmailRequired];
      } else if !EmailShaped(email) {
        newErrors := newErrors[Email := EmailInvalid];
      }
      assert newErrors == WithError(afterName, Email, EmailError(email));
      ghost var afterEmail := newErrors;
      if Trim(password) == "" {
        newErrors := newErrors[Password := PasswordRequired];
      } else if |password| < MinPasswordLength {
        newErrors := newErrors[Password := PasswordTooShort];
      }
      assert newErrors == WithError(afterEmail, Password, PasswordError(password));
      errors := newErrors;
      valid := |newErrors| == 0;
    }

    /** `handleInputChange`: store the typed value and clear that field's shown error. */
    method InputChange(field: Field, value: string)
      modifies this`name, this`email, this`password, this`errors
      ensures name == (if field == Name then value else old(name))
      ensures email == (if field == Email then value else old(email))
      ensures password == (if field == Password then value else old(password))
      ensures errors == ClearError(old(errors), field)
    {
      match field {
        case Name => name := value;
        case Email => email := value;
        case Password => password := value;
      }
      errors := ClearError(errors, field);
    }

    /**
     * The storage part of `handleSubmit`. An invalid form stops after
     * validation. A valid form whose email some stored account already has
     * (exact comparison) gets the "already registered" error. Otherwise the
     * exact record is appended to the stored list (an absent list reading
     * as []) and the email is kept for the verification page. The session
     * slot is never written.
     */
    method Submit() returns (registered: bool)
      modifies this`errors, storage`registeredUsers, storage`registrationEmail
      ensures var valid := FormErrors(name, email, password) == map[];
        && (registered <==> valid && !EmailTaken(old(storage.Users()), email))
        && (!valid ==> errors == FormErrors(name, email, password))
        && (valid && !registered ==> errors == map[Email := EmailTakenMessage])
        && (registered ==> errors == map[])
      ensures registered ==> storage.registeredUsers == Some(old(storage.Users()) + [User(name, email, password)])
      ensures registered ==> storage.registrationEmail == Some(email)
      ensures !registered ==> storage.registeredUsers == old(storage.registeredUsers)
      ensures !registered ==> storage.registrationEmail == old(storage.registrationEmail)
      ensures UniqueEmails(old(storage.Users())) ==> UniqueEmails(storage.Users())
    {
      var valid := ValidateForm();
      if !valid {
        return false;
      }
      var existingUsers := storage.Users();
      if EmailTaken(existingUsers, email) {
        errors := errors[Email := EmailTakenMessage];
        return false;
      }
      var newUser := User(name, email, password);
      if UniqueEmails(existingUsers) {
        AppendKeepsUnique(existingUsers, newUser);
      }
      existingUsers := existingUsers + [newUser];
      storage.registeredUsers := Some(existingUsers);
      storage.registrationEmail := Some(email);
      registered := true;
    }
  }
}
