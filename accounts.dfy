/**
 * Accounts as the register and login pages see them: the stored user
 * record, the session projection, the registration form's per-field
 * validation, the duplicate-email test and the credential lookup.
 */
module Accounts {
  import opened Wrappers
  import opened Text

  /** A registered account as stored under `registeredUsers`. */
  datatype User = User(name: string, email: string, password: string)

  /** What login writes under `currentUser`: the account without its password. */
  datatype Session = Session(name: string, email: string)

  /** The registration form's fields, which are also the keys of its error map. */
  datatype Field = Name | Email | Password

  const NameRequired := "Name is required"
  const EmailRequired := "Email is required"
  const EmailInvalid := "Email is invalid"
  const PasswordRequired := "Password is required"
  const PasswordTooShort := "Password must be at least 6 characters"
  const EmailTakenMessage := "Email already registered"
  const InvalidCredentials := "Invalid email or password"

  /** The shortest accepted password. */
  const MinPasswordLength: nat := 6

  /** The name check: an error exactly when the name is white space only. */
  function NameError(name: string): (r: Option<string>)
    ensures r.None? <==> !Blank(name)
    ensures r.Some? ==> r.value == NameRequired
  {
    if Trim(name) == "" then Some(NameRequired) else None
  }

  /**
   * The email check: "required" for a blank email, which takes precedence;
   * "invalid" for one in which no substring matches `\S+@\S+\.\S+`.
   */
  function EmailError(email: string): (r: Option<string>)
    ensures r.None? <==> !Blank(email) && RegexTest(email)
    ensures r == Some(EmailRequired) <==> Blank(email)
    ensures r == Some(EmailInvalid) <==> !Blank(email) && !RegexTest(email)
  {
    EmailShapedIffRegex(email);
    if Trim(email) == "" then Some(EmailRequired)
    else if !EmailShaped(email) then Some(EmailInvalid)
    else None
  }

  /**
   * The password check: "required" for a blank password whatever its
   * length, which takes precedence; "too short" for fewer than 6
   * characters, counted on the untrimmed password.
   */
  function PasswordError(password: string): (r: Option<string>)
    ensures r.None? <==> !Blank(password) && |password| >= MinPasswordLength
    ensures r == Some(PasswordRequired) <==> Blank(password)
    ensures r == Some(PasswordTooShort) <==> !Blank(password) && |password| < MinPasswordLength
  {
    if Trim(password) == "" then Some(PasswordRequired)
    else if |password| < MinPasswordLength then Some(PasswordTooShort)
    else None
  }

  /** Adds `field`'s error to `errors` when there is one. */
  function WithError(errors: map<Field, string>, field: Field, e: Option<string>): map<Field, string> {
    if e.Some? then errors[field := e.value] else errors
  }

  /** `newErrors` as `validateForm` leaves it: one entry per failing field. */
  function FormErrors(name: string, email: string, password: string): (r: map<Field, string>)
    ensures Name in r <==> NameError(name).Some?
    ensures Email in r <==> EmailError(email).Some?
    ensures Password in r <==> PasswordError(password).Some?
    ensures Name in r ==> r[Name] == NameError(name).value
    ensures Email in r ==> r[Email] == EmailError(email).value
    ensures Password in r ==> r[Password] == PasswordError(password).value
  {
    var m := WithError(map[], Name, NameError(name));
    var m := WithError(m, Email, EmailError(email));
    WithError(m, Password, PasswordError(password))
  }

  /**
   * The form is valid exactly when all three fields pass: a name that is not
   * all white space, a non-blank email holding a match of `\S+@\S+\.\S+`, and
   * a non-blank password of at least 6 characters.
   */
  lemma FormValidIff(name: string, email: string, password: string)
    ensures FormErrors(name, email, password) == map[] <==>
      && !Blank(name)
      && !Blank(email) && RegexTest(email)
      && !Blank(password) && |password| >= MinPasswordLength
  {
  }

  /** `existingUsers.some((user) => user.email === email)`, an exact comparison. */
  function EmailTaken(users: seq<User>, email: string): (r: bool)
    ensures r <==> exists u :: u in users && u.email == email
  {
    exists i | 0 <= i < |users| :: users[i].email == email
  }

  /** No two stored accounts share an email. */
  predicate UniqueEmails(users: seq<User>) {
    forall i, j :: 0 <= i < j < |users| ==> users[i].email != users[j].email
  }

  /** Appending an account whose email is not taken keeps emails unique. */
  lemma AppendKeepsUnique(users: seq<User>, u: User)
    requires UniqueEmails(users) && !EmailTaken(users, u.email)
    ensures UniqueEmails(users + [u])
  {
  }

  /** The login predicate of the lookup: both fields equal, exactly. */
  predicate Credentials(u: User, email: string, password: string) {
    u.email == email && u.password == password
  }

  /** The position of the first account with these credentials, or `|users|` when none has them. */
  function FirstMatch(users: seq<User>, email: string, password: string): (k: nat)
    ensures k <= |users|
    ensures forall j :: 0 <= j < k ==> !Credentials(users[j], email, password)
    ensures k < |users| ==> Credentials(users[k], email, password)
  {
    if users == [] || Credentials(users[0], email, password) then 0
    else 1 + FirstMatch(users[1..], email, password)
  }

  /** `registeredUsers.find(...)`: the first account with these credentials, if any. */
  function FindUser(users: seq<User>, email: string, password: string): (r: Option<User>)
    ensures r.Some? <==> exists i | 0 <= i < |users| :: Credentials(users[i], email, password)
    ensures r.Some? ==> r.value == users[FirstMatch(users, email, password)]
    ensures r.Some? ==> r.value.email == email && r.value.password == password
  {
    var k := FirstMatch(users, email, password);
    if k < |users| then Some(users[k]) else None
  }

  /** The session login stores for an account: its name and email, no password. */
  function SessionOf(u: User): (r: Session)
    ensures r.name == u.name && r.email == u.email
  {
    Session(u.name, u.email)
  }

  /** The session does not depend on the password: accounts differing only in it give the same session. */
  lemma SessionForgetsPassword(u: User, password: string)
    ensures SessionOf(u.(password := password)) == SessionOf(u)
  {
  }

  /**
   * With unique emails at most one account can match, so "first match"
   * is "the match": a matching account at `i` is the one found.
   */
  lemma UniqueMatch(users: seq<User>, i: nat, email: string, password: string)
    requires UniqueEmails(users)
    requires i < |users| && Credentials(users[i], email, password)
    ensures FindUser(users, email, password) == Some(users[i])
  {
  }
}
