/**
 * The browser storage the pages share, as one object with a slot per key.
 * `None` is an absent key; a stored value is kept as the value itself,
 * serialisation being taken as lossless.
 */
module Storage {
  import opened Wrappers
  import opened Catalog
  import opened Accounts

  class Store {
    /** localStorage "registeredUsers". */
    var registeredUsers: Option<seq<User>>
    /** localStorage "currentUser": the single session slot. */
    var currentUser: Option<Session>
    /** localStorage "categories". */
    var categories: Option<seq<Category>>
    /** sessionStorage "registrationEmail". */
    var registrationEmail: Option<string>

    /** Storage with no key set. */
    constructor()
      ensures registeredUsers.None? && currentUser.None? && categories.None? && registrationEmail.None?
    {
      registeredUsers, currentUser, categories, registrationEmail := None, None, None, None;
    }

    /** The account list as both pages read it: an absent key reads as `[]`. */
    function Users(): (r: seq<User>)
      reads this`registeredUsers
      ensures registeredUsers.None? ==> r == []
      ensures registeredUsers.Some? ==> r == registeredUsers.value
    {
      registeredUsers.GetOr([])
    }
  }
}
