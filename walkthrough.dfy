/**
 * Clients that drive the pages through their contracts alone, in the way
 * the application uses them: register, register again, log in, greet, log
 * out; and load a fresh catalog, click one category, look at the pages.
 */
module Walkthrough {
  import opened Wrappers
  import opened Text
  import opened Catalog
  import opened Pagination
  import opened Accounts
  import opened Storage
  import opened ProtectedPage
  import opened RegisterPage
  import opened LoginPage
  import opened HeaderView

  const Ann := User("Ann", "ann@x.com", "abcdef")

  /** Ann's form passes validation. */
  lemma AnnIsValid()
    ensures FormErrors(Ann.name, Ann.email, Ann.password) == map[]
  {
    assert !IsSpace("Ann"[0]) && !IsSpace("ann@x.com"[0]) && !IsSpace("abcdef"[0]);
    assert EmailShapeAt("ann@x.com", 3, 5);
    EmailShapedIffRegex("ann@x.com");
    FormValidIff("Ann", "ann@x.com", "abcdef");
  }

  /** Typing an account's three fields into the registration form. */
  method FillIn(form: RegisterForm, u: User)
    modifies form
    ensures form.name == u.name && form.email == u.email && form.password == u.password
  {
    form.InputChange(Name, u.name);
    form.InputChange(Email, u.email);
    form.InputChange(Password, u.password);
  }

  /** Registering a valid account on empty storage succeeds without opening a session. */
  method RegisterFirst(storage: Store, u: User)
    requires storage.registeredUsers.None? && FormErrors(u.name, u.email, u.password) == map[]
    modifies storage
    ensures storage.Users() == [u] && storage.currentUser == old(storage.currentUser)
  {
    var form := new RegisterForm(storage);
    FillIn(form, u);
    var registered := form.Submit();
    assert registered;
  }

  /** Registering the same account again is refused and changes no account. */
  method RegisterAgain(storage: Store, u: User)
    requires storage.Users() == [u] && FormErrors(u.name, u.email, u.password) == map[]
    modifies storage
    ensures storage.Users() == [u] && storage.currentUser == old(storage.currentUser)
  {
    var form := new RegisterForm(storage);
    FillIn(form, u);
    assert storage.Users()[0].email == form.email;
    var registered := form.Submit();
    assert !registered && form.errors == map[Email := EmailTakenMessage];
  }

  /** A wrong password is refused with the generic error; the right one opens Ann's session. */
  method LogInAnn(storage: Store) returns (denied: bool, deniedError: string, ok: bool)
    requires storage.Users() == [Ann] && storage.currentUser.None?
    modifies storage
    ensures !denied && deniedError == InvalidCredentials
    ensures ok && storage.currentUser == Some(Session("Ann", "ann@x.com"))
  {
    var login := new LoginForm(storage);
    login.InputChange(LoginEmail, Ann.email);
    login.InputChange(LoginPassword, "wrong!");
    assert !Credentials(storage.Users()[0], Ann.email, "wrong!");
    denied := login.Submit();
    deniedError := login.error;
    assert storage.currentUser.None?;
    login.InputChange(LoginPassword, Ann.password);
    assert login.error == "";
    ok := login.Submit();
    assert Credentials(storage.Users()[0], Ann.email, Ann.password);
  }

  /** The header greets Ann, then logging out (twice) leaves no session. */
  method GreetAndLogOut(storage: Store) returns (greeting: string, afterLogout: string)
    requires storage.currentUser == Some(Session("Ann", "ann@x.com"))
    modifies storage
    ensures greeting == "Ann" && afterLogout == "User"
    ensures storage.currentUser.None?
  {
    var header := new Header(storage);
    header.SyncUserName(true);
    greeting := header.Greeting();
    header.Logout();
    afterLogout := header.Greeting();
    header.Logout();
  }

  method AccountWalkthrough() {
    var storage := new Store();
    AnnIsValid();
    RegisterFirst(storage, Ann);
    RegisterAgain(storage, Ann);
    var denied, deniedError, ok := LogInAnn(storage);
    var greeting, afterLogout := GreetAndLogOut(storage);
    assert storage.currentUser.None?;
  }

  /** On empty storage the page loads the 100 generated categories, none selected, on page 4 of 17. */
  method LoadFresh(storage: Store, seeds: seq<(string, string)>) returns (page: CategoryPage)
    requires |seeds| == CatalogSize && storage.categories.None?
    modifies storage
    ensures fresh(page) && page.storage == storage && page.Synced() && !page.isLoading
    ensures page.categories == Fresh(seeds) && page.currentPage == InitialPage
  {
    page := new CategoryPage(storage);
    page.Load(seeds);
    assert |page.categories| == 100 && page.SelectedCategories() == [];
    InitialPageIsValid();
    assert page.PageCount() == 17;
    PageWindow(page.categories, 4);
    assert page.CurrentCategories() == page.categories[18..24];
  }

  /** With distinct ids, clicking the fourth category adds it, and only it, to the selection. */
  method ClickFourth(page: CategoryPage, seeds: seq<(string, string)>) returns (notice: Option<Notice>)
    requires |seeds| == CatalogSize && page.categories == Fresh(seeds) && page.Synced()
    requires forall i, j :: 0 <= i < j < |seeds| ==> seeds[i].0 != seeds[j].0
    modifies page, page.storage
    ensures notice == Some(Added(old(page.categories)[3].name))
    ensures Selected(page.categories) == [old(page.categories)[3].(isSelected := true)]
    ensures |page.categories| == CatalogSize && page.Synced()
  {
    ghost var before := page.categories;
    assert DistinctIds(before);
    var id := page.categories[3].id;
    assert Ids(before)[3] == id;
    notice := page.CategoryClick(id);
    ToggleOneOfNone(before, 3);
  }

  /** The navigation buttons clamp at both ends; "..." does nothing. */
  method NavigateAround(page: CategoryPage) returns (last: int, lastPageSize: nat, afterNext: int, afterEllipsis: int, afterPrevious: int)
    requires |page.categories| == CatalogSize
    modifies page
    ensures last == 17 && lastPageSize == 4
    ensures afterNext == 17 && afterEllipsis == 17 && afterPrevious == 1
    ensures page.currentPage == 1
  {
    InitialPageIsValid();
    page.Navigate(Last);
    last := page.currentPage;
    lastPageSize := |page.CurrentCategories()|;
    page.Navigate(Next);
    afterNext := page.currentPage;
    page.Navigate(Jump(Ellipsis));
    afterEllipsis := page.currentPage;
    page.Navigate(First);
    page.Navigate(Previous);
    afterPrevious := page.currentPage;
  }

  method CatalogWalkthrough(seeds: seq<(string, string)>)
    requires |seeds| == CatalogSize
    requires forall i, j :: 0 <= i < j < |seeds| ==> seeds[i].0 != seeds[j].0
  {
    var storage := new Store();
    var page := LoadFresh(storage, seeds);
    var notice := ClickFourth(page, seeds);
    var last, lastPageSize, afterNext, afterEllipsis, afterPrevious := NavigateAround(page);
  }
}
