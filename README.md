# Storefront shell: local-storage state engine

A Dafny model of the state logic inside the React pages of a client-only
storefront shell. The pages keep their data in browser storage instead of a
backend. The model covers:

- the **interest catalog** of the category page: 100 categories generated on
  first load, reused after that, toggled by id, filtered to the selected ones,
  and a toast notice per click;
- its **pagination**: the page count, the slice shown for the current page,
  the row of page buttons, and the four clamped navigation buttons;
- the **account registry** of the registration page: per-field validation,
  the exact-match duplicate-email check, append-and-store, and per-field
  error clearing;
- the **session** of the login page and the header: first-match credential
  lookup, the password-free `currentUser` record, logout, and the greeting.

Storage is one `Storage.Store` object with a slot per key. `None` is an absent
key. JSON encoding is taken as lossless, so a slot holds the value itself. Each
page component is a class that holds its React state as fields. Its handlers
are methods that update those fields and the store. Pure parts (toggle, filter,
slice, validation, lookup) are functions with lemmas.

Modules, leaf first:

- `Wrappers`: `Option`.
- `Text`: JavaScript white space, `trim`, and the email pattern.
- `Catalog`: the category record and the pure catalog operations.
- `Pagination`: page arithmetic, page buttons, navigation.
- `Accounts`: the user and session records, validation, lookup, uniqueness.
- `Storage`: the store.
- `ProtectedPage`, `RegisterPage`, `LoginPage`, `HeaderView`: one class per
  component.
- `Walkthrough`: verified client methods that drive the pages through their
  contracts alone.

Where the code is narrower or looser than a reader might expect, the model
follows the code:

- The email test is an unanchored search for `\S+@\S+\.\S+`, not a full
  `local@domain` check. `Text.EmailShapedIffRegex` proves that a positional
  test agrees with the regular expression's meaning.
- Toggling an unknown id is not reported as an error. Nothing changes and no
  notice is shown.
- Ids are not assumed distinct: `Catalog.Toggle` flips every category with the
  id.
- The initial page is 4 whatever the catalog size, and ">"/">>" set page 0
  when the catalog is empty.

## Model

| member | source | states |
|---|---|---|
| Text.LeadingSpace | src/pages/Signup/Register.tsx:20 | counts the white space `trim` removes at the front: all of it is white space and the next character is not |
| Text.TrailingSpace | src/pages/Signup/Register.tsx:20 | counts the white space `trim` removes at the end, with the same characterisation |
| Text.Trim | src/pages/Signup/Register.tsx:20-26 | `trim` is empty exactly for all-white-space input; otherwise it has no white space at either end and is the slice of the input with only white space cut off |
| Text.EmailShaped | src/pages/Signup/Register.tsx:23 | the email test as the form runs it: a passing string contains an '@' and a '.' and has at least five characters; `Text.EmailShapedIffRegex` proves it equal to the pattern test |
| Text.EmailShapedIffRegex | src/pages/Signup/Register.tsx:23 | the form's positional email test holds exactly when some substring is in the language of `\S+@\S+\.\S+` |
| Catalog.Fresh | src/pages/ProtectedPage.tsx:22-29 | the generated catalog has one category per generated (id, name) pair, in order, none selected |
| Catalog.FreshSelectsNothing | src/pages/ProtectedPage.tsx:22-29 | a generated catalog has an empty selected view |
| Catalog.Toggle | src/pages/ProtectedPage.tsx:45-53 | same length; every id and name kept in place; the flag flipped exactly at categories whose id equals the argument |
| Catalog.ToggleKeepsIds | src/pages/ProtectedPage.tsx:45-53 | toggling leaves the id sequence (membership and order) unchanged |
| Catalog.ToggleUnknownId | src/pages/ProtectedPage.tsx:45-53 | an id no category carries leaves the catalog identical |
| Catalog.ToggleTwice | src/pages/ProtectedPage.tsx:45-53 | toggling the same id twice restores the catalog |
| Catalog.Selected | src/pages/ProtectedPage.tsx:55 | the selected view is no longer than the catalog and holds exactly the catalog's selected categories |
| Catalog.SelectedAppend | src/pages/ProtectedPage.tsx:55 | the selected view distributes over concatenation, so it keeps catalog order |
| Catalog.ToggleOneOfNone | src/pages/ProtectedPage.tsx:45-55 | with nothing selected and distinct ids, toggling entry k's id makes the selected view exactly that entry, now selected |
| Catalog.FindById | src/pages/ProtectedPage.tsx:72 | `find` misses exactly when no category has the id; a hit is the first category with it |
| Catalog.ClickNotice | src/pages/ProtectedPage.tsx:71-90 | no notice for an unknown id; otherwise the notice names the found category and says "Removed" exactly when it was selected before the toggle |
| Catalog.FindAfterToggle | src/pages/ProtectedPage.tsx:72-73 | after the toggle, the first category with the id is the one found before, flag flipped |
| Catalog.NoticeMatchesNewState | src/pages/ProtectedPage.tsx:71-90 | the notice says "Removed" exactly when the clicked category is unselected after the toggle, and names it |
| Pagination.TotalPages | src/pages/ProtectedPage.tsx:92 | `ceil(n/6)`: the least page count whose pages hold n items; 0 exactly for an empty list |
| Pagination.JsSlice | src/pages/ProtectedPage.tsx:95 | ECMAScript `slice`: never longer than the list; non-negative bounds are cut to the length; two negative bounds count from the end; crossed bounds of the same sign give [] |
| Pagination.Page | src/pages/ProtectedPage.tsx:93-95 | the current page's slice has at most 6 items for every page number, and from page 1 up it is the window [(p-1)*6, p*6) cut to the list |
| Pagination.PageWindow | src/pages/ProtectedPage.tsx:93-95 | for pages from 1 up the slice is the window [(p-1)*6, p*6) cut to the list, so at most 6 items |
| Pagination.PageZeroIsEmpty | src/pages/ProtectedPage.tsx:93-95 | page 0 is `slice(-6, 0)`, which is empty |
| Pagination.PageBeyondLastIsEmpty | src/pages/ProtectedPage.tsx:92-95 | every page after the last is empty |
| Pagination.PagesUpToIsPrefix | src/pages/ProtectedPage.tsx:93-95 | pages 1..k laid end to end are the first min(6k, n) items |
| Pagination.PagesCoverList | src/pages/ProtectedPage.tsx:92-95 | pages 1..totalPages laid end to end are the whole list: no gap, no overlap |
| Pagination.ItemOnItsPage | src/pages/ProtectedPage.tsx:92-95 | item i appears on page i/6+1, which exists, at position i%6 |
| Pagination.PaginationArray | src/pages/ProtectedPage.tsx:97-102 | the buttons are 1..min(7, T) in ascending order, then one "..." exactly when T > 7; an item is in the row exactly when it is rendered |
| Pagination.Step | src/pages/ProtectedPage.tsx:173-218 | one click with the disabled guards: from a page in 1..T, a click on any enabled or rendered button lands on a page in 1..T; a numbered page button sets its own number; `DisabledButtonsChangeNothing` gives the other buttons' results |
| Pagination.DisabledButtonsChangeNothing | src/pages/ProtectedPage.tsx:173-218 | with the disabled guards, first gives 1, previous max(1, p-1), next min(T, p+1), last T, and "..." keeps the page, and page button n gives n |
| Pagination.RunStaysInRange | src/pages/ProtectedPage.tsx:173-218 | from a page in 1..T, any run of clicks on rendered buttons stays in 1..T |
| Pagination.InitialPageIsValid | src/pages/ProtectedPage.tsx:68-69 | 100 categories make 17 pages, and the initial page 4 is one of them |
| Accounts.NameError | src/pages/Signup/Register.tsx:20 | "Name is required" exactly when the name is all white space |
| Accounts.EmailError | src/pages/Signup/Register.tsx:21-25 | "Email is required" exactly for a blank email, which wins; "Email is invalid" exactly for a non-blank one with no match of the pattern |
| Accounts.PasswordError | src/pages/Signup/Register.tsx:26-30 | "Password is required" exactly for a blank password of any length, which wins; the length error exactly for a non-blank one under 6 characters, untrimmed |
| Accounts.FormErrors | src/pages/Signup/Register.tsx:18-30 | one entry per failing field, holding that field's single message |
| Accounts.FormValidIff | src/pages/Signup/Register.tsx:18-33 | the form is valid exactly when all three field checks pass |
| Accounts.EmailTaken | src/pages/Signup/Register.tsx:59-62 | the duplicate check is an exact, case-sensitive comparison: it holds if and only if some stored account has exactly this email |
| Accounts.AppendKeepsUnique | src/pages/Signup/Register.tsx:59-71 | appending an account whose email is not taken keeps emails unique |
| Accounts.FirstMatch | src/pages/Login.tsx:33-35 | the position of the first account with both email and password equal, or the length when none has them |
| Accounts.FindUser | src/pages/Login.tsx:33-35 | the lookup hits exactly when some account has the email and the password; the hit is the first such account |
| Accounts.UniqueMatch | src/pages/Login.tsx:33-35 | with unique emails a matching account is the one found |
| Accounts.SessionOf | src/pages/Login.tsx:37-40 | the stored session keeps the account's name and email |
| Accounts.SessionForgetsPassword | src/pages/Login.tsx:37-40 | the session leaves the password out: accounts differing only in it give the same session |
| Storage.Store.Users | src/pages/Signup/Register.tsx:55-57 | the account list as read: an absent key reads as [], a stored list as itself |
| ProtectedPage.CategoryPage.constructor | src/pages/ProtectedPage.tsx:13-14 | no categories, loading, page 4 |
| ProtectedPage.CategoryPage.Persist | src/pages/ProtectedPage.tsx:39-43 | once loading is over the in-memory catalog is written back, before that nothing is |
| ProtectedPage.CategoryPage.Load | src/pages/ProtectedPage.tsx:16-37 | a stored catalog is reused unchanged; with none, 100 unselected categories are built and stored; afterwards the store holds the catalog shown |
| ProtectedPage.CategoryPage.ToggleCategory | src/pages/ProtectedPage.tsx:45-53 | the catalog becomes its toggle, ids unchanged, and the store keeps following it |
| ProtectedPage.CategoryPage.CategoryClick | src/pages/ProtectedPage.tsx:71-90 | toggles, and returns the notice chosen from the old state, which matches the new state |
| ProtectedPage.CategoryPage.SelectedCategories | src/pages/ProtectedPage.tsx:55 | the selected view of the live catalog is `Catalog.Selected` of it, so it keeps catalog order (`SelectedAppend`); it is no longer than the catalog and holds exactly its selected categories |
| ProtectedPage.CategoryPage.PageCount | src/pages/ProtectedPage.tsx:92 | the least page count whose pages of 6 hold the live catalog |
| ProtectedPage.CategoryPage.CurrentCategories | src/pages/ProtectedPage.tsx:93-95 | the shown slice has at most 6 items, and from page 1 up it is the current page's window of the live catalog |
| ProtectedPage.CategoryPage.PageButtons | src/pages/ProtectedPage.tsx:97-102 | for the live page count T: the buttons 1..min(7, T) in ascending order, then one "..." exactly when T > 7, and nothing else |
| ProtectedPage.CategoryPage.Navigate | src/pages/ProtectedPage.tsx:173-218 | the current page becomes the result of the clicked button |
| RegisterPage.ClearError | src/pages/Signup/Register.tsx:41-46 | the edited field no longer shows an error; every other field's entry is kept |
| RegisterPage.RegisterForm.constructor | src/pages/Signup/Register.tsx:9-14 | empty fields, no errors |
| RegisterPage.RegisterForm.ValidateForm | src/pages/Signup/Register.tsx:18-33 | the error map becomes the per-field errors; valid exactly when it is empty |
| RegisterPage.RegisterForm.InputChange | src/pages/Signup/Register.tsx:35-47 | only the edited field takes the value, and only its error is cleared |
| RegisterPage.RegisterForm.Submit | src/pages/Signup/Register.tsx:49-73 | an invalid form stores nothing; a taken email gives "Email already registered" and stores nothing; otherwise the exact record is appended to the list (absent reads as empty) and the email is kept; email uniqueness is preserved; the session is never written |
| LoginPage.LoginForm.constructor | src/pages/Login.tsx:15-17 | empty fields, no error |
| LoginPage.LoginForm.InputChange | src/pages/Login.tsx:20-24 | the edited field takes the value and the error becomes "" |
| LoginPage.LoginForm.Submit | src/pages/Login.tsx:26-47 | succeeds exactly when some stored account has both fields equal; on success the session becomes the first match's name and email; on failure the session is kept and the error is "Invalid email or password"; accounts are never written |
| LoginPage.NoAccountsNoLogin | src/pages/Login.tsx:29-31 | with no account list every login fails |
| HeaderView.GreetingName | src/components/Header.tsx:53 | the greeting shows the user name, or "User" when it is empty, never "" |
| HeaderView.GreetsRegisteredName | src/components/Header.tsx:53 | a name that passed registration is not empty, so its account is greeted by that name after login |
| HeaderView.Header.constructor | src/components/Header.tsx:11 | no name shown |
| HeaderView.Header.Greeting | src/components/Header.tsx:53 | the text after "Hi, ": the shown name, or "User" when it is empty, never "" |
| HeaderView.Header.SyncUserName | src/components/Header.tsx:13-22 | when authenticated with a stored session the shown name becomes its name; otherwise it is kept |
| HeaderView.Header.Logout | src/components/Header.tsx:24-29 | the session slot is emptied whatever it held, the shown name becomes "" and the greeting "User" |
| Walkthrough.RegisterFirst | src/pages/Signup/Register.tsx:49-73 | a valid account on empty storage is registered, and no session is opened |
| Walkthrough.RegisterAgain | src/pages/Signup/Register.tsx:59-67 | registering the same email again leaves the accounts unchanged |
| Walkthrough.LogInAnn | src/pages/Login.tsx:26-47 | a wrong password is refused with "Invalid email or password"; the right one succeeds and stores the session {name, email} |
| Walkthrough.GreetAndLogOut | src/components/Header.tsx:13-29 | the header greets "Ann", then "User" after logout; logging out, twice, leaves no session |
| Walkthrough.LoadFresh | src/pages/ProtectedPage.tsx:16-37 | on empty storage the page shows 100 unselected categories on page 4 of 17 |
| Walkthrough.NavigateAround | src/pages/ProtectedPage.tsx:173-218 | on the 100-item catalog ">>" goes to page 17, which shows 4 items; ">" there stays on 17; "..." does nothing; "<<" then "<" stays on page 1 |
| Walkthrough.ClickFourth | src/pages/ProtectedPage.tsx:71-90 | with distinct ids, clicking the fourth category gives "Added" with its name, and the selection becomes exactly that category, now selected |

## Left out

- JSX rendering, styling, icons, toast position, style and duration: presentation only. The toast text is `Catalog.NoticeText`.
- The uuid and department-name generator: a foreign library. Its 100 (id, name) pairs are the `seeds` parameter of `Load`, and ids are not assumed distinct.
- JSON encoding and the storage APIs: the store holds values as they are. A stored value that is not valid JSON, and a stored empty string, are not modelled.
- The verification code (random digits, session storage, console output): it uses `Math.random` and floating point.
- Routing, the success and logout callbacks, and the show-password toggle: UI plumbing.
- Loading flags and effect scheduling: every handler runs to completion, and `Persist` runs right after each catalog change.
- The "Registration failed" catch path: it only reports storage or encoding exceptions, which the model does not raise.
- Accounts.PasswordError: lengths are counted in Unicode scalar values, while JavaScript counts UTF-16 code units, so the 6-character check can differ for characters outside the Basic Multilingual Plane. `Text.Trim` works on the same scalar values.
- Pagination.TotalPages: computed on integers. `Math.ceil` on a double is the same for these sizes.
- Pagination.Step: negative page numbers are not reachable from the buttons and nothing is claimed about them. `JsSlice` still models them.
