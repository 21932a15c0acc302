# Library management system: a Dafny model

This project models the core of a small library-management application. It
has two halves:

- An ASP.NET backend stores users, books and borrowings. Its book controller
  lists the catalogue, looks a title up, lends a copy, adds a book and
  reports statistics. Its user controller registers users, signs them in,
  lists them and lists every borrowing with its user and book.
- Browser scripts sit in front of it. The API client turns failed responses
  into error messages and keeps a session in the browser's key-value
  storage. The search page filters the catalogue by title or author. The
  sign-in page stores the session and sends users by role. The two
  dashboard scripts count the books.

The model is organised by module:

- `Models` holds the records `Book`, `User`, `Borrowing` and `BorrowRequest`, with the defaults the backend applies.
- `Catalog` holds the queries over the tables: first match by key or title, column sums, loans per book.
- `Library` holds the class `Store`. Its `seq` fields are the three tables and its integer counters are the identity keys the database hands out. Each controller action is a method or function on it. The ghost predicate `Valid()` holds these invariants:
  - keys are positive, increasing and below their counter;
  - e-mail addresses are unique;
  - every loan names an existing user and book and is due fourteen days after it starts;
  - for every book, its available copies plus its loans equal its total copies.
- `ApiService` covers `handleResponse` and the session storage, as the class `BrowserStorage` over a `map<string, string>`.
- `Search` covers the query normalisation, the order-preserving filter and the class `SearchPage`, which holds the loaded catalogue and the results area.
- `Pages` covers the sign-in and dashboard page script: the class `Browser` (storage and location) and the dashboard counts.
- `Dashboard` covers the second dashboard script's accumulation loop.
- `Text` provides ASCII lower-casing, JavaScript `trim` and `includes`, and `String(n)`.

Time is an integer number of seconds (`now`), passed in by the caller. The
password hash and its check are parameters `hash` and `verify`, standing
for BCrypt. A persistence failure is a boolean parameter. Network replies
are parameters of the page methods.

`Book` carries a `TotalCopies` column, because the actions of
`front_end/Library2/Controllers/BookController.cs` read and write it. The
older `Library2/Models/Book.cs` does not declare it, and the book class of
the front-end backend is not among the sources: `TotalCopies` is taken from
how the controller uses it.

Lines 1-68 of `Library2/Controllers/BookController.cs` are identical to the
same lines of `front_end/Library2/Controllers/BookController.cs`, so one model
of `getBooks`, `getBookByTitle` and `BorrowBook` covers both copies.

## Model

| member | source | states |
|---|---|---|
| Models.DefaultBorrowRequest | Library2/DTO/BorrowRequest.cs:3-9 | a request naming only user and book is dated now and due fourteen days later |
| Models.NewUser | front_end/Library2/Controllers/UserController.cs:43-50 | a registered user gets the given name, e-mail and password hash, and the role Member, which is not Admin |
| Models.NewLoan | front_end/Library2/Controllers/BookController.cs:49-56 | a new loan is Borrowed, has no return date, starts now and is due fourteen days later |
| Catalog.FindBookById | front_end/Library2/Controllers/BookController.cs:44 | the first book with the key, or None exactly when no book has it |
| Catalog.FindBookByTitle | front_end/Library2/Controllers/BookController.cs:30 | the first book whose lower-cased title equals the lower-cased query, or None exactly when there is none |
| Catalog.FindBookByTitleIgnoresCase | front_end/Library2/Controllers/BookController.cs:30 | queries with the same lower-cased form find the same book |
| Catalog.FindUserById | Library2/Models/Borrowing.cs:11-13 | the first user with the key (the user a loan's foreign key refers to), or None exactly when there is none |
| Catalog.FindUserByEmail | front_end/Library2/Controllers/UserController.cs:36 | the first user with exactly this e-mail, or None exactly when there is none |
| Catalog.SumsAfterUpdate | front_end/Library2/Controllers/BookController.cs:87-88 | replacing one book changes each column sum by exactly that book's change |
| Catalog.SumTotal | front_end/Library2/Controllers/BookController.cs:87 | the sum of TotalCopies is not negative when no book's total is negative |
| Catalog.SumAvailable | front_end/Library2/Controllers/BookController.cs:88 | the sum of AvailableCopies is not negative when no book's available count is negative |
| Catalog.SumsInRange | front_end/Library2/Controllers/BookController.cs:87-89 | when every book has 0 <= available <= total, so do the column sums, hence borrowed is not negative |
| Catalog.TakeCopy | front_end/Library2/Controllers/BookController.cs:58 | lending a copy lowers that book's available copies by one, changes no other book, lowers the available sum by one and keeps the total |
| Catalog.TakeCopyInRange | front_end/Library2/Controllers/BookController.cs:45-58 | taking a copy from a book that has one keeps every book in range |
| Catalog.AppendInRange | front_end/Library2/Controllers/BookController.cs:76-78 | appending a book keeps every book in range exactly when the new book is in range |
| Catalog.NoLoansOf | Library2/Models/Borrowing.cs:17-18 | a book no loan names has no loans |
| Catalog.LoansOfAppend | front_end/Library2/Controllers/BookController.cs:59 | a new loan counts once for its own book and for no other |
| Catalog.OnLoanPerBook | front_end/Library2/Controllers/BookController.cs:87-89 | when every book's available copies and loans add up to its total, total minus available is the sum of loans per book |
| Catalog.LoansPerBookAppend | front_end/Library2/Controllers/BookController.cs:59 | one more loan adds one to the per-book loan sum for each book carrying its key |
| Catalog.CountKeyAbsent | Library2/Models/Book.cs:7-8 | a key no book carries is counted zero times |
| Catalog.CountKeyUnique | Library2/Models/Book.cs:7-8 | with increasing keys, a key some book carries is carried by exactly one book |
| Catalog.LoansPerBookCountsAll | Library2/Models/Borrowing.cs:16-19 | when every loan names a book, the per-book loan sum counts every loan exactly once |
| Catalog.LoansPerBookNone | Library2/Models/Borrowing.cs:16-19 | with no loans, the per-book loan sum is zero |
| Library.TakeCopyKeepsKeys | front_end/Library2/Controllers/BookController.cs:58 | taking a copy keeps the book keys valid and keeps every key present |
| Library.BorrowKeepsLoans | front_end/Library2/Controllers/BookController.cs:49-59 | a loan with the next key, an existing user and the lent book keeps the loan invariants |
| Library.BorrowKeepsAccounts | front_end/Library2/Controllers/BookController.cs:58-59 | one copy fewer and one loan more for the same book keep every book's copies accounted for |
| Library.AddKeepsInvariants | front_end/Library2/Controllers/BookController.cs:76-79 | a book with a fresh key and all copies available keeps the key, loan and accounting invariants |
| Library.RegisterKeepsInvariants | front_end/Library2/Controllers/UserController.cs:43-56 | a user with a fresh key and an unused e-mail keeps the user and loan invariants |
| Library.LendKeepsInv | front_end/Library2/Controllers/BookController.cs:57-61 | a successful borrow keeps all invariants, and keeps the copies in range when they were |
| Library.CopyAvailableIff | front_end/Library2/Controllers/BookController.cs:44-45 | the borrow guard passes exactly when the first book carrying the key has more than zero copies available |
| Library.Store.constructor | front_end/Library2/Models/LibraryContext.cs:15-19 | an empty database satisfies every invariant |
| Library.Store.GetBooks | front_end/Library2/Controllers/BookController.cs:19-25 | every book, in store order |
| Library.Store.GetBookByTitle | front_end/Library2/Controllers/BookController.cs:27-39 | 404 "Book doesn't exist" exactly when no title matches ignoring case; otherwise the first matching book |
| Library.Store.TitleLookupIgnoresCase | front_end/Library2/Controllers/BookController.cs:30 | titles that differ only in letter case give the same answer |
| Library.Store.BorrowBook | front_end/Library2/Controllers/BookController.cs:41-68 | 400 and no change exactly when the book is missing or has no copy. 500 and no change exactly when saving fails or the user does not exist. Otherwise one copy fewer, one Borrowing appended with the next key, and the new key returned. Keeps the invariants and the copies in range |
| Library.Store.Lend | Library2/Controllers/BookController.cs:57-61 | the successful borrow: the book gives up one copy, the loan is appended under the next key, and the invariants are kept |
| Library.Store.AddBook | front_end/Library2/Controllers/BookController.cs:70-81 | a missing body is a 400 with no change. Otherwise the book is appended with the next key and all its copies available, and its key is returned. The copies stay in range exactly when its TotalCopies is not negative |
| Library.Store.GetStats | front_end/Library2/Controllers/BookController.cs:84-93 | total and available are the column sums, borrowed is their difference, and active users is the number of users |
| Library.Store.BorrowedCountsLoans | front_end/Library2/Controllers/BookController.cs:87-89 | under the invariants, the borrowed figure equals the number of Borrowing records |
| Library.Store.StatsInRange | front_end/Library2/Controllers/BookController.cs:87-89 | when every book is in range, 0 <= available <= total and borrowed >= 0 |
| Library.Store.Register | front_end/Library2/Controllers/UserController.cs:20-65 | checks in order for missing name or e-mail, mismatched passwords and a taken e-mail, each a 400 with no change. A save failure is a 500 with no change. Otherwise exactly one Member user with the hashed password is appended, and its key, name and e-mail are returned |
| Library.Store.Login | front_end/Library2/Controllers/UserController.cs:67-96 | an empty field gives 400. Success happens exactly when some user has the e-mail and the password verifies, and returns that user's key, name, e-mail and role. Every other case is the same 401 |
| Library.Store.LoginFindsUser | front_end/Library2/Controllers/UserController.cs:77-95 | with unique e-mails, a user whose password verifies signs in as that very user |
| Library.Store.RegisterThenLogin | front_end/Library2/Controllers/UserController.cs:30-95 | a registration succeeds exactly when its checks pass; a successful registration with a non-empty password that verify accepts against its hash is followed by a sign-in returning the new user's key, name, e-mail and role Member; with an empty password every sign-in is a 400 |
| Library.Store.GetAllUsers | front_end/Library2/Controllers/UserController.cs:98-109 | one summary per user in order, with key, name, e-mail and role but no password |
| Library.Store.GetUserBooks | front_end/Library2/Controllers/UserController.cs:112-135 | one row per borrowing in order, with its user and book keys and date, the name of a user with that key and the title of a book with that key |
| ApiService.StatusMessage | front_end/front_end/JS/api-service.js:35 | the fallback message is the error prefix followed by the status code and the status text |
| ApiService.HandleResponse | front_end/front_end/JS/api-service.js:17-41 | ok resolves to the body unchanged. Otherwise the message is a non-empty message property, else a string body, else the status message. A null body throws a TypeError |
| ApiService.Rethrown | front_end/front_end/JS/api-service.js:65-71 | a message mentioning "Failed to fetch" becomes the connection message; any other passes unchanged |
| ApiService.StatusOf | front_end/Library2/Controllers/BookController.cs:37-66 | a backend answer has a 2xx status exactly when it is a success |
| ApiService.ReasonOf | front_end/Library2/Controllers/UserController.cs:26-84 | every refusal except the body-less 400 carries a reason text |
| ApiService.BackendReasonShown | front_end/front_end/JS/api-service.js:29-37 | a backend refusal's reason text reaches the page unchanged, unless it mentions a fetch failure |
| ApiService.IdText | front_end/front_end/JS/api-service.js:83 | the user id is written as its decimal text exactly when it is truthy |
| ApiService.LoginSession | front_end/front_end/JS/api-service.js:168-175 | a session is kept exactly when the reply has a truthy userId; its name falls back to the e-mail when no name came back |
| ApiService.RegisterSession | front_end/front_end/JS/api-service.js:140-147 | a session is kept exactly when the reply has a truthy userId; its role is Member |
| ApiService.LoginData | front_end/Library2/Controllers/UserController.cs:88-95 | the client reads the backend's login reply field for field |
| ApiService.RedirectToDashboard | front_end/front_end/JS/api-service.js:316-322 | dashbord.html exactly for the role Admin, index.html for every other role |
| ApiService.LoginRoleKept | front_end/front_end/JS/api-service.js:168-175 | after a backend login with a key and a role, the session keeps that role and the redirect is the dashboard exactly for admins |
| ApiService.BrowserStorage.constructor | front_end/front_end/JS/api-service.js:78-116 | the storage starts with the given entries |
| ApiService.BrowserStorage.GetUserData | front_end/front_end/JS/api-service.js:94-97 | the stored session text when the 'user' entry is present and not empty |
| ApiService.BrowserStorage.IsLoggedIn | front_end/front_end/JS/api-service.js:114-116 | logged in exactly when the 'user' entry is present and not empty |
| ApiService.BrowserStorage.SaveUserData | front_end/front_end/JS/api-service.js:78-88 | no data changes nothing. Otherwise the encoded object is written under 'user', each truthy field goes under its key, falsy fields leave their keys alone, and the user is logged in afterwards. Non-session keys are untouched |
| ApiService.BrowserStorage.SetIfTruthy | front_end/front_end/JS/api-service.js:83-86 | a guarded write: the key is set exactly when the value is truthy |
| ApiService.BrowserStorage.ClearUserData | front_end/front_end/JS/api-service.js:102-116 | exactly the five session keys are removed, everything else stays, and no one is logged in |
| ApiService.BrowserStorage.RememberLogin | front_end/front_end/JS/api-service.js:167-175 | without a truthy userId nothing changes. Otherwise everything saveUserData writes for the login session: the encoded session under 'user', the key's text, the e-mail, the name (falling back to the e-mail) and the role, each under its key when truthy; the user is then logged in |
| ApiService.BrowserStorage.RememberRegistration | front_end/front_end/JS/api-service.js:139-147 | without a truthy userId nothing changes. Otherwise everything saveUserData writes for the registration session: the encoded session under 'user', the key's text, the name and the Email property when truthy, and the role Member; the user is then logged in |
| Search.Query | front_end/JS/search.js:44 | the query is the lower-cased box text with only white space cut off around it; it is lower-case, and empty exactly when the box holds only white space |
| Search.QueryTrimmed | front_end/JS/search.js:44 | the query neither starts nor ends with white space |
| Search.Matches | front_end/JS/search.js:51-54 | the empty query matches every book, and a matching query is no longer than the title or the author |
| Search.Filter | front_end/JS/search.js:51-54 | the filter never returns more books than it is given |
| Search.FilterMembers | front_end/JS/search.js:51-54 | a book is in the result exactly when it is in the catalogue and its lower-cased title or author contains the query |
| Search.FilterAppend | front_end/JS/search.js:51-54 | the filter keeps catalogue order: filtering a concatenation is concatenating the filtered parts |
| Search.FilterIdempotent | front_end/JS/search.js:51-54 | filtering twice by the same query is filtering once |
| Search.FilterKeepsAll | front_end/JS/search.js:51-54 | when every book matches, the result is the whole catalogue |
| Search.FilterBooks | front_end/JS/search.js:43-57 | an empty query gives the catalogue unchanged. Otherwise the result is the order-preserving filter, and a book is shown exactly when it matches |
| Search.CardOf | front_end/JS/search.js:32-37 | the cover appears exactly when there is a cover address, and "Out of stock" appears exactly when no copy is available |
| Search.SearchPage.constructor | front_end/JS/search.js:2 | the page starts with an empty catalogue and empty results |
| Search.SearchPage.DisplayBooks | front_end/JS/search.js:19-40 | no books shows "No books found."; otherwise one card per book, in order |
| Search.SearchPage.LoadAllBooks | front_end/JS/search.js:5-16 | a failed fetch keeps the catalogue and shows the error notice. Otherwise the fetched books become the catalogue and are all shown |
| Search.SearchPage.FilterOnInput | front_end/JS/search.js:43-57 | the catalogue stays, and the results show what the query selects |
| Pages.PageAfterLogin | front_end/JS/script.js:68-72 | dashbord.html exactly for Admin, search.html for every other role |
| Pages.NewUserLandsOnSearch | front_end/JS/script.js:68-72 | a freshly registered user (role Member) lands on the search page |
| Pages.LastSegment | front_end/JS/script.js:82 | the part of the path after its last slash |
| Pages.LastSegmentLower | front_end/JS/script.js:82 | taking the last segment and lower-casing can be done in either order |
| Pages.OnDashboardIgnoresCase | front_end/JS/script.js:82-85 | whether a path is the dashboard page does not depend on letter case anywhere in the path |
| Pages.AdminStoredAfterWrite | front_end/JS/script.js:63-86 | a storage without a role is not an admin's; after the role is written it is an admin's exactly when the role written is Admin, and writing another key does not change that |
| Pages.Browser.constructor | front_end/JS/script.js:81-93 | the browser starts with the given storage and page |
| Pages.Browser.Login | front_end/JS/script.js:32-78 | a request is sent exactly when both fields are non-empty. A refusal or an unreachable server changes nothing. Success stores the key, e-mail and role and moves to the role's page; the stored role is Admin exactly for admins |
| Pages.Browser.GuardPage | front_end/JS/script.js:81-93 | on the dashboard page, in any letter case, a stored role other than Admin sends the browser home and an admin gets the dashboard. Other pages are untouched, and storage never changes |
| Pages.CountInStock | front_end/JS/script.js:109 | the number of books with more than zero copies available |
| Pages.CountExhausted | front_end/JS/script.js:112 | the number of books with exactly zero copies available |
| Pages.LoadDashboard | front_end/JS/script.js:95-121 | the total is the number of books, available the number of books with a copy available, borrowed the number with exactly zero; the two counts are non-negative with a sum at most the total |
| Pages.CountsBounded | front_end/JS/script.js:106-115 | no book is counted twice |
| Pages.CountsCover | front_end/JS/script.js:106-115 | available plus borrowed equals the number of books exactly when no book has negative available copies |
| Pages.StockedCountsCover | front_end/JS/script.js:106-115 | with the backend keeping every book in range, the two counts cover every book |
| Dashboard.LoadDashboardData | front_end/JS/dashboard.js:3-31 | the total is the number of books. Available is the sum of available copies, the backend's own statistic. Borrowed stays 0 unless the array itself has a borrowings property. Active users is 25 |
| Text.LowerChar | front_end/Library2/Controllers/BookController.cs:30 | A-Z map to a-z, and every other character is unchanged |
| Text.Lower | front_end/JS/search.js:44 | same length, each character lower-cased |
| Text.LowerIdempotent | front_end/JS/search.js:52-53 | lower-casing twice is lower-casing once |
| Text.LowerKeepsSpace | front_end/JS/search.js:44 | lower-casing neither makes nor removes white space |
| Text.IsSpace | front_end/JS/search.js:44 | no digit, ASCII letter or slash is white space |
| Text.LowerPadded | front_end/JS/search.js:44 | lower-casing keeps a slice in place with white space around it |
| Text.TrimStart | front_end/JS/search.js:44 | drops exactly the leading white space |
| Text.TrimEnd | front_end/JS/search.js:44 | drops exactly the trailing white space |
| Text.Trim | front_end/JS/search.js:44 | a slice with only white space around it, neither starting nor ending with white space |
| Text.TrimBlank | front_end/JS/search.js:44-46 | an all-white-space string trims to empty |
| Text.BlankIffTrimmedEmpty | front_end/JS/search.js:44-46 | a string trims to empty exactly when it is all white space |
| Text.IncludesAt | front_end/JS/search.js:52-53 | includes holds exactly when the query occurs at some position |
| Text.Includes | front_end/JS/search.js:52-53 | a string that starts with the query includes it, and an included query is no longer than the string |
| Text.NatToString | front_end/front_end/JS/api-service.js:83 | decimal digits denoting exactly n, without a leading zero except for 0 itself |
| Text.IntToString | front_end/front_end/JS/api-service.js:35 | a leading minus exactly for negative numbers, followed by the digits of the magnitude; the digits denote the number |

## Left out

- Network, JSON and the DOM are not modelled. This covers `fetch`, `makeRequest`'s request building, content-type parsing, `JSON.stringify`/`JSON.parse`, alerts, `console` output and HTML templating. Replies are parameters, the 'user' entry is written through an `encode` parameter, and `GetUserData` returns the stored text rather than the parsed object.
- `displayError`, `displaySuccess` and `requireAuth` are not modelled; they only render text or navigate. `logoutUser` is `ClearUserData`. `register()` in `front_end/JS/script.js` is page wiring that only alerts and navigates.
- BCrypt (`PasswordHelper`) is the pair of parameters `hash` and `verify`. Sign-in after registration (`RegisterThenLogin`) is proved for a non-empty password under the hypothesis that `verify(p, hash(p))` holds. Registration accepts an empty password, since it only compares the password with its confirmation, and such a user can never sign in: `RegisterThenLogin` states that lock-out.
- The encoding of the session object is the `encode` parameter, with the hypothesis `NeverEmpty(encode)`: JSON text of an object is never empty.
- Models.NewLoan: the borrow action reads the clock twice, once for the borrow date and once for the due date, so the stored due date is slightly more than fourteen days after the borrow date. The model reads the clock once, so the gap is exactly fourteen days.
- Library.Store.Login: e-mails are unique under `Valid()`, so the case where `SingleOrDefault` throws on two matches cannot arise and is not modelled.
- Text.LowerChar: culture-dependent lower-casing (C# `ToLower`, JavaScript `toLowerCase`) is modelled for ASCII letters only. SQL collation (case-insensitive e-mail or title comparison in the database) is not modelled; comparisons are exact after lower-casing.
- Ordering: `FirstOrDefault` without `OrderBy` is modelled as the first match in store order. The database's own order is not modelled.
- Library.Store.GetStats: the 32-bit `int` sums of C# are unbounded integers here, so overflow is not modelled.
- Library.Store.AddBook: `SaveChanges` is not guarded in the source. Its failure (an unhandled exception) is not modelled, and neither is model validation of the `[Required]` fields or null strings.
- Library.Store.BorrowBook: the database's own foreign-key check on the user is modelled as the 500 branch when the user does not exist. Other save failures are the `saveFails` parameter. The race between two concurrent borrows of the last copy, and transactions, are not modelled; the model is sequential.
- Returning a book and the Returned/Overdue transitions are not implemented in the source and are not modelled. `Borrowing.Status` is a free string in the source; the model names its three documented values.
- Identity keys come from counters that only grow. Gaps after failed saves and reseeding are not modelled.
- ApiService.RegisterSession: `registerUser` reads the reply property `Email`. The backend's reply declares it as `Email`, and under the default camel-case JSON policy it arrives as `email`, so in practice that read gives undefined. The model takes that property's value as a parameter and leaves the serialiser policy out.
- ApiService.HandleResponse: a message property that is a non-string truthy value is not modelled; messages are strings or absent.
- Pages.Browser.Login: when the reply lacks a field, `localStorage` stores the text "undefined". Replies here always carry the backend's fields.
- The body-less 400 of `AddBook` carries a body generated by the framework. Its error text on the page is not modelled (`ReasonOf` gives None).
