/** The backend: the book and user controllers acting on the database.
    The database is an in-memory store holding the three tables as
    sequences in insertion order, with one identity counter per table. */
module Library {
  import opened Wrappers
  import opened Text
  import opened Models
  import opened Catalog

  /** What an action returns, by HTTP status. A reason is the text body the
      action writes. EmptyBadRequest is a 400 the action gives no message of
      its own. */
  datatype Response<T> =
    | Ok(value: T)                  // 200
    | BadRequest(reason: string)    // 400
    | EmptyBadRequest               // 400
    | NotFound(reason: string)      // 404
    | Unauthorized(reason: string)  // 401
    | ServerError(reason: string)   // 500

  const BookMissing: string := "Book doesn't exist"
  const NotAvailable: string := "Book is not available for borrowing."
  const BorrowFailed: string := "An error occurred while processing the borrowing request."
  const BorrowDone: string := "Book borrowed successfully"
  const BookAdded: string := "Book added successfully"
  const NameEmailRequired: string := "Name and Email are required."
  const PasswordsDiffer: string := "Passwords do not match."
  const EmailTaken: string := "This email is already registered."
  const SaveFailed: string := "An error occurred while saving."
  const RegisterDone: string := "Registration successful"
  const CredentialsRequired: string := "Email and Password are required."
  const InvalidCredentials: string := "Invalid email or password."
  const LoginDone: string := "Login successful"

  datatype BorrowReply = BorrowReply(message: string, borrowingId: int)
  datatype AddBookReply = AddBookReply(message: string, bookId: int)
  datatype Stats = Stats(totalBooks: int, available: int, borrowed: int, activeUsers: int)

  datatype RegisterRequest = RegisterRequest(Name: string, Email: string, Password: string, ConfirmPassword: string)
  datatype RegisterReply = RegisterReply(message: string, userId: int, userName: string, Email: string)
  datatype LoginRequest = LoginRequest(Email: string, Password: string)
  datatype LoginReply = LoginReply(message: string, userId: int, userName: string, email: string, role: string)

  /** A user as listed: the password column is not part of it. */
  datatype UserSummary = UserSummary(UserId: int, FullName: string, Email: string, Role: string)
  /** One borrowing joined with its user's name and its book's title. */
  datatype UserAndBook = UserAndBook(UserId: int, UserName: string, BookId: int, Title: string, borrowDate: int)

  /** The registration checks, in the order the action makes them. */
  predicate NamesGiven(req: RegisterRequest) {
    req.Name != "" && req.Email != ""
  }

  predicate RegistrationAccepted(users: seq<User>, req: RegisterRequest) {
    NamesGiven(req) && req.Password == req.ConfirmPassword && FindUserByEmail(users, req.Email).None?
  }

  /** Identity keys: positive, below the table's counter, increasing. */
  ghost predicate UsersOk(users: seq<User>, nextUserId: int) {
    && 0 < nextUserId
    && (forall i :: 0 <= i < |users| ==> 0 < users[i].UserId < nextUserId)
    && UserKeysIncrease(users)
    && (forall i, j :: 0 <= i < j < |users| ==> users[i].Email != users[j].Email)
  }

  ghost predicate BooksOk(books: seq<Book>, nextBookId: int) {
    && 0 < nextBookId
    && (forall i :: 0 <= i < |books| ==> 0 < books[i].BookId < nextBookId)
    && BookKeysIncrease(books)
  }

  /** Every loan has a fresh key, names an existing user and book, and is
      due one loan period after it starts. */
  ghost predicate LoansOk(loans: seq<Borrowing>, nextLoanId: int, users: seq<User>, books: seq<Book>) {
    && 0 < nextLoanId
    && (forall i :: 0 <= i < |loans| ==> 0 < loans[i].BorrowingId < nextLoanId)
    && LoanKeysIncrease(loans)
    && (forall i :: 0 <= i < |loans| ==>
          && HasUser(users, loans[i].UserId)
          && HasBook(books, loans[i].BookId)
          && loans[i].DueDate == loans[i].BorrowDate + LoanPeriod)
  }

  /** For every book, its available copies and its loans add up to its
      total copies. */
  ghost predicate Accounted(books: seq<Book>, loans: seq<Borrowing>) {
    forall i :: 0 <= i < |books| ==>
      books[i].AvailableCopies + LoansOf(loans, books[i].BookId) == books[i].TotalCopies
  }

  /** All the store's invariants, over the values of its tables. */
  ghost predicate Inv(users: seq<User>, books: seq<Book>, loans: seq<Borrowing>,
                      nextUserId: int, nextBookId: int, nextLoanId: int) {
    && UsersOk(users, nextUserId) && BooksOk(books, nextBookId)
    && LoansOk(loans, nextLoanId, users, books) && Accounted(books, loans)
  }

  /** The book a borrow request names is in the catalogue with a copy
      left to lend. */
  predicate CopyAvailable(books: seq<Book>, bookId: int) {
    match FindBookById(books, bookId)
    case None => false
    case Some(k) => books[k].AvailableCopies > 0
  }

  /** Book k is the first one carrying the key, and it has a copy on the
      shelf. */
  predicate FirstWithCopy(books: seq<Book>, bookId: int, k: int) {
    && 0 <= k < |books| && books[k].BookId == bookId && books[k].AvailableCopies > 0
    && forall j :: 0 <= j < k ==> books[j].BookId != bookId
  }

  /** The borrow guard passes exactly when the first book carrying the key
      has a copy on the shelf. */
  lemma CopyAvailableIff(books: seq<Book>, bookId: int)
    ensures CopyAvailable(books, bookId) <==> exists k :: FirstWithCopy(books, bookId, k)
  {
    match FindBookById(books, bookId)
    case None =>
    case Some(k) =>
      if books[k].AvailableCopies > 0 {
        assert FirstWithCopy(books, bookId, k);
      } else if i :| FirstWithCopy(books, bookId, i) {
        assert false;
      }
  }

  /** Taking one copy of book k keeps every key where it was. */
  lemma TakeCopyKeepsKeys(books: seq<Book>, nextBookId: int, k: nat, books': seq<Book>)
    requires k < |books| && BooksOk(books, nextBookId)
    requires books' == TakeCopy(books, k)
    ensures BooksOk(books', nextBookId)
    ensures forall id :: HasBook(books, id) ==> HasBook(books', id)
  {
    forall id | HasBook(books, id) ensures HasBook(books', id) {
      var j :| 0 <= j < |books| && books[j].BookId == id;
      assert books'[j].BookId == id;
    }
  }

  /** A successful borrow keeps the loan invariants: the new loan has the
      next key and names the book and a known user. */
  lemma BorrowKeepsLoans(users: seq<User>, books: seq<Book>, loans: seq<Borrowing>,
                         nextBookId: int, nextLoanId: int, k: nat, loan: Borrowing, books': seq<Book>)
    requires k < |books|
    requires BooksOk(books, nextBookId) && LoansOk(loans, nextLoanId, users, books)
    requires loan.BorrowingId == nextLoanId && loan.BookId == books[k].BookId
    requires HasUser(users, loan.UserId) && loan.DueDate == loan.BorrowDate + LoanPeriod
    requires books' == TakeCopy(books, k)
    ensures BooksOk(books', nextBookId) && LoansOk(loans + [loan], nextLoanId + 1, users, books')
  {
    TakeCopyKeepsKeys(books, nextBookId, k, books');
    assert books'[k].BookId == loan.BookId;
  }

  /** A successful borrow keeps every book's copies accounted for: book k
      has one copy fewer available and one loan more; no other book changes
      and no other book has the borrowed key. */
  lemma BorrowKeepsAccounts(books: seq<Book>, loans: seq<Borrowing>, nextBookId: int, k: nat,
                            loan: Borrowing, books': seq<Book>)
    requires k < |books| && BooksOk(books, nextBookId) && Accounted(books, loans)
    requires loan.BookId == books[k].BookId
    requires books' == TakeCopy(books, k)
    ensures Accounted(books', loans + [loan])
  {
    forall i | 0 <= i < |books'|
      ensures books'[i].AvailableCopies + LoansOf(loans + [loan], books'[i].BookId) == books'[i].TotalCopies
    {
      LoansOfAppend(loans, loan, books[i].BookId);
      assert i != k ==> books[i].BookId != books[k].BookId;
    }
  }

  /** Adding a book with a fresh key and all copies available keeps every
      invariant: no loan names the new key. */
  lemma AddKeepsInvariants(users: seq<User>, books: seq<Book>, loans: seq<Borrowing>,
                           nextBookId: int, nextLoanId: int, book: Book)
    requires BooksOk(books, nextBookId) && LoansOk(loans, nextLoanId, users, books) && Accounted(books, loans)
    requires book.BookId == nextBookId && book.AvailableCopies == book.TotalCopies
    ensures BooksOk(books + [book], nextBookId + 1)
    ensures LoansOk(loans, nextLoanId, users, books + [book]) && Accounted(books + [book], loans)
  {
    var books' := books + [book];
    forall i | 0 <= i < |loans| ensures loans[i].BookId != book.BookId && HasBook(books', loans[i].BookId) {
      var j :| 0 <= j < |books| && books[j].BookId == loans[i].BookId;
      assert books'[j].BookId == loans[i].BookId;
    }
    NoLoansOf(loans, book.BookId);
  }

  /** Registering a user with a fresh key and an e-mail nobody has keeps
      every invariant. */
  lemma RegisterKeepsInvariants(users: seq<User>, books: seq<Book>, loans: seq<Borrowing>,
                                nextUserId: int, nextLoanId: int, user: User)
    requires UsersOk(users, nextUserId) && LoansOk(loans, nextLoanId, users, books)
    requires user.UserId == nextUserId && FindUserByEmail(users, user.Email).None?
    ensures UsersOk(users + [user], nextUserId + 1) && LoansOk(loans, nextLoanId, users + [user], books)
  {
    var users' := users + [user];
    forall i | 0 <= i < |loans| ensures HasUser(users', loans[i].UserId) {
      var j :| 0 <= j < |users| && users[j].UserId == loans[i].UserId;
      assert users'[j].UserId == loans[i].UserId;
    }
  }

  /** A successful borrow keeps every invariant, and keeps the copies in
      range when they were. */
  lemma LendKeepsInv(users: seq<User>, books: seq<Book>, loans: seq<Borrowing>,
                     nextUserId: int, nextBookId: int, nextLoanId: int, k: nat, loan: Borrowing)
    requires Inv(users, books, loans, nextUserId, nextBookId, nextLoanId)
    requires k < |books| && books[k].AvailableCopies > 0
    requires loan.BorrowingId == nextLoanId && loan.BookId == books[k].BookId
    requires HasUser(users, loan.UserId) && loan.DueDate == loan.BorrowDate + LoanPeriod
    ensures Inv(users, TakeCopy(books, k), loans + [loan], nextUserId, nextBookId, nextLoanId + 1)
    ensures CopiesInRange(books) ==> CopiesInRange(TakeCopy(books, k))
  {
    var books' := TakeCopy(books, k);
    BorrowKeepsLoans(users, books, loans, nextBookId, nextLoanId, k, loan, books');
    BorrowKeepsAccounts(books, loans, nextBookId, k, loan, books');
    if CopiesInRange(books) {
      TakeCopyInRange(books, k, books');
    }
  }

  class Store {
    var users: seq<User>
    var books: seq<Book>
    var borrowings: seq<Borrowing>
    var nextUserId: int
    var nextBookId: int
    var nextBorrowingId: int

    /** The database's guarantees and the invariants the actions keep:
        identity keys below their counters and increasing; e-mail addresses
        unique; every loan naming an existing user and book, due one loan
        period after it starts; and for every book, its available copies
        and its loans adding up to its total copies. */
    ghost predicate Valid()
      reads this
    {
      Inv(users, books, borrowings, nextUserId, nextBookId, nextBorrowingId)
    }

    /** Every book has between zero and TotalCopies copies available. */
    predicate InStock()
      reads this
    {
      CopiesInRange(books)
    }

    /** An empty database. */
    constructor ()
      ensures Valid() && InStock()
      ensures users == [] && books == [] && borrowings == []
    {
      users, books, borrowings := [], [], [];
      nextUserId, nextBookId, nextBorrowingId := 1, 1, 1;
    }

    /** GET showAllBooks: every book, in store order, unfiltered. */
    function GetBooks(): (r: seq<Book>)
      reads this
      ensures r == books
    {
      books
    }

    /** GET {title}: the first book whose title equals the query ignoring
        case, or 404 "Book doesn't exist". */
    function GetBookByTitle(title: string): (r: Response<Book>)
      reads this
      ensures r.Ok? || r == NotFound(BookMissing)
      ensures r.Ok? <==> exists i :: 0 <= i < |books| && TitleMatches(books[i], title)
      ensures r.Ok? ==> exists i :: 0 <= i < |books| && books[i] == r.value && TitleMatches(books[i], title)
                                    && forall j :: 0 <= j < i ==> !TitleMatches(books[j], title)
    {
      match FindBookByTitle(books, title)
      case None => NotFound(BookMissing)
      case Some(i) => Ok(books[i])
    }

    /** Titles that differ only in letter case find the same book. */
    lemma TitleLookupIgnoresCase(t1: string, t2: string)
      requires Lower(t1) == Lower(t2)
      ensures GetBookByTitle(t1) == GetBookByTitle(t2)
    {
      FindBookByTitleIgnoresCase(books, t1, t2);
    }

    /** POST Borrow. A missing book or one with no copy left is refused
        with 400 and nothing changes. A persistence failure (including the
        foreign key on an unknown user) is a 500 with a fixed message and
        nothing changes. Otherwise the book loses exactly one available
        copy and exactly one Borrowing is appended, dated from the clock
        (the request's own dates are ignored), and its key is returned. */
    method BorrowBook(req: BorrowRequest, now: int, saveFails: bool) returns (r: Response<BorrowReply>)
      requires Valid()
      modifies this
      ensures Valid()
      ensures old(InStock()) ==> InStock()
      ensures r == BadRequest(NotAvailable) <==> !CopyAvailable(old(books), req.BookId)
      ensures r == ServerError(BorrowFailed) <==>
        CopyAvailable(old(books), req.BookId) && (saveFails || !HasUser(old(users), req.UserId))
      ensures r.Ok? || r == BadRequest(NotAvailable) || r == ServerError(BorrowFailed)
      ensures !r.Ok? ==> unchanged(this)
      ensures r.Ok? ==>
        && r.value == BorrowReply(BorrowDone, old(nextBorrowingId))
        && users == old(users)
        && books == TakeCopy(old(books), FindBookById(old(books), req.BookId).value)
        && borrowings == old(borrowings) + [NewLoan(old(nextBorrowingId), req.UserId, req.BookId, now)]
    {
      var found := FindBookById(books, req.BookId);
      if found.None? || books[found.value].AvailableCopies <= 0 {
        return BadRequest(NotAvailable);
      }
      var user := FindUserById(users, req.UserId);
      if saveFails || user.None? {
        return ServerError(BorrowFailed);
      }
      assert users[user.value].UserId == req.UserId;
      r := Lend(found.value, NewLoan(nextBorrowingId, req.UserId, req.BookId, now));
    }

    /** The successful half of POST Borrow: the book at position k gives up
        one available copy and the loan is recorded under the next key. */
    method Lend(k: nat, loan: Borrowing) returns (r: Response<BorrowReply>)
      requires Valid() && k < |books| && books[k].AvailableCopies > 0
      requires loan == NewLoan(nextBorrowingId, loan.UserId, books[k].BookId, loan.BorrowDate)
      requires HasUser(users, loan.UserId)
      modifies this
      ensures Valid()
      ensures old(InStock()) ==> InStock()
      ensures r == Ok(BorrowReply(BorrowDone, old(nextBorrowingId)))
      ensures users == old(users) && books == TakeCopy(old(books), k)
      ensures borrowings == old(borrowings) + [loan]
    {
      LendKeepsInv(users, books, borrowings, nextUserId, nextBookId, nextBorrowingId, k, loan);
      books := TakeCopy(books, k);
      borrowings := borrowings + [loan];
      nextBorrowingId := nextBorrowingId + 1;
      r := Ok(BorrowReply(BorrowDone, loan.BorrowingId));
    }

    /** POST AddBook. A missing body is a 400. Otherwise the book gets the
        next key and all its copies available, and is appended. The body's
        TotalCopies is not checked, so the copies stay in range exactly when
        the new book's TotalCopies is not negative. */
    method AddBook(body: Option<Book>) returns (r: Response<AddBookReply>)
      requires Valid()
      modifies this
      ensures Valid()
      ensures users == old(users) && borrowings == old(borrowings)
      ensures body.None? ==> r == EmptyBadRequest && unchanged(this)
      ensures body.Some? ==>
        && r == Ok(AddBookReply(BookAdded, old(nextBookId)))
        && books == old(books) + [body.value.(BookId := old(nextBookId), AvailableCopies := body.value.TotalCopies)]
        && (InStock() <==> old(InStock()) && body.value.TotalCopies >= 0)
    {
      if body.None? {
        return EmptyBadRequest;
      }
      var book := body.value.(BookId := nextBookId, AvailableCopies := body.value.TotalCopies);
      AddKeepsInvariants(users, books, borrowings, nextBookId, nextBorrowingId, book);
      AppendInRange(books, book);
      books := books + [book];
      nextBookId := nextBookId + 1;
      r := Ok(AddBookReply(BookAdded, book.BookId));
    }

    /** GET stats: copies in total, copies available, their difference as
        the copies borrowed, and the number of users. */
    function GetStats(): (r: Stats)
      reads this
      ensures r.totalBooks == SumTotal(books) && r.available == SumAvailable(books)
      ensures r.borrowed == r.totalBooks - r.available
      ensures r.activeUsers == |users|
    {
      var total := SumTotal(books);
      var available := SumAvailable(books);
      Stats(total, available, total - available, |users|)
    }

    /** With the invariants, the copies the statistics call borrowed are
        exactly the loans on record: each loan holds one copy of the one
        book that carries its key. */
    lemma BorrowedCountsLoans()
      requires Valid()
      ensures GetStats().borrowed == |borrowings|
    {
      OnLoanPerBook(books, borrowings);
      LoansPerBookCountsAll(books, borrowings);
    }

    /** While every book is in range, so are the statistics. */
    lemma StatsInRange()
      requires InStock()
      ensures 0 <= GetStats().available <= GetStats().totalBooks
      ensures 0 <= GetStats().borrowed
    {
      SumsInRange(books);
    }

    /** POST register. Checks, in order: name and e-mail given; password and
        confirmation equal; e-mail not yet registered. Each failure is a 400
        and adds no user. An accepted request appends exactly one user with
        the password's hash and the role Member; a persistence failure is a
        500 with a fixed message and adds no user. */
    method Register(req: RegisterRequest, hash: string -> string, saveFails: bool)
      returns (r: Response<RegisterReply>)
      requires Valid()
      modifies this
      ensures Valid()
      ensures books == old(books) && borrowings == old(borrowings)
      ensures !NamesGiven(req) ==> r == BadRequest(NameEmailRequired) && unchanged(this)
      ensures NamesGiven(req) && req.Password != req.ConfirmPassword ==>
        r == BadRequest(PasswordsDiffer) && unchanged(this)
      ensures NamesGiven(req) && req.Password == req.ConfirmPassword && FindUserByEmail(old(users), req.Email).Some? ==>
        r == BadRequest(EmailTaken) && unchanged(this)
      ensures RegistrationAccepted(old(users), req) && saveFails ==>
        r == ServerError(SaveFailed) && unchanged(this)
      ensures RegistrationAccepted(old(users), req) && !saveFails ==>
        && users == old(users) + [NewUser(old(nextUserId), req.Name, req.Email, hash(req.Password))]
        && r == Ok(RegisterReply(RegisterDone, old(nextUserId), req.Name, req.Email))
    {
      if req.Name == "" || req.Email == "" {
        return BadRequest(NameEmailRequired);
      }
      if req.Password != req.ConfirmPassword {
        return BadRequest(PasswordsDiffer);
      }
      if FindUserByEmail(users, req.Email).Some? {
        return BadRequest(EmailTaken);
      }
      var user := NewUser(nextUserId, req.Name, req.Email, hash(req.Password));
      if saveFails {
        return ServerError(SaveFailed);
      }
      RegisterKeepsInvariants(users, books, borrowings, nextUserId, nextBorrowingId, user);
      users := users + [user];
      nextUserId := nextUserId + 1;
      r := Ok(RegisterReply(RegisterDone, user.UserId, user.FullName, user.Email));
    }

    /** POST login. Empty e-mail or password is a 400. An unknown e-mail and
        a wrong password give the same 401, so the answer does not tell
        which was wrong. Success returns the user's key, name, e-mail and
        role. The user is looked up by e-mail among unique e-mails (the
        action asks for the single match). */
    function Login(req: LoginRequest, verify: (string, string) -> bool): (r: Response<LoginReply>)
      reads this
      requires Valid()
      ensures req.Email == "" || req.Password == "" ==> r == BadRequest(CredentialsRequired)
      ensures req.Email != "" && req.Password != "" ==> r.Ok? || r == Unauthorized(InvalidCredentials)
      ensures r.Ok? <==> (req.Email != "" && req.Password != "" &&
        exists i :: 0 <= i < |users| && users[i].Email == req.Email && verify(req.Password, users[i].Password))
      ensures r.Ok? ==>
        exists i :: 0 <= i < |users| && users[i].Email == req.Email &&
          r.value == LoginReply(LoginDone, users[i].UserId, users[i].FullName, users[i].Email, users[i].Role)
    {
      if req.Email == "" || req.Password == "" then BadRequest(CredentialsRequired)
      else match FindUserByEmail(users, req.Email)
        case None => Unauthorized(InvalidCredentials)
        case Some(i) =>
          if !verify(req.Password, users[i].Password) then Unauthorized(InvalidCredentials)
          else Ok(LoginReply(LoginDone, users[i].UserId, users[i].FullName, users[i].Email, users[i].Role))
    }

    /** A stored user whose password checks out signs in as that very user:
        e-mail addresses are unique, so the lookup cannot find anyone else.
        In particular a user just registered with password p signs in with
        p whenever verify accepts p against hash(p). */
    lemma LoginFindsUser(i: nat, password: string, verify: (string, string) -> bool)
      requires Valid() && i < |users| && users[i].Email != "" && password != ""
      requires verify(password, users[i].Password)
      ensures Login(LoginRequest(users[i].Email, password), verify)
              == Ok(LoginReply(LoginDone, users[i].UserId, users[i].FullName, users[i].Email, users[i].Role))
    {
      var j := FindUserByEmail(users, users[i].Email).value;
      assert users[j].Email == users[i].Email;
      assert j == i;
    }

    /** A user who registers and then signs in with the same e-mail and
        password. With a non-empty password that verify accepts against its
        hash, the sign-in returns the user just created. With an empty
        password the registration still goes through, since the action only
        compares the password with its confirmation, but every sign-in is
        refused as a missing field. */
    method RegisterThenLogin(req: RegisterRequest, hash: string -> string, verify: (string, string) -> bool)
      returns (reg: Response<RegisterReply>, login: Response<LoginReply>)
      requires Valid()
      modifies this
      ensures Valid()
      ensures reg.Ok? <==> RegistrationAccepted(old(users), req)
      ensures reg.Ok? && req.Password != "" && verify(req.Password, hash(req.Password)) ==>
        login == Ok(LoginReply(LoginDone, reg.value.userId, req.Name, req.Email, MemberRole))
      ensures req.Password == "" ==> login == BadRequest(CredentialsRequired)
    {
      reg := Register(req, hash, false);
      if reg.Ok? && req.Password != "" && verify(req.Password, hash(req.Password)) {
        LoginFindsUser(|users| - 1, req.Password, verify);
      }
      login := Login(LoginRequest(req.Email, req.Password), verify);
    }

    /** GET getAllUsers: one summary per user, in store order; a summary has
        no password. */
    function GetAllUsers(): (r: seq<UserSummary>)
      reads this
      ensures |r| == |users|
      ensures forall i :: 0 <= i < |r| ==>
        r[i].UserId == users[i].UserId && r[i].FullName == users[i].FullName
        && r[i].Email == users[i].Email && r[i].Role == users[i].Role
    {
      seq(|users|, i reads this requires 0 <= i < |users| =>
        UserSummary(users[i].UserId, users[i].FullName, users[i].Email, users[i].Role))
    }

    /** GET UserBooks: one row per borrowing, in store order, carrying the
        borrowing's user and book keys and date with the name of the user and
        the title of the book they refer to. */
    method GetUserBooks() returns (rows: seq<UserAndBook>)
      requires Valid()
      ensures |rows| == |borrowings|
      ensures forall i :: 0 <= i < |rows| ==>
        && rows[i].UserId == borrowings[i].UserId
        && rows[i].BookId == borrowings[i].BookId
        && rows[i].borrowDate == borrowings[i].BorrowDate
        && UserNamed(users, rows[i].UserId, rows[i].UserName)
        && BookTitled(books, rows[i].BookId, rows[i].Title)
    {
      rows := [];
      var n := 0;
      while n < |borrowings|
        invariant 0 <= n <= |borrowings| && |rows| == n
        invariant forall i :: 0 <= i < n ==>
          && rows[i].UserId == borrowings[i].UserId
          && rows[i].BookId == borrowings[i].BookId
          && rows[i].borrowDate == borrowings[i].BorrowDate
          && UserNamed(users, rows[i].UserId, rows[i].UserName)
          && BookTitled(books, rows[i].BookId, rows[i].Title)
      {
        var loan := borrowings[n];
        var user := users[FindUserById(users, loan.UserId).value];
        var book := books[FindBookById(books, loan.BookId).value];
        rows := rows + [UserAndBook(loan.UserId, user.FullName, loan.BookId, book.Title, loan.BorrowDate)];
        n := n + 1;
      }
    }
  }
}
