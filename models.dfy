/** The records the backend stores and receives. Dates are whole seconds on
    one clock; identifiers are the integers the database assigns. */
module Models {
  import opened Wrappers

  const SecondsPerDay: int := 86400
  /** The borrowing period: two weeks. */
  const LoanDays: int := 14
  const LoanPeriod: int := LoanDays * SecondsPerDay

  const MemberRole: string := "Member"
  const AdminRole: string := "Admin"

  /** A title in the catalogue. BookId is the key; Title and Author are
      required. AvailableCopies is a plain integer: nothing in the record
      keeps it non-negative, only the operations do. The navigation
      collection of a book's borrowings is not a field here: it is the
      Borrowing records whose BookId is this book's (Catalog.LoansOf). */
  datatype Book = Book(
    BookId: int,
    Title: string,
    Author: string,
    AvailableCopies: int,
    TotalCopies: int,
    CoverImageUrl: string)

  /** A registered account. Password holds the password hash, never the
      password itself. */
  datatype User = User(
    UserId: int,
    FullName: string,
    Email: string,
    Password: string,
    Role: string)

  /** The states a loan can be in; a new record is Borrowed. */
  datatype LoanStatus = Borrowed | Returned | Overdue

  /** One loan of one book to one user. ReturnDate stays None until the
      book comes back (no operation of the backend sets it). */
  datatype Borrowing = Borrowing(
    BorrowingId: int,
    UserId: int,
    BookId: int,
    BorrowDate: int,
    DueDate: int,
    ReturnDate: Option<int>,
    Status: LoanStatus)

  /** The body of a borrow request. Its two dates carry defaults but the
      borrow action never reads them. */
  datatype BorrowRequest = BorrowRequest(
    UserId: int,
    BookId: int,
    BorrowDate: int,
    DueDate: int)

  /** A borrow request as deserialised when the body names only the user
      and the book: both dates take their defaults from the clock. */
  function DefaultBorrowRequest(userId: int, bookId: int, now: int): (r: BorrowRequest)
    ensures r.UserId == userId && r.BookId == bookId
    ensures r.BorrowDate == now && r.DueDate - r.BorrowDate == 14 * SecondsPerDay
  {
    BorrowRequest(userId, bookId, now, now + LoanPeriod)
  }

  /** A user as the registration action builds it: the role is set to
      Member, which is also the record's default. */
  function NewUser(id: int, fullName: string, email: string, passwordHash: string): (u: User)
    ensures u.Role == "Member" && u.Role != AdminRole
    ensures u.UserId == id && u.FullName == fullName && u.Email == email
    ensures u.Password == passwordHash
  {
    User(id, fullName, email, passwordHash, MemberRole)
  }

  /** A loan as the borrow action builds it: status Borrowed, no return
      date, due one loan period after it starts. */
  function NewLoan(id: int, userId: int, bookId: int, now: int): (b: Borrowing)
    ensures b.Status == Borrowed && b.ReturnDate == None
    ensures b.BorrowDate == now && b.DueDate - b.BorrowDate == 14 * SecondsPerDay
    ensures b.BorrowingId == id && b.UserId == userId && b.BookId == bookId
  {
    Borrowing(id, userId, bookId, now, now + LoanPeriod, None, Borrowed)
  }
}
