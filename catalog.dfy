/** Queries over the three tables, written once and shared by the backend
    actions and the page scripts: the first record a predicate selects
    (LINQ FirstOrDefault / SingleOrDefault), column sums (LINQ Sum) and the
    loans recorded against one book. */
module Catalog {
  import opened Wrappers
  import opened Text
  import opened Models

  /** The first book with the given key. */
  function FindBookById(books: seq<Book>, id: int): (r: Option<nat>)
    ensures r.Some? ==> r.value < |books| && books[r.value].BookId == id
    ensures r.Some? ==> forall j :: 0 <= j < r.value ==> books[j].BookId != id
    ensures r.None? <==> forall j :: 0 <= j < |books| ==> books[j].BookId != id
  {
    if |books| == 0 then None
    else if books[0].BookId == id then Some(0)
    else match FindBookById(books[1..], id)
      case None => None
      case Some(k) => Some(k + 1)
  }

  /** The case-insensitive title comparison of the title lookup. */
  predicate TitleMatches(b: Book, title: string) {
    Lower(b.Title) == Lower(title)
  }

  /** The first book whose title equals the given one, ignoring case. */
  function FindBookByTitle(books: seq<Book>, title: string): (r: Option<nat>)
    ensures r.Some? ==> r.value < |books| && TitleMatches(books[r.value], title)
    ensures r.Some? ==> forall j :: 0 <= j < r.value ==> !TitleMatches(books[j], title)
    ensures r.None? <==> forall j :: 0 <= j < |books| ==> !TitleMatches(books[j], title)
  {
    if |books| == 0 then None
    else if TitleMatches(books[0], title) then Some(0)
    else match FindBookByTitle(books[1..], title)
      case None => None
      case Some(k) => Some(k + 1)
  }

  /** The title lookup sees the title only through its lower-cased form. */
  lemma {:induction false} FindBookByTitleIgnoresCase(books: seq<Book>, t1: string, t2: string)
    requires Lower(t1) == Lower(t2)
    ensures FindBookByTitle(books, t1) == FindBookByTitle(books, t2)
  {
    if |books| > 0 {
      FindBookByTitleIgnoresCase(books[1..], t1, t2);
    }
  }

  /** The first user with the given key. */
  function FindUserById(users: seq<User>, id: int): (r: Option<nat>)
    ensures r.Some? ==> r.value < |users| && users[r.value].UserId == id
    ensures r.Some? ==> forall j :: 0 <= j < r.value ==> users[j].UserId != id
    ensures r.None? <==> forall j :: 0 <= j < |users| ==> users[j].UserId != id
  {
    if |users| == 0 then None
    else if users[0].UserId == id then Some(0)
    else match FindUserById(users[1..], id)
      case None => None
      case Some(k) => Some(k + 1)
  }

  /** The first user registered under the given e-mail address (compared
      exactly, as the database collation is not modelled). */
  function FindUserByEmail(users: seq<User>, email: string): (r: Option<nat>)
    ensures r.Some? ==> r.value < |users| && users[r.value].Email == email
    ensures r.Some? ==> forall j :: 0 <= j < r.value ==> users[j].Email != email
    ensures r.None? <==> forall j :: 0 <= j < |users| ==> users[j].Email != email
  {
    if |users| == 0 then None
    else if users[0].Email == email then Some(0)
    else match FindUserByEmail(users[1..], email)
      case None => None
      case Some(k) => Some(k + 1)
  }

  /** Sum of TotalCopies over the catalogue. */
  function SumTotal(books: seq<Book>): (r: int)
    ensures (forall i :: 0 <= i < |books| ==> books[i].TotalCopies >= 0) ==> r >= 0
  {
    if |books| == 0 then 0 else SumTotal(books[..|books| - 1]) + books[|books| - 1].TotalCopies
  }

  /** Sum of AvailableCopies over the catalogue. */
  function SumAvailable(books: seq<Book>): (r: int)
    ensures (forall i :: 0 <= i < |books| ==> books[i].AvailableCopies >= 0) ==> r >= 0
  {
    if |books| == 0 then 0 else SumAvailable(books[..|books| - 1]) + books[|books| - 1].AvailableCopies
  }

  /** The number of loans recorded against one book. */
  function LoansOf(loans: seq<Borrowing>, bookId: int): nat {
    if |loans| == 0 then 0
    else LoansOf(loans[..|loans| - 1], bookId) + (if loans[|loans| - 1].BookId == bookId then 1 else 0)
  }

  /** Every book has 0 <= AvailableCopies <= TotalCopies. */
  predicate CopiesInRange(books: seq<Book>) {
    forall i :: 0 <= i < |books| ==> 0 <= books[i].AvailableCopies <= books[i].TotalCopies
  }

  /** Replacing one book changes each sum by exactly the difference in that
      book's column, and nothing else. */
  lemma {:induction false} SumsAfterUpdate(books: seq<Book>, k: nat, b: Book)
    requires k < |books|
    ensures SumAvailable(books[k := b]) == SumAvailable(books) - books[k].AvailableCopies + b.AvailableCopies
    ensures SumTotal(books[k := b]) == SumTotal(books) - books[k].TotalCopies + b.TotalCopies
  {
    var n := |books| - 1;
    if k < n {
      assert books[k := b][..n] == books[..n][k := b];
      SumsAfterUpdate(books[..n], k, b);
    } else {
      assert books[k := b][..n] == books[..n];
    }
  }

  /** When every book is in range, so is the catalogue as a whole. */
  lemma {:induction false} SumsInRange(books: seq<Book>)
    requires CopiesInRange(books)
    ensures 0 <= SumAvailable(books) <= SumTotal(books)
  {
    if |books| > 0 {
      SumsInRange(books[..|books| - 1]);
    }
  }

  /** The catalogue after one copy of the book at position k is lent out:
      that book has one copy fewer available, no other book changes, one
      copy fewer is available overall and the total is unchanged. */
  function TakeCopy(books: seq<Book>, k: nat): (r: seq<Book>)
    requires k < |books|
    ensures |r| == |books| && r[k].AvailableCopies == books[k].AvailableCopies - 1
    ensures r[k] == books[k].(AvailableCopies := r[k].AvailableCopies)
    ensures forall i :: 0 <= i < |books| && i != k ==> r[i] == books[i]
    ensures SumAvailable(r) == SumAvailable(books) - 1 && SumTotal(r) == SumTotal(books)
  {
    var b := books[k].(AvailableCopies := books[k].AvailableCopies - 1);
    SumsAfterUpdate(books, k, b);
    books[k := b]
  }

  /** Taking a copy of a book that has one keeps every book in range. */
  lemma TakeCopyInRange(books: seq<Book>, k: nat, books': seq<Book>)
    requires k < |books| && CopiesInRange(books) && books[k].AvailableCopies > 0
    requires books' == TakeCopy(books, k)
    ensures CopiesInRange(books')
  {
  }

  /** An appended book keeps the catalogue in range exactly when it is in
      range itself. */
  lemma AppendInRange(books: seq<Book>, book: Book)
    ensures CopiesInRange(books + [book]) <==>
      CopiesInRange(books) && 0 <= book.AvailableCopies <= book.TotalCopies
  {
    var books' := books + [book];
    if CopiesInRange(books') {
      forall i | 0 <= i < |books| ensures 0 <= books[i].AvailableCopies <= books[i].TotalCopies {
        assert books'[i] == books[i];
      }
      assert books'[|books|] == book;
    }
  }

  /** A book that no loan names has no loans. */
  lemma {:induction false} NoLoansOf(loans: seq<Borrowing>, bookId: int)
    requires forall i :: 0 <= i < |loans| ==> loans[i].BookId != bookId
    ensures LoansOf(loans, bookId) == 0
  {
    if |loans| > 0 {
      NoLoansOf(loans[..|loans| - 1], bookId);
    }
  }

  /** Keys strictly increase in insertion order, as identity keys do. */
  predicate BookKeysIncrease(books: seq<Book>) {
    forall i, j :: 0 <= i < j < |books| ==> books[i].BookId < books[j].BookId
  }

  predicate UserKeysIncrease(users: seq<User>) {
    forall i, j :: 0 <= i < j < |users| ==> users[i].UserId < users[j].UserId
  }

  predicate LoanKeysIncrease(loans: seq<Borrowing>) {
    forall i, j :: 0 <= i < j < |loans| ==> loans[i].BorrowingId < loans[j].BorrowingId
  }

  /** Some user carries key id. */
  ghost predicate HasUser(users: seq<User>, id: int) {
    exists j :: 0 <= j < |users| && users[j].UserId == id
  }

  /** Some book carries key id. */
  ghost predicate HasBook(books: seq<Book>, id: int) {
    exists j :: 0 <= j < |books| && books[j].BookId == id
  }

  /** One more loan is one more loan of its own book and of no other. */
  lemma LoansOfAppend(loans: seq<Borrowing>, x: Borrowing, bookId: int)
    ensures LoansOf(loans + [x], bookId) == LoansOf(loans, bookId) + (if x.BookId == bookId then 1 else 0)
  {
    assert (loans + [x])[..|loans|] == loans;
  }

  /** Some user with key id has the given name. */
  predicate UserNamed(users: seq<User>, id: int, name: string) {
    exists j :: 0 <= j < |users| && users[j].UserId == id && users[j].FullName == name
  }

  /** Some book with key id has the given title. */
  predicate BookTitled(books: seq<Book>, id: int, title: string) {
    exists j :: 0 <= j < |books| && books[j].BookId == id && books[j].Title == title
  }

  /** The number of books carrying key id. */
  function CountKey(books: seq<Book>, id: int): nat {
    if |books| == 0 then 0
    else CountKey(books[..|books| - 1], id) + (if books[|books| - 1].BookId == id then 1 else 0)
  }

  /** Loans summed book by book: the sum over the catalogue of LoansOf. */
  function LoansPerBook(books: seq<Book>, loans: seq<Borrowing>): int {
    if |books| == 0 then 0
    else LoansPerBook(books[..|books| - 1], loans) + LoansOf(loans, books[|books| - 1].BookId)
  }

  /** Where each book's copies are split into available ones and ones on
      loan, the catalogue's copies not available are its loans book by book. */
  lemma {:induction false} OnLoanPerBook(books: seq<Book>, loans: seq<Borrowing>)
    requires forall i :: 0 <= i < |books| ==>
      books[i].AvailableCopies + LoansOf(loans, books[i].BookId) == books[i].TotalCopies
    ensures SumTotal(books) - SumAvailable(books) == LoansPerBook(books, loans)
  {
    if |books| > 0 {
      OnLoanPerBook(books[..|books| - 1], loans);
    }
  }

  /** One more loan adds, to the book-by-book sum, one for every book that
      carries its key. */
  lemma {:induction false} LoansPerBookAppend(books: seq<Book>, loans: seq<Borrowing>, x: Borrowing)
    ensures LoansPerBook(books, loans + [x]) == LoansPerBook(books, loans) + CountKey(books, x.BookId)
  {
    assert (loans + [x])[..|loans|] == loans;
    if |books| > 0 {
      LoansPerBookAppend(books[..|books| - 1], loans, x);
    }
  }

  /** A key no book carries is counted zero times. */
  lemma {:induction false} CountKeyAbsent(books: seq<Book>, id: int)
    requires forall i :: 0 <= i < |books| ==> books[i].BookId != id
    ensures CountKey(books, id) == 0
  {
    if |books| > 0 {
      CountKeyAbsent(books[..|books| - 1], id);
    }
  }

  /** With increasing keys, a key that some book carries is carried by
      exactly one. */
  lemma {:induction false} CountKeyUnique(books: seq<Book>, id: int)
    requires BookKeysIncrease(books)
    requires HasBook(books, id)
    ensures CountKey(books, id) == 1
  {
    var n := |books| - 1;
    var init := books[..n];
    if books[n].BookId == id {
      CountKeyAbsent(init, id);
    } else {
      var k :| 0 <= k < |books| && books[k].BookId == id;
      assert k < n && init[k].BookId == id;
      CountKeyUnique(init, id);
    }
  }

  /** When keys increase and every loan names a book of the catalogue, the
      book-by-book sum of loans counts every loan exactly once. */
  lemma {:induction false} LoansPerBookCountsAll(books: seq<Book>, loans: seq<Borrowing>)
    requires BookKeysIncrease(books)
    requires forall i :: 0 <= i < |loans| ==> HasBook(books, loans[i].BookId)
    ensures LoansPerBook(books, loans) == |loans|
  {
    if |loans| == 0 {
      LoansPerBookNone(books, loans);
    } else {
      var n := |loans| - 1;
      var x := loans[n];
      assert loans == loans[..n] + [x];
      LoansPerBookCountsAll(books, loans[..n]);
      LoansPerBookAppend(books, loans[..n], x);
      CountKeyUnique(books, x.BookId);
    }
  }

  lemma {:induction false} LoansPerBookNone(books: seq<Book>, loans: seq<Borrowing>)
    requires |loans| == 0
    ensures LoansPerBook(books, loans) == 0
  {
    if |books| > 0 {
      LoansPerBookNone(books[..|books| - 1], loans);
    }
  }
}
