/** The second dashboard script: the figures it accumulates over the
    catalogue returned by the backend. */
module Dashboard {
  import opened Models
  import opened Catalog

  /** The placeholder shown for active users. */
  const ActiveUsersPlaceholder: int := 25

  /** The four figures the script writes into the page. */
  datatype Figures = Figures(totalBooks: int, availableBooks: int, borrowedBooks: int, activeUsers: int)

  /** loadDashboardData. One pass over the books adds each book's available
      copies, so the available figure is the catalogue's available copies
      and matches the backend's statistics. The borrowed figure goes up by
      one per book only when the test on the response array holds
      (arrayBorrowings: the array's own borrowings property is not null);
      for an array parsed from JSON it never does, so the figure stays 0.
      The total is the number of titles and the active users a constant. */
  method LoadDashboardData(books: seq<Book>, arrayBorrowings: bool) returns (f: Figures)
    ensures f.totalBooks == |books|
    ensures f.availableBooks == SumAvailable(books)
    ensures f.borrowedBooks == if arrayBorrowings then |books| else 0
    ensures f.activeUsers == ActiveUsersPlaceholder
    ensures CopiesInRange(books) ==> 0 <= f.availableBooks <= SumTotal(books)
  {
    var totalBooks := 0;
    var availableBooks := 0;
    var borrowedBooks := 0;
    var i := 0;
    while i < |books|
      invariant 0 <= i <= |books|
      invariant availableBooks == SumAvailable(books[..i])
      invariant borrowedBooks == if arrayBorrowings then i else 0
    {
      assert books[..i + 1][..i] == books[..i];
      availableBooks := availableBooks + books[i].AvailableCopies;
      if arrayBorrowings {
        borrowedBooks := borrowedBooks + 1;
      }
      i := i + 1;
    }
    assert books[..i] == books;
    totalBooks := |books|;
    if CopiesInRange(books) {
      SumsInRange(books);
    }
    f := Figures(totalBooks, availableBooks, borrowedBooks, ActiveUsersPlaceholder);
  }
}
