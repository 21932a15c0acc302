/** The search page: the catalogue is loaded once into the page, and the
    text in the search box narrows it to the books whose title or author
    contains that text, ignoring case. */
module Search {
  import opened Wrappers
  import opened Text
  import opened Models

  /** The search box's text as the filter uses it: trimmed, then
      lower-cased. It is the lower-cased box text with only white space cut
      off around it, and it is empty exactly when the box holds only white
      space. */
  function Query(raw: string): (q: string)
    ensures Lower(q) == q
    ensures exists i :: PaddedAt(Lower(raw), q, i)
    ensures q == [] <==> forall k :: 0 <= k < |raw| ==> IsSpace(raw[k])
  {
    var t := Trim(raw);
    LowerIdempotent(t);
    BlankIffTrimmedEmpty(raw);
    LowerTrimPadded(raw);
    Lower(t)
  }

  /** The query neither starts nor ends with white space. */
  lemma QueryTrimmed(raw: string)
    ensures Query(raw) == [] || (!IsSpace(Query(raw)[0]) && !IsSpace(Query(raw)[|Query(raw)| - 1]))
  {
    var t := Trim(raw);
    var q := Lower(t);
    assert q == Query(raw);
    if t != [] {
      var first, last := t[0], t[|t| - 1];
      assert !IsSpace(first) && !IsSpace(last);
      assert q[0] == LowerChar(first) && q[|q| - 1] == LowerChar(last);
      LowerKeepsSpace(first);
      LowerKeepsSpace(last);
    }
  }

  /** A book matches when its lower-cased title or author contains the
      query. */
  predicate Matches(b: Book, q: string)
    ensures q == [] ==> Matches(b, q)
    ensures Matches(b, q) ==> |q| <= |b.Title| || |q| <= |b.Author|
  {
    Includes(Lower(b.Title), q) || Includes(Lower(b.Author), q)
  }

  /** The books that match, in catalogue order. */
  function Filter(books: seq<Book>, q: string): (r: seq<Book>)
    ensures |r| <= |books|
  {
    if |books| == 0 then []
    else (if Matches(books[0], q) then [books[0]] else []) + Filter(books[1..], q)
  }

  /** A book is in the result exactly when it is in the catalogue and
      matches. */
  lemma {:induction false} FilterMembers(books: seq<Book>, q: string, b: Book)
    ensures b in Filter(books, q) <==> b in books && Matches(b, q)
  {
    if |books| > 0 {
      FilterMembers(books[1..], q, b);
      assert books == [books[0]] + books[1..];
    }
  }

  /** Filtering keeps order: filtering two halves and joining the results
      is filtering the whole. */
  lemma {:induction false} FilterAppend(a: seq<Book>, b: seq<Book>, q: string)
    ensures Filter(a + b, q) == Filter(a, q) + Filter(b, q)
  {
    if |a| == 0 {
      assert a + b == b;
    } else {
      var ab := a + b;
      assert ab[0] == a[0] && ab[1..] == a[1..] + b;
      FilterAppend(a[1..], b, q);
      var head := if Matches(a[0], q) then [a[0]] else [];
      assert Filter(ab, q) == head + Filter(a[1..] + b, q);
      assert Filter(a, q) == head + Filter(a[1..], q);
    }
  }

  /** Filtering again by the same query changes nothing. */
  lemma {:induction false} FilterIdempotent(books: seq<Book>, q: string)
    ensures Filter(Filter(books, q), q) == Filter(books, q)
  {
    if |books| > 0 {
      var head := if Matches(books[0], q) then [books[0]] else [];
      FilterAppend(head, Filter(books[1..], q), q);
      FilterIdempotent(books[1..], q);
      if Matches(books[0], q) {
        assert Filter(head, q) == head by {
          assert head[1..] == [];
        }
      }
    }
  }

  /** When every book matches, the result is the whole catalogue. */
  lemma {:induction false} FilterKeepsAll(books: seq<Book>, q: string)
    requires forall i :: 0 <= i < |books| ==> Matches(books[i], q)
    ensures Filter(books, q) == books
  {
    if |books| > 0 {
      FilterKeepsAll(books[1..], q);
    }
  }

  /** filterBooks: an empty query shows the whole catalogue unchanged;
      otherwise the books that match it, in catalogue order. */
  function FilterBooks(allBooks: seq<Book>, raw: string): (r: seq<Book>)
    ensures Query(raw) == [] ==> r == allBooks
    ensures Query(raw) != [] ==> r == Filter(allBooks, Query(raw))
    ensures forall b :: b in r <==> b in allBooks && (Query(raw) == [] || Matches(b, Query(raw)))
  {
    var q := Query(raw);
    if q == [] then allBooks
    else
      assert forall b :: b in Filter(allBooks, q) <==> b in allBooks && Matches(b, q) by {
        forall b ensures b in Filter(allBooks, q) <==> b in allBooks && Matches(b, q) {
          FilterMembers(allBooks, q, b);
        }
      }
      Filter(allBooks, q)
  }

  /** One book's card: the cover when there is a cover address, the title,
      the author, and the number of available copies, or "Out of stock"
      (None) when there are none. */
  datatype Card = Card(cover: Option<string>, title: string, author: string, copies: Option<int>)

  /** What the results area holds. */
  datatype Results = Empty | LoadError | NoBooksFound | Cards(cards: seq<Card>)

  function CardOf(b: Book): (c: Card)
    ensures c.cover.Some? <==> b.CoverImageUrl != ""
    ensures c.copies.None? <==> b.AvailableCopies <= 0
    ensures c.copies.Some? ==> c.copies.value == b.AvailableCopies > 0
    ensures c.title == b.Title && c.author == b.Author
  {
    Card(if b.CoverImageUrl != "" then Some(b.CoverImageUrl) else None,
         b.Title, b.Author,
         if b.AvailableCopies > 0 then Some(b.AvailableCopies) else None)
  }

  /** The results area shows these books: a "No books found." notice for
      none, otherwise one card per book in the given order. */
  predicate Shows(res: Results, books: seq<Book>) {
    && (|books| == 0 ==> res == NoBooksFound)
    && (|books| > 0 ==>
          && res.Cards? && |res.cards| == |books|
          && forall i :: 0 <= i < |books| ==> res.cards[i] == CardOf(books[i]))
  }

  /** The page's state: the catalogue as last loaded and the results area. */
  class SearchPage {
    var allBooks: seq<Book>
    var results: Results

    constructor ()
      ensures allBooks == [] && results == Empty
    {
      allBooks := [];
      results := Empty;
    }

    /** displayBooks: clears the area, then shows the notice or appends one
        card per book. */
    method DisplayBooks(books: seq<Book>)
      modifies this
      ensures allBooks == old(allBooks)
      ensures Shows(results, books)
    {
      results := Empty;
      if |books| == 0 {
        results := NoBooksFound;
        return;
      }
      var cards: seq<Card> := [];
      var i := 0;
      while i < |books|
        invariant 0 <= i <= |books| && |cards| == i
        invariant forall j :: 0 <= j < i ==> cards[j] == CardOf(books[j])
      {
        cards := cards + [CardOf(books[i])];
        i := i + 1;
      }
      results := Cards(cards);
    }

    /** loadAllBooks: a failed fetch leaves the catalogue as it was and
        shows the error notice; otherwise the fetched books become the
        catalogue and are all shown. */
    method LoadAllBooks(fetched: Option<seq<Book>>)
      modifies this
      ensures fetched.None? ==> allBooks == old(allBooks) && results == LoadError
      ensures fetched.Some? ==> allBooks == fetched.value && Shows(results, allBooks)
    {
      if fetched.None? {
        results := LoadError;
        return;
      }
      allBooks := fetched.value;
      DisplayBooks(allBooks);
    }

    /** filterBooks on each keystroke: the catalogue stays, and the area
        shows what the query selects from it. */
    method FilterOnInput(raw: string)
      modifies this
      ensures allBooks == old(allBooks)
      ensures Shows(results, FilterBooks(allBooks, raw))
    {
      DisplayBooks(FilterBooks(allBooks, raw));
    }
  }
}
