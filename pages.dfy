/** The sign-in page and the admin dashboard page: the sign-in guard and
    redirect, the admin-only guard of the dashboard, and the dashboard's
    book counts. */
module Pages {
  import opened Wrappers
  import opened Text
  import opened Models
  import opened Catalog
  import opened Library

  /** The storage keys these pages use (not the ones of the API client). */
  const UserIdItem: string := "userId"
  const EmailItem: string := "email"
  const RoleItem: string := "role"

  const DashboardPage: string := "dashbord.html"
  const SearchPage: string := "search.html"
  const HomePage: string := "index.html"

  /** Where a signed-in user goes: the dashboard for the role Admin, the
      search page for every other role. */
  function PageAfterLogin(role: string): (page: string)
    ensures page == DashboardPage <==> role == AdminRole
    ensures page == SearchPage <==> role != AdminRole
  {
    if role == AdminRole then DashboardPage else SearchPage
  }

  /** Every registered user starts as a Member, so a first sign-in lands on
      the search page. */
  lemma NewUserLandsOnSearch(id: int, name: string, email: string, passwordHash: string)
    ensures PageAfterLogin(NewUser(id, name, email, passwordHash).Role) == SearchPage
  {
  }

  /** pathname.split('/').pop(): what follows the last slash, or the whole
      path when there is none. */
  function LastSegment(path: string): (seg: string)
    ensures '/' !in seg
    ensures |seg| <= |path| && seg == path[|path| - |seg|..]
    ensures |seg| < |path| ==> path[|path| - |seg| - 1] == '/'
  {
    if |path| == 0 || path[|path| - 1] == '/' then []
    else LastSegment(path[..|path| - 1]) + [path[|path| - 1]]
  }

  /** The dashboard guard applies to a path whose last segment is the
      dashboard page in any letter case. */
  predicate OnDashboard(path: string) {
    Lower(LastSegment(path)) == DashboardPage
  }

  /** The stored role is Admin. A missing role is not. */
  predicate AdminStored(items: map<string, string>) {
    RoleItem in items && items[RoleItem] == AdminRole
  }

  /** A storage with no role is not an admin's; after the role is written,
      it is an admin's exactly when the written role is Admin. */
  lemma AdminStoredAfterWrite(items: map<string, string>, key: string, v: string)
    ensures RoleItem !in items ==> !AdminStored(items)
    ensures key == RoleItem ==> (AdminStored(items[key := v]) <==> v == AdminRole)
    ensures key != RoleItem ==> (AdminStored(items[key := v]) <==> AdminStored(items))
  {
  }

  /** Lower-casing and taking the last path segment commute, since no
      letter lower-cases to a slash. */
  lemma {:induction false} LastSegmentLower(path: string)
    ensures LastSegment(Lower(path)) == Lower(LastSegment(path))
    decreases |path|
  {
    if |path| > 0 {
      var n := |path| - 1;
      var init, c := path[..n], path[n];
      assert path == init + [c];
      LowerSnoc(init, c);
      var lp := Lower(init) + [LowerChar(c)];
      assert lp[..n] == Lower(init) && lp[n] == LowerChar(c);
      if c != '/' {
        assert LowerChar(c) != '/';
        LastSegmentLower(init);
        assert LastSegment(lp) == LastSegment(Lower(init)) + [LowerChar(c)];
        assert LastSegment(path) == LastSegment(init) + [c];
        LowerSnoc(LastSegment(init), c);
      }
    }
  }

  /** The dashboard guard does not depend on letter case anywhere in the
      path. */
  lemma OnDashboardIgnoresCase(path: string)
    ensures OnDashboard(path) <==> OnDashboard(Lower(path))
  {
    LastSegmentLower(path);
    LowerIdempotent(LastSegment(path));
  }

  /** What the dashboard guard decides. */
  datatype Guard = OtherPage | SentHome | ShowDashboard

  /** The browser state these pages touch: the key-value storage and the
      current page. */
  class Browser {
    var items: map<string, string>
    var location: string

    constructor (initial: map<string, string>, page: string)
      ensures items == initial && location == page
    {
      items := initial;
      location := page;
    }

    /** login. With an empty e-mail or password nothing is sent and nothing
        changes. A refusal, or a server that cannot be reached (None),
        changes nothing either. On success the user's key, e-mail and role
        are stored and the browser moves to the page for that role; the
        stored role is Admin exactly when the user is an admin. */
    method Login(email: string, password: string, answer: Option<Response<LoginReply>>) returns (sent: bool)
      modifies this
      ensures sent <==> email != "" && password != ""
      ensures !sent || answer.None? || !answer.value.Ok? ==> items == old(items) && location == old(location)
      ensures sent && answer.Some? && answer.value.Ok? ==>
        var v := answer.value.value;
        && items == old(items)[UserIdItem := IntToString(v.userId)][EmailItem := v.email][RoleItem := v.role]
        && location == PageAfterLogin(v.role)
        && (AdminStored(items) <==> v.role == AdminRole)
    {
      if email == "" || password == "" {
        return false;
      }
      sent := true;
      if answer.None? || !answer.value.Ok? {
        return;
      }
      var data := answer.value.value;
      items := items[UserIdItem := IntToString(data.userId)];
      items := items[EmailItem := data.email];
      items := items[RoleItem := data.role];
      location := PageAfterLogin(data.role);
    }

    /** The page-load guard. On the dashboard page, anyone whose stored role
        is not Admin is sent to the home page before anything loads; an
        admin gets the dashboard loaded. Other pages are left alone. The
        storage never changes. */
    method GuardPage(path: string) returns (g: Guard)
      modifies this
      ensures items == old(items)
      ensures !OnDashboard(path) ==> g == OtherPage && location == old(location)
      ensures OnDashboard(path) && !AdminStored(items) ==> g == SentHome && location == HomePage
      ensures OnDashboard(path) && AdminStored(items) ==> g == ShowDashboard && location == old(location)
    {
      var currentPage := Lower(LastSegment(path));
      if currentPage != DashboardPage {
        return OtherPage;
      }
      if !(RoleItem in items && items[RoleItem] == AdminRole) {
        location := HomePage;
        return SentHome;
      }
      g := ShowDashboard;
    }
  }

  /** The positions of the books with a copy available. */
  function InStockAt(books: seq<Book>): set<int> {
    set i | 0 <= i < |books| && books[i].AvailableCopies > 0
  }

  /** The positions of the books with no copy available. */
  function ExhaustedAt(books: seq<Book>): set<int> {
    set i | 0 <= i < |books| && books[i].AvailableCopies == 0
  }

  /** Taking the last book off the catalogue takes its position off the
      in-stock set, and nothing else. */
  lemma InStockSplit(books: seq<Book>)
    requires |books| > 0
    ensures |InStockAt(books)| == |InStockAt(books[..|books| - 1])| + (if books[|books| - 1].AvailableCopies > 0 then 1 else 0)
  {
    var n := |books| - 1;
    var init := books[..n];
    var a, b := InStockAt(books), InStockAt(init);
    forall i ensures i in b <==> 0 <= i < n && books[i].AvailableCopies > 0 {
      if 0 <= i < n { assert init[i] == books[i]; }
    }
    assert n !in b;
    if books[n].AvailableCopies > 0 {
      assert a == b + {n};
    } else {
      forall i ensures i in a <==> i in b {
        assert i in a <==> 0 <= i < n && books[i].AvailableCopies > 0;
      }
      assert a == b;
    }
  }

  /** The same for the exhausted set. */
  lemma ExhaustedSplit(books: seq<Book>)
    requires |books| > 0
    ensures |ExhaustedAt(books)| == |ExhaustedAt(books[..|books| - 1])| + (if books[|books| - 1].AvailableCopies == 0 then 1 else 0)
  {
    var n := |books| - 1;
    var init := books[..n];
    var a, b := ExhaustedAt(books), ExhaustedAt(init);
    forall i ensures i in b <==> 0 <= i < n && books[i].AvailableCopies == 0 {
      if 0 <= i < n { assert init[i] == books[i]; }
    }
    assert n !in b;
    if books[n].AvailableCopies == 0 {
      assert a == b + {n};
    } else {
      forall i ensures i in a <==> i in b {
        assert i in a <==> 0 <= i < n && books[i].AvailableCopies == 0;
      }
      assert a == b;
    }
  }

  /** filter(book => book.availableCopies > 0).length: the number of books
      with a copy available. */
  function CountInStock(books: seq<Book>): (n: nat)
    ensures n <= |books|
    ensures n == |InStockAt(books)|
  {
    if |books| == 0 then 0
    else
      InStockSplit(books);
      CountInStock(books[..|books| - 1]) + (if books[|books| - 1].AvailableCopies > 0 then 1 else 0)
  }

  /** filter(book => book.availableCopies === 0).length: the number of
      books with no copy available. */
  function CountExhausted(books: seq<Book>): (n: nat)
    ensures n <= |books|
    ensures n == |ExhaustedAt(books)|
  {
    if |books| == 0 then 0
    else
      ExhaustedSplit(books);
      CountExhausted(books[..|books| - 1]) + (if books[|books| - 1].AvailableCopies == 0 then 1 else 0)
  }

  /** The figures loadDashboard writes: the number of titles, the titles
      with a copy on the shelf, and the titles with none. */
  datatype Counts = Counts(total: int, available: int, borrowed: int)

  function LoadDashboard(books: seq<Book>): (c: Counts)
    ensures c.total == |books|
    ensures c.available == |set i | 0 <= i < |books| && books[i].AvailableCopies > 0|
    ensures c.borrowed == |set i | 0 <= i < |books| && books[i].AvailableCopies == 0|
    ensures 0 <= c.available && 0 <= c.borrowed
    ensures c.available + c.borrowed <= c.total
  {
    CountsBounded(books);
    Counts(|books|, CountInStock(books), CountExhausted(books))
  }

  /** No title is counted twice. */
  lemma {:induction false} CountsBounded(books: seq<Book>)
    ensures CountInStock(books) + CountExhausted(books) <= |books|
  {
    if |books| > 0 {
      CountsBounded(books[..|books| - 1]);
    }
  }

  /** The two counts add up to the number of titles exactly when no title
      has a negative number of available copies. */
  lemma {:induction false} CountsCover(books: seq<Book>)
    ensures CountInStock(books) + CountExhausted(books) == |books| <==>
      forall i :: 0 <= i < |books| ==> books[i].AvailableCopies >= 0
  {
    if |books| > 0 {
      var n := |books| - 1;
      var init := books[..n];
      CountsCover(init);
      CountsBounded(init);
      if forall i :: 0 <= i < |books| ==> books[i].AvailableCopies >= 0 {
        assert forall i :: 0 <= i < n ==> init[i].AvailableCopies >= 0;
      } else if forall i :: 0 <= i < n ==> init[i].AvailableCopies >= 0 {
        assert books[n].AvailableCopies < 0 by {
          forall i | 0 <= i < n ensures books[i].AvailableCopies >= 0 {
            assert books[i] == init[i];
          }
        }
      }
    }
  }

  /** With the backend keeping every book in range, the dashboard's
      available and borrowed counts cover every title. */
  lemma StockedCountsCover(books: seq<Book>)
    requires CopiesInRange(books)
    ensures LoadDashboard(books).available + LoadDashboard(books).borrowed == LoadDashboard(books).total
  {
    CountsCover(books);
  }
}
