/** check.py: the Library, which sees both the book list and the user list,
    searches books and checks copies out and in. */
module Lending {
  import opened Common
  import Books
  import Users

  type Book = Books.Book
  type User = Users.User

  /** Whether `search_books` reports book `b`. "title", "author" and "isbn"
      match that one field case-insensitively; any other parameter matches
      title, author, isbn or the string form of any extra value. */
  predicate BookMatches(b: Book, keyword: string, parameter: string)
  {
    if parameter == "title" then MatchesIgnoringCase(b.title, keyword)
    else if parameter == "author" then MatchesIgnoringCase(b.author, keyword)
    else if parameter == "isbn" then MatchesIgnoringCase(b.isbn, keyword)
    else
      || MatchesIgnoringCase(b.title, keyword)
      || MatchesIgnoringCase(b.author, keyword)
      || MatchesIgnoringCase(b.isbn, keyword)
      || exists v | v in b.extras.Values :: MatchesIgnoringCase(ToStr(v), keyword)
  }

  function BookTest(keyword: string, parameter: string): Book -> bool
  {
    b => BookMatches(b, keyword, parameter)
  }

  /** What the filtered list holds, stated with `BookMatches` itself. */
  lemma BookFilterMeans(books: seq<Book>, keyword: string, parameter: string)
    ensures var r := Filter(books, BookTest(keyword, parameter));
      && (forall b :: b in r <==> b in books && BookMatches(b, keyword, parameter))
      && (forall b :: multiset(r)[b] == if BookMatches(b, keyword, parameter) then multiset(books)[b] else 0)
      && IsSubseq(r, books)
  {
    var test := BookTest(keyword, parameter);
    assert forall b :: test(b) == BookMatches(b, keyword, parameter);
  }

  /** Every branch of the search tests `keyword in field`, so the empty
      keyword reports the whole list, whatever the parameter. */
  lemma EmptyKeywordFindsAll(books: seq<Book>, parameter: string)
    ensures Filter(books, BookTest("", parameter)) == books
  {
    forall i | 0 <= i < |books| ensures BookTest("", parameter)(books[i]) {
      EmptyKeywordMatches(books[i].title);
      EmptyKeywordMatches(books[i].author);
      EmptyKeywordMatches(books[i].isbn);
    }
    FilterKeepsAll(books, BookTest("", parameter));
  }

  /** `check_out_book` on the lists: an unknown ISBN is reported first, then an
      unknown user; a book with copies left loses one and becomes unavailable
      when none are left; a book with no copies is not available. Only a
      successful check-out changes anything, and it changes only that book. */
  function CheckOut(books: seq<Book>, users: seq<User>, isbn: string, userId: string)
    : (r: (Status, seq<Book>))
    ensures |r.1| == |books|
    ensures Books.IndexOfIsbn(books, isbn).None? ==> r.0 == UnknownBook
    ensures Books.IndexOfIsbn(books, isbn).Some? && Users.IndexOfId(users, userId).None? ==>
      r.0 == UnknownUser
    ensures r.0 == Done <==>
      && Books.IndexOfIsbn(books, isbn).Some?
      && Users.IndexOfId(users, userId).Some?
      && books[Books.IndexOfIsbn(books, isbn).value].count > 0
    ensures r.0 == NotAvailable <==>
      && Books.IndexOfIsbn(books, isbn).Some?
      && Users.IndexOfId(users, userId).Some?
      && books[Books.IndexOfIsbn(books, isbn).value].count <= 0
    ensures r.0 != Done ==> r.1 == books
    ensures r.0 == Done ==>
      var k := Books.IndexOfIsbn(books, isbn).value;
      && r.1[k] == books[k].(count := books[k].count - 1, available := books[k].count - 1 > 0)
      && forall j :: 0 <= j < |books| && j != k ==> r.1[j] == books[j]
    ensures forall j :: 0 <= j < |books| && books[j].count >= 0 ==> r.1[j].count >= 0
    ensures forall j :: 0 <= j < |books| && Books.InStep(books[j]) ==> Books.InStep(r.1[j])
    ensures forall j :: 0 <= j < |books| ==> r.1[j].isbn == books[j].isbn
  {
    match Books.IndexOfIsbn(books, isbn)
    case None => (UnknownBook, books)
    case Some(k) =>
      if Users.IndexOfId(users, userId).None? then (UnknownUser, books)
      else if books[k].count > 0 then
        var left := books[k].count - 1;
        (Done, books[k := books[k].(count := left, available := left > 0)])
      else (NotAvailable, books)
  }

  /** `check_in_book` on the list: an unknown ISBN changes nothing; otherwise
      the book gains one copy and is marked available, whatever its count. */
  function CheckIn(books: seq<Book>, isbn: string): (r: (Status, seq<Book>))
    ensures |r.1| == |books|
    ensures r.0 == (if Books.IndexOfIsbn(books, isbn).Some? then Done else UnknownBook)
    ensures r.0 == UnknownBook ==> r.1 == books
    ensures r.0 == Done ==>
      var k := Books.IndexOfIsbn(books, isbn).value;
      && r.1[k] == books[k].(count := books[k].count + 1, available := true)
      && forall j :: 0 <= j < |books| && j != k ==> r.1[j] == books[j]
    ensures forall j :: 0 <= j < |books| && Books.InStep(books[j]) ==> Books.InStep(r.1[j])
    ensures forall j :: 0 <= j < |books| ==> r.1[j].isbn == books[j].isbn
  {
    match Books.IndexOfIsbn(books, isbn)
    case None => (UnknownBook, books)
    case Some(k) => (Done, books[k := books[k].(count := books[k].count + 1, available := true)])
  }

  /** One circulation request. */
  datatype Request = CheckOutRequest(isbn: string, userId: string) | CheckInRequest(isbn: string)

  /** The book list after serving `requests` in order; check-outs never touch
      the user list, so `users` is the same throughout. */
  function Serve(books: seq<Book>, users: seq<User>, requests: seq<Request>): seq<Book>
    decreases |requests|
  {
    if requests == [] then books
    else
      var next := match requests[0]
        case CheckOutRequest(isbn, userId) => CheckOut(books, users, isbn, userId).1
        case CheckInRequest(isbn) => CheckIn(books, isbn).1;
      Serve(next, users, requests[1..])
  }

  /** A book whose count is not negative and agrees with its availability
      flag keeps both facts through any run of check-outs and check-ins. */
  lemma {:induction false} ServeKeepsInStep(books: seq<Book>, users: seq<User>,
                                            requests: seq<Request>, i: nat)
    requires i < |books| && Books.InStep(books[i])
    ensures |Serve(books, users, requests)| == |books|
    ensures Serve(books, users, requests)[i].isbn == books[i].isbn
    ensures Books.InStep(Serve(books, users, requests)[i])
    decreases |requests|
  {
    if requests != [] {
      var next := match requests[0]
        case CheckOutRequest(isbn, userId) => CheckOut(books, users, isbn, userId).1
        case CheckInRequest(isbn) => CheckIn(books, isbn).1;
      ServeKeepsInStep(next, users, requests[1..], i);
    }
  }

  /** A worked example: adding the same ISBN twice
      gives one entry with two copies; two check-outs empty it and clear the
      flag; a third is refused and changes nothing. */
  lemma DuneScenario()
    ensures
      var users := [Users.User("u1", "Ann", map[])];
      var added := Books.AddBookTo([], "Dune", "Herbert", "0001", None, None, map[]);
      var restocked := Books.AddBookTo(added, "Dune", "Herbert", "0001", None, None, map[]);
      var first := CheckOut(restocked, users, "0001", "u1");
      var second := CheckOut(first.1, users, "0001", "u1");
      var third := CheckOut(second.1, users, "0001", "u1");
      && added == [Books.Book("Dune", "Herbert", "0001", 1, true, map[])]
      && restocked == [Books.Book("Dune", "Herbert", "0001", 2, true, map[])]
      && first.0 == Done && second.0 == Done
      && second.1 == [Books.Book("Dune", "Herbert", "0001", 0, false, map[])]
      && third == (NotAvailable, second.1)
  {
  }

  /** Searching all fields for "herb" finds the author; searching titles does not. */
  lemma SearchScenario()
    ensures BookMatches(Books.Book("Dune", "Herbert", "0001", 1, true, map[]), "herb", "")
    ensures !BookMatches(Books.Book("Dune", "Herbert", "0001", 1, true, map[]), "herb", "title")
  {
    assert Lower("Herbert") == "herbert";
    assert Lower("herb") == "herb";
    assert OccursAt("herb", "herbert", 0);
    assert Lower("Dune") == "dune";
    assert "dune"[0..4][0] != "herb"[0];
  }

  /** Library: the book list and the user list it shares with the two
      managers, held as components rather than inherited. */
  class Library {
    const catalog: Books.BookList
    const members: Users.UserList

    constructor (books: seq<Book>, users: seq<User>)
      ensures fresh(catalog) && fresh(members)
      ensures catalog.books == books && catalog.saved == None
      ensures members.users == users && members.saved == None
    {
      catalog := new Books.BookList(books);
      members := new Users.UserList(users);
    }

    /** `search_books`: the books the parameter and keyword select, in list
        order, each as often as it stands in the list. */
    method SearchBooks(keyword: string, parameter: string) returns (results: seq<Book>)
      ensures results == Filter(catalog.books, BookTest(keyword, parameter))
      ensures forall b :: b in results <==> b in catalog.books && BookMatches(b, keyword, parameter)
      ensures forall b :: multiset(results)[b] ==
                if BookMatches(b, keyword, parameter) then multiset(catalog.books)[b] else 0
      ensures IsSubseq(results, catalog.books)
    {
      results := SelectWhere(catalog.books, BookTest(keyword, parameter));
      BookFilterMeans(catalog.books, keyword, parameter);
    }

    /** Check a copy out for a user; the book list is saved only on success,
        and the user list is never touched. */
    method CheckOutBook(isbn: string, userId: string) returns (status: Status)
      modifies catalog
      ensures (status, catalog.books) == CheckOut(old(catalog.books), members.users, isbn, userId)
      ensures catalog.saved ==
        if status == Done then Some(EncodeAll(catalog.books, Books.ToDict)) else old(catalog.saved)
      ensures unchanged(members)
    {
      var book := Books.IndexOfIsbn(catalog.books, isbn);
      var user := Users.IndexOfId(members.users, userId);
      if book.None? {
        return UnknownBook;
      }
      if user.None? {
        return UnknownUser;
      }
      var k := book.value;
      var b := catalog.books[k];
      if b.count > 0 {
        b := b.(count := b.count - 1);
        b := b.(available := b.count > 0);
        catalog.books := catalog.books[k := b];
        catalog.saved := Some(EncodeAll(catalog.books, Books.ToDict));
        status := Done;
      } else {
        status := NotAvailable;
      }
    }

    /** Check a copy back in; the book list is saved when the ISBN is known. */
    method CheckInBook(isbn: string) returns (status: Status)
      modifies catalog
      ensures (status, catalog.books) == CheckIn(old(catalog.books), isbn)
      ensures catalog.saved ==
        if status == Done then Some(EncodeAll(catalog.books, Books.ToDict)) else old(catalog.saved)
      ensures unchanged(members)
    {
      var book := Books.IndexOfIsbn(catalog.books, isbn);
      if book.None? {
        return UnknownBook;
      }
      var k := book.value;
      var b := catalog.books[k];
      b := b.(count := b.count + 1);
      b := b.(available := true);
      catalog.books := catalog.books[k := b];
      catalog.saved := Some(EncodeAll(catalog.books, Books.ToDict));
      status := Done;
    }
  }
}
