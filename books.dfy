/** book.py: the Book record, its flat-map encoding, and the book list
    with its add-or-restock and update operations. */
module Books {
  import opened Common

  /** One catalog entry. `count` is the number of copies on the shelf;
      `available` is a separate flag that only check-out and check-in keep
      in step with `count`. */
  datatype Book = Book(
    title: string,
    author: string,
    isbn: string,
    count: int,
    available: bool,
    extras: map<string, Value>)

  /** The five names `to_dict` writes before merging the extras. */
  const Fields: set<string> := {"title", "author", "isbn", "count", "available"}

  /** Extra attributes that neither collide with a field `to_dict` writes
      nor with the constructor's `self` parameter. */
  predicate NoReservedKeys(extras: map<string, Value>)
  {
    extras.Keys !! Fields && "self" !in extras
  }

  /** The Book constructor: count and available are optional and default
      to one copy, available; `None` stands for an argument left out. */
  function NewBook(title: string, author: string, isbn: string,
                   count: Option<int>, available: Option<bool>,
                   extras: map<string, Value>): (b: Book)
    ensures b.title == title && b.author == author && b.isbn == isbn && b.extras == extras
    ensures count.None? ==> b.count == 1
    ensures count.Some? ==> b.count == count.value
    ensures available.None? ==> b.available
    ensures available.Some? ==> b.available == available.value
  {
    Book(title, author, isbn,
         match count case Some(n) => n case None => 1,
         match available case Some(a) => a case None => true,
         extras)
  }

  /** `to_dict`: the required fields, then the extras on top of them. */
  function ToDict(b: Book): (d: Doc)
    ensures d.Keys == Fields + b.extras.Keys
    ensures forall k :: k in b.extras ==> d[k] == b.extras[k]
    ensures "title" !in b.extras ==> d["title"] == Text(b.title)
    ensures "author" !in b.extras ==> d["author"] == Text(b.author)
    ensures "isbn" !in b.extras ==> d["isbn"] == Text(b.isbn)
    ensures "count" !in b.extras ==> d["count"] == Int(b.count)
    ensures "available" !in b.extras ==> d["available"] == Bool(b.available)
  {
    map["title" := Text(b.title), "author" := Text(b.author), "isbn" := Text(b.isbn),
        "count" := Int(b.count), "available" := Bool(b.available)] + b.extras
  }

  /** `from_dict`: take isbn, title and author (in that order, failing on the
      first one missing), count and available with their defaults, and pass
      everything else to the constructor as extras; a leftover "self" clashes
      with the constructor's own first parameter. */
  function FromDict(d: Doc): (r: Result<Book>)
    ensures "isbn" !in d ==> r == Err(MissingField("isbn"))
    ensures "isbn" in d && d["isbn"].Text? && "title" !in d ==> r == Err(MissingField("title"))
    ensures "isbn" in d && d["isbn"].Text? && "title" in d && d["title"].Text? && "author" !in d ==>
      r == Err(MissingField("author"))
    ensures r.Ok? <==>
      && "isbn" in d && d["isbn"].Text?
      && "title" in d && d["title"].Text?
      && "author" in d && d["author"].Text?
      && ("count" in d ==> d["count"].Int?)
      && ("available" in d ==> d["available"].Bool?)
      && "self" !in d
    ensures
      && "isbn" in d && d["isbn"].Text?
      && "title" in d && d["title"].Text?
      && "author" in d && d["author"].Text?
      && ("count" in d ==> d["count"].Int?)
      && ("available" in d ==> d["available"].Bool?)
      && "self" in d
      ==> r == Err(Clash("self"))
    ensures r.Ok? ==>
      && d["isbn"] == Text(r.value.isbn)
      && d["title"] == Text(r.value.title)
      && d["author"] == Text(r.value.author)
      && r.value.count == (if "count" in d then d["count"].i else 1)
      && r.value.available == (if "available" in d then d["available"].b else true)
      && r.value.extras == d - Fields
      && NoReservedKeys(r.value.extras)
  {
    var isbn :- TextField(d, "isbn");
    var title :- TextField(d, "title");
    var author :- TextField(d, "author");
    var count :- IntFieldOr(d, "count", 1);
    var available :- BoolFieldOr(d, "available", true);
    if "self" in d then Err(Clash("self")) else
    Ok(NewBook(title, author, isbn, Some(count), Some(available), d - Fields))
  }

  /** Encoding then decoding gives the book back, as long as no extra
      attribute uses one of the five field names or "self". */
  lemma RoundTrip(b: Book)
    requires NoReservedKeys(b.extras)
    ensures FromDict(ToDict(b)) == Ok(b)
  {
    assert ToDict(b) - Fields == b.extras;
  }

  /** Decoding then encoding restores every key of the input and adds the
      defaults `count: 1` and `available: true` where they were absent. */
  lemma DecodeThenEncode(d: Doc, b: Book)
    requires FromDict(d) == Ok(b)
    ensures ToDict(b).Keys == d.Keys + Fields
    ensures forall k :: k in d ==> ToDict(b)[k] == d[k]
    ensures "count" !in d ==> ToDict(b)["count"] == Int(1)
    ensures "available" !in d ==> ToDict(b)["available"] == Bool(true)
    ensures Fields <= d.Keys ==> ToDict(b) == d
  {
    var e := ToDict(b);
    forall k | k in d ensures e[k] == d[k] {
      if k !in Fields {
        assert k in b.extras;
      }
    }
    if Fields <= d.Keys {
      assert e.Keys == d.Keys;
    }
  }

  /** An extra attribute named like a required field replaces that field in
      the encoding, so the round trip does not give the book back. */
  lemma ExtraShadowsTitle()
    ensures var b := Book("Dune", "Herbert", "0001", 1, true, map["title" := Text("Emma")]);
            FromDict(ToDict(b)) == Ok(b.(title := "Emma", extras := map[]))
  {
    var b := Book("Dune", "Herbert", "0001", 1, true, map["title" := Text("Emma")]);
    assert ToDict(b) - Fields == map[];
  }

  ghost predicate AllNoReservedKeys(books: seq<Book>)
  {
    forall i :: 0 <= i < |books| ==> NoReservedKeys(books[i].extras)
  }

  /** `save_books` then `load_books` gives the same list, when no book's
      extras use a field name. */
  lemma SaveLoadBooks(books: seq<Book>)
    requires AllNoReservedKeys(books)
    ensures DecodeAll(EncodeAll(books, ToDict), FromDict) == Ok(books)
  {
    forall i | 0 <= i < |books| ensures FromDict(ToDict(books[i])) == Ok(books[i]) {
      RoundTrip(books[i]);
    }
    SaveLoadRoundTrip(books, ToDict, FromDict);
  }

  /** A book's count is not negative and its availability flag agrees with it. */
  ghost predicate InStep(b: Book)
  {
    b.count >= 0 && b.available == (b.count > 0)
  }

  /** Restocking raises the count but leaves `available` alone, so a book
      that had run out stays marked unavailable with a copy on the shelf. */
  lemma RestockLeavesFlag()
    ensures var b := Book("Dune", "Herbert", "0001", 0, false, map[]);
            var r := AddBookTo([b], "Dune", "Herbert", "0001", None, None, map[]);
            InStep(b) && r == [b.(count := 1)] && !InStep(r[0])
  {
  }

  /** `update_book` sets any count without touching `available`. */
  lemma UpdateLeavesFlag()
    ensures var b := Book("Dune", "Herbert", "0001", 1, true, map[]);
            var r := UpdateBookIn([b], "0001", None, None, Some(0), map[]);
            InStep(b) && r == [b.(count := 0)] && !InStep(r[0])
  {
    var b := Book("Dune", "Herbert", "0001", 1, true, map[]);
    assert b.extras + map[] == b.extras;
  }

  ghost predicate DistinctIsbns(books: seq<Book>)
  {
    forall i, j :: 0 <= i < j < |books| ==> books[i].isbn != books[j].isbn
  }

  /** The linear scan every book operation starts with: the position of
      the first book with that ISBN, if any. */
  function IndexOfIsbn(books: seq<Book>, isbn: string): (r: Option<nat>)
    ensures r.Some? ==> r.value < |books| && books[r.value].isbn == isbn
    ensures r.Some? ==> forall j :: 0 <= j < r.value ==> books[j].isbn != isbn
    ensures r.None? <==> forall j :: 0 <= j < |books| ==> books[j].isbn != isbn
  {
    if books == [] then None
    else if books[0].isbn == isbn then Some(0)
    else match IndexOfIsbn(books[1..], isbn)
      case None => None
      case Some(k) => Some(k + 1)
  }

  /** `add_book` on the list: a known ISBN gains one copy and nothing else
      changes (the given title, author and attributes are ignored, and
      `available` is left as it was); an unknown ISBN is appended as a new
      book. */
  function AddBookTo(books: seq<Book>, title: string, author: string, isbn: string,
                     count: Option<int>, available: Option<bool>,
                     extras: map<string, Value>): (r: seq<Book>)
    ensures IndexOfIsbn(books, isbn).Some? ==>
      var k := IndexOfIsbn(books, isbn).value;
      && |r| == |books|
      && r[k] == books[k].(count := books[k].count + 1)
      && forall j :: 0 <= j < |r| && j != k ==> r[j] == books[j]
    ensures IndexOfIsbn(books, isbn).None? ==>
      && |r| == |books| + 1
      && r[..|books|] == books
      && r[|books|] == NewBook(title, author, isbn, count, available, extras)
    ensures IndexOfIsbn(r, isbn).Some?
    ensures DistinctIsbns(books) ==> DistinctIsbns(r)
    ensures AllNoReservedKeys(books) && NoReservedKeys(extras) ==> AllNoReservedKeys(r)
  {
    match IndexOfIsbn(books, isbn)
    case Some(k) =>
      var r := books[k := books[k].(count := books[k].count + 1)];
      assert forall j :: 0 <= j < |r| ==> r[j].isbn == books[j].isbn && r[j].extras == books[j].extras;
      r
    case None =>
      var b := NewBook(title, author, isbn, count, available, extras);
      var r := books + [b];
      assert forall j :: 0 <= j < |books| ==> r[j] == books[j];
      assert r[|books|] == b;
      r
  }

  /** `update_book` on the list: for a known ISBN, take a new title or author
      only when it is non-empty, a new count whenever one is given (any
      integer), and merge the keyword attributes into the extras; the ISBN,
      the availability flag and every other book stay as they were. An
      unknown ISBN changes nothing. */
  function UpdateBookIn(books: seq<Book>, isbn: string,
                        newTitle: Option<string>, newAuthor: Option<string>,
                        newCount: Option<int>, kwargs: map<string, Value>): (r: seq<Book>)
    ensures |r| == |books|
    ensures IndexOfIsbn(books, isbn).None? ==> r == books
    ensures IndexOfIsbn(books, isbn).Some? ==>
      var k := IndexOfIsbn(books, isbn).value;
      && r[k].isbn == books[k].isbn
      && r[k].available == books[k].available
      && r[k].title == (if newTitle.Some? && newTitle.value != "" then newTitle.value else books[k].title)
      && r[k].author == (if newAuthor.Some? && newAuthor.value != "" then newAuthor.value else books[k].author)
      && r[k].count == (if newCount.Some? then newCount.value else books[k].count)
      && r[k].extras.Keys == books[k].extras.Keys + kwargs.Keys
      && (forall a :: a in kwargs ==> r[k].extras[a] == kwargs[a])
      && (forall a :: a in books[k].extras && a !in kwargs ==> r[k].extras[a] == books[k].extras[a])
      && forall j :: 0 <= j < |r| && j != k ==> r[j] == books[j]
    ensures forall j :: 0 <= j < |r| ==> r[j].isbn == books[j].isbn
    ensures DistinctIsbns(books) ==> DistinctIsbns(r)
  {
    match IndexOfIsbn(books, isbn)
    case None => books
    case Some(k) =>
      var b := books[k];
      var title := if newTitle.Some? && newTitle.value != "" then newTitle.value else b.title;
      var author := if newAuthor.Some? && newAuthor.value != "" then newAuthor.value else b.author;
      var count := if newCount.Some? then newCount.value else b.count;
      books[k := b.(title := title, author := author, count := count, extras := b.extras + kwargs)]
  }

  /** ManageBooks: the ordered list of books and the last document written
      for it (`None` until the first save). */
  class BookList {
    var books: seq<Book>
    ghost var saved: Option<seq<Doc>>

    constructor (initial: seq<Book>)
      ensures books == initial && saved == None
    {
      books := initial;
      saved := None;
    }

    /** Add a book or restock it; either way the list is saved.
        `count`, `available` and `extras` are the keyword arguments: Python
        binds `count` and `available` to the Book constructor's own
        parameters and refuses a second `self`, so no extra attribute can
        carry a field name or "self". */
    method AddBook(title: string, author: string, isbn: string,
                   count: Option<int>, available: Option<bool>,
                   extras: map<string, Value>) returns (restocked: bool)
      requires NoReservedKeys(extras)
      modifies this
      ensures restocked == IndexOfIsbn(old(books), isbn).Some?
      ensures books == AddBookTo(old(books), title, author, isbn, count, available, extras)
      ensures saved == Some(EncodeAll(books, ToDict))
    {
      var found := IndexOfIsbn(books, isbn);
      match found {
        case Some(k) =>
          books := books[k := books[k].(count := books[k].count + 1)];
          restocked := true;
        case None =>
          books := books + [NewBook(title, author, isbn, count, available, extras)];
          restocked := false;
      }
      saved := Some(EncodeAll(books, ToDict));
    }

    /** `list_books`: every book, in list order. */
    method ListBooks() returns (r: seq<Book>)
      ensures r == books
    {
      r := books;
    }

    /** Update a book in place; the list is saved only when the ISBN is known. */
    method UpdateBook(isbn: string, newTitle: Option<string>, newAuthor: Option<string>,
                      newCount: Option<int>, kwargs: map<string, Value>) returns (status: Status)
      modifies this
      ensures status == if IndexOfIsbn(old(books), isbn).Some? then Done else NotFound
      ensures books == UpdateBookIn(old(books), isbn, newTitle, newAuthor, newCount, kwargs)
      ensures saved == if status == Done then Some(EncodeAll(books, ToDict)) else old(saved)
    {
      var found := IndexOfIsbn(books, isbn);
      match found
      case None =>
        status := NotFound;
      case Some(k) =>
        var b := books[k];
        if newTitle.Some? && newTitle.value != "" {
          b := b.(title := newTitle.value);
        }
        if newAuthor.Some? && newAuthor.value != "" {
          b := b.(author := newAuthor.value);
        }
        if newCount.Some? {
          b := b.(count := newCount.value);
        }
        b := b.(extras := b.extras + kwargs);
        books := books[k := b];
        saved := Some(EncodeAll(books, ToDict));
        status := Done;
    }
  }
}
