# Library catalog manager — Dafny model

A model of the catalog logic of a small single-user library manager. It keeps an
ordered list of books (title, author, ISBN, copy count, an availability flag and
open-ended extra attributes) and an ordered list of users (id, name, extra
attributes). The model covers:

- encoding each record to the flat map that is written to disk, and decoding it back;
- adding, listing, searching, updating and deleting records;
- the library's check-out and check-in of copies, which needs both lists.

Modules follow the source files:

- `Common` (common.dfy): shared vocabulary. It holds the `Value` datatype of a
  JSON scalar, `ToStr` (Python's `str` of such a value), ASCII `Lower`, `Contains`
  for Python's `in` on strings, and the order-keeping `Filter` behind both searches, with `SelectWhere`, the
  append loop that computes it.
  It also holds `EncodeAll`/`DecodeAll`, the list-wide encode and decode that the
  save and load paths apply.
- `Books` (books.dfy, book.py): the `Book` datatype, `ToDict`/`FromDict`, the ISBN
  lookup, and the class `BookList` (ManageBooks) with `AddBook`, `ListBooks` and
  `UpdateBook`.
- `Users` (users.dfy, user.py): the `User` datatype, `ToDict`/`FromDict`, the id
  lookup, and the class `UserList` (ManageUsers) with `AddUser`, `ListUsers`,
  `SearchUsers`, `UpdateUser` and `DeleteUser`.
- `Lending` (lending.dfy, check.py): the class `Library` with `SearchBooks`,
  `CheckOutBook` and `CheckInBook`.

Each list-changing operation comes in two forms:

- a pure transition function on the list (`AddBookTo`, `UpdateBookIn`, `AddUserTo`,
  `UpdateUserIn`, `DeleteUserFrom`, `CheckOut`, `CheckIn`); its contract states what
  the operation promises;
- a method of the owning class, which changes the list field in place and whose
  `ensures` ties the new list to that function of the old one.

Each class also keeps a ghost field `saved`: the last document written for its list.
It is `None` until the first save and becomes `Some(EncodeAll(list, ToDict))` exactly
when the source calls `save_books`/`save_users`.

Messages the source prints are returned instead: a `Status`
(`Done`, `NotFound`, `DuplicateKey`, `UnknownBook`, `UnknownUser`, `NotAvailable`),
a `restocked` flag, or the sequence of search results.

Quirks kept as the code has them:

- `to_dict` merges the extras after the required fields, so an extra named like a
  field wins (`Books.ExtraShadowsTitle`).
- Restocking through `add_book` raises the count but leaves `available` alone
  (`Books.RestockLeavesFlag`).
- `update_book` sets any count, zero or negative included, without touching
  `available` (`Books.UpdateLeavesFlag`).
- Check-out refuses a book whose count is zero or below (`count > 0` test).
- `search_users` with a parameter other than "name" or "user_id" looks at the extra
  attribute of that name, then falls back on the name and the exact id.

Two consequences of those quirks:

- `available` equals `count > 0` only as check-out and check-in leave it; these two
  preserve it (`Lending.ServeKeepsInStep`), while `add_book` and `update_book` do
  not recompute it, and `update_book` may set a negative count.
- A search over all fields of a book also looks at every extra value, while a user
  search with another parameter looks only at that extra, the name and the exact id.

Python's argument binding limits what keyword arguments can hold, and three
`requires` clauses state exactly that:

- `BookList.AddBook`: `title`, `author` and `isbn` bind `add_book`'s own parameters,
  and `count` and `available` bind the Book constructor's. The model passes the
  last two as the `Option` parameters, so `extras` holds none of the five names.
- `UserList.AddUser`: `user_id` and `name` bind parameters, so `extras` holds neither.
- `UserList.UpdateUser`: `user_id` binds the first parameter, and the `name`
  keyword argument is passed as `newName`, so `others` holds neither.

In all three, a keyword argument `self` is refused too, since it names the method's
own first parameter. For the same reason `from_dict` fails on a document with a
leftover `"self"` key: passing it on gives the constructor `self` twice. The model
reports that as `Clash("self")`.

## Model

| member | source | states |
|---|---|---|
| `Books.NewBook` | book.py:5-22 | a fresh book has the given title, author, ISBN and extras; count 1 and available true unless given otherwise |
| `Books.ToDict` | book.py:30-45 | the map has the five field names plus the extras' keys; every extra appears with its own value (a colliding extra wins); each field not shadowed holds the book's value |
| `Books.FromDict` | book.py:47-63 | fails with `MissingField` for isbn, then title, then author, in that order; with those present a leftover "self" fails as a clash with the constructor's parameter; on success the fields come from the map, count defaults to 1, available to true, and the extras are the map minus the five field names |
| `Books.RoundTrip` | book.py:37-63 | decoding the encoding gives the book back when no extra key is a field name or "self" |
| `Books.DecodeThenEncode` | book.py:37-63 | encoding a decoded book restores every key of the input and adds only the count and available defaults; with all five fields present the map comes back unchanged |
| `Books.ExtraShadowsTitle` | book.py:44 | an extra named "title" replaces the title after a round trip, so the round trip fails for such books |
| `Books.IndexOfIsbn` | book.py:86 | the result is the first position holding that ISBN; none exactly when no book has it |
| `Books.AddBookTo` | book.py:85-92 | a known ISBN: same length, that book's count plus one, everything else about it and every other book unchanged, the given title, author and attributes ignored; a new ISBN: exactly one new book at the end with count 1 and available true unless given, earlier books unchanged; distinct ISBNs stay distinct |
| `Books.RestockLeavesFlag` | book.py:86-88 | a book with count 0 marked unavailable is restocked to count 1 and stays marked unavailable |
| `Books.BookList.AddBook` | book.py:75-96 | the list becomes `AddBookTo` of the old list; reports whether it restocked; the list is saved in both cases |
| `Books.BookList.ListBooks` | book.py:101-109 | returns the whole list in order |
| `Books.UpdateBookIn` | book.py:122-131 | an unknown ISBN changes nothing; otherwise title and author change only for a non-empty new value, count changes whenever a new one is given, keyword attributes are merged into the extras, and ISBN, availability flag, order and other books are unchanged |
| `Books.UpdateLeavesFlag` | book.py:129-130 | setting count 0 on an available book leaves it marked available |
| `Books.BookList.UpdateBook` | book.py:111-136 | the list becomes `UpdateBookIn` of the old list; `NotFound` for an unknown ISBN; saved only when found |
| `Books.BookList.constructor` | book.py:67-72 | the list starts as the given sequence, with nothing saved yet |
| `Books.SaveLoadBooks` | storage.py:15-38 | saving a list of books and loading it back gives the same list when no book's extras use a field name or "self" |
| `Common.EncodeAll` | storage.py:24 | one encoded map per record, in list order |
| `Common.DecodeAll` | storage.py:38 | on success one decoded record per map, in order; failure only when some map fails to decode |
| `Common.SaveLoadRoundTrip` | storage.py:15-38 | decoding an encoded list gives the list back when each record survives its own round trip |
| `Common.NatToStr` | user.py:118 | the digits spell exactly the given number, with no redundant leading zero |
| `Common.ToStr` | user.py:118 | `str` of a value: text unchanged; an integer as canonical decimal, with a '-' when negative, spelling exactly that integer; "True"/"False"; "None" |
| `Common.Lower` | check.py:23 | same length; each character lower-cased (ASCII) |
| `Common.EmptyKeywordMatches` | check.py:23 | the empty keyword occurs in every field |
| `Common.Filter` | check.py:22-31 | every element occurs in the result as often as in the input if it satisfies the test and not at all otherwise; the result keeps the input's order |
| `Common.SelectWhere` | check.py:28-31 | the append loop both searches run returns exactly `Filter` of the list by the test |
| `Common.FilterKeepsAll` | check.py:22-31 | when every element satisfies the test the result is the input |
| `Users.ToDict` | user.py:30-42 | the map has "user_id", "name" and the extras' keys; every extra appears with its own value (a colliding extra wins); unshadowed fields hold the user's values |
| `Users.FromDict` | user.py:44-57 | fails with `MissingField` for user_id, then name; with both present a leftover "self" fails as a clash with the constructor's parameter; on success id and name come from the map and the extras are the rest |
| `Users.RoundTrip` | user.py:37-57 | decoding the encoding gives the user back when the extras avoid "user_id", "name" and "self" |
| `Users.DecodeThenEncode` | user.py:37-57 | encoding a decoded user gives back exactly the decoded map |
| `Users.SaveLoadUsers` | storage.py:46-69 | saving a list of users and loading it back gives the same list when no extras use a field name or "self" |
| `Users.IndexOfId` | user.py:141 | the result is the first position holding that id; none exactly when no user has it |
| `Users.AddUserTo` | user.py:79-84 | `DuplicateKey` exactly when the id is present, and then the list is unchanged; otherwise exactly one new user at the end; distinct ids stay distinct; extras free of field names stay so |
| `Users.UserList.AddUser` | user.py:69-87 | the status and list are `AddUserTo` of the old list; saved only when added |
| `Users.UserList.ListUsers` | user.py:92-100 | returns the whole list in order |
| `Users.UserList.SearchUsers` | user.py:102-121 | returns exactly the users that match, in list order, each as often as in the list. "name" matches the name case-insensitively; "user_id" matches the id exactly. Any other parameter matches when that extra's string form contains the keyword case-insensitively, or the name does, or the id equals the keyword |
| `Users.UserFilterMeans` | user.py:112-121 | the filtered user list holds exactly the matching users, each as often as in the list, in list order |
| `Users.UpdateUserIn` | user.py:141-145 | an unknown id changes nothing; otherwise the name changes exactly when a new one is given, the other keyword attributes are merged into the extras, and the id, the order and every other user are unchanged |
| `Users.UserList.UpdateUser` | user.py:132-150 | the list becomes `UpdateUserIn` of the old list; `NotFound` for an unknown id; saved only when found |
| `Users.DeleteUserFrom` | user.py:163-165 | an unknown id changes nothing; otherwise exactly the first user with that id is removed, the length drops by one and the others keep their order; with distinct ids the id is then gone |
| `Users.UserList.DeleteUser` | user.py:155-170 | the list becomes `DeleteUserFrom` of the old list; `NotFound` for an unknown id; saved only when found |
| `Users.UserList.constructor` | user.py:61-67 | the list starts as the given sequence, with nothing saved yet |
| `Lending.BookFilterMeans` | check.py:22-31 | the filtered book list holds exactly the matching books, each as often as in the list, in list order |
| `Lending.EmptyKeywordFindsAll` | check.py:22-31 | a search for the empty keyword returns the whole book list, whatever the parameter |
| `Lending.CheckOut` | check.py:50-68 | an unknown ISBN gives `UnknownBook` before the user is considered, then an unknown user gives `UnknownUser`; success exactly when both are known and the count is above 0, and then that book's count drops by one and available becomes count > 0; otherwise nothing changes; only that book changes; no non-negative count goes below 0; a book whose flag agrees with a non-negative count still agrees |
| `Lending.CheckIn` | check.py:80-87 | an unknown ISBN gives `UnknownBook` and changes nothing; otherwise that book's count rises by one and it is marked available; no other book changes |
| `Lending.ServeKeepsInStep` | check.py:61-87 | a book with count ≥ 0 and available == (count > 0) keeps both through any sequence of check-outs and check-ins |
| `Lending.DuneScenario` | check.py:50-68 | adding one ISBN twice gives one entry with count 2; two check-outs leave count 0 and unavailable; a third is refused with nothing changed |
| `Lending.SearchScenario` | check.py:22-31 | "herb" finds "Herbert" through the author in an all-field search, but not in a title search |
| `Lending.Library.constructor` | check.py:6-10 | the library starts from given book and user lists, nothing saved |
| `Lending.Library.SearchBooks` | check.py:12-31 | returns exactly the matching books, in list order, each as often as in the list. "title", "author" and "isbn" match that field case-insensitively. Any other parameter matches on title, author, ISBN or any extra value's string form |
| `Lending.Library.CheckOutBook` | check.py:42-68 | the status and book list are `CheckOut` of the old book list and the user list; the user list is unchanged; saved only on success |
| `Lending.Library.CheckInBook` | check.py:73-90 | the status and book list are `CheckIn` of the old book list; the user list is unchanged; saved only on success |

## Left out

- Books.FromDict: the source stores whatever value the document holds for a field. The model types the fields and reports `WrongType` for a title, author or isbn that is not text, a count that is not an integer, or an available that is not a boolean. The rest of the code assumes those types (`.lower()`, `count > 0`).
- Users.FromDict: likewise reports `WrongType` for a user_id or name that is not text.
- Common.Lower: ASCII only. Python's `str.lower` also folds non-ASCII letters.
- Extra-attribute values are text, integers, booleans and null. Floats, lists and nested objects, and their `str` forms, are not modelled.
- File I/O in storage.py is not modelled: opening and writing files, `json.dump`/`json.load`, and the fallbacks to an empty list for a missing or unreadable file. The ghost `saved` field records what would be written. `DecodeAll` models only the per-record decoding of a loaded document. The constructors start from given lists, since loading in the constructor is I/O.
- logger.py (timestamped appends to a log file) is not modelled. Neither is main.py (the interactive menu loop).
- `__str__` and every `print` are replaced by returned values.
- The broad `except Exception` handlers are not modelled. No modelled operation raises inside them.
- The multiple-inheritance wiring of `Library` is replaced by composition: the library holds one `BookList` and one `UserList`.
- `from_dict` pops keys out of its argument in place. The model decodes a map without changing it.
- A book or user is a value inside the list. The source's in-place field updates become replacing that element. Nothing else refers to these objects, so no aliasing is lost. `delete_user`'s `remove` removes that same first match.
- Books.BookList.UpdateBook: Python's binding also keeps `self`, `isbn`, `new_title`, `new_author` and `new_count` out of the keyword attributes. The model accepts any map there, which is a superset of the calls the source can receive.
