# Library catalogue: data-access layer

A model of the data-access layer of a small console library catalogue. The
catalogue keeps its books in one file: a JSON array of book records. Every
operation reads the whole file, works on the list of books, and writes the
whole list back if it changed anything.

The model has these modules:

- `Books` (books.py): the `Book` record. A book built without a status is
  "в наличии" (on the shelf). `ToDict` turns a book into a string-keyed record
  and `FromDict` reads one back, with the errors `from_dict` raises.
- `Decimal`: Python's `str(n)` and `int(s)` for the id and year fields, without
  Python's limit on the number of digits (see "## Left out"). It proves both
  round trips: `int(str(n)) == n`, and `str(int(s)) == s` for every string in
  the form `str` produces.
- `Text`: `str.lower()` and the substring test `needle in hay`, used by the
  search.
- `Seqs`: the list comprehension `[x for x in s if p(x)]` as `Filter`. It proves
  that a filter keeps elements in their original order, and that two filters in
  a row are one filter by the conjunction.
- `Library` (library.py): `load_library` and `save_library` as functions of the
  file contents, plus the pure parts of the operations: the next id, removal
  by id, the three search filters, and the first-match status update. The
  class `LibraryStore` holds the file contents in its field `file`.
  `add_book`, `remove_book`, `search_books`, `list_books` and
  `update_book_status` are its methods. Each method loads the library, works
  on it, and saves through `Save` when the source saves.

The file is the value `FileState`. `Missing` is a file that does not exist.
`Corrupt` is UTF-8 text that is not JSON. `Unreadable` is a file that exists
but cannot be read as UTF-8 text: no permission, a directory, or bytes that are
not valid UTF-8. `Json(records)` is an array of string-keyed records. The file
path is gone: each `LibraryStore` object stands for one file.

Points where the code's behaviour is easy to misread:

- Loading catches only "file not found" and "not JSON". Every other failure
  raises out of `load_library` and out of every operation that loads. The
  model has two kinds. The first is a record that `from_dict` rejects: a
  missing key, or an id or year that `int` cannot parse. The model returns it
  as `BadRecord`. The second is a file that cannot be read as UTF-8 text: it
  cannot be opened, or its bytes are not UTF-8 (a `UnicodeDecodeError`, which
  is not a JSON decoding error). The model returns it as `ReadFailed`. Neither
  reads as an empty library.
- The two statuses are the strings "в наличии" and "выдана", not an enum.
  Loading does not check statuses or id uniqueness. The model proves that the
  operations preserve both (`AddPreservesInvariants`,
  `RemovePreservesInvariants`, `WithStatusSpec`, and `Consistent` in each
  mutating method's contract) but does not assume them.
- `remove_book` drops every book with the id. `update_book_status` changes
  only the first one.

## Model

| member | source | states |
|---|---|---|
| `Books.DefaultStatus` | books.py:27-41 | a book built without a status has status "в наличии" |
| `Books.ToDict` | books.py:43-55 | the record has exactly the keys id, title, author, year, status; id and year are their canonical decimal forms; title, author and status are copied unchanged |
| `Books.FromDict` | books.py:57-71 | succeeds exactly when all five keys are present and id and year parse as integers, and then gives the book with the parsed id and year and the copied strings; a missing key is reported as that key (KeyError), an unparseable id or year as that key and its text (ValueError); the error reported is the first failing check in argument order (id present, id parses, title, author, year present, year parses, status) |
| `Books.RecordRoundTrip` | books.py:43-71 | reading back what `to_dict` writes gives the same book, for every integer id and year |
| `Books.CanonicalRecordRoundTrip` | books.py:43-71 | a five-key record whose id and year are in canonical decimal form is reproduced by reading it and writing it again |
| `Books.FromDictIgnoresExtraKeys` | books.py:65-71 | `from_dict` depends only on the five keys; other keys in the record are ignored |
| `Decimal.IntToDecimal` | books.py:50-53 | `str(n)`: specified by `IntRoundTrip` and `IntToDecimalIsCanonical` |
| `Decimal.ParseInt` | books.py:66-69 | `int(s)` on a sign and decimal digits, None for anything else: specified by `IntRoundTrip` and `CanonicalRoundTrip` |
| `Decimal.IntRoundTrip` | books.py:50-69 | `int(str(n)) == n` for every integer n, negative ones included (Python's digit limit aside) |
| `Decimal.IntToDecimalIsCanonical` | books.py:50 | `str(n)` has no '+', no leading zero and no "-0" |
| `Decimal.CanonicalRoundTrip` | books.py:66 | a canonical decimal string parses, and printing the parsed value gives the string back |
| `Text.LowerChar` | library.py:84 | lower-cases one letter: the result is never a capital, and a character that is not a capital is unchanged |
| `Text.Lower` | library.py:84 | lower-casing keeps the length and maps each character through the letter mapping |
| `Text.LowerIdempotent` | library.py:84-86 | lower-casing twice is lower-casing once |
| `Text.Contains` | library.py:84-86 | `needle in hay`: specified by `ContainsIff` |
| `Text.ContainsIff` | library.py:84-86 | the left-to-right substring test holds exactly when the needle occurs at some position of the text |
| `Seqs.Filter` | library.py:64 | a comprehension keeps exactly the elements that pass the test; its length is unchanged exactly when every element passes |
| `Seqs.FilterIsSubsequence` | library.py:82-89 | a comprehension keeps its elements in their original order |
| `Seqs.FilterCount` | library.py:64 | a comprehension keeps every passing element as many times as it occurs, and drops every failing one |
| `Seqs.FilterFilter` | library.py:82-89 | two comprehensions in a row equal one comprehension by the conjunction of the tests |
| `Library.LoadRecords` | library.py:20 | loading succeeds exactly when every record is accepted; then book i is record i read back; otherwise the error is that of the first rejected record |
| `Library.Load` | library.py:11-22 | a missing file and a file that is not JSON both load as the empty library; an unreadable file is an error; a JSON array loads one book per record, or fails with the error of the first rejected record |
| `Library.ToRecords` | library.py:33 | the array `save_library` writes, one record per book: specified by `SaveLoadRoundTrip` |
| `Library.SaveLoadRoundTrip` | library.py:18-33 | loading what `save_library` wrote gives back exactly the saved books, in order |
| `Library.ReloadIsIdempotent` | library.py:236-238 | loading, saving and loading again gives the same library as the first load |
| `Library.MaxId` | library.py:48 | the maximum id is the id of some book and no book has a larger one |
| `Library.NextId` | library.py:48 | the new id is 1 for an empty library; otherwise it is one more than some book's id and greater than every id |
| `Library.Added` | library.py:48-50 | the library after `add_book`: specified by `AddPreservesInvariants` and `LibraryStore.AddBook` |
| `Library.AddPreservesInvariants` | library.py:48-50 | appending a book with the next id keeps ids unique and keeps every status one of the two valid ones |
| `Library.WithoutId` | library.py:64 | the comprehension of `remove_book`: specified by `WithoutIdSpec` |
| `Library.WithoutIdSpec` | library.py:64-65 | after removal no book has the id; every other book stays, as often as before and in its original order; the list gets shorter exactly when some book had the id |
| `Library.RemovePreservesInvariants` | library.py:64-68 | removal keeps ids unique and statuses valid |
| `Library.ByTitle` | library.py:83-84 | the title filter, skipped when the query is None or "": specified by `SearchIsOneFilter` |
| `Library.ByAuthor` | library.py:85-86 | the author filter, skipped when the query is None or "": specified by `SearchIsOneFilter` |
| `Library.ByYear` | library.py:87-88 | the year filter, skipped when the year is None or 0: specified by `SearchIsOneFilter` |
| `Library.Search` | library.py:82-89 | the three filters in the order the source applies them: specified by `SearchIsOneFilter`, `SearchSpec` and `SearchIgnoresCase` |
| `Library.SearchIsOneFilter` | library.py:82-89 | the three successive filters equal one filter by "passes every given filter" (AND composition) |
| `Library.SearchSpec` | library.py:81-89 | every result is a library book passing every given filter; every such book is a result, as many times as it occurs in the library; results keep library order |
| `Library.SearchWithoutFilters` | library.py:83-88 | with every filter None or falsy ("", year 0) the search returns the whole library |
| `Library.SearchIgnoresCase` | library.py:83-84 | any two title queries with the same lower case select the same books |
| `Library.FirstWithId` | library.py:114-115 | finds the first position holding the id, or reports that no book has it |
| `Library.WithStatus` | library.py:114-118 | the library after a status update: specified by `WithStatusSpec` |
| `Library.WithStatusSpec` | library.py:114-118 | only the status of the first book with the id changes; all other books and all other fields are unchanged; unique ids and valid statuses are kept |
| `Library.LibraryStore.Save` | library.py:25-33 | the file is replaced by the records of the books, and loading it gives those books back |
| `Library.LibraryStore.ListBooks` | library.py:92-99 | returns the library as loaded; a missing or non-JSON file gives the empty list; an unreadable file or a rejected record gives its error |
| `Library.LibraryStore.AddBook` | library.py:37-52 | on a loadable file, appends exactly one book at the end (`Added`) and returns it: the next id, the given title, author and year, status "в наличии", an id greater than every existing id; unique ids and valid statuses are kept; a load error is returned and the file is unchanged |
| `Library.LibraryStore.RemoveBook` | library.py:55-68 | returns false exactly when no book has the id, and then leaves the file unchanged; otherwise the file holds the library without the books with that id; unique ids and valid statuses are kept |
| `Library.LibraryStore.SearchBooks` | library.py:71-89 | returns the three successive filters applied to the loaded library: exactly the books that pass every given filter, each as often as in the library, in library order; a load error is returned |
| `Library.LibraryStore.UpdateBookStatus` | library.py:102-119 | a status other than the two valid ones is an error and the file is unchanged (checked before loading); otherwise true exactly when some book has the id, and then only the first such book's status changes; false leaves the file unchanged; unique ids and valid statuses are kept |

## Left out

- JSON text: parsing, pretty-printing, `ensure_ascii`, UTF-8 encoding (a file whose bytes are not UTF-8 is `Unreadable`). The file is the value `FileState`. A JSON value that is not an array of string-keyed records (a number as an id, a top-level object) is not modelled.
- Failing to open the file for writing (permission errors) is not modelled. Writing always succeeds and replaces the whole contents.
- The message `save_library` prints is left out.
- The `LIBRARY_FILE` constant is left out. Each `LibraryStore` object stands for one file.
- The console layer is left out: `add_book_to_library`, `del_book`, `search_for_book`, `show_all_books`, `change_status_of_book`, `exit_library`, the menu dispatch, `main` and the final list-and-save in the `__main__` block. They are input parsing and printing. The save-and-reload property behind the final block is `ReloadIsIdempotent`.
- Decimal.IntToDecimal and Decimal.ParseInt: have no limit on the number of digits. Python 3.11 and later (and the 3.7.14, 3.8.14, 3.9.14 and 3.10.7 security releases) raise ValueError for `str(n)` and `int(s)` past 4300 digits. The model's round trips therefore hold for integers Python may refuse. For such an id, `save_library` raises after opening the file for writing has already emptied it. The file then loads as the empty library, whereas `LibraryStore.AddBook` and the other saving methods promise the updated library.
- Decimal.ParseInt: accepts only an optional sign and ASCII digits. Python's `int` also accepts surrounding whitespace, underscores between digits and non-ASCII digits.
- Text.LowerChar: covers only the Latin capitals A-Z and the Cyrillic capitals U+0400-U+042F. Python's `str.lower` covers all of Unicode.
- `Book` is a value, not a mutable object. `update_book_status` changes a book inside a freshly loaded list that nothing else references. The model replaces that list element. No aliasing is visible either way.
- Concurrent access to the file is not modelled. Every operation is one atomic step on `file`.
