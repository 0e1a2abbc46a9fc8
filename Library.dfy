/**
 * The catalogue's data-access layer: a library file holding a JSON array of
 * book records, read in full and rewritten in full by every operation.
 * The file is the `file` field of a `LibraryStore`; the operations are its methods.
 */
module Library {
  import opened Wrappers
  import opened Books
  import opened Seqs
  import Text

  /**
   * What the library file holds: nothing (the file does not exist), text that
   * is not JSON, or a JSON array of string-keyed records; or the file exists
   * but cannot be read as UTF-8 text (no permission, a directory, bytes that
   * are not UTF-8).
   */
  datatype FileState = Missing | Corrupt | Unreadable | Json(records: seq<Record>)

  /**
   * Errors the operations raise: the file cannot be read as text, a record `from_dict`
   * rejects, or a status outside the two.
   */
  datatype Error = ReadFailed | BadRecord(cause: RecordError) | InvalidStatus(status: string)

  /** The two statuses `update_book_status` accepts. */
  predicate ValidStatus(status: string) {
    status == Available || status == Issued
  }

  // ---------------------------------------------------------------------------
  // load_library / save_library

  /** `[Book.from_dict(book) for book in records]`: the first rejected record raises. */
  function LoadRecords(records: seq<Record>): (r: Result<seq<Book>, RecordError>)
    ensures r.Success? <==> forall i :: 0 <= i < |records| ==> FromDict(records[i]).Success?
    ensures r.Success? ==> |r.value| == |records|
                           && forall i :: 0 <= i < |records| ==> FromDict(records[i]) == Success(r.value[i])
    ensures r.Failure? ==> exists i :: 0 <= i < |records| && FromDict(records[i]) == Failure(r.error)
                                       && forall j :: 0 <= j < i ==> FromDict(records[j]).Success?
  {
    if records == [] then Success([])
    else match FromDict(records[0])
      case Failure(e) => Failure(e)
      case Success(b) =>
        match LoadRecords(records[1..])
        case Failure(e) =>
          assert forall j :: 1 <= j <= |records[1..]| ==> records[1..][j - 1] == records[j];
          Failure(e)
        case Success(rest) => Success([b] + rest)
  }

  /**
   * `load_library`: a missing file and a file that is not JSON both read as
   * the empty library; an unreadable file and a record `from_dict` rejects
   * are raised to the caller.
   */
  function Load(file: FileState): (r: Result<seq<Book>, Error>)
    ensures file.Missing? || file.Corrupt? ==> r == Success([])
    ensures file.Unreadable? ==> r == Failure(ReadFailed)
    ensures file.Json? ==> (r.Success? <==> LoadRecords(file.records).Success?)
    ensures file.Json? && r.Success? ==> LoadRecords(file.records) == Success(r.value)
    ensures file.Json? && r.Success? ==> |r.value| == |file.records|
    ensures file.Json? && r.Failure? ==> r.error.BadRecord? && LoadRecords(file.records) == Failure(r.error.cause)
  {
    match file
    case Missing => Success([])
    case Corrupt => Success([])
    case Unreadable => Failure(ReadFailed)
    case Json(records) =>
      match LoadRecords(records)
      case Failure(e) => Failure(BadRecord(e))
      case Success(books) => Success(books)
  }

  /** `[book.to_dict() for book in books]`, the array `save_library` writes. */
  function ToRecords(books: seq<Book>): (r: seq<Record>)
    ensures |r| == |books|
  {
    seq(|books|, i requires 0 <= i < |books| => ToDict(books[i]))
  }

  lemma ToRecordsCons(books: seq<Book>)
    requires books != []
    ensures ToRecords(books)[0] == ToDict(books[0])
    ensures ToRecords(books)[1..] == ToRecords(books[1..])
  {
    assert ToRecords(books)[1..] == ToRecords(books[1..]);
  }

  lemma LoadRecordsCons(records: seq<Record>, first: Book, rest: seq<Book>)
    requires records != [] && FromDict(records[0]) == Success(first)
    requires LoadRecords(records[1..]) == Success(rest)
    ensures LoadRecords(records) == Success([first] + rest)
  {
  }

  /** Loading what `save_library` wrote gives back the books that were saved. */
  lemma {:induction false} SaveLoadRoundTrip(books: seq<Book>)
    ensures LoadRecords(ToRecords(books)) == Success(books)
  {
    if books != [] {
      var records := ToRecords(books);
      ToRecordsCons(books);
      RecordRoundTrip(books[0]);
      SaveLoadRoundTrip(books[1..]);
      LoadRecordsCons(records, books[0], books[1..]);
      assert [books[0]] + books[1..] == books;
    } else {
      assert ToRecords(books) == [];
    }
  }

  /**
   * Saving what was just loaded and loading again gives the same library
   * (the file's text may change: "007" is rewritten as "7").
   */
  lemma ReloadIsIdempotent(file: FileState)
    requires Load(file).Success?
    ensures Load(Json(ToRecords(Load(file).value))) == Load(file)
  {
    SaveLoadRoundTrip(Load(file).value);
  }

  // ---------------------------------------------------------------------------
  // Ids

  /** `max(book.id for book in books)`. */
  function MaxId(books: seq<Book>): (m: int)
    requires books != []
    ensures forall i :: 0 <= i < |books| ==> books[i].id <= m
    ensures exists i :: 0 <= i < |books| && books[i].id == m
  {
    if |books| == 1 then books[0].id
    else
      var rest := MaxId(books[1..]);
      if books[0].id > rest then books[0].id else rest
  }

  /** `max((book.id for book in books), default=0) + 1`: the id `add_book` assigns. */
  function NextId(books: seq<Book>): (id: int)
    ensures books == [] ==> id == 1
    ensures forall i :: 0 <= i < |books| ==> books[i].id < id
    ensures books != [] ==> exists i :: 0 <= i < |books| && books[i].id == id - 1
  {
    (if books == [] then 0 else MaxId(books)) + 1
  }

  /** No two books of the library share an id. */
  predicate UniqueIds(books: seq<Book>) {
    forall i, j :: 0 <= i < j < |books| ==> books[i].id != books[j].id
  }

  /** Every book of the library has one of the two statuses. */
  predicate StatusesValid(books: seq<Book>) {
    forall i :: 0 <= i < |books| ==> ValidStatus(books[i].status)
  }

  /** The book `add_book` appends to `books`. */
  function Added(books: seq<Book>, title: string, author: string, year: int): seq<Book> {
    books + [Book(NextId(books), title, author, year)]
  }

  /** Adding a book keeps ids unique and statuses valid. */
  lemma AddPreservesInvariants(books: seq<Book>, title: string, author: string, year: int)
    ensures UniqueIds(books) ==> UniqueIds(Added(books, title, author, year))
    ensures StatusesValid(books) ==> StatusesValid(Added(books, title, author, year))
  {
    var after := Added(books, title, author, year);
    assert forall i :: 0 <= i < |books| ==> after[i] == books[i];
  }

  // ---------------------------------------------------------------------------
  // remove_book

  /** `[book for book in books if book.id != book_id]`. */
  function WithoutId(books: seq<Book>, id: int): seq<Book> {
    Filter(books, (b: Book) => b.id != id)
  }

  /**
   * Removing by id leaves no book with that id, keeps every other book as often
   * as it occurred and in its original order, and changes the length exactly
   * when some book had that id.
   */
  lemma WithoutIdSpec(books: seq<Book>, id: int)
    ensures forall b :: b in WithoutId(books, id) ==> b.id != id
    ensures forall b: Book :: b.id != id ==> multiset(WithoutId(books, id))[b] == multiset(books)[b]
    ensures SubsequenceOf(WithoutId(books, id), books)
    ensures |WithoutId(books, id)| < |books| <==> exists i :: 0 <= i < |books| && books[i].id == id
  {
    forall b: Book | b.id != id
      ensures multiset(WithoutId(books, id))[b] == multiset(books)[b]
    {
      FilterCount(books, (b: Book) => b.id != id, b);
    }
    FilterIsSubsequence(books, (b: Book) => b.id != id);
  }

  /** A subsequence of a library with unique ids has unique ids. */
  lemma {:induction false} SubsequenceKeepsUniqueIds(r: seq<Book>, s: seq<Book>)
    requires SubsequenceOf(r, s) && UniqueIds(s)
    ensures UniqueIds(r)
    ensures forall b :: b in r ==> b in s
    decreases |s|
  {
    if r != [] {
      if r[0] == s[0] && SubsequenceOf(r[1..], s[1..]) {
        SubsequenceKeepsUniqueIds(r[1..], s[1..]);
        assert forall j :: 0 < j < |r| ==> r[j] == r[1..][j - 1];
        assert forall b :: b in r ==> b == r[0] || b in r[1..];
        assert forall b :: b in s[1..] ==> b in s;
        assert forall b :: b in s[1..] ==> b.id != s[0].id;
      } else {
        SubsequenceKeepsUniqueIds(r, s[1..]);
      }
    }
  }

  /** Removing by id keeps ids unique and statuses valid. */
  lemma RemovePreservesInvariants(books: seq<Book>, id: int)
    ensures UniqueIds(books) ==> UniqueIds(WithoutId(books, id))
    ensures StatusesValid(books) ==> StatusesValid(WithoutId(books, id))
  {
    WithoutIdSpec(books, id);
    if UniqueIds(books) {
      SubsequenceKeepsUniqueIds(WithoutId(books, id), books);
    }
    var r := WithoutId(books, id);
    assert forall i :: 0 <= i < |r| ==> r[i] in books;
  }

  // ---------------------------------------------------------------------------
  // search_books

  /** Python truthiness of an optional string filter: None and "" are skipped. */
  predicate TextGiven(query: Option<string>) {
    query.Some? && query.value != ""
  }

  /** Python truthiness of an optional year filter: None and 0 are skipped. */
  predicate YearGiven(year: Option<int>) {
    year.Some? && year.value != 0
  }

  /** `query.lower() in text.lower()`. */
  predicate MatchesText(text: string, query: string) {
    Text.Contains(Text.Lower(text), Text.Lower(query))
  }

  /** The book passes the title filter, or none is given. */
  predicate TitleOk(b: Book, title: Option<string>) {
    TextGiven(title) ==> MatchesText(b.title, title.value)
  }

  /** The book passes the author filter, or none is given. */
  predicate AuthorOk(b: Book, author: Option<string>) {
    TextGiven(author) ==> MatchesText(b.author, author.value)
  }

  /** The book passes the year filter, or none is given. */
  predicate YearOk(b: Book, year: Option<int>) {
    YearGiven(year) ==> b.year == year.value
  }

  /** The book passes every filter that is given. */
  predicate Matches(b: Book, title: Option<string>, author: Option<string>, year: Option<int>) {
    TitleOk(b, title) && AuthorOk(b, author) && YearOk(b, year)
  }

  /** `if title: results = [book for book in results if title.lower() in book.title.lower()]`. */
  function ByTitle(books: seq<Book>, title: Option<string>): seq<Book> {
    if TextGiven(title) then Filter(books, (b: Book) => MatchesText(b.title, title.value)) else books
  }

  /** `if author: results = [book for book in results if author.lower() in book.author.lower()]`. */
  function ByAuthor(books: seq<Book>, author: Option<string>): seq<Book> {
    if TextGiven(author) then Filter(books, (b: Book) => MatchesText(b.author, author.value)) else books
  }

  /** `if year: results = [book for book in results if book.year == year]`. */
  function ByYear(books: seq<Book>, year: Option<int>): seq<Book> {
    if YearGiven(year) then Filter(books, (b: Book) => b.year == year.value) else books
  }

  /** The successive filters of `search_books`: title, then author, then year. */
  function Search(books: seq<Book>, title: Option<string>, author: Option<string>, year: Option<int>): seq<Book> {
    ByYear(ByAuthor(ByTitle(books, title), author), year)
  }

  lemma ByTitleIsFilter(books: seq<Book>, title: Option<string>)
    ensures ByTitle(books, title) == Filter(books, (b: Book) => TitleOk(b, title))
  {
    if TextGiven(title) {
      FilterSame(books, (b: Book) => MatchesText(b.title, title.value), (b: Book) => TitleOk(b, title));
    } else {
      FilterAll(books, (b: Book) => TitleOk(b, title));
    }
  }

  lemma ByAuthorIsFilter(books: seq<Book>, author: Option<string>)
    ensures ByAuthor(books, author) == Filter(books, (b: Book) => AuthorOk(b, author))
  {
    if TextGiven(author) {
      FilterSame(books, (b: Book) => MatchesText(b.author, author.value), (b: Book) => AuthorOk(b, author));
    } else {
      FilterAll(books, (b: Book) => AuthorOk(b, author));
    }
  }

  lemma ByYearIsFilter(books: seq<Book>, year: Option<int>)
    ensures ByYear(books, year) == Filter(books, (b: Book) => YearOk(b, year))
  {
    if YearGiven(year) {
      FilterSame(books, (b: Book) => b.year == year.value, (b: Book) => YearOk(b, year));
    } else {
      FilterAll(books, (b: Book) => YearOk(b, year));
    }
  }

  /** The three filters composed are one filter by the conjunction of those given. */
  lemma SearchIsOneFilter(books: seq<Book>, title: Option<string>, author: Option<string>, year: Option<int>)
    ensures Search(books, title, author, year) == Filter(books, (b: Book) => Matches(b, title, author, year))
  {
    var byTitle := ByTitle(books, title);
    ByTitleIsFilter(books, title);
    var byAuthor := ByAuthor(byTitle, author);
    ByAuthorIsFilter(byTitle, author);
    var titleAndAuthor := (b: Book) => TitleOk(b, title) && AuthorOk(b, author);
    FilterFilter(books, (b: Book) => TitleOk(b, title), (b: Book) => AuthorOk(b, author), titleAndAuthor);
    ByYearIsFilter(byAuthor, year);
    FilterFilter(books, titleAndAuthor, (b: Book) => YearOk(b, year), (b: Book) => Matches(b, title, author, year));
  }

  /**
   * Every result is a library book passing every given filter, every such
   * book is a result as often as it occurs in the library, and the results
   * keep library order.
   */
  lemma SearchSpec(books: seq<Book>, title: Option<string>, author: Option<string>, year: Option<int>)
    ensures forall b :: b in Search(books, title, author, year) <==> b in books && Matches(b, title, author, year)
    ensures forall b :: multiset(Search(books, title, author, year))[b] ==
                        if Matches(b, title, author, year) then multiset(books)[b] else 0
    ensures SubsequenceOf(Search(books, title, author, year), books)
  {
    SearchIsOneFilter(books, title, author, year);
    forall b: Book
      ensures multiset(Search(books, title, author, year))[b] ==
              if Matches(b, title, author, year) then multiset(books)[b] else 0
    {
      FilterCount(books, (b: Book) => Matches(b, title, author, year), b);
    }
    FilterIsSubsequence(books, (b: Book) => Matches(b, title, author, year));
  }

  /** Without a truthy filter the search returns the whole library. */
  lemma SearchWithoutFilters(books: seq<Book>, title: Option<string>, author: Option<string>, year: Option<int>)
    requires !TextGiven(title) && !TextGiven(author) && !YearGiven(year)
    ensures Search(books, title, author, year) == books
  {
  }

  /** Two title queries with the same lower case select the same books. */
  lemma SearchIgnoresCase(books: seq<Book>, t1: string, t2: string, author: Option<string>, year: Option<int>)
    requires Text.Lower(t1) == Text.Lower(t2)
    ensures Search(books, Some(t1), author, year) == Search(books, Some(t2), author, year)
  {
    assert |t1| == |Text.Lower(t1)| == |Text.Lower(t2)| == |t2|;
    FilterSame(books, (b: Book) => MatchesText(b.title, t1), (b: Book) => MatchesText(b.title, t2));
    assert ByTitle(books, Some(t1)) == ByTitle(books, Some(t2));
  }

  // ---------------------------------------------------------------------------
  // update_book_status

  /** The position of the first book with the given id, if any. */
  function FirstWithId(books: seq<Book>, id: int): (k: Option<nat>)
    ensures k.None? <==> forall i :: 0 <= i < |books| ==> books[i].id != id
    ensures k.Some? ==> k.value < |books| && books[k.value].id == id
                        && forall j :: 0 <= j < k.value ==> books[j].id != id
  {
    if books == [] then None
    else if books[0].id == id then Some(0)
    else match FirstWithId(books[1..], id)
      case None => None
      case Some(k) => Some(k + 1)
  }

  /** The library after `update_book_status` changed the first book with the id. */
  function WithStatus(books: seq<Book>, id: int, status: string): seq<Book> {
    match FirstWithId(books, id)
    case None => books
    case Some(k) => books[k := books[k].(status := status)]
  }

  /**
   * Only the status of the first book with the id changes; every other book
   * and every other field stays as it was.
   */
  lemma WithStatusSpec(books: seq<Book>, id: int, status: string)
    ensures |WithStatus(books, id, status)| == |books|
    ensures forall i :: 0 <= i < |books| ==>
      var after := WithStatus(books, id, status);
      after[i].id == books[i].id && after[i].title == books[i].title
      && after[i].author == books[i].author && after[i].year == books[i].year
      && (after[i].status == if FirstWithId(books, id) == Some(i) then status else books[i].status)
    ensures UniqueIds(books) ==> UniqueIds(WithStatus(books, id, status))
    ensures StatusesValid(books) && ValidStatus(status) ==> StatusesValid(WithStatus(books, id, status))
  {
  }

  // ---------------------------------------------------------------------------
  // The library file and its operations

  class LibraryStore {
    /** The contents of the library file. */
    var file: FileState

    /** The file loads, its ids are unique and every status is one of the two. */
    ghost predicate Consistent()
      reads this
    {
      Load(file).Success? && UniqueIds(Load(file).value) && StatusesValid(Load(file).value)
    }

    constructor (initial: FileState)
      ensures file == initial
    {
      file := initial;
    }

    /** `save_library`: overwrite the file with the records of `books`. */
    method Save(books: seq<Book>)
      modifies this
      ensures file == Json(ToRecords(books))
      ensures Load(file) == Success(books)
    {
      file := Json(ToRecords(books));
      SaveLoadRoundTrip(books);
    }

    /** `list_books`: the library as loaded. */
    method ListBooks() returns (r: Result<seq<Book>, Error>)
      ensures Load(file).Failure? ==> r == Failure(Load(file).error)
      ensures Load(file).Success? ==> r == Success(Load(file).value)
      ensures file.Missing? || file.Corrupt? ==> r == Success([])
    {
      var loaded := Load(file);
      if loaded.Failure? {
        return Failure(loaded.error);
      }
      r := Success(loaded.value);
    }

    /** `add_book`: append a new book with the next id and save. */
    method AddBook(title: string, author: string, year: int) returns (r: Result<Book, Error>)
      modifies this
      ensures Load(old(file)).Failure? ==>
        r == Failure(Load(old(file)).error) && file == old(file)
      ensures Load(old(file)).Success? ==>
        var before := Load(old(file)).value;
        && r == Success(Book(NextId(before), title, author, year))
        && r.value.status == Available
        && (forall i :: 0 <= i < |before| ==> before[i].id < r.value.id)
        && Load(file) == Success(Added(before, title, author, year))
      ensures old(Consistent()) ==> Consistent()
    {
      var loaded := Load(file);
      if loaded.Failure? {
        return Failure(loaded.error);
      }
      var books := loaded.value;
      var newId := NextId(books);
      var newBook := Book(newId, title, author, year);
      books := books + [newBook];
      AddPreservesInvariants(loaded.value, title, author, year);
      Save(books);
      r := Success(newBook);
    }

    /** `remove_book`: drop every book with the id; save only if one was dropped. */
    method RemoveBook(id: int) returns (r: Result<bool, Error>)
      modifies this
      ensures Load(old(file)).Failure? ==>
        r == Failure(Load(old(file)).error) && file == old(file)
      ensures Load(old(file)).Success? ==>
        var before := Load(old(file)).value;
        && r.Success?
        && (r.value <==> exists i :: 0 <= i < |before| && before[i].id == id)
        && (r.value ==> Load(file) == Success(WithoutId(before, id)))
        && (!r.value ==> file == old(file))
      ensures old(Consistent()) ==> Consistent()
    {
      var loaded := Load(file);
      if loaded.Failure? {
        return Failure(loaded.error);
      }
      var books := loaded.value;
      var filtered := WithoutId(books, id);
      RemovePreservesInvariants(books, id);
      if |filtered| == |books| {
        return Success(false);
      }
      Save(filtered);
      r := Success(true);
    }

    /** `search_books`: the library books that pass every given filter, in library order. */
    method SearchBooks(title: Option<string>, author: Option<string>, year: Option<int>)
      returns (r: Result<seq<Book>, Error>)
      ensures Load(file).Failure? ==> r == Failure(Load(file).error)
      ensures Load(file).Success? ==>
        && r == Success(Search(Load(file).value, title, author, year))
        && SubsequenceOf(r.value, Load(file).value)
        && (forall b :: b in r.value <==> b in Load(file).value && Matches(b, title, author, year))
        && forall b :: multiset(r.value)[b] ==
                       if Matches(b, title, author, year) then multiset(Load(file).value)[b] else 0
    {
      var loaded := Load(file);
      if loaded.Failure? {
        return Failure(loaded.error);
      }
      SearchSpec(loaded.value, title, author, year);
      r := Success(Search(loaded.value, title, author, year));
    }

    /**
     * `update_book_status`: reject a status outside the two, then set the
     * status of the first book with the id and save.
     */
    method UpdateBookStatus(id: int, status: string) returns (r: Result<bool, Error>)
      modifies this
      ensures !ValidStatus(status) ==> r == Failure(InvalidStatus(status)) && file == old(file)
      ensures ValidStatus(status) && Load(old(file)).Failure? ==>
        r == Failure(Load(old(file)).error) && file == old(file)
      ensures ValidStatus(status) && Load(old(file)).Success? ==>
        var before := Load(old(file)).value;
        && r.Success?
        && (r.value <==> exists i :: 0 <= i < |before| && before[i].id == id)
        && (r.value ==> Load(file) == Success(WithStatus(before, id, status)))
        && (!r.value ==> file == old(file))
      ensures old(Consistent()) ==> Consistent()
    {
      if status != Available && status != Issued {
        return Failure(InvalidStatus(status));
      }
      var loaded := Load(file);
      if loaded.Failure? {
        return Failure(loaded.error);
      }
      var books := loaded.value;
      var i := 0;
      while i < |books|
        invariant 0 <= i <= |books|
        invariant books == loaded.value
        invariant forall j :: 0 <= j < i ==> books[j].id != id
      {
        if books[i].id == id {
          assert FirstWithId(loaded.value, id) == Some(i);
          books := books[i := books[i].(status := status)];
          assert books == WithStatus(loaded.value, id, status);
          WithStatusSpec(loaded.value, id, status);
          Save(books);
          return Success(true);
        }
        i := i + 1;
      }
      r := Success(false);
    }
  }
}
