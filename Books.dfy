/**
 * The `Book` record of the catalogue and its string-map form: `to_dict` writes
 * every field as a string (id and year through `str`), `from_dict` reads them
 * back (id and year through `int`).
 */
module Books {
  import opened Wrappers
  import Decimal

  /** The status a new book gets: "on the shelf". */
  const Available: string := "в наличии"
  /** The other status `update_book_status` accepts: "lent out". */
  const Issued: string := "выдана"

  /** A catalogue entry; a book built without a status is on the shelf. */
  datatype Book = Book(id: int, title: string, author: string, year: int, status: string := Available)

  /** The string-keyed mapping `to_dict` produces and `from_dict` consumes. */
  type Record = map<string, string>

  /** The five keys of a record. */
  const Keys: set<string> := {"id", "title", "author", "year", "status"}

  /** Why `from_dict` rejects a record: a KeyError or a ValueError raised by `int`. */
  datatype RecordError = MissingKey(key: string) | NotAnInteger(key: string, text: string)

  /** Leaving the status out gives a book on the shelf. */
  lemma DefaultStatus(id: int, title: string, author: string, year: int)
    ensures Book(id, title, author, year).status == Available
    ensures Book(id, title, author, year) == Book(id, title, author, year, Available)
  {
  }

  /** `Book.to_dict`. */
  function ToDict(b: Book): (r: Record)
    ensures r.Keys == Keys
    ensures r["id"] == Decimal.IntToDecimal(b.id) && r["year"] == Decimal.IntToDecimal(b.year)
    ensures Decimal.IsCanonical(r["id"]) && Decimal.IsCanonical(r["year"])
    ensures r["title"] == b.title && r["author"] == b.author && r["status"] == b.status
  {
    Decimal.IntToDecimalIsCanonical(b.id);
    Decimal.IntToDecimalIsCanonical(b.year);
    map["id" := Decimal.IntToDecimal(b.id),
        "title" := b.title,
        "author" := b.author,
        "year" := Decimal.IntToDecimal(b.year),
        "status" := b.status]
  }

  /**
   * `Book.from_dict`. The keyword arguments are evaluated in order, so the
   * error reported is the first of: "id" missing, "id" not an integer,
   * "title" missing, "author" missing, "year" missing, "year" not an integer,
   * "status" missing.
   */
  function FromDict(d: Record): (r: Result<Book, RecordError>)
    ensures r.Success? <==> Keys <= d.Keys && Decimal.ParseInt(d["id"]).Some?
                            && Decimal.ParseInt(d["year"]).Some?
    ensures r.Success? ==>
      r.value == Book(Decimal.ParseInt(d["id"]).value, d["title"], d["author"],
                      Decimal.ParseInt(d["year"]).value, d["status"])
    ensures r.Failure? && r.error.MissingKey? ==> r.error.key in Keys && r.error.key !in d
    ensures r.Failure? && r.error.NotAnInteger? ==>
      r.error.key in d && (r.error.key == "id" || r.error.key == "year")
      && r.error.text == d[r.error.key] && Decimal.ParseInt(d[r.error.key]).None?
    // the reported error is the first check that fails, in argument order
    ensures "id" !in d ==> r == Failure(MissingKey("id"))
    ensures "id" in d && Decimal.ParseInt(d["id"]).None? ==> r == Failure(NotAnInteger("id", d["id"]))
    ensures r.Failure? && r.error.key != "id" ==> "id" in d && Decimal.ParseInt(d["id"]).Some?
    ensures r.Failure? && r.error.key in {"author", "year", "status"} ==> "title" in d
    ensures r.Failure? && r.error.key in {"year", "status"} ==> "author" in d
    ensures r.Failure? && r.error.key == "status" ==> "year" in d && Decimal.ParseInt(d["year"]).Some?
  {
    if "id" !in d then Failure(MissingKey("id"))
    else match Decimal.ParseInt(d["id"])
      case None => Failure(NotAnInteger("id", d["id"]))
      case Some(id) =>
        if "title" !in d then Failure(MissingKey("title"))
        else if "author" !in d then Failure(MissingKey("author"))
        else if "year" !in d then Failure(MissingKey("year"))
        else match Decimal.ParseInt(d["year"])
          case None => Failure(NotAnInteger("year", d["year"]))
          case Some(year) =>
            if "status" !in d then Failure(MissingKey("status"))
            else Success(Book(id, d["title"], d["author"], year, d["status"]))
  }

  /** Reading back what `to_dict` wrote gives the same book, for every id and year. */
  lemma RecordRoundTrip(b: Book)
    ensures FromDict(ToDict(b)) == Success(b)
  {
    Decimal.IntRoundTrip(b.id);
    Decimal.IntRoundTrip(b.year);
  }

  /** A record in the form `to_dict` writes is reproduced by reading and writing it. */
  lemma CanonicalRecordRoundTrip(d: Record)
    requires d.Keys == Keys && Decimal.IsCanonical(d["id"]) && Decimal.IsCanonical(d["year"])
    ensures FromDict(d).Success? && ToDict(FromDict(d).value) == d
  {
    Decimal.CanonicalRoundTrip(d["id"]);
    Decimal.CanonicalRoundTrip(d["year"]);
    var e := ToDict(FromDict(d).value);
    assert forall k :: k in Keys ==> e[k] == d[k];
  }

  /** Keys other than the five are ignored by `from_dict`. */
  lemma FromDictIgnoresExtraKeys(d: Record)
    ensures FromDict(d) == FromDict(map k | k in d && k in Keys :: d[k])
  {
  }
}
