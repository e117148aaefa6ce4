/**
 * The backup file (src/utils/storage.ts): the export envelope, the download name, and
 * the shape dispatch on import. JSON text is not modelled: a document is the `Json`
 * value it parses to, and parsing is an outcome handed in by the caller.
 */
module Storage {
  import opened Wrappers
  import opened Books

  /** A parsed JSON value. Numbers are integers here. */
  datatype Json =
    | JNull
    | JBool(b: bool)
    | JNumber(n: int)
    | JString(s: string)
    | JArray(items: seq<Json>)
    | JObject(fields: map<string, Json>)

  /** The outcome of `JSON.parse` on the file's text. */
  datatype Parsed = Parsed(value: Json) | Unparseable

  /** Why an import is rejected: text that does not parse, a `null` document whose
      property access throws, or a value of neither accepted shape. */
  datatype ImportError = SyntaxError | TypeError | InvalidFormat

  /** What `importBooksFromJSON` resolves with; `uploadedImage` is `None` when undefined. */
  datatype ImportedData = ImportedData(books: seq<Json>, uploadedImage: Option<Json>)

  function EncodeStrings(ss: seq<string>): (r: seq<Json>)
    ensures |r| == |ss|
  {
    if ss == [] then [] else [JString(ss[0])] + EncodeStrings(ss[1..])
  }

  /** A book as the JSON object `JSON.stringify` writes for it. */
  function EncodeBook(b: Book): Json
  {
    JObject(map[
      "id" := JString(b.id),
      "title" := JString(b.title),
      "author" := JString(b.author),
      "coverImage" := JString(b.coverImage),
      "driveLink" := JString(b.driveLink),
      "tags" := JArray(EncodeStrings(b.tags)),
      "createdAt" := JNumber(b.createdAt)])
  }

  function EncodeBooks(books: seq<Book>): (r: seq<Json>)
    ensures |r| == |books|
  {
    if books == [] then [] else [EncodeBook(books[0])] + EncodeBooks(books[1..])
  }

  function DecodeStrings(items: seq<Json>): Option<seq<string>>
  {
    if items == [] then Some([])
    else if !items[0].JString? then None
    else
      var rest :- DecodeStrings(items[1..]);
      Some([items[0].s] + rest)
  }

  function StringField(fields: map<string, Json>, key: string): Option<string>
  {
    if key in fields && fields[key].JString? then Some(fields[key].s) else None
  }

  /** The model's reading of a parsed object as a `Book`, which the code itself never
      performs (its type annotation checks nothing at run time); `None` when a field is
      missing or of the wrong kind. */
  function DecodeBook(j: Json): Option<Book>
  {
    if !j.JObject? then None
    else
      var id :- StringField(j.fields, "id");
      var title :- StringField(j.fields, "title");
      var author :- StringField(j.fields, "author");
      var coverImage :- StringField(j.fields, "coverImage");
      var driveLink :- StringField(j.fields, "driveLink");
      if "tags" !in j.fields || !j.fields["tags"].JArray? then None
      else if "createdAt" !in j.fields || !j.fields["createdAt"].JNumber? then None
      else
        var tags :- DecodeStrings(j.fields["tags"].items);
        Some(Book(id, title, author, coverImage, driveLink, tags, j.fields["createdAt"].n))
  }

  function DecodeBooks(items: seq<Json>): Option<seq<Book>>
  {
    if items == [] then Some([])
    else
      var first :- DecodeBook(items[0]);
      var rest :- DecodeBooks(items[1..]);
      Some([first] + rest)
  }

  lemma {:induction false} DecodeEncodeStrings(ss: seq<string>)
    ensures DecodeStrings(EncodeStrings(ss)) == Some(ss)
  {
    if ss != [] {
      DecodeEncodeStrings(ss[1..]);
      assert EncodeStrings(ss)[1..] == EncodeStrings(ss[1..]);
      assert ss == [ss[0]] + ss[1..];
    }
  }

  /** Every book reads back from its JSON object unchanged. */
  lemma {:induction false} DecodeEncodeBooks(books: seq<Book>)
    ensures DecodeBooks(EncodeBooks(books)) == Some(books)
  {
    if books != [] {
      DecodeEncodeStrings(books[0].tags);
      DecodeEncodeBooks(books[1..]);
      assert EncodeBooks(books)[1..] == EncodeBooks(books[1..]);
      assert books == [books[0]] + books[1..];
    }
  }

  /** `uploadedImage || null`: a missing, null or empty image is written as `null`. */
  function ImageValue(uploadedImage: Option<string>): Json
  {
    if uploadedImage.Some? && uploadedImage.value != "" then JString(uploadedImage.value) else JNull
  }

  /** The object `exportBooksToJSON` serialises: `{ books, uploadedImage, exportDate }`.
      `exportDate` is the ISO timestamp read from the clock when the object is built. */
  function ExportEnvelope(books: seq<Book>, uploadedImage: Option<string>, exportDate: string): (r: Json)
    ensures r.JObject? && r.fields.Keys == {"books", "uploadedImage", "exportDate"}
    ensures r.fields["books"].JArray? && |r.fields["books"].items| == |books|
    ensures r.fields["uploadedImage"] == JNull <==> uploadedImage.None? || uploadedImage.value == ""
    ensures uploadedImage.Some? && uploadedImage.value != "" ==>
              r.fields["uploadedImage"] == JString(uploadedImage.value)
    ensures r.fields["exportDate"] == JString(exportDate)
  {
    JObject(map[
      "books" := JArray(EncodeBooks(books)),
      "uploadedImage" := ImageValue(uploadedImage),
      "exportDate" := JString(exportDate)])
  }

  /** `s.split(sep)[0]`: the part of `s` before the first `sep`, or all of `s`. */
  function BeforeFirst(s: string, sep: char): (r: string)
    ensures |r| <= |s| && r == s[..|r|] && sep !in r
    ensures |r| < |s| ==> s[|r|] == sep
  {
    if s == [] || s[0] == sep then [] else [s[0]] + BeforeFirst(s[1..], sep)
  }

  /** The download name; `isoTimestamp` is the clock's second reading in `exportBooksToJSON`. */
  function BackupFileName(isoTimestamp: string): string
  {
    "my-library-backup-" + BeforeFirst(isoTimestamp, 'T') + ".json"
  }

  /** For an ISO timestamp `<date>T<time>`, the file name carries exactly the date. */
  lemma {:induction false} BackupFileNameDate(date: string, time: string)
    requires 'T' !in date
    ensures BackupFileName(date + "T" + time) == "my-library-backup-" + date + ".json"
  {
    var s := date + "T" + time;
    var r := BeforeFirst(s, 'T');
    assert s[|date|] == 'T';
    assert forall k :: 0 <= k < |date| ==> s[k] == date[k];
    assert |r| == |date|;
    assert r == s[..|date|] == date;
  }

  /** The shape dispatch of `importBooksFromJSON` on the parsed document. */
  function ImportShape(data: Json): (r: Result<ImportedData, ImportError>)
    ensures data.JArray? ==> r == Ok(ImportedData(data.items, None))
    ensures data.JNull? ==> r == Err(TypeError)
    ensures r.Ok? <==> data.JArray? || (data.JObject? && "books" in data.fields && data.fields["books"].JArray?)
    ensures r.Ok? && data.JObject? ==>
              r.value.books == data.fields["books"].items
              && r.value.uploadedImage == (if "uploadedImage" in data.fields then Some(data.fields["uploadedImage"]) else None)
    ensures r.Err? && !data.JNull? ==> r.error == InvalidFormat
  {
    match data
    case JArray(items) => Ok(ImportedData(items, None))
    case JNull => Err(TypeError)
    case JObject(fields) =>
      if "books" in fields && fields["books"].JArray? then
        var image := if "uploadedImage" in fields then Some(fields["uploadedImage"]) else None;
        Ok(ImportedData(fields["books"].items, image))
      else Err(InvalidFormat)
    case _ => Err(InvalidFormat)
  }

  /** `importBooksFromJSON` once the file's text is available. */
  function ImportBooksFromJson(text: Parsed): (r: Result<ImportedData, ImportError>)
    ensures text.Unparseable? ==> r == Err(SyntaxError)
    ensures text.Parsed? ==> r == ImportShape(text.value)
  {
    match text
    case Unparseable => Err(SyntaxError)
    case Parsed(v) => ImportShape(v)
  }

  /**
   * Round trip: importing an exported envelope gives back the exported books and image,
   * and so does the legacy bare-array shape holding the same books.
   */
  lemma ExportImportRoundTrip(books: seq<Book>, uploadedImage: Option<string>, exportDate: string)
    ensures var r := ImportShape(ExportEnvelope(books, uploadedImage, exportDate));
            && r.Ok?
            && DecodeBooks(r.value.books) == Some(books)
            && r.value.uploadedImage == Some(ImageValue(uploadedImage))
    ensures var r := ImportShape(JArray(EncodeBooks(books)));
            r.Ok? && DecodeBooks(r.value.books) == Some(books) && r.value.uploadedImage.None?
  {
    DecodeEncodeBooks(books);
  }
}
