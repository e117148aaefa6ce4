/**
 * The logic of the side panel (src/components/Sidebar.tsx): the tag vocabulary, the
 * tag-selection toggle, and what the import and export buttons hand on.
 */
module Sidebar {
  import opened Wrappers
  import opened Seqs
  import opened Text
  import opened Books
  import opened Storage

  /** `books.flatMap(book => book.tags)`. */
  function FlatTags(books: seq<Book>): (r: seq<string>)
    ensures forall t :: t in r <==> exists i :: 0 <= i < |books| && t in books[i].tags
  {
    if books == [] then []
    else
      var rest := FlatTags(books[1..]);
      assert forall i :: 0 < i < |books| ==> books[i] == books[1..][i - 1];
      books[0].tags + rest
  }

  /** `Array.from(new Set(books.flatMap(book => book.tags))).sort()`. */
  function AllTags(books: seq<Book>): (r: seq<string>)
    ensures forall t :: t in r <==> exists i :: 0 <= i < |books| && t in books[i].tags
    ensures NoDup(r)
    ensures forall i, j :: 0 <= i < j < |r| ==> CodePointLe(r[i], r[j])
  {
    var unique := Dedup(FlatTags(books));
    CodePointOrderIsTotal();
    var r := Sort(unique, CodePointLe);
    NoDupCounts(unique);
    NoDupCounts(r);
    assert forall t :: t in r <==> t in unique by {
      forall t ensures t in r <==> t in unique {
        assert t in multiset(r) <==> t in multiset(unique);
      }
    }
    r
  }

  /** The vocabulary is strictly ascending: sorted and free of repeats. */
  lemma AllTagsStrictlyAscending(books: seq<Book>, i: int, j: int)
    requires 0 <= i < j < |AllTags(books)|
    ensures CodePointLe(AllTags(books)[i], AllTags(books)[j])
    ensures !CodePointLe(AllTags(books)[j], AllTags(books)[i])
  {
    var r := AllTags(books);
    if CodePointLe(r[j], r[i]) {
      CodePointLeAntisymmetric(r[i], r[j]);
    }
  }

  /** `handleTagClick`: deselect a selected tag everywhere, or append an unselected one. */
  function ToggleTag(selected: seq<string>, tag: string): (r: seq<string>)
    ensures tag in selected ==> tag !in r && IsSubsequence(r, selected)
                                && forall x :: x != tag ==> multiset(r)[x] == multiset(selected)[x]
    ensures tag !in selected ==> r == selected + [tag]
  {
    if tag in selected then RemoveAll(selected, tag) else selected + [tag]
  }

  /** Toggling keeps a duplicate-free selection duplicate-free. */
  lemma ToggleKeepsNoDup(selected: seq<string>, tag: string)
    requires NoDup(selected)
    ensures NoDup(ToggleTag(selected, tag))
  {
    var r := ToggleTag(selected, tag);
    NoDupCounts(selected);
    assert forall x :: multiset(r)[x] <= 1 by {
      if tag !in selected {
        assert multiset(r) == multiset(selected) + multiset{tag};
      }
    }
    NoDupCounts(r);
  }

  /** Toggling twice restores the selection as a set, and restores the same sequence when
      the tag was not selected. */
  lemma ToggleTwice(selected: seq<string>, tag: string)
    ensures forall x :: x in ToggleTag(ToggleTag(selected, tag), tag) <==> x in selected
    ensures tag !in selected ==> ToggleTag(ToggleTag(selected, tag), tag) == selected
  {
    var once := ToggleTag(selected, tag);
    if tag !in selected {
      RemoveAllAppended(selected, tag);
    } else {
      assert forall x :: x in once <==> x in selected && x != tag by {
        forall x ensures x in once <==> x in selected && x != tag {
          assert x in once <==> multiset(once)[x] > 0;
        }
      }
    }
  }

  /** What `handleImport` does with a chosen file. */
  datatype ImportStep =
    | NoFile                       // no file chosen: nothing happens
    | CallImport(books: seq<Json>) // `onImportBooks(importedBooks)`
    | ShowAlert                    // the import failed: an alert, and no import

  function HandleImport(file: Option<Parsed>): (r: ImportStep)
    ensures r.NoFile? <==> file.None?
    ensures r.CallImport? <==> file.Some? && ImportBooksFromJson(file.value).Ok?
    ensures r.CallImport? ==> r.books == ImportBooksFromJson(file.value).value.books
    ensures r.ShowAlert? <==> file.Some? && ImportBooksFromJson(file.value).Err?
  {
    match file
    case None => NoFile
    case Some(text) =>
      match ImportBooksFromJson(text)
      case Ok(data) => CallImport(data.books)
      case Err(_) => ShowAlert
  }

  /** `handleExport`: the envelope is always built with a null image. */
  function HandleExport(books: seq<Book>, exportDate: string): (r: Json)
    ensures r.JObject? && "uploadedImage" in r.fields && r.fields["uploadedImage"] == JNull
    ensures ImportShape(r).Ok? && DecodeBooks(ImportShape(r).value.books) == Some(books)
  {
    ExportImportRoundTrip(books, None, exportDate);
    ExportEnvelope(books, None, exportDate)
  }
}
