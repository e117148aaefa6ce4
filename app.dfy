/**
 * The catalog screen (src/App.tsx): the derived view (search, then tag filter, then
 * sort) and the handlers that change the catalog, each guarded by the lock.
 */
module App {
  import opened Wrappers
  import opened Seqs
  import opened Text
  import opened Books
  import Sidebar

  datatype SortKey = ByTitle | ByCreatedAt

  /** The search test: the lowercased title or author contains the lowercased query. */
  predicate MatchesQuery(b: Book, query: string, fold: char -> char)
  {
    var q := Lower(query, fold);
    Includes(Lower(b.title, fold), q) || Includes(Lower(b.author, fold), q)
  }

  /** The search step. It applies only when the query is not blank, and then uses the
      query as typed, untrimmed. */
  function SearchFilter(books: seq<Book>, query: string, fold: char -> char): (r: seq<Book>)
    ensures Trim(query) == [] ==> r == books
    ensures Trim(query) != [] ==>
              forall b :: multiset(r)[b] == if MatchesQuery(b, query, fold) then multiset(books)[b] else 0
    ensures IsSubsequence(r, books) && |r| <= |books|
  {
    if Trim(query) != [] then
      FilterCounts(books, b => MatchesQuery(b, query, fold));
      Filter(books, b => MatchesQuery(b, query, fold))
    else
      SubsequenceReflexive(books);
      books
  }

  /** The tag test: the book carries every selected tag. */
  predicate HasAllTags(b: Book, selected: seq<string>)
  {
    forall t :: t in selected ==> t in b.tags
  }

  /** The tag step; an empty selection keeps the sequence as it is. */
  function TagFilter(books: seq<Book>, selected: seq<string>): (r: seq<Book>)
    ensures |selected| == 0 ==> r == books
    ensures forall b :: multiset(r)[b] == if HasAllTags(b, selected) then multiset(books)[b] else 0
    ensures IsSubsequence(r, books) && |r| <= |books|
  {
    if |selected| > 0 then
      FilterCounts(books, b => HasAllTags(b, selected));
      Filter(books, b => HasAllTags(b, selected))
    else
      SubsequenceReflexive(books);
      books
  }

  /**
   * The comparator handed to `sort`, read as "`a` may come before `b`" (the comparator
   * returns a value <= 0): `localeCompare` on titles, which `titleLe` stands for, or
   * `b.createdAt - a.createdAt`, newest first.
   */
  function BookOrder(key: SortKey, titleLe: (string, string) -> bool): (Book, Book) -> bool
  {
    match key
    case ByTitle => (a: Book, b: Book) => titleLe(a.title, b.title)
    case ByCreatedAt => (a: Book, b: Book) => b.createdAt - a.createdAt <= 0
  }

  lemma BookOrderIsTotal(key: SortKey, titleLe: (string, string) -> bool)
    requires TotalPreorder(titleLe)
    ensures TotalPreorder(BookOrder(key, titleLe))
  {
    var le := BookOrder(key, titleLe);
    forall a, b ensures le(a, b) || le(b, a) {
      if key == ByTitle {
        assert titleLe(a.title, b.title) || titleLe(b.title, a.title);
      }
    }
    forall a, b, c | le(a, b) && le(b, c) ensures le(a, c) {
      if key == ByTitle {
        assert titleLe(a.title, b.title) && titleLe(b.title, c.title);
      }
    }
  }

  /** The sort step: a stable sort under `BookOrder`. */
  function SortView(books: seq<Book>, key: SortKey, titleLe: (string, string) -> bool): (r: seq<Book>)
    requires TotalPreorder(titleLe)
    ensures multiset(r) == multiset(books)
    ensures key == ByTitle ==> forall i, j :: 0 <= i < j < |r| ==> titleLe(r[i].title, r[j].title)
    ensures key == ByCreatedAt ==> forall i, j :: 0 <= i < j < |r| ==> r[i].createdAt >= r[j].createdAt
  {
    BookOrderIsTotal(key, titleLe);
    var r := Sort(books, BookOrder(key, titleLe));
    assert SortedBy(r, BookOrder(key, titleLe));
    r
  }

  /** A book passes both filters. */
  predicate Shown(b: Book, query: string, selected: seq<string>, fold: char -> char)
  {
    (Trim(query) == [] || MatchesQuery(b, query, fold)) && HasAllTags(b, selected)
  }

  /**
   * `filteredAndSortedBooks`: exactly the catalog entries that pass both filters, each as
   * often as in the catalog, sorted by the chosen key.
   */
  function View(books: seq<Book>, query: string, selected: seq<string>, key: SortKey,
                fold: char -> char, titleLe: (string, string) -> bool): (r: seq<Book>)
    requires TotalPreorder(titleLe)
    ensures forall b :: multiset(r)[b] == if Shown(b, query, selected, fold) then multiset(books)[b] else 0
    ensures forall b :: b in r ==> b in books
    ensures |r| <= |books|
    ensures key == ByTitle ==> forall i, j :: 0 <= i < j < |r| ==> titleLe(r[i].title, r[j].title)
    ensures key == ByCreatedAt ==> forall i, j :: 0 <= i < j < |r| ==> r[i].createdAt >= r[j].createdAt
  {
    var searched := SearchFilter(books, query, fold);
    var filtered := TagFilter(searched, selected);
    var r := SortView(filtered, key, titleLe);
    assert |r| == |multiset(r)| == |multiset(filtered)| == |filtered|;
    assert forall b :: b in r ==> b in books by {
      forall b | b in r ensures b in books {
        assert multiset(r)[b] > 0;
      }
    }
    r
  }

  /** Stability: books the order ranks equal keep their catalog order in the view. */
  lemma ViewKeepsTieOrder(books: seq<Book>, query: string, selected: seq<string>, key: SortKey,
                          fold: char -> char, titleLe: (string, string) -> bool, k: Book)
    requires TotalPreorder(titleLe)
    ensures IsSubsequence(Filter(View(books, query, selected, key, fold, titleLe), Tie(k, BookOrder(key, titleLe))), books)
  {
    var le := BookOrder(key, titleLe);
    var searched := SearchFilter(books, query, fold);
    var filtered := TagFilter(searched, selected);
    BookOrderIsTotal(key, titleLe);
    SortIsStable(filtered, le, k);
    var ties := Filter(filtered, Tie(k, le));
    SubsequenceTransitive(ties, filtered, searched);
    SubsequenceTransitive(ties, searched, books);
  }

  /** Sorting the view again leaves it as it is. */
  lemma ViewSortIdempotent(books: seq<Book>, query: string, selected: seq<string>, key: SortKey,
                           fold: char -> char, titleLe: (string, string) -> bool)
    requires TotalPreorder(titleLe)
    ensures var v := View(books, query, selected, key, fold, titleLe); SortView(v, key, titleLe) == v
  {
    var v := View(books, query, selected, key, fold, titleLe);
    BookOrderIsTotal(key, titleLe);
    SortOfSorted(v, BookOrder(key, titleLe));
  }

  /** The delete step: `books.filter(book => book.id !== bookId)`. */
  function WithoutId(books: seq<Book>, id: string): (r: seq<Book>)
    ensures forall b :: multiset(r)[b] == if b.id == id then 0 else multiset(books)[b]
    ensures IsSubsequence(r, books)
    ensures forall b :: b in r ==> b.id != id
  {
    FilterCounts(books, (b: Book) => b.id != id);
    Filter(books, (b: Book) => b.id != id)
  }

  /** The state the catalog screen keeps. */
  class Library {
    var books: seq<Book>
    var searchQuery: string
    var selectedTags: seq<string>
    var sortBy: SortKey
    var isModalOpen: bool
    var isLocked: bool
    var editingBook: Option<Book>

    /** The screen as first shown; `stored` is the catalog loaded from local storage. */
    constructor (stored: seq<Book>)
      ensures books == stored && searchQuery == "" && selectedTags == [] && sortBy == ByTitle
      ensures !isModalOpen && !isLocked && editingBook == None
    {
      books := stored;
      searchQuery := "";
      selectedTags := [];
      sortBy := ByTitle;
      isModalOpen := false;
      isLocked := false;
      editingBook := None;
    }

    /**
     * `handleAddBook`. Refused under the lock. With a book being edited, every entry with
     * its id takes the submitted fields and keeps that id and creation time; otherwise a
     * new book with the fresh `newId` and the clock reading `now` is appended.
     */
    method AddBook(data: BookData, newId: string, now: int) returns (accepted: bool)
      requires !isLocked && editingBook.None? ==> forall b :: b in books ==> b.id != newId
      modifies this`books, this`editingBook
      ensures accepted == !old(isLocked)
      ensures !accepted ==> books == old(books) && editingBook == old(editingBook)
      ensures accepted && old(editingBook).Some? ==>
                var e := old(editingBook).value;
                && editingBook == None
                && |books| == |old(books)|
                && forall i :: 0 <= i < |books| ==>
                     books[i] == if old(books)[i].id == e.id then WithIdentity(data, e.id, e.createdAt)
                                 else old(books)[i]
      ensures accepted && old(editingBook).None? ==>
                && editingBook == None
                && books == old(books) + [WithIdentity(data, newId, now)]
                && forall i :: 0 <= i < |old(books)| ==> books[i].id != newId
    {
      if isLocked {
        return false;
      }
      var prev := books;
      if editingBook.Some? {
        var e := editingBook.value;
        var updated := WithIdentity(data, e.id, e.createdAt);
        books := seq(|prev|, i requires 0 <= i < |prev| => if prev[i].id == e.id then updated else prev[i]);
        editingBook := None;
      } else {
        books := prev + [WithIdentity(data, newId, now)];
        assert forall i :: 0 <= i < |prev| ==> books[i] == prev[i];
      }
      return true;
    }

    /** `handleImportBooks`: refused under the lock; otherwise the catalog is replaced
        by `imported` exactly when the user confirms. */
    method ImportBooks(imported: seq<Book>, confirmed: bool) returns (accepted: bool)
      modifies this`books
      ensures accepted == !old(isLocked)
      ensures books == if accepted && confirmed then imported else old(books)
    {
      if isLocked {
        return false;
      }
      if confirmed {
        books := imported;
      }
      return true;
    }

    /** `handleEditBook`: refused under the lock; otherwise opens the form on `book`. */
    method EditBook(book: Book) returns (accepted: bool)
      modifies this`editingBook, this`isModalOpen
      ensures accepted == !old(isLocked)
      ensures accepted ==> editingBook == Some(book) && isModalOpen
      ensures !accepted ==> editingBook == old(editingBook) && isModalOpen == old(isModalOpen)
    {
      if isLocked {
        return false;
      }
      editingBook := Some(book);
      isModalOpen := true;
      return true;
    }

    /** `handleDeleteBook`: refused under the lock; otherwise removes every entry with `id`. */
    method DeleteBook(id: string) returns (accepted: bool)
      modifies this`books
      ensures accepted == !old(isLocked)
      ensures books == if accepted then WithoutId(old(books), id) else old(books)
    {
      if isLocked {
        return false;
      }
      books := WithoutId(books, id);
      return true;
    }

    /** `handleModalClose`. */
    method CloseModal()
      modifies this`isModalOpen, this`editingBook
      ensures !isModalOpen && editingBook == None
    {
      isModalOpen := false;
      editingBook := None;
    }

    /** The header's add button. */
    method OpenModal()
      modifies this`isModalOpen
      ensures isModalOpen
    {
      isModalOpen := true;
    }

    /** The lock button. */
    method ToggleLock()
      modifies this`isLocked
      ensures isLocked == !old(isLocked)
    {
      isLocked := !isLocked;
    }

    /** The search box. */
    method SetSearchQuery(query: string)
      modifies this`searchQuery
      ensures searchQuery == query
    {
      searchQuery := query;
    }

    /** The sort buttons. */
    method SetSortBy(key: SortKey)
      modifies this`sortBy
      ensures sortBy == key
    {
      sortBy := key;
    }

    /** A click on a tag in the side panel (`onTagsChange` is `setSelectedTags`). */
    method ClickTag(tag: string)
      modifies this`selectedTags
      ensures selectedTags == Sidebar.ToggleTag(old(selectedTags), tag)
    {
      selectedTags := Sidebar.ToggleTag(selectedTags, tag);
    }

    /** The "Clear Filters" button. */
    method ClearFilters()
      modifies this`searchQuery, this`selectedTags
      ensures searchQuery == "" && selectedTags == []
    {
      searchQuery := "";
      selectedTags := [];
    }

    /**
     * Computing `filteredAndSortedBooks`. The sort works in place on `filtered`, and
     * while neither filter applies `filtered` is the catalog's own array, so the catalog
     * itself is left in the view's order (same entries, new order).
     */
    method RefreshView(fold: char -> char, titleLe: (string, string) -> bool) returns (view: seq<Book>)
      requires TotalPreorder(titleLe)
      modifies this`books
      ensures view == View(old(books), searchQuery, selectedTags, sortBy, fold, titleLe)
      ensures books == if Trim(searchQuery) == [] && |selectedTags| == 0 then view else old(books)
      ensures multiset(books) == multiset(old(books))
    {
      var filtered := books;
      var aliased := true;
      if Trim(searchQuery) != [] {
        filtered := SearchFilter(filtered, searchQuery, fold);
        aliased := false;
      }
      if |selectedTags| > 0 {
        filtered := TagFilter(filtered, selectedTags);
        aliased := false;
      }
      view := SortView(filtered, sortBy, titleLe);
      if aliased {
        books := view;
      }
    }
  }
}
