# Personal book catalog: a verified model of the catalog logic

The application keeps a personal list of books in the browser. Each book has a title,
an author, a cover image, a drive link, free-text tags and a creation timestamp. Under
the presentational React code there is a small core of sequential list logic, and this
project models it in Dafny:

- **The catalog screen** (`src/App.tsx`). The visible list is derived in three steps.
  First a case-insensitive substring search on title or author. Then a tag filter that
  keeps books carrying every selected tag. Then a stable sort, by title ascending or by
  creation time newest first. The catalog changes through add, update, delete and a
  wholesale import, and each of these is refused while the library is locked. The pure
  steps are functions (`App.SearchFilter`, `App.TagFilter`, `App.SortView`, `App.View`).
  The screen state is the class `App.Library`, whose methods are the handlers.
- **The side panel** (`src/components/Sidebar.tsx`). It builds the tag vocabulary (every
  tag of every book, once, sorted) and toggles a tag in or out of the selection. It also
  decides what an import or export click hands on.
- **The backup file** (`src/utils/storage.ts`). Export builds the envelope
  `{ books, uploadedImage, exportDate }` and the download name. Import accepts a bare
  array (the legacy shape) or an object with a `books` array, and rejects anything else.
  A parsed document is a `Storage.Json` value, and parsing is an outcome passed in
  (`Storage.Parsed`).
- **The add/edit form** (`src/components/BookModal.tsx`). The class
  `BookModal.BookForm` holds the six form fields. Its methods are the tag buttons, the
  submit button, and the effect that fills or clears the form when it opens.

Shared building blocks: `Seqs` (filter, de-duplication through a set, a stable insertion
sort under a total preorder) and `Text` (JavaScript `trim`, `includes`, and code-point
string order, which agrees with the default order of `sort` on every string without
characters outside the Basic Multilingual Plane).

Behaviour of the code that the model keeps:

- Computing the view reorders the catalog. The code sorts `filtered` in place, and when
  neither filter applies `filtered` is the stored `books` array itself
  (src/App.tsx:20,40). `App.Library.RefreshView` models exactly that: the catalog becomes
  the view when no filter is active, and keeps its order otherwise. `App.View` is the
  view as a value.
- Ids are not guaranteed unique. Import checks neither ids nor elements, so the model has
  no global uniqueness invariant. An update replaces *every* entry with the edited id.
  Only a new id from `AddBook` is required to be fresh.
- The tag filter requires every selected tag (src/App.tsx:35).
- An update keeps the id and `createdAt` of the book handed to the form
  (`editingBook`), not those of the stored entry it matches.
- Imported books are taken as they are: missing fields are not filled with defaults.

## Model

| member | source | states |
|---|---|---|
| `Seqs.Filter` | src/App.tsx:25-29 | `filter` gives a subsequence of its input holding exactly the elements that pass the test |
| `Seqs.FilterCounts` | src/App.tsx:34-36 | `filter` keeps every occurrence of a passing value and none of a failing one |
| `Seqs.Dedup` | src/components/Sidebar.tsx:29 | going through a `Set` leaves each value once and loses none |
| `Seqs.Sort` | src/App.tsx:40-46 | the sort gives a permutation of its input, ordered by the comparator |
| `Seqs.SortIsStable` | src/App.tsx:40-46 | elements the comparator ranks equal keep their input order |
| `Seqs.SortIdempotent` | src/App.tsx:40-46 | sorting an already sorted result changes nothing |
| `Seqs.SortOfSorted` | src/App.tsx:40-46 | a sequence that is already sorted comes out of the sort unchanged |
| `Seqs.NoDupCounts` | src/components/Sidebar.tsx:29 | "no value twice" is the same as "every value at most once", so every permutation keeps it |
| `Text.TrimStartSpec` | src/App.tsx:23 | the start trim removes exactly the leading white space |
| `Text.TrimEndSpec` | src/App.tsx:23 | the end trim removes exactly the trailing white space |
| `Text.TrimSpec` | src/App.tsx:23 | `trim` gives the slice of the string with only white space around it; the result is empty exactly when the string is all white space |
| `Text.TrimIdempotent` | src/components/BookModal.tsx:55 | trimming a trimmed string changes nothing |
| `Text.IncludesAt` | src/App.tsx:27-28 | `includes` holds exactly when the query occurs at some position |
| `Text.CodePointOrderIsTotal` | src/components/Sidebar.tsx:29 | the default string order of `sort` compares every pair and is transitive |
| `Text.CodePointLeAntisymmetric` | src/components/Sidebar.tsx:29 | two strings that each sort no later than the other are equal |
| `Storage.DecodeEncodeBooks` | src/utils/storage.ts:9 | each book, written as a JSON object, reads back as the same book |
| `Storage.ExportEnvelope` | src/utils/storage.ts:4-8 | the envelope has exactly `books`, `uploadedImage` and `exportDate`; the image is `null` exactly when it was absent or empty, and otherwise is the given image |
| `Storage.BeforeFirst` | src/utils/storage.ts:12 | `split('T')[0]` is the longest prefix without a `T`, which ends the string or stands before its first `T` |
| `Storage.BackupFileNameDate` | src/utils/storage.ts:12 | for a timestamp `<date>T<time>` the file name is `my-library-backup-<date>.json` |
| `Storage.ImportShape` | src/utils/storage.ts:28-39 | a bare array is accepted with no image; an object with a `books` array (even an empty one) is accepted with its `uploadedImage`, if any; `null` fails with a type error; everything else fails as an invalid format |
| `Storage.ImportBooksFromJson` | src/utils/storage.ts:24-42 | text that does not parse is rejected; parsed text goes through the shape dispatch |
| `Storage.ExportImportRoundTrip` | src/utils/storage.ts:4-36 | importing an exported envelope gives back exactly the exported books and image; a bare array of the same books gives back the books with no image |
| `Sidebar.FlatTags` | src/components/Sidebar.tsx:29 | `flatMap` holds exactly the tags of the books |
| `Sidebar.AllTags` | src/components/Sidebar.tsx:29 | the vocabulary holds every tag of every book and nothing else, has no duplicates, and is in ascending order |
| `Sidebar.AllTagsStrictlyAscending` | src/components/Sidebar.tsx:29 | each vocabulary entry sorts strictly before every later one |
| `Seqs.RemoveAll` | src/components/Sidebar.tsx:50 | every occurrence of the tag goes; the rest keep their order and multiplicity |
| `Seqs.RemoveAllAppended` | src/components/Sidebar.tsx:48-54 | removing a tag that was just appended to a selection without it gives the selection back |
| `Sidebar.ToggleTag` | src/components/Sidebar.tsx:48-54 | a selected tag is removed everywhere and the others keep their order; an unselected tag is appended at the end |
| `Sidebar.ToggleKeepsNoDup` | src/components/Sidebar.tsx:48-54 | toggling keeps a duplicate-free selection duplicate-free |
| `Sidebar.ToggleTwice` | src/components/Sidebar.tsx:48-54 | toggling the same tag twice restores the selection as a set, and restores the same sequence when the tag was not selected |
| `Sidebar.HandleImport` | src/components/Sidebar.tsx:35-46 | the import callback is called exactly when a file was chosen and its import succeeded, with the imported books; a failed import shows an alert and calls nothing |
| `Sidebar.HandleExport` | src/components/Sidebar.tsx:31-33 | export passes a null image, and the envelope imports back to the catalog |
| `App.SearchFilter` | src/App.tsx:23-30 | a blank query keeps the catalog as it is; otherwise exactly the books whose lowercased title or author contains the lowercased, untrimmed query, in catalog order |
| `App.TagFilter` | src/App.tsx:33-37 | an empty selection keeps the list; otherwise exactly the books carrying every selected tag, in order |
| `App.BookOrderIsTotal` | src/App.tsx:40-46 | both comparators (title, newest first) are total preorders |
| `App.SortView` | src/App.tsx:40-46 | the sorted list is a permutation, ascending by title or descending by `createdAt` |
| `App.View` | src/App.tsx:19-49 | the view holds exactly the catalog entries that pass both filters, as often as in the catalog, is never longer than the catalog, and is sorted by the chosen key |
| `App.ViewKeepsTieOrder` | src/App.tsx:19-49 | books the order ranks equal appear in the view in their catalog order |
| `App.ViewSortIdempotent` | src/App.tsx:40-46 | sorting the view again leaves it as it is |
| `App.WithoutId` | src/App.tsx:108 | delete keeps, in order, exactly the entries whose id differs |
| `App.Library.constructor` | src/App.tsx:10-17 | the screen starts unlocked, with no search, no selected tags, title order, no form open, and the stored catalog |
| `App.Library.AddBook` | src/App.tsx:51-77 | under the lock nothing changes; an update rewrites exactly the entries with the edited id, keeping id and `createdAt`, and clears `editingBook`; an add appends one book with the fresh id and timestamp and leaves earlier entries as they were |
| `App.Library.ImportBooks` | src/App.tsx:79-92 | under the lock nothing changes; otherwise the catalog is replaced exactly when the user confirms |
| `App.Library.EditBook` | src/App.tsx:94-101 | under the lock neither `editingBook` nor the form changes; otherwise the form opens on the book |
| `App.Library.DeleteBook` | src/App.tsx:103-109 | under the lock nothing changes; otherwise exactly the entries with the id are removed |
| `App.Library.CloseModal` | src/App.tsx:115-118 | closing the form clears `editingBook` |
| `App.Library.OpenModal` | src/App.tsx:142 | the add button opens the form |
| `App.Library.ToggleLock` | src/App.tsx:133 | the lock button flips the lock |
| `App.Library.SetSearchQuery` | src/App.tsx:141 | the search box sets the query as typed |
| `App.Library.SetSortBy` | src/App.tsx:131 | the sort buttons set the key |
| `App.Library.ClickTag` | src/App.tsx:128-129 | a tag click replaces the selection by its toggle |
| `App.Library.ClearFilters` | src/App.tsx:183-186 | "Clear Filters" empties the query and the selection |
| `App.Library.RefreshView` | src/App.tsx:19-49 | the result is the view of the catalog; with no filter active the catalog itself is left in view order, otherwise it is unchanged; its entries are the same either way |
| `BookModal.BookForm.constructor` | src/components/BookModal.tsx:13-18 | all six fields start empty |
| `BookModal.BookForm.Populate` | src/components/BookModal.tsx:23-39 | opening on a book copies its title, author, cover, link and tags and leaves the tag input alone; opening without one clears all six fields |
| `BookModal.BookForm.AddTag` | src/components/BookModal.tsx:54-60 | a non-blank trimmed input that is not yet a tag is appended and the input cleared; otherwise nothing changes; tags stay duplicate-free, and an added tag is non-empty and trimmed |
| `BookModal.BookForm.RemoveTag` | src/components/BookModal.tsx:62-64 | every occurrence of the tag goes and the others keep their order |
| `BookModal.BookForm.Submit` | src/components/BookModal.tsx:66-91 | a blank title or author submits nothing and changes no field; otherwise trimmed title, author and link are submitted with cover and tags unchanged, and the fields are cleared when adding and kept when editing |
| `BookModal.SubmittedFieldsTrimmed` | src/components/BookModal.tsx:73-79 | data made of the trimmed title, author and drive link has a non-blank title and author, and all three are trimmed (`Submit` ensures this of what it submits) |

## Left out

- Rendering: every JSX tree, styling and icon, all of `src/components/Header.tsx` and `src/components/BookCard.tsx` (its tag preview and `window.open`), and the build configuration `vite.config.ts`.
- Browser I/O: `FileReader`, the data URI, `encodeURIComponent`, the synthetic download link, cover-image upload in the form (src/components/BookModal.tsx:43-52), and the page-level image upload (src/App.tsx:111-113). The file input reset at src/components/Sidebar.tsx:45 is left out too.
- JSON text: `JSON.stringify` and `JSON.parse` are not modelled. A document is the `Storage.Json` value it parses to, and a parse is a `Storage.Parsed` outcome passed in. JSON numbers are integers in the model, so fractional or non-numeric timestamps are not covered.
- Imported elements: import does not check that array elements are books. `Sidebar.HandleImport` hands on the raw JSON elements, while `App.Library.ImportBooks` takes books already read as `Book` values; `Storage.DecodeBook` is that reading. Elements that are not well-formed books, and how the view would then fail on them, are not modelled.
- Prompts: `window.confirm` is the `confirmed` argument of `App.Library.ImportBooks`. Each `alert` is a `false` result of the `App.Library` handler, a `None` result of `BookModal.BookForm.Submit`, or `Sidebar.ImportStep.ShowAlert`.
- Clocks and ids: `crypto.randomUUID` and `Date.now` are arguments of `App.Library.AddBook`. The two `new Date().toISOString()` readings in the export are two separate arguments (the envelope's `exportDate` and the file name's timestamp).
- Locale: `localeCompare` is the caller-supplied total preorder `titleLe`. `toLowerCase` is a caller-supplied per-character map, so case mappings that change a string's length are not captured.
- Sidebar.AllTags: orders strings by Unicode code point, while the default `sort` compares UTF-16 code units; the two orders differ only for characters outside the Basic Multilingual Plane.
- Persistence and timing: the `useLocalStorage` hook lives in a file that is not part of this model. React scheduling, `useMemo` caching and `useEffect` timing are not modelled, so the form's populate effect is an explicit `Populate` call and the view is an explicit `RefreshView` call.
- The optional `uploadedImage` field of a book (src/types/Book.ts:6) is not modelled, because no code in the core reads or writes it.
- The form's `isOpen` early return and its `onClose` call after a submit are not modelled; closing is `App.Library.CloseModal`.
