/**
 * The add/edit form (src/components/BookModal.tsx): six fields that the tag buttons,
 * the submit button and the open/populate effect update.
 */
module BookModal {
  import opened Wrappers
  import opened Seqs
  import opened Text
  import opened Books

  class BookForm {
    var title: string
    var author: string
    var coverImage: string
    var driveLink: string
    var tags: seq<string>
    var tagInput: string

    /** All six fields empty. */
    predicate Cleared()
      reads this
    {
      title == "" && author == "" && coverImage == "" && driveLink == "" && tags == [] && tagInput == ""
    }

    constructor ()
      ensures Cleared()
    {
      title, author, coverImage, driveLink := "", "", "", "";
      tags, tagInput := [], "";
    }

    /**
     * The effect run when the form opens: with a book to edit, copy its fields (the tag
     * input is left as it was); otherwise reset all six fields.
     */
    method Populate(editingBook: Option<Book>)
      modifies this
      ensures editingBook.Some? ==>
                var b := editingBook.value;
                && title == b.title && author == b.author && coverImage == b.coverImage
                && driveLink == b.driveLink && tags == b.tags && tagInput == old(tagInput)
      ensures editingBook.None? ==> Cleared()
    {
      if editingBook.Some? {
        var b := editingBook.value;
        title, author, coverImage, driveLink, tags := b.title, b.author, b.coverImage, b.driveLink, b.tags;
      } else {
        title, author, coverImage, driveLink := "", "", "", "";
        tags, tagInput := [], "";
      }
    }

    /**
     * `handleAddTag`: a non-blank trimmed input that is not yet a tag is appended and the
     * input cleared; otherwise nothing changes. Tags stay duplicate-free, and a tag that
     * is added is non-empty and already trimmed.
     */
    method AddTag()
      modifies this`tags, this`tagInput
      ensures var t := Trim(old(tagInput));
              if t != [] && t !in old(tags)
              then tags == old(tags) + [t] && tagInput == ""
              else tags == old(tags) && tagInput == old(tagInput)
      ensures NoDup(old(tags)) ==> NoDup(tags)
      ensures forall t :: t in tags && t !in old(tags) ==> t != [] && Trim(t) == t
    {
      var trimmed := Trim(tagInput);
      if trimmed != [] && trimmed !in tags {
        TrimIdempotent(tagInput);
        tags := tags + [trimmed];
        tagInput := "";
      }
    }

    /** `handleRemoveTag`: every occurrence of `tag` goes, the others keep their order. */
    method RemoveTag(tag: string)
      modifies this`tags
      ensures tags == RemoveAll(old(tags), tag)
      ensures tag !in tags && IsSubsequence(tags, old(tags))
      ensures forall x :: x != tag ==> multiset(tags)[x] == multiset(old(tags))[x]
    {
      tags := RemoveAll(tags, tag);
    }

    /**
     * `handleSubmit`. With a blank title or author nothing is submitted and no field
     * changes. Otherwise the trimmed title, author and drive link are submitted with the
     * cover image and tags as they are; the fields are then reset when adding and kept
     * when editing.
     */
    method Submit(editingBook: Option<Book>) returns (submitted: Option<BookData>)
      modifies this
      ensures Trim(old(title)) == [] || Trim(old(author)) == [] ==>
                && submitted == None
                && title == old(title) && author == old(author) && coverImage == old(coverImage)
                && driveLink == old(driveLink) && tags == old(tags) && tagInput == old(tagInput)
      ensures Trim(old(title)) != [] && Trim(old(author)) != [] ==>
                submitted == Some(BookData(Trim(old(title)), Trim(old(author)), old(coverImage),
                                           Trim(old(driveLink)), old(tags)))
      ensures Trim(old(title)) != [] && Trim(old(author)) != [] && editingBook.None? ==> Cleared()
      ensures Trim(old(title)) != [] && Trim(old(author)) != [] && editingBook.Some? ==>
                && title == old(title) && author == old(author) && coverImage == old(coverImage)
                && driveLink == old(driveLink) && tags == old(tags) && tagInput == old(tagInput)
      ensures submitted.Some? ==>
                && submitted.value.title != [] && Trim(submitted.value.title) == submitted.value.title
                && submitted.value.author != [] && Trim(submitted.value.author) == submitted.value.author
                && Trim(submitted.value.driveLink) == submitted.value.driveLink
    {
      if Trim(title) == [] || Trim(author) == [] {
        return None;
      }
      var data := BookData(Trim(title), Trim(author), coverImage, Trim(driveLink), tags);
      SubmittedFieldsTrimmed(title, author, driveLink, data);
      submitted := Some(data);
      if editingBook.None? {
        title, author, coverImage, driveLink := "", "", "", "";
        tags, tagInput := [], "";
      }
    }
  }

  /** Any submitted data whose title, author and drive link are the trimmed form fields
      has a non-blank title and author, and all three are already trimmed. */
  lemma SubmittedFieldsTrimmed(title: string, author: string, driveLink: string, data: BookData)
    requires Trim(title) != [] && Trim(author) != []
    requires data.title == Trim(title) && data.author == Trim(author) && data.driveLink == Trim(driveLink)
    ensures data.title != [] && Trim(data.title) == data.title
    ensures data.author != [] && Trim(data.author) == data.author
    ensures Trim(data.driveLink) == data.driveLink
  {
    TrimIdempotent(title);
    TrimIdempotent(author);
    TrimIdempotent(driveLink);
  }
}
