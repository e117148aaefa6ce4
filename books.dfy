/** The catalog record (src/types/Book.ts). */
module Books {

  /** One catalog entry; `createdAt` is a millisecond timestamp. */
  datatype Book = Book(
    id: string,
    title: string,
    author: string,
    coverImage: string,
    driveLink: string,
    tags: seq<string>,
    createdAt: int)

  /** What the book form submits: a Book without `id` and `createdAt`. */
  datatype BookData = BookData(
    title: string,
    author: string,
    coverImage: string,
    driveLink: string,
    tags: seq<string>)

  /** `{ ...data, id, createdAt }`. */
  function WithIdentity(data: BookData, id: string, createdAt: int): Book
  {
    Book(id, data.title, data.author, data.coverImage, data.driveLink, data.tags, createdAt)
  }
}
