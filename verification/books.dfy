/** The records being indexed: a book with an id, a title, an author and an
    optional list of tags, and the three books the search class starts with. */
module Books {
  import opened Common
  import opened Numbers

  datatype Author = Author(id: Int32, name: string)

  /** `tags` is `None` when the book's tag list is `null`. */
  datatype Book = Book(id: Int32, title: string, author: Author, tags: Option<seq<string>>)

  const DanBrown := Author(1, "Dan Brown")
  const StephenKing := Author(2, "Stephen King")

  const DaVinciCode := Book(1, "O Código da Vinci", DanBrown, Some(["código", "da vinci"]))
  const TheShining := Book(2, "O Iluminado", StephenKing, Some(["iluminado", "stanley kubrick"]))
  const PetSematary := Book(3, "Pet Sematary", StephenKing, Some(["pet", "sematary", "ramones"]))

  /** The book list built by the search class's constructor, in insertion order. */
  const Fixture: seq<Book> := [DaVinciCode, TheShining, PetSematary]

  /** No two books share an id. */
  predicate UniqueIds(books: seq<Book>) {
    forall i, j :: 0 <= i < j < |books| ==> books[i].id != books[j].id
  }
}
