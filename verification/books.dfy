/** The book record and the collection-level facts about book ids. */
module Books {

  /**
   A book of the collection. `id` is the opaque identifier assigned when the
   book is added; it is the only key that joins a book to its view node.
   */
  datatype Book = Book(id: string, title: string, author: string, pages: nat, read: bool)

  /** Flips the read flag; no other field changes. */
  function ToggleRead(b: Book): (r: Book)
    ensures r.read == !b.read
    ensures r.id == b.id && r.title == b.title && r.author == b.author && r.pages == b.pages
  {
    b.(read := !b.read)
  }

  /** Toggling is an involution, and a single toggle always changes the book. */
  lemma ToggleReadInvolution(b: Book)
    ensures ToggleRead(ToggleRead(b)) == b
    ensures ToggleRead(b) != b
  {
  }

  /** The ids of a collection, in collection order. */
  function Ids(books: seq<Book>): (ids: seq<string>)
    ensures |ids| == |books|
    ensures forall i :: 0 <= i < |books| ==> ids[i] == books[i].id
  {
    seq(|books|, i requires 0 <= i < |books| => books[i].id)
  }

  /** No two books of the collection share an id. */
  predicate UniqueIds(books: seq<Book>) {
    forall i, j :: 0 <= i < j < |books| ==> books[i].id != books[j].id
  }

}
