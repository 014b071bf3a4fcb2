/** The server records the views hold. Only the fields some modelled rule
    reads are kept. Prices are integers in minor currency units, and dates
    are opaque timestamps. */
module Records {

  /** A catalog book. The catalog and the favorites list identify a book by
      its `_id`; the admin table identifies it by its numeric `id`. */
  datatype Book = Book(
    docId: string,
    id: int,
    title: string,
    authorName: string,
    genre: string,
    price: int,
    copiesAvailable: int,
    imageUrl: string)

  /** A delivery address owned by a user. */
  datatype Address = Address(
    id: int,
    street: string,
    landmark: string,
    city: string,
    state: string,
    postalCode: string,
    country: string)

  /** A stored purchase, as the orders view and the admin purchase history
      receive it. */
  datatype Purchase = Purchase(
    docId: string,
    userId: string,
    username: string,
    bookTitle: string,
    author: string,
    price: int,
    quantity: int,
    totalPrice: int,
    purchasedDate: int)

  /** The keys the views delete and look up records by. */
  function BookDocId(b: Book): string { b.docId }
  function BookId(b: Book): int { b.id }
  function PurchaseDocId(p: Purchase): string { p.docId }
}
