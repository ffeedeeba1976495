/** The two value classes of the store: a catalogue book and a user with the
    set of book ids they bought, plus the dictionary shapes they are saved
    as and loaded from. Python's `int(...)` casts are the identity here,
    since ids are integers throughout the model. */
module Models {
  import opened Collections

  /** A catalogue entry. */
  datatype Book = Book(bookId: int, title: string, author: string, genre: string)

  /** The dictionary a book is written to and read back from. */
  datatype BookRecord = BookRecord(bookId: int, title: string, author: string, genre: string)

  /** A user and the set of ids of the books they bought. */
  datatype User = User(userId: int, name: string, purchasedBooks: set<int>)

  /** The dictionary a user is written to and read back from: the purchase
      set becomes a list. */
  datatype UserRecord = UserRecord(userId: int, name: string, purchasedBooks: seq<int>)

  /** `Book.to_dict`: the four fields, unchanged. */
  function BookToDict(b: Book): (d: BookRecord)
    ensures d.bookId == b.bookId && d.title == b.title
    ensures d.author == b.author && d.genre == b.genre
  {
    BookRecord(b.bookId, b.title, b.author, b.genre)
  }

  /** The `Book(...)` constructor call on a loaded dictionary. */
  function BookFromRecord(d: BookRecord): (b: Book)
    ensures b.bookId == d.bookId && b.title == d.title
    ensures b.author == d.author && b.genre == d.genre
  {
    Book(d.bookId, d.title, d.author, d.genre)
  }

  /** Saving a book and loading it back gives the same book, and the other
      way round. */
  lemma BookRoundTrip(b: Book, d: BookRecord)
    ensures BookFromRecord(BookToDict(b)) == b
    ensures BookToDict(BookFromRecord(d)) == d
  {
  }

  /** The `User(...)` constructor: no purchases yet. */
  function NewUser(userId: int, name: string): (u: User)
    ensures u.userId == userId && u.name == name
    ensures u.purchasedBooks == {}
  {
    User(userId, name, {})
  }

  /** `User.add_book`: the id joins the purchase set; nothing else changes,
      and adding a book already owned leaves the user as it was. */
  function AddBook(u: User, bookId: int): (r: User)
    ensures r.userId == u.userId && r.name == u.name
    ensures bookId in r.purchasedBooks
    ensures u.purchasedBooks <= r.purchasedBooks
    ensures forall b :: b in r.purchasedBooks ==> b == bookId || b in u.purchasedBooks
    ensures bookId in u.purchasedBooks ==> r == u
  {
    u.(purchasedBooks := u.purchasedBooks + {bookId})
  }

  /** Calls `add_book` for each id of `ids` in list order. */
  function AddBooks(u: User, ids: seq<int>): (r: User)
    ensures r.userId == u.userId && r.name == u.name
    ensures r.purchasedBooks == u.purchasedBooks + Elements(ids)
    decreases |ids|
  {
    if ids == [] then u
    else
      assert Elements(ids) == {ids[0]} + Elements(ids[1..]);
      AddBooks(AddBook(u, ids[0]), ids[1..])
  }

  /** Builds a user from a loaded dictionary: a fresh user, then one
      `add_book` per listed id. Repeated ids in the list collapse. */
  function UserFromRecord(d: UserRecord): (u: User)
    ensures u.userId == d.userId && u.name == d.name
    ensures u.purchasedBooks == Elements(d.purchasedBooks)
  {
    AddBooks(NewUser(d.userId, d.name), d.purchasedBooks)
  }

  /** `User.to_dict`: id and name unchanged, the purchase set listed with
      each element once in unspecified order; loading the dictionary back
      gives the same user. */
  method UserToDict(u: User) returns (d: UserRecord)
    ensures d.userId == u.userId && d.name == u.name
    ensures Distinct(d.purchasedBooks)
    ensures Elements(d.purchasedBooks) == u.purchasedBooks
    ensures |d.purchasedBooks| == |u.purchasedBooks|
    ensures UserFromRecord(d) == u
  {
    var books := SetToSeq(u.purchasedBooks);
    d := UserRecord(u.userId, u.name, books);
  }
}
