/** The inverted index `book_subscribers`: book id to the ids of the users
    who bought it. */
module InvertedIndex {
  import opened Collections
  import opened Models

  type Index = map<int, set<int>>

  /** `book_subscribers.get(book_id, set())`. */
  function Subscribers(subs: Index, bookId: int): (r: set<int>)
    ensures bookId !in subs ==> r == {}
    ensures bookId in subs ==> r == subs[bookId]
  {
    if bookId in subs then subs[bookId] else {}
  }

  /** `_add_to_index`: a missing entry starts as the empty set, the user
      joins the book's subscribers, and no other book's entry changes. */
  function AddToIndex(subs: Index, userId: int, bookId: int): (r: Index)
    ensures r.Keys == subs.Keys + {bookId}
    ensures bookId !in subs ==> r[bookId] == {userId}
    ensures Subscribers(r, bookId) == Subscribers(subs, bookId) + {userId}
    ensures forall b :: b != bookId ==> Subscribers(r, b) == Subscribers(subs, b)
  {
    var current := if bookId in subs then subs[bookId] else {};
    subs[bookId := current + {userId}]
  }

  /** One `_add_to_index` per listed id, in list order: the user joins the
      subscribers of exactly the listed books. */
  function IndexBooks(subs: Index, userId: int, ids: seq<int>): (r: Index)
    ensures forall b :: Subscribers(r, b) == Subscribers(subs, b) + (if b in ids then {userId} else {})
    decreases |ids|
  {
    if ids == [] then subs
    else IndexBooks(AddToIndex(subs, userId, ids[0]), userId, ids[1..])
  }

  /** The index agrees with the users' purchase sets: a user is listed
      under a book exactly when that user exists and bought the book. */
  ghost predicate Consistent(users: map<int, User>, subs: Index) {
    forall u, b :: u in Subscribers(subs, b) <==> u in users && b in users[u].purchasedBooks
  }
}
