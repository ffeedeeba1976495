/** The `BookStore` state and its mutations: loading the catalogue and the
    users (building the inverted index on the way) and `purchase_book`.
    The state is a value; an operation returns the next state. */
module Engine {
  import opened Collections
  import opened Models
  import opened InvertedIndex

  /** `books`, `users` and `book_subscribers`. */
  datatype Store = Store(books: map<int, Book>, users: map<int, User>, subs: Index)

  /** The outcome of `purchase_book`: its boolean and the state after it. */
  datatype Transition = Transition(ok: bool, next: Store)

  /** The ids carried by a list of user dictionaries. */
  function UserIds(recs: seq<UserRecord>): set<int> {
    set r | r in recs :: r.userId
  }

  /** No two user dictionaries carry the same id. */
  predicate DistinctUserIds(recs: seq<UserRecord>) {
    forall i, j :: 0 <= i < j < |recs| ==> recs[i].userId != recs[j].userId
  }

  /** No later book dictionary carries the book id of `recs[i]`. */
  ghost predicate LastWithId(recs: seq<BookRecord>, i: int)
    requires 0 <= i < |recs|
  {
    forall j :: i < j < |recs| ==> recs[j].bookId != recs[i].bookId
  }

  /** No later user dictionary carries the user id of `recs[i]`. */
  ghost predicate LastWithUserId(recs: seq<UserRecord>, i: int)
    requires 0 <= i < |recs|
  {
    forall j :: i < j < |recs| ==> recs[j].userId != recs[i].userId
  }

  /** The ids of the dictionaries that list book `b`: the users the user
      loop of `load_data` adds to that book's subscribers. */
  function Buyers(recs: seq<UserRecord>, b: int): set<int> {
    set r | r in recs && b in r.purchasedBooks :: r.userId
  }

  /** One more dictionary adds its id to the buyers of each book it lists. */
  lemma BuyersSnoc(init: seq<UserRecord>, last: UserRecord)
    ensures forall b :: Buyers(init + [last], b)
                        == Buyers(init, b) + (if b in last.purchasedBooks then {last.userId} else {})
  {
    forall b ensures Buyers(init + [last], b)
                     == Buyers(init, b) + (if b in last.purchasedBooks then {last.userId} else {}) {
      assert forall r :: r in init + [last] <==> r in init || r == last;
    }
  }

  /** The book half of `load_data`: each dictionary becomes a book stored
      under its id, a later dictionary replacing an earlier one with the
      same id. */
  function LoadBooks(recs: seq<BookRecord>): (books: map<int, Book>)
    ensures books.Keys == set r | r in recs :: r.bookId
    ensures forall k :: k in books ==> books[k].bookId == k && BookToDict(books[k]) in recs
    decreases |recs|
  {
    if recs == [] then map[]
    else
      var init := recs[..|recs| - 1];
      var last := recs[|recs| - 1];
      assert recs == init + [last];
      LoadBooks(init)[last.bookId := BookFromRecord(last)]
  }

  /** Of several dictionaries with one id, the last one is the book kept. */
  lemma {:induction false} LoadBooksLastWins(recs: seq<BookRecord>, i: int)
    requires 0 <= i < |recs| && LastWithId(recs, i)
    ensures LoadBooks(recs)[recs[i].bookId] == BookFromRecord(recs[i])
    decreases |recs|
  {
    var init := recs[..|recs| - 1];
    if i < |recs| - 1 {
      assert recs[i] == init[i];
      assert LastWithId(init, i);
      LoadBooksLastWins(init, i);
    }
  }

  /** One pass of the user loop of `load_data`: the user is built from the
      dictionary, indexed under each listed book, then stored under its id.
      A user id not loaded before keeps the index consistent. */
  function LoadUser(s: Store, rec: UserRecord): (r: Store)
    ensures r.books == s.books
    ensures r.users.Keys == s.users.Keys + {rec.userId}
    ensures r.users[rec.userId] == UserFromRecord(rec)
    ensures forall u :: u in s.users && u != rec.userId ==> r.users[u] == s.users[u]
    ensures forall b :: Subscribers(r.subs, b) == Subscribers(s.subs, b) + (if b in rec.purchasedBooks then {rec.userId} else {})
    ensures Consistent(s.users, s.subs) && rec.userId !in s.users ==> Consistent(r.users, r.subs)
  {
    var user := UserFromRecord(rec);
    s.(users := s.users[user.userId := user],
       subs := IndexBooks(s.subs, user.userId, rec.purchasedBooks))
  }

  /** The user loop of `load_data` as a fold over the list of user
      dictionaries. With distinct ids, all new to the store, a consistent
      index stays consistent. */
  function LoadUsers(s: Store, recs: seq<UserRecord>): (r: Store)
    ensures r.books == s.books
    ensures r.users.Keys == s.users.Keys + UserIds(recs)
    ensures DistinctUserIds(recs) && UserIds(recs) !! s.users.Keys && Consistent(s.users, s.subs)
            ==> Consistent(r.users, r.subs)
    decreases |recs|
  {
    if recs == [] then s
    else
      var init := recs[..|recs| - 1];
      var last := recs[|recs| - 1];
      assert recs == init + [last];
      assert UserIds(recs) == UserIds(init) + {last.userId};
      var prev := LoadUsers(s, init);
      assert DistinctUserIds(recs) ==> last.userId !in UserIds(init);
      assert DistinctUserIds(recs) ==> DistinctUserIds(init) by {
        if DistinctUserIds(recs) {
          forall i, j | 0 <= i < j < |init| ensures init[i].userId != init[j].userId {
            assert init[i] == recs[i] && init[j] == recs[j];
          }
        }
      }
      LoadUser(prev, last)
  }

  /** The user loop leaves every user it does not name as it was. */
  lemma {:induction false} LoadUsersKeepsOthers(s: Store, recs: seq<UserRecord>, u: int)
    requires u in s.users && u !in UserIds(recs)
    ensures LoadUsers(s, recs).users[u] == s.users[u]
    decreases |recs|
  {
    if recs != [] {
      var init := recs[..|recs| - 1];
      assert recs == init + [recs[|recs| - 1]];
      assert UserIds(recs) == UserIds(init) + {recs[|recs| - 1].userId};
      LoadUsersKeepsOthers(s, init, u);
    }
  }

  /** The user loop adds to each book's subscribers exactly the ids of the
      dictionaries listing it. */
  lemma {:induction false} LoadUsersIndex(s: Store, recs: seq<UserRecord>, b: int)
    ensures Subscribers(LoadUsers(s, recs).subs, b) == Subscribers(s.subs, b) + Buyers(recs, b)
    decreases |recs|
  {
    if recs == [] {
      assert Buyers(recs, b) == {};
    } else {
      var init := recs[..|recs| - 1];
      var last := recs[|recs| - 1];
      assert recs == init + [last];
      BuyersSnoc(init, last);
      LoadUsersIndex(s, init, b);
    }
  }

  /** Of several dictionaries with one user id, the last one is the user
      kept. */
  lemma {:induction false} LoadUsersLastWins(s: Store, recs: seq<UserRecord>, i: int)
    requires 0 <= i < |recs| && LastWithUserId(recs, i)
    ensures LoadUsers(s, recs).users[recs[i].userId] == UserFromRecord(recs[i])
    decreases |recs|
  {
    var init := recs[..|recs| - 1];
    if i < |recs| - 1 {
      assert recs[i] == init[i];
      assert LastWithUserId(init, i);
      LoadUsersLastWins(s, init, i);
    }
  }

  /** `load_data` on an empty store, without the file reading: the books,
      then the users and the index. Each id holds the book or user built
      from the last dictionary with that id, and each book's subscribers
      are the ids of the user dictionaries listing it. */
  function Load(bookRecs: seq<BookRecord>, userRecs: seq<UserRecord>): (s: Store)
    ensures s.books == LoadBooks(bookRecs)
    ensures forall i :: 0 <= i < |bookRecs| && LastWithId(bookRecs, i)
              ==> s.books[bookRecs[i].bookId] == BookFromRecord(bookRecs[i])
    ensures s.users.Keys == UserIds(userRecs)
    ensures forall i :: 0 <= i < |userRecs| && LastWithUserId(userRecs, i)
              ==> s.users[userRecs[i].userId] == UserFromRecord(userRecs[i])
    ensures forall b :: Subscribers(s.subs, b) == Buyers(userRecs, b)
    ensures DistinctUserIds(userRecs) ==> Consistent(s.users, s.subs)
  {
    var empty := Store(LoadBooks(bookRecs), map[], map[]);
    assert Consistent(empty.users, empty.subs) by {
      forall u, b ensures u !in Subscribers(empty.subs, b) {
      }
    }
    assert forall i :: 0 <= i < |bookRecs| && LastWithId(bookRecs, i)
             ==> empty.books[bookRecs[i].bookId] == BookFromRecord(bookRecs[i]) by {
      forall i | 0 <= i < |bookRecs| && LastWithId(bookRecs, i) {
        LoadBooksLastWins(bookRecs, i);
      }
    }
    assert forall i :: 0 <= i < |userRecs| && LastWithUserId(userRecs, i)
             ==> LoadUsers(empty, userRecs).users[userRecs[i].userId] == UserFromRecord(userRecs[i]) by {
      forall i | 0 <= i < |userRecs| && LastWithUserId(userRecs, i) {
        LoadUsersLastWins(empty, userRecs, i);
      }
    }
    assert forall b :: Subscribers(LoadUsers(empty, userRecs).subs, b) == Buyers(userRecs, b) by {
      forall b {
        LoadUsersIndex(empty, userRecs, b);
      }
    }
    LoadUsers(empty, userRecs)
  }

  /** Two dictionaries with the same user id: the second user replaces the
      first in `users`, but the index keeps the first user's books, so the
      index no longer agrees with the purchase sets. */
  lemma DuplicateUserIdsBreakIndex()
    ensures var s := Load([], [UserRecord(1, "a", [10]), UserRecord(1, "b", [20])]);
            !Consistent(s.users, s.subs)
  {
  }

  /** `purchase_book` without the `save_data` call: with a known user and a
      known book the book joins that user's set and the user joins the
      book's subscribers and the result is true; otherwise nothing changes
      and the result is false. The index stays consistent. */
  function Purchase(s: Store, userId: int, bookId: int): (t: Transition)
    ensures t.ok <==> userId in s.users && bookId in s.books
    ensures !t.ok ==> t.next == s
    ensures t.next.books == s.books
    ensures t.next.users.Keys == s.users.Keys
    ensures t.ok ==> bookId in t.next.users[userId].purchasedBooks
    ensures t.ok ==> t.next.users[userId] == AddBook(s.users[userId], bookId)
    ensures forall u :: u in s.users && u != userId ==> t.next.users[u] == s.users[u]
    ensures Subscribers(t.next.subs, bookId) == Subscribers(s.subs, bookId) + (if t.ok then {userId} else {})
    ensures forall b :: b != bookId ==> Subscribers(t.next.subs, b) == Subscribers(s.subs, b)
    ensures Consistent(s.users, s.subs) ==> Consistent(t.next.users, t.next.subs)
  {
    if userId in s.users && bookId in s.books then
      var user := AddBook(s.users[userId], bookId);
      Transition(true, s.(users := s.users[userId := user],
                          subs := AddToIndex(s.subs, userId, bookId)))
    else
      Transition(false, s)
  }

  /** Buying the same book twice leaves the state the first purchase
      left, and the second call still returns true. */
  lemma PurchaseIdempotent(s: Store, userId: int, bookId: int)
    ensures var once := Purchase(s, userId, bookId);
            Purchase(once.next, userId, bookId) == once
  {
    var once := Purchase(s, userId, bookId);
    if once.ok {
      var again := Purchase(once.next, userId, bookId);
      assert again.next.subs == once.next.subs;
    }
  }

  /** A sequence of `purchase_book` calls, each on the state the previous
      one left; the index stays consistent after any such sequence. */
  function ApplyPurchases(s: Store, orders: seq<(int, int)>): (r: Store)
    ensures r.books == s.books
    ensures r.users.Keys == s.users.Keys
    ensures Consistent(s.users, s.subs) ==> Consistent(r.users, r.subs)
    decreases |orders|
  {
    if orders == [] then s
    else ApplyPurchases(Purchase(s, orders[0].0, orders[0].1).next, orders[1..])
  }
}
