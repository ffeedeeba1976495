# Book store recommendation engine, in Dafny

This project models the `BookStore` engine of a small book shop. It also
models the two value classes the engine uses, `Book` and `User`. It covers
four things:

- **Inverted index.** `book_subscribers` maps a book id to the ids of the
  users who bought it. It is built while the users are loaded and grows
  with every purchase.
- **Jaccard similarity.** The similarity of two users' purchase sets.
- **Recommendation.** `recommend_books` is user-based collaborative
  filtering. It gathers candidate neighbours through the index and drops
  the target. It scores each candidate by Jaccard similarity and keeps the
  positive scores. The five most similar candidates form a committee. Each
  book a committee member owns and the target does not gets the summed
  similarity of its owners. The books are returned highest score first,
  limited to books in the catalogue.
- **Purchase.** `purchase_book` is a state transition. It returns whether
  both ids were known. When they were, it adds the book to the user's set
  and the user to the book's subscribers.

The state is an immutable value, `Engine.Store`: books, users and the
index. Each operation returns the next state. The central invariant is
`InvertedIndex.Consistent`: a user id is listed under a book exactly when
that user exists and bought the book. Loading users with distinct ids
establishes it, and every purchase keeps it. It rules out the `KeyError`
that the neighbour lookup at `core/engine.py:83` would otherwise raise.

Modules, one per concern:

| module | file | models |
|---|---|---|
| `Collections` | collections.dfy | listing a set in unspecified order (`list(set)`, `for x in set`) and set-size facts |
| `Models` | models.dfy | `Book`, `User`, their `to_dict` records, and building a user from a loaded record |
| `Similarity` | similarity.dfy | `calculate_jaccard_similarity` |
| `Ranking` | ranking.dfy | Python's stable `sort(..., reverse=True)` |
| `InvertedIndex` | index.dfy | `_add_to_index` and the consistency invariant |
| `Engine` | engine.dfy | the in-memory part of `load_data`, and `purchase_book` |
| `Recommend` | recommend.dfy | `recommend_books`, stage by stage |
| `Walkthrough` | example.dfy | a worked example of `load_data` and `recommend_books` with three books and two readers |

Some choices in the model:

- Python iterates over a set in an order the program does not control.
  The model lists sets with `Collections.SetToSeq`, which picks elements
  with `:|`, so every contract of a method that uses it holds for every
  iteration order.
- Dict keys come in insertion order. The `book_scores` keys at
  `core/engine.py:109` are inserted as the loop at lines 96-105 walks the
  committee in ranked order, so a book first scored by an earlier member
  comes first, and the stable sort keeps that order among equal scores.
  Only ties among one member's new books, or among members with equal
  similarity, follow set iteration. The model leaves the order among
  equal scores open: its contracts hold for every tie order, including
  the one the program produces.
- Python's `sort` is stable, and every stable sort gives the same output.
  So `Ranking.SortDesc`, an insertion sort, stands in for Timsort.
- Similarities and scores are exact `real`s.
- The `users[neighbor_id]` lookup becomes `Recommend.Result.KeyError`, not
  a precondition. `Recommend.RecommendBooks` proves that a consistent index
  never produces it.
- `RecommendBooks` has ghost results: the committee, the score map and the
  ids of the returned books. They let its contract name the intermediate
  stages that the Python function keeps in local variables.

`recommend_books` puts no cap on the number of books it returns: it
returns every scored book that is in the catalogue (`core/engine.py:111-116`).
The only bound of five is the size of the neighbour committee
(`core/engine.py:93-96`).

## Model

| member | source | states |
|---|---|---|
| `Models.BookToDict` | core/models.py:11-18 | the record carries the four fields `book_id`, `title`, `author`, `genre` unchanged |
| `Models.BookFromRecord` | core/models.py:5-9 | a book built from a loaded record keeps the record's four fields |
| `Models.BookRoundTrip` | core/models.py:5-18 | saving a book and loading it back gives the same book, and the other way round |
| `Models.NewUser` | core/models.py:22-26 | a new user has the given id and name and an empty purchase set |
| `Models.AddBook` | core/models.py:28-30 | the book joins the purchase set, and no other id does; the id and name are kept; adding an owned book changes nothing |
| `Models.AddBooks` | core/engine.py:41-42 | after `add_book` for each listed id, the purchase set is the old set plus exactly the listed ids |
| `Models.UserFromRecord` | core/engine.py:40-42 | a user loaded from a record has the record's id and name, and the listed ids as its purchase set |
| `Models.UserToDict` | core/models.py:32-38 | the record keeps id and name and lists each purchased id exactly once; loading it back gives the same user |
| `Collections.SetToSeq` | core/models.py:37 | `list(s)` lists every element of the set exactly once |
| `Similarity.Jaccard` | core/engine.py:60-65 | the ratio lies in [0, 1]; it is 0 for two empty sets; otherwise ratio times union size equals intersection size; it is positive exactly when the sets share an element |
| `Similarity.JaccardSymmetric` | core/engine.py:60-65 | the similarity does not depend on argument order |
| `Similarity.JaccardOne` | core/engine.py:63-65 | the similarity is 1 exactly when the sets are equal and non-empty |
| `Similarity.JaccardExample` | core/engine.py:60-65 | {101, 102} against {101, 102, 103} gives 2/3 |
| `Ranking.SortDesc` | core/engine.py:89 | the output is a permutation of the input, and its keys never increase |
| `Ranking.InsertSorted` | core/engine.py:89 | inserting into a ranked sequence keeps it ranked |
| `Ranking.SortDescDistinct` | core/engine.py:109 | sorting a list without repeats gives a list without repeats |
| `InvertedIndex.Subscribers` | core/engine.py:75 | `get(book_id, set())`: the book's subscriber set when the book has an entry, the empty set otherwise |
| `InvertedIndex.AddToIndex` | core/engine.py:20-24 | a missing entry is created as `{user}`; the user joins the book's subscribers; every other book's subscribers are unchanged |
| `InvertedIndex.IndexBooks` | core/engine.py:41-43 | after indexing a user's list, the user has joined the subscribers of exactly the listed books |
| `Engine.LoadBooks` | core/engine.py:31-33 | the catalogue's keys are the loaded ids; each entry is stored under its own id and comes from one of the records |
| `Engine.LoadBooksLastWins` | core/engine.py:31-33 | when several records share an id, the catalogue holds the book built from the last of them |
| `Engine.LoadUser` | core/engine.py:39-44 | one loop pass stores the loaded user under its id and indexes exactly its listed books; for a new id a consistent index stays consistent |
| `Engine.LoadUsers` | core/engine.py:39-44 | the users' keys are the old keys plus the loaded ids; with distinct ids new to the store, the index stays consistent |
| `Engine.LoadUsersKeepsOthers` | core/engine.py:39-44 | a user whose id no loaded record carries keeps its value |
| `Engine.LoadUsersIndex` | core/engine.py:39-44 | each book's subscribers grow by exactly the ids of the records that list it |
| `Engine.LoadUsersLastWins` | core/engine.py:39-44 | when several records share a user id, the user kept is the one built from the last of them |
| `Engine.Load` | core/engine.py:26-44 | the catalogue holds, under each id, the book from the last record with that id; the users are exactly the loaded ids, each built from the last record with that id; each book's subscribers are exactly the ids of the records that list it; with distinct user ids the index is consistent with the purchase sets |
| `Engine.DuplicateUserIdsBreakIndex` | core/engine.py:39-44 | two records with the same user id leave an index that no longer matches the purchase sets |
| `Engine.Purchase` | core/engine.py:118-125 | the result is true exactly when both ids are known; on false nothing changes; on true the book joins the user's set and the book's subscribers become the old set plus that user, while other users, other books' subscribers and the catalogue are unchanged; consistency is preserved |
| `Engine.PurchaseIdempotent` | core/engine.py:118-125 | buying a book a second time changes nothing and again reports success |
| `Engine.ApplyPurchases` | core/engine.py:118-125 | the index stays consistent after any sequence of purchases, and the catalogue and set of users stay the same |
| `Recommend.Candidates` | core/engine.py:73-78 | a user is a candidate exactly when it is not the target and is subscribed to one of the target's books; `CandidatesShareABook` relates this to the purchase sets |
| `Recommend.CandidatesShareABook` | core/engine.py:73-86 | with a consistent index the candidates are exactly the other users who share a book with the target; each of them is a key of `users` and has a positive score |
| `Recommend.ScoreNeighbours` | core/engine.py:81-86 | it fails exactly when a candidate is not a known user, naming such a candidate; otherwise it lists each candidate with a positive score once, with that score, and drops every other candidate |
| `Recommend.SelectCommittee` | core/engine.py:89-96 | it keeps min(5, n) neighbours drawn from the input, ranked; no neighbour left out scores above a chosen one; neighbours are left out only when five are chosen |
| `Recommend.PrefixIsTop` | core/engine.py:89-96 | the first k places of the ranking are the best-scored neighbours |
| `Recommend.RankedKeepsDistinctIds` | core/engine.py:89 | sorting neighbours does not duplicate a neighbour id |
| `Recommend.SupportSnoc` | core/engine.py:100-105 | one more committee member adds its similarity to the support of each book it owns |
| `Recommend.AddSimilarity` | core/engine.py:100-105 | one neighbour's pass: the scored books grow by its new books; each of those gains the neighbour's similarity over its previous score, or over 0 when unscored; other scores are unchanged |
| `Recommend.AccumulateScores` | core/engine.py:93-105 | the scored books are exactly those some committee member owns and the target does not; each book's score is the summed similarity of the members who own it |
| `Recommend.RankBooks` | core/engine.py:109 | every scored book id appears once, highest score first |
| `Recommend.KeptIds` | core/engine.py:111-114 | only ids present in the catalogue are kept, all of them, each once |
| `Recommend.Extract` | core/engine.py:111-114 | the result holds the catalogue book of each kept id, one per id and in the ranked order; each is a catalogue entry |
| `Recommend.KeptIdsRanked` | core/engine.py:109-114 | dropping books missing from the catalogue keeps the score order |
| `Recommend.CommitteeFromScored` | core/engine.py:78-96 | the chosen neighbours are at most five candidates other than the target, each with a positive score; every positive candidate left out scores no higher than every member, and only when five were chosen |
| `Recommend.RecommendBooks` | core/engine.py:67-116 | an unknown target gets `[]`; a consistent index never raises `KeyError`; the result lists each catalogue book among the committee's scored books once, none already owned by the target, by non-increasing summed similarity |
| `Walkthrough.ExampleStore` | core/engine.py:26-44 | loading the example's records gives the three books, readers 1 and 2 with their purchase sets, and a consistent index |
| `Walkthrough.ExampleCandidates` | core/engine.py:73-86 | for reader 1 the only candidate is reader 2, with a positive similarity |
| `Walkthrough.ExampleCommittee` | core/engine.py:89-96 | the committee for reader 1 is reader 2 alone |
| `Walkthrough.ExampleScores` | core/engine.py:98-105 | the only scored book is 103, the one reader 2 owns and reader 1 does not |
| `Walkthrough.RecommendExample` | core/engine.py:67-116 | recommending for reader 1 returns exactly Neuromancer |

## Left out

- File reading and writing: `os.path.exists`, `json.load` and the path set-up in `load_data` and `__init__` (`core/engine.py:7-18, 26-38`), and all of `save_data` (`core/engine.py:46-58`). The model starts from the decoded lists of records. `Engine.Purchase` leaves out its `save_data()` call, which is an external effect.
- Python's `int(...)` casts on ids (`core/models.py:6, 23, 30`). Ids are integers throughout the model, so the casts are the identity. `_add_to_index` at load receives the uncast `book_id` while `add_book` casts it. The two agree for integer ids.
- Floating-point rounding of the ratio and of the score sums. Exact reals are used instead.
- Ranking.SortDesc: does not state stability. The model deliberately leaves the order among equal keys open, although the program partly fixes it; the contracts that use the sort hold for every tie order.
- Recommend.RecommendBooks: does not fix the order of books with equal scores. The program puts a book first scored by an earlier committee member ahead of an equally scored later one (dict insertion order and a stable sort); the model allows any order among equal scores, which includes that one.
- Engine.Load: the index is proved consistent only for user lists with distinct ids. `Engine.DuplicateUserIdsBreakIndex` shows the index drifting when an id repeats.
- The desktop and web front ends (`main.py`, `app.py`). They are widgets and routing around `recommend_books` and `purchase_book`. `register_user` and an engine-level `add_book`, which `main.py` calls, are not defined in `core/engine.py` and are not part of this model.
