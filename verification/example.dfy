/** A worked example: a catalogue of three books, reader 1
    owns {101, 102} and reader 2 owns {101, 102, 103}. Reader 2 is reader 1's
    only neighbour, with similarity 2/3, and book 103 is the one
    recommendation. */
module Walkthrough {
  import opened Collections
  import opened Models
  import opened InvertedIndex
  import opened Similarity
  import opened Ranking
  import opened Engine
  import opened Recommend

  const Dune := BookRecord(101, "Dune", "Frank Herbert", "Science Fiction")
  const Foundation := BookRecord(102, "Foundation", "Isaac Asimov", "Science Fiction")
  const Neuromancer := BookRecord(103, "Neuromancer", "William Gibson", "Cyberpunk")
  const ReaderA := UserRecord(1, "A", [101, 102])
  const ReaderB := UserRecord(2, "B", [101, 102, 103])

  /** The catalogue loaded from the example's book records. */
  function ExampleBooks(): (books: map<int, Book>)
    ensures books.Keys == {101, 102, 103}
    ensures books[103] == Book(103, "Neuromancer", "William Gibson", "Cyberpunk")
  {
    var recs := [Dune, Foundation, Neuromancer];
    assert (set r | r in recs :: r.bookId) == {101, 102, 103} by {
      assert Dune in recs && Foundation in recs && Neuromancer in recs;
    }
    LoadBooksLastWins(recs, 2);
    LoadBooks(recs)
  }

  /** Reader 1's list loads as the set {101, 102}. */
  lemma ReaderASet()
    ensures UserFromRecord(ReaderA).purchasedBooks == {101, 102}
  {
    assert 101 in ReaderA.purchasedBooks && 102 in ReaderA.purchasedBooks;
  }

  /** Reader 2's list loads as the set {101, 102, 103}. */
  lemma ReaderBSet()
    ensures UserFromRecord(ReaderB).purchasedBooks == {101, 102, 103}
  {
    assert ReaderB.purchasedBooks[2] == 103;
  }

  /** Loading reader 1 into a store without users. */
  lemma LoadReaderA(empty: Store)
    requires empty.users == map[] && empty.subs == map[]
    ensures var s := LoadUser(empty, ReaderA);
            && s.books == empty.books
            && s.users.Keys == {1}
            && s.users[1].purchasedBooks == {101, 102}
            && Consistent(s.users, s.subs)
  {
    assert Consistent(empty.users, empty.subs) by {
      forall u, b ensures u !in Subscribers(empty.subs, b) {
      }
    }
    ReaderASet();
  }

  /** Loading reader 2 after reader 1. */
  lemma LoadReaderB(first: Store)
    requires first.users.Keys == {1}
    requires first.users[1].purchasedBooks == {101, 102}
    requires Consistent(first.users, first.subs)
    ensures var s := LoadUser(first, ReaderB);
            && s.books == first.books
            && s.users.Keys == {1, 2}
            && s.users[1].purchasedBooks == {101, 102}
            && s.users[2].purchasedBooks == {101, 102, 103}
            && Consistent(s.users, s.subs)
  {
    ReaderBSet();
  }

  /** `load_data` on the example's records is the catalogue, then one loop
      pass for reader 1 and one for reader 2. */
  lemma LoadTwoReaders()
    ensures Load([Dune, Foundation, Neuromancer], [ReaderA, ReaderB])
            == LoadUser(LoadUser(Store(ExampleBooks(), map[], map[]), ReaderA), ReaderB)
  {
    var empty := Store(ExampleBooks(), map[], map[]);
    assert [ReaderA, ReaderB][..1] == [ReaderA];
    assert [ReaderA][..0] == [];
    assert LoadUsers(empty, [ReaderA][..0]) == empty;
    assert LoadUsers(empty, [ReaderA]) == LoadUser(empty, ReaderA);
  }

  /** The example store, as `load_data` builds it. */
  function ExampleStore(): (s: Store)
    ensures s.books == ExampleBooks()
    ensures s.users.Keys == {1, 2}
    ensures s.users[1].purchasedBooks == {101, 102}
    ensures s.users[2].purchasedBooks == {101, 102, 103}
    ensures Consistent(s.users, s.subs)
  {
    var empty := Store(ExampleBooks(), map[], map[]);
    LoadTwoReaders();
    LoadReaderA(empty);
    LoadReaderB(LoadUser(empty, ReaderA));
    Load([Dune, Foundation, Neuromancer], [ReaderA, ReaderB])
  }

  /** The facts about the example store the recommendation relies on. */
  ghost predicate ExampleShape(s: Store) {
    && s.books.Keys == {101, 102, 103}
    && s.books[103] == Book(103, "Neuromancer", "William Gibson", "Cyberpunk")
    && s.users.Keys == {1, 2}
    && s.users[1].purchasedBooks == {101, 102}
    && s.users[2].purchasedBooks == {101, 102, 103}
    && Consistent(s.users, s.subs)
  }

  /** Reader 2 is reader 1's only candidate, and a positive one. */
  lemma ExampleCandidates(s: Store)
    requires ExampleShape(s)
    ensures Candidates(s.subs, 1, {101, 102}) == {2}
    ensures Jaccard({101, 102}, s.users[2].purchasedBooks) > 0.0
  {
    CandidatesShareABook(s, 1);
    assert s.users[2].purchasedBooks * {101, 102} == {101, 102};
    assert {101, 102} * s.users[2].purchasedBooks == {101, 102};
  }

  /** Neighbours with distinct ids, all of them reader 2, are at most one. */
  lemma AtMostOne(committee: seq<Neighbour>)
    requires DistinctIds(committee)
    requires forall n :: n in committee ==> n.id == 2
    ensures |committee| <= 1
  {
    var idSeq := seq(|committee|, i requires 0 <= i < |committee| => committee[i].id);
    assert Distinct(idSeq);
    DistinctElements(idSeq);
    assert Elements(idSeq) <= {2} by {
      forall x | x in Elements(idSeq) ensures x == 2 {
        var i :| 0 <= i < |idSeq| && idSeq[i] == x;
        assert committee[i] in committee;
      }
    }
    SubsetCard(Elements(idSeq), {2});
  }

  /** The committee for reader 1 is reader 2 alone. */
  lemma ExampleCommittee(s: Store, committee: seq<Neighbour>)
    requires ExampleShape(s)
    requires IsCommittee(committee, s.users, {101, 102}, {2})
    ensures |committee| == 1
    ensures committee[0].user.purchasedBooks == {101, 102, 103}
  {
    ExampleCandidates(s);
    AtMostOne(committee);
    if 2 !in NeighbourIds(committee) {
      assert false;
    }
  }

  /** A list without repeats whose only element is 103 is [103]. */
  lemma OnlyElement(ids: seq<int>)
    requires Distinct(ids)
    requires forall b :: b in ids <==> b == 103
    ensures ids == [103]
  {
    assert Elements(ids) == {103};
    DistinctElements(ids);
    assert ids[0] in ids;
  }

  /** Only book 103 scores: reader 2 is the committee and reader 1 owns
      the other two. */
  lemma ExampleScores(committee: seq<Neighbour>, scores: map<int, real>)
    requires |committee| == 1
    requires committee[0].user.purchasedBooks == {101, 102, 103}
    requires scores.Keys == PooledBooks(committee) - {101, 102}
    ensures scores.Keys == {103}
  {
    PooledSingle(committee);
  }

  /** A committee of one member pools exactly that member's books. */
  lemma PooledSingle(committee: seq<Neighbour>)
    requires |committee| == 1
    ensures PooledBooks(committee) == committee[0].user.purchasedBooks
  {
    forall x | x in PooledBooks(committee) ensures x in committee[0].user.purchasedBooks {
      var n :| n in committee && x in n.user.purchasedBooks;
      assert n == committee[0];
    }
    forall x | x in committee[0].user.purchasedBooks ensures x in PooledBooks(committee) {
      assert committee[0] in committee;
    }
  }

  /** With only book 103 scored, the result is that book alone. */
  lemma ExampleOutcome(s: Store, books: seq<Book>, scores: map<int, real>, ids: seq<int>)
    requires s.books.Keys == {101, 102, 103}
    requires s.books[103] == Book(103, "Neuromancer", "William Gibson", "Cyberpunk")
    requires scores.Keys == {103}
    requires |books| == |ids|
    requires forall i :: 0 <= i < |ids| ==> ids[i] in s.books && books[i] == s.books[ids[i]]
    requires Distinct(ids)
    requires forall b :: b in ids <==> b in scores && b in s.books
    ensures books == [Book(103, "Neuromancer", "William Gibson", "Cyberpunk")]
  {
    OnlyElement(ids);
  }

  /** `recommend_books(1)` on the example store returns book 103 alone. */
  method RecommendExample() returns (r: Result<seq<Book>>)
    ensures r == Ok([Book(103, "Neuromancer", "William Gibson", "Cyberpunk")])
  {
    var s := ExampleStore();
    assert ExampleShape(s);
    ExampleCandidates(s);
    ghost var committee, scores, ids;
    r, committee, scores, ids := RecommendBooks(s, 1);
    ExampleCommittee(s, committee);
    ExampleScores(committee, scores);
    ExampleOutcome(s, r.value, scores, ids);
  }
}
