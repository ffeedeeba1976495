/** `recommend_books`: user-based collaborative filtering over the inverted
    index. Candidates come from the index, are scored by Jaccard similarity,
    the five most similar form a committee, and every book a committee
    member owns and the target does not is scored by the summed similarity
    of its owners and ranked. */
module Recommend {
  import opened Collections
  import opened Models
  import opened InvertedIndex
  import opened Similarity
  import opened Ranking
  import opened Engine

  /** `top_k`: how many neighbours contribute to the book scores. */
  const TopK: nat := 5

  /** A pair `(neighbor, score)` of the source, with the neighbour's id. */
  datatype Neighbour = Neighbour(id: int, user: User, sim: real)

  /** A value, or the id whose `users[...]` lookup failed (Python's
      `KeyError`). */
  datatype Result<T> = Ok(value: T) | KeyError(key: int)

  /** The sort key of a neighbour. */
  function SimOf(n: Neighbour): real {
    n.sim
  }

  /** The ids of a list of neighbours. */
  function NeighbourIds(ns: seq<Neighbour>): set<int> {
    set n | n in ns :: n.id
  }

  /** No id occurs twice among the neighbours. */
  predicate DistinctIds(ns: seq<Neighbour>) {
    forall i, j :: 0 <= i < j < |ns| ==> ns[i].id != ns[j].id
  }

  /** Every neighbour is a candidate, carries the user stored under its id
      and that user's positive similarity to `owned`. */
  ghost predicate WellScored(ns: seq<Neighbour>, users: map<int, User>, owned: set<int>, cands: set<int>) {
    forall n :: n in ns ==>
      && n.id in cands && n.id in users && n.user == users[n.id]
      && n.sim == Jaccard(owned, n.user.purchasedBooks) && n.sim > 0.0
  }

  /** The union of the subscriber sets of the target's books, without the
      target itself. */
  function Candidates(subs: Index, targetId: int, owned: set<int>): (c: set<int>)
    ensures targetId !in c
    ensures forall u :: u in c <==> u != targetId && exists b :: b in owned && u in Subscribers(subs, b)
  {
    (set b, u | b in owned && u in Subscribers(subs, b) :: u) - {targetId}
  }

  /** With a consistent index the candidates are exactly the other users
      who share a book with the target, so each of them has a positive
      similarity and every candidate id is a key of `users`. */
  lemma CandidatesShareABook(s: Store, targetId: int)
    requires Consistent(s.users, s.subs) && targetId in s.users
    ensures var owned := s.users[targetId].purchasedBooks;
            forall u :: u in Candidates(s.subs, targetId, owned) <==>
              u in s.users && u != targetId && s.users[u].purchasedBooks * owned != {}
    ensures var owned := s.users[targetId].purchasedBooks;
            forall u :: u in Candidates(s.subs, targetId, owned) ==>
              u in s.users && Jaccard(owned, s.users[u].purchasedBooks) > 0.0
  {
    var owned := s.users[targetId].purchasedBooks;
    var cands := Candidates(s.subs, targetId, owned);
    forall u | u in s.users && u != targetId && s.users[u].purchasedBooks * owned != {}
      ensures u in cands
    {
      if u !in cands {
        forall b | b in owned ensures b !in s.users[u].purchasedBooks {
          assert u !in Subscribers(s.subs, b);
        }
      }
    }
    forall u | u in cands
      ensures u in s.users && s.users[u].purchasedBooks * owned != {}
    {
      var b :| b in owned && u in Subscribers(s.subs, b);
      assert b in s.users[u].purchasedBooks * owned;
    }
    forall u | u in cands
      ensures Jaccard(owned, s.users[u].purchasedBooks) > 0.0
    {
      assert owned * s.users[u].purchasedBooks == s.users[u].purchasedBooks * owned;
    }
  }

  /** Lines 81-86: each candidate is looked up in `users` (a missing one
      stops the computation), scored against the target's purchases, and
      kept when its score is positive. The visiting order is Python's
      iteration order over the candidate set, which is left open. */
  method ScoreNeighbours(users: map<int, User>, owned: set<int>, cands: set<int>)
    returns (r: Result<seq<Neighbour>>)
    ensures r.KeyError? ==> r.key in cands && r.key !in users
    ensures r.Ok? <==> cands <= users.Keys
    ensures r.Ok? ==> WellScored(r.value, users, owned, cands)
    ensures r.Ok? ==> DistinctIds(r.value)
    ensures r.Ok? ==> forall u :: u in cands && u in users && Jaccard(owned, users[u].purchasedBooks) > 0.0
                        ==> u in NeighbourIds(r.value)
  {
    var order := SetToSeq(cands);
    var acc: seq<Neighbour> := [];
    for i := 0 to |order|
      invariant Elements(order[..i]) <= users.Keys
      invariant WellScored(acc, users, owned, Elements(order[..i]))
      invariant DistinctIds(acc)
      invariant forall u :: u in order[..i] && u in users && Jaccard(owned, users[u].purchasedBooks) > 0.0
                  ==> u in NeighbourIds(acc)
    {
      var id := order[i];
      if id !in users {
        assert id in Elements(order);
        return KeyError(id);
      }
      assert order[..i + 1] == order[..i] + [id];
      assert id !in order[..i];
      var neighbour := users[id];
      var score := Jaccard(owned, neighbour.purchasedBooks);
      if score > 0.0 {
        assert id !in NeighbourIds(acc);
        assert NeighbourIds(acc + [Neighbour(id, neighbour, score)]) == NeighbourIds(acc) + {id};
        acc := acc + [Neighbour(id, neighbour, score)];
      }
    }
    assert order[..|order|] == order;
    return Ok(acc);
  }

  /** Lines 89 and 96: the neighbours sorted by score, highest first, and
      the first `TopK` of them. The result is drawn from the input, ranked,
      and no left-out neighbour scores above a chosen one; fewer than `TopK`
      are chosen only when no neighbour is left out. */
  function SelectCommittee(scored: seq<Neighbour>): (c: seq<Neighbour>)
    ensures |c| == if |scored| < TopK then |scored| else TopK
    ensures forall n :: n in c ==> n in scored
    ensures SortedDesc(c, SimOf)
    ensures forall m :: m in scored && m !in c ==>
              |c| == TopK && forall n :: n in c ==> n.sim >= m.sim
    ensures DistinctIds(scored) ==> DistinctIds(c)
  {
    var ranked := SortDesc(scored, SimOf);
    var k := if |ranked| < TopK then |ranked| else TopK;
    PrefixIsTop(scored, ranked, k);
    if DistinctIds(scored) then
      RankedKeepsDistinctIds(scored);
      ranked[..k]
    else
      ranked[..k]
  }

  /** A prefix of the ranking holds the best-scored neighbours. */
  lemma PrefixIsTop(scored: seq<Neighbour>, ranked: seq<Neighbour>, k: nat)
    requires ranked == SortDesc(scored, SimOf)
    requires k == if |ranked| < TopK then |ranked| else TopK
    ensures forall n :: n in ranked[..k] ==> n in scored
    ensures SortedDesc(ranked[..k], SimOf)
    ensures forall m :: m in scored && m !in ranked[..k] ==>
              k == TopK && forall n :: n in ranked[..k] ==> n.sim >= m.sim
  {
    var c := ranked[..k];
    forall n | n in c ensures n in scored {
      assert n in ranked;
      assert n in multiset(ranked);
    }
    PrefixSorted(ranked, k);
    forall m | m in scored && m !in c
      ensures k == TopK && forall n :: n in c ==> n.sim >= m.sim
    {
      assert m in multiset(ranked);
      PrefixBeatsRest(ranked, k, m);
    }
  }

  /** A prefix of a ranked sequence is ranked. */
  lemma PrefixSorted(ranked: seq<Neighbour>, k: nat)
    requires k <= |ranked| && SortedDesc(ranked, SimOf)
    ensures SortedDesc(ranked[..k], SimOf)
  {
  }

  /** An element of a ranked sequence outside its first `k` places scores
      no more than any of them, and exists only when the prefix is short of
      the whole. */
  lemma PrefixBeatsRest(ranked: seq<Neighbour>, k: nat, m: Neighbour)
    requires k <= |ranked| && SortedDesc(ranked, SimOf)
    requires m in ranked && m !in ranked[..k]
    ensures k < |ranked|
    ensures forall n :: n in ranked[..k] ==> n.sim >= m.sim
  {
  }

  /** Sorting neighbours with distinct ids keeps their ids distinct. */
  lemma RankedKeepsDistinctIds(scored: seq<Neighbour>)
    requires DistinctIds(scored)
    ensures DistinctIds(SortDesc(scored, SimOf))
  {
    var ranked := SortDesc(scored, SimOf);
    assert Distinct(scored);
    SortDescDistinct(scored, SimOf);
    forall i, j | 0 <= i < j < |ranked|
      ensures ranked[i].id != ranked[j].id
    {
      assert ranked[i] in multiset(scored) && ranked[j] in multiset(scored);
      var p :| 0 <= p < |scored| && scored[p] == ranked[i];
      var q :| 0 <= q < |scored| && scored[q] == ranked[j];
      assert p != q;
    }
  }

  /** The books owned by at least one committee member. */
  function PooledBooks(committee: seq<Neighbour>): set<int> {
    set n, b | n in committee && b in n.user.purchasedBooks :: b
  }

  /** The summed similarity of the committee members who own `b`. */
  function Support(committee: seq<Neighbour>, b: int): real
    decreases |committee|
  {
    if committee == [] then 0.0
    else (if b in committee[0].user.purchasedBooks then committee[0].sim else 0.0)
         + Support(committee[1..], b)
  }

  /** Appending a member adds its similarity to the books it owns. */
  lemma {:induction false} SupportSnoc(committee: seq<Neighbour>, n: Neighbour, b: int)
    ensures Support(committee + [n], b)
            == Support(committee, b) + (if b in n.user.purchasedBooks then n.sim else 0.0)
    decreases |committee|
  {
    if committee != [] {
      assert (committee + [n])[1..] == committee[1..] + [n];
      SupportSnoc(committee[1..], n, b);
    } else {
      assert ([n])[1..] == [];
    }
  }

  /** The score a book has so far, 0 when not yet scored. */
  function ScoreOf(scores: map<int, real>, b: int): real {
    if b in scores then scores[b] else 0.0
  }

  /** Lines 98-105 for one neighbour: each of its books the target lacks
      gains the neighbour's similarity, entering the map at 0 first. */
  function AddSimilarity(scores: map<int, real>, newBooks: set<int>, sim: real): (r: map<int, real>)
    ensures r.Keys == scores.Keys + newBooks
    ensures forall b :: b in newBooks ==> r[b] == ScoreOf(scores, b) + sim
    ensures forall b :: b in scores && b !in newBooks ==> r[b] == scores[b]
  {
    map b | b in scores.Keys + newBooks :: ScoreOf(scores, b) + (if b in newBooks then sim else 0.0)
  }

  /** Lines 94-105: the committee's book scores. The scored books are those
      some member owns and the target does not; each scores the summed
      similarity of the members who own it. */
  function AccumulateScores(committee: seq<Neighbour>, owned: set<int>): (scores: map<int, real>)
    ensures scores.Keys == PooledBooks(committee) - owned
    ensures forall b :: b in scores ==> scores[b] == Support(committee, b)
    decreases |committee|
  {
    if committee == [] then map[]
    else
      var init := committee[..|committee| - 1];
      var last := committee[|committee| - 1];
      assert committee == init + [last];
      var prev := AccumulateScores(init, owned);
      var r := AddSimilarity(prev, last.user.purchasedBooks - owned, last.sim);
      assert PooledBooks(committee) == PooledBooks(init) + last.user.purchasedBooks by {
        forall x | x in PooledBooks(committee)
          ensures x in PooledBooks(init) + last.user.purchasedBooks
        {
          var n :| n in committee && x in n.user.purchasedBooks;
          if n != last {
            assert n in init;
          }
        }
        forall x | x in PooledBooks(init) ensures x in PooledBooks(committee) {
          var n :| n in init && x in n.user.purchasedBooks;
          assert n in committee;
        }
        forall x | x in last.user.purchasedBooks ensures x in PooledBooks(committee) {
          assert last in committee;
        }
      }
      assert forall b :: b in r ==> r[b] == Support(committee, b) by {
        forall b | b in r ensures r[b] == Support(committee, b) {
          SupportSnoc(init, last, b);
          if b !in prev {
            SupportAbsent(init, b);
          }
        }
      }
      r
  }

  /** A book no member owns has no support. */
  lemma {:induction false} SupportAbsent(committee: seq<Neighbour>, b: int)
    requires b !in PooledBooks(committee)
    ensures Support(committee, b) == 0.0
    decreases |committee|
  {
    if committee != [] {
      assert b !in committee[0].user.purchasedBooks;
      assert PooledBooks(committee[1..]) <= PooledBooks(committee) by {
        forall x | x in PooledBooks(committee[1..]) ensures x in PooledBooks(committee) {
          var n :| n in committee[1..] && x in n.user.purchasedBooks;
          assert n in committee;
        }
      }
      SupportAbsent(committee[1..], b);
    }
  }

  /** Scores never increase from left to right. */
  ghost predicate RankedBy(ids: seq<int>, scores: map<int, real>) {
    forall i, j :: 0 <= i < j < |ids| ==> ScoreOf(scores, ids[i]) >= ScoreOf(scores, ids[j])
  }

  /** Line 109: the scored book ids, each once, highest score first. The
      dict's keys come in insertion order, which follows the committee's
      ranked order at lines 96-105 and, within one member, set iteration.
      The model leaves the starting order open, so the order among equal
      scores is not fixed; the contract holds for every starting order. */
  method RankBooks(scores: map<int, real>) returns (ids: seq<int>)
    ensures Distinct(ids)
    ensures Elements(ids) == scores.Keys
    ensures RankedBy(ids, scores)
  {
    var keys := SetToSeq(scores.Keys);
    var key := b => ScoreOf(scores, b);
    ids := SortDesc(keys, key);
    SortDescDistinct(keys, key);
    forall y ensures y in ids <==> y in keys {
      SortDescMembers(keys, key, y);
    }
    forall i, j | 0 <= i < j < |ids| ensures ScoreOf(scores, ids[i]) >= ScoreOf(scores, ids[j]) {
      assert key(ids[i]) >= key(ids[j]);
    }
  }

  /** Lines 111-114: the ranked ids whose book is in the catalogue, in
      ranked order. */
  function KeptIds(ids: seq<int>, books: map<int, Book>): (r: seq<int>)
    ensures forall b :: b in r <==> b in ids && b in books
    ensures |r| <= |ids|
    ensures Distinct(ids) ==> Distinct(r)
    decreases |ids|
  {
    if ids == [] then []
    else
      assert ids == [ids[0]] + ids[1..];
      (if ids[0] in books then [ids[0]] else []) + KeptIds(ids[1..], books)
  }

  /** Dropping ids keeps the ranking. */
  lemma {:induction false} KeptIdsRanked(ids: seq<int>, books: map<int, Book>, scores: map<int, real>)
    requires RankedBy(ids, scores)
    ensures RankedBy(KeptIds(ids, books), scores)
    decreases |ids|
  {
    if ids != [] {
      var rest := KeptIds(ids[1..], books);
      KeptIdsRanked(ids[1..], books, scores);
      if ids[0] in books {
        var r := [ids[0]] + rest;
        forall i, j | 0 <= i < j < |r| ensures ScoreOf(scores, r[i]) >= ScoreOf(scores, r[j]) {
          if i == 0 {
            assert r[j] in rest;
            var k :| 0 <= k < |ids[1..]| && ids[1..][k] == r[j];
            assert ids[k + 1] == r[j];
          } else {
            assert r[i] == rest[i - 1] && r[j] == rest[j - 1];
          }
        }
      } else {
        assert KeptIds(ids, books) == rest;
      }
    }
  }

  /** The catalogue books of the kept ids, in order. */
  function Extract(ids: seq<int>, books: map<int, Book>): (r: seq<Book>)
    ensures |r| == |KeptIds(ids, books)|
    ensures forall i :: 0 <= i < |r| ==> KeptIds(ids, books)[i] in books && r[i] == books[KeptIds(ids, books)[i]]
    ensures forall i :: 0 <= i < |r| ==> r[i] in books.Values
  {
    var kept := KeptIds(ids, books);
    seq(|kept|, i requires 0 <= i < |kept| => books[kept[i]])
  }

  /** The committee the source would form: at most `TopK` well-scored
      candidates with distinct ids, ranked, and no candidate with a positive
      score is left out while a seat is free or while it beats a member. */
  ghost predicate IsCommittee(committee: seq<Neighbour>, users: map<int, User>, owned: set<int>, cands: set<int>) {
    && |committee| <= TopK
    && WellScored(committee, users, owned, cands)
    && DistinctIds(committee)
    && SortedDesc(committee, SimOf)
    && forall u :: u in cands && u in users && u !in NeighbourIds(committee)
                   && Jaccard(owned, users[u].purchasedBooks) > 0.0 ==>
         |committee| == TopK && forall n :: n in committee ==> n.sim >= Jaccard(owned, users[u].purchasedBooks)
  }

  /** `recommend_books`. An unknown target gets the empty list. A candidate
      missing from `users` stops the call, which a consistent index rules
      out. Otherwise the result lists the catalogue books among the
      committee's scored books, each once, none owned by the target, by
      non-increasing score; a book's score is the summed similarity of the
      committee members who own it. The ghost results expose the committee,
      the score map and the ids of the returned books. */
  method RecommendBooks(s: Store, targetId: int)
    returns (r: Result<seq<Book>>, ghost committee: seq<Neighbour>, ghost scores: map<int, real>, ghost ids: seq<int>)
    ensures targetId !in s.users ==> r == Ok([])
    ensures targetId in s.users ==>
              var cands := Candidates(s.subs, targetId, s.users[targetId].purchasedBooks);
              && (r.Ok? <==> cands <= s.users.Keys)
              && (r.KeyError? ==> r.key in cands && r.key !in s.users)
    ensures Consistent(s.users, s.subs) ==> r.Ok?
    ensures r.Ok? && targetId in s.users ==>
              var owned := s.users[targetId].purchasedBooks;
              var cands := Candidates(s.subs, targetId, owned);
              && IsCommittee(committee, s.users, owned, cands)
              && (forall n :: n in committee ==> n.id != targetId)
              && scores.Keys == PooledBooks(committee) - owned
              && (forall b :: b in scores ==> scores[b] == Support(committee, b))
              && |r.value| == |ids|
              && (forall i :: 0 <= i < |ids| ==> ids[i] in s.books && r.value[i] == s.books[ids[i]])
              && (forall i :: 0 <= i < |ids| ==> ids[i] !in owned)
              && Distinct(ids)
              && (forall b :: b in ids <==> b in scores && b in s.books)
              && RankedBy(ids, scores)
  {
    committee, scores, ids := [], map[], [];
    if targetId !in s.users {
      return Ok([]), committee, scores, ids;
    }
    var target := s.users[targetId];
    var owned := target.purchasedBooks;
    var cands := Candidates(s.subs, targetId, owned);
    if Consistent(s.users, s.subs) {
      CandidatesShareABook(s, targetId);
    }
    var scored := ScoreNeighbours(s.users, owned, cands);
    if scored.KeyError? {
      return KeyError(scored.key), committee, scores, ids;
    }
    var chosen := SelectCommittee(scored.value);
    var bookScores := AccumulateScores(chosen, owned);
    var order := RankBooks(bookScores);
    KeptIdsRanked(order, s.books, bookScores);
    committee, scores, ids := chosen, bookScores, KeptIds(order, s.books);
    r := Ok(Extract(order, s.books));
    CommitteeFromScored(scored.value, chosen, s.users, owned, cands);
  }

  /** The chosen prefix of well-scored, distinct candidates is a committee. */
  lemma CommitteeFromScored(scored: seq<Neighbour>, chosen: seq<Neighbour>, users: map<int, User>, owned: set<int>, cands: set<int>)
    requires chosen == SelectCommittee(scored)
    requires WellScored(scored, users, owned, cands) && DistinctIds(scored)
    requires forall u :: u in cands && u in users && Jaccard(owned, users[u].purchasedBooks) > 0.0
               ==> u in NeighbourIds(scored)
    ensures IsCommittee(chosen, users, owned, cands)
  {
  }
}
