/** Jaccard similarity of two purchase sets, as an exact ratio. */
module Similarity {
  import opened Collections

  /** `calculate_jaccard_similarity`, on the two users' purchase sets:
      0 when both are empty, otherwise |a ∩ b| / |a ∪ b|. */
  function Jaccard(a: set<int>, b: set<int>): (r: real)
    ensures 0.0 <= r <= 1.0
    ensures a + b == {} ==> r == 0.0
    ensures a + b != {} ==> r * (|a + b| as real) == |a * b| as real
    ensures r > 0.0 <==> a * b != {}
  {
    SubsetCard(a * b, a + b);
    if |a + b| == 0 then 0.0 else (|a * b| as real) / (|a + b| as real)
  }

  /** The measure does not depend on argument order. */
  lemma JaccardSymmetric(a: set<int>, b: set<int>)
    ensures Jaccard(a, b) == Jaccard(b, a)
  {
    assert a * b == b * a;
    assert a + b == b + a;
  }

  /** The measure is 1 exactly for two equal, non-empty sets. */
  lemma JaccardOne(a: set<int>, b: set<int>)
    ensures Jaccard(a, b) == 1.0 <==> a == b && a != {}
  {
    if Jaccard(a, b) == 1.0 {
      assert |a * b| == |a + b|;
      SubsetCardEqual(a * b, a + b);
      assert a == b by {
        forall x | x in a ensures x in b {
          assert x in a + b;
        }
        forall x | x in b ensures x in a {
          assert x in a + b;
        }
      }
    }
    if a == b && a != {} {
      assert a * b == a + b;
    }
  }

  /** An example of two readers: {101, 102} against
      {101, 102, 103} share two of three books. */
  lemma JaccardExample()
    ensures Jaccard({101, 102}, {101, 102, 103}) == 2.0 / 3.0
  {
    var a: set<int> := {101, 102};
    var b: set<int> := {101, 102, 103};
    assert a * b == {101, 102};
    assert a + b == {101, 102, 103};
  }
}
