/** `Order.get_review_score`: two 0/1 indicator columns derived from the score. */
module ReviewScore {
  import opened Wrappers
  import opened Records
  import opened TableOps

  /** A row of the review table. */
  datatype ReviewFlags = ReviewFlags(
    orderId: string,
    dimIsFiveStar: int,
    dimIsOneStar: int,
    reviewScore: Option<int>)

  function FlagsKey(f: ReviewFlags): string { f.orderId }

  /** `(score == v).astype(int)`; a missing score compares unequal. */
  function Indicator(score: Option<int>, v: int): (b: int)
    ensures b == 0 || b == 1
    ensures b == 1 <==> score.Some? && score.value == v
  {
    if score == Some(v) then 1 else 0
  }

  /** The flags of one review row. */
  function ReviewFlagsOf(r: ReviewRow): (f: ReviewFlags)
    ensures f.orderId == r.orderId && f.reviewScore == r.reviewScore
    ensures f.dimIsFiveStar == 0 || f.dimIsFiveStar == 1
    ensures f.dimIsOneStar == 0 || f.dimIsOneStar == 1
    ensures f.dimIsFiveStar == 1 <==> r.reviewScore == Some(5)
    ensures f.dimIsOneStar == 1 <==> r.reviewScore == Some(1)
    ensures f.dimIsFiveStar + f.dimIsOneStar <= 1
  {
    ReviewFlags(r.orderId, Indicator(r.reviewScore, 5), Indicator(r.reviewScore, 1), r.reviewScore)
  }

  /** `get_review_score()`: one row per review row, in order, no de-duplication. */
  function ReviewScores(reviews: seq<ReviewRow>): (t: seq<ReviewFlags>)
    ensures |t| == |reviews|
    ensures forall i :: 0 <= i < |t| ==> t[i] == ReviewFlagsOf(reviews[i])
    ensures UniqueKeys(t, FlagsKey) <==> UniqueKeys(reviews, ReviewKey)
    ensures Column(t, FlagsKey) == Column(reviews, ReviewKey)
  {
    var t := seq(|reviews|, i requires 0 <= i < |reviews| => ReviewFlagsOf(reviews[i]));
    assert Column(reviews, ReviewKey) <= Column(t, FlagsKey) by {
      forall k | k in Column(reviews, ReviewKey) ensures k in Column(t, FlagsKey) {
        var r :| r in reviews && ReviewKey(r) == k;
        var i :| 0 <= i < |reviews| && reviews[i] == r;
        assert FlagsKey(t[i]) == k;
      }
    }
    assert Column(t, FlagsKey) <= Column(reviews, ReviewKey) by {
      forall k | k in Column(t, FlagsKey) ensures k in Column(reviews, ReviewKey) {
        var f :| f in t && FlagsKey(f) == k;
        var i :| 0 <= i < |t| && t[i] == f;
        assert ReviewKey(reviews[i]) == k;
      }
    }
    t
  }

  /** With one review per order, looking an order up in the review table
      finds the flags of its review. */
  lemma ReviewOf(reviews: seq<ReviewRow>, rv: ReviewRow)
    requires UniqueKeys(reviews, ReviewKey)
    requires rv in reviews
    ensures Lookup(ReviewScores(reviews), FlagsKey, rv.orderId) == Some(ReviewFlagsOf(rv))
  {
    var t := ReviewScores(reviews);
    var i :| 0 <= i < |reviews| && reviews[i] == rv;
    LookupUnique(t, FlagsKey, t[i]);
  }
}
