/** The record shared by the scraper, the curator and the labeler: one row of
    `reviews.csv`, whose columns are Product Name, Review Text, Review Rating,
    Review Date and Reviewer Verified. */
module Reviews {

  datatype Review = Review(
    productName: string,
    reviewText: string,
    rating: int,
    reviewDate: string,
    verified: string)

  /** The set of review texts occurring in a sequence of rows. */
  function Texts(rows: seq<Review>): set<string> {
    set k | 0 <= k < |rows| :: rows[k].reviewText
  }

  /** No two rows share the same review text. */
  predicate DistinctTexts(rows: seq<Review>) {
    forall i, j :: 0 <= i < j < |rows| ==> rows[i].reviewText != rows[j].reviewText
  }

  /** The rows of several batches, batch after batch. */
  function Concat(batches: seq<seq<Review>>): seq<Review> {
    if batches == [] then []
    else Concat(batches[..|batches| - 1]) + batches[|batches| - 1]
  }

  lemma {:induction false} ConcatAppend(a: seq<seq<Review>>, b: seq<seq<Review>>)
    ensures Concat(a + b) == Concat(a) + Concat(b)
    decreases |b|
  {
    if b == [] {
      assert a + b == a;
    } else {
      assert (a + b)[..|a + b| - 1] == a + b[..|b| - 1];
      ConcatAppend(a, b[..|b| - 1]);
    }
  }

  lemma ConcatSnoc(batches: seq<seq<Review>>, last: seq<Review>)
    ensures Concat(batches + [last]) == Concat(batches) + last
  {
    assert (batches + [last])[..|batches|] == batches;
  }

  /** A batch sits between the batches before it and the batches after it. */
  lemma {:induction false} ConcatSplit(batches: seq<seq<Review>>, k: nat)
    requires k < |batches|
    ensures Concat(batches) == Concat(batches[..k]) + batches[k] + Concat(batches[k + 1..])
  {
    var pre, mid, post := batches[..k], [batches[k]], batches[k + 1..];
    ConcatAppend(pre, mid);
    ConcatAppend(pre + mid, post);
    assert pre + mid + post == batches;
    assert Concat(mid) == batches[k] by { assert mid[..0] == []; }
  }

  /** Batches that are empty contribute nothing. */
  lemma {:induction false} ConcatEmpty(batches: seq<seq<Review>>)
    ensures Concat(batches) == [] <==> forall k :: 0 <= k < |batches| ==> batches[k] == []
    decreases |batches|
  {
    if batches != [] {
      ConcatEmpty(batches[..|batches| - 1]);
      var init := batches[..|batches| - 1];
      assert forall k :: 0 <= k < |init| ==> init[k] == batches[k];
    }
  }
}
