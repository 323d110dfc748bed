/** The statistics engine: per-book review count, rounded mean rating and
    five-bucket histogram, and the bulk form that maps book ids to
    {average, count}. Both read the review collection only; the grouping
    the store's aggregation performs is modelled as functions on the
    sequence of reviews. */
module ReviewStats {
  import opened Common
  import opened ReviewModel
  import Sequences

  // ---------------------------------------------------------------------
  // The histogram

  /** `baseDistribution()`: the five keys 1..5, every one at zero. */
  function BaseDistribution(): (d: map<int, nat>)
    ensures d.Keys == {1, 2, 3, 4, 5}
    ensures forall k :: k in d ==> d[k] == 0
  {
    map[1 := 0, 2 := 0, 3 := 0, 4 := 0, 5 := 0]
  }

  /** The key `distribution[Number(rating)]` looks up: a rating names a
      bucket only when it is one of the whole numbers 1..5 (the property
      name of 3.5 is "3.5", which the distribution does not have). */
  function BucketOf(rating: real): (k: Option<int>)
    ensures k.Some? <==> rating in {1.0, 2.0, 3.0, 4.0, 5.0}
    ensures k.Some? ==> 1 <= k.value <= 5 && rating == k.value as real
  {
    if rating == rating.Floor as real && 1 <= rating.Floor <= 5 then Some(rating.Floor) else None
  }

  /** One row of the `$group` by rating: `{ _id: rating, count }`. */
  datatype Row = Row(rating: real, count: nat)

  /** The count of the last row whose rating is bucket `k`, or 0 when no
      row names that bucket. */
  function LastCount(rows: seq<Row>, k: int): nat {
    if rows == [] then 0
    else if rows[|rows| - 1].rating == k as real then rows[|rows| - 1].count
    else LastCount(rows[..|rows| - 1], k)
  }

  /** `normaliseDistribution` as a value: each bucket holds the count of the
      row that names it. */
  function Normalised(rows: seq<Row>): map<int, nat> {
    map k | k in {1, 2, 3, 4, 5} :: LastCount(rows, k)
  }

  /** `normaliseDistribution(rows)`: start from the base distribution and
      overwrite the bucket each row names, skipping rows whose rating is
      not one of the keys. */
  method NormaliseDistribution(rows: seq<Row>) returns (distribution: map<int, nat>)
    ensures distribution == Normalised(rows)
    ensures distribution.Keys == {1, 2, 3, 4, 5}
  {
    distribution := BaseDistribution();
    var i := 0;
    while i < |rows|
      invariant 0 <= i <= |rows|
      invariant distribution.Keys == {1, 2, 3, 4, 5}
      invariant forall k :: 1 <= k <= 5 ==> distribution[k] == LastCount(rows[..i], k)
    {
      var row := rows[i];
      assert rows[..i + 1][..i] == rows[..i];
      match BucketOf(row.rating) {
        case Some(k) =>
          distribution := distribution[k := row.count];
        case None =>
      }
      i := i + 1;
    }
    assert rows[..|rows|] == rows;
  }

  /** The histogram always has exactly the keys 1..5; bucket k is the count
      of the row naming k, and rows naming no bucket change nothing. */
  lemma NormalisedShape(rows: seq<Row>, extra: Row)
    ensures Normalised(rows).Keys == {1, 2, 3, 4, 5}
    ensures forall k :: 1 <= k <= 5 ==> Normalised(rows)[k] == LastCount(rows, k)
    ensures Normalised([]) == BaseDistribution()
    ensures BucketOf(extra.rating).None? ==> Normalised(rows + [extra]) == Normalised(rows)
    ensures forall k :: 1 <= k <= 5 && extra.rating == k as real ==> Normalised(rows + [extra])[k] == extra.count
  {
    assert (rows + [extra])[..|rows|] == rows;
  }

  // ---------------------------------------------------------------------
  // What the aggregation groups

  function RatedAs(v: real): Review -> bool {
    (r: Review) => r.rating == v
  }

  function ReviewsOf(reviews: seq<Review>, bookId: Id): seq<Review> {
    Sequences.Filter(reviews, ForBook(bookId))
  }

  function Ratings(s: seq<Review>): (rs: seq<real>)
    ensures |rs| == |s|
    ensures forall i :: 0 <= i < |s| ==> rs[i] == s[i].rating
  {
    if s == [] then [] else [s[0].rating] + Ratings(s[1..])
  }

  function CountRating(rs: seq<real>, v: real): nat {
    if rs == [] then 0 else (if rs[0] == v then 1 else 0) + CountRating(rs[1..], v)
  }

  /** The distinct ratings, one each. */
  function Distinct(rs: seq<real>): (d: seq<real>)
    ensures forall v :: v in d <==> v in rs
    ensures forall i, j :: 0 <= i < j < |d| ==> d[i] != d[j]
  {
    if rs == [] then []
    else if rs[0] in rs[1..] then Distinct(rs[1..])
    else [rs[0]] + Distinct(rs[1..])
  }

  /** `{ $group: { _id: "$rating", count: { $sum: 1 } } }`: one row per
      distinct rating with the number of reviews carrying it. The store
      returns groups in no particular order; this is one such order. */
  function GroupByRating(rs: seq<real>): (rows: seq<Row>)
    ensures |rows| == |Distinct(rs)|
    ensures forall i :: 0 <= i < |rows| ==> rows[i].count == CountRating(rs, rows[i].rating)
    ensures forall v :: (exists i :: 0 <= i < |rows| && rows[i].rating == v) <==> v in rs
  {
    var d := Distinct(rs);
    var rows := seq(|d|, i requires 0 <= i < |d| => Row(d[i], CountRating(rs, d[i])));
    assert forall v :: (exists i :: 0 <= i < |rows| && rows[i].rating == v) <==> v in d by {
      forall v ensures (exists i :: 0 <= i < |rows| && rows[i].rating == v) <==> v in d {
        if v in d {
          var i :| 0 <= i < |d| && d[i] == v;
          assert rows[i].rating == v;
        }
      }
    }
    rows
  }

  lemma {:induction false} CountRatingAbsent(rs: seq<real>, v: real)
    requires v !in rs
    ensures CountRating(rs, v) == 0
  {
    if rs != [] {
      CountRatingAbsent(rs[1..], v);
    }
  }

  /** When every row's count is the number of ratings equal to its own
      rating, the last row naming `v` holds that number too. */
  lemma {:induction false} LastCountOfCountedRows(rows: seq<Row>, rs: seq<real>, k: int)
    requires forall i :: 0 <= i < |rows| ==> rows[i].count == CountRating(rs, rows[i].rating)
    ensures LastCount(rows, k) == if exists i :: 0 <= i < |rows| && rows[i].rating == k as real then CountRating(rs, k as real) else 0
  {
    if rows != [] {
      var init := rows[..|rows| - 1];
      if rows[|rows| - 1].rating != k as real {
        LastCountOfCountedRows(init, rs, k);
        assert (exists i :: 0 <= i < |rows| && rows[i].rating == k as real)
           <==> (exists i :: 0 <= i < |init| && init[i].rating == k as real) by {
          forall i | 0 <= i < |init| ensures init[i] == rows[i] { }
        }
      }
    }
  }

  /** Bucket k of the normalised grouping is the number of ratings equal to k. */
  lemma GroupedBucket(rs: seq<real>, k: int)
    requires 1 <= k <= 5
    ensures Normalised(GroupByRating(rs))[k] == CountRating(rs, k as real)
  {
    var rows := GroupByRating(rs);
    LastCountOfCountedRows(rows, rs, k);
    if k as real !in rs {
      CountRatingAbsent(rs, k as real);
    }
  }

  lemma {:induction false} CountRatingIsFilter(s: seq<Review>, v: real)
    ensures CountRating(Ratings(s), v) == |Sequences.Filter(s, RatedAs(v))|
  {
    if s != [] {
      CountRatingIsFilter(s[1..], v);
      assert Ratings(s)[1..] == Ratings(s[1..]);
    }
  }

  // ---------------------------------------------------------------------
  // The mean

  function Sum(rs: seq<real>): real {
    if rs == [] then 0.0 else rs[0] + Sum(rs[1..])
  }

  function RoundNonNegative(x: real): real
    requires x >= 0.0
  {
    ((x * 100.0 + 0.5).Floor as real) / 100.0
  }

  /** `Number(x.toFixed(2))` on exact reals: the nearest multiple of 0.01,
      halves rounded away from zero. */
  function Round2(x: real): real {
    if x >= 0.0 then RoundNonNegative(x) else -RoundNonNegative(-x)
  }

  /** Rounding moves a value by at most half a hundredth, keeps it on the
      same side of zero, and leaves a value in [1, 5] inside [1, 5]. */
  lemma Round2Bounds(x: real)
    ensures -0.005 <= Round2(x) - x <= 0.005
    ensures 1.0 <= x <= 5.0 ==> 1.0 <= Round2(x) <= 5.0
  {
    var y := if x >= 0.0 then x else -x;
    var f := (y * 100.0 + 0.5).Floor;
    assert f as real <= y * 100.0 + 0.5 < f as real + 1.0;
    if 1.0 <= x <= 5.0 {
      assert 100 <= f <= 500;
    }
  }

  /** The `$avg` of the matched ratings, passed through
      `avg ? Number(avg.toFixed(2)) : null`: null when nothing matched (the
      summary facet is then empty) and also when the mean is 0, which is falsy. */
  function AverageOf(rs: seq<real>): Option<real> {
    if |rs| == 0 then None
    else
      var mean := Sum(rs) / (|rs| as real);
      if mean == 0.0 then None else Some(Round2(mean))
  }

  predicate AllInRange(rs: seq<real>) {
    forall i :: 0 <= i < |rs| ==> RatingInRange(rs[i])
  }

  lemma {:induction false} SumBounds(rs: seq<real>)
    requires AllInRange(rs)
    ensures |rs| as real <= Sum(rs) <= 5.0 * |rs| as real
  {
    if rs != [] {
      assert RatingInRange(rs[0]);
      SumBounds(rs[1..]);
    }
  }

  /** A mean of values in [1, 5] is in [1, 5]. */
  lemma MeanBounds(sum: real, n: real)
    requires n > 0.0 && n <= sum <= 5.0 * n
    ensures 1.0 <= sum / n <= 5.0
  {
    var q := sum / n;
    assert q * n == sum;
    assert (q - 1.0) * n == sum - n;
    assert (5.0 - q) * n == 5.0 * n - sum;
  }

  /** With ratings in [1, 5] the average is null exactly when there are no
      ratings; otherwise it is the mean rounded to 2 decimals, lies in
      [1, 5], and is within 0.005 of the exact mean. */
  lemma AverageSpec(rs: seq<real>)
    requires AllInRange(rs)
    ensures AverageOf(rs).None? <==> |rs| == 0
    ensures |rs| > 0 ==> AverageOf(rs) == Some(Round2(Sum(rs) / (|rs| as real)))
    ensures AverageOf(rs).Some? ==> 1.0 <= AverageOf(rs).value <= 5.0
    ensures AverageOf(rs).Some? ==> -0.005 <= AverageOf(rs).value - Sum(rs) / (|rs| as real) <= 0.005
  {
    if |rs| > 0 {
      SumBounds(rs);
      var n := |rs| as real;
      var mean := Sum(rs) / n;
      MeanBounds(Sum(rs), n);
      Round2Bounds(mean);
    }
  }

  // ---------------------------------------------------------------------
  // Per-book statistics

  datatype Stats = Stats(averageRating: Option<real>, reviewCount: nat, distribution: map<int, nat>)

  /** `getAggregateStatsForBook(bookId)` over the review collection. */
  function StatsForBook(reviews: seq<Review>, bookId: Id): Stats {
    var rs := Ratings(ReviewsOf(reviews, bookId));
    Stats(AverageOf(rs), |rs|, Normalised(GroupByRating(rs)))
  }

  /** The number of one book's reviews with rating `v`. */
  function CountWithRating(reviews: seq<Review>, bookId: Id, v: real): nat {
    |Sequences.Filter(ReviewsOf(reviews, bookId), RatedAs(v))|
  }

  /** The count is the number of the book's reviews; the histogram has
      exactly the keys 1..5 and bucket k counts the book's reviews rated k. */
  lemma StatsCounts(reviews: seq<Review>, bookId: Id)
    ensures StatsForBook(reviews, bookId).reviewCount == |ReviewsOf(reviews, bookId)|
    ensures StatsForBook(reviews, bookId).distribution.Keys == {1, 2, 3, 4, 5}
    ensures forall k :: 1 <= k <= 5 ==> StatsForBook(reviews, bookId).distribution[k] == CountWithRating(reviews, bookId, k as real)
  {
    var s := ReviewsOf(reviews, bookId);
    forall k | 1 <= k <= 5 ensures StatsForBook(reviews, bookId).distribution[k] == CountWithRating(reviews, bookId, k as real) {
      GroupedBucket(Ratings(s), k);
      CountRatingIsFilter(s, k as real);
    }
  }

  /** A book without reviews has count 0, a null average and five empty buckets. */
  lemma StatsOfUnreviewed(reviews: seq<Review>, bookId: Id)
    requires forall r :: r in reviews ==> r.bookId != bookId
    ensures StatsForBook(reviews, bookId) == Stats(None, 0, BaseDistribution())
  {
    Sequences.FilterNone(reviews, ForBook(bookId));
  }

  predicate StoredRatings(reviews: seq<Review>) {
    forall r :: r in reviews ==> RatingInRange(r.rating)
  }

  /** With ratings the schema admits, the average is null exactly when the
      book has no reviews, and is otherwise the rounded mean in [1, 5]. */
  lemma StatsAverage(reviews: seq<Review>, bookId: Id)
    requires StoredRatings(reviews)
    ensures StatsForBook(reviews, bookId).averageRating.None? <==> StatsForBook(reviews, bookId).reviewCount == 0
    ensures StatsForBook(reviews, bookId).averageRating.Some? ==>
      var rs := Ratings(ReviewsOf(reviews, bookId));
      StatsForBook(reviews, bookId).averageRating.value == Round2(Sum(rs) / (|rs| as real))
      && 1.0 <= StatsForBook(reviews, bookId).averageRating.value <= 5.0
  {
    var s := ReviewsOf(reviews, bookId);
    var rs := Ratings(s);
    assert AllInRange(rs) by {
      forall i | 0 <= i < |rs| ensures RatingInRange(rs[i]) {
        assert s[i] in s;
      }
    }
    AverageSpec(rs);
  }

  // ---------------------------------------------------------------------
  // The histogram total

  /** The number of ratings that name a bucket (whole numbers 1..5). */
  function WholeCount(rs: seq<real>): nat {
    if rs == [] then 0 else (if BucketOf(rs[0]).Some? then 1 else 0) + WholeCount(rs[1..])
  }

  function BucketTotal(d: map<int, nat>): nat
    requires d.Keys == {1, 2, 3, 4, 5}
  {
    d[1] + d[2] + d[3] + d[4] + d[5]
  }

  lemma {:induction false} CountsSumToWhole(rs: seq<real>)
    ensures CountRating(rs, 1.0) + CountRating(rs, 2.0) + CountRating(rs, 3.0) + CountRating(rs, 4.0) + CountRating(rs, 5.0) == WholeCount(rs)
  {
    if rs != [] {
      CountsSumToWhole(rs[1..]);
    }
  }

  /** The buckets add up to the number of the book's reviews whose rating is
      a whole number; the ratings the controllers accept are only range-
      checked, so this equals the review count exactly when every rating of
      the book is whole. */
  lemma {:induction false} HistogramTotal(reviews: seq<Review>, bookId: Id)
    ensures BucketTotal(StatsForBook(reviews, bookId).distribution) == WholeCount(Ratings(ReviewsOf(reviews, bookId)))
    ensures (forall r :: r in ReviewsOf(reviews, bookId) ==> BucketOf(r.rating).Some?) ==>
      BucketTotal(StatsForBook(reviews, bookId).distribution) == StatsForBook(reviews, bookId).reviewCount
  {
    var rs := Ratings(ReviewsOf(reviews, bookId));
    GroupedBucket(rs, 1);
    GroupedBucket(rs, 2);
    GroupedBucket(rs, 3);
    GroupedBucket(rs, 4);
    GroupedBucket(rs, 5);
    CountsSumToWhole(rs);
    if forall r :: r in ReviewsOf(reviews, bookId) ==> BucketOf(r.rating).Some? {
      AllWholeCount(ReviewsOf(reviews, bookId));
    }
  }

  lemma {:induction false} AllWholeCount(s: seq<Review>)
    requires forall r :: r in s ==> BucketOf(r.rating).Some?
    ensures WholeCount(Ratings(s)) == |s|
  {
    if s != [] {
      assert s[0] in s;
      AllWholeCount(s[1..]);
      assert Ratings(s)[1..] == Ratings(s[1..]);
    }
  }

  /** A single review rated 3.5, which the controllers accept, is counted but
      lands in no bucket. */
  lemma FractionalRatingMissesHistogram(r: Review)
    requires r.rating == 3.5
    ensures StatsForBook([r], r.bookId).reviewCount == 1
    ensures BucketTotal(StatsForBook([r], r.bookId).distribution) == 0
  {
    HistogramTotal([r], r.bookId);
    Sequences.FilterEvery([r], ForBook(r.bookId));
    assert Ratings([r]) == [3.5];
  }

  lemma ExampleAverage()
    ensures AverageOf([5.0, 5.0, 4.0, 3.0]) == Some(4.25)
  {
    assert Sum([3.0]) == 3.0;
    assert Sum([4.0, 3.0]) == 7.0;
    assert Sum([5.0, 4.0, 3.0]) == 12.0;
    assert Sum([5.0, 5.0, 4.0, 3.0]) == 17.0;
    assert (425.5).Floor == 425;
  }

  lemma ExampleBuckets()
    ensures Normalised(GroupByRating([5.0, 5.0, 4.0, 3.0])) == map[1 := 0, 2 := 0, 3 := 1, 4 := 1, 5 := 2]
  {
    var rs := [5.0, 5.0, 4.0, 3.0];
    assert CountRating(rs, 1.0) == 0 && CountRating(rs, 2.0) == 0;
    assert CountRating(rs, 3.0) == 1 && CountRating(rs, 4.0) == 1 && CountRating(rs, 5.0) == 2;
    GroupedBucket(rs, 1);
    GroupedBucket(rs, 2);
    GroupedBucket(rs, 3);
    GroupedBucket(rs, 4);
    GroupedBucket(rs, 5);
  }

  /** Ratings 5, 5, 4, 3 give average 4.25, count 4 and buckets
      {1: 0, 2: 0, 3: 1, 4: 1, 5: 2}. */
  lemma WorkedExample(a: Review, b: Review, c: Review, d: Review)
    requires a.bookId == b.bookId == c.bookId == d.bookId
    requires a.rating == 5.0 && b.rating == 5.0 && c.rating == 4.0 && d.rating == 3.0
    ensures StatsForBook([a, b, c, d], a.bookId) == Stats(Some(4.25), 4, map[1 := 0, 2 := 0, 3 := 1, 4 := 1, 5 := 2])
  {
    var all := [a, b, c, d];
    Sequences.FilterEvery(all, ForBook(a.bookId));
    assert Ratings(all) == [5.0, 5.0, 4.0, 3.0];
    ExampleAverage();
    ExampleBuckets();
  }

  // ---------------------------------------------------------------------
  // The bulk form

  datatype Summary = Summary(averageRating: Option<real>, reviewCount: nat)

  /** `{ $match: { bookId: { $in: bookIds } } }`. */
  function InBooks(bookIds: seq<Id>): Review -> bool {
    (r: Review) => r.bookId in bookIds
  }

  /** One group of `$group: { _id: "$bookId", ... }` while it is being
      accumulated: the sum behind `$avg: "$rating"` and `$sum: 1`. */
  datatype Group = Group(sum: real, count: nat)

  /** The `$group` stage over the matched reviews, one review at a time: the
      review's group (a new one if its book has none yet) takes its rating
      and one more to its count. */
  function GroupByBook(s: seq<Review>): (groups: map<Id, Group>)
    ensures forall id :: id in groups ==> groups[id].count > 0
  {
    if s == [] then map[]
    else
      var groups := GroupByBook(s[..|s| - 1]);
      var r := s[|s| - 1];
      var g := if r.bookId in groups then groups[r.bookId] else Group(0.0, 0);
      groups[r.bookId := Group(g.sum + r.rating, g.count + 1)]
  }

  /** `{ averageRating: avg ? Number(avg.toFixed(2)) : null, reviewCount }`
      of one group. */
  function SummaryOf(g: Group): Summary
    requires g.count > 0
  {
    var avg := g.sum / (g.count as real);
    Summary(if avg == 0.0 then None else Some(Round2(avg)), g.count)
  }

  /** `getAggregateStatsForBooks(bookIds)`: nothing for an empty id list;
      otherwise match the reviews of the listed books, group them by book,
      and key each group's summary by its book id (whose string form
      determines the id). */
  function StatsForBooks(reviews: seq<Review>, bookIds: seq<Id>): map<Id, Summary> {
    if |bookIds| == 0 then map[]
    else
      var groups := GroupByBook(Sequences.Filter(reviews, InBooks(bookIds)));
      map id | id in groups :: SummaryOf(groups[id])
  }

  lemma {:induction false} SumAppend(rs: seq<real>, v: real)
    ensures Sum(rs + [v]) == Sum(rs) + v
  {
    if rs == [] {
      assert [v][1..] == [];
    } else {
      assert (rs + [v])[1..] == rs[1..] + [v];
      SumAppend(rs[1..], v);
    }
  }

  /** One more review adds its rating to the sum of the ratings. */
  lemma RatingSumAppend(before: seq<Review>, r: Review)
    ensures Sum(Ratings(before + [r])) == Sum(Ratings(before)) + r.rating
  {
    assert Ratings(before + [r]) == Ratings(before) + [r.rating];
    SumAppend(Ratings(before), r.rating);
  }

  /** A review appended to the matched ones joins its own book's reviews
      and no other's. */
  lemma ReviewsOfAppend(p: seq<Review>, r: Review, id: Id)
    ensures ReviewsOf(p + [r], id) == if r.bookId == id then ReviewsOf(p, id) + [r] else ReviewsOf(p, id)
  {
    Sequences.FilterAppend(p, r, ForBook(id));
  }

  /** A review appended to the matched ones is accumulated into its book's
      group and leaves the other groups as they were. */
  lemma GroupByBookAppend(p: seq<Review>, r: Review)
    ensures var groups := GroupByBook(p);
      var g := if r.bookId in groups then groups[r.bookId] else Group(0.0, 0);
      GroupByBook(p + [r]) == groups[r.bookId := Group(g.sum + r.rating, g.count + 1)]
  {
    assert (p + [r])[..|p|] == p;
  }

  /** A book has a group exactly when it has matched reviews, and the group
      holds the sum and the number of their ratings. */
  lemma {:induction false} GroupByBookSpec(s: seq<Review>, id: Id)
    ensures id in GroupByBook(s) <==> |ReviewsOf(s, id)| > 0
    ensures id in GroupByBook(s) ==>
      GroupByBook(s)[id] == Group(Sum(Ratings(ReviewsOf(s, id))), |ReviewsOf(s, id)|)
  {
    if s != [] {
      var p, r := s[..|s| - 1], s[|s| - 1];
      assert s == p + [r];
      GroupByBookSpec(p, id);
      GroupByBookAppend(p, r);
      ReviewsOfAppend(p, r, id);
      if r.bookId == id {
        RatingSumAppend(ReviewsOf(p, id), r);
      }
    }
  }

  /** Among the matched reviews, a listed book has all its reviews and an
      unlisted one none. */
  lemma MatchedReviewsOf(reviews: seq<Review>, bookIds: seq<Id>, id: Id)
    ensures ReviewsOf(Sequences.Filter(reviews, InBooks(bookIds)), id)
         == if id in bookIds then ReviewsOf(reviews, id) else []
  {
    var matched := Sequences.Filter(reviews, InBooks(bookIds));
    if id in bookIds {
      Sequences.FilterNarrow(reviews, InBooks(bookIds), ForBook(id));
    } else {
      Sequences.FilterNone(matched, ForBook(id));
    }
  }

  /** The bulk map has an entry exactly for the listed books with reviews, and
      each entry agrees with the single-book form. */
  lemma BulkAgreesWithSingle(reviews: seq<Review>, bookIds: seq<Id>)
    ensures |bookIds| == 0 ==> StatsForBooks(reviews, bookIds) == map[]
    ensures forall id :: id in StatsForBooks(reviews, bookIds) <==> id in bookIds && StatsForBook(reviews, id).reviewCount > 0
    ensures forall id :: id in StatsForBooks(reviews, bookIds) ==>
      StatsForBooks(reviews, bookIds)[id] == Summary(StatsForBook(reviews, id).averageRating, StatsForBook(reviews, id).reviewCount)
  {
    forall id
      ensures id in StatsForBooks(reviews, bookIds) <==> id in bookIds && StatsForBook(reviews, id).reviewCount > 0
      ensures id in StatsForBooks(reviews, bookIds) ==>
        StatsForBooks(reviews, bookIds)[id] == Summary(StatsForBook(reviews, id).averageRating, StatsForBook(reviews, id).reviewCount)
    {
      if |bookIds| > 0 {
        var matched := Sequences.Filter(reviews, InBooks(bookIds));
        GroupByBookSpec(matched, id);
        MatchedReviewsOf(reviews, bookIds, id);
      }
    }
  }

  /** `stats?.averageRating ?? null` and `stats?.reviewCount ?? 0`. */
  function Decoration(statsMap: map<Id, Summary>, id: Id): Summary {
    if id in statsMap then statsMap[id] else Summary(None, 0)
  }

  /** Decorating a listed book from the bulk map gives exactly the average
      and count of the single-book form, including null and 0 for a book
      without reviews. */
  lemma DecorationAgreesWithSingle(reviews: seq<Review>, bookIds: seq<Id>, id: Id)
    requires id in bookIds
    ensures Decoration(StatsForBooks(reviews, bookIds), id)
         == Summary(StatsForBook(reviews, id).averageRating, StatsForBook(reviews, id).reviewCount)
  {
    BulkAgreesWithSingle(reviews, bookIds);
  }
}
