/** The Review schema: required book and user references, a rating in
    [1, 5], an optional trimmed text of at most 1000 UTF-16 code units, timestamps,
    the unique index on (bookId, userId), and the serialisation transform
    that drops `__v`. */
module ReviewModel {
  import opened Common
  import Text
  import Sequences

  const MaxReviewTextLength: nat := 1000

  /** The messages of the `min`, `max` and `maxlength` validators, which
      quote the offending value. */
  function RatingMinMessage(rating: real): string {
    "Path `rating` (" + Text.NumberText(rating) + ") is less than minimum allowed value (1)."
  }

  function RatingMaxMessage(rating: real): string {
    "Path `rating` (" + Text.NumberText(rating) + ") is more than maximum allowed value (5)."
  }

  function TextTooLongMessage(text: string): string {
    "Path `reviewText` (`" + text + "`) is longer than the maximum allowed length (1000)."
  }

  /** A stored review. `version` is mongoose's `__v`. */
  datatype Review = Review(
    id: Id,
    bookId: Id,
    userId: Id,
    rating: real,
    reviewText: OptString,
    createdAt: nat,
    updatedAt: nat,
    version: nat)

  /** The `min: 1, max: 5` validators. */
  predicate RatingInRange(rating: real) {
    1.0 <= rating <= 5.0
  }

  /** `maxlength: 1000`, which measures the text as JavaScript's `length`
      does. */
  predicate TextFits(text: OptString) {
    text.Str? ==> Text.Utf16Length(text.value) <= MaxReviewTextLength
  }

  /** Characters outside the Basic Multilingual Plane count twice: 600 of
      them are too long a text, and 1000 characters of the plane are not. */
  lemma TextFitsCountsCodeUnits()
    ensures !TextFits(Str(seq(600, _ => '\U{1F600}')))
    ensures TextFits(Str(seq(1000, _ => 'a')))
  {
    var astral := seq(600, _ => '\U{1F600}');
    assert forall i :: 0 <= i < |astral| ==> astral[i] as int >= 0x1_0000;
    var plain := seq(1000, _ => 'a');
    assert forall i :: 0 <= i < |plain| ==> plain[i] as int < 0x1_0000;
  }

  /** What the validators report for a review with this rating and (already
      trimmed) text, in schema order; empty exactly when the review is valid. */
  function ValidationMessages(rating: real, text: OptString): (msgs: seq<string>)
    ensures msgs == [] <==> RatingInRange(rating) && TextFits(text)
    ensures rating < 1.0 ==> RatingMinMessage(rating) in msgs
    ensures rating > 5.0 ==> RatingMaxMessage(rating) in msgs
    ensures !TextFits(text) ==> TextTooLongMessage(text.value) in msgs
  {
    (if rating < 1.0 then [RatingMinMessage(rating)] else [])
    + (if rating > 5.0 then [RatingMaxMessage(rating)] else [])
    + (if TextFits(text) then [] else [TextTooLongMessage(text.value)])
  }

  /** The schema's constraints on a stored review. */
  predicate ValidReview(r: Review) {
    && RatingInRange(r.rating)
    && TextFits(r.reviewText)
    && (r.reviewText.Str? ==> Text.IsTrimmed(r.reviewText.value))
  }

  /** The unique index `{ bookId: 1, userId: 1 }`. */
  predicate UniquePerBookAndUser(reviews: seq<Review>) {
    Sequences.DistinctBy(reviews, BookAndUser)
  }

  /** The key of that index. */
  function BookAndUser(r: Review): (Id, Id) {
    (r.bookId, r.userId)
  }

  /** The condition `{ bookId }`: the reviews of one book. */
  function ForBook(bookId: Id): Review -> bool {
    (r: Review) => r.bookId == bookId
  }

  function ReviewIdOf(r: Review): Id {
    r.id
  }

  /** A review as `toJSON`/`toObject` render it: every field except `__v`. */
  datatype ReviewJson = ReviewJson(
    id: Id,
    bookId: Id,
    userId: Id,
    rating: real,
    reviewText: OptString,
    createdAt: nat,
    updatedAt: nat)

  function ToJson(r: Review): ReviewJson {
    ReviewJson(r.id, r.bookId, r.userId, r.rating, r.reviewText, r.createdAt, r.updatedAt)
  }

  /** The transform loses `__v` and nothing else: two reviews render alike
      exactly when they differ at most in their version. */
  lemma ToJsonForgetsOnlyVersion(a: Review, b: Review)
    ensures ToJson(a) == ToJson(b) <==> a.(version := 0) == b.(version := 0)
  {
  }
}
