/** The review handlers: add, update and delete the requester's review of a
    book, and list a book's reviews. Each runs its checks in a fixed order
    and stops at the first that fails; `userId` is the authenticated
    requester (`req.user._id`), a stored user. */
module ReviewController {
  import opened Common
  import Text
  import Sequences
  import UserModel
  import BookModel
  import ReviewModel
  import ReviewStats
  import opened ErrorMiddleware
  import opened Store

  const InvalidBookId := "Invalid book id"
  const BookNotFound := "Book not found"
  const AlreadyReviewed := "You have already reviewed this book"
  const BadRating := "Rating must be a number between 1 and 5"
  const InvalidReviewReference := "Invalid review reference"
  const ReviewNotFound := "Review not found"
  const ReviewDeletedMessage := "Review deleted"

  /** The handlers' rating check: `Number(rating)` is a number in [1, 5]
      (it need not be whole). */
  predicate AcceptedRating(n: Num) {
    n.Finite? && 1.0 <= n.value <= 5.0
  }

  datatype ReviewCreated = ReviewCreated(review: ReviewView, stats: ReviewStats.Stats)
  datatype ReviewUpdated = ReviewUpdated(review: ReviewView, stats: ReviewStats.Stats)
  datatype ReviewDeleted = ReviewDeleted(message: string, stats: ReviewStats.Stats)
  datatype ReviewList = ReviewList(stats: ReviewStats.Stats, reviews: seq<ReviewView>)

  /** `POST /books/:bookId/reviews`. */
  method AddReview(db: Db, rawBookId: RawId, userId: Id, rating: Option<Num>, reviewText: OptString)
    returns (reply: Reply<ReviewCreated>)
    requires db.Valid() && UserModel.HasUser(db.users, userId)
    modifies db
    ensures db.Valid()
    ensures old(db.Consistent()) ==> db.Consistent()
    ensures !IsValidId(rawBookId) ==> reply == Rejected(400, InvalidBookId) && unchanged(db)
    ensures IsValidId(rawBookId) ==>
      var bookId, parsed, text := rawBookId.id, NumberOf(rating), Text.TrimPath(reviewText);
      if BookModel.FindBook(old(db.books), bookId).None? then reply == Rejected(404, BookNotFound) && unchanged(db)
      else if Sequences.FindFirst(old(db.reviews), ByPair(bookId, userId)).Some? then
        reply == Rejected(400, AlreadyReviewed) && unchanged(db)
      else if !AcceptedRating(parsed) then reply == Rejected(400, BadRating) && unchanged(db)
      else if !ReviewModel.TextFits(text) then
        reply == Rejected(400, ReviewModel.TextTooLongMessage(text.value)) && unchanged(db)
      else
        var created := ReviewModel.Review(old(db.nextId), bookId, userId, parsed.value, text, old(db.clock), old(db.clock), 0);
        && db.reviews == old(db.reviews) + [created]
        && db.users == old(db.users) && db.books == old(db.books)
        && reply == Sent(201, ReviewCreated(Populate(db.users, created, false), ReviewStats.StatsForBook(db.reviews, bookId)))
  {
    if !IsValidId(rawBookId) {
      return Throw(InvalidBookId, 400);
    }
    var bookId := rawBookId.id;
    var book := BookModel.FindBook(db.books, bookId);
    if book.None? {
      return Throw(BookNotFound, 404);
    }
    var existing := Sequences.FindFirst(db.reviews, ByPair(bookId, userId));
    if existing.Some? {
      return Throw(AlreadyReviewed, 400);
    }
    var parsed := NumberOf(rating);
    if !AcceptedRating(parsed) {
      return Throw(BadRating, 400);
    }
    ghost var before := db.reviews;
    var created := db.CreateReview(bookId, userId, parsed.value, reviewText);
    match created {
      case Err(e) =>
        TextTooLongReply<ReviewCreated>(parsed.value, Text.TrimPath(reviewText));
        reply := Reject(e);
      case Ok(review) =>
        if old(db.Consistent()) {
          ReferencedAddReview(db.users, db.books, before, review);
        }
        reply := Sent(201, ReviewCreated(Populate(db.users, review, false), ReviewStats.StatsForBook(db.reviews, review.bookId)));
    }
  }

  /** After a successful add the new review is the only one of its book by
      its author, and the book's count grows by exactly one. */
  lemma AddedReviewIsTheOnlyOne(before: seq<Review>, created: Review)
    requires forall q :: q in before ==> !ByPair(created.bookId, created.userId)(q)
    ensures forall q :: q in before + [created] && ByPair(created.bookId, created.userId)(q) ==> q == created
    ensures created in ReviewStats.ReviewsOf(before + [created], created.bookId)
    ensures ReviewStats.StatsForBook(before + [created], created.bookId).reviewCount
         == ReviewStats.StatsForBook(before, created.bookId).reviewCount + 1
  {
    Sequences.FilterAppend(before, created, ReviewModel.ForBook(created.bookId));
  }

  /** `PUT /books/:bookId/reviews/:reviewId`. */
  method UpdateReview(db: Db, rawBookId: RawId, rawReviewId: RawId, userId: Id, rating: Option<Num>, reviewText: OptString)
    returns (reply: Reply<ReviewUpdated>)
    requires db.Valid()
    modifies db
    ensures db.Valid()
    ensures old(db.Consistent()) ==> db.Consistent()
    ensures !IsValidId(rawBookId) || !IsValidId(rawReviewId) ==> reply == Rejected(400, InvalidReviewReference) && unchanged(db)
    ensures IsValidId(rawBookId) && IsValidId(rawReviewId) ==>
      var found := Sequences.FindFirst(old(db.reviews), OwnReview(rawReviewId.id, rawBookId.id, userId));
      if found.None? then reply == Rejected(404, ReviewNotFound) && unchanged(db)
      else if rating.Some? && !AcceptedRating(NumberOf(rating)) then reply == Rejected(400, BadRating) && unchanged(db)
      else
        var orig := found.value;
        var newRating := if rating.Some? then NumberOf(rating).value else orig.rating;
        var newText := if !reviewText.Undefined? then Text.TrimPath(reviewText) else orig.reviewText;
        if !ReviewModel.TextFits(newText) then
          reply == Rejected(400, ReviewModel.TextTooLongMessage(newText.value)) && unchanged(db)
        else
          var saved := if newRating == orig.rating && newText == orig.reviewText then orig
                       else orig.(rating := newRating, reviewText := newText, updatedAt := old(db.clock));
          && db.reviews == Sequences.ReplaceBy(old(db.reviews), ReviewModel.ReviewIdOf, saved)
          && db.users == old(db.users) && db.books == old(db.books)
          && reply == Sent(200, ReviewUpdated(Populate(db.users, saved, false), ReviewStats.StatsForBook(db.reviews, orig.bookId)))
  {
    if !IsValidId(rawBookId) || !IsValidId(rawReviewId) {
      return Throw(InvalidReviewReference, 400);
    }
    var found := Sequences.FindFirst(db.reviews, OwnReview(rawReviewId.id, rawBookId.id, userId));
    if found.None? {
      return Throw(ReviewNotFound, 404);
    }
    var orig := found.value;
    var newRating := orig.rating;
    if rating.Some? {
      var parsed := NumberOf(rating);
      if !AcceptedRating(parsed) {
        return Throw(BadRating, 400);
      }
      newRating := parsed.value;
    }
    var newText := if reviewText.Undefined? then orig.reviewText else reviewText;
    assert ReviewRowOk(orig, db.clock, db.nextId);
    StoredTextIsTrimmed(orig);
    ghost var before := db.reviews;
    var saved := db.SaveReview(orig, newRating, newText);
    match saved {
      case Err(e) =>
        TextTooLongReply<ReviewUpdated>(newRating, Text.TrimPath(newText));
        reply := Reject(e);
      case Ok(review) =>
        if old(db.Consistent()) && review != orig {
          ReferencedReplaceReview(db.users, db.books, before, orig, review);
        }
        if review == orig {
          assert db.reviews == Sequences.ReplaceBy(before, ReviewModel.ReviewIdOf, orig) by {
            SameReplace(before, orig);
          }
        }
        reply := Sent(200, ReviewUpdated(Populate(db.users, review, false), ReviewStats.StatsForBook(db.reviews, orig.bookId)));
    }
  }

  lemma StoredTextIsTrimmed(r: Review)
    requires ReviewModel.ValidReview(r)
    ensures Text.TrimPath(r.reviewText) == r.reviewText
  {
    if r.reviewText.Str? { Text.TrimOfTrimmed(r.reviewText.value); }
  }

  /** With an accepted rating, the only validation failure left is an
      over-long text, reported with the schema's message alone, which
      quotes the text. */
  lemma TextTooLongReply<T>(rating: real, text: OptString)
    requires ReviewModel.RatingInRange(rating)
    ensures ReviewModel.ValidationMessages(rating, text) != [] <==> !ReviewModel.TextFits(text)
    ensures !ReviewModel.TextFits(text) ==>
      Reject<T>(ValidationErrorOf(ReviewModel.ValidationMessages(rating, text))) == Rejected(400, ReviewModel.TextTooLongMessage(text.value))
  {
  }

  /** Writing back an unchanged document leaves the collection as it was. */
  lemma SameReplace(reviews: seq<Review>, orig: Review)
    requires orig in reviews && Sequences.DistinctBy(reviews, ReviewModel.ReviewIdOf)
    ensures Sequences.ReplaceBy(reviews, ReviewModel.ReviewIdOf, orig) == reviews
  {
    var k :| 0 <= k < |reviews| && reviews[k] == orig;
    var r := Sequences.ReplaceBy(reviews, ReviewModel.ReviewIdOf, orig);
    forall i | 0 <= i < |reviews| ensures r[i] == reviews[i] {
      if i != k {
        assert ReviewModel.ReviewIdOf(reviews[i]) != ReviewModel.ReviewIdOf(reviews[k]);
      }
    }
  }

  /** An update never moves a review to another book or author, and keeps
      its creation time. */
  lemma UpdateKeepsOwnership(orig: Review, newRating: real, newText: OptString, now: nat)
    ensures var saved := orig.(rating := newRating, reviewText := newText, updatedAt := now);
      saved.id == orig.id && saved.bookId == orig.bookId && saved.userId == orig.userId && saved.createdAt == orig.createdAt
  {
  }

  /** `DELETE /books/:bookId/reviews/:reviewId`. */
  method DeleteReview(db: Db, rawBookId: RawId, rawReviewId: RawId, userId: Id)
    returns (reply: Reply<ReviewDeleted>)
    requires db.Valid()
    modifies db
    ensures db.Valid()
    ensures old(db.Consistent()) ==> db.Consistent()
    ensures !IsValidId(rawBookId) || !IsValidId(rawReviewId) ==> reply == Rejected(400, InvalidReviewReference) && unchanged(db)
    ensures IsValidId(rawBookId) && IsValidId(rawReviewId) ==>
      var found := Sequences.FindFirst(old(db.reviews), OwnReview(rawReviewId.id, rawBookId.id, userId));
      if found.None? then reply == Rejected(404, ReviewNotFound) && unchanged(db)
      else
        && db.reviews == Sequences.Filter(old(db.reviews), ReviewIdIsNot(found.value.id))
        && db.users == old(db.users) && db.books == old(db.books)
        && reply == Sent(200, ReviewDeleted(ReviewDeletedMessage, ReviewStats.StatsForBook(db.reviews, found.value.bookId)))
  {
    if !IsValidId(rawBookId) || !IsValidId(rawReviewId) {
      return Throw(InvalidReviewReference, 400);
    }
    var found := Sequences.FindFirst(db.reviews, OwnReview(rawReviewId.id, rawBookId.id, userId));
    if found.None? {
      return Throw(ReviewNotFound, 404);
    }
    var review := found.value;
    ghost var before := db.reviews;
    db.DeleteReview(review);
    if old(db.Consistent()) {
      ReferencedFilterReviews(db.users, db.books, before, ReviewIdIsNot(review.id));
    }
    reply := Sent(200, ReviewDeleted(ReviewDeletedMessage, ReviewStats.StatsForBook(db.reviews, review.bookId)));
  }

  /** Deleting a stored review removes it and only it, and its book's count
      drops by exactly one. */
  lemma DeletedReviewUncounted(reviews: seq<Review>, x: Review)
    requires Sequences.DistinctBy(reviews, ReviewModel.ReviewIdOf) && x in reviews
    ensures x !in Sequences.Filter(reviews, ReviewIdIsNot(x.id))
    ensures forall q :: q in reviews && q.id != x.id ==> q in Sequences.Filter(reviews, ReviewIdIsNot(x.id))
    ensures ReviewStats.StatsForBook(Sequences.Filter(reviews, ReviewIdIsNot(x.id)), x.bookId).reviewCount + 1
         == ReviewStats.StatsForBook(reviews, x.bookId).reviewCount
  {
    Sequences.FilterRemoveOne(reviews, x, ReviewModel.ReviewIdOf, ReviewIdIsNot(x.id), ReviewModel.ForBook(x.bookId));
  }

  /** `GET /books/:bookId/reviews`. */
  method GetReviews(db: Db, rawBookId: RawId) returns (reply: Reply<ReviewList>)
    ensures !IsValidId(rawBookId) ==> reply == Rejected(400, InvalidBookId)
    ensures IsValidId(rawBookId) && BookModel.FindBook(db.books, rawBookId.id).None? ==> reply == Rejected(404, BookNotFound)
    ensures IsValidId(rawBookId) && BookModel.FindBook(db.books, rawBookId.id).Some? ==>
      reply == Sent(200, ReviewList(ReviewStats.StatsForBook(db.reviews, rawBookId.id),
                                    PopulateAll(db.users, NewestReviewsFirst(ReviewStats.ReviewsOf(db.reviews, rawBookId.id)))))
  {
    if !IsValidId(rawBookId) {
      return Throw(InvalidBookId, 400);
    }
    var bookId := rawBookId.id;
    if BookModel.FindBook(db.books, bookId).None? {
      return Throw(BookNotFound, 404);
    }
    var reviews := PopulateAll(db.users, NewestReviewsFirst(ReviewStats.ReviewsOf(db.reviews, bookId)));
    reply := Sent(200, ReviewList(ReviewStats.StatsForBook(db.reviews, bookId), reviews));
  }

  /** The listed reviews are exactly the book's reviews, each once, newest
      first. */
  lemma ListedReviewsSpec(reviews: seq<Review>, bookId: Id)
    ensures var listed := NewestReviewsFirst(ReviewStats.ReviewsOf(reviews, bookId));
      && (forall r :: r in listed <==> r in reviews && r.bookId == bookId)
      && multiset(listed) == multiset(ReviewStats.ReviewsOf(reviews, bookId))
      && (forall i, j :: 0 <= i < j < |listed| ==> listed[i].createdAt >= listed[j].createdAt)
  {
    var s := ReviewStats.ReviewsOf(reviews, bookId);
    NewestReviewsFirstSpec(s);
    var listed := NewestReviewsFirst(s);
    forall r ensures r in listed <==> r in s {
      assert r in listed <==> r in multiset(listed);
      assert r in s <==> r in multiset(s);
    }
  }
}
