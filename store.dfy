/** The database the controllers talk to: the three collections, the
    schema validation and unique indexes mongoose and mongo enforce on every
    write, the timestamps, and the queries the controllers issue.

    `clock` stands for the time of the next write (each write takes it and
    advances it, so `createdAt` grows with insertion order) and `nextId` for
    the next ObjectId generated. */
module Store {
  import opened Common
  import Text
  import Sequences
  import UserModel
  import BookModel
  import ReviewModel

  type User = UserModel.User
  type Book = BookModel.Book
  type Review = ReviewModel.Review

  // ---------------------------------------------------------------------
  // What the schemas and indexes guarantee of a stored collection

  predicate UserRowOk(u: User, clock: nat, nextId: nat) {
    UserModel.ValidUser(u) && u.id < nextId && u.createdAt <= u.updatedAt < clock
  }

  predicate UsersOk(users: seq<User>, clock: nat, nextId: nat) {
    && (forall u :: u in users ==> UserRowOk(u, clock, nextId))
    && Sequences.DistinctBy(users, UserModel.UserIdOf)
    && UserModel.UniqueEmails(users)
  }

  predicate BookRowOk(b: Book, clock: nat, nextId: nat) {
    BookModel.ValidBook(b) && b.id < nextId && b.createdAt <= b.updatedAt < clock
  }

  predicate BooksOk(books: seq<Book>, clock: nat, nextId: nat) {
    && (forall b :: b in books ==> BookRowOk(b, clock, nextId))
    && Sequences.DistinctBy(books, BookModel.BookIdOf)
  }

  predicate ReviewRowOk(r: Review, clock: nat, nextId: nat) {
    ReviewModel.ValidReview(r) && r.id < nextId && r.createdAt <= r.updatedAt < clock
  }

  predicate ReviewsOk(reviews: seq<Review>, clock: nat, nextId: nat) {
    && (forall r :: r in reviews ==> ReviewRowOk(r, clock, nextId))
    && Sequences.DistinctBy(reviews, ReviewModel.ReviewIdOf)
    && ReviewModel.UniquePerBookAndUser(reviews)
  }

  /** Every reference points at a stored document: each book's `addedBy`, each
      review's `bookId` and `userId`. The store does not enforce this; the
      controllers keep it. */
  predicate Referenced(users: seq<User>, books: seq<Book>, reviews: seq<Review>) {
    && (forall b :: b in books ==> UserModel.HasUser(users, b.addedBy))
    && (forall r :: r in reviews ==> BookModel.HasBook(books, r.bookId) && UserModel.HasUser(users, r.userId))
  }

  // ---------------------------------------------------------------------
  // Query conditions

  /** `{ bookId, userId }`. */
  function ByPair(bookId: Id, userId: Id): Review -> bool {
    (r: Review) => r.bookId == bookId && r.userId == userId
  }

  /** `{ _id, bookId, userId }`: the requester's own review of the book. */
  function OwnReview(id: Id, bookId: Id, userId: Id): Review -> bool {
    (r: Review) => r.id == id && r.bookId == bookId && r.userId == userId
  }

  function ByAuthor(userId: Id): Review -> bool {
    (r: Review) => r.userId == userId
  }

  function AddedBy(userId: Id): Book -> bool {
    (b: Book) => b.addedBy == userId
  }

  function ReviewIdIsNot(id: Id): Review -> bool {
    (r: Review) => r.id != id
  }

  function NotForBook(bookId: Id): Review -> bool {
    (r: Review) => r.bookId != bookId
  }

  function BookIdIsNot(id: Id): Book -> bool {
    (b: Book) => b.id != id
  }

  /** `books.map((book) => book._id)`. */
  function BookIds(s: seq<Book>): (ids: seq<Id>)
    ensures |ids| == |s|
    ensures forall i :: 0 <= i < |s| ==> ids[i] == s[i].id
  {
    seq(|s|, i requires 0 <= i < |s| => s[i].id)
  }

  /** `.sort({ createdAt: -1 })`. */
  function ReviewNewer(): (Review, Review) -> bool {
    (a: Review, b: Review) => a.createdAt >= b.createdAt
  }

  function BookNewer(): (Book, Book) -> bool {
    (a: Book, b: Book) => a.createdAt >= b.createdAt
  }

  function NewestReviewsFirst(s: seq<Review>): seq<Review> {
    Sequences.SortBy(s, ReviewNewer())
  }

  function NewestBooksFirst(s: seq<Book>): seq<Book> {
    Sequences.SortBy(s, BookNewer())
  }

  /** Newest first is a permutation ordered by descending `createdAt`. */
  lemma NewestReviewsFirstSpec(s: seq<Review>)
    ensures multiset(NewestReviewsFirst(s)) == multiset(s)
    ensures forall i, j :: 0 <= i < j < |NewestReviewsFirst(s)| ==>
      NewestReviewsFirst(s)[i].createdAt >= NewestReviewsFirst(s)[j].createdAt
  {
    Sequences.SortBySorted(s, ReviewNewer());
  }

  lemma NewestBooksFirstSpec(s: seq<Book>)
    ensures multiset(NewestBooksFirst(s)) == multiset(s)
    ensures forall i, j :: 0 <= i < j < |NewestBooksFirst(s)| ==>
      NewestBooksFirst(s)[i].createdAt >= NewestBooksFirst(s)[j].createdAt
  {
    Sequences.SortBySorted(s, BookNewer());
  }

  // ---------------------------------------------------------------------
  // Populated query results

  /** A review with `userId` populated with the author's name. `version` is
      `__v`, which only lean query results carry. */
  datatype ReviewView = ReviewView(
    id: Id,
    bookId: Id,
    user: Option<UserModel.Author>,
    rating: real,
    reviewText: OptString,
    createdAt: nat,
    updatedAt: nat,
    version: Option<nat>)

  /** `populate("userId", "name")`, serialised by `toJSON` (`lean` false) or
      returned by a lean query (`lean` true). */
  function Populate(users: seq<User>, r: Review, lean: bool): ReviewView {
    ReviewView(r.id, r.bookId, UserModel.AuthorOf(users, r.userId), r.rating, r.reviewText,
               r.createdAt, r.updatedAt, if lean then Some(r.version) else None)
  }

  function PopulateAll(users: seq<User>, s: seq<Review>): (views: seq<ReviewView>)
    ensures |views| == |s|
    ensures forall i :: 0 <= i < |s| ==> views[i] == Populate(users, s[i], true)
  {
    seq(|s|, i requires 0 <= i < |s| => Populate(users, s[i], true))
  }

  /** The view shows the review's own fields and, where the author is
      stored, the author's id and name. */
  lemma PopulateShowsReview(users: seq<User>, r: Review, lean: bool)
    ensures var v := Populate(users, r, lean);
      && v.id == r.id && v.bookId == r.bookId && v.rating == r.rating && v.reviewText == r.reviewText
      && v.createdAt == r.createdAt && v.updatedAt == r.updatedAt
      && (v.version.Some? <==> lean)
      && (UserModel.HasUser(users, r.userId) ==> v.user.Some? && v.user.value.id == r.userId)
  {
    if UserModel.HasUser(users, r.userId) {
      var u :| u in users && u.id == r.userId;
      assert UserModel.FindUser(users, r.userId).Some?;
    }
  }

  // ---------------------------------------------------------------------
  // How writes keep the guarantees

  lemma UsersOkAppend(users: seq<User>, u: User, clock: nat, nextId: nat)
    requires UsersOk(users, clock, nextId)
    requires UserRowOk(u, clock + 1, nextId + 1) && u.id == nextId
    requires forall v :: v in users ==> v.email != u.email
    ensures UsersOk(users + [u], clock + 1, nextId + 1)
  {
    forall i | 0 <= i < |users| ensures UserModel.UserIdOf(users[i]) != UserModel.UserIdOf(u) && UserModel.EmailOf(users[i]) != UserModel.EmailOf(u) {
      assert users[i] in users;
    }
    Sequences.DistinctByAppend(users, u, UserModel.UserIdOf);
    Sequences.DistinctByAppend(users, u, UserModel.EmailOf);
  }

  /** A user built from inputs that pass validation satisfies the schema. */
  lemma NewUserRowOk(name: string, email: string, password: string, u: User, clock: nat, nextId: nat)
    requires UserModel.ValidationMessages(Text.Trim(name), UserModel.NormalizeEmail(email), password) == []
    requires u.name == Text.Trim(name) && u.email == UserModel.NormalizeEmail(email)
    requires u.id == nextId && u.createdAt == u.updatedAt == clock
    ensures UserRowOk(u, clock + 1, nextId + 1)
  {
    Text.TrimIsTrimmed(name);
    UserModel.NormalizeEmailShape(email);
  }

  lemma BooksOkGrow(books: seq<Book>, clock: nat, nextId: nat, clock': nat, nextId': nat)
    requires BooksOk(books, clock, nextId) && clock <= clock' && nextId <= nextId'
    ensures BooksOk(books, clock', nextId')
  {
  }

  lemma ReviewsOkGrow(reviews: seq<Review>, clock: nat, nextId: nat, clock': nat, nextId': nat)
    requires ReviewsOk(reviews, clock, nextId) && clock <= clock' && nextId <= nextId'
    ensures ReviewsOk(reviews, clock', nextId')
  {
  }

  lemma UsersOkGrow(users: seq<User>, clock: nat, nextId: nat, clock': nat, nextId': nat)
    requires UsersOk(users, clock, nextId) && clock <= clock' && nextId <= nextId'
    ensures UsersOk(users, clock', nextId')
  {
  }

  lemma BooksOkAppend(books: seq<Book>, b: Book, clock: nat, nextId: nat)
    requires BooksOk(books, clock, nextId)
    requires BookRowOk(b, clock + 1, nextId + 1) && b.id == nextId
    ensures BooksOk(books + [b], clock + 1, nextId + 1)
  {
    forall i | 0 <= i < |books| ensures BookModel.BookIdOf(books[i]) != BookModel.BookIdOf(b) {
      assert books[i] in books;
    }
    Sequences.DistinctByAppend(books, b, BookModel.BookIdOf);
  }

  lemma ReviewsOkAppend(reviews: seq<Review>, r: Review, clock: nat, nextId: nat)
    requires ReviewsOk(reviews, clock, nextId)
    requires ReviewRowOk(r, clock + 1, nextId + 1) && r.id == nextId
    requires forall q :: q in reviews ==> !ByPair(r.bookId, r.userId)(q)
    ensures ReviewsOk(reviews + [r], clock + 1, nextId + 1)
  {
    forall i | 0 <= i < |reviews|
      ensures ReviewModel.ReviewIdOf(reviews[i]) != ReviewModel.ReviewIdOf(r)
      ensures ReviewModel.BookAndUser(reviews[i]) != ReviewModel.BookAndUser(r)
    {
      assert reviews[i] in reviews;
      assert !ByPair(r.bookId, r.userId)(reviews[i]);
    }
    Sequences.DistinctByAppend(reviews, r, ReviewModel.ReviewIdOf);
    Sequences.DistinctByAppend(reviews, r, ReviewModel.BookAndUser);
  }

  lemma BooksOkReplace(books: seq<Book>, nb: Book, clock: nat, nextId: nat)
    requires BooksOk(books, clock, nextId)
    requires BookRowOk(nb, clock + 1, nextId)
    ensures BooksOk(Sequences.ReplaceBy(books, BookModel.BookIdOf, nb), clock + 1, nextId)
  {
    var r := Sequences.ReplaceBy(books, BookModel.BookIdOf, nb);
    forall b | b in r ensures BookRowOk(b, clock + 1, nextId) {
      var i :| 0 <= i < |r| && r[i] == b;
      assert books[i] in books;
    }
    Sequences.ReplaceKeepsDistinct(books, BookModel.BookIdOf, nb, BookModel.BookIdOf);
  }

  lemma ReviewsOkReplace(reviews: seq<Review>, orig: Review, nr: Review, clock: nat, nextId: nat)
    requires ReviewsOk(reviews, clock, nextId)
    requires orig in reviews && nr.id == orig.id && nr.bookId == orig.bookId && nr.userId == orig.userId
    requires ReviewRowOk(nr, clock + 1, nextId)
    ensures ReviewsOk(Sequences.ReplaceBy(reviews, ReviewModel.ReviewIdOf, nr), clock + 1, nextId)
  {
    var r := Sequences.ReplaceBy(reviews, ReviewModel.ReviewIdOf, nr);
    forall q | q in r ensures ReviewRowOk(q, clock + 1, nextId) {
      var i :| 0 <= i < |r| && r[i] == q;
      assert reviews[i] in reviews;
    }
    forall i | 0 <= i < |reviews| && reviews[i].id == nr.id ensures reviews[i] == orig {
      var k :| 0 <= k < |reviews| && reviews[k] == orig;
      assert ReviewModel.ReviewIdOf(reviews[i]) == ReviewModel.ReviewIdOf(reviews[k]);
    }
    Sequences.ReplaceKeepsDistinct(reviews, ReviewModel.ReviewIdOf, nr, ReviewModel.ReviewIdOf);
    Sequences.ReplaceKeepsDistinct(reviews, ReviewModel.ReviewIdOf, nr, ReviewModel.BookAndUser);
  }

  /** Saving an edited review, one tick later, keeps every collection valid. */
  lemma SaveReviewOk(users: seq<User>, books: seq<Book>, reviews: seq<Review>, orig: Review, nr: Review, clock: nat, nextId: nat)
    requires UsersOk(users, clock, nextId) && BooksOk(books, clock, nextId) && ReviewsOk(reviews, clock, nextId)
    requires orig in reviews && nr == orig.(rating := nr.rating, reviewText := nr.reviewText, updatedAt := clock)
    requires ReviewModel.ValidReview(nr)
    ensures UsersOk(users, clock + 1, nextId) && BooksOk(books, clock + 1, nextId)
    ensures ReviewsOk(Sequences.ReplaceBy(reviews, ReviewModel.ReviewIdOf, nr), clock + 1, nextId)
  {
    assert ReviewRowOk(orig, clock, nextId);
    ReviewsOkReplace(reviews, orig, nr, clock, nextId);
    UsersOkGrow(users, clock, nextId, clock + 1, nextId);
    BooksOkGrow(books, clock, nextId, clock + 1, nextId);
  }

  lemma ReviewsOkFilter(reviews: seq<Review>, p: Review -> bool, clock: nat, nextId: nat)
    requires ReviewsOk(reviews, clock, nextId)
    ensures ReviewsOk(Sequences.Filter(reviews, p), clock, nextId)
  {
    Sequences.FilterDistinctBy(reviews, p, ReviewModel.ReviewIdOf);
    Sequences.FilterDistinctBy(reviews, p, ReviewModel.BookAndUser);
  }

  lemma BooksOkFilter(books: seq<Book>, p: Book -> bool, clock: nat, nextId: nat)
    requires BooksOk(books, clock, nextId)
    ensures BooksOk(Sequences.Filter(books, p), clock, nextId)
  {
    Sequences.FilterDistinctBy(books, p, BookModel.BookIdOf);
  }

  // ---------------------------------------------------------------------
  // How the controllers' writes keep every reference resolvable

  lemma ReferencedAddUser(users: seq<User>, books: seq<Book>, reviews: seq<Review>, u: User)
    requires Referenced(users, books, reviews)
    ensures Referenced(users + [u], books, reviews)
  {
    forall id | UserModel.HasUser(users, id) ensures UserModel.HasUser(users + [u], id) {
      var v :| v in users && v.id == id;
      assert v in users + [u];
    }
  }

  lemma ReferencedAddBook(users: seq<User>, books: seq<Book>, reviews: seq<Review>, b: Book)
    requires Referenced(users, books, reviews) && UserModel.HasUser(users, b.addedBy)
    ensures Referenced(users, books + [b], reviews)
  {
    forall id | BookModel.HasBook(books, id) ensures BookModel.HasBook(books + [b], id) {
      var c :| c in books && c.id == id;
      assert c in books + [b];
    }
  }

  lemma ReferencedReplaceBook(users: seq<User>, books: seq<Book>, reviews: seq<Review>, orig: Book, nb: Book)
    requires Referenced(users, books, reviews) && orig in books && nb.id == orig.id && nb.addedBy == orig.addedBy
    ensures Referenced(users, Sequences.ReplaceBy(books, BookModel.BookIdOf, nb), reviews)
  {
    var r := Sequences.ReplaceBy(books, BookModel.BookIdOf, nb);
    forall b | b in r ensures UserModel.HasUser(users, b.addedBy) {
      var i :| 0 <= i < |r| && r[i] == b;
      assert books[i] in books;
    }
    forall id | BookModel.HasBook(books, id) ensures BookModel.HasBook(r, id) {
      var c :| c in books && c.id == id;
      var i :| 0 <= i < |books| && books[i] == c;
      assert r[i].id == id;
      assert r[i] in r;
    }
  }

  /** Removing a book none of whose reviews remain keeps every review's book. */
  lemma ReferencedRemoveBook(users: seq<User>, books: seq<Book>, reviews: seq<Review>, id: Id)
    requires Referenced(users, books, reviews)
    requires forall r :: r in reviews ==> r.bookId != id
    ensures Referenced(users, Sequences.Filter(books, BookIdIsNot(id)), reviews)
  {
    var kept := Sequences.Filter(books, BookIdIsNot(id));
    forall r | r in reviews ensures BookModel.HasBook(kept, r.bookId) {
      var c :| c in books && c.id == r.bookId;
      assert c in kept;
    }
  }

  lemma ReferencedAddReview(users: seq<User>, books: seq<Book>, reviews: seq<Review>, r: Review)
    requires Referenced(users, books, reviews)
    requires BookModel.HasBook(books, r.bookId) && UserModel.HasUser(users, r.userId)
    ensures Referenced(users, books, reviews + [r])
  {
  }

  lemma ReferencedReplaceReview(users: seq<User>, books: seq<Book>, reviews: seq<Review>, orig: Review, nr: Review)
    requires Referenced(users, books, reviews) && orig in reviews
    requires nr.bookId == orig.bookId && nr.userId == orig.userId
    ensures Referenced(users, books, Sequences.ReplaceBy(reviews, ReviewModel.ReviewIdOf, nr))
  {
    var r := Sequences.ReplaceBy(reviews, ReviewModel.ReviewIdOf, nr);
    forall q | q in r ensures BookModel.HasBook(books, q.bookId) && UserModel.HasUser(users, q.userId) {
      var i :| 0 <= i < |r| && r[i] == q;
      assert reviews[i] in reviews;
    }
  }

  lemma ReferencedFilterReviews(users: seq<User>, books: seq<Book>, reviews: seq<Review>, p: Review -> bool)
    requires Referenced(users, books, reviews)
    ensures Referenced(users, books, Sequences.Filter(reviews, p))
  {
  }

  // ---------------------------------------------------------------------
  // The database

  class Db {
    var users: seq<User>
    var books: seq<Book>
    var reviews: seq<Review>
    var clock: nat
    var nextId: nat

    ghost predicate Valid()
      reads this
    {
      UsersOk(users, clock, nextId) && BooksOk(books, clock, nextId) && ReviewsOk(reviews, clock, nextId)
    }

    ghost predicate Consistent()
      reads this
    {
      Referenced(users, books, reviews)
    }

    constructor ()
      ensures Valid() && Consistent()
      ensures users == [] && books == [] && reviews == []
    {
      users, books, reviews := [], [], [];
      clock, nextId := 0, 0;
    }

    /** `User.create({ name, email, password })`: the setters trim the name
        and lower-case and trim the email, the validators run on the clear
        password, the pre-save hook stores its hash, and the unique index on
        `email` refuses a second account. */
    method CreateUser(name: string, email: string, password: string, hash: string -> string)
      returns (r: Result<User>)
      requires Valid()
      modifies this
      ensures Valid()
      ensures var n, e := Text.Trim(name), UserModel.NormalizeEmail(email);
        var msgs := UserModel.ValidationMessages(n, e, password);
        if msgs != [] then r == Err(ValidationErrorOf(msgs)) && unchanged(this)
        else if UserModel.FindByEmail(old(users), e).Some? then r == Err(DuplicateKeyErrorOf(["email"])) && unchanged(this)
        else
          && r == Ok(UserModel.User(old(nextId), n, e, hash(password), old(clock), old(clock), 0))
          && users == old(users) + [r.value] && books == old(books) && reviews == old(reviews)
          && clock == old(clock) + 1 && nextId == old(nextId) + 1
    {
      var n, e := Text.Trim(name), UserModel.NormalizeEmail(email);
      var msgs := UserModel.ValidationMessages(n, e, password);
      if msgs != [] {
        return Err(ValidationErrorOf(msgs));
      }
      if UserModel.FindByEmail(users, e).Some? {
        return Err(DuplicateKeyErrorOf(["email"]));
      }
      var u := UserModel.User(nextId, n, e, UserModel.PreSavePassword(password, true, hash), clock, clock, 0);
      NewUserRowOk(name, email, password, u, clock, nextId);
      UsersOkAppend(users, u, clock, nextId);
      BooksOkGrow(books, clock, nextId, clock + 1, nextId + 1);
      ReviewsOkGrow(reviews, clock, nextId, clock + 1, nextId + 1);
      users := users + [u];
      clock, nextId := clock + 1, nextId + 1;
      r := Ok(u);
    }

    /** `Book.create(fields)`: the setters trim the string fields and the
        validators require a title and a non-negative year. */
    method CreateBook(draft: BookModel.BookDraft, addedBy: Id) returns (r: Result<Book>)
      requires Valid()
      modifies this
      ensures Valid()
      ensures var d := BookModel.TrimDraft(draft);
        var msgs := BookModel.ValidationMessages(d);
        if msgs != [] then r == Err(ValidationErrorOf(msgs)) && unchanged(this)
        else
          && r == Ok(BookModel.Book(old(nextId), d.title.value, d.author, d.description, d.genre, d.year,
                                    addedBy, old(clock), old(clock), 0))
          && books == old(books) + [r.value] && users == old(users) && reviews == old(reviews)
          && clock == old(clock) + 1 && nextId == old(nextId) + 1
    {
      var d := BookModel.TrimDraft(draft);
      var msgs := BookModel.ValidationMessages(d);
      if msgs != [] {
        return Err(ValidationErrorOf(msgs));
      }
      var b := BookModel.Book(nextId, d.title.value, d.author, d.description, d.genre, d.year, addedBy, clock, clock, 0);
      BookModel.TrimDraftTrimmed(draft);
      BooksOkAppend(books, b, clock, nextId);
      UsersOkGrow(users, clock, nextId, clock + 1, nextId + 1);
      ReviewsOkGrow(reviews, clock, nextId, clock + 1, nextId + 1);
      books := books + [b];
      clock, nextId := clock + 1, nextId + 1;
      r := Ok(b);
    }

    /** `book.save()` after its editable fields were assigned `draft`: the
        setters trim, nothing is written when no field changed, otherwise
        the validators run and `updatedAt` is the time of the write. */
    method SaveBook(orig: Book, draft: BookModel.BookDraft) returns (r: Result<Book>)
      requires Valid() && orig in books
      modifies this
      ensures Valid()
      ensures var d := BookModel.TrimDraft(draft);
        var msgs := BookModel.ValidationMessages(d);
        if d == BookModel.DraftOf(orig) then r == Ok(orig) && unchanged(this)
        else if msgs != [] then r == Err(ValidationErrorOf(msgs)) && unchanged(this)
        else
          && r == Ok(orig.(title := d.title.value, author := d.author, description := d.description,
                           genre := d.genre, year := d.year, updatedAt := old(clock)))
          && books == Sequences.ReplaceBy(old(books), BookModel.BookIdOf, r.value)
          && users == old(users) && reviews == old(reviews)
          && clock == old(clock) + 1 && nextId == old(nextId)
    {
      var d := BookModel.TrimDraft(draft);
      if d == BookModel.DraftOf(orig) {
        return Ok(orig);
      }
      var msgs := BookModel.ValidationMessages(d);
      if msgs != [] {
        return Err(ValidationErrorOf(msgs));
      }
      var b := orig.(title := d.title.value, author := d.author, description := d.description,
                     genre := d.genre, year := d.year, updatedAt := clock);
      BookModel.TrimDraftTrimmed(draft);
      BooksOkReplace(books, b, clock, nextId);
      UsersOkGrow(users, clock, nextId, clock + 1, nextId);
      ReviewsOkGrow(reviews, clock, nextId, clock + 1, nextId);
      books := Sequences.ReplaceBy(books, BookModel.BookIdOf, b);
      clock := clock + 1;
      r := Ok(b);
    }

    /** `book.deleteOne()`. */
    method DeleteBook(b: Book)
      requires Valid()
      modifies this`books
      ensures Valid()
      ensures books == Sequences.Filter(old(books), BookIdIsNot(b.id))
    {
      BooksOkFilter(books, BookIdIsNot(b.id), clock, nextId);
      books := Sequences.Filter(books, BookIdIsNot(b.id));
    }

    /** `Review.create(fields)`: the setter trims the text, the validators
        check the rating and the length, and the unique index on
        (bookId, userId) refuses a second review. */
    method CreateReview(bookId: Id, userId: Id, rating: real, reviewText: OptString)
      returns (r: Result<Review>)
      requires Valid()
      modifies this
      ensures Valid()
      ensures var t := Text.TrimPath(reviewText);
        var msgs := ReviewModel.ValidationMessages(rating, t);
        if msgs != [] then r == Err(ValidationErrorOf(msgs)) && unchanged(this)
        else if Sequences.FindFirst(old(reviews), ByPair(bookId, userId)).Some? then
          r == Err(DuplicateKeyErrorOf(["bookId", "userId"])) && unchanged(this)
        else
          && r == Ok(ReviewModel.Review(old(nextId), bookId, userId, rating, t, old(clock), old(clock), 0))
          && reviews == old(reviews) + [r.value] && users == old(users) && books == old(books)
          && clock == old(clock) + 1 && nextId == old(nextId) + 1
    {
      var t := Text.TrimPath(reviewText);
      var msgs := ReviewModel.ValidationMessages(rating, t);
      if msgs != [] {
        return Err(ValidationErrorOf(msgs));
      }
      if Sequences.FindFirst(reviews, ByPair(bookId, userId)).Some? {
        return Err(DuplicateKeyErrorOf(["bookId", "userId"]));
      }
      var rv := ReviewModel.Review(nextId, bookId, userId, rating, t, clock, clock, 0);
      Text.TrimPathTrimmed(reviewText);
      ReviewsOkAppend(reviews, rv, clock, nextId);
      UsersOkGrow(users, clock, nextId, clock + 1, nextId + 1);
      BooksOkGrow(books, clock, nextId, clock + 1, nextId + 1);
      reviews := reviews + [rv];
      clock, nextId := clock + 1, nextId + 1;
      r := Ok(rv);
    }

    /** `review.save()` after `rating` and `reviewText` were assigned. */
    method SaveReview(orig: Review, rating: real, reviewText: OptString) returns (r: Result<Review>)
      requires Valid() && orig in reviews
      modifies this
      ensures Valid()
      ensures var t := Text.TrimPath(reviewText);
        var msgs := ReviewModel.ValidationMessages(rating, t);
        if rating == orig.rating && t == orig.reviewText then r == Ok(orig) && unchanged(this)
        else if msgs != [] then r == Err(ValidationErrorOf(msgs)) && unchanged(this)
        else
          && r == Ok(orig.(rating := rating, reviewText := t, updatedAt := old(clock)))
          && reviews == Sequences.ReplaceBy(old(reviews), ReviewModel.ReviewIdOf, r.value)
          && users == old(users) && books == old(books)
          && clock == old(clock) + 1 && nextId == old(nextId)
    {
      var t := Text.TrimPath(reviewText);
      if rating == orig.rating && t == orig.reviewText {
        return Ok(orig);
      }
      var msgs := ReviewModel.ValidationMessages(rating, t);
      if msgs != [] {
        return Err(ValidationErrorOf(msgs));
      }
      var rv := orig.(rating := rating, reviewText := t, updatedAt := clock);
      Text.TrimPathTrimmed(reviewText);
      SaveReviewOk(users, books, reviews, orig, rv, clock, nextId);
      reviews := Sequences.ReplaceBy(reviews, ReviewModel.ReviewIdOf, rv);
      clock := clock + 1;
      r := Ok(rv);
    }

    /** `review.deleteOne()`. */
    method DeleteReview(rv: Review)
      requires Valid()
      modifies this`reviews
      ensures Valid()
      ensures reviews == Sequences.Filter(old(reviews), ReviewIdIsNot(rv.id))
    {
      ReviewsOkFilter(reviews, ReviewIdIsNot(rv.id), clock, nextId);
      reviews := Sequences.Filter(reviews, ReviewIdIsNot(rv.id));
    }

    /** `Review.deleteMany({ bookId })`, answering `deletedCount`. */
    method DeleteReviewsOfBook(bookId: Id) returns (deletedCount: nat)
      requires Valid()
      modifies this`reviews
      ensures Valid()
      ensures reviews == Sequences.Filter(old(reviews), NotForBook(bookId))
      ensures deletedCount == |Sequences.Filter(old(reviews), ReviewModel.ForBook(bookId))|
      ensures forall r :: r in reviews ==> r.bookId != bookId
    {
      ReviewsOkFilter(reviews, NotForBook(bookId), clock, nextId);
      Sequences.FilterSplit(reviews, ReviewModel.ForBook(bookId), NotForBook(bookId));
      var kept := Sequences.Filter(reviews, NotForBook(bookId));
      deletedCount := |reviews| - |kept|;
      reviews := kept;
    }
  }
}
