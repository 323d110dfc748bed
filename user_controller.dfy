/** The profile handler: the requester's summary, the books they added and
    the reviews they wrote, read from the store without changing it. */
module UserController {
  import opened Common
  import Sequences
  import UserModel
  import BookModel
  import ReviewModel
  import ReviewStats
  import opened Store

  /** `{ id, name, email, createdAt }` of the requester. */
  datatype UserSummary = UserSummary(id: Id, name: string, email: string, createdAt: nat)

  /** A lean book (with `__v`) decorated with its statistics. */
  datatype ProfileBook = ProfileBook(book: Book, averageRating: Option<real>, reviewCount: nat)

  /** `populate("bookId", "title author genre year")`. */
  datatype BookRef = BookRef(id: Id, title: string, author: OptString, genre: OptString, year: Option<real>)

  /** A lean review whose `bookId` is populated (null when the book is not
      stored), with `book` a copy of it. */
  datatype ProfileReview = ProfileReview(
    id: Id,
    bookId: Option<BookRef>,
    userId: Id,
    rating: real,
    reviewText: OptString,
    createdAt: nat,
    updatedAt: nat,
    version: nat,
    book: Option<BookRef>)

  datatype ProfileBody = ProfileBody(user: UserSummary, books: seq<ProfileBook>, reviews: seq<ProfileReview>)

  function BookRefOf(books: seq<Book>, id: Id): Option<BookRef> {
    match BookModel.FindBook(books, id)
    case None => None
    case Some(b) => Some(BookRef(b.id, b.title, b.author, b.genre, b.year))
  }

  function ProfileBookOf(statsMap: map<Id, ReviewStats.Summary>, b: Book): ProfileBook {
    var stats := ReviewStats.Decoration(statsMap, b.id);
    ProfileBook(b, stats.averageRating, stats.reviewCount)
  }

  function ProfileReviewOf(books: seq<Book>, r: Review): ProfileReview {
    var ref := BookRefOf(books, r.bookId);
    ProfileReview(r.id, ref, r.userId, r.rating, r.reviewText, r.createdAt, r.updatedAt, r.version, ref)
  }

  /** The requester's books, newest first (`Book.find({ addedBy }).sort({ createdAt: -1 })`). */
  function OwnBooksRaw(books: seq<Book>, me: Id): seq<Book> {
    NewestBooksFirst(Sequences.Filter(books, AddedBy(me)))
  }

  /** The requester's reviews, newest first (`Review.find({ userId }).sort({ createdAt: -1 })`). */
  function OwnReviewsRaw(reviews: seq<Review>, me: Id): seq<Review> {
    NewestReviewsFirst(Sequences.Filter(reviews, ByAuthor(me)))
  }

  /** `booksRaw.map(...)`, decorated from the bulk statistics of those books. */
  function DecorateOwn(reviews: seq<Review>, booksRaw: seq<Book>): (listed: seq<ProfileBook>)
    ensures |listed| == |booksRaw|
    ensures forall i :: 0 <= i < |booksRaw| ==>
      listed[i] == ProfileBookOf(ReviewStats.StatsForBooks(reviews, BookIds(booksRaw)), booksRaw[i])
  {
    var statsMap := ReviewStats.StatsForBooks(reviews, BookIds(booksRaw));
    seq(|booksRaw|, i requires 0 <= i < |booksRaw| => ProfileBookOf(statsMap, booksRaw[i]))
  }

  /** `reviewsRaw.map(review => ({ ...review, book: review.bookId }))`. */
  function WithBooks(books: seq<Book>, reviewsRaw: seq<Review>): (listed: seq<ProfileReview>)
    ensures |listed| == |reviewsRaw|
    ensures forall i :: 0 <= i < |reviewsRaw| ==> listed[i] == ProfileReviewOf(books, reviewsRaw[i])
  {
    seq(|reviewsRaw|, i requires 0 <= i < |reviewsRaw| => ProfileReviewOf(books, reviewsRaw[i]))
  }

  /** `getCurrentUserProfile` for the requester `me`. */
  function Profile(books: seq<Book>, reviews: seq<Review>, me: User): ProfileBody {
    ProfileBody(
      UserSummary(me.id, me.name, me.email, me.createdAt),
      DecorateOwn(reviews, OwnBooksRaw(books, me.id)),
      WithBooks(books, OwnReviewsRaw(reviews, me.id)))
  }

  /** The books are exactly those the requester added, each once, newest
      first. */
  lemma ProfileBooksSpec(books: seq<Book>, reviews: seq<Review>, me: User)
    ensures var listed, raw := Profile(books, reviews, me).books, OwnBooksRaw(books, me.id);
      && |listed| == |raw|
      && (forall i :: 0 <= i < |listed| ==> listed[i].book == raw[i])
      && multiset(raw) == multiset(Sequences.Filter(books, AddedBy(me.id)))
      && (forall b :: b in raw <==> b in books && b.addedBy == me.id)
      && (forall i, j :: 0 <= i < j < |listed| ==> listed[i].book.createdAt >= listed[j].book.createdAt)
  {
    var own := Sequences.Filter(books, AddedBy(me.id));
    var raw := OwnBooksRaw(books, me.id);
    NewestBooksFirstSpec(own);
    forall b ensures b in raw <==> b in own {
      assert b in raw <==> b in multiset(raw);
      assert b in own <==> b in multiset(own);
    }
  }

  /** Each book carries the average and count of the single-book
      statistics: null and 0 when it has no reviews. */
  lemma ProfileBooksStats(books: seq<Book>, reviews: seq<Review>, me: User, i: nat)
    requires i < |Profile(books, reviews, me).books|
    ensures var x := Profile(books, reviews, me).books[i];
      && x.averageRating == ReviewStats.StatsForBook(reviews, x.book.id).averageRating
      && x.reviewCount == ReviewStats.StatsForBook(reviews, x.book.id).reviewCount
  {
    var raw := OwnBooksRaw(books, me.id);
    assert BookIds(raw)[i] == raw[i].id;
    ReviewStats.DecorationAgreesWithSingle(reviews, BookIds(raw), raw[i].id);
  }

  /** The reviews are exactly those the requester wrote, each once, newest
      first. */
  lemma ProfileReviewsSpec(books: seq<Book>, reviews: seq<Review>, me: User)
    ensures var listed, mine := Profile(books, reviews, me).reviews, OwnReviewsRaw(reviews, me.id);
      && |listed| == |mine|
      && (forall i :: 0 <= i < |listed| ==> listed[i].id == mine[i].id)
      && multiset(mine) == multiset(Sequences.Filter(reviews, ByAuthor(me.id)))
      && (forall r :: r in mine <==> r in reviews && r.userId == me.id)
      && (forall i, j :: 0 <= i < j < |listed| ==> listed[i].createdAt >= listed[j].createdAt)
  {
    var own := Sequences.Filter(reviews, ByAuthor(me.id));
    var mine := OwnReviewsRaw(reviews, me.id);
    NewestReviewsFirstSpec(own);
    forall r ensures r in mine <==> r in own {
      assert r in mine <==> r in multiset(mine);
      assert r in own <==> r in multiset(own);
    }
  }

  /** Each listed review keeps its own fields and its author, and has `book`
      equal to its populated `bookId`, which is its stored book's reference
      when there is one. */
  lemma ProfileReviewFields(books: seq<Book>, reviews: seq<Review>, me: User, i: nat)
    requires i < |OwnReviewsRaw(reviews, me.id)|
    ensures var x, r := Profile(books, reviews, me).reviews[i], OwnReviewsRaw(reviews, me.id)[i];
      && x.id == r.id && x.userId == me.id && x.rating == r.rating && x.reviewText == r.reviewText
      && x.createdAt == r.createdAt && x.updatedAt == r.updatedAt && x.version == r.version
      && x.book == x.bookId
      && (BookModel.HasBook(books, r.bookId) ==> x.book.Some? && x.book.value.id == r.bookId)
  {
    var own := Sequences.Filter(reviews, ByAuthor(me.id));
    var mine := OwnReviewsRaw(reviews, me.id);
    assert mine[i] in multiset(mine);
    assert mine[i] in own;
    if BookModel.HasBook(books, mine[i].bookId) {
      assert BookModel.FindBook(books, mine[i].bookId).Some?;
    }
  }

  /** The summary exposes the requester's id, name, email and creation time
      and nothing else: no password, whatever it is. */
  lemma ProfileUserSpec(books: seq<Book>, reviews: seq<Review>, me: User, password: string)
    ensures Profile(books, reviews, me).user == UserSummary(me.id, me.name, me.email, me.createdAt)
    ensures Profile(books, reviews, me.(password := password)) == Profile(books, reviews, me)
  {
  }
}
