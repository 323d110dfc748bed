/** The book handlers: add a book, list books a page at a time, show one
    book, and let its owner update or delete it. `me` is the authenticated
    requester (`req.user._id`), a stored user. */
module BookController {
  import opened Common
  import Text
  import Sequences
  import UserModel
  import BookModel
  import ReviewModel
  import ReviewStats
  import opened ErrorMiddleware
  import opened Store

  const InvalidBookId := "Invalid book id"
  const BookNotFound := "Book not found"
  const NotAuthorized := "Not authorized to modify this book"
  const BookDeletedMessage := "Book deleted"

  // ---------------------------------------------------------------------
  // Field whitelisting (`pickBookFields`) and `Object.assign`

  /** A field of the request body that is present (not `undefined`): what
      mongoose's string cast makes of it (`None` for JSON null), and what
      `Number(...)` makes of it. */
  datatype BodyValue = BodyValue(asText: Option<string>, asNumber: Num)

  /** What a present body value sets a string path to: JSON null sets it to
      `null`, which mongoose keeps apart from a path that was never set. */
  function PathValue(v: Option<string>): (r: OptString)
    ensures !r.Undefined?
    ensures r.Null? <==> v.None?
    ensures r.Str? ==> v == Some(r.value)
  {
    match v
    case None => Null
    case Some(s) => Str(s)
  }

  /** A copied field: the value of a string field, or the parsed year. */
  datatype FieldValue = TextField(text: OptString) | YearField(year: real)

  const AllowedFields: seq<string> := ["title", "author", "description", "genre", "year"]

  /** Whether `pickBookFields` copies `field`: it is defined in the body,
      and a year must parse to a number. */
  predicate Kept(body: map<string, BodyValue>, field: string) {
    field in body && (field == "year" ==> body[field].asNumber.Finite?)
  }

  /** What `pickBookFields` copies from `body` among `fields`. */
  function PickedAmong(body: map<string, BodyValue>, fields: seq<string>): map<string, FieldValue> {
    map f | f in fields && Kept(body, f) ::
      if f == "year" then YearField(body[f].asNumber.value) else TextField(PathValue(body[f].asText))
  }

  /** The accumulator `pickBookFields(body)` returns. */
  function Picked(body: map<string, BodyValue>): map<string, FieldValue> {
    PickedAmong(body, AllowedFields)
  }

  lemma PickedAmongAppend(body: map<string, BodyValue>, fields: seq<string>, f: string)
    ensures PickedAmong(body, fields + [f]) ==
      if !Kept(body, f) then PickedAmong(body, fields)
      else if f == "year" then PickedAmong(body, fields)[f := YearField(body[f].asNumber.value)]
      else PickedAmong(body, fields)[f := TextField(PathValue(body[f].asText))]
  {
    assert forall k :: k in fields + [f] <==> k in fields || k == f;
  }

  /** `pickBookFields(body)`: the `reduce` over the allowed fields. Exactly
      the allowed fields that are defined are copied, except a year that
      `Number` makes NaN, which is dropped; a year is copied as the number. */
  method PickBookFields(body: map<string, BodyValue>) returns (acc: map<string, FieldValue>)
    ensures acc == Picked(body)
    ensures forall k :: k in acc <==> k in AllowedFields && k in body && (k == "year" ==> body[k].asNumber.Finite?)
    ensures forall k :: k in acc && k != "year" ==> acc[k] == TextField(PathValue(body[k].asText))
    ensures "year" in acc ==> acc["year"] == YearField(body["year"].asNumber.value)
  {
    acc := map[];
    for i := 0 to |AllowedFields|
      invariant acc == PickedAmong(body, AllowedFields[..i])
    {
      var field := AllowedFields[i];
      if field in body {
        if field == "year" {
          var parsedYear := body[field].asNumber;
          if parsedYear.Finite? {
            acc := acc[field := YearField(parsedYear.value)];
          }
        } else {
          acc := acc[field := TextField(PathValue(body[field].asText))];
        }
      }
      PickedAmongAppend(body, AllowedFields[..i], field);
      assert AllowedFields[..i + 1] == AllowedFields[..i] + [field];
    }
    assert AllowedFields[..|AllowedFields|] == AllowedFields;
  }

  /** Fields outside the whitelist (`addedBy`, `_id`, timestamps, ...) never
      reach the document, whatever their value. */
  lemma PickIgnoresOtherFields(body: map<string, BodyValue>, extra: map<string, BodyValue>)
    requires forall k :: k in extra ==> k !in AllowedFields
    ensures Picked(body + extra) == Picked(body)
  {
    forall k | k in AllowedFields ensures Kept(body + extra, k) <==> Kept(body, k) {
      assert k !in extra;
    }
  }

  function AssignText(current: OptString, picked: map<string, FieldValue>, field: string): OptString {
    if field in picked && picked[field].TextField? then picked[field].text else current
  }

  function AssignYear(current: Option<real>, picked: map<string, FieldValue>): Option<real> {
    if "year" in picked && picked["year"].YearField? then Some(picked["year"].year) else current
  }

  /** `Object.assign(doc, picked)` on a document's editable fields. */
  function Assign(d: BookModel.BookDraft, picked: map<string, FieldValue>): BookModel.BookDraft {
    BookModel.BookDraft(AssignText(d.title, picked, "title"), AssignText(d.author, picked, "author"),
      AssignText(d.description, picked, "description"), AssignText(d.genre, picked, "genre"),
      AssignYear(d.year, picked))
  }

  /** The fields of a new document before anything is assigned. */
  const EmptyDraft := BookModel.BookDraft(Undefined, Undefined, Undefined, Undefined, None)

  /** A field's value after `Object.assign(doc, pickBookFields(body))`: the
      body's value when it was copied, the document's own otherwise. */
  lemma AssignPicked(d: BookModel.BookDraft, body: map<string, BodyValue>)
    ensures var a := Assign(d, Picked(body));
      && a.title == (if Kept(body, "title") then PathValue(body["title"].asText) else d.title)
      && a.author == (if Kept(body, "author") then PathValue(body["author"].asText) else d.author)
      && a.description == (if Kept(body, "description") then PathValue(body["description"].asText) else d.description)
      && a.genre == (if Kept(body, "genre") then PathValue(body["genre"].asText) else d.genre)
      && a.year == (if Kept(body, "year") then Some(body["year"].asNumber.value) else d.year)
  {
  }

  /** On a stored book, an update changes exactly the copied fields (each
      trimmed by its setter) and leaves every other field as it was. */
  lemma UpdateMergesOnlyPicked(orig: Book, body: map<string, BodyValue>)
    requires BookModel.ValidBook(orig)
    ensures var d := BookModel.TrimDraft(Assign(BookModel.DraftOf(orig), Picked(body)));
      && d.title == (if Kept(body, "title") then Text.TrimPath(PathValue(body["title"].asText)) else Str(orig.title))
      && d.author == (if Kept(body, "author") then Text.TrimPath(PathValue(body["author"].asText)) else orig.author)
      && d.description == (if Kept(body, "description") then Text.TrimPath(PathValue(body["description"].asText)) else orig.description)
      && d.genre == (if Kept(body, "genre") then Text.TrimPath(PathValue(body["genre"].asText)) else orig.genre)
      && d.year == (if Kept(body, "year") then Some(body["year"].asNumber.value) else orig.year)
  {
    BookModel.TrimDraftOfStored(orig);
    AssignPicked(BookModel.DraftOf(orig), body);
  }

  // ---------------------------------------------------------------------
  // `POST /books`

  /** `addBook`: the copied fields plus `addedBy` set to the requester, so
      no body can choose another owner. */
  method AddBook(db: Db, me: Id, body: map<string, BodyValue>) returns (reply: Reply<BookModel.BookJson>)
    requires db.Valid() && UserModel.HasUser(db.users, me)
    modifies db
    ensures db.Valid()
    ensures old(db.Consistent()) ==> db.Consistent()
    ensures var d := BookModel.TrimDraft(Assign(EmptyDraft, Picked(body)));
      var msgs := BookModel.ValidationMessages(d);
      if msgs != [] then reply == Rejected(400, Text.Join(msgs, ", ")) && unchanged(db)
      else
        var book := BookModel.Book(old(db.nextId), d.title.value, d.author, d.description, d.genre, d.year,
                                   me, old(db.clock), old(db.clock), 0);
        && db.books == old(db.books) + [book] && db.users == old(db.users) && db.reviews == old(db.reviews)
        && reply == Sent(201, BookModel.ToJson(book))
  {
    var payload := PickBookFields(body);
    ghost var before := db.books;
    var created := db.CreateBook(Assign(EmptyDraft, payload), me);
    match created {
      case Err(e) =>
        reply := Reject(e);
      case Ok(book) =>
        if old(db.Consistent()) {
          ReferencedAddBook(db.users, before, db.reviews, book);
        }
        reply := Sent(201, BookModel.ToJson(book));
    }
  }

  // ---------------------------------------------------------------------
  // `GET /books`: the query

  /** The query string. `page` and `limit` are what `Number.parseInt(..., 10)`
      makes of them (`None` for NaN); the others are the raw strings. */
  datatype BookQuery = BookQuery(
    page: Option<int>,
    limit: Option<int>,
    search: Option<string>,
    genre: Option<string>,
    sortBy: Option<string>,
    order: Option<string>)

  /** `parsed || default`: NaN and 0 are falsy. */
  function OrDefault(parsed: Option<int>, default: int): int {
    match parsed
    case Some(v) => if v != 0 then v else default
    case None => default
  }

  function Max(a: int, b: int): int {
    if a >= b then a else b
  }

  function Min(a: int, b: int): int {
    if a <= b then a else b
  }

  /** `Math.max(1, parseInt(page) || 1)`: a positive page is kept, anything
      else is the first page. */
  function ClampPage(parsed: Option<int>): (page: int)
    ensures page >= 1
    ensures parsed.Some? && parsed.value >= 1 ==> page == parsed.value
    ensures parsed.None? || parsed.value < 1 ==> page == 1
  {
    Max(1, OrDefault(parsed, 1))
  }

  /** `Math.min(20, Math.max(1, parseInt(limit) || 5))`: within [1, 20], kept
      when it already is, 5 when unparsable or 0, 1 when negative and 20
      when larger. */
  function ClampLimit(parsed: Option<int>): (limit: int)
    ensures 1 <= limit <= 20
    ensures parsed.Some? && 1 <= parsed.value <= 20 ==> limit == parsed.value
    ensures parsed.None? || parsed.value == 0 ==> limit == 5
    ensures parsed.Some? && parsed.value < 0 ==> limit == 1
    ensures parsed.Some? && parsed.value > 20 ==> limit == 20
  {
    Min(20, Max(1, OrDefault(parsed, 5)))
  }

  /** `param?.trim()` used as a condition: the trimmed text, when not empty. */
  function ActiveTerm(param: Option<string>): Option<string> {
    match param
    case None => None
    case Some(s) => if Text.Trim(s) != "" then Some(Text.Trim(s)) else None
  }

  /** The `filter` object: `$or` over title and author for a search, and an
      anchored pattern on the genre. */
  datatype BookFilter = BookFilter(search: Option<string>, genre: Option<string>)

  function FilterOf(q: BookQuery): BookFilter {
    BookFilter(ActiveTerm(q.search), ActiveTerm(q.genre))
  }

  /** Whether a book matches the filter. The search is an unanchored,
      case-insensitive pattern on the title or the author (a missing author
      does not match); the genre an anchored, case-insensitive one. */
  predicate Matches(f: BookFilter, b: Book) {
    && (f.search.Some? ==>
          Text.ContainsIgnoreCase(b.title, f.search.value)
          || (b.author.Str? && Text.ContainsIgnoreCase(b.author.value, f.search.value)))
    && (f.genre.Some? ==> b.genre.Str? && Text.EqualsIgnoreCase(b.genre.value, f.genre.value))
  }

  function MatchesFilter(f: BookFilter): Book -> bool {
    (b: Book) => Matches(f, b)
  }

  /** A search or genre that is absent or only white space filters nothing. */
  lemma BlankTermsMatchAll(q: BookQuery, books: seq<Book>)
    requires q.search.None? || Text.Trim(q.search.value) == ""
    requires q.genre.None? || Text.Trim(q.genre.value) == ""
    ensures Sequences.Filter(books, MatchesFilter(FilterOf(q))) == books
  {
    Sequences.FilterEvery(books, MatchesFilter(FilterOf(q)));
  }

  /** A book that the genre pattern matches has that genre up to case, and a
      search for its whole title always finds it. */
  lemma MatchingShape(f: BookFilter, b: Book)
    requires Matches(f, b) && f.genre.Some?
    ensures b.genre.Str? && Text.ToLower(b.genre.value) == Text.ToLower(f.genre.value)
    ensures Matches(BookFilter(Some(b.title), f.genre), b)
  {
    Text.EqualsImpliesContains(b.title, b.title);
  }

  /** The `sort` object. */
  datatype SortKey = ByYear(asc: bool) | ByTitle(asc: bool) | ByNewest

  /** `sortBy` (trimmed) of "year" or "title" sorts by that field, in
      ascending order exactly when `order` is "asc"; any other value,
      "rating" included, sorts by creation time, newest first. */
  function SortKeyOf(q: BookQuery): (k: SortKey)
    ensures Text.TrimField(q.sortBy) == Some("year") ==> k == ByYear(q.order == Some("asc"))
    ensures Text.TrimField(q.sortBy) == Some("title") ==> k == ByTitle(q.order == Some("asc"))
    ensures Text.TrimField(q.sortBy) != Some("year") && Text.TrimField(q.sortBy) != Some("title") ==> k == ByNewest
  {
    var sortBy := Text.TrimField(q.sortBy);
    var asc := q.order == Some("asc");
    if sortBy == Some("year") then ByYear(asc)
    else if sortBy == Some("title") then ByTitle(asc)
    else ByNewest
  }

  /** The store's ascending order on an optional number: a missing year
      comes first. */
  predicate YearAscending(x: Option<real>, y: Option<real>) {
    x.None? || (y.Some? && x.value <= y.value)
  }

  /** The order a sort key puts books in (`le(a, b)`: `a` may come before `b`). */
  function SortLe(k: SortKey): (Book, Book) -> bool {
    match k
    case ByYear(asc) =>
      (a: Book, b: Book) => if asc then YearAscending(a.year, b.year) else YearAscending(b.year, a.year)
    case ByTitle(asc) =>
      (a: Book, b: Book) => if asc then Text.StringLe(a.title, b.title) else Text.StringLe(b.title, a.title)
    case ByNewest => BookNewer()
  }

  /** Every sort key orders all books consistently. */
  lemma SortLeIsTotalPreorder(k: SortKey)
    ensures Sequences.TotalPreorder(SortLe(k))
  {
    var le := SortLe(k);
    match k
    case ByTitle(asc) =>
      forall a: Book, b: Book ensures le(a, b) || le(b, a) {
        Text.StringLeTotal(a.title, b.title);
      }
      forall a: Book, b: Book, c: Book | le(a, b) && le(b, c) ensures le(a, c) {
        if asc {
          Text.StringLeTransitive(a.title, b.title, c.title);
        } else {
          Text.StringLeTransitive(c.title, b.title, a.title);
        }
      }
    case ByYear(asc) =>
    case ByNewest =>
  }

  /** The matching books in the order of the query's sort. */
  function Sorted(books: seq<Book>, q: BookQuery): seq<Book> {
    Sequences.SortBy(Sequences.Filter(books, MatchesFilter(FilterOf(q))), SortLe(SortKeyOf(q)))
  }

  /** The sorted result holds exactly the matching books, ordered by the
      query's sort key. */
  lemma SortedSpec(books: seq<Book>, q: BookQuery)
    ensures multiset(Sorted(books, q)) == multiset(Sequences.Filter(books, MatchesFilter(FilterOf(q))))
    ensures forall b :: b in Sorted(books, q) <==> b in books && Matches(FilterOf(q), b)
    ensures Sequences.SortedBy(Sorted(books, q), SortLe(SortKeyOf(q)))
  {
    var matching := Sequences.Filter(books, MatchesFilter(FilterOf(q)));
    SortLeIsTotalPreorder(SortKeyOf(q));
    Sequences.SortBySorted(matching, SortLe(SortKeyOf(q)));
    forall b ensures b in Sorted(books, q) <==> b in matching {
      assert b in Sorted(books, q) <==> b in multiset(Sorted(books, q));
      assert b in matching <==> b in multiset(matching);
    }
  }

  // ---------------------------------------------------------------------
  // `GET /books`: the page

  /** A listed book: the lean document (with `__v`), its populated owner, and
      its statistics. */
  datatype BookListing = BookListing(
    book: Book,
    owner: Option<UserModel.Owner>,
    averageRating: Option<real>,
    reviewCount: nat)

  /** `{ ...book, averageRating: stats?.averageRating ?? null, reviewCount: stats?.reviewCount ?? 0 }`. */
  function Listing(users: seq<User>, statsMap: map<Id, ReviewStats.Summary>, b: Book): BookListing {
    var summary := ReviewStats.Decoration(statsMap, b.id);
    BookListing(b, UserModel.OwnerOf(users, b.addedBy), summary.averageRating, summary.reviewCount)
  }

  /** A page of books, each decorated from the bulk statistics of the page. */
  function Decorate(users: seq<User>, reviews: seq<Review>, s: seq<Book>): (listed: seq<BookListing>)
    ensures |listed| == |s|
    ensures forall i :: 0 <= i < |s| ==>
      listed[i] == Listing(users, ReviewStats.StatsForBooks(reviews, BookIds(s)), s[i])
  {
    var statsMap := ReviewStats.StatsForBooks(reviews, BookIds(s));
    seq(|s|, i requires 0 <= i < |s| => Listing(users, statsMap, s[i]))
  }

  /** Each listed book carries its own document and exactly the average and
      count the single-book statistics give (null and 0 without reviews). */
  lemma DecoratedStats(users: seq<User>, reviews: seq<Review>, s: seq<Book>, i: nat)
    requires i < |s|
    ensures var x := Decorate(users, reviews, s)[i];
      && x.book == s[i]
      && x.averageRating == ReviewStats.StatsForBook(reviews, s[i].id).averageRating
      && x.reviewCount == ReviewStats.StatsForBook(reviews, s[i].id).reviewCount
      && (ReviewStats.ReviewsOf(reviews, s[i].id) == [] ==> x.averageRating.None? && x.reviewCount == 0)
  {
    assert BookIds(s)[i] == s[i].id;
    ReviewStats.DecorationAgreesWithSingle(reviews, BookIds(s), s[i].id);
  }

  /** The key of the in-memory sort: `averageRating ?? 0`. */
  function RatingKey(x: BookListing): real {
    x.averageRating.GetOr(0.0)
  }

  /** `a` may precede `b` by the comparator `aRating - bRating` (ascending)
      or `bRating - aRating` (descending). */
  predicate RatingInOrder(x: BookListing, y: BookListing, asc: bool) {
    if asc then RatingKey(x) <= RatingKey(y) else RatingKey(y) <= RatingKey(x)
  }

  predicate RatingOrdered(s: seq<BookListing>, asc: bool) {
    forall i, j :: 0 <= i < j < |s| ==> RatingInOrder(s[i], s[j], asc)
  }

  /** Inserts `x` at the end of `s`, moving it in front of every trailing
      element it strictly precedes: it stays behind the elements it ties with. */
  function InsertByRating(s: seq<BookListing>, x: BookListing, asc: bool): (r: seq<BookListing>)
    ensures |r| == |s| + 1
    ensures multiset(r) == multiset(s) + multiset{x}
  {
    if s == [] || RatingInOrder(s[|s| - 1], x, asc) then s + [x]
    else
      assert s == s[..|s| - 1] + [s[|s| - 1]];
      InsertByRating(s[..|s| - 1], x, asc) + [s[|s| - 1]]
  }

  /** The stable sort `Array.prototype.sort` performs with the rating
      comparator, as an insertion sort from the left. */
  function RatingSort(s: seq<BookListing>, asc: bool): (r: seq<BookListing>)
    ensures |r| == |s|
    ensures multiset(r) == multiset(s)
  {
    if s == [] then []
    else
      assert s == s[..|s| - 1] + [s[|s| - 1]];
      InsertByRating(RatingSort(s[..|s| - 1], asc), s[|s| - 1], asc)
  }

  /** Moving `x` in front of `last` happens only when `x` strictly precedes
      it, so the two do not tie and `x` may precede it. */
  lemma PassedOver(last: BookListing, x: BookListing, asc: bool)
    requires !RatingInOrder(last, x, asc)
    ensures RatingInOrder(x, last, asc) && RatingKey(x) != RatingKey(last)
  {
  }

  /** Every element of an ordered sequence may precede its last one. */
  lemma BeforeLast(s: seq<BookListing>, asc: bool, y: BookListing)
    requires s != [] && RatingOrdered(s, asc) && y in s[..|s| - 1]
    ensures RatingInOrder(y, s[|s| - 1], asc)
  {
    var k :| 0 <= k < |s| - 1 && s[..|s| - 1][k] == y;
    assert s[k] == y;
  }

  lemma {:induction false} InsertByRatingOrdered(s: seq<BookListing>, x: BookListing, asc: bool)
    requires RatingOrdered(s, asc)
    ensures RatingOrdered(InsertByRating(s, x, asc), asc)
  {
    if s != [] && !RatingInOrder(s[|s| - 1], x, asc) {
      var init, last := s[..|s| - 1], s[|s| - 1];
      assert RatingOrdered(init, asc);
      InsertByRatingOrdered(init, x, asc);
      var r := InsertByRating(init, x, asc);
      assert InsertByRating(s, x, asc) == r + [last];
      PassedOver(last, x, asc);
      forall y | y in r ensures RatingInOrder(y, last, asc) {
        assert y in multiset(r);
        if y != x {
          assert y in multiset(init);
          BeforeLast(s, asc, y);
        }
      }
      OrderedAppend(r, last, asc);
    }
  }

  /** Appending an element every other one may precede keeps the order. */
  lemma OrderedAppend(r: seq<BookListing>, last: BookListing, asc: bool)
    requires RatingOrdered(r, asc)
    requires forall y :: y in r ==> RatingInOrder(y, last, asc)
    ensures RatingOrdered(r + [last], asc)
  {
    var out := r + [last];
    forall i, j | 0 <= i < j < |out| ensures RatingInOrder(out[i], out[j], asc) {
      if j == |r| {
        assert out[i] in r;
      } else {
        assert out[i] == r[i] && out[j] == r[j];
      }
    }
  }

  /** The sort leaves the books in rating order. */
  lemma {:induction false} RatingSortOrdered(s: seq<BookListing>, asc: bool)
    ensures RatingOrdered(RatingSort(s, asc), asc)
  {
    if s != [] {
      RatingSortOrdered(s[..|s| - 1], asc);
      InsertByRatingOrdered(RatingSort(s[..|s| - 1], asc), s[|s| - 1], asc);
    }
  }

  /** The books whose `averageRating ?? 0` is `v`. */
  function RatedAt(v: real): BookListing -> bool {
    (x: BookListing) => RatingKey(x) == v
  }

  /** Only one of two appended pieces is non-empty, so their order does not
      matter. */
  lemma AppendEither(a: seq<BookListing>, b: seq<BookListing>, c: seq<BookListing>)
    requires b == [] || c == []
    ensures a + b + c == a + c + b
  {
  }

  lemma {:induction false} InsertByRatingKeepsTies(s: seq<BookListing>, x: BookListing, asc: bool, v: real)
    ensures Sequences.Filter(InsertByRating(s, x, asc), RatedAt(v))
         == Sequences.Filter(s, RatedAt(v)) + (if RatingKey(x) == v then [x] else [])
  {
    var p := RatedAt(v);
    if s == [] || RatingInOrder(s[|s| - 1], x, asc) {
      assert InsertByRating(s, x, asc) == s + [x];
      Sequences.FilterAppend(s, x, p);
    } else {
      var init, last := s[..|s| - 1], s[|s| - 1];
      assert s == init + [last];
      var r := InsertByRating(init, x, asc);
      assert InsertByRating(s, x, asc) == r + [last];
      PassedOver(last, x, asc);
      var xs: seq<BookListing> := if p(x) then [x] else [];
      var ls: seq<BookListing> := if p(last) then [last] else [];
      InsertByRatingKeepsTies(init, x, asc, v);
      assert Sequences.Filter(r, p) == Sequences.Filter(init, p) + xs;
      Sequences.FilterAppend(r, last, p);
      Sequences.FilterAppend(init, last, p);
      assert Sequences.Filter(s, p) == Sequences.Filter(init, p) + ls;
      AppendEither(Sequences.Filter(init, p), xs, ls);
    }
  }

  /** Stability: the books of any one rating come out in the order they went
      in. */
  lemma {:induction false} RatingSortStable(s: seq<BookListing>, asc: bool, v: real)
    ensures Sequences.Filter(RatingSort(s, asc), RatedAt(v)) == Sequences.Filter(s, RatedAt(v))
  {
    if s != [] {
      var init, last := s[..|s| - 1], s[|s| - 1];
      assert s == init + [last];
      RatingSortStable(init, asc, v);
      InsertByRatingKeepsTies(RatingSort(init, asc), last, asc, v);
      Sequences.FilterAppend(init, last, RatedAt(v));
    }
  }

  /** `x` moves in front of a last element it strictly precedes. */
  lemma InsertPasses(pre: seq<BookListing>, x: BookListing, asc: bool)
    requires pre != [] && !RatingInOrder(pre[|pre| - 1], x, asc)
    ensures InsertByRating(pre, x, asc) == InsertByRating(pre[..|pre| - 1], x, asc) + [pre[|pre| - 1]]
  {
  }

  /** `x` stops behind a last element it does not strictly precede. */
  lemma InsertStops(pre: seq<BookListing>, x: BookListing, asc: bool)
    requires pre == [] || RatingInOrder(pre[|pre| - 1], x, asc)
    ensures InsertByRating(pre, x, asc) == pre + [x]
  {
  }

  /** Sorting one more element inserts it into the sorted prefix. */
  lemma RatingSortPrefix(s: seq<BookListing>, i: nat, asc: bool)
    requires i < |s|
    ensures RatingSort(s[..i + 1], asc) == InsertByRating(RatingSort(s[..i], asc), s[i], asc)
  {
    assert s[..i + 1][..i] == s[..i];
  }

  /** One step of the insertion sort: `a[i]` moves left past the elements of
      the sorted prefix `a[..i]` it strictly precedes. */
  method InsertLast(a: array<BookListing>, i: nat, asc: bool)
    requires i < a.Length
    modifies a
    ensures a[..i + 1] == InsertByRating(old(a[..i]), old(a[i]), asc)
    ensures a[i + 1..] == old(a[i + 1..])
  {
    ghost var sorted := a[..i];
    var x := a[i];
    var j := i;
    while j > 0 && !RatingInOrder(a[j - 1], a[j], asc)
      invariant 0 <= j <= i
      invariant a[j] == x
      invariant InsertByRating(sorted, x, asc) == InsertByRating(a[..j], x, asc) + a[j + 1..i + 1]
      invariant a[i + 1..] == old(a[i + 1..])
    {
      ghost var before := a[..];
      a[j - 1], a[j] := a[j], a[j - 1];
      SwapStep(sorted, before, a[..], x, asc, j, i);
      j := j - 1;
    }
    InsertDone(sorted, a[..], x, asc, j, i);
  }

  /** Once `x` stands after an element it does not strictly precede, or at
      the front, the insertion is complete. */
  lemma InsertDone(sorted: seq<BookListing>, s: seq<BookListing>, x: BookListing, asc: bool, j: nat, i: nat)
    requires j <= i < |s| && s[j] == x
    requires j == 0 || RatingInOrder(s[j - 1], x, asc)
    requires InsertByRating(sorted, x, asc) == InsertByRating(s[..j], x, asc) + s[j + 1..i + 1]
    ensures s[..i + 1] == InsertByRating(sorted, x, asc)
  {
    InsertStops(s[..j], x, asc);
    SplitAround(s[..i + 1], j);
  }

  /** Swapping `x` with the element before it, which it strictly precedes,
      keeps the insertion it is performing. */
  lemma SwapStep(sorted: seq<BookListing>, before: seq<BookListing>, after: seq<BookListing>,
                 x: BookListing, asc: bool, j: nat, i: nat)
    requires 0 < j <= i < |before|
    requires before[j] == x && !RatingInOrder(before[j - 1], x, asc)
    requires InsertByRating(sorted, x, asc) == InsertByRating(before[..j], x, asc) + before[j + 1..i + 1]
    requires after == before[j - 1 := x][j := before[j - 1]]
    ensures after[j - 1] == x
    ensures InsertByRating(sorted, x, asc) == InsertByRating(after[..j - 1], x, asc) + after[j..i + 1]
    ensures after[i + 1..] == before[i + 1..]
  {
    InsertPasses(before[..j], x, asc);
    assert before[..j][..j - 1] == before[..j - 1] == after[..j - 1];
    assert after[j..i + 1] == [before[j - 1]] + before[j + 1..i + 1];
  }

  lemma SplitAround(s: seq<BookListing>, j: nat)
    requires j < |s|
    ensures s == s[..j] + [s[j]] + s[j + 1..]
  {
  }

  /** `books.sort(...)` by rating, in place: an insertion sort that moves each
      element left past the ones it strictly precedes. It computes
      `RatingSort`, so it permutes the books, orders them by rating, and
      keeps books of equal rating in their order. */
  method SortByRating(a: array<BookListing>, asc: bool)
    modifies a
    ensures a[..] == RatingSort(old(a[..]), asc)
    ensures multiset(a[..]) == multiset(old(a[..]))
    ensures RatingOrdered(a[..], asc)
  {
    ghost var input := a[..];
    var i := 0;
    while i < a.Length
      invariant 0 <= i <= a.Length
      invariant a[..i] == RatingSort(input[..i], asc)
      invariant a[i..] == input[i..]
    {
      ghost var prefix, rest := a[..i], a[i + 1..];
      assert a[i] == input[i] && rest == input[i + 1..];
      InsertLast(a, i, asc);
      assert a[..i + 1] == InsertByRating(prefix, input[i], asc);
      RatingSortPrefix(input, i, asc);
      assert a[i + 1..] == input[i + 1..];
      i := i + 1;
    }
    assert a[..] == a[..a.Length];
    assert input == input[..a.Length];
    RatingSortOrdered(input, asc);
  }

  /** `Math.ceil(n / d)` on naturals. */
  function CeilDiv(n: nat, d: nat): (c: nat)
    requires d > 0
    ensures n <= c * d
    ensures c > 0 ==> (c - 1) * d < n
  {
    var q := (n + d - 1) / d;
    assert n + d - 1 == q * d + (n + d - 1) % d;
    q
  }

  /** `meta`. */
  datatype Meta = Meta(total: nat, page: int, limit: int, totalPages: int, hasNextPage: bool, hasPrevPage: bool)

  function MetaOf(total: nat, page: int, limit: int): Meta
    requires limit >= 1
  {
    Meta(total, page, limit, Max(1, CeilDiv(total, limit)), page * limit < total, page > 1)
  }

  lemma MulLe(a: int, b: int, c: int)
    requires a <= b && c >= 0
    ensures a * c <= b * c
  {
  }

  /** There is at least one page, the last one is the first page that
      reaches the total, and a next page is announced exactly when the
      current one is not the last. */
  lemma MetaSpec(total: nat, page: int, limit: int)
    requires page >= 1 && limit >= 1
    ensures var m := MetaOf(total, page, limit);
      && m.totalPages >= 1
      && total <= m.totalPages * limit
      && (m.totalPages > 1 ==> (m.totalPages - 1) * limit < total)
      && (m.totalPages == 1 <==> total <= limit)
      && (m.hasNextPage <==> page < m.totalPages)
      && (m.hasPrevPage <==> page != 1)
  {
    var t := MetaOf(total, page, limit).totalPages;
    var c := CeilDiv(total, limit);
    if c == 0 {
      assert total == 0;
    }
    assert total <= t * limit;
    if page < t {
      MulLe(page, t - 1, limit);
    }
    if page * limit < total {
      if t <= page {
        MulLe(t, page, limit);
      }
    }
    if t == 1 {
      assert total <= limit;
    } else {
      assert (t - 1) * limit < total;
      MulLe(1, t - 1, limit);
    }
  }

  /** `{ data, meta }`. */
  datatype BookPage = BookPage(data: seq<BookListing>, meta: Meta)

  /** `.skip((page - 1) * limit)`. */
  function Skip(page: int, limit: int): nat
    requires page >= 1 && limit >= 1
  {
    MulLe(0, page - 1, limit);
    (page - 1) * limit
  }

  /** The page of the sorted matching books the query asks for. */
  function PageOf(books: seq<Book>, q: BookQuery): seq<Book> {
    Sequences.Window(Sorted(books, q), Skip(ClampPage(q.page), ClampLimit(q.limit)), ClampLimit(q.limit))
  }

  /** A page holds at most `limit` books, taken consecutively from the sorted
      matching books at offset `(page - 1) * limit`. */
  lemma PageOfSpec(books: seq<Book>, q: BookQuery)
    ensures var skip := Skip(ClampPage(q.page), ClampLimit(q.limit));
      && |PageOf(books, q)| <= ClampLimit(q.limit)
      && (forall i :: 0 <= i < |PageOf(books, q)| ==> PageOf(books, q)[i] == Sorted(books, q)[skip + i])
      && (forall b :: b in PageOf(books, q) ==> b in books && Matches(FilterOf(q), b))
  {
    var skip := Skip(ClampPage(q.page), ClampLimit(q.limit));
    var sorted := Sorted(books, q);
    var s := PageOf(books, q);
    SortedSpec(books, q);
    forall b | b in s ensures b in books && Matches(FilterOf(q), b) {
      var i :| 0 <= i < |s| && s[i] == b;
      assert s[i] == sorted[skip + i];
      assert sorted[skip + i] in sorted;
    }
  }

  /** The decorated page copied into an array and sorted there by rating. */
  method RatingSorted(books: seq<BookListing>, asc: bool) returns (sorted: seq<BookListing>)
    ensures sorted == RatingSort(books, asc)
    ensures multiset(sorted) == multiset(books)
    ensures RatingOrdered(sorted, asc)
  {
    var a := new BookListing[|books|](i requires 0 <= i < |books| => books[i]);
    assert a[..] == books;
    SortByRating(a, asc);
    sorted := a[..];
  }

  /** `getBooks`. With `sortBy=rating` the page (still chosen newest first)
      is reordered by rating; otherwise it is listed as the store sorted it. */
  method GetBooks(db: Db, q: BookQuery) returns (reply: Reply<BookPage>)
    ensures var page, limit := ClampPage(q.page), ClampLimit(q.limit);
      var shown := Decorate(db.users, db.reviews, PageOf(db.books, q));
      && reply.Sent? && reply.status == 200
      && reply.body.meta == MetaOf(|Sequences.Filter(db.books, MatchesFilter(FilterOf(q)))|, page, limit)
      && (if Text.TrimField(q.sortBy) == Some("rating") then
            && reply.body.data == RatingSort(shown, q.order == Some("asc"))
            && multiset(reply.body.data) == multiset(shown) && RatingOrdered(reply.body.data, q.order == Some("asc"))
          else reply.body.data == shown)
  {
    var page := ClampPage(q.page);
    var limit := ClampLimit(q.limit);
    var filter := FilterOf(q);
    var sort := SortKeyOf(q);
    var matching := Sequences.Filter(db.books, MatchesFilter(filter));
    var total := |matching|;
    var booksRaw := Sequences.Window(Sequences.SortBy(matching, SortLe(sort)), Skip(page, limit), limit);
    var books := Decorate(db.users, db.reviews, booksRaw);
    assert booksRaw == PageOf(db.books, q);
    if Text.TrimField(q.sortBy) == Some("rating") {
      books := RatingSorted(books, q.order == Some("asc"));
    }
    reply := Sent(200, BookPage(books, MetaOf(total, page, limit)));
  }

  // ---------------------------------------------------------------------
  // `GET /books/:id`

  /** `{ ...book.toObject(), averageRating, reviewCount, ratingDistribution,
      reviews }`, with `addedBy` populated as `owner`. */
  datatype BookDetails = BookDetails(
    book: BookModel.BookJson,
    owner: Option<UserModel.Owner>,
    averageRating: Option<real>,
    reviewCount: nat,
    ratingDistribution: map<int, nat>,
    reviews: seq<ReviewView>)

  function DetailsOf(users: seq<User>, reviews: seq<Review>, b: Book): BookDetails {
    var stats := ReviewStats.StatsForBook(reviews, b.id);
    BookDetails(BookModel.ToJson(b), UserModel.OwnerOf(users, b.addedBy), stats.averageRating,
      stats.reviewCount, stats.distribution, PopulateAll(users, NewestReviewsFirst(ReviewStats.ReviewsOf(reviews, b.id))))
  }

  /** `getBookById`. */
  method GetBookById(db: Db, rawId: RawId) returns (reply: Reply<BookDetails>)
    ensures !IsValidId(rawId) ==> reply == Rejected(400, InvalidBookId)
    ensures IsValidId(rawId) && BookModel.FindBook(db.books, rawId.id).None? ==> reply == Rejected(404, BookNotFound)
    ensures IsValidId(rawId) && BookModel.FindBook(db.books, rawId.id).Some? ==>
      reply == Sent(200, DetailsOf(db.users, db.reviews, BookModel.FindBook(db.books, rawId.id).value))
  {
    if !IsValidId(rawId) {
      return Throw(InvalidBookId, 400);
    }
    var book := BookModel.FindBook(db.books, rawId.id);
    match book {
      case None =>
        reply := Throw(BookNotFound, 404);
      case Some(b) =>
        reply := Sent(200, DetailsOf(db.users, db.reviews, b));
    }
  }

  /** The details show the stored book without `__v`, the histogram with
      the keys 1..5, and exactly the book's reviews, each once, newest first. */
  lemma DetailsSpec(users: seq<User>, reviews: seq<Review>, b: Book)
    ensures var d := DetailsOf(users, reviews, b);
      && d.book == BookModel.ToJson(b)
      && d.reviewCount == |ReviewStats.ReviewsOf(reviews, b.id)|
      && d.ratingDistribution.Keys == {1, 2, 3, 4, 5}
      && |d.reviews| == d.reviewCount
      && (forall i :: 0 <= i < |d.reviews| ==> d.reviews[i].bookId == b.id)
      && (forall i, j :: 0 <= i < j < |d.reviews| ==> d.reviews[i].createdAt >= d.reviews[j].createdAt)
  {
    ReviewStats.StatsCounts(reviews, b.id);
    var s := ReviewStats.ReviewsOf(reviews, b.id);
    var sorted := NewestReviewsFirst(s);
    NewestReviewsFirstSpec(s);
    forall i | 0 <= i < |sorted| ensures sorted[i].bookId == b.id {
      assert sorted[i] in multiset(s);
      assert sorted[i] in s;
    }
  }

  // ---------------------------------------------------------------------
  // `PUT /books/:id` and `DELETE /books/:id`

  /** `Object.assign(book, pickBookFields(req.body)); await book.save();
      res.json(book)` on the requester's own book. */
  method AssignAndSave(db: Db, orig: Book, body: map<string, BodyValue>) returns (reply: Reply<BookModel.BookJson>)
    requires db.Valid() && orig in db.books
    modifies db
    ensures db.Valid()
    ensures old(db.Consistent()) ==> db.Consistent()
    ensures var d := BookModel.TrimDraft(Assign(BookModel.DraftOf(orig), Picked(body)));
      var msgs := BookModel.ValidationMessages(d);
      if d == BookModel.DraftOf(orig) then reply == Sent(200, BookModel.ToJson(orig)) && unchanged(db)
      else if msgs != [] then reply == Rejected(400, Text.Join(msgs, ", ")) && unchanged(db)
      else
        var saved := orig.(title := d.title.value, author := d.author, description := d.description,
                           genre := d.genre, year := d.year, updatedAt := old(db.clock));
        && db.books == Sequences.ReplaceBy(old(db.books), BookModel.BookIdOf, saved)
        && db.users == old(db.users) && db.reviews == old(db.reviews)
        && reply == Sent(200, BookModel.ToJson(saved))
  {
    var picked := PickBookFields(body);
    ghost var before := db.books;
    var saved := db.SaveBook(orig, Assign(BookModel.DraftOf(orig), picked));
    match saved {
      case Err(e) =>
        reply := Reject(e);
      case Ok(book) =>
        if old(db.Consistent()) && book != orig {
          ReferencedReplaceBook(db.users, before, db.reviews, orig, book);
        }
        reply := Sent(200, BookModel.ToJson(book));
    }
  }

  /** `updateBook`. The id is not checked first: a malformed one makes the
      lookup raise a cast error, which the middleware reports as 404. */
  method UpdateBook(db: Db, rawId: RawId, me: Id, body: map<string, BodyValue>)
    returns (reply: Reply<BookModel.BookJson>)
    requires db.Valid()
    modifies db
    ensures db.Valid()
    ensures old(db.Consistent()) ==> db.Consistent()
    ensures rawId.Malformed? ==> reply == Rejected(404, ResourceNotFound) && unchanged(db)
    ensures rawId.Wellformed? ==>
      match BookModel.FindBook(old(db.books), rawId.id)
      case None => reply == Rejected(404, BookNotFound) && unchanged(db)
      case Some(orig) =>
        if orig.addedBy != me then reply == Rejected(403, NotAuthorized) && unchanged(db)
        else
          var d := BookModel.TrimDraft(Assign(BookModel.DraftOf(orig), Picked(body)));
          var msgs := BookModel.ValidationMessages(d);
          if d == BookModel.DraftOf(orig) then reply == Sent(200, BookModel.ToJson(orig)) && unchanged(db)
          else if msgs != [] then reply == Rejected(400, Text.Join(msgs, ", ")) && unchanged(db)
          else
            var saved := orig.(title := d.title.value, author := d.author, description := d.description,
                               genre := d.genre, year := d.year, updatedAt := old(db.clock));
            && db.books == Sequences.ReplaceBy(old(db.books), BookModel.BookIdOf, saved)
            && db.users == old(db.users) && db.reviews == old(db.reviews)
            && reply == Sent(200, BookModel.ToJson(saved))
  {
    match rawId {
      case Malformed(text) =>
        reply := Reject(CastErrorOf(text));
      case Wellformed(id) =>
        var found := BookModel.FindBook(db.books, id);
        match found {
          case None =>
            reply := Throw(BookNotFound, 404);
          case Some(orig) =>
            if orig.addedBy != me {
              return Throw(NotAuthorized, 403);
            }
            reply := AssignAndSave(db, orig, body);
        }
    }
  }

  /** `{ message, removedReviews }`. */
  datatype BookDeleted = BookDeleted(message: string, removedReviews: nat)

  /** `deleteBook`: the owner's book goes, and all its reviews before it. */
  method DeleteBook(db: Db, rawId: RawId, me: Id) returns (reply: Reply<BookDeleted>)
    requires db.Valid()
    modifies db
    ensures db.Valid()
    ensures old(db.Consistent()) ==> db.Consistent()
    ensures rawId.Malformed? ==> reply == Rejected(404, ResourceNotFound) && unchanged(db)
    ensures rawId.Wellformed? ==>
      match BookModel.FindBook(old(db.books), rawId.id)
      case None => reply == Rejected(404, BookNotFound) && unchanged(db)
      case Some(orig) =>
        if orig.addedBy != me then reply == Rejected(403, NotAuthorized) && unchanged(db)
        else
          && db.reviews == Sequences.Filter(old(db.reviews), NotForBook(orig.id))
          && db.books == Sequences.Filter(old(db.books), BookIdIsNot(orig.id))
          && db.users == old(db.users)
          && reply == Sent(200, BookDeleted(BookDeletedMessage, |ReviewStats.ReviewsOf(old(db.reviews), orig.id)|))
  {
    match rawId {
      case Malformed(text) =>
        reply := Reject(CastErrorOf(text));
      case Wellformed(id) =>
        var found := BookModel.FindBook(db.books, id);
        match found {
          case None =>
            reply := Throw(BookNotFound, 404);
          case Some(orig) =>
            if orig.addedBy != me {
              return Throw(NotAuthorized, 403);
            }
            ghost var reviewsBefore := db.reviews;
            var deletedCount := db.DeleteReviewsOfBook(orig.id);
            if old(db.Consistent()) {
              ReferencedFilterReviews(db.users, db.books, reviewsBefore, NotForBook(orig.id));
              ReferencedRemoveBook(db.users, db.books, db.reviews, orig.id);
            }
            db.DeleteBook(orig);
            reply := Sent(200, BookDeleted(BookDeletedMessage, deletedCount));
        }
    }
  }

  /** After the cascade the book is gone, no review refers to it and its
      statistics are empty; every other book and review is kept; and the
      reported count plus the reviews kept is the old number of reviews. */
  lemma CascadeSpec(books: seq<Book>, reviews: seq<Review>, id: Id)
    ensures var books', reviews' := Sequences.Filter(books, BookIdIsNot(id)), Sequences.Filter(reviews, NotForBook(id));
      && BookModel.FindBook(books', id).None?
      && (forall b :: b in books && b.id != id ==> b in books')
      && (forall r :: r in reviews' <==> r in reviews && r.bookId != id)
      && ReviewStats.StatsForBook(reviews', id) == ReviewStats.Stats(None, 0, ReviewStats.BaseDistribution())
      && |ReviewStats.ReviewsOf(reviews, id)| + |reviews'| == |reviews|
  {
    var reviews' := Sequences.Filter(reviews, NotForBook(id));
    ReviewStats.StatsOfUnreviewed(reviews', id);
    Sequences.FilterSplit(reviews, ReviewModel.ForBook(id), NotForBook(id));
  }
}
