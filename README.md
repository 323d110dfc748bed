# Book-review backend: a verified model

This project models the backend core of a book-review platform. Users sign up and log in. They add books, and they review books with a rating from 1 to 5 and an optional text. Each book is shown with its review statistics: a count, an average rounded to two places, and a five-bucket histogram. The system has three collections (users, books, reviews) and a uniqueness rule of one review per book and user. The controllers run their checks in a fixed order and answer every failure with a status code and a message.

Modules follow the repository's files:

| module | models |
|---|---|
| `Common` | identifiers, unset, `null` or string paths, `Number()` outcomes, JavaScript error values and `AppError` |
| `Text` | `trim`, `toLowerCase`, joining, case-insensitive matching, string order |
| `Sequences` | filtering, first match, replace-by-key, stable insertion sort, windows |
| `UserModel`, `BookModel`, `ReviewModel` | the three schemas: setters, validators, serialisation transforms |
| `ReviewStats` | the statistics helpers |
| `ErrorMiddleware` | error classification and the error response |
| `Store` | the database: a class `Db` holding the three collections, a clock and an id counter |
| `ReviewController`, `BookController`, `UserController`, `AuthController` | the request handlers |

Handlers that write to the database are methods on a `Db`, with `modifies`. Each one states its full reply and the new contents of every collection, for every branch. Each write also preserves two collection invariants:
- `Db.Valid`: every row satisfies its schema, emails are unique, there is at most one review per (book, user), ids are unique and timestamps are below the clock.
- `Db.Consistent`: every reference resolves.

Read-only handlers (`GetBooks`, `GetBookById`, `GetReviews`, `Login`) are methods that change nothing. The profile handler is a function. Errors a handler passes to `next` appear as `Rejected(status, message)`: what the error middleware makes of them (`ErrorMiddleware.Reject`).

A failed schema validation carries mongoose's default messages. Each quotes the offending value: a number as `String(x)` writes it, a string between backquotes. Length limits count UTF-16 code units, as JavaScript's `length` does, so a character outside the Basic Multilingual Plane counts twice.

The model follows the code where the design description differs from it:
- A rating is accepted when `Number(rating)` is not NaN and lies in [1, 5]; it need not be whole. The histogram therefore sums to the review count only when every rating is whole. `HistogramTotal` states that assumption, and `FractionalRatingMissesHistogram` shows a rating of 3.5 that is counted but falls in no bucket.
- `totalPages` is `max(1, ceil(total / limit))`, so it is 1, not 0, for an empty result.
- `updateBook` and `deleteBook` do not check the id format themselves. A malformed id reaches the store as a cast error, and the middleware turns it into 404 "Resource not found".
- With `sortBy=rating`, the store sorts by creation time, newest first. The page is then reordered by rating in memory.

## Model

| member | source | states |
|---|---|---|
| ReviewStats.BaseDistribution | backend/src/utils/reviewStats.js:3-9 | the keys are exactly 1..5 and every bucket is 0 |
| ReviewStats.BucketOf | backend/src/utils/reviewStats.js:14-16 | a row names a bucket exactly when its rating is one of 1.0..5.0, and the bucket is that rating |
| ReviewStats.NormaliseDistribution | backend/src/utils/reviewStats.js:11-20 | the loop over the grouped rows gives `Normalised(rows)`, whose keys are exactly 1..5 |
| ReviewStats.NormalisedShape | backend/src/utils/reviewStats.js:11-20 | bucket k is the count of the last row naming k; no rows give the base distribution; a row whose rating names no bucket changes nothing; a row naming k sets bucket k to its count |
| ReviewStats.GroupByRating | backend/src/utils/reviewStats.js:36-43 | one row per distinct rating, whose count is the number of ratings equal to it; a rating has a row exactly when it occurs |
| ReviewStats.GroupedBucket | backend/src/utils/reviewStats.js:36-55 | bucket k of the normalised grouping is the number of ratings equal to k |
| ReviewStats.Round2Bounds | backend/src/utils/reviewStats.js:52 | rounding to two places moves a value by at most 0.005 and keeps a value in [1, 5] within [1, 5] |
| ReviewStats.AverageSpec | backend/src/utils/reviewStats.js:48-53 | for ratings in [1, 5]: the average is null exactly when there are none, and otherwise is the mean rounded to two places, lies in [1, 5] and is within 0.005 of the mean |
| ReviewStats.StatsCounts | backend/src/utils/reviewStats.js:22-57 | the count is the number of the book's reviews; the distribution has keys 1..5; bucket k counts the book's reviews rated k |
| ReviewStats.StatsOfUnreviewed | backend/src/utils/reviewStats.js:48-55 | a book without reviews gets a null average, count 0 and the base distribution |
| ReviewStats.StatsAverage | backend/src/utils/reviewStats.js:48-53 | with stored ratings, the average is null exactly when the count is 0, and is otherwise the rounded mean of the book's ratings, in [1, 5] |
| ReviewStats.HistogramTotal | backend/src/utils/reviewStats.js:36-55 | the buckets sum to the number of whole ratings among the book's reviews, which is the review count when every rating is whole |
| ReviewStats.FractionalRatingMissesHistogram | backend/src/utils/reviewStats.js:14-16 | a single review rated 3.5 is counted but lands in no bucket |
| ReviewStats.WorkedExample | backend/src/utils/reviewStats.js:22-57 | ratings 5, 5, 4, 3 give average 4.25, count 4 and buckets {3: 1, 4: 1, 5: 2} |
| ReviewStats.GroupByBookSpec | backend/src/utils/reviewStats.js:64-70 | grouping by book gives a book a group exactly when it has reviews, holding the sum and the number of their ratings |
| ReviewStats.MatchedReviewsOf | backend/src/utils/reviewStats.js:63 | after the `$in` match a listed book keeps all its reviews and an unlisted one has none |
| ReviewStats.BulkAgreesWithSingle | backend/src/utils/reviewStats.js:59-84 | the map built by matching, grouping into sums and counts, and rounding each mean (a zero mean as null) agrees with the single-book form: no ids give the empty map; an id is a key exactly when it is listed and has reviews; each entry's average and count are the single-book ones |
| ReviewStats.DecorationAgreesWithSingle | backend/src/controllers/book.controller.js:78-85 | decorating a listed book from the bulk map gives its single-book average and count, so null and 0 without reviews |
| UserModel.NormalizeEmailShape | backend/src/models/user.model.js:7-13 | the stored email is trimmed and lower case, and normalising again changes nothing |
| UserModel.NormalizedEmailFixed | backend/src/models/user.model.js:11-12 | the setters leave an already normalised email unchanged |
| UserModel.ValidationMessages | backend/src/models/user.model.js:6-14 | a user validates exactly when name and email are non-empty and the password is at least 6 UTF-16 code units long; each failure contributes its message, the length message quoting the password |
| UserModel.PreSavePassword | backend/src/models/user.model.js:19-22 | an unmodified password is stored as it is |
| UserModel.ToJsonHidesSecrets | backend/src/models/user.model.js:28-42 | the serialised user does not depend on the password or `__v`, and two users serialise alike exactly when they agree on everything else |
| UserModel.FindByEmail | backend/src/controllers/auth.controller.js:19-22 | a found user is stored and has that email; nothing is found exactly when no stored user has it |
| BookModel.ValidationMessages | backend/src/models/book.model.js:5-9 | a book validates exactly when it has a non-empty title and any year is at least 0; each failure contributes its message, the year's quoting the year |
| BookModel.TrimDraftTrimmed | backend/src/models/book.model.js:5-8 | the setters leave title, author, description and genre trimmed and the year as given |
| BookModel.TrimDraftOfStored | backend/src/models/book.model.js:5-8 | the setters leave a stored book's fields unchanged |
| BookModel.ToJsonForgetsOnlyVersion | backend/src/models/book.model.js:21-35 | two books serialise alike exactly when they differ at most in `__v` |
| BookModel.FindBook | backend/src/controllers/book.controller.js:114-117 | a found book is stored and has that id; nothing is found exactly when no stored book has it |
| ReviewModel.ValidationMessages | backend/src/models/review.model.js:15-16 | a review validates exactly when the rating lies in [1, 5] and the text is at most 1000 UTF-16 code units long; each failure contributes its message, quoting the rating or the text |
| ReviewModel.TextFitsCountsCodeUnits | backend/src/models/review.model.js:16 | 600 characters outside the Basic Multilingual Plane are too long a text, 1000 inside it are not |
| Text.Utf16Length | backend/src/controllers/auth.controller.js:15 | `length` counts one or two code units per character: one each inside the Basic Multilingual Plane, two each outside it |
| Text.NatTextValue | backend/src/models/book.model.js:9 | the digits a message writes for a whole number read back as that number |
| Text.NumberTextOfWhole | backend/src/models/book.model.js:9 | a whole number is quoted with its sign and digits and no decimal point |
| Text.NumberTextOfHalf | backend/src/models/review.model.js:15 | a fractional value keeps its decimal places: -0.5 is quoted as "-0.5" |
| ReviewModel.ToJsonForgetsOnlyVersion | backend/src/models/review.model.js:23-37 | two reviews serialise alike exactly when they differ at most in `__v` |
| ErrorMiddleware.Throw | backend/src/middlewares/error.middleware.js:32-44 | an application error reaches the client with its own status and message |
| ErrorMiddleware.ClientReply | backend/src/middlewares/error.middleware.js:3-51 | every error reaches the client with a non-zero status and `success` false, with the original stack exactly outside production; a cast error is 404 "Resource not found" whatever its code; a duplicate key or a validation error is 400; any other error keeps its own non-zero status, else 500, and its message, an unexpected error's empty message becoming "Internal Server Error" |
| ErrorMiddleware.DuplicateKeyMapping | backend/src/middlewares/error.middleware.js:8-16 | code 11000 becomes 400; the message names one field as "field", several as "fields", contains every key, and falls back to "Duplicate field value entered" without keys |
| ErrorMiddleware.ValidationMapping | backend/src/middlewares/error.middleware.js:18-23 | a validation error becomes 400 with the field messages joined by ", ", each of them in the message |
| ErrorMiddleware.AppErrorPassesThrough | backend/src/middlewares/error.middleware.js:32-44 | `new AppError(message, status)` is answered with that status and message in every environment |
| Store.BookIds | backend/src/controllers/book.controller.js:74-76 | the ids of the listed books, position by position |
| Store.NewestReviewsFirstSpec | backend/src/controllers/review.controller.js:138-141 | sorting by `createdAt` descending is a permutation and leaves creation times non-increasing |
| Store.NewestBooksFirstSpec | backend/src/controllers/user.controller.js:10 | sorting by `createdAt` descending is a permutation and leaves creation times non-increasing |
| Store.PopulateAll | backend/src/controllers/review.controller.js:142-144 | every listed review is populated with its author, position by position |
| Store.PopulateShowsReview | backend/src/controllers/review.controller.js:43 | a populated review keeps the review's fields, carries `__v` exactly when lean, and names its author when the author is stored |
| Store.UsersOkAppend | backend/src/models/user.model.js:9 | adding a user whose email is not taken keeps all users valid with unique emails |
| Store.ReviewsOkAppend | backend/src/models/review.model.js:21 | adding a review for a new (book, user) pair keeps at most one review per pair |
| Store.Db.CreateUser | backend/src/models/user.model.js:4-22 | validation failure or a taken email leaves the store unchanged with the store's error; otherwise the user is appended with trimmed name, normalised email, hashed password and fresh id and timestamps |
| Store.Db.CreateBook | backend/src/models/book.model.js:3-17 | validation failure leaves the store unchanged with the store's error; otherwise the trimmed book is appended with its owner and a fresh id and timestamps |
| Store.Db.SaveBook | backend/src/controllers/book.controller.js:145-146 | no change saves nothing, and `null` over an unset field is a change; a change that fails validation is refused; otherwise only that book is replaced, with a new `updatedAt` |
| Store.Db.DeleteBook | backend/src/controllers/book.controller.js:160 | removes exactly the books with that id |
| Store.Db.CreateReview | backend/src/models/review.model.js:5-21 | validation failure or a taken (book, user) pair leaves the store unchanged with the store's error; otherwise the review is appended with trimmed text and fresh id and timestamps |
| Store.Db.SaveReview | backend/src/controllers/review.controller.js:86 | no change saves nothing, and `null` over an unset text is a change; a change that fails validation is refused; otherwise only that review is replaced, with a new `updatedAt` |
| Store.Db.DeleteReview | backend/src/controllers/review.controller.js:117 | removes exactly the reviews with that id |
| Store.Db.DeleteReviewsOfBook | backend/src/controllers/book.controller.js:159 | removes exactly the book's reviews and reports how many there were |
| ReviewController.AddReview | backend/src/controllers/review.controller.js:8-48 | checks invalid id (400), missing book (404), existing review (400), bad rating (400) and over-long text (400) in that order, changing nothing on any failure; otherwise stores the parsed rating and trimmed text and answers 201 with the populated review and the book's new statistics |
| ReviewController.AddedReviewIsTheOnlyOne | backend/src/controllers/review.controller.js:36-47 | after the add, the new review is the only one for its (book, user) pair, and the count rises by one |
| ReviewController.UpdateReview | backend/src/controllers/review.controller.js:50-92 | invalid ids give 400; a review that is not the requester's under that book gives 404; a supplied bad rating gives 400; only supplied fields change, a text given as `null` clears the text, and an over-long text changes nothing; the answer carries the saved review and recomputed statistics |
| ReviewController.StoredTextIsTrimmed | backend/src/models/review.model.js:16 | a stored review text is already trimmed |
| ReviewController.TextTooLongReply | backend/src/controllers/review.controller.js:82-86 | with a good rating, saving fails exactly when the text is too long, and the client then gets 400 with the length message, which quotes the text |
| ReviewController.SameReplace | backend/src/controllers/review.controller.js:86 | saving a review unchanged leaves the collection as it was |
| ReviewController.UpdateKeepsOwnership | backend/src/controllers/review.controller.js:74-86 | an update never changes the review's id, book, author or creation time |
| ReviewController.DeleteReview | backend/src/controllers/review.controller.js:94-122 | invalid ids give 400; a review that is not the requester's gives 404; otherwise only that review is removed and the statistics are recomputed without it |
| ReviewController.DeletedReviewUncounted | backend/src/controllers/review.controller.js:117-121 | the deleted review is gone, every other review stays, and the book's count drops by one |
| ReviewController.GetReviews | backend/src/controllers/review.controller.js:124-147 | invalid id gives 400; a missing book 404; otherwise the book's statistics and its reviews newest first, populated |
| ReviewController.ListedReviewsSpec | backend/src/controllers/review.controller.js:138-144 | the listed reviews are exactly the book's reviews, each once, newest first |
| BookController.PickBookFields | backend/src/controllers/book.controller.js:11-26 | the picked keys are exactly the allowed fields that were given, with `year` kept only when `Number(year)` is not NaN; text fields are their given values, `null` included, and `year` its number |
| BookController.PickIgnoresOtherFields | backend/src/controllers/book.controller.js:11-26 | fields outside the allowed list make no difference |
| BookController.AssignPicked | backend/src/controllers/book.controller.js:145 | `Object.assign` takes each picked field from the body and keeps every other field |
| BookController.UpdateMergesOnlyPicked | backend/src/controllers/book.controller.js:145-146 | after the setters, each field is the trimmed given value when picked and the stored value otherwise |
| BookController.AddBook | backend/src/controllers/book.controller.js:28-32 | a draft failing validation gives 400 with the joined messages and changes nothing; otherwise the book is stored with the requester as owner and answered with 201 |
| BookController.ClampPage | backend/src/controllers/book.controller.js:35-36 | the page is at least 1: the parsed page when it is at least 1, and 1 otherwise |
| BookController.ClampLimit | backend/src/controllers/book.controller.js:37-39 | the limit lies in [1, 20]: the parsed value when it lies there, 5 when absent or 0, 1 when negative, 20 when larger |
| BookController.BlankTermsMatchAll | backend/src/controllers/book.controller.js:40-55 | a search or genre that is absent or blank filters nothing |
| BookController.MatchingShape | backend/src/controllers/book.controller.js:46-55 | a genre match is a whole-string, case-insensitive match, and a book always matches a search for its own title |
| BookController.SortKeyOf | backend/src/controllers/book.controller.js:43-64 | year and title sort in the requested direction (ascending only for "asc"); every other key sorts newest first |
| BookController.SortLeIsTotalPreorder | backend/src/controllers/book.controller.js:57-64 | each sort order is total and transitive |
| BookController.SortedSpec | backend/src/controllers/book.controller.js:45-72 | the sorted result is a permutation of the matching books, contains exactly the matching books, and is in the sort order |
| BookController.Decorate | backend/src/controllers/book.controller.js:78-85 | one listing per book, position by position, decorated from the bulk statistics of the page |
| BookController.DecoratedStats | backend/src/controllers/book.controller.js:78-85 | each listing keeps its book and carries its single-book average and count, null and 0 without reviews |
| BookController.PathValue | backend/src/controllers/book.controller.js:14-21 | a copied body value sets its path: JSON `null` sets it to `null`, never leaves it unset, and a string sets it to that string |
| BookController.InsertLast | backend/src/controllers/book.controller.js:86-92 | one insertion step: the element at `i` moves left past the sorted prefix's elements it strictly precedes, giving `InsertByRating` of the prefix and the element, and the rest of the array is unchanged |
| BookController.SortByRating | backend/src/controllers/book.controller.js:86-92 | the in-place sort leaves the array equal to `RatingSort` of its contents: a permutation of the page, ordered by `averageRating ?? 0` in the requested direction |
| BookController.RatingSortOrdered | backend/src/controllers/book.controller.js:86-92 | `RatingSort` orders the books by `averageRating ?? 0`, ascending or descending as asked |
| BookController.InsertByRatingKeepsTies | backend/src/controllers/book.controller.js:86-92 | inserting a book adds it after the books of its own rating and leaves the books of every other rating as they were |
| BookController.RatingSortStable | backend/src/controllers/book.controller.js:86-92 | the sort is stable, as `Array.prototype.sort` is: for every rating, the books with that rating keep their relative order |
| BookController.RatingSorted | backend/src/controllers/book.controller.js:86-92 | the sorted page is `RatingSort` of the page: a permutation of it, in rating order, with ties in their original order |
| BookController.CeilDiv | backend/src/controllers/book.controller.js:100 | the ceiling quotient: the least c with n <= c * d |
| BookController.MetaSpec | backend/src/controllers/book.controller.js:94-103 | `totalPages` is at least 1, is the least number of pages holding the total, and is 1 exactly when the total fits in one page; `hasNextPage` holds exactly when the page is before the last; `hasPrevPage` exactly when the page is not the first |
| BookController.PageOfSpec | backend/src/controllers/book.controller.js:67-72 | at most `limit` books, taken in order from offset (page - 1) * limit of the sorted matches, all of them matching |
| BookController.GetBooks | backend/src/controllers/book.controller.js:34-105 | answers 200 with the metadata over all matching books and the decorated page; with `sortBy=rating` the page is its stable sort by rating, a permutation in rating order |
| BookController.GetBookById | backend/src/controllers/book.controller.js:107-134 | invalid id gives 400, a missing book 404, otherwise 200 with the book's details |
| BookController.DetailsSpec | backend/src/controllers/book.controller.js:119-133 | the details carry the serialised book, its review count, a five-key distribution and exactly its reviews, newest first |
| BookController.AssignAndSave | backend/src/controllers/book.controller.js:145-147 | an unchanged merge answers the stored book and saves nothing; a failing one gives 400 with the joined messages; otherwise only that book is replaced |
| BookController.UpdateBook | backend/src/controllers/book.controller.js:136-148 | malformed id gives 404 "Resource not found", a missing book 404, another owner 403, all changing nothing; otherwise the merge is saved as above |
| BookController.DeleteBook | backend/src/controllers/book.controller.js:150-163 | malformed id, missing book and another owner as for update; otherwise the book's reviews and then the book are removed, and the answer reports how many reviews went |
| BookController.CascadeSpec | backend/src/controllers/book.controller.js:159-162 | after the cascade the book is gone, every other book and review stays, the book has no statistics left, and the deleted count is the number of its reviews |
| UserController.DecorateOwn | backend/src/controllers/user.controller.js:21-28 | one entry per own book, position by position, decorated from the bulk statistics |
| UserController.WithBooks | backend/src/controllers/user.controller.js:30-33 | one entry per own review, position by position, with `book` a copy of the populated book |
| UserController.ProfileBooksSpec | backend/src/controllers/user.controller.js:10 | the books are exactly those the requester added, each once, newest first |
| UserController.ProfileBooksStats | backend/src/controllers/user.controller.js:17-28 | each book carries its single-book average and count |
| UserController.ProfileReviewsSpec | backend/src/controllers/user.controller.js:11-14 | the reviews are exactly those the requester wrote, each once, newest first |
| UserController.ProfileReviewFields | backend/src/controllers/user.controller.js:30-33 | each review keeps its fields and author, and `book` equals its populated book, which is present when the book is stored |
| UserController.ProfileUserSpec | backend/src/controllers/user.controller.js:35-42 | the summary is id, name, email and creation time, and does not depend on the password |
| AuthController.NormalizationAgrees | backend/src/controllers/auth.controller.js:8-9 | the controller's trim-and-lowercase equals the schema's normalisation and is idempotent |
| AuthController.Signup | backend/src/controllers/auth.controller.js:6-31 | missing fields, a password shorter than 6 UTF-16 code units and a taken email give 400 in that order, changing nothing; otherwise one user is added with the normalised name and email and the hashed password, and 201 carries a token and the user without the password |
| AuthController.CreateAccount | backend/src/controllers/auth.controller.js:24-28 | creating an account from checked, normalised inputs appends exactly that user |
| AuthController.Login | backend/src/controllers/auth.controller.js:33-50 | missing fields give 400; an unknown email and a wrong password both give 401 "Invalid credentials"; otherwise 200 with a token and the user without the password |
| AuthController.SignupThenLogin | backend/src/controllers/auth.controller.js:6-50 | after a successful sign-up, logging in with the same password and the email in any padding or case succeeds for that user |
| AuthController.FirstWithEmail | backend/src/models/user.model.js:9 | with unique emails, looking up a user's email finds that user |

## Left out

- Rating type: ratings and years are JavaScript numbers, modelled as reals; a rating is not required to be whole, as stated above.
- `Infinity` is not representable; `Number()` gives NaN or a finite value.
- `Number()` on strings and `parseInt` are not modelled. Query numbers arrive already parsed, as `Option<int>`.
- The book and review handlers receive each body field as what the schema's string cast makes of it, together with its `Number()` outcome. A string path is unset, `null` or a string (`OptString`), so a body field given as JSON `null` is stored as `null`: mongoose counts it as a change over an unset field, the `trim` setter and `maxlength` pass it, and `required` refuses it. Body values the string cast rejects, such as objects, are not modelled.
- The sign-up and login handlers read `req.body` with no cast, and the model gives them strings only. A non-string name or email makes `trim` throw a TypeError, which the handler answers with 500. A non-string password has no `length`, so the length check passes it on to the schema. Neither case is modelled.
- Array-valued query parameters are not modelled; every query parameter is an optional string.
- Trimming and case folding cover ASCII white space and letters only. The search and genre patterns are treated as literal strings; regular-expression metacharacters in them are not modelled.
- The store's order for ties is unspecified; the model sorts stably, keeping ties in insertion order.
- `$avg` and `toFixed(2)` are reals with exact round-half-up, not binary floating point.
- Text.NumberText: writes a number in plain decimal with at most 20 decimal places. JavaScript's exponent notation, used from 1e21 up and below 1e-6, and the shortest round-trip digits of a double are not modelled.
- Validator messages follow mongoose's default templates; custom or version-specific message formats are not modelled.
- `bcrypt.hash` with its salt, `bcrypt.compare` and `generateToken` are function parameters.
- The requester (`req.user`) is given as a parameter of a stored user; the authentication middleware that sets it is not part of this model.
- `Promise.all` is modelled as sequential reads. Races between concurrent requests, such as two sign-ups with one email, are not modelled; uniqueness is a store invariant instead.
- A partial failure of the cascade delete, with reviews gone and the book still stored, is not modelled.
- `console.error` logging in the error handler is not modelled.
- Lean query results keep `__v`, as the store returns them; only documents serialised through `toJSON` drop it.
- `select: false` on the password is modelled only as the serialised user leaving it out.
- UserModel.PreSavePassword: states only that an unmodified password is kept; the hash of a modified one is a parameter.
- `backend/src/utils/appError.js` is not part of this model. `Common.AppErrorOf` assumes what the error middleware relies on: an `AppError` keeps `Error`'s name "Error", carries the given `statusCode`, and is recognised by `instanceof AppError`.
- Routes, the application set-up, the database connection, the seed script and the frontend are not part of this model.
