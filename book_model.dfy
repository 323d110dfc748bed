/** The Book schema: a required trimmed title, optional trimmed author,
    description and genre, an optional non-negative year, the required
    owner reference `addedBy`, timestamps, and the serialisation transform
    that drops `__v`. */
module BookModel {
  import opened Common
  import Text
  import Sequences

  const TitleRequiredMessage := "Path `title` is required."
  /** The message of the `min` validator, which quotes the year. */
  function YearMinMessage(year: real): string {
    "Path `year` (" + Text.NumberText(year) + ") is less than minimum allowed value (0)."
  }

  /** A stored book. `version` is mongoose's `__v`. */
  datatype Book = Book(
    id: Id,
    title: string,
    author: OptString,
    description: OptString,
    genre: OptString,
    year: Option<real>,
    addedBy: Id,
    createdAt: nat,
    updatedAt: nat,
    version: nat)

  /** The user-editable fields of a book document before validation. */
  datatype BookDraft = BookDraft(
    title: OptString,
    author: OptString,
    description: OptString,
    genre: OptString,
    year: Option<real>)

  /** The `trim` setters, applied when a field is assigned. */
  function TrimDraft(d: BookDraft): BookDraft {
    BookDraft(Text.TrimPath(d.title), Text.TrimPath(d.author), Text.TrimPath(d.description),
              Text.TrimPath(d.genre), d.year)
  }

  /** `required: true` on a string: a string, and not empty. */
  predicate HasTitle(d: BookDraft) {
    d.title.Str? && d.title.value != ""
  }

  /** `min: 0` on the year, which is checked only when present. */
  predicate YearOk(year: Option<real>) {
    year.Some? ==> year.value >= 0.0
  }

  /** What the validators report for a (trimmed) draft, in schema order;
      empty exactly when the draft may be stored. */
  function ValidationMessages(d: BookDraft): (msgs: seq<string>)
    ensures msgs == [] <==> HasTitle(d) && YearOk(d.year)
    ensures !HasTitle(d) ==> TitleRequiredMessage in msgs
    ensures !YearOk(d.year) ==> YearMinMessage(d.year.value) in msgs
  {
    (if HasTitle(d) then [] else [TitleRequiredMessage])
    + (if YearOk(d.year) then [] else [YearMinMessage(d.year.value)])
  }

  predicate OptTrimmed(field: OptString) {
    field.Str? ==> Text.IsTrimmed(field.value)
  }

  /** The schema's constraints on a stored book. */
  predicate ValidBook(b: Book) {
    && b.title != "" && Text.IsTrimmed(b.title)
    && OptTrimmed(b.author) && OptTrimmed(b.description) && OptTrimmed(b.genre)
    && YearOk(b.year)
  }

  /** The editable fields of a stored book, as a draft. */
  function DraftOf(b: Book): BookDraft {
    BookDraft(Str(b.title), b.author, b.description, b.genre, b.year)
  }

  /** The setters leave every string field trimmed. */
  lemma TrimDraftTrimmed(d: BookDraft)
    ensures OptTrimmed(TrimDraft(d).title) && OptTrimmed(TrimDraft(d).author)
    ensures OptTrimmed(TrimDraft(d).description) && OptTrimmed(TrimDraft(d).genre)
    ensures TrimDraft(d).year == d.year
  {
    if d.title.Str? { Text.TrimIsTrimmed(d.title.value); }
    if d.author.Str? { Text.TrimIsTrimmed(d.author.value); }
    if d.description.Str? { Text.TrimIsTrimmed(d.description.value); }
    if d.genre.Str? { Text.TrimIsTrimmed(d.genre.value); }
  }

  lemma TrimPathOfTrimmed(field: OptString)
    requires OptTrimmed(field)
    ensures Text.TrimPath(field) == field
  {
    if field.Str? { Text.TrimOfTrimmed(field.value); }
  }

  /** Re-running the setters on a stored book changes nothing. */
  lemma TrimDraftOfStored(b: Book)
    requires ValidBook(b)
    ensures TrimDraft(DraftOf(b)) == DraftOf(b)
  {
    TrimPathOfTrimmed(Str(b.title));
    TrimPathOfTrimmed(b.author);
    TrimPathOfTrimmed(b.description);
    TrimPathOfTrimmed(b.genre);
  }

  /** A book as `toJSON`/`toObject` render it: every field except `__v`. */
  datatype BookJson = BookJson(
    id: Id,
    title: string,
    author: OptString,
    description: OptString,
    genre: OptString,
    year: Option<real>,
    addedBy: Id,
    createdAt: nat,
    updatedAt: nat)

  function ToJson(b: Book): BookJson {
    BookJson(b.id, b.title, b.author, b.description, b.genre, b.year, b.addedBy, b.createdAt, b.updatedAt)
  }

  /** The transform loses `__v` and nothing else. */
  lemma ToJsonForgetsOnlyVersion(a: Book, b: Book)
    ensures ToJson(a) == ToJson(b) <==> a.(version := 0) == b.(version := 0)
  {
  }

  function BookIdIs(id: Id): Book -> bool {
    (b: Book) => b.id == id
  }

  /** The book with id `id`, if any (`Book.findById`). */
  function FindBook(books: seq<Book>, id: Id): (r: Option<Book>)
    ensures r.Some? ==> r.value in books && r.value.id == id
    ensures r.None? <==> forall b :: b in books ==> b.id != id
  {
    Sequences.FindFirst(books, BookIdIs(id))
  }

  function BookIdOf(b: Book): Id {
    b.id
  }

  predicate HasBook(books: seq<Book>, id: Id) {
    exists b :: b in books && b.id == id
  }
}
