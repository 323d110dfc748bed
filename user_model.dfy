/** The User schema: a required trimmed name, a required unique email kept
    lower-case and trimmed, a required password of at least 6 UTF-16 code units
    that is hashed on save and never serialised, and the projections
    (`populate`) other documents take of a user. */
module UserModel {
  import opened Common
  import Text
  import Sequences

  const MinPasswordLength: nat := 6

  const NameRequiredMessage := "Path `name` is required."
  const EmailRequiredMessage := "Path `email` is required."
  const PasswordRequiredMessage := "Path `password` is required."
  /** The message of the `minlength` validator, which quotes the password. */
  function PasswordTooShortMessage(password: string): string {
    "Path `password` (`" + password + "`) is shorter than the minimum allowed length (6)."
  }

  /** A stored user. `password` holds the hash; `version` is `__v`. */
  datatype User = User(
    id: Id,
    name: string,
    email: string,
    password: string,
    createdAt: nat,
    updatedAt: nat,
    version: nat)

  /** The `lowercase` and `trim` setters of the email field. */
  function NormalizeEmail(email: string): string {
    Text.Trim(Text.ToLower(email))
  }

  predicate IsNormalizedEmail(email: string) {
    Text.IsLowerCase(email) && Text.IsTrimmed(email)
  }

  /** The setters leave a lower-case trimmed email, and normalising an
      address twice changes nothing. */
  lemma NormalizeEmailShape(email: string)
    ensures IsNormalizedEmail(NormalizeEmail(email))
    ensures NormalizeEmail(NormalizeEmail(email)) == NormalizeEmail(email)
  {
    var l := Text.ToLower(email);
    Text.ToLowerIdempotent(email);
    Text.TrimKeepsLowerCase(l);
    Text.TrimmedShape(l);
    var t := Text.Trim(l);
    Text.ToLowerOfLowerCase(t);
    Text.TrimOfTrimmed(t);
  }

  /** An address already in normal form is stored as given. */
  lemma NormalizedEmailFixed(email: string)
    requires IsNormalizedEmail(email)
    ensures NormalizeEmail(email) == email
  {
    Text.ToLowerOfLowerCase(email);
    Text.TrimOfTrimmed(email);
  }

  /** What the validators report for a candidate user (name and email
      after their setters, the password in clear), in schema order. */
  function ValidationMessages(name: string, email: string, password: string): (msgs: seq<string>)
    ensures msgs == [] <==> name != "" && email != "" && Text.Utf16Length(password) >= MinPasswordLength
    ensures name == "" ==> NameRequiredMessage in msgs
    ensures email == "" ==> EmailRequiredMessage in msgs
    ensures password == "" ==> PasswordRequiredMessage in msgs
    ensures password != "" && Text.Utf16Length(password) < MinPasswordLength ==> PasswordTooShortMessage(password) in msgs
  {
    (if name == "" then [NameRequiredMessage] else [])
    + (if email == "" then [EmailRequiredMessage] else [])
    + (if password == "" then [PasswordRequiredMessage]
       else if Text.Utf16Length(password) < MinPasswordLength then [PasswordTooShortMessage(password)] else [])
  }

  /** The schema's constraints on a stored user. */
  predicate ValidUser(u: User) {
    && u.name != "" && Text.IsTrimmed(u.name)
    && u.email != "" && IsNormalizedEmail(u.email)
  }

  /** The unique index on `email`. */
  predicate UniqueEmails(users: seq<User>) {
    Sequences.DistinctBy(users, EmailOf)
  }

  function EmailOf(u: User): string {
    u.email
  }

  function UserIdOf(u: User): Id {
    u.id
  }

  /** The pre-save hook: the password is replaced by its hash only when it
      was modified; `hash` stands for bcrypt with its salt. */
  function PreSavePassword(password: string, modified: bool, hash: string -> string): (stored: string)
    ensures !modified ==> stored == password
  {
    if !modified then password else hash(password)
  }

  /** A user as `toJSON`/`toObject` render it: without password and `__v`. */
  datatype UserJson = UserJson(id: Id, name: string, email: string, createdAt: nat, updatedAt: nat)

  function ToJson(u: User): UserJson {
    UserJson(u.id, u.name, u.email, u.createdAt, u.updatedAt)
  }

  /** Serialisation does not depend on the password or the version: two users
      that differ only there render identically, and every other field is kept. */
  lemma ToJsonHidesSecrets(u: User, password: string, version: nat)
    ensures ToJson(u.(password := password, version := version)) == ToJson(u)
    ensures forall v :: ToJson(v) == ToJson(u) <==> v.(password := "", version := 0) == u.(password := "", version := 0)
  {
  }

  function IdIs(id: Id): User -> bool {
    (u: User) => u.id == id
  }

  function EmailIs(email: string): User -> bool {
    (u: User) => u.email == email
  }

  /** `User.findById(id)`. */
  function FindUser(users: seq<User>, id: Id): (r: Option<User>)
    ensures r.Some? ==> r.value in users && r.value.id == id
    ensures r.None? <==> forall u :: u in users ==> u.id != id
  {
    Sequences.FindFirst(users, IdIs(id))
  }

  /** `User.findOne({ email })`. */
  function FindByEmail(users: seq<User>, email: string): (r: Option<User>)
    ensures r.Some? ==> r.value in users && r.value.email == email
    ensures r.None? <==> forall u :: u in users ==> u.email != email
  {
    Sequences.FindFirst(users, EmailIs(email))
  }

  predicate HasUser(users: seq<User>, id: Id) {
    exists u :: u in users && u.id == id
  }

  /** `populate("userId", "name")`. */
  datatype Author = Author(id: Id, name: string)

  /** `populate("addedBy", "name email")`. */
  datatype Owner = Owner(id: Id, name: string, email: string)

  function AuthorOf(users: seq<User>, id: Id): Option<Author> {
    match FindUser(users, id)
    case None => None
    case Some(u) => Some(Author(u.id, u.name))
  }

  function OwnerOf(users: seq<User>, id: Id): Option<Owner> {
    match FindUser(users, id)
    case None => None
    case Some(u) => Some(Owner(u.id, u.name, u.email))
  }
}
