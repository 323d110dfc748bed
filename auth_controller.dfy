/** Sign-up and login. The body fields are optional strings; `hash` stands
    for bcrypt with its salt, `compare` for `bcrypt.compare`, and `token`
    for `generateToken`. */
module AuthController {
  import opened Common
  import Text
  import UserModel
  import opened ErrorMiddleware
  import opened Store

  const SignupFieldsRequired := "Name, email, and password are required"
  const PasswordTooShort := "Password must be at least 6 characters"
  const EmailInUse := "Email already in use"
  const LoginFieldsRequired := "Email and password are required"
  const InvalidCredentials := "Invalid credentials"

  /** `{ token, user }`: the user as `toObject` renders it, without the password. */
  datatype AuthBody = AuthBody(token: string, user: UserModel.UserJson)

  /** `name?.trim()`, with an absent or blank name given as "". */
  function TrimmedName(name: Option<string>): string {
    match name
    case None => ""
    case Some(s) => Text.Trim(s)
  }

  /** `email?.trim().toLowerCase()`, with an absent email given as "". */
  function NormalizedInput(email: Option<string>): string {
    match email
    case None => ""
    case Some(s) => Text.ToLower(Text.Trim(s))
  }

  /** A present, non-empty string. */
  predicate Given(s: Option<string>) {
    s.Some? && s.value != ""
  }

  /** The controller's normalisation of the email agrees with the one the
      schema's setters apply, so the address looked up is the one stored; and
      neither normalisation changes an address it already produced. */
  lemma NormalizationAgrees(email: string)
    ensures NormalizedInput(Some(email)) == UserModel.NormalizeEmail(email)
    ensures UserModel.NormalizeEmail(NormalizedInput(Some(email))) == NormalizedInput(Some(email))
    ensures UserModel.IsNormalizedEmail(NormalizedInput(Some(email)))
  {
    Text.TrimToLowerCommute(email);
    UserModel.NormalizeEmailShape(email);
  }

  /** `signup`. */
  method Signup(db: Db, name: Option<string>, email: Option<string>, password: Option<string>,
                hash: string -> string, token: User -> string)
    returns (reply: Reply<AuthBody>)
    requires db.Valid()
    modifies db
    ensures db.Valid()
    ensures old(db.Consistent()) ==> db.Consistent()
    ensures var n, e := TrimmedName(name), NormalizedInput(email);
      if n == "" || e == "" || !Given(password) then reply == Rejected(400, SignupFieldsRequired) && unchanged(db)
      else if Text.Utf16Length(password.value) < UserModel.MinPasswordLength then reply == Rejected(400, PasswordTooShort) && unchanged(db)
      else if UserModel.FindByEmail(old(db.users), e).Some? then reply == Rejected(400, EmailInUse) && unchanged(db)
      else
        var user := UserModel.User(old(db.nextId), n, e, hash(password.value), old(db.clock), old(db.clock), 0);
        && db.users == old(db.users) + [user] && db.books == old(db.books) && db.reviews == old(db.reviews)
        && reply == Sent(201, AuthBody(token(user), UserModel.ToJson(user)))
  {
    var trimmedName := TrimmedName(name);
    var normalizedEmail := NormalizedInput(email);
    if trimmedName == "" || normalizedEmail == "" || !Given(password) {
      return Throw(SignupFieldsRequired, 400);
    }
    if Text.Utf16Length(password.value) < UserModel.MinPasswordLength {
      return Throw(PasswordTooShort, 400);
    }
    var existing := UserModel.FindByEmail(db.users, normalizedEmail);
    if existing.Some? {
      return Throw(EmailInUse, 400);
    }
    assert Text.IsTrimmed(trimmedName) by { Text.TrimIsTrimmed(name.value); }
    assert UserModel.IsNormalizedEmail(normalizedEmail) by { NormalizationAgrees(email.value); }
    var user := CreateAccount(db, trimmedName, normalizedEmail, password.value, hash);
    reply := Sent(201, AuthBody(token(user), UserModel.ToJson(user)));
  }

  /** `User.create({ name, email, password })` once the controller's checks
      have passed: the schema's setters leave the trimmed name and the
      normalised email as they are, the validators accept them, and the
      account is stored with the password hashed. */
  method CreateAccount(db: Db, name: string, email: string, password: string, hash: string -> string)
    returns (user: User)
    requires db.Valid()
    requires name != "" && Text.IsTrimmed(name)
    requires email != "" && UserModel.IsNormalizedEmail(email)
    requires Text.Utf16Length(password) >= UserModel.MinPasswordLength
    requires UserModel.FindByEmail(db.users, email).None?
    modifies db
    ensures db.Valid()
    ensures old(db.Consistent()) ==> db.Consistent()
    ensures user == UserModel.User(old(db.nextId), name, email, hash(password), old(db.clock), old(db.clock), 0)
    ensures db.users == old(db.users) + [user] && db.books == old(db.books) && db.reviews == old(db.reviews)
  {
    Text.TrimOfTrimmed(name);
    UserModel.NormalizedEmailFixed(email);
    ghost var before := db.users;
    var created := db.CreateUser(name, email, password, hash);
    user := created.value;
    if old(db.Consistent()) {
      ReferencedAddUser(before, db.books, db.reviews, user);
    }
  }

  /** `login`. An unknown address and a wrong password get the same answer. */
  method Login(db: Db, email: Option<string>, password: Option<string>,
               compare: (string, string) -> bool, token: User -> string)
    returns (reply: Reply<AuthBody>)
    ensures var e := NormalizedInput(email);
      if e == "" || !Given(password) then reply == Rejected(400, LoginFieldsRequired)
      else match UserModel.FindByEmail(db.users, e)
        case None => reply == Rejected(401, InvalidCredentials)
        case Some(user) =>
          if !compare(password.value, user.password) then reply == Rejected(401, InvalidCredentials)
          else reply == Sent(200, AuthBody(token(user), UserModel.ToJson(user)))
  {
    var normalizedEmail := NormalizedInput(email);
    if normalizedEmail == "" || !Given(password) {
      return Throw(LoginFieldsRequired, 400);
    }
    var found := UserModel.FindByEmail(db.users, normalizedEmail);
    match found {
      case None =>
        reply := Throw(InvalidCredentials, 401);
      case Some(user) =>
        if !compare(password.value, user.password) {
          reply := Throw(InvalidCredentials, 401);
        } else {
          reply := Sent(200, AuthBody(token(user), UserModel.ToJson(user)));
        }
    }
  }

  /** A successful sign-up followed by a login with the same password and
      the address written with other padding or capitals succeeds, for the
      account just created, when `compare` accepts a password against its
      hash. */
  method SignupThenLogin(db: Db, name: string, email: string, otherSpelling: string, password: string,
                         hash: string -> string, compare: (string, string) -> bool, token: User -> string)
    returns (signedUp: Reply<AuthBody>, loggedIn: Reply<AuthBody>)
    requires db.Valid()
    requires NormalizedInput(Some(otherSpelling)) == NormalizedInput(Some(email))
    requires forall p :: compare(p, hash(p))
    modifies db
    ensures signedUp.Sent? ==> loggedIn.Sent? && loggedIn.status == 200 && loggedIn.body.user == signedUp.body.user
  {
    signedUp := Signup(db, Some(name), Some(email), Some(password), hash, token);
    if signedUp.Sent? {
      var user := db.users[|db.users| - 1];
      assert user in db.users;
      FirstWithEmail(db.users, user);
      assert compare(password, hash(password));
    }
    loggedIn := Login(db, Some(otherSpelling), Some(password), compare, token);
  }

  /** In a collection with unique emails, looking up a user's email finds that user. */
  lemma FirstWithEmail(users: seq<User>, u: User)
    requires UserModel.UniqueEmails(users) && u in users
    ensures UserModel.FindByEmail(users, u.email) == Some(u)
  {
    var found := UserModel.FindByEmail(users, u.email);
    var i :| 0 <= i < |users| && users[i] == found.value;
    var k :| 0 <= k < |users| && users[k] == u;
    assert UserModel.EmailOf(users[i]) == UserModel.EmailOf(users[k]);
  }
}
