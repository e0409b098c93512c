/**
 * The `User` schema: its paths, casts (trim, lowercase), defaults,
 * validators and the password-hashing pre-save hook.
 */
module UserModel {
  import opened Base
  import opened Strings

  datatype Status = Online | Offline

  /**
   * A value of the `password` path: a plaintext, or a bcrypt hash of
   * another value. bcrypt is left uninterpreted: hashing is injective and
   * never yields a plaintext; the salt is not modelled.
   */
  datatype Password = Plain(text: string) | Hashed(of: Password)

  /** bcrypt's output is always 60 characters long. */
  const BcryptHashLength: nat := 60

  /** The `minlength` of the `password` path, in UTF-16 code units. */
  const MinPasswordLength: nat := 6

  function PasswordLength(p: Password): nat {
    match p
    case Plain(t) => Utf16Length(t)
    case Hashed(_) => BcryptHashLength
  }

  datatype User = User(
    id: Id,
    email: string,
    password: Password,
    name: string,
    avatar: Option<string>,
    status: Status,
    friends: seq<Id>,
    createdAt: int)

  /** The filter of `User.findById(id)`. */
  function UserWithId(id: Id): User -> bool {
    (u: User) => u.id == id
  }

  /** The filter of `User.findOne({ email })`. */
  function UserWithEmail(email: string): User -> bool {
    (u: User) => u.email == email
  }

  /** What `trim: true, lowercase: true` make of an email. */
  function NormalizeEmail(email: string): (r: string)
    ensures Trimmed(r) && ToLower(r) == r
  {
    ToLowerKeepsTrimmed(Trim(email));
    ToLowerIdempotent(Trim(email));
    ToLower(Trim(email))
  }

  /** The cast email is a stretch of the given one, padded with white space only, with every letter lower-cased. */
  lemma NormalizeEmailShape(email: string)
    ensures var r := NormalizeEmail(email);
      exists i: nat {:trigger PaddedAt(email, r, i)} :: PaddedAt(email, r, i) && forall k :: 0 <= k < |r| ==> r[k] == LowerChar(email[i + k])
  {
    var t := Trim(email);
    TrimDropsOnlySpace(email);
    var i: nat :| MatchesAt(email, t, i) && PaddedAt(email, t, i);
    LowerInPlace(email, t, i);
    assert PaddedAt(email, NormalizeEmail(email), i);
  }

  /** Lower-casing a slice that stands in a text at i lower-cases the text's characters there, and keeps the padding. */
  lemma LowerInPlace(s: string, t: string, i: nat)
    requires MatchesAt(s, t, i) && PaddedAt(s, t, i)
    ensures PaddedAt(s, ToLower(t), i)
    ensures forall k :: 0 <= k < |t| ==> ToLower(t)[k] == LowerChar(s[i + k])
  {
    assert forall k :: 0 <= k < |t| ==> t[k] == s[i + k];
  }

  /** The casts of a stored user have been applied: email trimmed and lower-case, name trimmed. */
  predicate Normalized(u: User) {
    Trimmed(u.email) && ToLower(u.email) == u.email && Trimmed(u.name)
  }

  /**
   * The document `User.create({ name, email, password })` builds before
   * validation: casts applied, `status` offline, no friends, no avatar,
   * `createdAt` the current time.
   */
  function NewUser(id: Id, name: string, email: string, password: Password, now: int): (u: User)
    ensures Normalized(u)
    ensures u.email == NormalizeEmail(email) && u.name == Trim(name)
    ensures u.id == id && u.password == password && u.status == Offline
    ensures u.friends == [] && u.avatar == None && u.createdAt == now
  {
    User(id, NormalizeEmail(email), password, Trim(name), None, Offline, [], now)
  }

  /** The validators: email, name and password required (non-empty), password of at least six characters. */
  predicate ValidUser(u: User) {
    |u.email| > 0 && |u.name| > 0 && PasswordLength(u.password) >= MinPasswordLength
  }

  /** The pre('save') hook: the password is hashed again only when it was modified. */
  function HashOnSave(u: User, passwordModified: bool): (r: User)
    ensures r.(password := u.password) == u
    ensures passwordModified ==> r.password == Hashed(u.password)
    ensures !passwordModified ==> r == u
  {
    if passwordModified then u.(password := Hashed(u.password)) else u
  }

  /**
   * `doc.save()`: Mongoose validates before it runs the pre('save') hooks,
   * so the validators see the password as it was before the hook.
   */
  function SaveUser(u: User, passwordModified: bool): (r: Option<User>)
    ensures r.Some? <==> ValidUser(u)
    ensures r.Some? ==> ValidUser(r.value)
    ensures r.Some? ==> r.value.(password := u.password) == u
    ensures r.Some? ==> r.value.password == if passwordModified then Hashed(u.password) else u.password
  {
    if ValidUser(u) then Some(HashOnSave(u, passwordModified)) else None
  }

  /**
   * `doc.save()` of a document loaded without its password (the
   * `select('-password')` of the authentication middleware): the password
   * path is neither validated nor hashed, and is left as stored.
   */
  function SaveWithoutPassword(u: User): (r: Option<User>)
    ensures r.Some? <==> |u.email| > 0 && |u.name| > 0
    ensures r.Some? ==> r.value == u
  {
    if |u.email| > 0 && |u.name| > 0 then Some(u) else None
  }

  /** `bcrypt.compare(candidate, stored)`: true exactly when stored is the hash of the candidate. */
  function ComparePassword(candidate: string, stored: Password): bool {
    stored == Hashed(Plain(candidate))
  }

  /** A save that does not touch the password, such as a status change, keeps the stored hash. */
  lemma StatusSaveKeepsPassword(u: User, s: Status)
    requires ValidUser(u)
    ensures SaveUser(u.(status := s), false) == Some(u.(status := s))
  {
  }

  /** A password hashed once is matched by its plaintext and by no other candidate. */
  lemma CompareAcceptsOnlyItsPlaintext(password: string, candidate: string)
    ensures ComparePassword(candidate, Hashed(Plain(password))) <==> candidate == password
  {
  }

  /** A password hashed twice is not matched by its own plaintext. */
  lemma DoubleHashMatchesNothing(password: string)
    ensures !ComparePassword(password, Hashed(Hashed(Plain(password))))
  {
  }
}
