/**
 * The account controller: `register`, `login` and `logout` over the user
 * collection. Email well-formedness (zod's `email()`) is the parameter
 * `emailOk`; bcrypt is the `Hashed` constructor; a signed token is the
 * `Token` of the user id.
 */
module AuthController {
  import opened Base
  import opened Seqs
  import opened Strings
  import opened UserModel
  import opened Database

  const EmailTaken := "Email already registered"
  const InvalidCredentials := "Invalid credentials"
  const LoggedOut := "Logged out successfully"

  /** `z.string().min(2)` on the name. */
  const MinNameLength: nat := 2

  /** `generateToken(id)`: a token signed for the user id; the signature is not modelled. */
  datatype Token = Token(subject: Id)

  /** The `user` object of a register or login reply; it has no password. */
  datatype Profile = Profile(id: Id, name: string, email: string, avatar: Option<string>, status: Option<Status>)

  datatype Session = Session(user: Profile, token: Token)

  /** The reply's view of a stored user; login adds the status, register does not. */
  function ProfileOf(u: User, withStatus: bool): Profile {
    Profile(u.id, u.name, u.email, u.avatar, if withStatus then Some(u.status) else None)
  }

  /** `User.findOne({ email })`: the query value is cast by the path's `trim` and `lowercase`. */
  function EmailLookup(users: seq<User>, email: string): (r: Option<nat>)
    ensures r.Some? ==> r.value < |users| && users[r.value].email == NormalizeEmail(email)
    ensures r.None? ==> forall u :: u in users ==> u.email != NormalizeEmail(email)
  {
    FirstIndex(users, UserWithEmail(NormalizeEmail(email)))
  }

  /** `registerSchema`: name of at least two characters, a well-formed email, a password of at least six. */
  predicate RegisterInputOk(name: Field<string>, email: Field<string>, password: Field<string>,
                            emailOk: string -> bool) {
    && name.Given? && email.Given? && password.Given?
    && Utf16Length(name.value) >= MinNameLength && emailOk(email.value)
    && Utf16Length(password.value) >= MinPasswordLength
  }

  /** zod counts UTF-16 units: a one-emoji name and a three-emoji password are long enough. */
  lemma EmojiInputsPassChecks(email: Field<string>, emailOk: string -> bool)
    requires email.Given? && emailOk(email.value)
    ensures RegisterInputOk(Given("\U{1F600}"), email, Given("\U{1F600}\U{1F600}\U{1F600}"), emailOk)
  {
    var e := '\U{1F600}';
    AstralCountsTwice(e);
    Utf16LengthAppend([e], [e]);
    Utf16LengthAppend([e, e], [e]);
    assert [e] + [e] == [e, e] && [e, e] + [e] == [e, e, e];
  }

  /**
   * `register`, with `preHash` telling whether the controller hashes the
   * password before `User.create` (as the source does) or hands the
   * plaintext to the schema's save hook.
   */
  function Registration(db: Db, name: Field<string>, email: Field<string>, password: Field<string>,
                        emailOk: string -> bool, now: int, preHash: bool)
    : (r: Step<Session>)
    ensures !RegisterInputOk(name, email, password, emailOk) ==> r == Step(db, Fail(400, InvalidInput))
    ensures RegisterInputOk(name, email, password, emailOk) && EmailLookup(db.users, email.value).Some?
      ==> r == Step(db, Fail(400, EmailTaken))
    ensures r.reply.Fail? ==> r.db == db
  {
    if !RegisterInputOk(name, email, password, emailOk) then Step(db, Fail(400, InvalidInput))
    else if EmailLookup(db.users, email.value).Some? then Step(db, Fail(400, EmailTaken))
    else Created(db, SaveUser(NewUser(db.nextId, name.value, email.value, GivenPassword(password.value, preHash), now), true))
  }

  /** The reply to `User.create`: a failed save is a 500, a saved user is appended and gets a session. */
  function Created(db: Db, saved: Option<User>): Step<Session> {
    match saved
    case None => Step(db, Fail(500, ServerError))
    case Some(u) =>
      Step(db.(users := db.users + [u], nextId := db.nextId + 1), Ok(201, Session(ProfileOf(u, false), Token(u.id))))
  }

  /**
   * What a registration stores: past the checks, the save fails with 500
   * only when the trimmed name or the normalised email is empty; otherwise
   * one valid user with the next id, the normalised email, the trimmed name
   * and the password hashed by the save hook is appended, and the reply is
   * its profile with a token for it.
   */
  lemma RegistrationOutcome(db: Db, name: Field<string>, email: Field<string>, password: Field<string>,
                            emailOk: string -> bool, now: int, preHash: bool)
    ensures var r := Registration(db, name, email, password, emailOk, now, preHash);
      && (r.reply.Fail? && r.reply.status == 500 ==>
            |Trim(name.value)| == 0 || |NormalizeEmail(email.value)| == 0)
      && (r.reply.Ok? ==> |r.db.users| == |db.users| + 1)
    ensures var r := Registration(db, name, email, password, emailOk, now, preHash);
      r.reply.Ok? ==>
      var u := r.db.users[|db.users|];
      && RegisterInputOk(name, email, password, emailOk) && r.reply.status == 201
      && EmailLookup(db.users, email.value).None?
      && r.db == db.(users := db.users + [u], nextId := db.nextId + 1)
      && u == User(db.nextId, NormalizeEmail(email.value), u.password, Trim(name.value), None, Offline, [], now)
      && u.password == (if preHash then Hashed(Hashed(Plain(password.value))) else Hashed(Plain(password.value)))
      && r.reply.value == Session(ProfileOf(u, false), Token(db.nextId))
      && ValidUser(u)
  {
    if RegisterInputOk(name, email, password, emailOk) && EmailLookup(db.users, email.value).None? {
      RegistrationSaves(db, name, email, password, emailOk, now, preHash);
      SavedRegistrant(db.nextId, name.value, email.value, password.value, now, preHash);
    }
  }

  /** The save of a registrant whose inputs passed the checks: only an empty cast name or email makes it fail. */
  lemma SavedRegistrant(id: Id, name: string, email: string, password: string, now: int, preHash: bool)
    requires Utf16Length(password) >= MinPasswordLength
    ensures var saved := SaveUser(NewUser(id, name, email, GivenPassword(password, preHash), now), true);
      && (saved.None? ==> |Trim(name)| == 0 || |NormalizeEmail(email)| == 0)
      && (saved.Some? ==> ValidUser(saved.value))
      && (saved.Some? ==>
            saved.value == User(id, NormalizeEmail(email), Hashed(GivenPassword(password, preHash)), Trim(name), None, Offline, [], now))
  {
    var given := GivenPassword(password, preHash);
    var draft := NewUser(id, name, email, given, now);
    assert PasswordLength(given) >= MinPasswordLength;
    assert draft == User(id, NormalizeEmail(email), given, Trim(name), None, Offline, [], now);
    if ValidUser(draft) {
      assert SaveUser(draft, true) == Some(draft.(password := Hashed(given)));
    }
  }

  /** What `register` hands to `User.create` as the password. */
  function GivenPassword(password: string, preHash: bool): Password {
    if preHash then Hashed(Plain(password)) else Plain(password)
  }

  /** Past the input and email checks, registration is the outcome of the save. */
  lemma RegistrationSaves(db: Db, name: Field<string>, email: Field<string>, password: Field<string>,
                          emailOk: string -> bool, now: int, preHash: bool)
    requires RegisterInputOk(name, email, password, emailOk) && EmailLookup(db.users, email.value).None?
    ensures Registration(db, name, email, password, emailOk, now, preHash)
      == Created(db, SaveUser(NewUser(db.nextId, name.value, email.value, GivenPassword(password.value, preHash), now), true))
  {
  }

  /** `register` as written: the password is hashed by the controller and again by the save hook. */
  function Register(db: Db, name: Field<string>, email: Field<string>, password: Field<string>,
                    emailOk: string -> bool, now: int): (r: Step<Session>)
    ensures r.reply.Ok? ==>
      password.Given? && |r.db.users| == |db.users| + 1 && r.db.users[|db.users|].password == Hashed(Hashed(Plain(password.value)))
  {
    RegistrationOutcome(db, name, email, password, emailOk, now, true);
    Registration(db, name, email, password, emailOk, now, true)
  }

  /** `register` with the plaintext handed to `User.create`, so that the save hook hashes it once. */
  function RegisterHashOnce(db: Db, name: Field<string>, email: Field<string>, password: Field<string>,
                            emailOk: string -> bool, now: int): (r: Step<Session>)
    ensures r.reply.Ok? ==>
      password.Given? && |r.db.users| == |db.users| + 1 && r.db.users[|db.users|].password == Hashed(Plain(password.value))
  {
    RegistrationOutcome(db, name, email, password, emailOk, now, false);
    Registration(db, name, email, password, emailOk, now, false)
  }

  /**
   * `login`: both an unknown email and a wrong password get the same 401;
   * on success the user is saved online, the password untouched.
   */
  function Login(db: Db, email: Field<string>, password: Field<string>, emailOk: string -> bool)
    : (r: Step<Session>)
    ensures r.reply.Fail? ==> r.db == db
    ensures r.reply.Fail? && r.reply.status == 401 ==> r.reply.error == InvalidCredentials
    ensures r.reply.Fail? ==> r.reply.status in {400, 401, 500}
    ensures email.Given? && password.Given? && emailOk(email.value) &&
      (EmailLookup(db.users, email.value).None? ||
       !ComparePassword(password.value, db.users[EmailLookup(db.users, email.value).value].password))
      ==> r == Step(db, Fail(401, InvalidCredentials))
    ensures r.reply.Ok? <==>
      && email.Given? && password.Given? && emailOk(email.value)
      && EmailLookup(db.users, email.value).Some?
      && ComparePassword(password.value, db.users[EmailLookup(db.users, email.value).value].password)
      && ValidUser(db.users[EmailLookup(db.users, email.value).value])
    ensures r.reply.Ok? ==>
      var k := EmailLookup(db.users, email.value).value;
      && r.reply.status == 200
      && r.db == db.(users := db.users[k := db.users[k].(status := Online)])
      && r.reply.value == Session(ProfileOf(r.db.users[k], true), Token(db.users[k].id))
  {
    if !email.Given? || !password.Given? || !emailOk(email.value) then Step(db, Fail(400, InvalidInput))
    else match EmailLookup(db.users, email.value)
      case None => Step(db, Fail(401, InvalidCredentials))
      case Some(k) =>
        if !ComparePassword(password.value, db.users[k].password) then Step(db, Fail(401, InvalidCredentials))
        else match SaveUser(db.users[k].(status := Online), false)
          case None => Step(db, Fail(500, ServerError))
          case Some(u) => Step(db.(users := db.users[k := u]), Ok(200, Session(ProfileOf(u, true), Token(u.id))))
  }

  /** `logout`: the authenticated caller is saved offline. */
  function Logout(db: Db, caller: Id): (r: Step<string>)
    ensures r.reply.Fail? ==> r == Step(db, Fail(500, ServerError))
    ensures r.reply.Ok? ==> r.reply == Ok(200, LoggedOut)
    ensures caller !in UserIds(db.users) ==> r.reply.Fail?
    ensures caller in UserIds(db.users) && (forall u :: u in db.users ==> ValidUser(u)) ==> r.reply.Ok?
    ensures r.reply.Ok? ==>
      var k := FirstIndex(db.users, UserWithId(caller)).value;
      r.db == db.(users := db.users[k := db.users[k].(status := Offline)])
  {
    UserWithIdFindsIff(db.users, caller);
    match FirstIndex(db.users, UserWithId(caller))
    case None => Step(db, Fail(500, ServerError))
    case Some(k) =>
      assert db.users[k] in db.users;
      match SaveWithoutPassword(db.users[k].(status := Offline))
      case None => Step(db, Fail(500, ServerError))
      case Some(u) => Step(db.(users := db.users[k := u]), Ok(200, LoggedOut))
  }

  /**
   * Registering and then logging in with the same email and password is
   * refused: the stored value is a hash of the hash, which `bcrypt.compare`
   * never matches against a plaintext.
   */
  lemma RegisterThenLoginFails(db: Db, name: Field<string>, email: Field<string>, password: Field<string>,
                               emailOk: string -> bool, now: int)
    requires Register(db, name, email, password, emailOk, now).reply.Ok?
    ensures var r := Register(db, name, email, password, emailOk, now);
      Login(r.db, email, password, emailOk) == Step(r.db, Fail(401, InvalidCredentials))
  {
    RegistrationOutcome(db, name, email, password, emailOk, now, true);
    var r := Register(db, name, email, password, emailOk, now);
    var key := NormalizeEmail(email.value);
    FirstIndexSnoc(db.users, r.db.users[|db.users|], UserWithEmail(key));
    assert r.db.users == db.users + [r.db.users[|db.users|]];
    DoubleHashMatchesNothing(password.value);
  }

  /** With the password hashed once, the account just registered can log in, as itself. */
  lemma RegisterHashOnceThenLoginSucceeds(db: Db, name: Field<string>, email: Field<string>, password: Field<string>,
                                          emailOk: string -> bool, now: int)
    requires RegisterHashOnce(db, name, email, password, emailOk, now).reply.Ok?
    ensures var r := RegisterHashOnce(db, name, email, password, emailOk, now);
      var l := Login(r.db, email, password, emailOk);
      && l.reply.Ok? && l.reply.value.token == Token(db.nextId)
      && l.reply.value.user == ProfileOf(r.db.users[|db.users|].(status := Online), true)
  {
    RegistrationOutcome(db, name, email, password, emailOk, now, false);
    var r := Registration(db, name, email, password, emailOk, now, false);
    var u := r.db.users[|db.users|];
    assert r.db.users == db.users + [u];
    assert EmailLookup(db.users, email.value).None?;
    FirstIndexSnoc(db.users, u, UserWithEmail(NormalizeEmail(email.value)));
    assert EmailLookup(r.db.users, email.value) == Some(|db.users|);
    assert ComparePassword(password.value, u.password) && ValidUser(u);
  }

  /** Once an email is registered, registering it again, in any spelling that normalises alike, is refused. */
  lemma SecondRegistrationRefused(db: Db, name: Field<string>, email: Field<string>, password: Field<string>,
                                  name2: Field<string>, email2: Field<string>, password2: Field<string>,
                                  emailOk: string -> bool, now: int, now2: int, preHash: bool)
    requires Registration(db, name, email, password, emailOk, now, preHash).reply.Ok?
    requires RegisterInputOk(name2, email2, password2, emailOk)
    requires NormalizeEmail(email2.value) == NormalizeEmail(email.value)
    ensures var r := Registration(db, name, email, password, emailOk, now, preHash);
      Registration(r.db, name2, email2, password2, emailOk, now2, preHash) == Step(r.db, Fail(400, EmailTaken))
  {
    RegistrationOutcome(db, name, email, password, emailOk, now, preHash);
    var r := Registration(db, name, email, password, emailOk, now, preHash);
    assert r.db.users[|db.users|] in r.db.users;
  }

  /** A user with a fresh id and a fresh email, valid and normalised, can be appended to the users. */
  lemma UsersAfterInsert(users: seq<User>, u: User)
    requires UsersValid(users) && ValidUser(u) && Normalized(u)
    requires forall v :: v in users ==> v.id != u.id && v.email != u.email
    ensures UsersValid(users + [u])
  {
    var r := users + [u];
    forall i, j | 0 <= i < j < |r|
      ensures r[i].id != r[j].id && r[i].email != r[j].email
    {
      if j == |users| {
        assert r[i] in users;
      }
    }
  }

  /** A successful registration keeps the database invariant: a fresh id, an email not yet taken. */
  lemma RegistrationPreservesValid(db: Db, name: Field<string>, email: Field<string>, password: Field<string>,
                                   emailOk: string -> bool, now: int, preHash: bool)
    requires Valid(db)
    ensures Valid(Registration(db, name, email, password, emailOk, now, preHash).db)
  {
    RegistrationOutcome(db, name, email, password, emailOk, now, preHash);
    var r := Registration(db, name, email, password, emailOk, now, preHash);
    if r.reply.Ok? {
      var u := r.db.users[|db.users|];
      assert r.db.users == db.users + [u];
      assert EmailLookup(db.users, email.value).None?;
      UsersAfterInsert(db.users, u);
      IdsBelowAfterUser(db, u);
      assert CountsMatch(r.db) by {
        assert r.db.chats == db.chats && r.db.messages == db.messages;
      }
    }
  }

  /** A user given the next id keeps every id below the counter once it is advanced. */
  lemma IdsBelowAfterUser(db: Db, u: User)
    requires IdsBelow(db) && u.id == db.nextId
    ensures IdsBelow(db.(users := db.users + [u], nextId := db.nextId + 1))
  {
    forall v | v in db.users + [u]
      ensures v.id < db.nextId + 1
    {
      if v != u {
        assert v in db.users;
      }
    }
  }

  /** A change of status keeps the users' invariant: ids, emails, names and passwords stay. */
  lemma StatusChangeKeepsUsersValid(users: seq<User>, k: nat, u: User)
    requires UsersValid(users) && k < |users|
    requires u.id == users[k].id && u.email == users[k].email && u.name == users[k].name
    requires u.password == users[k].password
    ensures UsersValid(users[k := u])
  {
    assert users[k] in users;
    forall v | v in users[k := u]
      ensures ValidUser(v) && Normalized(v)
    {
      var i :| 0 <= i < |users[k := u]| && users[k := u][i] == v;
      assert i != k ==> users[i] in users;
    }
  }

  /** A login keeps the database invariant. */
  lemma LoginPreservesValid(db: Db, email: Field<string>, password: Field<string>, emailOk: string -> bool)
    requires Valid(db)
    ensures Valid(Login(db, email, password, emailOk).db)
  {
    var r := Login(db, email, password, emailOk);
    if r.reply.Ok? {
      var k := EmailLookup(db.users, email.value).value;
      StatusChangeKeepsUsersValid(db.users, k, db.users[k].(status := Online));
      assert db.users[k] in db.users;
      assert CountsMatch(r.db) by {
        assert r.db.chats == db.chats && r.db.messages == db.messages;
      }
    }
  }

  /** A logout keeps the database invariant. */
  lemma LogoutPreservesValid(db: Db, caller: Id)
    requires Valid(db)
    ensures Valid(Logout(db, caller).db)
  {
    var r := Logout(db, caller);
    if r.reply.Ok? {
      var k := FirstIndex(db.users, UserWithId(caller)).value;
      StatusChangeKeepsUsersValid(db.users, k, db.users[k].(status := Offline));
      assert db.users[k] in db.users;
      assert CountsMatch(r.db) by {
        assert r.db.chats == db.chats && r.db.messages == db.messages;
      }
    }
  }

  /**
   * Logging in a user who was offline and logging the same user out again
   * leaves the database as it was.
   */
  lemma LoginThenLogoutRestores(db: Db, email: Field<string>, password: Field<string>, emailOk: string -> bool)
    requires UsersValid(db.users)
    requires Login(db, email, password, emailOk).reply.Ok?
    requires db.users[EmailLookup(db.users, email.value).value].status == Offline
    ensures var r := Login(db, email, password, emailOk);
      Logout(r.db, r.reply.value.token.subject) == Step(db, Ok(200, LoggedOut))
  {
    var r := Login(db, email, password, emailOk);
    var k := EmailLookup(db.users, email.value).value;
    LogoutUndoesOnline(db, k);
    assert r.db == db.(users := db.users[k := db.users[k].(status := Online)]);
    assert r.reply.value.token.subject == db.users[k].id;
  }

  /** Logging out a user whom a login has just marked online, and who was offline before, restores the database. */
  lemma LogoutUndoesOnline(db: Db, k: nat)
    requires UsersValid(db.users) && k < |db.users| && db.users[k].status == Offline
    ensures Logout(db.(users := db.users[k := db.users[k].(status := Online)]), db.users[k].id) == Step(db, Ok(200, LoggedOut))
  {
    var u := db.users[k];
    var online := db.(users := db.users[k := u.(status := Online)]);
    StatusChangeKeepsUsersValid(db.users, k, u.(status := Online));
    UserLookupFindsIt(online.users, k);
    assert u.(status := Online).(status := Offline) == u;
    assert online.users[k := u] == db.users;
  }
}
