/**
 * The two routes that compose middleware with a controller:
 * `POST /api/messages/:chatId` runs `auth`, then `validateFileUpload`, then
 * `sendMessage`; `POST /api/auth/logout` runs `auth`, then `logout`. An
 * exception that escapes a middleware reaches the application's error
 * handler, which answers 500.
 */
module Routes {
  import opened Base
  import opened Seqs
  import opened Strings
  import opened Http
  import opened UserModel
  import opened MessageModel
  import opened Database
  import opened Middleware
  import opened MessageController
  import opened AuthController

  /** The error of the application's error-handling middleware. */
  const Unhandled := "Something broke!"

  /** `POST /api/messages/:chatId`: `auth`, `validateFileUpload`, `sendMessage`, in that order. */
  function PostMessage(db: Db, header: Option<string>, verify: string -> Option<Id>, chatId: Id,
                       content: Field<string>, files: Option<map<string, FileField>>, now: int, uuid: string)
    : (r: Step<Message>)
    ensures Authenticate(header, verify, db.users).Deny? ==> r == Step(db, Fail(401, AuthFailure))
    ensures Authenticate(header, verify, db.users).Admit? && !CheckUpload(files).Next? ==>
      r.db == db && r.reply.Fail? && r.reply.status in {400, 500}
    ensures Authenticate(header, verify, db.users).Admit? && CheckUpload(files).Next? ==>
      r == SendMessage(db, Authenticate(header, verify, db.users).user.id, chatId, content, files, now, uuid)
  {
    match Authenticate(header, verify, db.users)
    case Deny(status, error) => Step(db, Fail(status, error))
    case Admit(user) =>
      match CheckUpload(files)
      case Reject(status, error) => Step(db, Fail(status, error))
      case Throws => Step(db, Fail(500, Unhandled))
      case Next => SendMessage(db, user.id, chatId, content, files, now, uuid)
  }

  /**
   * A send without any uploaded file never reaches the controller: an
   * authenticated text message is refused with 400, and nothing is stored.
   */
  lemma TextOnlyPostRefused(db: Db, header: Option<string>, verify: string -> Option<Id>, chatId: Id,
                            text: string, now: int, uuid: string)
    requires Authenticate(header, verify, db.users).Admit?
    ensures PostMessage(db, header, verify, chatId, Given(text), None, now, uuid) == Step(db, Fail(400, NoFile))
    ensures PostMessage(db, header, verify, chatId, Given(text), Some(map[]), now, uuid) == Step(db, Fail(400, NoFile))
  {
  }

  /**
   * Through the route a message is stored exactly when the caller is
   * authenticated and takes part in the chat, one acceptable file is
   * uploaded under `file`, and the text is non-empty.
   */
  lemma PostAcceptedIff(db: Db, header: Option<string>, verify: string -> Option<Id>, chatId: Id,
                        content: Field<string>, files: Option<map<string, FileField>>, now: int, uuid: string)
    ensures PostMessage(db, header, verify, chatId, content, files, now, uuid).reply.Ok? <==>
      && Authenticate(header, verify, db.users).Admit?
      && CheckUpload(files).Next? && files.value["file"].Single?
      && content.Given? && |content.value| > 0
      && Participates(db.chats, Authenticate(header, verify, db.users).user.id, chatId)
  {
    var auth := Authenticate(header, verify, db.users);
    if auth.Admit? && CheckUpload(files).Next? {
      var r := SendMessage(db, auth.user.id, chatId, content, files, now, uuid);
      if files.value["file"].Single? && content.Given? && |content.value| > 0
         && Participates(db.chats, auth.user.id, chatId) {
        TextSendAccepted(db, auth.user.id, chatId, content.value, files, now, uuid);
      }
      if r.reply.Ok? {
        assert ReceiveUpload(files, uuid).Moved?;
      }
    }
  }

  /**
   * Every message stored through the route came with an uploaded file,
   * and the file is moved into the upload directory, yet the message
   * records no file URL.
   */
  lemma PostedMessageLosesItsFile(db: Db, header: Option<string>, verify: string -> Option<Id>, chatId: Id,
                                  content: Field<string>, files: Option<map<string, FileField>>, now: int, uuid: string)
    requires PostMessage(db, header, verify, chatId, content, files, now, uuid).reply.Ok?
    ensures var r := PostMessage(db, header, verify, chatId, content, files, now, uuid);
      && files.Some? && "file" in files.value && files.value["file"].Single?
      && r.db.uploads == db.uploads + [uuid + Extname(files.value["file"].file.name)]
      && r.reply.value.fileUrl.None? && r.reply.value.kind == Text
  {
    PostAcceptedIff(db, header, verify, chatId, content, files, now, uuid);
    var caller := Authenticate(header, verify, db.users).user.id;
    var name := uuid + Extname(files.value["file"].file.name);
    assert ReceiveUpload(files, uuid) == Moved(name);
    ChatOfFindsIff(db.chats, chatId, caller);
    var r := SendMessage(db, caller, chatId, content, files, now, uuid);
    assert r.db.uploads == db.uploads + [name];
  }

  /** `POST /api/auth/logout`: `auth`, then `logout` for the user it found. */
  function PostLogout(db: Db, header: Option<string>, verify: string -> Option<Id>): (r: Step<string>)
    ensures Authenticate(header, verify, db.users).Deny? ==> r == Step(db, Fail(401, AuthFailure))
    ensures Authenticate(header, verify, db.users).Admit? ==>
      r == Logout(db, Authenticate(header, verify, db.users).user.id)
  {
    match Authenticate(header, verify, db.users)
    case Deny(status, error) => Step(db, Fail(status, error))
    case Admit(user) => Logout(db, user.id)
  }

  /** On a valid database an authenticated logout always succeeds and leaves its caller offline. */
  lemma AuthenticatedLogoutSucceeds(db: Db, header: Option<string>, verify: string -> Option<Id>)
    requires Valid(db)
    requires Authenticate(header, verify, db.users).Admit?
    ensures var r := PostLogout(db, header, verify);
      var k := FirstIndex(db.users, UserWithId(Authenticate(header, verify, db.users).user.id)).value;
      && r.reply == Ok(200, LoggedOut)
      && r.db.users[k].id == Authenticate(header, verify, db.users).user.id
      && r.db.users[k].status == Offline
  {
    var u := Authenticate(header, verify, db.users).user;
    assert u in db.users;
    assert u.id in UserIds(db.users);
    UserWithIdFindsIff(db.users, u.id);
  }
}
