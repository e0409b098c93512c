/**
 * The server's database as mutable state: the three collections, the
 * upload directory and the id counter are fields, and each request handler
 * is a method that performs the controller's steps on them in order. Every
 * handler is proved to leave the store as the controller's function says
 * and to keep the database invariant.
 */
module Store {
  import opened Base
  import opened Seqs
  import opened Strings
  import opened Http
  import opened UserModel
  import opened MessageModel
  import opened ChatModel
  import opened Database
  import opened MessageController
  import opened ChatController
  import opened AuthController

  class ChatStore {
    var users: seq<User>
    var chats: seq<Chat>
    var messages: seq<Message>
    var uploads: seq<string>
    var nextId: nat

    /** The store's contents as a database value. */
    function State(): Db
      reads this
    {
      Db(users, chats, messages, uploads, nextId)
    }

    predicate Valid()
      reads this
    {
      Database.Valid(State())
    }

    /** The empty store the server starts with. */
    constructor ()
      ensures State() == EmptyDb() && Valid()
    {
      users := [];
      chats := [];
      messages := [];
      uploads := [];
      nextId := 0;
    }

    /** `register`, with the password handed to the save hook as plaintext, so that it is hashed once. */
    method Register(name: Field<string>, email: Field<string>, password: Field<string>,
                    emailOk: string -> bool, now: int)
      returns (reply: Reply<Session>)
      modifies this
      ensures var r := RegisterHashOnce(old(State()), name, email, password, emailOk, now);
        State() == r.db && reply == r.reply
      ensures old(Valid()) ==> Valid()
    {
      ghost var before := Db(users, chats, messages, uploads, nextId);
      if !RegisterInputOk(name, email, password, emailOk) {
        return Fail(400, InvalidInput);
      }
      if EmailLookup(users, email.value).Some? {
        return Fail(400, EmailTaken);
      }
      var created := SaveUser(NewUser(nextId, name.value, email.value, GivenPassword(password.value, false), now), true);
      if created.None? {
        RegistrationSaves(before, name, email, password, emailOk, now, false);
        return Fail(500, ServerError);
      }
      RegistrationSaves(before, name, email, password, emailOk, now, false);
      var user := created.value;
      assert user.email == NormalizeEmail(email.value);
      assert user.id == nextId && ValidUser(user) && Normalized(user);
      Enrol(user);
      reply := Ok(201, Session(ProfileOf(user, false), Token(user.id)));
    }

    /** The insertion of a registered user: it is appended and the id counter advanced. */
    method Enrol(user: User)
      modifies this
      ensures State() == old(State()).(users := old(users) + [user], nextId := old(nextId) + 1)
      ensures (&& old(Valid()) && user.id == old(nextId) && ValidUser(user) && Normalized(user)
               && (forall v :: v in old(users) ==> v.email != user.email)) ==> Valid()
    {
      ghost var before := Db(users, chats, messages, uploads, nextId);
      users := users + [user];
      nextId := nextId + 1;
      assert (&& old(Valid()) && user.id == old(nextId) && ValidUser(user) && Normalized(user)
              && (forall v :: v in old(users) ==> v.email != user.email)) ==> Valid() by {
        if old(Valid()) && user.id == old(nextId) && ValidUser(user) && Normalized(user)
           && (forall v :: v in old(users) ==> v.email != user.email) {
          UsersAfterInsert(before.users, user);
          IdsBelowAfterUser(before, user);
          assert CountsMatch(State());
        }
      }
    }

    /** `login`: the user found by email is marked online and saved. */
    method Login(email: Field<string>, password: Field<string>, emailOk: string -> bool)
      returns (reply: Reply<Session>)
      modifies this
      ensures var r := AuthController.Login(old(State()), email, password, emailOk);
        State() == r.db && reply == r.reply
      ensures old(Valid()) ==> Valid()
    {
      if !email.Given? || !password.Given? || !emailOk(email.value) {
        return Fail(400, InvalidInput);
      }
      var found := EmailLookup(users, email.value);
      if found.None? {
        return Fail(401, InvalidCredentials);
      }
      var k := found.value;
      var user := users[k];
      if !ComparePassword(password.value, user.password) {
        return Fail(401, InvalidCredentials);
      }
      user := user.(status := Online);
      var saved := SaveUser(user, false);
      if saved.None? {
        return Fail(500, ServerError);
      }
      users := users[k := saved.value];
      reply := Ok(200, Session(ProfileOf(saved.value, true), Token(saved.value.id)));
      assert old(Valid()) ==> Valid() by {
        if old(Valid()) {
          LoginPreservesValid(old(State()), email, password, emailOk);
        }
      }
    }

    /** `logout`: the authenticated caller is marked offline and saved. */
    method Logout(caller: Id) returns (reply: Reply<string>)
      modifies this
      ensures var r := AuthController.Logout(old(State()), caller);
        State() == r.db && reply == r.reply
      ensures old(Valid()) ==> Valid()
    {
      var found := FirstIndex(users, UserWithId(caller));
      if found.None? {
        return Fail(500, ServerError);
      }
      var k := found.value;
      var saved := SaveWithoutPassword(users[k].(status := Offline));
      if saved.None? {
        return Fail(500, ServerError);
      }
      users := users[k := saved.value];
      reply := Ok(200, LoggedOut);
      assert old(Valid()) ==> Valid() by {
        if old(Valid()) {
          LogoutPreservesValid(old(State()), caller);
        }
      }
    }

    /**
     * `sendMessage`: the upload is moved first, then the message is
     * created, then the chat's `lastMessage` and counter are updated.
     */
    method SendMessage(caller: Id, chatId: Id, content: Field<string>,
                       files: Option<map<string, FileField>>, now: int, uuid: string)
      returns (reply: Reply<Message>)
      modifies this
      ensures var r := MessageController.SendMessage(old(State()), caller, chatId, content, files, now, uuid);
        State() == r.db && reply == r.reply
      ensures old(Valid()) ==> Valid()
    {
      if content.Mistyped? {
        return Fail(400, InvalidInput);
      }
      if FirstIndex(chats, ChatOf(chatId, caller)).None? {
        return Fail(404, ChatNotFound);
      }
      var upload := ReceiveUpload(files, uuid);
      if upload.Crash? {
        return Fail(500, ServerError);
      }
      var fileUrl := None;
      if upload.Moved? {
        uploads := uploads + [upload.name];
        fileUrl := Some(UploadsPrefix + upload.name);
      }
      var text := if content.Given? then Some(content.value) else None;
      reply := Deliver(caller, chatId, text, fileUrl, now);
      assert old(Valid()) ==> Valid() by {
        if old(Valid()) {
          SendPreservesValid(old(State()), caller, chatId, content, files, now, uuid);
        }
      }
    }

    /** The tail of `sendMessage`: the message is created, then the chat's `lastMessage` and counter are updated. */
    method Deliver(caller: Id, chatId: Id, text: Option<string>, fileUrl: Option<string>, now: int)
      returns (reply: Reply<Message>)
      modifies this
      ensures var r := MessageController.Deliver(old(State()), caller, chatId, text, fileUrl, now);
        State() == r.db && reply == r.reply
    {
      if !PresentText(text) && fileUrl.None? {
        return Fail(400, EmptyMessage);
      }
      var created := NewMessage(nextId, SendPayload(chatId, caller, text, fileUrl), now);
      if created.None? {
        return Fail(500, ServerError);
      }
      var m := created.value;
      messages := messages + [m];
      nextId := nextId + 1;
      chats := UpdateById(chats, chatId, Recorded(m.id));
      reply := Ok(201, m);
    }

    /** `deleteMessage`: the caller's message is removed, then its chat's counter decremented. */
    method DeleteMessage(caller: Id, messageId: Id) returns (reply: Reply<string>)
      modifies this
      ensures var r := MessageController.DeleteMessage(old(State()), caller, messageId);
        State() == r.db && reply == r.reply
      ensures old(Valid()) ==> Valid()
    {
      var found := FirstIndex(messages, OwnMessage(messageId, caller));
      if found.None? {
        return Fail(404, MessageNotFound);
      }
      var m := messages[found.value];
      messages := RemoveAt(messages, found.value);
      chats := UpdateById(chats, m.chat, Uncounted);
      reply := Ok(200, MessageDeleted);
      assert old(Valid()) ==> Valid() by {
        if old(Valid()) {
          DeletePreservesValid(old(State()), caller, messageId);
        }
      }
    }

    /** `createPrivateChat`: an existing private chat of the pair is returned, otherwise one is inserted. */
    method CreatePrivateChat(caller: Id, recipient: Field<Id>, now: int) returns (reply: Reply<Chat>)
      modifies this
      ensures var r := ChatController.CreatePrivateChat(old(State()), caller, recipient, now);
        State() == r.db && reply == r.reply
      ensures old(Valid()) ==> Valid()
    {
      if !recipient.Given? {
        return Fail(400, InvalidInput);
      }
      if FirstIndex(users, UserWithId(recipient.value)).None? {
        return Fail(404, RecipientNotFound);
      }
      var existing := FirstIndex(chats, IsPrivateWith(caller, recipient.value));
      if existing.Some? {
        return Ok(200, chats[existing.value]);
      }
      var c := NewChat(nextId, Private, [caller, recipient.value], None, caller, now).value;
      chats := chats + [c];
      nextId := nextId + 1;
      reply := Ok(201, c);
      assert old(Valid()) ==> Valid() by {
        if old(Valid()) {
          CreatePrivatePreservesValid(old(State()), caller, recipient, now);
        }
      }
    }

    /**
     * `createGroupChat`: the caller is pushed onto the participant list when
     * absent, every listed user must exist, then the group is inserted.
     */
    method CreateGroupChat(caller: Id, name: Field<string>, participants: Field<seq<Id>>, now: int)
      returns (reply: Reply<Chat>)
      modifies this
      ensures var r := ChatController.CreateGroupChat(old(State()), caller, name, participants, now);
        State() == r.db && reply == r.reply
      ensures old(Valid()) ==> Valid()
    {
      if !name.Given? || !participants.Given? {
        return Fail(400, InvalidInput);
      }
      if Utf16Length(name.value) < MinGroupName || |participants.value| < MinGroupParticipants {
        return Fail(400, InvalidInput);
      }
      var ps := participants.value;
      if caller !in ps {
        ps := ps + [caller];
      }
      if |Filter(users, IdIn(ps))| != |ps| {
        return Fail(404, ParticipantsNotFound);
      }
      var c := NewChat(nextId, Group, ps, Some(name.value), caller, now).value;
      chats := chats + [c];
      nextId := nextId + 1;
      reply := Ok(201, c);
      assert old(Valid()) ==> Valid() by {
        if old(Valid()) {
          CreateGroupPreservesValid(old(State()), caller, name, participants, now);
        }
      }
    }
  }
}
