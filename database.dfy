/**
 * The MongoDB database as one value: the three collections in natural
 * order, the names of the files moved into the upload directory, and the
 * next id to hand out. `Valid` is the invariant every controller keeps.
 */
module Database {
  import opened Base
  import opened Seqs
  import opened UserModel
  import opened MessageModel
  import opened ChatModel

  datatype Db = Db(
    users: seq<User>,
    chats: seq<Chat>,
    messages: seq<Message>,
    uploads: seq<string>,
    nextId: nat)

  /** The 404 error of every chat lookup restricted to the caller's chats. */
  const ChatNotFound := "Chat not found"

  /** What a controller leaves behind: the new database and the reply sent. */
  datatype Step<T> = Step(db: Db, reply: Reply<T>)

  /** The filter of `Chat.findById(id)`. */
  function ChatWithId(id: Id): Chat -> bool {
    (c: Chat) => c.id == id
  }

  /** The filter `{ _id: id, participants: { $in: [user] } }`. */
  function ChatOf(id: Id, user: Id): Chat -> bool {
    (c: Chat) => c.id == id && user in c.participants
  }

  /** The filter `{ participants: { $in: [user] } }`. */
  function HasParticipant(user: Id): Chat -> bool {
    (c: Chat) => user in c.participants
  }

  /** The filter `{ chat: id }`. */
  function InChat(id: Id): Message -> bool {
    (m: Message) => m.chat == id
  }

  /** The number of stored messages of chat `id`. */
  function CountInChat(messages: seq<Message>, id: Id): nat {
    |Filter(messages, InChat(id))|
  }

  predicate IdsBelow(db: Db) {
    && (forall u :: u in db.users ==> u.id < db.nextId)
    && (forall c :: c in db.chats ==> c.id < db.nextId)
    && (forall m :: m in db.messages ==> m.id < db.nextId && m.chat < db.nextId)
  }

  predicate UniqueUserIds(users: seq<User>) {
    forall i, j :: 0 <= i < j < |users| ==> users[i].id != users[j].id
  }

  predicate UniqueChatIds(chats: seq<Chat>) {
    forall i, j :: 0 <= i < j < |chats| ==> chats[i].id != chats[j].id
  }

  predicate UniqueMessageIds(messages: seq<Message>) {
    forall i, j :: 0 <= i < j < |messages| ==> messages[i].id != messages[j].id
  }

  /** The unique index on `email`. */
  predicate UniqueEmails(users: seq<User>) {
    forall i, j :: 0 <= i < j < |users| ==> users[i].email != users[j].email
  }

  /** Private chats have two participants, and no two private chats have the same pair. */
  predicate PrivatePairsUnique(chats: seq<Chat>) {
    && (forall c :: c in chats && c.kind == Private ==> |c.participants| == 2)
    && (forall i, j :: 0 <= i < j < |chats| && chats[i].kind == Private && chats[j].kind == Private
          ==> multiset(chats[i].participants) != multiset(chats[j].participants))
  }

  /** Every chat lists its creator among its participants. */
  predicate CreatorsParticipate(chats: seq<Chat>) {
    forall c :: c in chats ==> c.createdBy in c.participants
  }

  /** Every chat's `messageCount` is the number of its stored messages. */
  predicate CountsMatch(db: Db) {
    forall c :: c in db.chats ==> c.messageCount == CountInChat(db.messages, c.id)
  }

  /** The users' invariant: unique ids and emails, every user valid and normalised. */
  predicate UsersValid(users: seq<User>) {
    && UniqueUserIds(users) && UniqueEmails(users)
    && (forall u :: u in users ==> ValidUser(u) && Normalized(u))
  }

  /** The chats' invariant: unique ids, every chat valid, private pairs unique, creators taking part. */
  predicate ChatsValid(chats: seq<Chat>) {
    && UniqueChatIds(chats) && (forall c :: c in chats ==> ValidChat(c))
    && PrivatePairsUnique(chats) && CreatorsParticipate(chats)
  }

  /** The messages' invariant: unique ids, every message valid. */
  predicate MessagesValid(messages: seq<Message>) {
    UniqueMessageIds(messages) && (forall m :: m in messages ==> ValidMessage(m))
  }

  predicate Valid(db: Db) {
    && IdsBelow(db)
    && UsersValid(db.users) && ChatsValid(db.chats) && MessagesValid(db.messages)
    && CountsMatch(db)
  }

  /** The empty database the server starts with. */
  function EmptyDb(): (db: Db)
    ensures Valid(db)
  {
    Db([], [], [], [], 0)
  }

  /** The invariant says nothing about the upload directory. */
  lemma UploadsOutsideInvariant(db: Db, uploads: seq<string>)
    requires Valid(db)
    ensures Valid(db.(uploads := uploads))
  {
    assert CountsMatch(db.(uploads := uploads));
  }

  /** The ids of the stored users. */
  function UserIds(users: seq<User>): set<Id> {
    set u | u in users :: u.id
  }

  /** `User.findById(id)` finds a user exactly when some stored user has that id. */
  lemma UserWithIdFindsIff(users: seq<User>, id: Id)
    ensures FirstIndex(users, UserWithId(id)).Some? <==> id in UserIds(users)
  {
    var r := FirstIndex(users, UserWithId(id));
    if r.Some? {
      assert users[r.value] in users;
    }
    if id in UserIds(users) {
      var u :| u in users && u.id == id;
      var k :| 0 <= k < |users| && users[k] == u;
      assert UserWithId(id)(users[k]);
    }
  }

  /** `user` is a participant of a stored chat with id `chatId`. */
  predicate Participates(chats: seq<Chat>, user: Id, chatId: Id) {
    exists c :: c in chats && c.id == chatId && user in c.participants
  }

  /** `Chat.findOne({ _id: chatId, participants: { $in: [user] } })` finds a chat exactly when the user takes part in it. */
  lemma ChatOfFindsIff(chats: seq<Chat>, chatId: Id, user: Id)
    ensures FirstIndex(chats, ChatOf(chatId, user)).Some? <==> Participates(chats, user, chatId)
  {
    var r := FirstIndex(chats, ChatOf(chatId, user));
    if r.Some? {
      assert chats[r.value] in chats;
    }
    if Participates(chats, user, chatId) {
      var c :| c in chats && c.id == chatId && user in c.participants;
      var k :| 0 <= k < |chats| && chats[k] == c;
      assert ChatOf(chatId, user)(chats[k]);
    }
  }

  /**
   * `Chat.findByIdAndUpdate(id, update)`: the first chat with that id is
   * replaced by `f` of it; no hook runs. Without such a chat nothing changes.
   */
  function UpdateById(chats: seq<Chat>, id: Id, f: Chat -> Chat): (r: seq<Chat>)
    ensures |r| == |chats|
    ensures forall k :: 0 <= k < |chats| ==>
      r[k] == if FirstIndex(chats, ChatWithId(id)) == Some(k) then f(chats[k]) else chats[k]
  {
    match FirstIndex(chats, ChatWithId(id))
    case None => chats
    case Some(i) => chats[i := f(chats[i])]
  }

  /** The fields no `findByIdAndUpdate` of the controllers touches. */
  predicate SameShape(c: Chat, d: Chat) {
    && c.id == d.id && c.kind == d.kind && c.participants == d.participants
    && c.name == d.name && c.createdBy == d.createdBy
  }

  /** With unique ids, `findByIdAndUpdate` changes exactly the chat with that id. */
  lemma UpdateByIdAt(chats: seq<Chat>, id: Id, f: Chat -> Chat, k: nat)
    requires UniqueChatIds(chats) && k < |chats|
    ensures UpdateById(chats, id, f)[k] == if chats[k].id == id then f(chats[k]) else chats[k]
  {
    if chats[k].id == id {
      ChatLookupFindsIt(chats, k);
    }
  }

  /** An update that keeps the shape of a chat keeps every chat invariant but the counters. */
  lemma UpdateKeepsChatInvariants(chats: seq<Chat>, id: Id, f: Chat -> Chat)
    requires forall c :: SameShape(c, f(c))
    requires ChatsValid(chats)
    ensures ChatsValid(UpdateById(chats, id, f))
    ensures forall c :: c in UpdateById(chats, id, f) ==> exists d :: d in chats && SameShape(d, c)
  {
    var r := UpdateById(chats, id, f);
    assert forall k :: 0 <= k < |r| ==> SameShape(chats[k], r[k]);
    forall c | c in r
      ensures exists d :: d in chats && SameShape(d, c)
    {
      var k :| 0 <= k < |r| && r[k] == c;
      assert chats[k] in chats;
    }
  }

  /** With unique ids, looking a chat up by an id it has finds that very chat. */
  lemma ChatLookupFindsIt(chats: seq<Chat>, k: nat)
    requires UniqueChatIds(chats) && k < |chats|
    ensures FirstIndex(chats, ChatWithId(chats[k].id)) == Some(k)
  {
    var r := FirstIndex(chats, ChatWithId(chats[k].id));
    assert ChatWithId(chats[k].id)(chats[k]);
    assert chats[r.value].id == chats[k].id;
  }

  /** With unique ids, looking a user up by an id it has finds that very user. */
  lemma UserLookupFindsIt(users: seq<User>, k: nat)
    requires UniqueUserIds(users) && k < |users|
    ensures FirstIndex(users, UserWithId(users[k].id)) == Some(k)
  {
    var r := FirstIndex(users, UserWithId(users[k].id));
    assert UserWithId(users[k].id)(users[k]);
    assert users[r.value].id == users[k].id;
  }
}
