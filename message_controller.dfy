/**
 * The message controller: `getMessages` (paging over one chat's
 * messages, newest first), `sendMessage` (participant check, optional
 * upload, creation, chat bookkeeping) and `deleteMessage` (owner-only
 * removal, counter decrement). Each handler is a function from the
 * database before the request to the database after it and the reply.
 */
module MessageController {
  import opened Base
  import opened Seqs
  import opened Strings
  import opened Http
  import opened MessageModel
  import opened ChatModel
  import opened Database

  const MessagesPerPage: nat := 50
  const EmptyMessage := "Message must contain either text or a file"
  const MessageNotFound := "Message not found"
  const MessageDeleted := "Message deleted successfully"
  const UploadsPrefix := "/uploads/"

  /** The sort key of `sort({ createdAt: -1 })`. */
  function CreatedAt(m: Message): int {
    m.createdAt
  }

  /**
   * The number handed to zod for a query parameter: `Number(value)` when
   * the parameter is present and non-empty, the default otherwise.
   */
  function OrDefault(arg: QueryNumber, default: nat): QueryNumber {
    if arg.Missing? then Finite(default as real) else arg
  }

  /** `z.number().int().positive()`: a finite whole number above zero. */
  function PositiveInt(n: QueryNumber): (r: Option<nat>)
    ensures r.Some? <==> n.Finite? && n.value > 0.0 && n.value.Floor as real == n.value
    ensures r.Some? ==> r.value > 0 && r.value as real == n.value
  {
    if n.Finite? && n.value > 0.0 && n.value.Floor as real == n.value then Some(n.value.Floor as nat) else None
  }

  /** `Message.find({ chat: chatId }).sort({ createdAt: -1 })`. */
  function ChatMessages(messages: seq<Message>, chatId: Id): (r: seq<Message>)
    ensures SortedDesc(r, CreatedAt)
    ensures multiset(r) == multiset(Filter(messages, InChat(chatId)))
  {
    SortDesc(Filter(messages, InChat(chatId)), CreatedAt)
  }

  /**
   * `getMessages`: page and limit checked, the caller's membership of the
   * chat checked, then `skip((page - 1) * limit).limit(limit)` over the
   * chat's messages, newest first.
   */
  function GetMessages(db: Db, caller: Id, chatId: Id, page: QueryNumber, limit: QueryNumber)
    : (r: Reply<seq<Message>>)
    ensures r.Fail? ==> r.status == 400 || r.status == 404
    ensures r.Ok? ==> r.status == 200 && Participates(db.chats, caller, chatId)
    ensures r.Ok? ==> forall m :: m in r.value ==> m in db.messages && m.chat == chatId
    ensures r.Ok? ==> SortedDesc(r.value, CreatedAt)
    ensures r.Ok? ==>
      PositiveInt(OrDefault(limit, MessagesPerPage)).Some? && |r.value| <= PositiveInt(OrDefault(limit, MessagesPerPage)).value
  {
    var p := PositiveInt(OrDefault(page, 1));
    var l := PositiveInt(OrDefault(limit, MessagesPerPage));
    if p.None? || l.None? then Fail(400, InvalidInput)
    else if FirstIndex(db.chats, ChatOf(chatId, caller)).None? then Fail(404, ChatNotFound)
    else
      ChatOfFindsIff(db.chats, chatId, caller);
      Ok(200, MessagePage(db.messages, chatId, Skip(p.value, l.value), l.value))
  }

  /** `skipAmount`: the messages on the pages before page `page`. */
  function Skip(page: nat, limit: nat): nat
    requires page > 0
  {
    (page - 1) * limit
  }

  /** The page after the next starts where the next one ends. */
  lemma SkipNext(page: nat, limit: nat)
    requires page > 0
    ensures Skip(page + 1, limit) == Skip(page, limit) + limit
  {
  }

  /** Later pages start at least one page further on. */
  lemma {:induction false} SkipGrows(page1: nat, page2: nat, limit: nat)
    requires 0 < page1 < page2
    ensures Skip(page1, limit) + limit <= Skip(page2, limit)
    decreases page2 - page1
  {
    SkipNext(page2 - 1, limit);
    if page1 + 1 < page2 {
      SkipGrows(page1, page2 - 1, limit);
    }
  }

  /** `skip(offset).limit(limit)` over the chat's messages, newest first. */
  function MessagePage(messages: seq<Message>, chatId: Id, offset: nat, limit: nat): (r: seq<Message>)
    ensures |r| <= limit
    ensures forall m :: m in r ==> m in messages && m.chat == chatId
    ensures SortedDesc(r, CreatedAt)
  {
    var all := ChatMessages(messages, chatId);
    var r := Page(all, offset, limit);
    forall m | m in r
      ensures m in messages && m.chat == chatId
    {
      assert m in all;
      assert m in multiset(Filter(messages, InChat(chatId)));
    }
    r
  }

  /** What became of the request's `file` before the message is created. */
  datatype Upload =
    | NoUpload             // no `req.files.file`
    | Moved(name: string)  // moved into the upload directory under `name`
    | Crash                // an array of files: it has no `name`, so `path.extname` throws

  /**
   * `req.files && req.files.file`, then `uuidv4() + path.extname(file.name)`
   * and `file.mv`; `uuid` stands for the fresh identifier.
   */
  function ReceiveUpload(files: Option<map<string, FileField>>, uuid: string): (r: Upload)
    ensures r.NoUpload? <==> files.None? || "file" !in files.value
    ensures r.Crash? <==> files.Some? && "file" in files.value && files.value["file"].Many?
  {
    if files.None? || "file" !in files.value then NoUpload
    else match files.value["file"]
      case Single(f) => Moved(uuid + Extname(f.name))
      case Many(_) => Crash
  }

  /** The key under which `sendMessage` hands the upload's URL to `Message.create`. */
  const UrlKey := "file"

  /**
   * The object given to `Message.create`: `content`, `file`, `chat` and
   * `sender`. Under strict mode a value survives only when its key is a
   * path of the schema; `file` is not one, so the URL is dropped and no
   * file path is ever set.
   */
  function SendPayload(chatId: Id, caller: Id, content: Option<string>, fileUrl: Option<string>): (r: MessageInput)
    ensures r.chat == Some(chatId) && r.sender == Some(caller) && r.content == content
    ensures r.fileUrl.Some? <==> UrlKey in MessagePaths && fileUrl.Some?
    ensures r.kind.None? && r.fileUrl.None? && r.fileName.None? && r.fileSize.None?
  {
    MessageInput(Some(chatId), Some(caller), content, None,
                 if UrlKey in MessagePaths then fileUrl else None, None, None)
  }

  /** The `findByIdAndUpdate` of a send: `lastMessage` set, `$inc: { messageCount: 1 }`. */
  function Recorded(msgId: Id): Chat -> Chat {
    (c: Chat) => c.(lastMessage := Some(msgId), messageCount := c.messageCount + 1)
  }

  /** The `findByIdAndUpdate` of a delete: `$inc: { messageCount: -1 }` only. */
  function Uncounted(c: Chat): Chat {
    c.(messageCount := c.messageCount - 1)
  }

  /**
   * `sendMessage`. `content` is the `content` key of the body, `files` the
   * parsed uploads, `now` the clock and `uuid` the fresh file identifier.
   */
  function SendMessage(db: Db, caller: Id, chatId: Id, content: Field<string>,
                       files: Option<map<string, FileField>>, now: int, uuid: string)
    : (r: Step<Message>)
    ensures r.reply.Fail? ==> r.reply.status in {400, 404, 500}
    ensures r.reply.Fail? ==> r.db == db.(uploads := r.db.uploads)
    ensures r.reply.Fail? && r.reply.status != 500 ==> r.db == db
    ensures r.reply.Ok? ==> r.reply.status == 201 && Participates(db.chats, caller, chatId)
    ensures r.reply.Ok? ==>
      && r.reply.value.id == db.nextId && r.reply.value.sender == caller && r.reply.value.chat == chatId
      && content.Given? && r.reply.value.content == content.value && |content.value| > 0
      && r.reply.value.kind == Text && r.reply.value.fileUrl.None? && r.reply.value.createdAt == now
    ensures r.reply.Ok? ==>
      && r.db.messages == db.messages + [r.reply.value] && r.db.nextId == db.nextId + 1
      && r.db.chats == UpdateById(db.chats, chatId, Recorded(db.nextId))
    ensures r.db.users == db.users
    ensures r.db.uploads == db.uploads || (|r.db.uploads| == |db.uploads| + 1 && r.db.uploads[..|db.uploads|] == db.uploads)
  {
    if content.Mistyped? then Step(db, Fail(400, InvalidInput))
    else if FirstIndex(db.chats, ChatOf(chatId, caller)).None? then Step(db, Fail(404, ChatNotFound))
    else
      ChatOfFindsIff(db.chats, chatId, caller);
      var upload := ReceiveUpload(files, uuid);
      if upload.Crash? then Step(db, Fail(500, ServerError))
      else
        var moved := if upload.Moved? then db.(uploads := db.uploads + [upload.name]) else db;
        var fileUrl := if upload.Moved? then Some(UploadsPrefix + upload.name) else None;
        var text := if content.Given? then Some(content.value) else None;
        Deliver(moved, caller, chatId, text, fileUrl, now)
  }

  /**
   * The rest of `sendMessage` once the upload, if any, is in place: the
   * text-or-file check, `Message.create`, then the chat's update.
   */
  function Deliver(db: Db, caller: Id, chatId: Id, text: Option<string>, fileUrl: Option<string>, now: int)
    : (r: Step<Message>)
    ensures r.reply.Fail? ==> r.db == db
    ensures r.reply.Ok? ==> r.db.users == db.users && r.db.uploads == db.uploads
  {
    if !PresentText(text) && fileUrl.None? then Step(db, Fail(400, EmptyMessage))
    else match NewMessage(db.nextId, SendPayload(chatId, caller, text, fileUrl), now)
      case None => Step(db, Fail(500, ServerError))
      case Some(m) =>
        Step(db.(messages := db.messages + [m], nextId := db.nextId + 1,
                 chats := UpdateById(db.chats, chatId, Recorded(m.id))), Ok(201, m))
  }

  /** The filter `{ _id: messageId, sender: caller }`. */
  function OwnMessage(messageId: Id, caller: Id): Message -> bool {
    (m: Message) => m.id == messageId && m.sender == caller
  }

  /** `s` with the element at index `i` taken out. */
  function RemoveAt<T>(s: seq<T>, i: nat): (r: seq<T>)
    requires i < |s|
    ensures |r| == |s| - 1
    ensures forall k :: 0 <= k < |r| ==> r[k] == if k < i then s[k] else s[k + 1]
  {
    s[..i] + s[i + 1..]
  }

  /** `deleteMessage`: only the sender may delete; the chat's counter drops, `lastMessage` is left alone. */
  function DeleteMessage(db: Db, caller: Id, messageId: Id): (r: Step<string>)
    ensures r.reply.Ok? <==> exists m :: m in db.messages && m.id == messageId && m.sender == caller
    ensures r.reply.Fail? ==> r.reply == Fail(404, MessageNotFound) && r.db == db
    ensures r.reply.Ok? ==> r.reply == Ok(200, MessageDeleted)
    ensures r.reply.Ok? ==> |r.db.messages| == |db.messages| - 1 && multiset(r.db.messages) <= multiset(db.messages)
    ensures r.db.users == db.users && r.db.uploads == db.uploads && r.db.nextId == db.nextId
  {
    match FirstIndex(db.messages, OwnMessage(messageId, caller))
    case None => Step(db, Fail(404, MessageNotFound))
    case Some(i) =>
      var m := db.messages[i];
      assert db.messages == db.messages[..i] + [m] + db.messages[i + 1..];
      Step(db.(messages := RemoveAt(db.messages, i), chats := UpdateById(db.chats, m.chat, Uncounted)),
           Ok(200, MessageDeleted))
  }

  // Paging

  /** A query value zod refuses: not finite, not whole, or not above zero. */
  predicate Refused(n: QueryNumber) {
    n.NonFinite? || (n.Finite? && (n.value <= 0.0 || n.value.Floor as real != n.value))
  }

  /** Without `page` and `limit`, the first page of fifty messages is read. */
  lemma PagingDefaults(db: Db, caller: Id, chatId: Id)
    ensures GetMessages(db, caller, chatId, Missing, Missing)
         == GetMessages(db, caller, chatId, Finite(1.0), Finite(50.0))
    ensures Participates(db.chats, caller, chatId) ==>
      GetMessages(db, caller, chatId, Missing, Missing) == Ok(200, MessagePage(db.messages, chatId, 0, 50))
  {
    ChatOfFindsIff(db.chats, chatId, caller);
  }

  /** A refused page or limit is answered with 400 before any chat or message is looked at. */
  lemma RefusedPagingIsInvalid(db: Db, caller: Id, chatId: Id, page: QueryNumber, limit: QueryNumber)
    requires Refused(page) || Refused(limit)
    ensures GetMessages(db, caller, chatId, page, limit) == Fail(400, InvalidInput)
  {
  }

  /** A caller outside the chat, or a chat that does not exist, reads nothing: 404. */
  lemma OutsiderCannotRead(db: Db, caller: Id, chatId: Id, page: QueryNumber, limit: QueryNumber)
    requires !Refused(page) && !Refused(limit)
    requires !Participates(db.chats, caller, chatId)
    ensures GetMessages(db, caller, chatId, page, limit) == Fail(404, ChatNotFound)
  {
    ChatOfFindsIff(db.chats, chatId, caller);
  }

  /** A whole number above zero passes zod unchanged. */
  lemma WholeNumberAccepted(n: nat)
    requires n > 0
    ensures PositiveInt(Finite(n as real)) == Some(n)
  {
    assert (n as real).Floor == n;
  }

  /** `MessagePage` is the page of the chat's messages, newest first. */
  lemma MessagePageIsPage(messages: seq<Message>, chatId: Id, offset: nat, limit: nat)
    ensures MessagePage(messages, chatId, offset, limit) == Page(ChatMessages(messages, chatId), offset, limit)
  {
  }

  /** A participant asking for page `page` of size `limit` gets the page at `(page - 1) * limit`. */
  lemma ReadPage(db: Db, caller: Id, chatId: Id, page: nat, limit: nat)
    requires page > 0 && limit > 0
    requires Participates(db.chats, caller, chatId)
    ensures GetMessages(db, caller, chatId, Finite(page as real), Finite(limit as real))
         == Ok(200, Page(ChatMessages(db.messages, chatId), Skip(page, limit), limit))
  {
    ChatOfFindsIff(db.chats, chatId, caller);
    WholeNumberAccepted(page);
    WholeNumberAccepted(limit);
    MessagePageIsPage(db.messages, chatId, Skip(page, limit), limit);
  }

  /** Page `page` of size `limit` is the slice of the chat's messages, newest first, at `(page - 1) * limit`. */
  lemma PageIsSlice(db: Db, caller: Id, chatId: Id, page: nat, limit: nat)
    requires page > 0 && limit > 0
    requires Participates(db.chats, caller, chatId)
    ensures var r := GetMessages(db, caller, chatId, Finite(page as real), Finite(limit as real));
      var all := ChatMessages(db.messages, chatId);
      var offset := Skip(page, limit);
      && r.Ok?
      && |r.value| == (if offset >= |all| then 0 else Min(limit, |all| - offset))
      && forall j :: 0 <= j < |r.value| ==> offset + j < |all| && r.value[j] == all[offset + j]
  {
    ReadPage(db, caller, chatId, page, limit);
  }

  /** Pages `page` and `page + 1` of the same size follow each other without a gap. */
  lemma NextPageContinues(db: Db, caller: Id, chatId: Id, page: nat, limit: nat)
    requires page > 0 && limit > 0
    requires Participates(db.chats, caller, chatId)
    ensures var r1 := GetMessages(db, caller, chatId, Finite(page as real), Finite(limit as real));
      var r2 := GetMessages(db, caller, chatId, Finite((page + 1) as real), Finite(limit as real));
      r1.Ok? && r2.Ok? && r1.value + r2.value == Page(ChatMessages(db.messages, chatId), Skip(page, limit), 2 * limit)
  {
    var r1 := GetMessages(db, caller, chatId, Finite(page as real), Finite(limit as real));
    var r2 := GetMessages(db, caller, chatId, Finite((page + 1) as real), Finite(limit as real));
    ReadPage(db, caller, chatId, page, limit);
    ReadPage(db, caller, chatId, page + 1, limit);
    SkipNext(page, limit);
    JoinPages(ChatMessages(db.messages, chatId), Skip(page, limit), limit, r1.value, r2.value);
  }

  lemma JoinPages(all: seq<Message>, offset: nat, limit: nat, first: seq<Message>, second: seq<Message>)
    requires first == Page(all, offset, limit) && second == Page(all, offset + limit, limit)
    ensures first + second == Page(all, offset, 2 * limit)
  {
    ConsecutivePages(all, offset, limit);
  }

  /** No two messages of the chat were created at the same instant. */
  ghost predicate DistinctTimes(messages: seq<Message>, chatId: Id) {
    forall m1, m2 ::
      (m1 in messages && m2 in messages && m1.chat == chatId && m2.chat == chatId && m1.createdAt == m2.createdAt)
      ==> m1 == m2
  }

  /**
   * The database promises only that the result is sorted by `createdAt`;
   * when no two of the chat's messages share a timestamp, every sorted
   * order of them is `ChatMessages`, so the pages read are the same
   * whatever order the database chooses among equal keys.
   */
  lemma SortedOrderForced(messages: seq<Message>, chatId: Id, s: seq<Message>)
    requires DistinctTimes(messages, chatId)
    requires SortedDesc(s, CreatedAt) && multiset(s) == multiset(Filter(messages, InChat(chatId)))
    ensures s == ChatMessages(messages, chatId)
  {
    var r := ChatMessages(messages, chatId);
    forall x | x in r
      ensures x in messages && x.chat == chatId
    {
      assert x in multiset(Filter(messages, InChat(chatId)));
    }
    SortedOrderUnique(r, s, CreatedAt);
  }

  /** A chat's messages, newest first, hold no message twice when message ids are unique. */
  lemma ChatMessagesDistinct(messages: seq<Message>, chatId: Id)
    requires UniqueMessageIds(messages)
    ensures Distinct(ChatMessages(messages, chatId))
  {
    DistinctOccursOnce(messages);
    FilterSubMultiset(messages, InChat(chatId));
    OccursOnceDistinct(ChatMessages(messages, chatId));
  }

  /** Two different pages of the same size share no message. */
  lemma PagesDisjoint(db: Db, caller: Id, chatId: Id, page1: nat, page2: nat, limit: nat)
    requires UniqueMessageIds(db.messages)
    requires 0 < page1 < page2 && limit > 0
    requires Participates(db.chats, caller, chatId)
    ensures var r1 := GetMessages(db, caller, chatId, Finite(page1 as real), Finite(limit as real));
      var r2 := GetMessages(db, caller, chatId, Finite(page2 as real), Finite(limit as real));
      r1.Ok? && r2.Ok? && forall m :: m in r1.value ==> m !in r2.value
  {
    ReadPage(db, caller, chatId, page1, limit);
    ReadPage(db, caller, chatId, page2, limit);
    ChatMessagesDistinct(db.messages, chatId);
    var offset1, offset2 := Skip(page1, limit), Skip(page2, limit);
    SkipGrows(page1, page2, limit);
    DisjointPages(ChatMessages(db.messages, chatId), offset1, offset2, limit);
  }

  // Sending

  /** A caller outside the chat, or a chat that does not exist, sends nothing: 404, database unchanged. */
  lemma OutsiderCannotSend(db: Db, caller: Id, chatId: Id, content: Field<string>,
                           files: Option<map<string, FileField>>, now: int, uuid: string)
    requires !content.Mistyped?
    requires !Participates(db.chats, caller, chatId)
    ensures SendMessage(db, caller, chatId, content, files, now, uuid) == Step(db, Fail(404, ChatNotFound))
  {
    ChatOfFindsIff(db.chats, chatId, caller);
  }

  /** No text and no uploaded file: 400, and nothing is created. */
  lemma EmptySendRejected(db: Db, caller: Id, chatId: Id, content: Field<string>,
                          files: Option<map<string, FileField>>, now: int, uuid: string)
    requires content == Absent || content == Given("")
    requires files.None? || "file" !in files.value
    requires Participates(db.chats, caller, chatId)
    ensures SendMessage(db, caller, chatId, content, files, now, uuid) == Step(db, Fail(400, EmptyMessage))
  {
    ChatOfFindsIff(db.chats, chatId, caller);
  }

  /** Non-empty text in a chat of the caller is always accepted, with or without an uploaded file. */
  lemma TextSendAccepted(db: Db, caller: Id, chatId: Id, text: string,
                         files: Option<map<string, FileField>>, now: int, uuid: string)
    requires |text| > 0
    requires files.None? || "file" !in files.value || files.value["file"].Single?
    requires Participates(db.chats, caller, chatId)
    ensures SendMessage(db, caller, chatId, Given(text), files, now, uuid).reply.Ok?
  {
    ChatOfFindsIff(db.chats, chatId, caller);
  }

  /** An uploaded file is stored as the fresh identifier followed by the extension of its name. */
  lemma UploadNamedByUuid(files: map<string, FileField>, f: UploadedFile, uuid: string)
    requires "file" in files && files["file"] == Single(f)
    ensures var r := ReceiveUpload(Some(files), uuid);
      && r.Moved? && r.name == uuid + Extname(f.name)
      && |r.name| >= |uuid| && r.name[..|uuid|] == uuid
      && (r.name[|uuid|..] == [] || (r.name[|uuid|] == '.' && '/' !in r.name[|uuid|..]))
  {
    var r := ReceiveUpload(Some(files), uuid);
    ExtnameShape(f.name);
    assert r.name[|uuid|..] == Extname(f.name);
  }

  /**
   * A file without text: the file is moved into the upload directory,
   * then creation fails on the required `content`, so the reply is 500
   * and the upload is left behind with no message pointing at it.
   */
  lemma FileOnlySendOrphansUpload(db: Db, caller: Id, chatId: Id, content: Field<string>,
                                  files: map<string, FileField>, f: UploadedFile, now: int, uuid: string)
    requires content == Absent || content == Given("")
    requires "file" in files && files["file"] == Single(f)
    requires Participates(db.chats, caller, chatId)
    ensures SendMessage(db, caller, chatId, content, Some(files), now, uuid)
         == Step(db.(uploads := db.uploads + [uuid + Extname(f.name)]), Fail(500, ServerError))
  {
    ChatOfFindsIff(db.chats, chatId, caller);
    var name := uuid + Extname(f.name);
    assert ReceiveUpload(Some(files), uuid) == Moved(name);
    var text := if content.Given? then Some(content.value) else None;
    ContentAlwaysRequired(db.nextId, SendPayload(chatId, caller, text, Some(UploadsPrefix + name)), now);
    var moved := db.(uploads := db.uploads + [name]);
    assert Deliver(moved, caller, chatId, text, Some(UploadsPrefix + name), now) == Step(moved, Fail(500, ServerError));
  }

  /** A send that succeeds stores one text message, points the chat at it and counts it. */
  lemma SendBookkeeping(db: Db, caller: Id, chatId: Id, content: Field<string>,
                        files: Option<map<string, FileField>>, now: int, uuid: string)
    requires Valid(db)
    ensures var r := SendMessage(db, caller, chatId, content, files, now, uuid);
      r.reply.Ok? ==>
        && |r.db.chats| == |db.chats|
        && forall k :: 0 <= k < |db.chats| ==>
             r.db.chats[k] == if db.chats[k].id == chatId
               then db.chats[k].(lastMessage := Some(r.reply.value.id), messageCount := db.chats[k].messageCount + 1)
               else db.chats[k]
  {
    var r := SendMessage(db, caller, chatId, content, files, now, uuid);
    if r.reply.Ok? {
      forall k | 0 <= k < |db.chats|
        ensures r.db.chats[k] == if db.chats[k].id == chatId
          then db.chats[k].(lastMessage := Some(r.reply.value.id), messageCount := db.chats[k].messageCount + 1)
          else db.chats[k]
      {
        UpdateByIdAt(db.chats, chatId, Recorded(db.nextId), k);
      }
    }
  }

  /** Storing one more message of a chat and counting it in that chat keeps every counter right. */
  lemma CountsAfterInsert(chats: seq<Chat>, messages: seq<Message>, m: Message)
    requires UniqueChatIds(chats)
    requires forall c :: c in chats ==> c.messageCount == CountInChat(messages, c.id)
    ensures var r := UpdateById(chats, m.chat, Recorded(m.id));
      forall c :: c in r ==> c.messageCount == CountInChat(messages + [m], c.id)
  {
    var r := UpdateById(chats, m.chat, Recorded(m.id));
    forall c | c in r
      ensures c.messageCount == CountInChat(messages + [m], c.id)
    {
      var k :| 0 <= k < |r| && r[k] == c;
      UpdateByIdAt(chats, m.chat, Recorded(m.id), k);
      assert chats[k] in chats;
      FilterSnoc(messages, m, InChat(c.id));
    }
  }

  /** A valid message under an id no stored message has keeps the messages valid. */
  lemma MessagesAfterInsert(messages: seq<Message>, m: Message)
    requires MessagesValid(messages) && ValidMessage(m)
    requires forall x :: x in messages ==> x.id != m.id
    ensures MessagesValid(messages + [m])
  {
    var r := messages + [m];
    forall i, j | 0 <= i < j < |r|
      ensures r[i].id != r[j].id
    {
      assert r[i] in messages;
    }
  }

  /** Storing a valid message under the next id, and recording it in its chat, keeps the database valid. */
  lemma InsertPreservesValid(db: Db, m: Message, uploads: seq<string>)
    requires Valid(db)
    requires m.id == db.nextId && m.chat < db.nextId && ValidMessage(m)
    ensures Valid(Db(db.users, UpdateById(db.chats, m.chat, Recorded(m.id)), db.messages + [m], uploads, db.nextId + 1))
  {
    var d := Db(db.users, UpdateById(db.chats, m.chat, Recorded(m.id)), db.messages + [m], uploads, db.nextId + 1);
    assert CountsMatch(d) by {
      assert CountsMatch(db);
      CountsAfterInsert(db.chats, db.messages, m);
    }
    assert ChatsValid(d.chats) && forall c :: c in d.chats ==> c.id < d.nextId by {
      UpdateKeepsChatInvariants(db.chats, m.chat, Recorded(m.id));
      forall c | c in d.chats
        ensures c.id < d.nextId
      {
        var e :| e in db.chats && SameShape(e, c);
      }
    }
    MessagesAfterInsert(db.messages, m);
  }

  /** Sending keeps the database valid, the per-chat counters included. */
  lemma SendPreservesValid(db: Db, caller: Id, chatId: Id, content: Field<string>,
                           files: Option<map<string, FileField>>, now: int, uuid: string)
    requires Valid(db)
    ensures Valid(SendMessage(db, caller, chatId, content, files, now, uuid).db)
  {
    var r := SendMessage(db, caller, chatId, content, files, now, uuid);
    if r.reply.Ok? {
      var m := r.reply.value;
      var c :| c in db.chats && c.id == chatId && caller in c.participants;
      InsertPreservesValid(db, m, r.db.uploads);
      assert r.db == Db(db.users, UpdateById(db.chats, m.chat, Recorded(m.id)), db.messages + [m], r.db.uploads, db.nextId + 1);
    } else {
      UploadsOutsideInvariant(db, r.db.uploads);
    }
  }

  // Deleting

  /** With unique ids, taking out the message at `i` removes exactly the messages with its id. */
  lemma RemoveUniqueAt(messages: seq<Message>, i: nat)
    requires i < |messages| && UniqueMessageIds(messages)
    ensures forall x :: x in RemoveAt(messages, i) <==> x in messages && x.id != messages[i].id
  {
    var rest := RemoveAt(messages, i);
    forall x | x in rest
      ensures x in messages && x.id != messages[i].id
    {
      var k :| 0 <= k < |rest| && rest[k] == x;
      assert x == messages[if k < i then k else k + 1];
    }
    forall x | x in messages && x.id != messages[i].id
      ensures x in rest
    {
      var k :| 0 <= k < |messages| && messages[k] == x;
      if k < i {
        assert rest[k] == x;
      } else {
        assert rest[k - 1] == x;
      }
    }
  }

  /** With unique ids, a successful delete removes exactly the message with that id. */
  lemma DeleteRemovesOnlyIt(db: Db, caller: Id, messageId: Id)
    requires UniqueMessageIds(db.messages)
    ensures var r := DeleteMessage(db, caller, messageId);
      r.reply.Ok? ==> forall x :: x in r.db.messages <==> x in db.messages && x.id != messageId
  {
    var r := DeleteMessage(db, caller, messageId);
    if r.reply.Ok? {
      var i := FirstIndex(db.messages, OwnMessage(messageId, caller)).value;
      assert r.db.messages == RemoveAt(db.messages, i) && db.messages[i].id == messageId;
      RemoveUniqueAt(db.messages, i);
    }
  }

  /** Deleting lowers the deleted message's chat counter by one and changes no other chat. */
  lemma DeleteBookkeeping(db: Db, caller: Id, messageId: Id, m: Message)
    requires Valid(db)
    requires m in db.messages && m.id == messageId
    ensures var r := DeleteMessage(db, caller, messageId);
      r.reply.Ok? ==>
        && |r.db.chats| == |db.chats|
        && forall k :: 0 <= k < |db.chats| ==>
             r.db.chats[k] == if db.chats[k].id == m.chat
               then db.chats[k].(messageCount := db.chats[k].messageCount - 1)
               else db.chats[k]
  {
    var r := DeleteMessage(db, caller, messageId);
    if r.reply.Ok? {
      var i := FirstIndex(db.messages, OwnMessage(messageId, caller)).value;
      var k0 :| 0 <= k0 < |db.messages| && db.messages[k0] == m;
      assert db.messages[i] == m;
      forall k | 0 <= k < |db.chats|
        ensures r.db.chats[k] == if db.chats[k].id == m.chat
          then db.chats[k].(messageCount := db.chats[k].messageCount - 1)
          else db.chats[k]
      {
        UpdateByIdAt(db.chats, m.chat, Uncounted, k);
      }
    }
  }

  /** A delete leaves the chat's `lastMessage` pointing at a message that no longer exists. */
  lemma DeleteLeavesDanglingLastMessage(db: Db, caller: Id, messageId: Id, k: nat)
    requires Valid(db)
    requires k < |db.chats| && db.chats[k].lastMessage == Some(messageId)
    ensures var r := DeleteMessage(db, caller, messageId);
      r.reply.Ok? ==>
        && r.db.chats[k].lastMessage == Some(messageId)
        && forall x :: x in r.db.messages ==> x.id != messageId
  {
    var r := DeleteMessage(db, caller, messageId);
    if r.reply.Ok? {
      var i := FirstIndex(db.messages, OwnMessage(messageId, caller)).value;
      UpdateByIdAt(db.chats, db.messages[i].chat, Uncounted, k);
      DeleteRemovesOnlyIt(db, caller, messageId);
    }
  }

  /** Taking out the message at index i and uncounting it in its chat keeps every counter right. */
  lemma CountsAfterRemove(chats: seq<Chat>, messages: seq<Message>, i: nat)
    requires i < |messages|
    requires UniqueChatIds(chats)
    requires forall c :: c in chats ==> c.messageCount == CountInChat(messages, c.id)
    ensures var r := UpdateById(chats, messages[i].chat, Uncounted);
      forall c :: c in r ==> c.messageCount == CountInChat(RemoveAt(messages, i), c.id)
  {
    var r := UpdateById(chats, messages[i].chat, Uncounted);
    assert RemoveAt(messages, i) == messages[..i] + messages[i + 1..];
    forall c | c in r
      ensures c.messageCount == CountInChat(RemoveAt(messages, i), c.id)
    {
      var k :| 0 <= k < |r| && r[k] == c;
      UpdateByIdAt(chats, messages[i].chat, Uncounted, k);
      assert chats[k] in chats;
      FilterRemove(messages, i, InChat(c.id));
    }
  }

  /** Taking a message out keeps the messages valid. */
  lemma MessagesAfterRemove(messages: seq<Message>, i: nat)
    requires i < |messages| && MessagesValid(messages)
    ensures MessagesValid(RemoveAt(messages, i))
    ensures forall x :: x in RemoveAt(messages, i) ==> x in messages
  {
    var r := RemoveAt(messages, i);
    forall x | x in r
      ensures x in messages
    {
      var k :| 0 <= k < |r| && r[k] == x;
      assert x == messages[if k < i then k else k + 1];
    }
  }

  /** Deleting keeps the database valid, the per-chat counters included. */
  lemma DeletePreservesValid(db: Db, caller: Id, messageId: Id)
    requires Valid(db)
    ensures Valid(DeleteMessage(db, caller, messageId).db)
  {
    var r := DeleteMessage(db, caller, messageId);
    if r.reply.Ok? {
      var i := FirstIndex(db.messages, OwnMessage(messageId, caller)).value;
      var chatId := db.messages[i].chat;
      var d := r.db;
      assert d == db.(messages := RemoveAt(db.messages, i), chats := UpdateById(db.chats, chatId, Uncounted));
      assert CountsMatch(d) by {
        assert CountsMatch(db);
        CountsAfterRemove(db.chats, db.messages, i);
      }
      assert ChatsValid(d.chats) && forall c :: c in d.chats ==> c.id < d.nextId by {
        UpdateKeepsChatInvariants(db.chats, chatId, Uncounted);
        forall c | c in d.chats
          ensures c.id < d.nextId
        {
          var e :| e in db.chats && SameShape(e, c);
        }
      }
      MessagesAfterRemove(db.messages, i);
    }
  }
}
