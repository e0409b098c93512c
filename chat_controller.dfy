/**
 * The chat controller: `getChats` and `getChatById` (reads restricted to
 * the caller's chats), `createPrivateChat` (find-or-create keyed on the
 * pair of users) and `createGroupChat` (caller added, every participant
 * checked to exist).
 */
module ChatController {
  import opened Base
  import opened Seqs
  import opened Strings
  import opened UserModel
  import opened ChatModel
  import opened Database

  const RecipientNotFound := "Recipient not found"
  const ParticipantsNotFound := "One or more participants not found"

  /** `z.string().min(2)` on the group name and `z.array(...).min(2)` on its participants. */
  const MinGroupName: nat := 2
  const MinGroupParticipants: nat := 2

  /** The sort key of `sort({ updatedAt: -1 })`. */
  function UpdatedAt(c: Chat): int {
    c.updatedAt
  }

  /** `getChats`: the chats the caller takes part in, most recently updated first. */
  function GetChats(db: Db, caller: Id): (r: seq<Chat>)
    ensures SortedDesc(r, UpdatedAt)
    ensures forall c :: c in r <==> c in db.chats && caller in c.participants
    ensures multiset(r) <= multiset(db.chats)
  {
    var mine := Filter(db.chats, HasParticipant(caller));
    FilterSubMultiset(db.chats, HasParticipant(caller));
    var r := SortDesc(mine, UpdatedAt);
    forall c
      ensures c in r <==> c in mine
    {
      assert c in r <==> c in multiset(r);
      assert c in mine <==> c in multiset(mine);
    }
    r
  }

  /** `getChatById`: the chat with that id, provided the caller takes part in it. */
  function GetChatById(db: Db, caller: Id, id: Id): (r: Reply<Chat>)
    ensures r.Ok? <==> Participates(db.chats, caller, id)
    ensures r.Ok? ==> r.status == 200 && r.value in db.chats && r.value.id == id && caller in r.value.participants
    ensures r.Fail? ==> r == Fail(404, ChatNotFound)
  {
    ChatOfFindsIff(db.chats, id, caller);
    match FirstIndex(db.chats, ChatOf(id, caller))
    case None => Fail(404, ChatNotFound)
    case Some(i) => Ok(200, db.chats[i])
  }

  /** The filter `{ type: 'private', participants: { $all: [a, b], $size: 2 } }`. */
  function IsPrivateWith(a: Id, b: Id): Chat -> bool {
    (c: Chat) => c.kind == Private && |c.participants| == 2 && a in c.participants && b in c.participants
  }

  /**
   * `createPrivateChat`: `recipient` is the `recipientId` of the body. An
   * existing private chat of the two is returned as it is; otherwise a new
   * one is created.
   */
  function CreatePrivateChat(db: Db, caller: Id, recipient: Field<Id>, now: int): (r: Step<Chat>)
    ensures r.reply.Fail? <==> !recipient.Given? || recipient.value !in UserIds(db.users)
    ensures r.reply.Fail? ==> r.db == db
    ensures r.reply.Fail? ==>
      r.reply == if recipient.Given? then Fail(404, RecipientNotFound) else Fail(400, InvalidInput)
    ensures r.reply.Ok? ==>
      && IsPrivateWith(caller, recipient.value)(r.reply.value) && r.reply.value in r.db.chats
    ensures r.reply.Ok? && r.reply.status == 200 ==> r.db == db
    ensures r.reply.Ok? && r.reply.status != 200 ==>
      && r.reply.status == 201
      && (forall c :: c in db.chats ==> !IsPrivateWith(caller, recipient.value)(c))
      && r.db == db.(chats := db.chats + [r.reply.value], nextId := db.nextId + 1)
      && r.reply.value.id == db.nextId && r.reply.value.participants == [caller, recipient.value]
      && r.reply.value.createdBy == caller && r.reply.value.name.None?
      && r.reply.value.createdAt == now && r.reply.value.lastMessage.None? && r.reply.value.messageCount == 0
  {
    if !recipient.Given? then Step(db, Fail(400, InvalidInput))
    else if FirstIndex(db.users, UserWithId(recipient.value)).None? then
      UserWithIdFindsIff(db.users, recipient.value);
      Step(db, Fail(404, RecipientNotFound))
    else
      UserWithIdFindsIff(db.users, recipient.value);
      match FirstIndex(db.chats, IsPrivateWith(caller, recipient.value))
      case Some(i) => Step(db, Ok(200, db.chats[i]))
      case None =>
        var c := NewChat(db.nextId, Private, [caller, recipient.value], None, caller, now).value;
        Step(db.(chats := db.chats + [c], nextId := db.nextId + 1), Ok(201, c))
  }

  /** `participants.push(caller)` when the caller is not listed. */
  function WithCaller(participants: seq<Id>, caller: Id): (r: seq<Id>)
    ensures caller in r
    ensures caller in participants ==> r == participants
    ensures caller !in participants ==> r == participants + [caller]
  {
    if caller in participants then participants else participants + [caller]
  }

  /** The filter `{ _id: { $in: ids } }`. */
  function IdIn(ids: seq<Id>): User -> bool {
    (u: User) => u.id in ids
  }

  /**
   * `createGroupChat`: `name` and `participants` are the keys of the body.
   * The participant list must be as long as the number of stored users
   * whose id it lists.
   */
  function CreateGroupChat(db: Db, caller: Id, name: Field<string>, participants: Field<seq<Id>>, now: int)
    : (r: Step<Chat>)
    ensures r.reply.Fail? ==> r.db == db
    ensures !name.Given? || !participants.Given? ==> r.reply == Fail(400, InvalidInput)
    ensures name.Given? && participants.Given? ==>
      (r.reply == Fail(400, InvalidInput) <==>
         Utf16Length(name.value) < MinGroupName || |participants.value| < MinGroupParticipants)
    ensures r.reply.Fail? && r.reply.status != 400 ==> r.reply == Fail(404, ParticipantsNotFound)
    ensures r.reply.Ok? ==>
      && name.Given? && participants.Given? && r.reply.status == 201
      && r.db == db.(chats := db.chats + [r.reply.value], nextId := db.nextId + 1)
      && r.reply.value.id == db.nextId && r.reply.value.kind == Group
      && r.reply.value.name == Some(name.value) && r.reply.value.createdBy == caller
      && r.reply.value.participants == WithCaller(participants.value, caller)
      && r.reply.value.createdAt == now && r.reply.value.lastMessage.None? && r.reply.value.messageCount == 0
  {
    if !name.Given? || !participants.Given? then Step(db, Fail(400, InvalidInput))
    else if Utf16Length(name.value) < MinGroupName || |participants.value| < MinGroupParticipants then
      Step(db, Fail(400, InvalidInput))
    else
      var ps := WithCaller(participants.value, caller);
      if |Filter(db.users, IdIn(ps))| != |ps| then Step(db, Fail(404, ParticipantsNotFound))
      else
        var c := NewChat(db.nextId, Group, ps, Some(name.value), caller, now).value;
        Step(db.(chats := db.chats + [c], nextId := db.nextId + 1), Ok(201, c))
  }

  // Private chats

  /** With unique user ids, a recipient is found exactly when it is a stored user. */
  lemma RecipientMustExist(db: Db, caller: Id, recipient: Id, now: int)
    ensures CreatePrivateChat(db, caller, Given(recipient), now).reply == Fail(404, RecipientNotFound)
        <==> recipient !in UserIds(db.users)
  {
  }

  /** Asking twice for the private chat with the same user gives the same chat, and the second request creates nothing. */
  lemma PrivateChatIdempotent(db: Db, a: Id, b: Id, now1: int, now2: int)
    ensures var r1 := CreatePrivateChat(db, a, Given(b), now1);
      var r2 := CreatePrivateChat(r1.db, a, Given(b), now2);
      r1.reply.Ok? ==> r2 == Step(r1.db, Ok(200, r1.reply.value))
  {
    var r1 := CreatePrivateChat(db, a, Given(b), now1);
    if r1.reply.Ok? && r1.reply.status == 201 {
      FirstIndexSnoc(db.chats, r1.reply.value, IsPrivateWith(a, b));
      UserWithIdFindsIff(db.users, b);
    }
  }

  /** The pair is unordered: `IsPrivateWith(a, b)` and `IsPrivateWith(b, a)` select the same chats. */
  lemma PrivateWithSymmetric(chats: seq<Chat>, a: Id, b: Id)
    ensures FirstIndex(chats, IsPrivateWith(a, b)) == FirstIndex(chats, IsPrivateWith(b, a))
  {
    FirstIndexCongruent(chats, IsPrivateWith(a, b), IsPrivateWith(b, a));
  }

  /** A asking for B, then B asking for A, gives one and the same chat; the second request creates nothing. */
  lemma PrivateChatSymmetric(db: Db, a: Id, b: Id, now1: int, now2: int)
    requires a in UserIds(db.users)
    ensures var r1 := CreatePrivateChat(db, a, Given(b), now1);
      var r2 := CreatePrivateChat(r1.db, b, Given(a), now2);
      r1.reply.Ok? ==> r2 == Step(r1.db, Ok(200, r1.reply.value))
  {
    var r1 := CreatePrivateChat(db, a, Given(b), now1);
    if r1.reply.Ok? {
      UserWithIdFindsIff(r1.db.users, a);
      PrivateWithSymmetric(r1.db.chats, a, b);
      if r1.reply.status == 201 {
        FirstIndexSnoc(db.chats, r1.reply.value, IsPrivateWith(a, b));
      }
    }
  }

  /** However often it is asked, a private-chat request adds at most one chat. */
  lemma PrivateChatGrowsByAtMostOne(db: Db, caller: Id, recipient: Field<Id>, now: int)
    ensures var r := CreatePrivateChat(db, caller, recipient, now);
      db.chats <= r.db.chats && |r.db.chats| <= |db.chats| + 1
  {
  }

  /** Two users take part in at most one private chat: it is the one returned. */
  lemma ExistingPrivateChatReturned(db: Db, a: Id, b: Id, now: int, k: nat)
    requires ChatsValid(db.chats) && a != b && b in UserIds(db.users)
    requires k < |db.chats| && IsPrivateWith(a, b)(db.chats[k])
    ensures CreatePrivateChat(db, a, Given(b), now) == Step(db, Ok(200, db.chats[k]))
  {
    var i := FirstIndex(db.chats, IsPrivateWith(a, b)).value;
    assert db.chats[i] in db.chats && db.chats[k] in db.chats;
    var p, q := db.chats[i].participants, db.chats[k].participants;
    assert p == [p[0], p[1]] && q == [q[0], q[1]];
    assert multiset(p) == multiset(q);
  }

  /**
   * Asking for a private chat with oneself matches any two-member private
   * chat of the caller: the first such chat is returned, even one with
   * another user, and no chat is created.
   */
  lemma SelfChatMatchesAnyPrivateChat(db: Db, a: Id, b: Id, now: int)
    requires a in UserIds(db.users)
    requires |db.chats| > 0 && db.chats[0].kind == Private && db.chats[0].participants == [a, b]
    ensures CreatePrivateChat(db, a, Given(a), now) == Step(db, Ok(200, db.chats[0]))
  {
    assert IsPrivateWith(a, a)(db.chats[0]);
  }

  /** A private chat with its two participants keeps the chats valid when the pair has none yet. */
  lemma ChatsAfterPrivateInsert(chats: seq<Chat>, c: Chat, a: Id, b: Id)
    requires ChatsValid(chats)
    requires forall d :: d in chats ==> d.id != c.id
    requires c.kind == Private && c.participants == [a, b] && c.createdBy == a
    requires forall d :: d in chats ==> !IsPrivateWith(a, b)(d)
    ensures ChatsValid(chats + [c])
  {
    var r := chats + [c];
    forall i, j | 0 <= i < j < |r| && r[i].kind == Private && r[j].kind == Private
      ensures multiset(r[i].participants) != multiset(r[j].participants)
    {
      if j == |chats| {
        assert r[i] in chats;
        var p := r[i].participants;
        assert p == [p[0], p[1]];
        assert !IsPrivateWith(a, b)(r[i]);
        assert a in multiset(c.participants) && b in multiset(c.participants);
      }
    }
    forall i, j | 0 <= i < j < |r|
      ensures r[i].id != r[j].id
    {
      assert r[i] in chats;
    }
  }

  /** A new chat whose creator takes part, stored under the next id, keeps the database valid when chats stay valid. */
  lemma InsertChatPreservesValid(db: Db, c: Chat)
    requires Valid(db)
    requires c.id == db.nextId && c.messageCount == 0
    requires ChatsValid(db.chats + [c])
    ensures Valid(db.(chats := db.chats + [c], nextId := db.nextId + 1))
  {
    var d := db.(chats := db.chats + [c], nextId := db.nextId + 1);
    FilterNone(db.messages, InChat(c.id));
    assert CountsMatch(db);
    assert CountsMatch(d);
  }

  /** Creating a private chat keeps the database valid: in particular, no pair gets a second private chat. */
  lemma CreatePrivatePreservesValid(db: Db, caller: Id, recipient: Field<Id>, now: int)
    requires Valid(db)
    ensures Valid(CreatePrivateChat(db, caller, recipient, now).db)
  {
    var r := CreatePrivateChat(db, caller, recipient, now);
    if r.reply.Ok? && r.reply.status == 201 {
      ChatsAfterPrivateInsert(db.chats, r.reply.value, caller, recipient.value);
      InsertChatPreservesValid(db, r.reply.value);
    }
  }

  // Group chats

  /** Splitting the first user off a list with unique ids. */
  lemma UserIdsCons(users: seq<User>)
    requires users != [] && UniqueUserIds(users)
    ensures UniqueUserIds(users[1..])
    ensures users[0].id !in UserIds(users[1..])
    ensures UserIds(users) == {users[0].id} + UserIds(users[1..])
  {
    var u, rest := users[0], users[1..];
    assert users == [u] + rest;
    forall i, j | 0 <= i < j < |rest|
      ensures rest[i].id != rest[j].id
    {
      assert rest[i] == users[i + 1] && rest[j] == users[j + 1];
    }
    forall v | v in rest
      ensures v.id != u.id
    {
      var k :| 0 <= k < |rest| && rest[k] == v;
      assert users[k + 1] == v;
    }
  }

  /** With unique ids, the users selected by `{ _id: { $in: ids } }` are as many as the listed ids that are user ids. */
  lemma {:induction false} CountListedUsers(users: seq<User>, ids: seq<Id>)
    requires UniqueUserIds(users)
    ensures |Filter(users, IdIn(ids))| == |Elems(ids) * UserIds(users)|
  {
    if users != [] {
      var u, rest := users[0], users[1..];
      UserIdsCons(users);
      CountListedUsers(rest, ids);
      InsertIntersectCard(Elems(ids), u.id, UserIds(rest));
    }
  }

  /** Adding an element outside b to b adds one to its intersection with a exactly when a has it. */
  lemma InsertIntersectCard(a: set<Id>, x: Id, b: set<Id>)
    requires x !in b
    ensures |a * ({x} + b)| == (if x in a then 1 else 0) + |a * b|
  {
    if x in a {
      assert a * ({x} + b) == {x} + a * b;
    } else {
      assert a * ({x} + b) == a * b;
    }
  }

  /**
   * The existence check counts users, not ids: it passes exactly when every
   * listed id is a stored user and no id is listed twice.
   */
  lemma ParticipantCheckIff(users: seq<User>, ids: seq<Id>)
    requires UniqueUserIds(users)
    ensures |Filter(users, IdIn(ids))| == |ids| <==> (forall id :: id in ids ==> id in UserIds(users)) && Distinct(ids)
  {
    CountListedUsers(users, ids);
    IntersectionCard(Elems(ids), UserIds(users));
    ElemsCard(ids);
  }

  /** A well-formed group request succeeds exactly when the list with the caller names existing users, each once. */
  lemma GroupCreatedIff(db: Db, caller: Id, name: string, participants: seq<Id>, now: int)
    requires Valid(db)
    requires Utf16Length(name) >= MinGroupName && |participants| >= MinGroupParticipants
    ensures var r := CreateGroupChat(db, caller, Given(name), Given(participants), now);
      var ps := WithCaller(participants, caller);
      r.reply.Ok? <==> (forall id :: id in ps ==> id in UserIds(db.users)) && Distinct(ps)
  {
    ParticipantCheckIff(db.users, WithCaller(participants, caller));
  }

  /** zod counts UTF-16 units: a one-emoji group name passes the length check. */
  lemma EmojiGroupNameAccepted(db: Db, caller: Id, participants: seq<Id>, now: int)
    requires |participants| >= MinGroupParticipants
    ensures CreateGroupChat(db, caller, Given("\U{1F600}"), Given(participants), now).reply != Fail(400, InvalidInput)
  {
    AstralCountsTwice('\U{1F600}');
  }

  /** An id listed twice is refused with 404, whatever users exist. */
  lemma DuplicateParticipantRefused(db: Db, caller: Id, name: string, participants: seq<Id>, now: int, i: nat, j: nat)
    requires Valid(db)
    requires Utf16Length(name) >= MinGroupName && |participants| >= MinGroupParticipants
    requires i < j < |participants| && participants[i] == participants[j]
    ensures CreateGroupChat(db, caller, Given(name), Given(participants), now) == Step(db, Fail(404, ParticipantsNotFound))
  {
    var ps := WithCaller(participants, caller);
    assert ps[i] == ps[j];
    ParticipantCheckIff(db.users, ps);
  }

  /** Every created group lists its creator, the caller, among its participants. */
  lemma GroupIncludesCaller(db: Db, caller: Id, name: Field<string>, participants: Field<seq<Id>>, now: int)
    ensures var r := CreateGroupChat(db, caller, name, participants, now);
      r.reply.Ok? ==> caller in r.reply.value.participants && r.reply.value.createdBy == caller
  {
  }

  /** Creating a group keeps the database valid. */
  lemma CreateGroupPreservesValid(db: Db, caller: Id, name: Field<string>, participants: Field<seq<Id>>, now: int)
    requires Valid(db)
    ensures Valid(CreateGroupChat(db, caller, name, participants, now).db)
  {
    var r := CreateGroupChat(db, caller, name, participants, now);
    if r.reply.Ok? {
      var c := r.reply.value;
      var chats := db.chats + [c];
      forall i, j | 0 <= i < j < |chats|
        ensures chats[i].id != chats[j].id
      {
        assert chats[i] in db.chats;
      }
      assert ChatsValid(chats);
      InsertChatPreservesValid(db, c);
    }
  }
}
