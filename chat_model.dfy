/**
 * The `Chat` schema: the `type` enum, the name required for groups, the
 * timestamps and the pre-save hook that refreshes `updatedAt`.
 */
module ChatModel {
  import opened Base

  datatype ChatType = Private | Group

  /**
   * A chat document. `createdBy` and `messageCount` are written by the
   * controllers but are not paths of the schema (see `ChatPaths`); they are
   * kept here with the values the controllers intend.
   */
  datatype Chat = Chat(
    id: Id,
    kind: ChatType,
    participants: seq<Id>,
    name: Option<string>,
    avatar: Option<string>,
    lastMessage: Option<Id>,
    createdAt: int,
    updatedAt: int,
    createdBy: Id,
    messageCount: int)

  /** The paths the schema declares. */
  const ChatPaths: set<string> :=
    {"type", "participants", "name", "avatar", "lastMessage", "createdAt", "updatedAt"}

  /** The validators: a group needs a non-empty name; a private chat may have none. */
  predicate ValidChat(c: Chat) {
    c.kind == Group ==> c.name.Some? && |c.name.value| > 0
  }

  /** The pre('save') hook: every save stamps `updatedAt` with the current time. */
  function TouchOnSave(c: Chat, now: int): (r: Chat)
    ensures r.updatedAt == now && r.(updatedAt := c.updatedAt) == c
  {
    c.(updatedAt := now)
  }

  /**
   * `Chat.create(...)`: defaults (`createdAt` and `updatedAt` now, no last
   * message, no avatar, a count of zero), validation, then the hook.
   */
  function NewChat(id: Id, kind: ChatType, participants: seq<Id>, name: Option<string>, createdBy: Id, now: int)
    : (r: Option<Chat>)
    ensures r.Some? <==> (kind == Group ==> name.Some? && |name.value| > 0)
    ensures r.Some? ==> ValidChat(r.value)
    ensures r.Some? ==>
      && r.value.id == id && r.value.kind == kind && r.value.participants == participants
      && r.value.name == name && r.value.createdBy == createdBy
    ensures r.Some? ==>
      && r.value.createdAt == now && r.value.updatedAt == now
      && r.value.lastMessage == None && r.value.messageCount == 0
  {
    var c := Chat(id, kind, participants, name, None, None, now, now, createdBy, 0);
    if ValidChat(c) then Some(TouchOnSave(c, now)) else None
  }

  /** `createdBy` and `messageCount` are not declared by the schema. */
  lemma CounterAndCreatorUndeclared()
    ensures "messageCount" !in ChatPaths && "createdBy" !in ChatPaths
  {
  }
}
