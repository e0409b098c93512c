/**
 * The `Message` schema: its paths, the `type` enum, defaults and the
 * conditionally required file paths.
 */
module MessageModel {
  import opened Base

  datatype MessageType = Text | Image | File | Video

  datatype Message = Message(
    id: Id,
    chat: Id,
    sender: Id,
    content: string,
    kind: MessageType,
    fileUrl: Option<string>,
    fileName: Option<string>,
    fileSize: Option<int>,
    readBy: seq<Id>,
    createdAt: int)

  /** The paths the schema declares; under strict mode any other key given to `create` is dropped. */
  const MessagePaths: set<string> :=
    {"chat", "sender", "content", "type", "fileUrl", "fileName", "fileSize", "readBy", "createdAt"}

  /** The values handed to `Message.create`, each possibly missing. */
  datatype MessageInput = MessageInput(
    chat: Option<Id>,
    sender: Option<Id>,
    content: Option<string>,
    kind: Option<MessageType>,
    fileUrl: Option<string>,
    fileName: Option<string>,
    fileSize: Option<int>)

  /** Mongoose's `required` on a String path: present and not empty. */
  predicate PresentText(s: Option<string>) {
    s.Some? && |s.value| > 0
  }

  predicate NeedsFileUrl(k: MessageType) {
    k == Image || k == File || k == Video
  }

  predicate NeedsFileDetails(k: MessageType) {
    k == File || k == Video
  }

  /** The validators of a stored message. */
  predicate ValidMessage(m: Message) {
    && |m.content| > 0
    && (NeedsFileUrl(m.kind) ==> PresentText(m.fileUrl))
    && (NeedsFileDetails(m.kind) ==> PresentText(m.fileName) && m.fileSize.Some?)
  }

  function KindOrDefault(k: Option<MessageType>): MessageType {
    if k.Some? then k.value else Text
  }

  /**
   * `Message.create(input)`: the defaults (`type` text, `readBy` empty,
   * `createdAt` now) are applied, then the validators run; None is the
   * ValidationError.
   */
  function NewMessage(id: Id, input: MessageInput, now: int): (r: Option<Message>)
    ensures r.Some? ==> ValidMessage(r.value)
    ensures r.Some? ==> r.value.id == id && r.value.readBy == [] && r.value.createdAt == now
    ensures r.Some? ==> r.value.kind == KindOrDefault(input.kind)
    ensures r.Some? ==>
      && input.chat == Some(r.value.chat) && input.sender == Some(r.value.sender)
      && input.content == Some(r.value.content) && input.fileUrl == r.value.fileUrl
      && input.fileName == r.value.fileName && input.fileSize == r.value.fileSize
    ensures r.None? ==>
      || input.chat.None? || input.sender.None? || !PresentText(input.content)
      || (NeedsFileUrl(KindOrDefault(input.kind)) && !PresentText(input.fileUrl))
      || (NeedsFileDetails(KindOrDefault(input.kind)) && (!PresentText(input.fileName) || input.fileSize.None?))
  {
    if input.chat.None? || input.sender.None? || input.content.None? then None
    else
      var m := Message(id, input.chat.value, input.sender.value, input.content.value,
                       KindOrDefault(input.kind), input.fileUrl, input.fileName, input.fileSize, [], now);
      if ValidMessage(m) then Some(m) else None
  }

  /** `content` is required whatever the type: no message without text is ever created. */
  lemma ContentAlwaysRequired(id: Id, input: MessageInput, now: int)
    requires !PresentText(input.content)
    ensures NewMessage(id, input, now).None?
  {
  }

  /** `fileUrl` is required exactly for image, file and video messages. */
  lemma FileUrlRequiredForMedia(id: Id, input: MessageInput, now: int)
    requires input.chat.Some? && input.sender.Some? && PresentText(input.content)
    requires input.fileUrl.None?
    requires input.fileName.Some? && |input.fileName.value| > 0 && input.fileSize.Some?
    ensures NewMessage(id, input, now).Some? <==> !NeedsFileUrl(KindOrDefault(input.kind))
  {
  }

  /** An image needs only its URL; a file or a video also needs a name and a size. */
  lemma ImageNeedsOnlyUrl(id: Id, input: MessageInput, now: int)
    requires input.chat.Some? && input.sender.Some? && PresentText(input.content)
    requires PresentText(input.fileUrl) && input.fileName.None? && input.fileSize.None?
    ensures NewMessage(id, input, now).Some? <==> KindOrDefault(input.kind) in {Text, Image}
  {
  }

  /** With no type given, a message is a text message and nothing about files is required. */
  lemma TypeDefaultsToText(id: Id, chat: Id, sender: Id, content: string, now: int)
    requires |content| > 0
    ensures var r := NewMessage(id, MessageInput(Some(chat), Some(sender), Some(content), None, None, None, None), now);
      r.Some? && r.value.kind == Text && r.value.readBy == [] && r.value.createdAt == now
  {
  }
}
