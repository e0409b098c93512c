# Chat server business rules in Dafny

This project models the request handlers of a Node.js/Express chat server
backed by MongoDB through Mongoose: the account, chat and message
controllers, the authentication and upload middleware, and the `User`,
`Chat` and `Message` schemas with their casts, defaults, validators and
save hooks.

The three collections and the upload directory form one database value,
`Database.Db`. Ids are naturals issued from a counter, and each collection
is a sequence in insertion (natural) order. `findOne` is the first match,
`find` is a filter, and `findByIdAndUpdate` replaces the first chat with
the id and runs no hook.

Each controller is a function from the database before a request to the
database after it and the reply sent (`Database.Step`). `Database.Valid`
is the invariant every handler keeps:
- unique ids and emails;
- every stored document passes its schema validators;
- casts are applied;
- private pairs are unique;
- creators take part in their chats;
- each chat's `messageCount` is the number of its messages.

`Store.ChatStore` holds the same state as mutable fields. Its methods
perform each handler's steps in order. They are proved to leave exactly the
state the controller function describes, and to keep the invariant.

`Middleware.Exchange` and `Middleware.Handshake` model a request and a
socket handshake going through `auth`, `validateFileUpload` and
`socketAuth`: `req.user` or `socket.user` is assigned, a response is sent,
and `next` is called.

Foreign code is abstract:
- bcrypt is the injective constructor `UserModel.Hashed`, and
  `bcrypt.compare(c, s)` holds exactly when `s` is `Hashed(Plain(c))`
  (the limits of this abstraction are listed under "Left out");
- `jwt.sign` is `AuthController.Token(id)`, and `jwt.verify` is a parameter
  `verify` mapping a token string to the id it carries;
- zod's email check is a parameter `emailOk`;
- `uuidv4()` is a parameter `uuid`;
- `Date.now()` is a parameter `now`.

Some cross-file behaviour is modelled as the code produces it, and each
case is stated as a lemma:
- `sendMessage` passes the upload URL under the key `file`. The strict
  `Message` schema has no such path, so no message ever records a file
  (`Routes.PostedMessageLosesItsFile`).
- `content` is always required, so a file without text is moved into the
  upload directory and then the creation fails with 500
  (`MessageController.FileOnlySendOrphansUpload`).
- `validateFileUpload` runs before `sendMessage`, so a text-only post never
  reaches the controller (`Routes.TextOnlyPostRefused`).
- A private chat requested with oneself matches any two-member private chat
  of the caller (`ChatController.SelfChatMatchesAnyPrivateChat`).
- A delete leaves `lastMessage` pointing at the deleted message
  (`MessageController.DeleteLeavesDanglingLastMessage`).
- The group existence check counts users, not ids, so a listed duplicate is
  refused (`ChatController.ParticipantCheckIff`).
- `createdBy` and `messageCount` are written by the controllers but are not
  declared by the `Chat` schema (`ChatModel.CounterAndCreatorUndeclared`).
  They are kept with the values the controllers intend.

## Model

| member | source | states |
|---|---|---|
| UserModel.NormalizeEmail | server/src/models/User.ts:28-34 | the cast email is trimmed and lower-case |
| UserModel.NormalizeEmailShape | server/src/models/User.ts:28-34 | the cast email is the given email with only white space dropped at either end and every letter lower-cased |
| UserModel.NewUser | server/src/models/User.ts:27-61 | a created user holds the given email after its casts and the given name trimmed, the given id and password, status offline, no friends, no avatar, `createdAt` now |
| UserModel.SaveUser | server/src/models/User.ts:63-74 | the save succeeds exactly when the validators pass on the password as given (`minlength` in UTF-16 code units); the result is the same document with the password hashed once more exactly when it was modified |
| UserModel.SaveWithoutPassword | server/src/models/User.ts:63-65 | a document loaded with `select('-password')` saves when email and name are present, and its password is neither hashed nor changed |
| UserModel.HashOnSave | server/src/models/User.ts:63-74 | the pre-save hook changes nothing but the password, hashes it when it was modified, and leaves the document alone otherwise |
| UserModel.CompareAcceptsOnlyItsPlaintext | server/src/models/User.ts:76-83 | `comparePassword` (`UserModel.ComparePassword`): a password hashed once is matched by its plaintext and by no other candidate |
| UserModel.StatusSaveKeepsPassword | server/src/models/User.ts:64-65 | a status change saved without modifying the password keeps the stored hash |
| UserModel.DoubleHashMatchesNothing | server/src/models/User.ts:76-83 | a password hashed twice is not matched by its own plaintext under `bcrypt.compare` |
| MessageModel.NewMessage | server/src/models/Message.ts:23-69 | a created message is valid, carries the defaults (`type` text, `readBy` empty, `createdAt` now) and the given fields; creation fails only when chat or sender is missing, content is empty, or a file path that the type requires is missing |
| MessageModel.ContentAlwaysRequired | server/src/models/Message.ts:34-37 | no message without text is ever created, whatever its type |
| MessageModel.FileUrlRequiredForMedia | server/src/models/Message.ts:43-48 | `fileUrl` is required exactly for image, file and video messages |
| MessageModel.ImageNeedsOnlyUrl | server/src/models/Message.ts:43-60 | an image needs only its URL; a file or a video also needs a name and a size |
| MessageModel.TypeDefaultsToText | server/src/models/Message.ts:38-42 | with no type given, the message is text and no file path is required |
| ChatModel.TouchOnSave | server/src/models/Chat.ts:55-59 | a save stamps `updatedAt` with the current time and changes nothing else |
| ChatModel.NewChat | server/src/models/Chat.ts:21-53 | creation succeeds exactly when a group has a non-empty name; the chat has the given fields, both timestamps now, no last message, a count of zero |
| ChatModel.CounterAndCreatorUndeclared | server/src/models/Chat.ts:21-53 | `messageCount` and `createdBy` are not paths of the schema |
| Strings.IndexOf | server/src/middleware/auth.ts:21 | the result is the first index at or after `from` where the pattern occurs, or none when it occurs nowhere there |
| Strings.Trim | server/src/models/User.ts:32 | the result neither starts nor ends with white space and is no longer than the input |
| Strings.TrimDropsOnlySpace | server/src/models/User.ts:32 | the trimmed text stands in the input at some position with only white space before and after it, so trimming drops nothing but the white space at the ends |
| Strings.TrimStart | server/src/models/User.ts:32 | a suffix of the input that drops exactly the leading white space |
| Strings.TrimEnd | server/src/models/User.ts:32 | a prefix of the input that drops exactly the trailing white space |
| Strings.TrimIdempotent | server/src/models/User.ts:32 | trimming twice is trimming once |
| Strings.Utf16Length | server/src/controllers/auth.controller.ts:9-11 | JavaScript's `.length`, which zod's `min` and Mongoose's `minlength` measure, lies between the number of characters and twice it |
| Strings.Utf16LengthAppend | server/src/controllers/auth.controller.ts:9-11 | the length of a concatenation is the sum of the lengths |
| Strings.Utf16LengthOfBmp | server/src/controllers/auth.controller.ts:9-11 | a text has as many code units as characters exactly when none of its characters is above U+FFFF |
| Strings.AstralCountsTwice | server/src/controllers/auth.controller.ts:9-11 | a character above U+FFFF, such as an emoji, has length 2 |
| Strings.ToLower | server/src/models/User.ts:33 | same length, every character lower-cased |
| Strings.ToLowerIdempotent | server/src/models/User.ts:33 | lower-casing twice is lower-casing once |
| Strings.ExtnameShape | server/src/controllers/message.controller.ts:94 | `path.extname` (`Strings.Extname`) is empty or one '.' followed by no '.', holds no '/', and ends the path once trailing slashes are dropped |
| Seqs.FirstIndex | server/src/controllers/chat.controller.ts:49-55 | `findOne`: the index of the first match, none exactly when nothing matches |
| Seqs.Filter | server/src/controllers/chat.controller.ts:92 | `find`: every matching document and nothing else, no more of them than stored |
| Seqs.SortDesc | server/src/controllers/message.controller.ts:57 | the result is sorted by the key, descending, and is a permutation of the input |
| Seqs.SortedOrderUnique | server/src/controllers/message.controller.ts:57 | when no two elements share a key, two sorted permutations of the same elements are equal: the sort order is forced |
| Seqs.Page | server/src/controllers/message.controller.ts:58-59 | `skip(offset).limit(limit)`: the slice at `offset` of at most `limit` elements |
| Seqs.ConsecutivePages | server/src/controllers/message.controller.ts:54-59 | two consecutive pages together are the double-size page at the first offset |
| Seqs.DisjointPages | server/src/controllers/message.controller.ts:54-59 | pages at offsets a page apart share no element of a duplicate-free sequence |
| Database.UserWithIdFindsIff | server/src/controllers/chat.controller.ts:43-46 | `User.findById` finds a user exactly when some stored user has the id |
| Database.ChatOfFindsIff | server/src/controllers/message.controller.ts:44-51 | the participant-filtered chat lookup finds a chat exactly when the caller takes part in a chat with that id |
| Database.UpdateById | server/src/controllers/message.controller.ts:116-119 | `findByIdAndUpdate`: only the first chat with the id is replaced, by the update applied to it |
| Database.UpdateByIdAt | server/src/controllers/message.controller.ts:116-119 | with unique ids, exactly the chat with the id is updated |
| Middleware.StripBearerRemovesFirstOccurrence | server/src/middleware/auth.ts:21 | `header.replace('Bearer ', '')` (`Middleware.StripBearer`) removes the first "Bearer " wherever it stands; a header without it is unchanged |
| Middleware.BearerHeaderRoundTrip | server/src/middleware/auth.ts:21 | "Bearer " followed by a token yields that token |
| Middleware.Authenticate | server/src/middleware/auth.ts:19-39 | every refusal is 401 "Please authenticate."; an admitted user is a stored user |
| Middleware.AuthenticateAdmitsIff | server/src/middleware/auth.ts:21-35 | admitted exactly when a header is given, its token is non-empty and verifies, and the id it carries is a stored user, who is the one admitted |
| Middleware.SocketAuthenticate | server/src/middleware/auth.ts:73-93 | every refusal reports 'Authentication error'; a connected user is a stored user |
| Middleware.SocketAuthAgreesWithAuth | server/src/middleware/auth.ts:75-89 | a handshake token connects exactly when the same string as a header is admitted, and as the same user |
| Middleware.CheckUpload | server/src/middleware/auth.ts:48-70 | every rejection is 400; passing means a `file` entry whose checked file is at most 10 MB and of an allowed type |
| Middleware.SizeMessageMatchesLimit | server/src/middleware/auth.ts:55-58 | the limit is a whole number of megabytes, 10485760 bytes, and the size refusal built from it reads "File size should not exceed 10MB." |
| Middleware.SingleUploadAcceptedIff | server/src/middleware/auth.ts:55-68 | one file passes exactly when it is at most the limit and of an allowed type; one byte over is refused as too large |
| Middleware.OnlyFirstOfArrayChecked | server/src/middleware/auth.ts:53 | for an array under `file` the verdict is the verdict on its first element |
| Middleware.Exchange.Auth | server/src/middleware/auth.ts:19-39 | admitted: `req.user` is set and `next` called once with no response; refused: 401 sent, `next` not called, `req.user` untouched |
| Middleware.Exchange.ValidateFileUpload | server/src/middleware/auth.ts:48-70 | exactly one of: 400 sent, `next` called once, or an exception escaping; `req.user` untouched |
| Middleware.Handshake.SocketAuth | server/src/middleware/auth.ts:73-93 | `next` is called exactly once, with no error exactly when the socket is admitted, and then `socket.user` is set |
| MessageController.PositiveInt | server/src/controllers/message.controller.ts:17-21 | a query number passes zod exactly when it is finite, whole and above zero, and then is that number |
| MessageController.WholeNumberAccepted | server/src/controllers/message.controller.ts:17-21 | every whole number above zero passes unchanged |
| MessageController.ChatMessages | server/src/controllers/message.controller.ts:56-57 | a chat's messages, newest first: sorted by `createdAt` descending, a permutation of the chat's messages |
| MessageController.GetMessages | server/src/controllers/message.controller.ts:29-67 | fails only with 400 or 404; a success means the caller takes part, and the result is at most `limit` messages of that chat, newest first |
| MessageController.MessagePage | server/src/controllers/message.controller.ts:56-59 | at most `limit` messages, all of the chat, newest first |
| MessageController.PagingDefaults | server/src/controllers/message.controller.ts:31-35 | without `page` and `limit` the first page of fifty is read |
| MessageController.RefusedPagingIsInvalid | server/src/controllers/message.controller.ts:31-39 | a refused page or limit is answered 400 before any lookup |
| MessageController.OutsiderCannotRead | server/src/controllers/message.controller.ts:44-51 | a non-participant, or a chat that does not exist, gets 404 |
| MessageController.SkipNext | server/src/controllers/message.controller.ts:54 | the next page starts one page further on |
| MessageController.SkipGrows | server/src/controllers/message.controller.ts:54 | a later page starts at least one page further on |
| MessageController.ReadPage | server/src/controllers/message.controller.ts:54-59 | a participant asking for page p of size l gets the page at offset (p - 1) * l |
| MessageController.PageIsSlice | server/src/controllers/message.controller.ts:54-59 | that page has min(l, what is left) messages, and each is the chat's message at its offset |
| MessageController.NextPageContinues | server/src/controllers/message.controller.ts:54-59 | pages p and p + 1 together are the double-size page at page p's offset, with no gap or overlap |
| MessageController.SortedOrderForced | server/src/controllers/message.controller.ts:56-57 | when no two of a chat's messages share `createdAt`, every order sorted newest first is the chat's message list, so paging does not depend on how the database breaks ties |
| MessageController.ChatMessagesDistinct | server/src/controllers/message.controller.ts:56-57 | with unique message ids, a chat's sorted messages hold none twice |
| MessageController.PagesDisjoint | server/src/controllers/message.controller.ts:54-59 | two different pages of the same size share no message |
| MessageController.ReceiveUpload | server/src/controllers/message.controller.ts:89-100 | no upload exactly when there is no `file` entry; an array under `file` throws |
| MessageController.UploadNamedByUuid | server/src/controllers/message.controller.ts:92-99 | the stored name is the fresh id followed by the file's extension, which is empty or starts with '.' and has no '/' |
| MessageController.SendPayload | server/src/controllers/message.controller.ts:106-111 | strict mode: chat, sender and content, sent under schema paths, reach the schema; the URL reaches it exactly when its key `file` is a path of the schema, which it is not, so no type and no file path is set |
| MessageController.SendMessage | server/src/controllers/message.controller.ts:69-126 | failures are 400, 404 or 500 and change nothing except, on a 500, a moved upload; a success stores one text message under the next id from the caller in a chat the caller takes part in, with the given non-empty content and no file URL, and updates that chat |
| MessageController.Deliver | server/src/controllers/message.controller.ts:102-121 | a failure changes nothing; a success leaves users and uploads alone |
| MessageController.OutsiderCannotSend | server/src/controllers/message.controller.ts:80-87 | a non-participant, or a chat that does not exist, gets 404 and the database is unchanged |
| MessageController.EmptySendRejected | server/src/controllers/message.controller.ts:102-104 | no text and no file: 400 "Message must contain either text or a file", nothing stored |
| MessageController.TextSendAccepted | server/src/controllers/message.controller.ts:69-121 | non-empty text from a participant is always accepted, with no upload or a single file |
| MessageController.FileOnlySendOrphansUpload | server/src/controllers/message.controller.ts:92-111 | a file without text is moved into the upload directory and then creation fails with 500, leaving the upload behind |
| MessageController.SendBookkeeping | server/src/controllers/message.controller.ts:116-121 | the update of a send (`MessageController.Recorded`): the chat's `lastMessage` is the new message and its count is one higher; every other chat is unchanged |
| MessageController.SendPreservesValid | server/src/controllers/message.controller.ts:69-126 | sending keeps the database invariant, counters included |
| MessageController.RemoveAt | server/src/controllers/message.controller.ts:151 | the sequence with one element taken out, the others in order |
| MessageController.DeleteMessage | server/src/controllers/message.controller.ts:128-163 | succeeds exactly when the caller sent a message with that id, otherwise 404 with nothing changed; on success one message fewer, all of them stored before |
| MessageController.DeleteRemovesOnlyIt | server/src/controllers/message.controller.ts:141-151 | with unique ids, the messages left are exactly the others |
| MessageController.DeleteBookkeeping | server/src/controllers/message.controller.ts:153-156 | the update of a delete (`MessageController.Uncounted`) lowers the deleted message's chat count by one and changes no other chat |
| MessageController.DeleteLeavesDanglingLastMessage | server/src/controllers/message.controller.ts:151-156 | a chat whose last message is deleted keeps pointing at it |
| MessageController.DeletePreservesValid | server/src/controllers/message.controller.ts:128-163 | deleting keeps the database invariant, counters included |
| ChatController.GetChats | server/src/controllers/chat.controller.ts:17-31 | exactly the caller's chats, most recently updated first, none more often than it is stored |
| ChatController.GetChatById | server/src/controllers/chat.controller.ts:114-132 | found exactly when the caller takes part in a chat with that id, which is returned; otherwise 404 |
| ChatController.CreatePrivateChat | server/src/controllers/chat.controller.ts:33-75 | fails exactly when the recipient is missing (400) or unknown (404), with nothing changed; an existing chat of the pair is returned unchanged with 200; otherwise one chat [caller, recipient] by the caller is appended with 201 |
| ChatController.RecipientMustExist | server/src/controllers/chat.controller.ts:42-46 | an unknown recipient gets 404 |
| ChatController.PrivateChatIdempotent | server/src/controllers/chat.controller.ts:48-66 | asking twice for the same pair gives the same chat, and the second request creates nothing |
| ChatController.PrivateWithSymmetric | server/src/controllers/chat.controller.ts:49-55 | the pair filter is unordered |
| ChatController.PrivateChatSymmetric | server/src/controllers/chat.controller.ts:48-66 | A asking for B and then B asking for A gives one and the same chat |
| ChatController.PrivateChatGrowsByAtMostOne | server/src/controllers/chat.controller.ts:48-66 | a request keeps every stored chat in place and adds at most one |
| ChatController.ExistingPrivateChatReturned | server/src/controllers/chat.controller.ts:49-59 | the stored private chat of two distinct users is the one returned, with nothing created |
| ChatController.SelfChatMatchesAnyPrivateChat | server/src/controllers/chat.controller.ts:49-55 | asking for a chat with oneself returns the caller's first private chat, even one with another user |
| ChatController.CreatePrivatePreservesValid | server/src/controllers/chat.controller.ts:33-75 | creating a private chat keeps the invariant; no pair gets a second private chat |
| ChatController.WithCaller | server/src/controllers/chat.controller.ts:86-89 | the caller is appended exactly when absent |
| ChatController.EmojiGroupNameAccepted | server/src/controllers/chat.controller.ts:12-15 | a one-emoji group name passes `z.string().min(2)`: with at least two ids the request is not refused with 400 |
| ChatController.CreateGroupChat | server/src/controllers/chat.controller.ts:77-112 | 400 exactly for a missing field, a name under 2 UTF-16 code units or fewer than 2 ids; otherwise 404 or one group under the next id, named, by the caller, with the list plus the caller when absent |
| ChatController.CountListedUsers | server/src/controllers/chat.controller.ts:92-93 | with unique ids, the users selected by `$in` are as many as the distinct listed ids that are user ids |
| ChatController.ParticipantCheckIff | server/src/controllers/chat.controller.ts:91-95 | the check passes exactly when every listed id is a user and none is listed twice |
| ChatController.GroupCreatedIff | server/src/controllers/chat.controller.ts:77-103 | a well-formed request succeeds exactly when the list with the caller names existing users, each once |
| ChatController.DuplicateParticipantRefused | server/src/controllers/chat.controller.ts:91-95 | an id listed twice gets 404, whatever users exist |
| ChatController.GroupIncludesCaller | server/src/controllers/chat.controller.ts:86-103 | every created group lists its creator, the caller |
| ChatController.CreateGroupPreservesValid | server/src/controllers/chat.controller.ts:77-112 | creating a group keeps the invariant |
| AuthController.EmailLookup | server/src/controllers/auth.controller.ts:29 | finds a user whose email is the cast query email, or none when no user has it |
| AuthController.Registration | server/src/controllers/auth.controller.ts:19-61 | 400 for refused input (a missing field, a name under 2 or a password under 6 UTF-16 code units, a refused email) and for a taken email, both changing nothing |
| AuthController.EmojiInputsPassChecks | server/src/controllers/auth.controller.ts:8-12 | a one-emoji name and a three-emoji password are long enough for `registerSchema`, because zod counts UTF-16 code units |
| AuthController.SavedRegistrant | server/src/controllers/auth.controller.ts:35-43 | the save of a user built from checked inputs fails only when the cast name or email is empty, and otherwise stores exactly that user with the hook's hash of the given password |
| AuthController.RegistrationOutcome | server/src/controllers/auth.controller.ts:34-56 | a 500 comes only from an empty cast name or email; a success appends one valid user with the next id, the cast email and name, and the password hashed by the controller and again by the hook (once when not hashed first), and replies with its profile, without password, and a token for it |
| AuthController.SecondRegistrationRefused | server/src/controllers/auth.controller.ts:29-32 | once an email is registered, any email that casts alike is refused with 400 |
| AuthController.RegistrationPreservesValid | server/src/controllers/auth.controller.ts:19-61 | registering keeps the invariant: a fresh id and an email not yet taken |
| AuthController.Login | server/src/controllers/auth.controller.ts:63-105 | unknown email and wrong password give the same 401 with nothing changed; success exactly when the password matches a valid stored user, who alone is set online, the reply carrying its profile with status and its token |
| AuthController.StatusChangeKeepsUsersValid | server/src/controllers/auth.controller.ts:84-86 | a status change keeps the users' invariant |
| AuthController.LoginPreservesValid | server/src/controllers/auth.controller.ts:63-105 | a login keeps the invariant |
| AuthController.Logout | server/src/controllers/auth.controller.ts:107-118 | the caller alone is set offline with 200; an unknown caller gets 500; with valid users, a known caller always succeeds |
| AuthController.LogoutPreservesValid | server/src/controllers/auth.controller.ts:107-118 | a logout keeps the invariant |
| AuthController.LoginThenLogoutRestores | server/src/controllers/auth.controller.ts:84-111 | logging in an offline user and then logging out the subject of the token it received restores the database exactly |
| AuthController.LogoutUndoesOnline | server/src/controllers/auth.controller.ts:107-118 | logging out a user who was set online puts back the database as it was before |
| AuthController.Register | server/src/controllers/auth.controller.ts:19-61 | `register` as written: a new account stores its password hashed twice |
| AuthController.RegisterHashOnce | server/src/controllers/auth.controller.ts:19-61 | `register` with the hashing left to the save hook: a new account stores its password hashed once |
| AuthController.RegisterThenLoginFails | server/src/controllers/auth.controller.ts:34-43 | after `register` as written, logging in with the same email and password is refused with 401 |
| AuthController.RegisterHashOnceThenLoginSucceeds | server/src/controllers/auth.controller.ts:34-43 | with the password hashed once, the new account logs in as itself |
| Routes.PostMessage | server/src/routes/message.routes.ts:22-26 | `auth`, `validateFileUpload`, `sendMessage` in that order; a refused or thrown check leaves the database unchanged |
| Routes.TextOnlyPostRefused | server/src/routes/message.routes.ts:26 | an authenticated post without files is refused with 400 "No file uploaded.", nothing stored |
| Routes.PostAcceptedIff | server/src/routes/message.routes.ts:22-26 | a post stores a message exactly when the caller is authenticated and takes part, one acceptable file, not an array, is uploaded under `file`, and the text is non-empty |
| Routes.PostedMessageLosesItsFile | server/src/controllers/message.controller.ts:92-111 | every message stored through the route came with a file that was moved into the upload directory, yet the message records no file URL and is text |
| Routes.PostLogout | server/src/routes/auth.routes.ts:15-20 | `auth` then `logout` for the user it admitted |
| Routes.AuthenticatedLogoutSucceeds | server/src/routes/auth.routes.ts:15-20 | on a valid database an authenticated logout succeeds and leaves its caller offline |
| Store.ChatStore.Register | server/src/controllers/auth.controller.ts:19-61 | the store becomes what the corrected registration gives, and the invariant is kept |
| Store.ChatStore.Enrol | server/src/controllers/auth.controller.ts:38-43 | the user is appended and the counter advanced; a fresh, valid, cast user under the next id keeps the invariant |
| Store.ChatStore.Login | server/src/controllers/auth.controller.ts:63-105 | the store becomes what `login` gives, and the invariant is kept |
| Store.ChatStore.Logout | server/src/controllers/auth.controller.ts:107-118 | the store becomes what `logout` gives, and the invariant is kept |
| Store.ChatStore.SendMessage | server/src/controllers/message.controller.ts:69-126 | the upload is moved, the message created and the chat updated, in that order; the store becomes what `sendMessage` gives, and the invariant is kept |
| Store.ChatStore.Deliver | server/src/controllers/message.controller.ts:102-121 | the store becomes what the creation step gives |
| Store.ChatStore.DeleteMessage | server/src/controllers/message.controller.ts:128-163 | the store becomes what `deleteMessage` gives, and the invariant is kept |
| Store.ChatStore.CreatePrivateChat | server/src/controllers/chat.controller.ts:33-75 | the store becomes what `createPrivateChat` gives, and the invariant is kept |
| Store.ChatStore.CreateGroupChat | server/src/controllers/chat.controller.ts:77-112 | the caller is pushed onto the list in place when absent; the store becomes what `createGroupChat` gives, and the invariant is kept |

## Left out

- Ids are naturals handed out by the store. A malformed ObjectId string, which Mongoose rejects with a CastError and the controllers answer with 500, is not modelled.
- Strings are sequences of Unicode scalar values, so a JavaScript string holding an unpaired surrogate is not modelled; lengths are counted in UTF-16 code units, as JavaScript counts them (`Strings.Utf16Length`).
- `trim` removes the ASCII white space characters only, and `toLowerCase` lower-cases the ASCII letters only; Unicode spaces and letters are not modelled.
- The query strings' `Number(...)` conversion is taken as already done: `page` and `limit` arrive as a `QueryNumber` (missing, a finite real, or not finite).
- The route parameters `chatId` and `messageId` are always strings, so their zod checks always pass and are not modelled.
- `populate` and the `select` projections are left out, since they only shape the JSON reply. The exception is `select('-password')`, whose effect on the save in `logout` is modelled (`UserModel.SaveWithoutPassword`).
- Database and file-system failures are not modelled: the connection, `file.mv` and the catch-all 500 of each handler for them. Validation failures are modelled, as are the exceptions thrown on an array upload.
- The bcrypt salt is not modelled: hashing is a deterministic, injective constructor. The cost factor and the 60-character output appear only as a length.
- Sort ties are stable: documents with equal `createdAt` or `updatedAt` keep their natural order. MongoDB promises no order among equal keys, nor the same one across queries with different `skip`.
- MessageController.NextPageContinues and MessageController.PagesDisjoint hold under the model's stable ties. With the database's tie order they hold when the chat's timestamps are distinct (`MessageController.SortedOrderForced`); a page boundary that splits equal `createdAt` values can repeat or skip a message.
- ChatController.GetChats: the order among chats with equal `updatedAt` is the model's, not one the database promises.
- MessageController.GetMessages: a skip `(page - 1) * limit` beyond MongoDB's 64-bit range is refused by the database and the handler answers 500; the model answers 200 with an empty page.
- UserModel.ComparePassword: a hash is a value distinct from every candidate string, while bcrypt's hash is a 60-character string that could itself be passed as a candidate (`bcrypt.compare(h, bcrypt(h))` holds). bcrypt also reads only the first 72 bytes of a password; neither is modelled.
- Concurrency is not modelled: two simultaneous requests, a check-then-insert race in `createPrivateChat` or `register`, and the duplicate-key error of the unique email index.
- Socket.IO connection, typing and broadcast handlers, the Mongo connection retry loop and server start-up (`server/src/app.ts`, `server/src/index.ts`) are network and timer code and are not part of this model.
- express-fileupload is mounted with `abortOnLimit` and the same 10 MB limit, so through the application an oversized file is answered 413 before `validateFileUpload` runs. The 413 is not modelled; `Middleware.CheckUpload` models the validator's own size check.
- The contents and location of uploaded files are not modelled: the upload directory is the list of names moved into it.
- zod's email regex, `jwt.verify` and `uuidv4` are parameters (`emailOk`, `verify`, `uuid`), and the clock is the parameter `now`.
- Store.ChatStore.Register: the store performs the corrected registration (`AuthController.RegisterHashOnce`), not the double-hashing one, as the finding below explains.

## Findings

| source | as written | input that shows it | evidently intended | confidence | as-written member | corrected member |
|---|---|---|---|---|---|---|
| server/src/controllers/auth.controller.ts:34-43 | `register` hashes the password and passes the hash to `User.create`; the `User` pre-save hook sees a modified password and hashes it again, so the stored value is a hash of the hash | any valid registration (name "Al", a well-formed email, password "secret"), followed by a login with the same email and "secret": `bcrypt.compare` fails and the login is refused with 401 | the password is hashed once, by the save hook, so the new account can log in | not executed | AuthController.RegisterThenLoginFails | AuthController.RegisterHashOnceThenLoginSucceeds |
