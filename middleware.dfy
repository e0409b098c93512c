/**
 * The request middleware: bearer-token authentication for HTTP requests
 * (`auth`) and for socket handshakes (`socketAuth`), and the upload check
 * (`validateFileUpload`). Token verification (`jwt.verify`) is a parameter
 * `verify` that yields the user id a token carries, or None when the token
 * is malformed, badly signed or expired.
 */
module Middleware {
  import opened Base
  import opened Strings
  import opened Seqs
  import opened Config
  import opened Http
  import opened UserModel

  const BearerPrefix := "Bearer "
  const AuthFailure := "Please authenticate."
  const SocketFailure := "Authentication error"
  const NoFile := "No file uploaded."
  /** The size refusal, with the limit printed in megabytes (`maxFileSize / (1024 * 1024)`). */
  const TooLarge := "File size should not exceed " + DecimalText(MaxFileSize / (1024 * 1024)) + "MB."
  const BadType := "Invalid file type."

  /** `header.replace('Bearer ', '')`. */
  function StripBearer(header: string): string {
    ReplaceFirst(header, BearerPrefix, "")
  }

  /**
   * The token is the header with its first "Bearer " removed, wherever it
   * stands; a header without "Bearer " is the token as it is.
   */
  lemma StripBearerRemovesFirstOccurrence(header: string)
    ensures (forall j :: !MatchesAt(header, BearerPrefix, j)) ==> StripBearer(header) == header
    ensures forall i: nat {:trigger MatchesAt(header, BearerPrefix, i)} ::
      MatchesAt(header, BearerPrefix, i) && (forall j :: 0 <= j < i ==> !MatchesAt(header, BearerPrefix, j))
      ==> StripBearer(header) == header[..i] + header[i + |BearerPrefix|..]
  {
    var first := IndexOf(header, BearerPrefix, 0);
    forall i: nat | MatchesAt(header, BearerPrefix, i) && (forall j :: 0 <= j < i ==> !MatchesAt(header, BearerPrefix, j))
      ensures first == Some(i)
    {
      assert first.Some?;
    }
  }

  /** The header the client is meant to send yields exactly the token it carries. */
  lemma BearerHeaderRoundTrip(token: string)
    ensures StripBearer(BearerPrefix + token) == token
  {
    var h := BearerPrefix + token;
    assert MatchesAt(h, BearerPrefix, 0);
    assert h[|BearerPrefix|..] == token;
  }

  datatype AuthOutcome = Admit(user: User) | Deny(status: int, error: string)

  /**
   * The decision `auth` takes: a missing header, an empty token, a token
   * that does not verify and an id that names no user are all refused
   * with 401; otherwise the request carries the user found.
   */
  function Authenticate(header: Option<string>, verify: string -> Option<Id>, users: seq<User>): (r: AuthOutcome)
    ensures r.Deny? ==> r.status == 401 && r.error == AuthFailure
    ensures r.Admit? ==> r.user in users
  {
    if header.None? then Deny(401, AuthFailure)
    else
      var token := StripBearer(header.value);
      if token == "" then Deny(401, AuthFailure)
      else match verify(token)
        case None => Deny(401, AuthFailure)
        case Some(id) =>
          match FirstIndex(users, UserWithId(id))
          case None => Deny(401, AuthFailure)
          case Some(i) => Admit(users[i])
  }

  /** A request is admitted exactly when its header carries a verified token naming an existing user. */
  lemma AuthenticateAdmitsIff(header: Option<string>, verify: string -> Option<Id>, users: seq<User>)
    ensures Authenticate(header, verify, users).Admit? <==>
      && header.Some? && StripBearer(header.value) != ""
      && verify(StripBearer(header.value)).Some?
      && exists u :: u in users && u.id == verify(StripBearer(header.value)).value
    ensures Authenticate(header, verify, users).Admit? ==>
      Authenticate(header, verify, users).user.id == verify(StripBearer(header.value)).value
  {
    if header.Some? && StripBearer(header.value) != "" && verify(StripBearer(header.value)).Some? {
      var id := verify(StripBearer(header.value)).value;
      var found := FirstIndex(users, UserWithId(id));
      if found.None? {
        forall u | u in users
          ensures u.id != id
        {
          var k :| 0 <= k < |users| && users[k] == u;
          assert !UserWithId(id)(users[k]);
        }
      } else {
        assert UserWithId(id)(users[found.value]);
      }
    }
  }

  datatype SocketOutcome = Connect(user: User) | Refuse(error: string)

  /**
   * The decision `socketAuth` takes on `socket.handshake.auth.token`; a
   * token of another type than string makes `replace` throw, which the
   * same handler catches. Every failure reports 'Authentication error'.
   */
  function SocketAuthenticate(token: Field<string>, verify: string -> Option<Id>, users: seq<User>)
    : (r: SocketOutcome)
    ensures r.Refuse? ==> r.error == SocketFailure
    ensures r.Connect? ==> r.user in users
  {
    match token
    case Absent => Refuse(SocketFailure)
    case Mistyped => Refuse(SocketFailure)
    case Given(raw) =>
      var stripped := StripBearer(raw);
      if stripped == "" then Refuse(SocketFailure)
      else match verify(stripped)
        case None => Refuse(SocketFailure)
        case Some(id) =>
          match FirstIndex(users, UserWithId(id))
          case None => Refuse(SocketFailure)
          case Some(i) => Connect(users[i])
  }

  /** A handshake token is accepted exactly when the same string as an HTTP header is, and names the same user. */
  lemma SocketAuthAgreesWithAuth(token: string, verify: string -> Option<Id>, users: seq<User>)
    ensures SocketAuthenticate(Given(token), verify, users).Connect?
        <==> Authenticate(Some(token), verify, users).Admit?
    ensures SocketAuthenticate(Given(token), verify, users).Connect? ==>
      SocketAuthenticate(Given(token), verify, users).user == Authenticate(Some(token), verify, users).user
  {
  }

  datatype UploadVerdict = Next | Reject(status: int, error: string) | Throws

  /** The file `validateFileUpload` inspects: the field itself, or the first of an array. */
  function FirstFile(field: FileField): Option<UploadedFile> {
    match field
    case Single(f) => Some(f)
    case Many(fs) => if fs == [] then None else Some(fs[0])
  }

  /**
   * `validateFileUpload`: 400 without files, 400 for a file over
   * `MaxFileSize` or of a type outside `AllowedMimeTypes`, otherwise next.
   * Reading the size of a `file` entry that is missing throws (Throws),
   * which Express turns into a 500.
   */
  function CheckUpload(files: Option<map<string, FileField>>): (r: UploadVerdict)
    ensures r.Reject? ==> r.status == 400
    ensures r.Next? ==> files.Some? && "file" in files.value && FirstFile(files.value["file"]).Some?
    ensures r.Next? ==>
      var f := FirstFile(files.value["file"]).value;
      f.size <= MaxFileSize && f.mimetype in AllowedMimeTypes
  {
    if files.None? || |files.value| == 0 then Reject(400, NoFile)
    else if "file" !in files.value then Throws
    else match FirstFile(files.value["file"])
      case None => Throws
      case Some(f) =>
        if f.size > MaxFileSize then Reject(400, TooLarge)
        else if f.mimetype !in AllowedMimeTypes then Reject(400, BadType)
        else Next
  }

  /**
   * The limit is a whole number of megabytes, so the JavaScript division
   * prints no fraction, and the size refusal reads "10MB".
   */
  lemma SizeMessageMatchesLimit()
    ensures MaxFileSize % (1024 * 1024) == 0 && MaxFileSize == 10485760
    ensures TooLarge == "File size should not exceed 10MB."
  {
    assert DecimalText(1) == "1";
    assert DecimalText(10) == DecimalText(1) + "0";
  }

  /** A single file passes exactly when it is at most 10 MB and of an allowed type; at the limit it passes. */
  lemma SingleUploadAcceptedIff(f: UploadedFile)
    ensures CheckUpload(Some(map["file" := Single(f)])).Next? <==>
      f.size <= MaxFileSize && f.mimetype in AllowedMimeTypes
    ensures f.size == MaxFileSize + 1 ==> CheckUpload(Some(map["file" := Single(f)])) == Reject(400, TooLarge)
  {
  }

  /** Of several files under `file`, only the first is checked. */
  lemma OnlyFirstOfArrayChecked(files: map<string, FileField>, f: UploadedFile, rest: seq<UploadedFile>)
    ensures CheckUpload(Some(files["file" := Many([f] + rest)]))
         == CheckUpload(Some(files["file" := Single(f)]))
  {
  }

  /** A response written with `res.status(status).json({ error })`. */
  datatype Sent = Sent(status: int, error: string)

  /** One request passing through middleware: `req.user`, the response sent, and the calls of `next()`. */
  class Exchange {
    var user: Option<User>
    var sent: Option<Sent>
    var nextCalls: nat

    constructor ()
      ensures user == None && sent == None && nextCalls == 0
    {
      user := None;
      sent := None;
      nextCalls := 0;
    }

    /** `auth`: on success `req.user` is set, then `next()` is called once; otherwise 401 and no `next()`. */
    method Auth(header: Option<string>, verify: string -> Option<Id>, users: seq<User>)
      modifies this
      ensures Authenticate(header, verify, users).Admit? ==>
        && user == Some(Authenticate(header, verify, users).user)
        && nextCalls == old(nextCalls) + 1 && sent == old(sent)
      ensures Authenticate(header, verify, users).Deny? ==>
        && sent == Some(Sent(401, AuthFailure))
        && nextCalls == old(nextCalls) && user == old(user)
    {
      if header.None? {
        sent := Some(Sent(401, AuthFailure));
        return;
      }
      var token := StripBearer(header.value);
      if token == "" {
        sent := Some(Sent(401, AuthFailure));
        return;
      }
      var decoded := verify(token);
      if decoded.None? {
        sent := Some(Sent(401, AuthFailure));
        return;
      }
      var found := FirstIndex(users, UserWithId(decoded.value));
      if found.None? {
        sent := Some(Sent(401, AuthFailure));
        return;
      }
      user := Some(users[found.value]);
      nextCalls := nextCalls + 1;
    }

    /**
     * `validateFileUpload`: either a 400 is sent, or `next()` is called
     * exactly once, or (thrown) an exception escapes to Express.
     */
    method ValidateFileUpload(files: Option<map<string, FileField>>) returns (thrown: bool)
      modifies this
      ensures thrown <==> CheckUpload(files).Throws?
      ensures CheckUpload(files).Next? ==> nextCalls == old(nextCalls) + 1 && sent == old(sent)
      ensures CheckUpload(files).Reject? ==>
        sent == Some(Sent(400, CheckUpload(files).error)) && nextCalls == old(nextCalls)
      ensures CheckUpload(files).Throws? ==> sent == old(sent) && nextCalls == old(nextCalls)
      ensures user == old(user)
    {
      thrown := false;
      if files.None? || |files.value| == 0 {
        sent := Some(Sent(400, NoFile));
        return;
      }
      if "file" !in files.value {
        thrown := true;
        return;
      }
      var file := FirstFile(files.value["file"]);
      if file.None? {
        thrown := true;
        return;
      }
      if file.value.size > MaxFileSize {
        sent := Some(Sent(400, TooLarge));
        return;
      }
      if file.value.mimetype !in AllowedMimeTypes {
        sent := Some(Sent(400, BadType));
        return;
      }
      nextCalls := nextCalls + 1;
    }
  }

  /** A socket during its handshake: `socket.user` and the arguments `next` was called with. */
  class Handshake {
    var user: Option<User>
    var nextArgs: seq<Option<string>>

    constructor ()
      ensures user == None && nextArgs == []
    {
      user := None;
      nextArgs := [];
    }

    /** `socketAuth`: `next` is called exactly once, without an error exactly when the socket is admitted. */
    method SocketAuth(token: Field<string>, verify: string -> Option<Id>, users: seq<User>)
      modifies this
      ensures SocketAuthenticate(token, verify, users).Connect? ==>
        user == Some(SocketAuthenticate(token, verify, users).user) && nextArgs == old(nextArgs) + [None]
      ensures SocketAuthenticate(token, verify, users).Refuse? ==>
        user == old(user) && nextArgs == old(nextArgs) + [Some(SocketFailure)]
    {
      if !token.Given? {
        nextArgs := nextArgs + [Some(SocketFailure)];
        return;
      }
      var stripped := StripBearer(token.value);
      if stripped == "" {
        nextArgs := nextArgs + [Some(SocketFailure)];
        return;
      }
      var decoded := verify(stripped);
      if decoded.None? {
        nextArgs := nextArgs + [Some(SocketFailure)];
        return;
      }
      var found := FirstIndex(users, UserWithId(decoded.value));
      if found.None? {
        nextArgs := nextArgs + [Some(SocketFailure)];
        return;
      }
      user := Some(users[found.value]);
      nextArgs := nextArgs + [None];
    }
  }
}
