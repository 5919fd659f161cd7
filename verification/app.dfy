/**
 The request handlers of the documentation host: claiming a project, the
 token check shared by the mutating handlers, uploading a version, deleting
 a version and tagging a version. Each handler is a transition from the
 service state (claims table and document tree) to a response and a new
 state.
 */
module App {
  import opened Prelude
  import opened Hex
  import opened ClaimStore
  import opened Token
  import opened DocTree

  /**
   The HTTP statuses the handlers answer with: 200, 201, 400, 401, 404, 409,
   and 500 for an uncaught exception.
   */
  datatype Status = Ok | Created | BadRequest | Unauthorized | NotFound | Conflict | InternalServerError

  /** A response body: its message and, for a successful claim only, the issued token. */
  datatype Response = Response(status: Status, message: string, token: Option<string>)

  /** The service state: the claims table and the document tree. */
  datatype State = State(claims: seq<Record>, tree: Tree)

  /** A fresh installation: no claims, no documents. */
  const Init: State := State([], map[])

  /** A handler's answer together with the state it leaves behind. */
  datatype Reply = Reply(response: Response, state: State)

  /**
   The three outcomes of the token check, plus the uncaught error the check
   raises when a stored salt is not hexadecimal text (the framework answers
   that with a server error).
   */
  datatype AuthResult = Authorized | Denied(response: Response) | Fault

  /** The framework's answer to an uncaught exception. */
  const ServerError: Response := Response(InternalServerError, "Internal Server Error", None)

  function MissingTokenMessage(project: string): (m: string) {
    "Please provide a header with a valid Docat-Api-Key token for " + project
  }

  function InvalidTokenMessage(project: string): (m: string) {
    "Docat-Api-Key token is not valid for " + project
  }

  /**
   The `Docat-Api-Key` header counts only when it is truthy: Python's falsy
   values for an optional header are exactly `None` and the empty string.
   */
  predicate Present(apiKey: Option<string>): (b: bool)
    ensures b <==> apiKey !in {None, Some("")}
  {
    apiKey.Some? && apiKey.value != ""
  }

  /**
   The authorization decision for a mutating request on `project`: the first
   claim record of the project is looked up, its salt is read back from hex,
   and the presented token is accepted when it hashes to the stored hash.
   */
  function CheckTokenForProject(claims: seq<Record>, calculateToken: Hasher, apiKey: Option<string>, project: string)
    : (r: AuthResult)
    ensures r.Denied? ==> r.response.status == Unauthorized && r.response.token == None
    ensures !IsClaimed(claims, project) || !Present(apiKey) ==>
              r == Denied(Response(Unauthorized, MissingTokenMessage(project), None))
    ensures r.Authorized? ==>
              && IsClaimed(claims, project) && Present(apiKey)
              && var rec := Search(claims, project)[0];
                 FromHex(rec.salt).Some? && Verify(calculateToken, apiKey.value, rec.token, FromHex(rec.salt).value)
    ensures r.Fault? <==>
              IsClaimed(claims, project) && Present(apiKey) && FromHex(Search(claims, project)[0].salt).None?
  {
    var result := Search(claims, project);
    if |result| > 0 && Present(apiKey) then
      match FromHex(result[0].salt)
      case None => Fault
      case Some(salt) =>
        if result[0].token == calculateToken(apiKey.value, salt) then Authorized
        else Denied(Response(Unauthorized, InvalidTokenMessage(project), None))
    else
      Denied(Response(Unauthorized, MissingTokenMessage(project), None))
  }

  /** `prefix` is an initial segment of `table`: records are only ever appended. */
  predicate IsPrefix(prefix: seq<Record>, table: seq<Record>) {
    |prefix| <= |table| && table[..|prefix|] == prefix
  }

  /**
   Claiming `project`. `tokenBytes` and `salt` stand for the 16 and 32 random
   bytes the service draws; the plain token is the hex text of `tokenBytes`,
   returned once and never stored.
   */
  function Claim(s: State, calculateToken: Hasher, project: string, tokenBytes: TokenBytes, salt: Salt)
    : (r: Reply)
    ensures r.state.tree == s.tree
    ensures IsPrefix(s.claims, r.state.claims)
    ensures r.response.status == Conflict <==> IsClaimed(s.claims, project)
    ensures r.response.status == Conflict ==>
              r.state == s && r.response.token == None
              && r.response.message == "Project " + project + " is already claimed!"
    ensures r.response.status != Conflict ==>
              && r.response.status == Created
              && r.response.token == Some(ToHex(tokenBytes)) && |r.response.token.value| == 32
              && r.state.claims
                 == s.claims + [Record(project, calculateToken(r.response.token.value, salt), ToHex(salt))]
    ensures UniqueNames(s.claims) ==> UniqueNames(r.state.claims)
  {
    var result := Search(s.claims, project);
    if |result| > 0 then
      Reply(Response(Conflict, "Project " + project + " is already claimed!", None), s)
    else
      var token := ToHex(tokenBytes);
      var tokenHash := calculateToken(token, salt);
      var claims' := s.claims + [Record(project, tokenHash, ToHex(salt))];
      assert claims'[..|s.claims|] == s.claims;
      Reply(Response(Created, "Project " + project + " successfully claimed", Some(token)),
            State(claims', s.tree))
  }

  /**
   Uploading a version. A request without a file part, or with an empty file
   name, is refused. An existing version is replaced only after the token
   check passes: it is removed first and then recreated from the upload. A
   version that does not exist yet is created without any token.
   */
  function Upload(s: State, calculateToken: Hasher, project: string, version: string,
                  file: Option<FilePart>, apiKey: Option<string>): (r: Reply)
    ensures r.state.claims == s.claims
    ensures file.None? ==> r == Reply(Response(BadRequest, "No file part in the request", None), s)
    ensures file.Some? && file.value.filename == "" ==>
              r == Reply(Response(BadRequest, "No file selected for uploading", None), s)
    ensures r.response.status == Created <==>
              && file.Some? && file.value.filename != ""
              && (Exists(s.tree, project, version) ==> CheckTokenForProject(s.claims, calculateToken, apiKey, project).Authorized?)
    ensures r.response.status == Created ==>
              && Exists(r.state.tree, project, version)
              && r.state.tree[Key(project, version)] == Version(file.value)
              && OthersUnchanged(s.tree, r.state.tree, Key(project, version))
    ensures r.response.status != Created ==> r.state == s
    ensures file.Some? && file.value.filename != "" && Exists(s.tree, project, version) ==>
              var auth := CheckTokenForProject(s.claims, calculateToken, apiKey, project);
              && (auth.Denied? ==> r.response == auth.response)
              && (auth.Fault? ==> r.response == ServerError)
  {
    if file.None? then
      Reply(Response(BadRequest, "No file part in the request", None), s)
    else if file.value.filename == "" then
      Reply(Response(BadRequest, "No file selected for uploading", None), s)
    else if Exists(s.tree, project, version) then
      (match CheckTokenForProject(s.claims, calculateToken, apiKey, project)
       case Authorized => Store(s, RemoveDocs(s.tree, project, version).tree, project, version, file.value)
       case Denied(resp) => Reply(resp, s)
       case Fault => Reply(ServerError, s))
    else
      Store(s, s.tree, project, version, file.value)
  }

  /** The common tail of an accepted upload: the version directory is (re)created from the file. */
  function Store(s: State, cleared: Tree, project: string, version: string, file: FilePart): (r: Reply) {
    Reply(Response(Created, "File successfully uploaded", None),
          State(s.claims, CreateVersion(cleared, project, version, file)))
  }

  /**
   Deleting a version: the token check comes first, whether or not the
   version exists; then an absent version is reported as not found and a
   present one is removed.
   */
  function Delete(s: State, calculateToken: Hasher, project: string, version: string, apiKey: Option<string>)
    : (r: Reply)
    ensures r.state.claims == s.claims
    ensures !CheckTokenForProject(s.claims, calculateToken, apiKey, project).Authorized? ==> r.state == s
    ensures var auth := CheckTokenForProject(s.claims, calculateToken, apiKey, project);
            && (auth.Denied? ==> r.response == auth.response)
            && (auth.Fault? ==> r.response == ServerError)
    ensures CheckTokenForProject(s.claims, calculateToken, apiKey, project).Authorized? ==>
              && !Exists(r.state.tree, project, version)
              && OthersUnchanged(s.tree, r.state.tree, Key(project, version))
              && (r.response.status == NotFound <==> !Exists(s.tree, project, version))
              && (r.response.status == Ok <==> Exists(s.tree, project, version))
    ensures r.response.status == NotFound ==> r.response.message == NotFoundMessage(project, version)
  {
    match CheckTokenForProject(s.claims, calculateToken, apiKey, project)
    case Authorized =>
      var removal := RemoveDocs(s.tree, project, version);
      if removal.message.Some? then
        Reply(Response(NotFound, removal.message.value, None), State(s.claims, removal.tree))
      else
        Reply(Response(Ok, "Successfully deleted version '" + version + "'", None), State(s.claims, removal.tree))
    case Denied(resp) => Reply(resp, s)
    case Fault => Reply(ServerError, s)
  }

  /**
   Tagging: adds `newTag` as a link to the bare name `version` in the
   project's name space. No token is asked for and the target need not
   exist; a name already taken is reported and left as it was.
   */
  function Tag(s: State, project: string, version: string, newTag: string): (r: Reply)
    ensures r.state.claims == s.claims
    ensures r.response.status == Created <==> !Exists(s.tree, project, newTag)
    ensures r.response.status != Created ==>
              r.response.status == Conflict && r.state == s
              && r.response.message == "Tag " + newTag + " would overwrite an existing version!"
    ensures r.response.status == Created ==>
              r.state.tree == s.tree[Key(project, newTag) := Link(version)]
  {
    var linking := CreateSymlink(s.tree, project, version, newTag);
    if linking.created then
      Reply(Response(Created, "Tag " + newTag + " -> " + version + " successfully created", None),
            State(s.claims, linking.tree))
    else
      Reply(Response(Conflict, "Tag " + newTag + " would overwrite an existing version!", None), s)
  }
}
