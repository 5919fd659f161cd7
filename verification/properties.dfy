/**
 Properties that relate several handler calls, or a handler call to an
 independent statement of what it should do.
 */
module Properties {
  import opened Prelude
  import opened Hex
  import opened ClaimStore
  import opened Token
  import opened DocTree
  import opened App
  import opened Service

  /**
   After a successful claim, a presented token passes the check exactly when
   it is non-empty and hashes, with the claim's salt, like the issued token;
   in particular the issued token itself passes, because the salt survives
   its trip through hex text.
   */
  lemma ClaimThenAuthorize(s: State, calculateToken: Hasher, project: string, tokenBytes: TokenBytes, salt: Salt,
                           apiKey: Option<string>)
    requires !IsClaimed(s.claims, project)
    ensures var r := Claim(s, calculateToken, project, tokenBytes, salt);
            && r.response.status == Created
            && r.response.token.Some? && r.response.token.value != ""
            && CheckTokenForProject(r.state.claims, calculateToken, r.response.token, project) == Authorized
            && (CheckTokenForProject(r.state.claims, calculateToken, apiKey, project).Authorized?
                <==> Present(apiKey) && calculateToken(apiKey.value, salt) == calculateToken(r.response.token.value, salt))
  {
    var r := Claim(s, calculateToken, project, tokenBytes, salt);
    SearchAppend(s.claims, r.state.claims[|s.claims|], project);
    assert Search(r.state.claims, project) == [r.state.claims[|s.claims|]];
    FromHexToHex(salt);
  }

  /**
   For a claimed project in a valid state, the check accepts exactly the
   non-empty tokens that verify against the project's one record; a missing
   or empty token and a mismatching token are refused with their own
   messages.
   */
  lemma AuthorizedIffVerify(s: State, calculateToken: Hasher, apiKey: Option<string>, i: nat)
    requires Valid(s)
    requires i < |s.claims|
    ensures var rec := s.claims[i];
            var r := CheckTokenForProject(s.claims, calculateToken, apiKey, rec.name);
            && (r.Authorized? <==> Present(apiKey) && Verify(calculateToken, apiKey.value, rec.token, FromHex(rec.salt).value))
            && (!Present(apiKey) ==> r == Denied(Response(Unauthorized, MissingTokenMessage(rec.name), None)))
            && (Present(apiKey) && !r.Authorized? ==> r == Denied(Response(Unauthorized, InvalidTokenMessage(rec.name), None)))
  {
    SearchUnique(s.claims, i);
    assert SaltWellFormed(s.claims[i]);
  }

  /**
   Nobody holds a token for an unclaimed project, so none of its existing
   versions can be overwritten or deleted, and the refusal changes nothing.
   */
  lemma UnclaimedProjectIsLocked(s: State, calculateToken: Hasher, project: string, version: string,
                                 file: FilePart, apiKey: Option<string>)
    requires !IsClaimed(s.claims, project)
    requires file.filename != ""
    ensures var d := Delete(s, calculateToken, project, version, apiKey);
            d == Reply(Response(Unauthorized, MissingTokenMessage(project), None), s)
    ensures Exists(s.tree, project, version) ==>
              Upload(s, calculateToken, project, version, Some(file), apiKey)
              == Reply(Response(Unauthorized, MissingTokenMessage(project), None), s)
  {
  }

  /**
   Only overwriting needs a token: a version that does not exist yet is
   created whatever key is sent, claimed project or not, and the claims
   table is left alone.
   */
  lemma NewVersionNeedsNoToken(s: State, calculateToken: Hasher, project: string, version: string,
                               file: FilePart, key1: Option<string>, key2: Option<string>)
    requires file.filename != ""
    requires !Exists(s.tree, project, version)
    ensures var r := Upload(s, calculateToken, project, version, Some(file), key1);
            && r == Upload(s, calculateToken, project, version, Some(file), key2)
            && r.response.status == Created
            && r.state == State(s.claims, s.tree[Key(project, version) := Version(file)])
  {
  }

  /**
   An authorized overwrite ends exactly as an upload of the same file into a
   tree where the version had been removed first: the old contents leave no
   trace.
   */
  lemma OverwriteIsRemoveThenCreate(s: State, calculateToken: Hasher, project: string, version: string,
                                    file: FilePart, apiKey: Option<string>)
    requires file.filename != ""
    requires Exists(s.tree, project, version)
    requires CheckTokenForProject(s.claims, calculateToken, apiKey, project).Authorized?
    ensures var cleared := State(s.claims, s.tree - {Key(project, version)});
            Upload(s, calculateToken, project, version, Some(file), apiKey)
            == Upload(cleared, calculateToken, project, version, Some(file), None)
  {
    var k := Key(project, version);
    assert (s.tree - {k})[k := Version(file)] == s.tree[k := Version(file)];
  }

  /** After an authorized delete the version is gone, and deleting it again reports it as not found. */
  lemma DeleteTwice(s: State, calculateToken: Hasher, project: string, version: string, apiKey: Option<string>)
    requires Exists(s.tree, project, version)
    requires CheckTokenForProject(s.claims, calculateToken, apiKey, project).Authorized?
    ensures var r1 := Delete(s, calculateToken, project, version, apiKey);
            var r2 := Delete(r1.state, calculateToken, project, version, apiKey);
            && r1.response.status == Ok
            && r1.response.message == "Successfully deleted version '" + version + "'"
            && r2.response == Response(NotFound, NotFoundMessage(project, version), None)
            && r2.state == r1.state
  {
  }

  /** Tagging never reads the claims table: two states with the same tree answer alike. */
  lemma TagIgnoresClaims(claims1: seq<Record>, claims2: seq<Record>, tree: Tree,
                         project: string, version: string, newTag: string)
    ensures var r1 := Tag(State(claims1, tree), project, version, newTag);
            var r2 := Tag(State(claims2, tree), project, version, newTag);
            r1.response == r2.response && r1.state.tree == r2.state.tree
  {
  }

  /**
   A second tag of the same name, whatever its target, is refused and the
   first link keeps pointing where it did; the first link names its target
   even when no such version exists.
   */
  lemma TagTwice(s: State, project: string, version1: string, version2: string, newTag: string)
    requires !Exists(s.tree, project, newTag)
    ensures var r1 := Tag(s, project, version1, newTag);
            var r2 := Tag(r1.state, project, version2, newTag);
            && r1.response.status == Created
            && r1.state.tree[Key(project, newTag)] == Link(version1)
            && r2.response.status == Conflict
            && r2.state == r1.state
  {
  }

  /**
   Only a request carrying the project's token can change or remove an entry
   that already exists: tags and claims never do, and uploads and deletes do
   so only for their own target after the token check passed.
   */
  lemma ExistingEntriesNeedToken(s: State, calculateToken: Hasher, req: Request, k: Key)
    requires k in s.tree
    ensures var s' := Handle(s, calculateToken, req).state;
            (k !in s'.tree || s'.tree[k] != s.tree[k]) ==>
              && (req.UploadRequest? || req.DeleteRequest?)
              && k == Key(req.project, req.version)
              && CheckTokenForProject(s.claims, calculateToken, req.apiKey, req.project).Authorized?
  {
  }

  /**
   A session on a fresh installation: a first upload needs no token, a
   re-upload without a token is refused until the project is claimed, the
   issued token then allows the overwrite, a tag can be created once, and a
   delete removes the version and a second delete finds nothing.
   */
  lemma DemoSession(calculateToken: Hasher, tokenBytes: TokenBytes, salt: Salt, a1: FilePart, a2: FilePart)
    requires a1.filename != "" && a2.filename != ""
    ensures var u1 := Upload(Init, calculateToken, "demo", "1.0", Some(a1), None);
            var u2 := Upload(u1.state, calculateToken, "demo", "1.0", Some(a2), None);
            var c := Claim(u2.state, calculateToken, "demo", tokenBytes, salt);
            var u3 := Upload(c.state, calculateToken, "demo", "1.0", Some(a2), c.response.token);
            var t1 := Tag(u3.state, "demo", "1.0", "latest");
            var t2 := Tag(t1.state, "demo", "2.0", "latest");
            var d1 := Delete(t2.state, calculateToken, "demo", "1.0", c.response.token);
            var d2 := Delete(d1.state, calculateToken, "demo", "1.0", c.response.token);
            && u1.response.status == Created
            && u1.state.tree[Key("demo", "1.0")] == Version(a1)
            && u2.response == Response(Unauthorized, MissingTokenMessage("demo"), None)
            && u2.state == u1.state
            && c.response.status == Created && c.response.token.Some?
            && u3.response.status == Created
            && u3.state.tree[Key("demo", "1.0")] == Version(a2)
            && t1.response.status == Created
            && t2.response.status == Conflict
            && t2.state.tree[Key("demo", "latest")] == Link("1.0")
            && d1.response.status == Ok
            && !Exists(d1.state.tree, "demo", "1.0")
            && Exists(d1.state.tree, "demo", "latest")
            && d2.response.status == NotFound
  {
    var u1 := Upload(Init, calculateToken, "demo", "1.0", Some(a1), None);
    var u2 := Upload(u1.state, calculateToken, "demo", "1.0", Some(a2), None);
    assert !IsClaimed(u2.state.claims, "demo");
    ClaimThenAuthorize(u2.state, calculateToken, "demo", tokenBytes, salt, None);
  }
}
