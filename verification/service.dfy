/**
 The service as a whole: requests routed to their handlers one at a time,
 and the invariant every state reached from a fresh installation keeps.
 */
module Service {
  import opened Prelude
  import opened Hex
  import opened ClaimStore
  import opened Token
  import opened DocTree
  import opened App

  /**
   The four routes. A claim request carries the random bytes the service
   would draw while handling it.
   */
  datatype Request =
    | ClaimRequest(project: string, tokenBytes: TokenBytes, salt: Salt)
    | UploadRequest(project: string, version: string, file: Option<FilePart>, apiKey: Option<string>)
    | DeleteRequest(project: string, version: string, apiKey: Option<string>)
    | TagRequest(project: string, version: string, newTag: string)

  /**
   The route table: each request goes to the handler of its route. Only a claim touches
   the claims table, a claim never touches the tree, and a tag request is
   answered 201 or 409.
   */
  function Handle(s: State, calculateToken: Hasher, req: Request): (r: Reply)
    ensures !req.ClaimRequest? ==> r.state.claims == s.claims
    ensures req.ClaimRequest? ==> r.state.tree == s.tree && r.response.status in {Created, Conflict}
    ensures req.TagRequest? ==> r.response.status in {Created, Conflict}
    ensures req.UploadRequest? && req.file.None? ==> r.response.status == BadRequest && r.state == s
    ensures req.ClaimRequest? ==> r == Claim(s, calculateToken, req.project, req.tokenBytes, req.salt)
    ensures req.UploadRequest? ==> r == Upload(s, calculateToken, req.project, req.version, req.file, req.apiKey)
    ensures req.DeleteRequest? ==> r == Delete(s, calculateToken, req.project, req.version, req.apiKey)
    ensures req.TagRequest? ==> r == Tag(s, req.project, req.version, req.newTag)
  {
    match req
    case ClaimRequest(p, tb, salt) => Claim(s, calculateToken, p, tb, salt)
    case UploadRequest(p, v, file, key) => Upload(s, calculateToken, p, v, file, key)
    case DeleteRequest(p, v, key) => Delete(s, calculateToken, p, v, key)
    case TagRequest(p, v, t) => Tag(s, p, v, t)
  }

  /** The state after handling `reqs` in order. */
  function Run(s: State, calculateToken: Hasher, reqs: seq<Request>): (s': State)
    decreases |reqs|
  {
    if |reqs| == 0 then s else Run(Handle(s, calculateToken, reqs[0]).state, calculateToken, reqs[1..])
  }

  /** At most one claim per project, and every stored salt reads back from hex as 32 bytes. */
  predicate Valid(s: State) {
    UniqueNames(s.claims) && AllSaltsWellFormed(s.claims)
  }

  /** Every handler keeps the invariant. */
  lemma HandlePreservesValid(s: State, calculateToken: Hasher, req: Request)
    requires Valid(s)
    ensures Valid(Handle(s, calculateToken, req).state)
  {
    if req.ClaimRequest? {
      var r := Claim(s, calculateToken, req.project, req.tokenBytes, req.salt);
      if r.response.status != Conflict {
        FromHexToHex(req.salt);
        assert SaltWellFormed(r.state.claims[|s.claims|]);
        forall i | 0 <= i < |r.state.claims| ensures SaltWellFormed(r.state.claims[i]) {
          if i < |s.claims| {
            assert r.state.claims[i] == s.claims[i];
          }
        }
      }
    }
  }

  /** Any sequence of requests keeps the invariant. */
  lemma {:induction false} RunPreservesValid(s: State, calculateToken: Hasher, reqs: seq<Request>)
    requires Valid(s)
    ensures Valid(Run(s, calculateToken, reqs))
    decreases |reqs|
  {
    if |reqs| > 0 {
      HandlePreservesValid(s, calculateToken, reqs[0]);
      RunPreservesValid(Handle(s, calculateToken, reqs[0]).state, calculateToken, reqs[1..]);
    }
  }

  /** In a valid state the token check never hits an unreadable salt. */
  lemma ValidNeverFaults(s: State, calculateToken: Hasher, apiKey: Option<string>, project: string)
    requires Valid(s)
    ensures !CheckTokenForProject(s.claims, calculateToken, apiKey, project).Fault?
  {
    var result := Search(s.claims, project);
    if |result| > 0 {
      assert result[0] in s.claims;
    }
  }

  /**
   In every state reachable from a fresh installation each project has at
   most one claim and no request ends in the salt-decoding server error.
   */
  lemma ReachableStatesAreSound(calculateToken: Hasher, reqs: seq<Request>, req: Request)
    ensures var s := Run(Init, calculateToken, reqs);
            && UniqueNames(s.claims)
            && Handle(s, calculateToken, req).response.status != InternalServerError
  {
    assert Valid(Init);
    RunPreservesValid(Init, calculateToken, reqs);
    var s := Run(Init, calculateToken, reqs);
    if req.UploadRequest? || req.DeleteRequest? {
      ValidNeverFaults(s, calculateToken, req.apiKey, req.project);
    }
  }
}
