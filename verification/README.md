# docat request-handling core in Dafny

A model of the request handlers of docat, a small documentation host:
projects are claimed once for a secret token, versions of a project's
documentation are uploaded, overwritten and deleted, and versions can be
aliased under tag names. The model treats the service as a state machine:
the state is the `claims` table (a list of records `{name, token, salt}`)
and the document tree (for each project, named entries that are either a
version directory or a tag link). Each handler is a pure function from a
request and a state to a response (status, message, optional token) and a
new state.

Files:

- `prelude.dfy` — `byte` and `Option`.
- `hex.dfy` — `bytes.hex()` and `bytes.fromhex()`, through which the salt is stored and read back, and their round trips.
- `claims.dfy` — the claims table: search by name with first-match lookup, the uniqueness invariant.
- `token.dfy` — the token scheme: the digest function `calculate_token` as a parameter, the random inputs as sized types, verification.
- `doctree.dfy` — the document tree and the two file-system helpers the handlers call (`remove_docs`, `create_symlink`) plus version creation.
- `app.dfy` — the four handlers and the shared token check.
- `service.dfy` — routing of requests to handlers, runs of many requests, and the invariant every reachable state keeps.
- `properties.dfy` — lemmas relating handler calls to one another.

The digest function is a parameter (`Hasher`) about which nothing is
assumed except that it is a function, so every property holds for any
digest. The random token and salt the service draws are inputs of the claim
handler (16 and 32 bytes). An uncaught exception is answered by the web
framework with status 500. Of the handlers' exception paths, the model keeps
one: the token check reading a stored salt that is not hex text. It answers
that with `InternalServerError` and proves that no state reachable from a
fresh installation takes it. The other exception paths are listed under
"Left out".

## Model

| member | source | states |
|---|---|---|
| Hex.ToHex | docat/docat/app.py:91 | the stored salt text has two lower-case hex digits per salt byte |
| Hex.FromHex | docat/docat/app.py:120 | text is rejected (the ValueError of the source) whenever it holds a character that is neither whitespace nor a hex digit, or an odd number of hex digits; when accepted, the result has one byte per two hex digits |
| Hex.FromHexToHex | docat/docat/app.py:120 | the salt read back from the stored hex text is exactly the salt that was hashed at claim time |
| Hex.ToHexFromHex | docat/docat/app.py:91 | every lower-case hex text of even length is read back to bytes whose hex text is that same text, so the encoding is a bijection onto its image |
| ClaimStore.Search | docat/docat/app.py:116-117 | a search returns only records of the table with the requested name, and is empty exactly when no record has that name |
| ClaimStore.SearchAppend | docat/docat/app.py:91 | after inserting a record, a search finds the earlier matches followed by the new record when its name matches |
| ClaimStore.SearchUnique | docat/docat/app.py:117-121 | with at most one record per name, the first search result is the project's only record |
| DocTree.Exists | docat/docat/app.py:40 | the version path exists exactly when its name is listed among the project directory's entries (versions and tags alike) |
| DocTree.RemoveDocs | docat/docat/app.py:102-104 | removal answers a message naming the version exactly when the version is absent (then nothing changes); otherwise the entry is gone and every other entry is untouched |
| DocTree.CreateVersion | docat/docat/app.py:49-53 | after creation the version exists holding exactly the uploaded file, and no other entry changes |
| DocTree.CreateSymlink | docat/docat/app.py:62-65 | a link is created exactly when the destination name is free, it points at the bare source name, a taken name is left as it was, and no other entry changes |
| App.Present | docat/docat/app.py:119 | a header counts as given exactly when it is truthy: neither absent nor the empty string |
| App.CheckTokenForProject | docat/docat/app.py:114-126 | an unclaimed project or a missing or empty key is refused with the "Please provide a header" 401; acceptance implies a claim record whose decoded salt verifies the key; a refusal is always 401; the check faults (the uncaught error of the salt read-back) exactly when the project is claimed, a key is present and the first record's salt is not hex text |
| App.Claim | docat/docat/app.py:77-93 | an already claimed project gets 409 with the "already claimed" message and nothing changes; otherwise exactly one record (name, hash of the issued token with the salt, hex of the salt) is appended, the returned token is the 32-character hex text of the 16 drawn bytes, the tree is untouched and uniqueness of names is kept |
| App.Upload | docat/docat/app.py:27-57 | no file part or an empty file name gives 400 with its message and no change; the upload succeeds exactly when the file is usable and, if the version exists, the token check passes; success leaves the version holding only the new file with everything else untouched; a refused overwrite answers with the token check's own 401 (or 500 for an unreadable salt) and changes nothing; claims never change |
| App.Delete | docat/docat/app.py:96-111 | a failed token check answers with the check's own 401 (or 500 for an unreadable salt) and changes nothing; after a passed check the version is absent, 404 with the removal message means it was absent and 200 means it was present, and no other entry changes |
| App.Tag | docat/docat/app.py:60-74 | 201 exactly when the tag name is free, the new link points at the bare version name; otherwise 409 with the "would overwrite" message and no change; claims never change |
| Service.Handle | docat/docat/app.py:27-111 | each route (claim, upload, delete, tag) is answered by exactly its handler with the request's own arguments; consequently only a claim changes the claims table, a claim leaves the tree alone and answers 201 or 409, a tag answers 201 or 409, and an upload without a file part is a 400 that changes nothing |
| Service.HandlePreservesValid | docat/docat/app.py:78-93 | every handler keeps at most one claim per project and every stored salt readable as 32 bytes |
| Service.RunPreservesValid | docat/docat/app.py:78-93 | any sequence of requests keeps that invariant |
| Service.ValidNeverFaults | docat/docat/app.py:119-120 | in a valid state the token check never meets an unreadable salt |
| Service.ReachableStatesAreSound | docat/docat/app.py:114-126 | in every state reached from a fresh installation each project has at most one claim and no request ends in the salt-decoding server error |
| Properties.ClaimThenAuthorize | docat/docat/app.py:88-122 | after a successful claim the issued token passes the check, and any key passes exactly when it is non-empty and hashes with the salt like the issued token |
| Properties.AuthorizedIffVerify | docat/docat/app.py:114-126 | for a claimed project the check accepts exactly the non-empty keys that verify against its record; a missing or empty key and a wrong key are refused with their own messages |
| Properties.UnclaimedProjectIsLocked | docat/docat/app.py:40-46 | no key can delete or overwrite a version of an unclaimed project, and the refusal changes nothing |
| Properties.NewVersionNeedsNoToken | docat/docat/app.py:40-57 | uploading a version that does not exist succeeds the same way whatever key is sent, and only adds that version |
| Properties.OverwriteIsRemoveThenCreate | docat/docat/app.py:40-53 | an authorized overwrite ends exactly like a fresh upload into the tree with the old version removed, so nothing of the old contents survives |
| Properties.DeleteTwice | docat/docat/app.py:100-109 | an authorized delete of an existing version succeeds, and a repeat reports it as not found without changing anything |
| Properties.TagIgnoresClaims | docat/docat/app.py:61-74 | tagging answers the same whatever the claims table holds |
| Properties.TagTwice | docat/docat/app.py:61-74 | a tag name can be used once; a second tag of the same name is refused and the first link keeps its target |
| Properties.ExistingEntriesNeedToken | docat/docat/app.py:27-111 | an existing entry is changed or removed only by an upload or delete of that very entry whose token check passed |
| Properties.DemoSession | docat/docat/app.py:27-111 | a full session on a fresh installation: first upload without a token, refused re-upload without one, claim, overwrite with the token, one tag, refused second tag, delete, then not found |

## Left out

- HTTP routing, request and response objects and the 100 MB request-size limit: transport. Statuses are an enumeration named after the HTTP statuses, messages are strings, and `Service.Handle` stands for the routing.
- The document store's persistence: the claims table is a list of records in memory; its search is a filter and the handlers use the first match.
- Randomness: the 16 token bytes and 32 salt bytes are inputs of the claim handler.
- The digest function `calculate_token`: docat/utils.py is not part of this model. It is a parameter; nothing about one-wayness is stated.
- `remove_docs` and `create_symlink` (docat/utils.py) are modelled from how the handlers use them: removal reports a message when the version is absent and otherwise removes the entry; link creation refuses a name already taken and otherwise adds the link. That removal touches nothing but the named entry (in particular, no clean-up of tag links left dangling) is an assumption about that helper; `Properties.ExistingEntriesNeedToken` and the surviving tag in `Properties.DemoSession` rest on it. The wording of the not-found message is the model's own; only that it is non-empty and comes back in the 404 answer is relied on.
- DocTree.CreateVersion: file saving, `secure_filename` and archive extraction (with its path-traversal defences) are foreign-library and file-system behaviour; a successful upload is "the version now holds the uploaded file", and extraction is taken to succeed.
- DocTree.Exists: an entry exists when its name is present in the tree. The file system's existence test follows links, so a tag whose target is missing would be reported absent there; link resolution is not modelled.
- Web-server configuration written after each upload: configuration-file I/O.
- Local static file serving and the environment switches for it and for the upload folder: static serving and configuration.
- Concurrent requests: each handler is an atomic, sequential transition, so races on claim or on a new upload are not modelled.
- Uncaught exceptions other than an unreadable stored salt are not modelled, so the model never answers 500 for them. One is creating the version directory when the version name is a tag whose target is missing: the existence test says absent, but the directory cannot be made. Another is saving the upload when the sanitised file name is empty, for example for the name "..": the save then targets the version directory itself and fails. A third is extracting a file that is not an archive. In an authorized overwrite, the last two happen after the old version has already been removed, so the old version is lost and no new one takes its place.
- Properties.ExistingEntriesNeedToken: holds only because names are opaque keys, so different strings are always different entries. In the service, project, version and tag names are path segments below the upload folder. There, "." adds nothing, so project "." with version "victim" is the whole directory of project "victim"; ".." climbs one level. The token check, however, is keyed by the literal project string. Whether the router passes such segments through lies outside the handlers, and this path-segment aliasing is not modelled.
- Properties.UnclaimedProjectIsLocked: holds only for names that are plain path segments, for the same reason: a claim of "." would pass the check for a request whose path lands in an unclaimed project's directory.
