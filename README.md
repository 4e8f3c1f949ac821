# File payload RPC: resolution and write-once cache

A Dafny model of the `process_file_payload` RPC of a Nakama server module,
and of the string escaper its end-to-end test uses.

The RPC takes a request `(type, version, hash)` and fills empty fields with
`"core"`, `"1.0.0"` and `"null"`. It reads the file
`/nakama/data/sample_files/<type>/<version>.json` and fingerprints the
content (SHA-256, lowercase hex). It then looks up the `file_data` row for
the key `(type, version)`. A row is inserted only when the lookup produced no
non-empty hash. The response echoes type and version. It discloses the
computed hash and the content when no hash existed or the client's hash
equals the freshly computed one. Otherwise both fields read `"null"`. The
stored hash is never compared. Errors carry gRPC canonical codes:
3 when the payload does not decode, 5 with `"file not found"` when the file
is missing, and 13 with `"internal server error"` when the lookup, the
insert or the response encoding fails.

Modules:

- `FilePayload` (file_payload.dfy): the data model and the whole request as
  the function `Process` on values. The table is a
  `map<Key, Row>`, the files a map from path to content, and the fingerprint
  a function parameter `hash`. Failures of the database and the encoder come
  in as a `Faults` value. The lemmas state the protocol's properties,
  including over a sequence of calls (`Serve`).
- `Handler` (handler.dfy): the handler as the source writes it, step by step.
  The class `Database` holds the `file_data` table and has a query method and
  an insert method. The method `ProcessFilePayload` overwrites the fields of
  the payload one by one and builds the response by field assignment. Its
  postcondition says it computes exactly `FilePayload.Process` and never
  alters an existing row.
- `JsonEscape` (json_escape.dfy): `escapeJSONString` as a loop proved against
  the recursive function `Escaped`. `Unescaped` is its inverse, and the
  lemmas cover length, concatenation, identity, the per-character rule and
  the round trip in both directions.
- `E2EScenarios` (e2e_scenarios.dfy): the four cases of the end-to-end test
  table as lemmas about `Process`, and a client method that runs the first
  three against one `Database` object through the imperative handler.
- `Wrappers` (wrappers.dfy): `Option`.

Points where the code's behaviour is easy to mis-derive:

- A failed insert is not retried and the row is not re-read, even when a
  concurrent first write for the same key caused the failure. The request
  returns 13 (main.go:96-99).
- "A row exists" is tested as `existingHash != ""` (main.go:89), not as
  "a row was found". A row that exists with an empty hash therefore leads to
  an INSERT. The primary key `(type, version)` (main.go:136) rejects that
  INSERT, so the request ends with code 13 (`EmptyHashRowIsInternal`). Rows
  this code writes carry a 64-digit digest, so they are write-once
  (`ExistingRowLeavesTableUnchanged`, `ServeKeepsRows`).
- The file path is built by plain concatenation with no check on type or
  version. Two different keys can therefore give the same path string when
  the type contains `/` (`FilePathAliases`). Without a `/` in either type,
  the path string determines the key (`FilePathInjective`). The operating
  system resolves the path further (see "Left out"), so keys such as
  ("core", "./1.0.0") or ("..", "sample_files/core/1.0.0") read the file of
  ("core", "1.0.0") in the running system, and `..` can reach `.json` files
  outside the sample directory.

About the escaper: it copies control characters such as a newline
unchanged. Its output is therefore a well-formed JSON string body (RFC 8259,
section 7) only when the input has no control characters. The test feeds it
the output of `json.Marshal`, which contains none.

## Model

| member | source | states |
|---|---|---|
| `FilePayload.Normalise` | main.go:57-65 | empty type, version and hash become "core", "1.0.0" and "null"; non-empty fields are kept verbatim; afterwards all three are non-empty |
| `FilePayload.NormaliseIdempotent` | main.go:57-65 | filling defaults a second time changes nothing |
| `FilePayload.FilePathInjective` | main.go:69 | when neither type contains '/', two keys give the same file path exactly when they are the same key |
| `FilePayload.FilePathAliases` | main.go:69 | the distinct keys ("a/b","c") and ("a","b/c") give the same file path |
| `FilePayload.DigestIsNotSentinel` | main.go:78-79 | a 64-digit hex digest is neither "", nor "null", nor "incorrect_hash" |
| `FilePayload.Select` | main.go:83-88 | the lookup is an error exactly when the database fails; it finds a hash exactly when a row exists for the key, and then it is that row's hash |
| `FilePayload.Insert` | main.go:94-99 | the insert succeeds exactly when the database does not fail and no row has the key (primary key); on success exactly that key is added, with the given row, and all other rows are kept |
| `FilePayload.ShapeResponse` | main.go:104-114 | the response echoes type and version; it carries the computed hash and content when no hash existed or the client hash equals the computed hash, and "null"/"null" otherwise |
| `FilePayload.Process` | main.go:47-125 | one call as a function of the table, the decoded input, the files, the fingerprint and the faults: every error has code 3 (only for an undecodable payload), 5 with "file not found" or 13 with "internal server error"; a success needs a decoded payload; no existing row is changed or removed |
| `FilePayload.MarshalFailureKeepsRow` | main.go:89-101 | when the response encoder fails after a new row was inserted, the result is ("internal server error", 13) and the table keeps the new row (computed hash, content) |
| `FilePayload.MalformedIsInvalidArgument` | main.go:50-54 | a payload that does not decode gives code 3 with the decoder's message, and the table is unchanged |
| `FilePayload.NotFoundExactlyWithoutFile` | main.go:68-74 | the result is the error ("file not found", 5) exactly when no file exists at the path of the normalised key; the table is then unchanged |
| `FilePayload.InsertExactlyWhenAbsent` | main.go:89-101 | the table changes exactly when the file exists, the lookup succeeds, no row has the key and the insert succeeds; the new table is the old one plus the row (computed hash, content) for the normalised key |
| `FilePayload.NeverOverwrites` | main.go:89-101 | no request changes or removes an existing row, and the only row it can add is the one for its own normalised key |
| `FilePayload.ExistingRowLeavesTableUnchanged` | main.go:89-90 | when the row for the key has a non-empty hash, the whole table is left unchanged |
| `FilePayload.RevealRule` | main.go:104-114 | on success: the type and version are the normalised ones; the computed hash is disclosed exactly when no row existed or the client hash equals the computed hash; the content is disclosed with it, and otherwise both fields are "null" |
| `FilePayload.DatabaseFailureIsInternal` | main.go:84-99 | a failing lookup, or a failing insert for a new key, gives ("internal server error", 13) and leaves the table unchanged |
| `FilePayload.EmptyHashRowIsInternal` | main.go:89-99 | a row with an empty hash makes the handler try an insert that the primary key rejects: code 13 and the table unchanged |
| `FilePayload.StoredHashIsNotCompared` | main.go:108-114 | when the file changed after its row was written, a client presenting the stored hash gets "null"/"null", one presenting the new file's hash gets the new content, and the table stays as it was |
| `FilePayload.ServeKeepsRows` | main.go:89-101 | after any sequence of calls, whatever their payloads, files and failures, every row present at the start is still present and unchanged |
| `FilePayload.ServeKeepsFingerprints` | main.go:78-95 | if every stored hash is the fingerprint of its stored content, this stays true after any sequence of calls |
| `FilePayload.RepeatRequest` | main.go:83-114 | the first request for an uncached file discloses it and caches it; a second request for the same file discloses exactly when its client hash is the fingerprint, shows "null"/"null" otherwise, and writes nothing |
| `Handler.Database.QueryHash` | main.go:83-88 | the lookup is an error exactly when the database fails, finds no row exactly when the key is absent, and otherwise returns the stored hash of the key |
| `Handler.Database.InsertRow` | main.go:94-99 | the insert succeeds exactly when the database does not fail and the key is absent; on success the table gains exactly that row, and otherwise it is unchanged |
| `Handler.ProcessFilePayload` | main.go:47-125 | the result and the new table are exactly those of `Process` on the old table; no existing row is changed or removed |
| `JsonEscape.EscapeJsonString` | main_e2e_test.go:213-226 | the loop produces `Escaped(s)` |
| `JsonEscape.EscapedAt` | main_e2e_test.go:216-223 | character i of the input appears at offset i plus the number of earlier `"`/`\`: `"` as `\"`, `\` as `\\`, any other character (control characters included) as itself |
| `JsonEscape.EscapedLength` | main_e2e_test.go:215-224 | the output is as long as the input plus its number of `"` and `\` characters |
| `JsonEscape.EscapedIdentity` | main_e2e_test.go:214-225 | a string with neither `"` nor `\` is returned unchanged |
| `JsonEscape.EscapedConcat` | main_e2e_test.go:215-224 | escaping distributes over concatenation |
| `JsonEscape.UnescapeEscaped` | main_e2e_test.go:215-224 | reading the output back with `Unescaped` gives the input: escaping loses nothing |
| `JsonEscape.EscapedUnescaped` | main_e2e_test.go:215-224 | every string that `Unescaped` accepts is the escape of what it reads back to, so the escaper's outputs are exactly those strings |
| `E2EScenarios.FileAddedWhenTableEmpty` | main_e2e_test.go:65-75 | with an empty table and hash "null", the response is the computed hash with the content, and the row (computed hash, content) is stored |
| `E2EScenarios.MatchingHashDiscloses` | main_e2e_test.go:76-90 | with the row present and the correct hash, the response discloses hash and content and the table is unchanged |
| `E2EScenarios.WrongHashSuppresses` | main_e2e_test.go:91-105 | with the row present and the hash "incorrect_hash", the response is "null"/"null" and the table is unchanged |
| `E2EScenarios.NonexistentTypeNotFound` | main_e2e_test.go:106-116 | a request for type "nonexistent" whose file is absent gives ("file not found", 5) |
| `E2EScenarios.MissingFieldsDefault` | main.go:57-65 | a request with all fields empty behaves exactly like ("core", "1.0.0", "null") |

## Left out

- `InitModule` and `createSchemaIfNotExists` (main.go:33-45, 127-145): RPC registration and table creation. Only the table's primary key is used, in `Insert` and `InsertRow`.
- Logger calls: output only.
- JSON decoding of the payload (main.go:51): the handler takes the decoder's result, a `Decoded` payload or `Malformed` with the decoder's message.
- JSON encoding of the response (main.go:117-121): the response is returned as a value. The encoder's failure branch is the `marshalFails` fault. When it fires after a successful insert, the row stays written.
- SHA-256 and hex encoding (main.go:78-79): a function parameter `hash`. Where a property needs it, the parameter must return 64 lowercase hex digits (`HexHasher`). Determinism holds because it is a function.
- File reading (main.go:69-70): a map from the unresolved path string to content. The operating system's path resolution (`.`, `..`, repeated `/`, symbolic links) is not modelled, so two path strings that name one file are two unrelated entries of the map. The source returns code 5 for every read error, such as permissions or a directory at the path. The model produces that code only for a missing path.
- File content is a `string` of characters, while the source reads bytes (main.go:70, 95, 110). Invalid UTF-8 is not representable. In the source, Postgres would reject it at the insert, which the `insertFails` fault covers, and `json.Marshal` would replace it with U+FFFD in the response.
- Database failures are the `queryFails` and `insertFails` flags. A NULL `hash` column makes `Scan` fail in the source; the model counts that as a query failure and has no NULL.
- The `processed_at` timestamp (main.go:95): a clock value, omitted from `Row`.
- Concurrent requests and the request context: the model handles one call at a time, and a sequence of calls in `Serve`.
- The HTTP status codes 200/404 of the test correspond to `Ok` and to the error with code 5. The transport, the Postgres setup and the test's response parsing (main_e2e_test.go:119-210) are not modelled.
- `EscapeJsonString`: Go ranges over the runes of a byte string and turns invalid UTF-8 into U+FFFD. Dafny strings are sequences of characters, so invalid byte sequences cannot be represented.
