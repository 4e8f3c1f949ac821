/**
 * The four cases of `TestProcessFilePayloadE2E` (main_e2e_test.go), stated
 * of the model for any file content `content` stored at
 * `/nakama/data/sample_files/core/1.0.0.json` and any fingerprint function
 * with the shape of a SHA-256 hex digest. `setupDatabase` empties the table;
 * `addTestFileToDatabase` puts the row (core, 1.0.0) with the correct hash.
 */
module E2EScenarios {
  import opened FilePayload
  import Handler

  const CoreKey: Key := Key(DefaultType, DefaultVersion)

  /** The table after `addTestFileToDatabase(correctHash, content)`. */
  function SeededTable(hash: string -> string, content: string): map<Key, Row>
  {
    map[CoreKey := Row(hash(content), content)]
  }

  /** "File does not exist and will be added": disclosed, and the row is now stored. */
  lemma FileAddedWhenTableEmpty(content: string, blobs: map<string, string>, hash: string -> string)
    requires FilePath("core", "1.0.0") in blobs && blobs[FilePath("core", "1.0.0")] == content
    ensures Process(map[], Decoded(Payload("core", "1.0.0", "null")), blobs, hash, NoFaults)
         == Outcome(Ok(Response("core", "1.0.0", hash(content), content)), SeededTable(hash, content))
  {
  }

  /** "File exists and hash matches": disclosed, table unchanged. */
  lemma MatchingHashDiscloses(content: string, blobs: map<string, string>, hash: string -> string)
    requires HexHasher(hash)
    requires FilePath("core", "1.0.0") in blobs && blobs[FilePath("core", "1.0.0")] == content
    ensures Process(SeededTable(hash, content), Decoded(Payload("core", "1.0.0", hash(content))),
                    blobs, hash, NoFaults)
         == Outcome(Ok(Response("core", "1.0.0", hash(content), content)), SeededTable(hash, content))
  {
  }

  /** "File exists and hash does not match": both fields are "null", table unchanged. */
  lemma WrongHashSuppresses(content: string, blobs: map<string, string>, hash: string -> string)
    requires HexHasher(hash)
    requires FilePath("core", "1.0.0") in blobs && blobs[FilePath("core", "1.0.0")] == content
    ensures Process(SeededTable(hash, content), Decoded(Payload("core", "1.0.0", "incorrect_hash")),
                    blobs, hash, NoFaults)
         == Outcome(Ok(Response("core", "1.0.0", "null", "null")), SeededTable(hash, content))
  {
  }

  /** "File does not exist": the not-found error with message "file not found". */
  lemma NonexistentTypeNotFound(blobs: map<string, string>, hash: string -> string)
    requires FilePath("nonexistent", "1.0.0") !in blobs
    ensures Process(map[], Decoded(Payload("nonexistent", "1.0.0", "null")), blobs, hash, NoFaults)
         == Outcome(Err(RpcError("file not found", 5)), map[])
  {
  }

  /** Missing fields are resolved as "core", "1.0.0" and "null". */
  lemma MissingFieldsDefault(rows: map<Key, Row>, blobs: map<string, string>, hash: string -> string, faults: Faults)
    ensures Process(rows, Decoded(Payload("", "", "")), blobs, hash, faults)
         == Process(rows, Decoded(Payload("core", "1.0.0", "null")), blobs, hash, faults)
  {
  }

  /**
   * A client of the imperative handler: the first three cases of the test
   * loop, run in order against one database object, checked by assertions.
   */
  method RunStoreScenarios(content: string, blobs: map<string, string>, hash: string -> string)
    requires HexHasher(hash)
    requires FilePath("core", "1.0.0") in blobs && blobs[FilePath("core", "1.0.0")] == content
  {
    var db := new Handler.Database(map[]);
    var r := Handler.ProcessFilePayload(db, Decoded(Payload("core", "1.0.0", "null")), blobs, hash, NoFaults);
    assert r == Ok(Response("core", "1.0.0", hash(content), content));
    assert db.fileData == SeededTable(hash, content);

    DigestIsNotSentinel(hash(content));
    r := Handler.ProcessFilePayload(db, Decoded(Payload("core", "1.0.0", hash(content))), blobs, hash, NoFaults);
    assert r == Ok(Response("core", "1.0.0", hash(content), content));

    r := Handler.ProcessFilePayload(db, Decoded(Payload("core", "1.0.0", "incorrect_hash")), blobs, hash, NoFaults);
    assert r == Ok(Response("core", "1.0.0", "null", "null"));
    assert db.fileData == SeededTable(hash, content);
  }
}
