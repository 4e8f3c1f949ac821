/**
 * The `processFilePayload` handler of main.go as an imperative method over
 * the database, step by step as the handler runs, proved to compute
 * exactly `FilePayload.Process`.
 */
module Handler {
  import opened FilePayload

  /** The database handle; `fileData` is the `file_data` table by primary key. */
  class Database {
    var fileData: map<Key, Row>

    constructor (initial: map<Key, Row>)
      ensures fileData == initial
    {
      fileData := initial;
    }

    /** `SELECT hash FROM file_data WHERE type = $1 AND version = $2`, then `Scan`. */
    method QueryHash(key: Key, fails: bool) returns (q: Query)
      ensures q.QueryError? <==> fails
      ensures q.NoRows? <==> !fails && key !in fileData
      ensures q.Found? ==> key in fileData && q.hash == fileData[key].hash
    {
      if fails {
        q := QueryError;
      } else if key in fileData {
        q := Found(fileData[key].hash);
      } else {
        q := NoRows;
      }
    }

    /** `INSERT INTO file_data ...`: rejected on a database error or a duplicate primary key. */
    method InsertRow(key: Key, row: Row, fails: bool) returns (ok: bool)
      modifies this
      ensures ok <==> !fails && key !in old(fileData)
      ensures fileData == if ok then old(fileData)[key := row] else old(fileData)
    {
      ok := !fails && key !in fileData;
      if ok {
        fileData := fileData[key := row];
      }
    }
  }

  /**
   * One RPC call. `input` is what decoding the payload string produced,
   * `blobs` the files by path, `hash` the fingerprint function and `faults`
   * the failures of the database and of the encoder.
   */
  method ProcessFilePayload(db: Database, input: Decoded, blobs: map<string, string>,
                            hash: string -> string, faults: Faults) returns (result: Result)
    modifies db
    ensures Outcome(result, db.fileData) == Process(old(db.fileData), input, blobs, hash, faults)
    ensures forall k :: k in old(db.fileData) ==> k in db.fileData && db.fileData[k] == old(db.fileData)[k]
  {
    if input.Malformed? {
      return Err(RpcError(input.reason, InvalidArgument));
    }

    // Default values.
    var p := input.payload;
    if p.typ == "" {
      p := p.(typ := DefaultType);
    }
    if p.version == "" {
      p := p.(version := DefaultVersion);
    }
    if p.hash == "" {
      p := p.(hash := Null);
    }
    assert p == Normalise(input.payload);

    // Read the file.
    var filePath := FilePath(p.typ, p.version);
    if filePath !in blobs {
      return Err(RpcError(FileNotFound, NotFound));
    }
    var fileContent := blobs[filePath];

    var calculatedHash := hash(fileContent);

    // Look the key up; `existingHash` keeps its zero value when no row is found.
    var key := Key(p.typ, p.version);
    var existingHash := "";
    var q := db.QueryHash(key, faults.queryFails);
    match q {
      case QueryError =>
        return Err(RpcError(InternalServerError, Internal));
      case Found(h) =>
        existingHash := h;
      case NoRows =>
    }

    if existingHash == "" {
      var ok := db.InsertRow(key, Row(calculatedHash, fileContent), faults.insertFails);
      if !ok {
        return Err(RpcError(InternalServerError, Internal));
      }
    }

    // Shape the response.
    var response := Response(p.typ, p.version, "", "");
    if existingHash == "" || p.hash == calculatedHash {
      response := response.(hash := calculatedHash);
      response := response.(content := fileContent);
    } else {
      response := response.(content := Null);
      response := response.(hash := Null);
    }

    if faults.marshalFails {
      return Err(RpcError(InternalServerError, Internal));
    }
    return Ok(response);
  }
}
