/**
 * The request-resolution and write-once cache protocol of the
 * `process_file_payload` RPC (main.go), written as functions on values.
 *
 * A request is resolved in this order: decode, fill defaults, read the file
 * at a path formed from type and version, fingerprint the content, look up
 * the `file_data` row for (type, version), insert a row only when no
 * non-empty hash was found, and shape the response by the reveal rule.
 * The imperative handler in module Handler is proved to compute exactly
 * `Process` below.
 */
module FilePayload {
  import opened Wrappers

  // ---------------------------------------------------------------------
  // Data model
  // ---------------------------------------------------------------------

  /** The decoded request; every field may be empty on the wire. */
  datatype Payload = Payload(typ: string, version: string, hash: string)

  /** The response body; `hash` and `content` hold either real values or Null. */
  datatype Response = Response(typ: string, version: string, hash: string, content: string)

  const FileNotFound: string := "file not found"
  const InternalServerError: string := "internal server error"

  /** The sentinel string meaning "no value", in requests and responses. */
  const Null: string := "null"
  const DefaultType: string := "core"
  const DefaultVersion: string := "1.0.0"

  /** gRPC canonical status codes used by the handler. */
  const InvalidArgument: int := 3
  const NotFound: int := 5
  const Internal: int := 13

  /** Directory under which the sample files live. */
  const SampleRoot: string := "/nakama/data/sample_files/"

  datatype RpcError = RpcError(message: string, code: int)

  datatype Result = Ok(response: Response) | Err(error: RpcError)

  /** What JSON decoding of the raw payload string produced. */
  datatype Decoded = Decoded(payload: Payload) | Malformed(reason: string)

  /** Primary key of the `file_data` table. */
  datatype Key = Key(typ: string, version: string)

  /** A `file_data` row without its key and its `processed_at` timestamp. */
  datatype Row = Row(hash: string, content: string)

  /** Outcome of `SELECT hash FROM file_data WHERE type = $1 AND version = $2`. */
  datatype Query = Found(hash: string) | NoRows | QueryError

  /** Failures of the database and of the encoder, which the model cannot see. */
  datatype Faults = Faults(queryFails: bool, insertFails: bool, marshalFails: bool)

  const NoFaults: Faults := Faults(false, false, false)

  /** The result of one request together with the table afterwards. */
  datatype Outcome = Outcome(result: Result, rows: map<Key, Row>)

  // ---------------------------------------------------------------------
  // Normalisation and key derivation
  // ---------------------------------------------------------------------

  /** Fill empty fields with "core", "1.0.0" and "null"; keep the others verbatim. */
  function Normalise(p: Payload): (q: Payload)
    ensures q.typ != "" && q.version != "" && q.hash != ""
    ensures p.typ != "" ==> q.typ == p.typ
    ensures p.version != "" ==> q.version == p.version
    ensures p.hash != "" ==> q.hash == p.hash
    ensures p.typ == "" ==> q.typ == DefaultType
    ensures p.version == "" ==> q.version == DefaultVersion
    ensures p.hash == "" ==> q.hash == Null
  {
    Payload(if p.typ == "" then DefaultType else p.typ,
            if p.version == "" then DefaultVersion else p.version,
            if p.hash == "" then Null else p.hash)
  }

  lemma NormaliseIdempotent(p: Payload)
    ensures Normalise(Normalise(p)) == Normalise(p)
  {
  }

  /** `/nakama/data/sample_files/<type>/<version>.json` */
  function FilePath(typ: string, version: string): string
  {
    SampleRoot + typ + "/" + version + ".json"
  }

  function KeyOf(p: Payload): Key
  {
    Key(p.typ, p.version)
  }

  /**
   * Distinct keys whose type has no '/' give distinct path strings.
   * The side condition matters: see FilePathAliases. This is a fact about
   * the unresolved strings; the operating system also resolves `.`, `..`
   * and repeated '/', which the model does not.
   */
  lemma FilePathInjective(t1: string, v1: string, t2: string, v2: string)
    requires '/' !in t1 && '/' !in t2
    ensures FilePath(t1, v1) == FilePath(t2, v2) <==> t1 == t2 && v1 == v2
  {
    if FilePath(t1, v1) == FilePath(t2, v2) {
      var a := t1 + "/" + (v1 + ".json");
      var b := t2 + "/" + (v2 + ".json");
      assert FilePath(t1, v1) == SampleRoot + a;
      assert FilePath(t2, v2) == SampleRoot + b;
      assert a == (SampleRoot + a)[|SampleRoot|..];
      assert b == (SampleRoot + b)[|SampleRoot|..];
      SlashSplit(t1, v1 + ".json", t2, v2 + ".json");
      assert v1 == (v1 + ".json")[..|v1|];
      assert v2 == (v2 + ".json")[..|v2|];
    }
  }

  /** A string without '/' followed by '/' is determined by the position of that first '/'. */
  lemma SlashSplit(x: string, r: string, y: string, s: string)
    requires '/' !in x && '/' !in y
    requires x + "/" + r == y + "/" + s
    ensures x == y && r == s
  {
    var a := x + "/" + r;
    var b := y + "/" + s;
    assert forall j :: 0 <= j < |x| ==> a[j] == x[j] && a[j] != '/';
    assert forall j :: 0 <= j < |y| ==> b[j] == y[j] && b[j] != '/';
    assert a[|x|] == '/' && b[|y|] == '/';
    assert |x| == |y|;
    assert x == a[..|x|];
    assert y == b[..|y|];
    assert r == a[|x| + 1..];
    assert s == b[|y| + 1..];
  }

  /** Two different table keys can name the same file when the type contains '/'. */
  lemma FilePathAliases()
    ensures Key("a/b", "c") != Key("a", "b/c")
    ensures FilePath("a/b", "c") == FilePath("a", "b/c")
  {
    assert FilePath("a/b", "c") == SampleRoot + "a/b/c.json";
    assert FilePath("a", "b/c") == SampleRoot + "a/b/c.json";
  }

  // ---------------------------------------------------------------------
  // Fingerprints
  // ---------------------------------------------------------------------

  /** The shape of `hex.EncodeToString(sha256.Sum256(...))`: 64 lowercase hex digits. */
  predicate IsHexDigest(h: string)
  {
    |h| == 64 && forall i :: 0 <= i < |h| ==> h[i] in "0123456789abcdef"
  }

  /** A fingerprint function whose every result has the shape of a SHA-256 hex digest. */
  ghost predicate HexHasher(hash: string -> string)
  {
    forall c :: IsHexDigest(hash(c))
  }

  /** A digest is never the empty string and never the sentinel. */
  lemma DigestIsNotSentinel(h: string)
    requires IsHexDigest(h)
    ensures h != "" && h != Null && h != "incorrect_hash"
  {
  }

  // ---------------------------------------------------------------------
  // The table operations
  // ---------------------------------------------------------------------

  /** The SELECT, as `QueryRowContext(...).Scan` reports it. */
  function Select(rows: map<Key, Row>, key: Key, fails: bool): (q: Query)
    ensures q.QueryError? <==> fails
    ensures q.Found? <==> !fails && key in rows
    ensures q.Found? ==> q.hash == rows[key].hash
  {
    if fails then QueryError else if key in rows then Found(rows[key].hash) else NoRows
  }

  /** The value `existingHash` holds after the scan: the zero value "" when no row was found. */
  function ExistingHash(q: Query): string
  {
    if q.Found? then q.hash else ""
  }

  /**
   * The INSERT. It fails on a database error and, because of the table's
   * PRIMARY KEY (type, version), whenever a row for the key already exists.
   */
  function Insert(rows: map<Key, Row>, key: Key, row: Row, fails: bool): (r: Option<map<Key, Row>>)
    ensures r.Some? <==> !fails && key !in rows
    ensures r.Some? ==> r.value.Keys == rows.Keys + {key} && r.value[key] == row
    ensures r.Some? ==> forall k :: k in rows ==> r.value[k] == rows[k]
  {
    if fails || key in rows then None else Some(rows[key := row])
  }

  // ---------------------------------------------------------------------
  // Response shaping
  // ---------------------------------------------------------------------

  /** The reveal rule: disclose when no hash existed or the client hash equals the computed one. */
  predicate Reveal(existingHash: string, clientHash: string, calculatedHash: string)
  {
    existingHash == "" || clientHash == calculatedHash
  }

  function ShapeResponse(p: Payload, existingHash: string, calculatedHash: string, content: string): (r: Response)
    ensures r.typ == p.typ && r.version == p.version
    ensures Reveal(existingHash, p.hash, calculatedHash) ==> r.hash == calculatedHash && r.content == content
    ensures !Reveal(existingHash, p.hash, calculatedHash) ==> r.hash == Null && r.content == Null
  {
    if Reveal(existingHash, p.hash, calculatedHash) then
      Response(p.typ, p.version, calculatedHash, content)
    else
      Response(p.typ, p.version, Null, Null)
  }

  // ---------------------------------------------------------------------
  // One request
  // ---------------------------------------------------------------------

  function InternalError(): RpcError
  {
    RpcError(InternalServerError, Internal)
  }

  /**
   * One call of the handler: `rows` is the `file_data` table before the
   * call, `blobs` the files on disk by path, `hash` the fingerprint function
   * and `faults` the failures the environment injects. Every error is one of
   * the three codes, with the decoder's message or one of the two fixed
   * messages; no call changes or removes an existing row.
   */
  function Process(rows: map<Key, Row>, input: Decoded, blobs: map<string, string>,
                   hash: string -> string, faults: Faults): (o: Outcome)
    ensures o.result.Err? ==> o.result.error.code in {InvalidArgument, NotFound, Internal}
    ensures o.result.Err? && o.result.error.code == InvalidArgument ==> input.Malformed?
    ensures o.result.Err? && o.result.error.code == NotFound ==> o.result.error.message == FileNotFound
    ensures o.result.Err? && o.result.error.code == Internal ==> o.result.error.message == InternalServerError
    ensures o.result.Ok? ==> input.Decoded?
    ensures forall k :: k in rows ==> k in o.rows && o.rows[k] == rows[k]
  {
    match input
    case Malformed(reason) => Outcome(Err(RpcError(reason, InvalidArgument)), rows)
    case Decoded(raw) =>
      var p := Normalise(raw);
      var path := FilePath(p.typ, p.version);
      if path !in blobs then
        Outcome(Err(RpcError(FileNotFound, NotFound)), rows)
      else
        var content := blobs[path];
        var calculatedHash := hash(content);
        var q := Select(rows, KeyOf(p), faults.queryFails);
        if q.QueryError? then
          Outcome(Err(InternalError()), rows)
        else
          var existingHash := ExistingHash(q);
          var written :=
            if existingHash != "" then Some(rows)
            else Insert(rows, KeyOf(p), Row(calculatedHash, content), faults.insertFails);
          if written.None? then
            Outcome(Err(InternalError()), rows)
          else if faults.marshalFails then
            Outcome(Err(InternalError()), written.value)
          else
            Outcome(Ok(ShapeResponse(p, existingHash, calculatedHash, content)), written.value)
  }

  // ---------------------------------------------------------------------
  // Properties of one request
  // ---------------------------------------------------------------------

  /** A payload that does not decode fails with code 3 and touches nothing. */
  lemma MalformedIsInvalidArgument(rows: map<Key, Row>, reason: string, blobs: map<string, string>,
                                   hash: string -> string, faults: Faults)
    ensures Process(rows, Malformed(reason), blobs, hash, faults)
         == Outcome(Err(RpcError(reason, InvalidArgument)), rows)
  {
  }

  /** The request fails with "file not found" / 5 exactly when no file exists at the path; the table is then unchanged. */
  lemma NotFoundExactlyWithoutFile(rows: map<Key, Row>, raw: Payload, blobs: map<string, string>,
                                   hash: string -> string, faults: Faults)
    ensures var p := Normalise(raw);
            var o := Process(rows, Decoded(raw), blobs, hash, faults);
            (o.result == Err(RpcError(FileNotFound, NotFound)) <==> FilePath(p.typ, p.version) !in blobs)
    ensures var p := Normalise(raw);
            FilePath(p.typ, p.version) !in blobs ==> Process(rows, Decoded(raw), blobs, hash, faults).rows == rows
  {
  }

  /**
   * The table changes exactly when the file exists, the lookup succeeds,
   * no row exists for the key and the insert succeeds; the new row then
   * carries the computed hash and the content.
   */
  lemma InsertExactlyWhenAbsent(rows: map<Key, Row>, raw: Payload, blobs: map<string, string>,
                                hash: string -> string, faults: Faults)
    ensures var p := Normalise(raw);
            var path := FilePath(p.typ, p.version);
            var o := Process(rows, Decoded(raw), blobs, hash, faults);
            (o.rows != rows <==> path in blobs && !faults.queryFails && !faults.insertFails && KeyOf(p) !in rows)
    ensures var p := Normalise(raw);
            var path := FilePath(p.typ, p.version);
            var o := Process(rows, Decoded(raw), blobs, hash, faults);
            o.rows != rows ==> o.rows == rows[KeyOf(p) := Row(hash(blobs[path]), blobs[path])]
  {

  }

  /** No request ever changes or removes an existing row, and it adds at most the row of its own key. */
  lemma NeverOverwrites(rows: map<Key, Row>, input: Decoded, blobs: map<string, string>,
                        hash: string -> string, faults: Faults)
    ensures var o := Process(rows, input, blobs, hash, faults);
            forall k :: k in rows ==> k in o.rows && o.rows[k] == rows[k]
    ensures var o := Process(rows, input, blobs, hash, faults);
            forall k :: k in o.rows && k !in rows ==> input.Decoded? && k == KeyOf(Normalise(input.payload))
  {
  }

  /**
   * A failing response encoder comes after the insert: the request reports
   * an internal error, yet the new row stays written.
   */
  lemma MarshalFailureKeepsRow(rows: map<Key, Row>, raw: Payload, blobs: map<string, string>,
                               hash: string -> string)
    requires var p := Normalise(raw); FilePath(p.typ, p.version) in blobs
    requires KeyOf(Normalise(raw)) !in rows
    ensures var p := Normalise(raw);
            var content := blobs[FilePath(p.typ, p.version)];
            Process(rows, Decoded(raw), blobs, hash, Faults(false, false, true))
              == Outcome(Err(InternalError()), rows[KeyOf(p) := Row(hash(content), content)])
  {
  }

  /** Write-once: a request for a key whose row has a non-empty hash leaves the whole table unchanged. */
  lemma ExistingRowLeavesTableUnchanged(rows: map<Key, Row>, raw: Payload, blobs: map<string, string>,
                                        hash: string -> string, faults: Faults)
    requires KeyOf(Normalise(raw)) in rows && rows[KeyOf(Normalise(raw))].hash != ""
    ensures Process(rows, Decoded(raw), blobs, hash, faults).rows == rows
  {
  }

  /**
   * The reveal rule, both directions. On success the response echoes the
   * normalised type and version; it discloses the computed hash and the
   * content exactly when no row existed or the client hash equals the
   * computed hash, and otherwise both fields are "null". The stored hash
   * takes no part.
   */
  lemma RevealRule(rows: map<Key, Row>, raw: Payload, blobs: map<string, string>,
                   hash: string -> string, faults: Faults)
    requires HexHasher(hash)
    requires Process(rows, Decoded(raw), blobs, hash, faults).result.Ok?
    ensures var p := Normalise(raw);
            FilePath(p.typ, p.version) in blobs && !faults.queryFails && !faults.marshalFails
    ensures var p := Normalise(raw);
            var content := blobs[FilePath(p.typ, p.version)];
            var r := Process(rows, Decoded(raw), blobs, hash, faults).result.response;
            && r.typ == p.typ && r.version == p.version
            && (r.hash == hash(content) <==> KeyOf(p) !in rows || p.hash == hash(content))
            && (r.hash == hash(content) ==> r.content == content)
            && (r.hash != hash(content) ==> r.hash == Null && r.content == Null)
  {

  }

  /** A failing lookup or a failing insert is an internal error with no response, and the table is unchanged. */
  lemma DatabaseFailureIsInternal(rows: map<Key, Row>, raw: Payload, blobs: map<string, string>,
                                  hash: string -> string, faults: Faults)
    requires var p := Normalise(raw); FilePath(p.typ, p.version) in blobs
    requires faults.queryFails || (faults.insertFails && KeyOf(Normalise(raw)) !in rows)
    ensures Process(rows, Decoded(raw), blobs, hash, faults) == Outcome(Err(RpcError(InternalServerError, 13)), rows)
  {
  }

  /**
   * A row whose hash is empty (written by someone else) makes the handler
   * attempt an insert that the primary key rejects: internal error, nothing changes.
   */
  lemma EmptyHashRowIsInternal(rows: map<Key, Row>, raw: Payload, blobs: map<string, string>,
                               hash: string -> string, faults: Faults)
    requires var p := Normalise(raw); FilePath(p.typ, p.version) in blobs
    requires !faults.queryFails
    requires KeyOf(Normalise(raw)) in rows && rows[KeyOf(Normalise(raw))].hash == ""
    ensures Process(rows, Decoded(raw), blobs, hash, faults) == Outcome(Err(RpcError(InternalServerError, 13)), rows)
  {
  }

  /**
   * The stored hash is never compared: when the file changed after its row
   * was written, a client presenting the stored hash is refused, and one
   * presenting the new file's hash is shown the new content.
   */
  lemma StoredHashIsNotCompared(old_content: string, new_content: string, raw: Payload,
                                blobs: map<string, string>, hash: string -> string)
    requires HexHasher(hash)
    requires var p := Normalise(raw); FilePath(p.typ, p.version) in blobs
    requires var p := Normalise(raw); blobs[FilePath(p.typ, p.version)] == new_content
    requires hash(old_content) != hash(new_content)
    ensures var p := Normalise(raw);
            var rows := map[KeyOf(p) := Row(hash(old_content), old_content)];
            var o := Process(rows, Decoded(raw.(hash := hash(old_content))), blobs, hash, NoFaults);
            o == Outcome(Ok(Response(p.typ, p.version, Null, Null)), rows)
    ensures var p := Normalise(raw);
            var rows := map[KeyOf(p) := Row(hash(old_content), old_content)];
            var o := Process(rows, Decoded(raw.(hash := hash(new_content))), blobs, hash, NoFaults);
            o == Outcome(Ok(Response(p.typ, p.version, hash(new_content), new_content)), rows)
  {

  }

  // ---------------------------------------------------------------------
  // Many requests
  // ---------------------------------------------------------------------

  /** One call, with the files and the failures in effect at that moment. */
  datatype Call = Call(input: Decoded, blobs: map<string, string>, faults: Faults)

  /** The table after a sequence of calls. */
  function Serve(rows: map<Key, Row>, calls: seq<Call>, hash: string -> string): map<Key, Row>
    decreases |calls|
  {
    if calls == [] then rows
    else Serve(Process(rows, calls[0].input, calls[0].blobs, hash, calls[0].faults).rows, calls[1..], hash)
  }

  /** Every stored hash is the fingerprint of the stored content. */
  ghost predicate Fingerprinted(rows: map<Key, Row>, hash: string -> string)
  {
    forall k :: k in rows ==> rows[k].hash == hash(rows[k].content)
  }

  /** Once written, a row survives every later call unchanged, whatever the payloads, files and failures. */
  lemma {:induction false} ServeKeepsRows(rows: map<Key, Row>, calls: seq<Call>, hash: string -> string)
    ensures forall k :: k in rows ==> k in Serve(rows, calls, hash) && Serve(rows, calls, hash)[k] == rows[k]
    decreases |calls|
  {
    if calls != [] {
      var next := Process(rows, calls[0].input, calls[0].blobs, hash, calls[0].faults).rows;
      NeverOverwrites(rows, calls[0].input, calls[0].blobs, hash, calls[0].faults);
      ServeKeepsRows(next, calls[1..], hash);
    }
  }

  /** Rows written by the handler carry the fingerprint of their content, so the table stays Fingerprinted. */
  lemma {:induction false} ServeKeepsFingerprints(rows: map<Key, Row>, calls: seq<Call>, hash: string -> string)
    requires Fingerprinted(rows, hash)
    ensures Fingerprinted(Serve(rows, calls, hash), hash)
    decreases |calls|
  {
    if calls != [] {
      var c := calls[0];
      var next := Process(rows, c.input, c.blobs, hash, c.faults).rows;
      forall k | k in next ensures next[k].hash == hash(next[k].content) {
        if k !in rows {
          NeverOverwrites(rows, c.input, c.blobs, hash, c.faults);
          InsertExactlyWhenAbsent(rows, c.input.payload, c.blobs, hash, c.faults);
        }
      }
      ServeKeepsFingerprints(next, calls[1..], hash);
    }
  }

  /**
   * After a first successful request has cached a file, a later request for
   * the same key, with the file unchanged, discloses exactly when its client
   * hash is the file's fingerprint and never writes.
   */
  lemma RepeatRequest(rows: map<Key, Row>, raw: Payload, client: string, blobs: map<string, string>,
                      hash: string -> string)
    requires HexHasher(hash)
    requires var p := Normalise(raw); FilePath(p.typ, p.version) in blobs
    requires KeyOf(Normalise(raw)) !in rows
    ensures var p := Normalise(raw);
            var content := blobs[FilePath(p.typ, p.version)];
            var first := Process(rows, Decoded(raw), blobs, hash, NoFaults);
            var second := Process(first.rows, Decoded(raw.(hash := client)), blobs, hash, NoFaults);
            && first.result == Ok(Response(p.typ, p.version, hash(content), content))
            && second.rows == first.rows
            && (client == hash(content) ==> second.result == Ok(Response(p.typ, p.version, hash(content), content)))
            && (client != hash(content) ==> second.result == Ok(Response(p.typ, p.version, Null, Null)))
  {

  }
}
