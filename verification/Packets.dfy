/**
 The packets of the binary protocol: what is written for each and what is read from any bytes
 (cheshire/protocol_bin.go, with the packet types of cheshire/strestpackets.go).
 Parameters are values of an opaque type with the JSON library's two functions on it.
 */
module Packets {
  import opened Wrappers
  import opened Wire

  const TXN_ACCEPT: seq<string> := ["single", "multi"]
  const TXN_STATUS: seq<string> := ["completed", "continue"]
  const METHOD: seq<string> := ["GET", "POST", "PUT", "DELETE"]
  const PARAM_ENCODING: seq<string> := ["json", "msgpack"]
  const CONTENT_ENCODING: seq<string> := ["string", "bytes", "json", "msqpack"]

  const STREST_VERSION: real := 2.0

  /** JSON text of parameter maps: marshal may fail; empty is a new map; greet puts in the version and
      the user agent where they are absent. */
  datatype Json<!P(!new)> = Json(marshal: P -> Option<Bytes>, unmarshal: Bytes -> Option<P>, empty: P, greet: P -> P) {
    /** What is assumed of the library: unmarshalling undoes marshalling. */
    ghost predicate Lawful() {
      forall p: P :: marshal(p).Some? ==> marshal(p).value != [] && unmarshal(marshal(p).value) == Some(p)
    }
  }

  datatype ShardRequest = ShardRequest(partition: int, key: Bytes, revision: int)

  datatype Request<P> = Request(
    version: real,
    userAgent: string,
    shard: Option<ShardRequest>,
    txnId: Bytes,
    txnAccept: string,
    httpMethod: string,
    uri: Bytes,
    params: P,
    contentEncoding: string,
    content: Bytes)
  {
    predicate ContentIsSet() {
      contentEncoding != ""
    }
  }

  datatype Response<P> = Response(
    params: P,
    txnId: Bytes,
    txnStatus: string,
    statusCode: int,
    statusMessage: Bytes,
    contentEncoding: string,
    content: Bytes)
  {
    predicate ContentIsSet() {
      contentEncoding != ""
    }
  }

  datatype WriteError = BadTxnStatus | BadTxnAccept | BadMethod | MarshalFailed

  // ---- the tables, inverted ----

  /** The number of a name in a table: its last position. */
  function Code(table: seq<string>, name: string): (r: Option<nat>)
    ensures r.Some? <==> name in table
    ensures r.Some? ==> r.value < |table| && table[r.value] == name
  {
    if table == [] then None
    else if table[|table| - 1] == name then Some(|table| - 1)
    else
      assert table == table[..|table| - 1] + [table[|table| - 1]];
      Code(table[..|table| - 1], name)
  }

  /** The content encoding written for a name: an unset or unknown one counts as bytes. */
  function ContentCode(name: string): nat {
    match Code(CONTENT_ENCODING, name)
    case Some(code) => code
    case None => 1
  }

  // ---- what is written ----

  function ShardSegments(shard: Option<ShardRequest>): seq<Bytes> {
    match shard
    case None => []
    case Some(s) => [EncodeInt(2, s.partition), ArrayBytes(2, s.key), EncodeInt(8, s.revision)]
  }

  /** Length and content, where the content is left out if its wrapped length is not positive. */
  function GuardedArrayBytes(content: Bytes): Bytes {
    EncodeInt(4, |content|) + if WrapSigned(4, |content|) > 0 then content else []
  }

  /** Everything written for a request, field by field, and the error that cut it short if any. */
  function RequestSegments<P(!new)>(j: Json<P>, r: Request<P>): (seq<Bytes>, Option<WriteError>) {
    var head := ShardSegments(r.shard) + [ArrayBytes(2, r.txnId)];
    match Code(TXN_ACCEPT, r.txnAccept)
    case None => (head, Some(BadTxnAccept))
    case Some(accept) =>
      match Code(METHOD, r.httpMethod)
      case None => (head + [EncodeInt(1, accept)], Some(BadMethod))
      case Some(m) =>
        var upToUri := head + [EncodeInt(1, accept), EncodeInt(1, m), ArrayBytes(2, r.uri)];
        match j.marshal(r.params)
        case None => (upToUri, Some(MarshalFailed))
        case Some(params) =>
          (upToUri + [EncodeInt(1, 0), ArrayBytes(4, params), EncodeInt(1, ContentCode(r.contentEncoding)),
                      if r.ContentIsSet() then ArrayBytes(4, r.content) else GuardedArrayBytes(r.content)],
           None)
  }

  /** Everything written for a response; content is written only if its encoding is set. */
  function ResponseSegments<P(!new)>(j: Json<P>, r: Response<P>): (seq<Bytes>, Option<WriteError>) {
    var head := [ArrayBytes(2, r.txnId)];
    match Code(TXN_STATUS, r.txnStatus)
    case None => (head, Some(BadTxnStatus))
    case Some(status) =>
      var upToMessage := head + [EncodeInt(1, status), EncodeInt(2, r.statusCode), ArrayBytes(2, r.statusMessage)];
      match j.marshal(r.params)
      case None => (upToMessage, Some(MarshalFailed))
      case Some(params) =>
        (upToMessage + [EncodeInt(1, 0), ArrayBytes(4, params), EncodeInt(1, ContentCode(r.contentEncoding)),
                        GuardedArrayBytes(if r.ContentIsSet() then r.content else [])],
         None)
  }

  function HelloSegments<P(!new)>(j: Json<P>, hello: P): (seq<Bytes>, Option<WriteError>) {
    match j.marshal(j.greet(hello))
    case None => ([EncodeInt(1, 0)], Some(MarshalFailed))
    case Some(b) => ([EncodeInt(1, 0), ArrayBytes(2, b)], None)
  }

  // ---- what is read ----

  /** A one-byte number checked against the size of a table; a negative one passes the check. */
  function ReadCode(table: seq<string>, field: string, s: Bytes): Parsed<int> {
    var (code, t) :- ReadInt(1, s);
    if code >= |table| then Err(TooLarge(field)) else Ok((code, t))
  }

  /** A four-byte length and that many bytes, allocated without testing the sign. */
  function ReadRaw(s: Bytes): Parsed<Bytes> {
    var (length, t) :- ReadInt(4, s);
    if length < 0 then Err(Panicked) else Take(t, length)
  }

  function ParseParams<P(!new)>(j: Json<P>, encoding: int, b: Bytes): Result<P, DecodeError> {
    if |b| == 0 then Ok(j.empty)
    else if encoding != 0 then Err(UnsupportedParamEncoding)
    else match j.unmarshal(b) case Some(p) => Ok(p) case None => Err(BadJson)
  }

  function DecodeHello<P(!new)>(j: Json<P>, s: Bytes): Parsed<P> {
    var (encoding, s1) :- ReadInt(1, s);
    var (b, s2) :- ReadArray(2, s1);
    match j.unmarshal(b)
    case Some(hello) => Ok((hello, s2))
    case None => Err(BadJson)
  }

  function DecodeShardRequest(s: Bytes): Parsed<ShardRequest> {
    var (partition, s1) :- ReadInt(2, s);
    var (key, s2) :- ReadArray(2, s1);
    var (revision, s3) :- ReadInt(8, s2);
    Ok((ShardRequest(partition, key, revision), s3))
  }

  function DecodeRequest<P(!new)>(j: Json<P>, s: Bytes): Parsed<Request<P>> {
    var (shard, s1) :- DecodeShardRequest(s);
    var (txnId, s2) :- ReadArray(2, s1);
    var (accept, s3) :- ReadCode(TXN_ACCEPT, "TxnAccept", s2);
    var (httpMethod, s4) :- ReadCode(METHOD, "Method", s3);
    var (uri, s5) :- ReadArray(2, s4);
    var (encoding, s6) :- ReadCode(PARAM_ENCODING, "paramEncoding", s5);
    var (text, s7) :- ReadArray(4, s6);
    var params :- ParseParams(j, encoding, text);
    var (contentEncoding, s8) :- ReadCode(CONTENT_ENCODING, "contentEncoding", s7);
    var (content, s9) :- ReadRaw(s8);
    if accept < 0 || httpMethod < 0 || contentEncoding < 0 then Err(Panicked)
    else
      Ok((Request(STREST_VERSION, "binary", Some(shard), txnId, TXN_ACCEPT[accept], METHOD[httpMethod], uri,
                  params, CONTENT_ENCODING[contentEncoding], content), s9))
  }

  function DecodeResponse<P(!new)>(j: Json<P>, s: Bytes): Parsed<Response<P>> {
    var (txnId, s1) :- ReadArray(2, s);
    var (status, s2) :- ReadCode(TXN_STATUS, "TxnStatus", s1);
    var (statusCode, s3) :- ReadInt(2, s2);
    var (message, s4) :- ReadArray(2, s3);
    var (encoding, s5) :- ReadCode(PARAM_ENCODING, "paramEncoding", s4);
    var (text, s6) :- ReadRaw(s5);
    var params :- ParseParams(j, encoding, text);
    var (contentEncoding, s7) :- ReadCode(CONTENT_ENCODING, "contentEncoding", s6);
    var (content, s8) :- ReadRaw(s7);
    if status < 0 || contentEncoding < 0 then Err(Panicked)
    else
      Ok((Response(params, txnId, TXN_STATUS[status], statusCode, message, CONTENT_ENCODING[contentEncoding],
                   content), s8))
  }
}
