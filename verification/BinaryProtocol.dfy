/** The writers and decoders of cheshire/protocol_bin.go as code over a growing buffer and a reader;
    each is proved against what Packets says is written and read. */
module BinaryProtocol {
  import opened Wrappers
  import opened Wire
  import opened Packets
  import opened PacketTheorems
  import opened WireFormat

  /** The destination: writes append. */
  class ByteWriter {
    var buf: Bytes

    constructor ()
      ensures buf == []
    {
      buf := [];
    }

    method Write(b: Bytes)
      modifies this
      ensures buf == old(buf) + b
    {
      buf := buf + b;
    }

    method WriteInt(width: nat, v: int)
      modifies this
      ensures buf == old(buf) + EncodeInt(width, v)
    {
      Write(EncodeInt(width, v));
    }

    /** Length and bytes; returns the count of bytes written. */
    method WriteByteArray(width: nat, b: Bytes) returns (n: nat)
      modifies this
      ensures buf == old(buf) + ArrayBytes(width, b) && n == width + |b|
      ensures buf == old(buf) + EncodeInt(width, |b|) + b
    {
      WriteInt(width, |b|);
      Write(b);
      assert buf == old(buf) + (EncodeInt(width, |b|) + b);
      n := |b| + width;
    }
  }

  /** A reading method did what the reading function says of the bytes it was given. */
  ghost predicate Agrees<T>(p: Parsed<T>, r: Result<T, DecodeError>, left: Bytes) {
    match p
    case Ok((v, t)) => r == Ok(v) && left == t
    case Err(e) => r == Err(e)
  }

  /** The source: data is what has not been read yet. */
  class ByteReader {
    var data: Bytes

    constructor (data: Bytes)
      ensures this.data == data
    {
      this.data := data;
    }

    /** Reads exactly n bytes; a short input is used up. */
    method ReadFull(n: nat) returns (r: Result<Bytes, DecodeError>)
      modifies this
      ensures Agrees(Take(old(data), n), r, data)
      ensures n <= |old(data)| ==> r == Ok(old(data)[..n]) && data == old(data)[n..]
      ensures n > |old(data)| ==> r == Err(if old(data) == [] then Eof else UnexpectedEof) && data == []
    {
      if n > |data| {
        r := Err(if data == [] then Eof else UnexpectedEof);
        data := [];
      } else {
        r := Ok(data[..n]);
        data := data[n..];
      }
    }

    method ReadInt(width: nat) returns (r: Result<int, DecodeError>)
      modifies this
      ensures Agrees(Wire.ReadInt(width, old(data)), r, data)
      ensures r.Err? ==> data == []
    {
      var b :- ReadFull(width);
      return Ok(ToSigned(width, Unsigned(b)));
    }

    method ReadByteArray(width: nat) returns (r: Result<Bytes, DecodeError>)
      modifies this
      ensures Agrees(ReadArray(width, old(data)), r, data)
    {
      var length :- ReadInt(width);
      if length < 0 {
        return Err(NegativeLength);
      }
      r := ReadFull(length);
    }

    method ReadCode(table: seq<string>, field: string) returns (r: Result<int, DecodeError>)
      modifies this
      ensures Agrees(Packets.ReadCode(table, field, old(data)), r, data)
      ensures r.Ok? ==> r.value < |table|
    {
      var code :- ReadInt(1);
      if code >= |table| {
        return Err(TooLarge(field));
      }
      return Ok(code);
    }

    method ReadRaw() returns (r: Result<Bytes, DecodeError>)
      modifies this
      ensures Agrees(Packets.ReadRaw(old(data)), r, data)
    {
      var length :- ReadInt(4);
      if length < 0 {
        return Err(Panicked);
      }
      r := ReadFull(length);
    }
  }

  // ---- copying ----

  /** Copies a length-prefixed array from src to dest. It agrees with reading the array and writing it
      again, except that a negative length is passed on as if it were zero, and that of an array cut
      short the part that is there has been copied when the error is found. What has been copied and what
      is left are together the input. */
  method CopyByteArray(width: nat, dest: ByteWriter, src: ByteReader) returns (r: Result<(), DecodeError>)
    modifies dest, src
    ensures var s := old(src.data);
      |s| < width ==> r == Err(if s == [] then Eof else UnexpectedEof) && dest.buf == old(dest.buf) && src.data == []
    ensures var s := old(src.data);
      |s| >= width ==>
        var length := ToSigned(width, Unsigned(s[..width]));
        && r == (if length <= |s| - width then Ok(()) else Err(Eof))
        && dest.buf + src.data == old(dest.buf) + s
        && |src.data| == if length <= 0 then |s| - width else if r.Ok? then |s| - width - length else 0
    ensures var s := old(src.data);
      ReadArray(width, s).Ok? ==>
        && r == Ok(())
        && dest.buf == old(dest.buf) + ArrayBytes(width, ReadArray(width, s).value.0)
        && src.data == ReadArray(width, s).value.1
  {
    hide EncodeInt;
    hide Unsigned;
    hide ToSigned;
    var length :- src.ReadInt(width);
    WriteUndoesRead(width, old(src.data));
    dest.WriteInt(width, length);
    ghost var s := old(src.data);
    assert s == s[..width] + s[width..];
    if length <= 0 {
      return Ok(());
    }
    if length > |src.data| {
      dest.Write(src.data);
      src.data := [];
      return Err(Eof);
    }
    dest.Write(src.data[..length]);
    src.data := src.data[length..];
    return Ok(());
  }

  // ---- the tables ----

  /** Fills a map from names to their numbers. */
  method InvertTable(table: seq<string>) returns (m: map<string, nat>)
    ensures forall name :: name in m <==> name in table
    ensures forall name <- m :: Code(table, name) == Some(m[name])
  {
    m := map[];
    for i := 0 to |table|
      invariant forall name :: name in m <==> name in table[..i]
      invariant forall name <- m :: Code(table[..i], name) == Some(m[name])
    {
      m := m[table[i] := i];
      assert table[..i + 1] == table[..i] + [table[i]];
      assert table[..i + 1][..i] == table[..i];
    }
    assert table[..|table|] == table;
  }

  ghost predicate Inverts(m: map<string, nat>, table: seq<string>) {
    forall name :: (name in m <==> name in table) && (name in m ==> Code(table, name) == Some(m[name]))
  }

  class BinConstants {
    const txnAccept: map<string, nat>
    const txnStatus: map<string, nat>
    const methods: map<string, nat>
    const contentEncoding: map<string, nat>

    ghost predicate Valid() {
      && Inverts(txnAccept, TXN_ACCEPT) && Inverts(txnStatus, TXN_STATUS)
      && Inverts(methods, METHOD) && Inverts(contentEncoding, CONTENT_ENCODING)
    }

    constructor ()
      ensures Valid()
    {
      var accept := InvertTable(TXN_ACCEPT);
      var status := InvertTable(TXN_STATUS);
      var ms := InvertTable(METHOD);
      var encoding := InvertTable(CONTENT_ENCODING);
      txnAccept, txnStatus, methods, contentEncoding := accept, status, ms, encoding;
    }

    /** The number written for a content encoding, with the fallback for names not in the table. */
    method ContentNumber(name: string) returns (code: nat)
      requires Valid()
      ensures code == ContentCode(name)
    {
      if name in contentEncoding {
        return contentEncoding[name];
      }
      Codes();
      return contentEncoding["bytes"];
    }
  }

  // ---- writers ----

  /** One more field after those written since start. */
  lemma Appended(start: Bytes, segments: seq<Bytes>, x: Bytes)
    ensures start + Flat(segments) + x == start + Flat(segments + [x])
  {
    FlatSnoc(segments, x);
  }

  lemma AppendedAll(start: Bytes, segments: seq<Bytes>, more: seq<Bytes>)
    ensures start + Flat(segments) + Flat(more) == start + Flat(segments + more)
  {
    FlatConcat(segments, more);
  }

  ghost function ParamsSegments(params: Bytes, contentEncoding: string): seq<Bytes> {
    [EncodeInt(1, 0), ArrayBytes(4, params), EncodeInt(1, ContentCode(contentEncoding))]
  }

  /** The segments of a request in the order the writer appends them. */
  lemma RequestSegmentsInOrder<P(!new)>(j: Json<P>, r: Request<P>)
    ensures var id := ShardSegments(r.shard) + [ArrayBytes(2, r.txnId)];
      RequestSegments(j, r).0 ==
      match Code(TXN_ACCEPT, r.txnAccept)
      case None => id
      case Some(accept) =>
        match Code(METHOD, r.httpMethod)
        case None => id + [EncodeInt(1, accept)]
        case Some(m) =>
          var upToUri := id + [EncodeInt(1, accept)] + [EncodeInt(1, m)] + [ArrayBytes(2, r.uri)];
          match j.marshal(r.params)
          case None => upToUri
          case Some(text) => upToUri + ParamsSegments(text, r.contentEncoding) + [RequestContent(r)]
  {
    hide Code;
    hide EncodeInt;
    hide ArrayBytes;
    hide GuardedArrayBytes;
  }

  lemma ResponseSegmentsInOrder<P(!new)>(j: Json<P>, r: Response<P>)
    ensures ResponseSegments(j, r).0 ==
      match Code(TXN_STATUS, r.txnStatus)
      case None => [] + [ArrayBytes(2, r.txnId)]
      case Some(status) =>
        var upToMessage := [] + [ArrayBytes(2, r.txnId)] + [EncodeInt(1, status)] + [EncodeInt(2, r.statusCode)]
          + [ArrayBytes(2, r.statusMessage)];
        match j.marshal(r.params)
        case None => upToMessage
        case Some(text) =>
          upToMessage + ParamsSegments(text, r.contentEncoding)
          + [GuardedArrayBytes(if r.contentEncoding != "" then r.content else [])]
  {
    hide Code;
    hide EncodeInt;
    hide ArrayBytes;
    hide GuardedArrayBytes;
  }

  lemma FlatEmpty(start: Bytes)
    ensures start + Flat([]) == start
  {
  }

  class BinProtocol<P(!new)> {
    const j: Json<P>
    const constants: BinConstants

    constructor (j: Json<P>, constants: BinConstants)
      ensures this.j == j && this.constants == constants
    {
      this.j, this.constants := j, constants;
    }

    /** Content after its length, unless the wrapped length is not positive. */
    method WriteGuarded(content: Bytes, w: ByteWriter) returns (n: int)
      modifies w
      ensures w.buf == old(w.buf) + GuardedArrayBytes(content) && n == WrapSigned(4, |content|)
    {
      n := WrapSigned(4, |content|);
      w.WriteInt(4, n);
      EncodeOfWrapped(4, |content|);
      if n > 0 {
        w.Write(content);
      }
      assert w.buf == old(w.buf) + GuardedArrayBytes(content);
    }

    /** The part requests and responses share: the parameters, and the number of the content encoding. */
    method WriteParams(params: Bytes, contentEncoding: string, w: ByteWriter)
      requires constants.Valid()
      modifies w
      ensures w.buf == old(w.buf) + Flat(ParamsSegments(params, contentEncoding))
    {
      ghost var start := w.buf;
      ghost var a, b, c := EncodeInt(1, 0), ArrayBytes(4, params), EncodeInt(1, ContentCode(contentEncoding));
      FlatEmpty(start);
      Appended(start, [], a);
      assert [] + [a] == [a] && [a] + [b] == [a, b] && [a, b] + [c] == [a, b, c];
      w.WriteInt(1, 0);
      Appended(start, [a], b);
      var n := w.WriteByteArray(4, params);
      Appended(start, [a, b], c);
      var code := constants.ContentNumber(contentEncoding);
      w.WriteInt(1, code);
    }

    method WriteShardRequest(shard: Option<ShardRequest>, w: ByteWriter)
      modifies w
      ensures w.buf == old(w.buf) + Flat(ShardSegments(shard))
    {
      match shard
      case None =>
        FlatEmpty(w.buf);
      case Some(s) =>
        ghost var start := w.buf;
        FlatEmpty(start);
        Appended(start, [], EncodeInt(2, s.partition));
        w.WriteInt(2, s.partition);
        Appended(start, [EncodeInt(2, s.partition)], ArrayBytes(2, s.key));
        var n := w.WriteByteArray(2, s.key);
        Appended(start, [EncodeInt(2, s.partition), ArrayBytes(2, s.key)], EncodeInt(8, s.revision));
        w.WriteInt(8, s.revision);
        ghost var a, b, c := EncodeInt(2, s.partition), ArrayBytes(2, s.key), EncodeInt(8, s.revision);
        assert [] + [a] == [a] && [a] + [b] == [a, b] && [a, b] + [c] == [a, b, c];
    }

    /** The bytes that reach the destination are those of the request up to the error, if any, and the
        result is the wrapped length of the content. The first field that cannot be written is reported. */
    method WriteRequest(r: Request<P>, w: ByteWriter) returns (result: Result<int, WriteError>)
      requires constants.Valid()
      modifies w
      ensures w.buf == old(w.buf) + Flat(RequestSegments(j, r).0)
      ensures result ==
        if r.txnAccept != "single" && r.txnAccept != "multi" then Err(BadTxnAccept)
        else if r.httpMethod != "GET" && r.httpMethod != "POST" && r.httpMethod != "PUT" && r.httpMethod != "DELETE"
        then Err(BadMethod)
        else if j.marshal(r.params).None? then Err(MarshalFailed)
        else Ok(WrapSigned(4, |r.content|))
      ensures match RequestSegments(j, r).1
        case None => result.Ok?
        case Some(e) => result == Err(e)
    {
      hide Flat;
      hide EncodeInt;
      hide ArrayBytes;
      hide GuardedArrayBytes;
      hide WrapSigned;
      hide Code;
      hide RequestSegments;
      hide ParamsSegments;
      RequestErrors(j, r);
      RequestSegmentsInOrder(j, r);
      ghost var start, segs := w.buf, ShardSegments(r.shard);
      WriteShardRequest(r.shard, w);
      Appended(start, segs, ArrayBytes(2, r.txnId));
      segs := segs + [ArrayBytes(2, r.txnId)];
      var n := w.WriteByteArray(2, r.txnId);
      if r.txnAccept !in constants.txnAccept {
        return Err(BadTxnAccept);
      }
      var accept := constants.txnAccept[r.txnAccept];
      Appended(start, segs, EncodeInt(1, accept));
      segs := segs + [EncodeInt(1, accept)];
      w.WriteInt(1, accept);
      if r.httpMethod !in constants.methods {
        return Err(BadMethod);
      }
      var m := constants.methods[r.httpMethod];
      Appended(start, segs, EncodeInt(1, m));
      segs := segs + [EncodeInt(1, m)];
      w.WriteInt(1, m);
      Appended(start, segs, ArrayBytes(2, r.uri));
      segs := segs + [ArrayBytes(2, r.uri)];
      n := w.WriteByteArray(2, r.uri);
      var marshalled := j.marshal(r.params);
      if marshalled.None? {
        return Err(MarshalFailed);
      }
      AppendedAll(start, segs, ParamsSegments(marshalled.value, r.contentEncoding));
      segs := segs + ParamsSegments(marshalled.value, r.contentEncoding);
      WriteParams(marshalled.value, r.contentEncoding, w);
      Appended(start, segs, RequestContent(r));
      segs := segs + [RequestContent(r)];
      if r.ContentIsSet() {
        n := w.WriteByteArray(4, r.content);
        result := Ok(WrapSigned(4, |r.content|));
      } else {
        var length := WriteGuarded(r.content, w);
        result := Ok(length);
      }
    }

    method WriteResponse(r: Response<P>, w: ByteWriter) returns (result: Result<int, WriteError>)
      requires constants.Valid()
      modifies w
      ensures w.buf == old(w.buf) + Flat(ResponseSegments(j, r).0)
      ensures result ==
        if r.txnStatus != "completed" && r.txnStatus != "continue" then Err(BadTxnStatus)
        else if j.marshal(r.params).None? then Err(MarshalFailed)
        else Ok(WrapSigned(4, if r.contentEncoding != "" then |r.content| else 0))
      ensures match ResponseSegments(j, r).1
        case None => result.Ok?
        case Some(e) => result == Err(e)
    {
      hide Flat;
      hide EncodeInt;
      hide ArrayBytes;
      hide GuardedArrayBytes;
      hide WrapSigned;
      hide Code;
      hide ResponseSegments;
      hide ParamsSegments;
      ResponseErrors(j, r);
      ResponseSegmentsInOrder(j, r);
      ghost var start, segs := w.buf, [];
      FlatEmpty(start);
      Appended(start, segs, ArrayBytes(2, r.txnId));
      segs := segs + [ArrayBytes(2, r.txnId)];
      var n := w.WriteByteArray(2, r.txnId);
      if r.txnStatus !in constants.txnStatus {
        return Err(BadTxnStatus);
      }
      var status := constants.txnStatus[r.txnStatus];
      Appended(start, segs, EncodeInt(1, status));
      segs := segs + [EncodeInt(1, status)];
      w.WriteInt(1, status);
      Appended(start, segs, EncodeInt(2, r.statusCode));
      segs := segs + [EncodeInt(2, r.statusCode)];
      w.WriteInt(2, r.statusCode);
      Appended(start, segs, ArrayBytes(2, r.statusMessage));
      segs := segs + [ArrayBytes(2, r.statusMessage)];
      n := w.WriteByteArray(2, r.statusMessage);
      var marshalled := j.marshal(r.params);
      if marshalled.None? {
        return Err(MarshalFailed);
      }
      AppendedAll(start, segs, ParamsSegments(marshalled.value, r.contentEncoding));
      segs := segs + ParamsSegments(marshalled.value, r.contentEncoding);
      WriteParams(marshalled.value, r.contentEncoding, w);
      var content: Bytes := [];
      if r.ContentIsSet() {
        content := r.content;
      }
      Appended(start, segs, GuardedArrayBytes(content));
      segs := segs + [GuardedArrayBytes(content)];
      var length := WriteGuarded(content, w);
      result := Ok(length);
    }

    /** Writes the hello after putting in the version and user agent; the map with them is handed back. */
    method WriteHello(hello: P, w: ByteWriter) returns (greeted: P, error: Option<WriteError>)
      modifies w
      ensures greeted == j.greet(hello)
      ensures w.buf == old(w.buf) + Flat(HelloSegments(j, hello).0)
      ensures error == if j.marshal(greeted).None? then Some(MarshalFailed) else None
    {
      ghost var start := w.buf;
      FlatEmpty(start);
      Appended(start, [], EncodeInt(1, 0));
      assert [] + [EncodeInt(1, 0)] == [EncodeInt(1, 0)];
      w.WriteInt(1, 0);
      greeted := j.greet(hello);
      var marshalled := j.marshal(greeted);
      if marshalled.None? {
        return greeted, Some(MarshalFailed);
      }
      Appended(start, [EncodeInt(1, 0)], ArrayBytes(2, marshalled.value));
      assert [EncodeInt(1, 0)] + [ArrayBytes(2, marshalled.value)]
          == [EncodeInt(1, 0), ArrayBytes(2, marshalled.value)];
      var n := w.WriteByteArray(2, marshalled.value);
      error := None;
    }
  }

  // ---- decoders ----

  class BinDecoder<P(!new)> {
    const j: Json<P>
    const reader: ByteReader

    constructor (j: Json<P>, reader: ByteReader)
      ensures this.j == j && this.reader == reader
    {
      this.j, this.reader := j, reader;
    }

    method DecodeHello() returns (r: Result<P, DecodeError>)
      modifies reader
      ensures Agrees(Packets.DecodeHello(j, old(reader.data)), r, reader.data)
    {
      var encoding :- reader.ReadInt(1);
      var hello :- reader.ReadByteArray(2);
      match j.unmarshal(hello)
      case Some(p) => return Ok(p);
      case None => return Err(BadJson);
    }

    method DecodeShardRequest() returns (r: Result<ShardRequest, DecodeError>)
      modifies reader
      ensures Agrees(Packets.DecodeShardRequest(old(reader.data)), r, reader.data)
    {
      var partition :- reader.ReadInt(2);
      var key :- reader.ReadByteArray(2);
      var revision :- reader.ReadInt(8);
      return Ok(ShardRequest(partition, key, revision));
    }

    method DecodeRequest() returns (r: Result<Request<P>, DecodeError>)
      modifies reader
      ensures Agrees(Packets.DecodeRequest(j, old(reader.data)), r, reader.data)
    {
      hide Wire.ReadInt;
      hide ReadArray;
      hide ReadCode;
      hide ReadRaw;
      var shard :- DecodeShardRequest();
      var txnId :- reader.ReadByteArray(2);
      var accept :- reader.ReadCode(TXN_ACCEPT, "TxnAccept");
      var httpMethod :- reader.ReadCode(METHOD, "Method");
      var uri :- reader.ReadByteArray(2);
      var encoding :- reader.ReadCode(PARAM_ENCODING, "paramEncoding");
      var text :- reader.ReadByteArray(4);
      var params :- ParseParams(j, encoding, text);
      var contentEncoding :- reader.ReadCode(CONTENT_ENCODING, "contentEncoding");
      var content :- reader.ReadRaw();
      if accept < 0 || httpMethod < 0 || contentEncoding < 0 {
        return Err(Panicked);
      }
      return Ok(Request(STREST_VERSION, "binary", Some(shard), txnId, TXN_ACCEPT[accept], METHOD[httpMethod], uri,
                        params, CONTENT_ENCODING[contentEncoding], content));
    }

    method DecodeResponse() returns (r: Result<Response<P>, DecodeError>)
      modifies reader
      ensures Agrees(Packets.DecodeResponse(j, old(reader.data)), r, reader.data)
    {
      hide Wire.ReadInt;
      hide ReadArray;
      hide ReadCode;
      hide ReadRaw;
      var txnId :- reader.ReadByteArray(2);
      var status :- reader.ReadCode(TXN_STATUS, "TxnStatus");
      var statusCode :- reader.ReadInt(2);
      var message :- reader.ReadByteArray(2);
      var encoding :- reader.ReadCode(PARAM_ENCODING, "paramEncoding");
      var text :- reader.ReadRaw();
      var params :- ParseParams(j, encoding, text);
      var contentEncoding :- reader.ReadCode(CONTENT_ENCODING, "contentEncoding");
      var content :- reader.ReadRaw();
      if status < 0 || contentEncoding < 0 {
        return Err(Panicked);
      }
      return Ok(Response(params, txnId, TXN_STATUS[status], statusCode, message,
                         CONTENT_ENCODING[contentEncoding], content));
    }

    /** The server's side of a connection: a hello, then requests until the first error. */
    method HandleConnection() returns (hello: Result<P, DecodeError>, requests: seq<Request<P>>, end: DecodeError)
      modifies reader
      ensures Progresses(RequestDecoder(j))
      ensures match Packets.DecodeHello(j, old(reader.data))
        case Err(e) => hello == Err(e) && requests == []
        case Ok((h, s)) => hello == Ok(h) && (requests, end) == DecodeAll(RequestDecoder(j), s)
    {
      hide Packets.DecodeRequest;
      hide Packets.DecodeHello;
      RequestDecoderLaws(j);
      requests, end := [], Eof;
      hello := DecodeHello();
      if hello.Err? {
        return;
      }
      ghost var start := reader.data;
      while true
        invariant DecodeAll(RequestDecoder(j), start).0 == requests + DecodeAll(RequestDecoder(j), reader.data).0
        invariant DecodeAll(RequestDecoder(j), start).1 == DecodeAll(RequestDecoder(j), reader.data).1
        decreases |reader.data|
      {
        ghost var before := reader.data;
        var r := DecodeRequest();
        if r.Err? {
          end := r.error;
          assert DecodeAll(RequestDecoder(j), before) == ([], end) && requests + [] == requests;
          return;
        }
        requests := requests + [r.value];
      }
    }
  }
}
