/** The bytes of the binary protocol field by field: byte order, codes, the order of the fields, when a
    writer reports an error, and what a decoder makes of every well-formed packet. */
module WireFormat {
  import opened Wrappers
  import opened Wire
  import opened Packets
  import opened PacketTheorems

  // ---- integers and codes ----

  /** Most significant byte first: byte i of the field carries the digit of its weight. */
  lemma {:induction false} BigEndian(width: nat, v: int, i: nat)
    requires i < width
    ensures EncodeInt(width, v)[i] == v / Pow256(width - 1 - i) % 256
  {
    if i < width - 1 {
      BigEndian(width - 1, v / 256, i);
      DivByPow(v, width - 2 - i);
    } else {
      assert Pow256(0) == 1;
    }
  }

  lemma DivByPow(v: int, n: nat)
    ensures v / 256 / Pow256(n) == v / Pow256(n + 1)
  {
    var p := Pow256(n);
    var q := v / 256 / p;
    assert Pow256(n + 1) == 256 * p;
    var r := 256 * (v / 256 % p) + v % 256;
    assert 0 <= r < 256 * p;
    assert v == (256 * p) * q + r by {
      assert v / 256 == p * q + v / 256 % p;
      assert 256 * (p * q) == (256 * p) * q;
    }
    UniqueDiv(v, 256 * p, q, r);
  }

  lemma UniqueDiv(v: int, m: int, q: int, r: int)
    requires m > 0 && v == m * q + r && 0 <= r < m
    ensures v / m == q
  {
    var d := v / m - q;
    assert m * d == r - v % m by {
      assert v == m * (v / m) + v % m;
      assert m * d == m * (v / m) - m * q;
    }
    assert d >= 1 ==> m * d >= m;
    assert d <= -1 ==> m * d <= -m;
  }

  /** The number of each name. */
  lemma Codes()
    ensures Code(TXN_ACCEPT, "single") == Some(0) && Code(TXN_ACCEPT, "multi") == Some(1)
    ensures Code(TXN_STATUS, "completed") == Some(0) && Code(TXN_STATUS, "continue") == Some(1)
    ensures Code(METHOD, "GET") == Some(0) && Code(METHOD, "POST") == Some(1)
    ensures Code(METHOD, "PUT") == Some(2) && Code(METHOD, "DELETE") == Some(3)
    ensures Code(CONTENT_ENCODING, "string") == Some(0) && Code(CONTENT_ENCODING, "bytes") == Some(1)
    ensures Code(CONTENT_ENCODING, "json") == Some(2) && Code(CONTENT_ENCODING, "msqpack") == Some(3)
    ensures |TXN_ACCEPT| == 2 && |TXN_STATUS| == 2 && |METHOD| == 4 && |PARAM_ENCODING| == 2
    ensures |CONTENT_ENCODING| == 4
  {
    DifferentNames();
    CodeAt(TXN_ACCEPT, 0);
    CodeAt(TXN_ACCEPT, 1);
    CodeAt(TXN_STATUS, 0);
    CodeAt(TXN_STATUS, 1);
    CodeAt(METHOD, 0);
    CodeAt(METHOD, 1);
    CodeAt(METHOD, 2);
    CodeAt(METHOD, 3);
    CodeAt(CONTENT_ENCODING, 0);
    CodeAt(CONTENT_ENCODING, 1);
    CodeAt(CONTENT_ENCODING, 2);
    CodeAt(CONTENT_ENCODING, 3);
  }

  ghost predicate NoRepeats(table: seq<string>) {
    forall i, j :: 0 <= i < j < |table| ==> table[i] != table[j]
  }

  lemma DifferentNames()
    ensures NoRepeats(TXN_ACCEPT) && NoRepeats(TXN_STATUS) && NoRepeats(METHOD) && NoRepeats(CONTENT_ENCODING)
  {
    assert TXN_ACCEPT[0][0] == 's' && TXN_ACCEPT[1][0] == 'm';
    assert TXN_STATUS[0][2] == 'm' && TXN_STATUS[1][2] == 'n';
    assert METHOD[0][0] == 'G' && METHOD[1][1] == 'O' && METHOD[2][1] == 'U' && METHOD[3][0] == 'D';
    assert METHOD[1][0] == 'P' && METHOD[2][0] == 'P';
    assert CONTENT_ENCODING[0][0] == 's' && CONTENT_ENCODING[1][0] == 'b';
    assert CONTENT_ENCODING[2][0] == 'j' && CONTENT_ENCODING[3][0] == 'm';
  }

  lemma CodeAt(table: seq<string>, i: nat)
    requires NoRepeats(table) && i < |table|
    ensures Code(table, table[i]) == Some(i)
  {
    assert table[i] in table;
  }

  /** A code byte is its value below 128, refused if the table has no such entry, and negative from 128 on. */
  lemma ReadCodeByte(table: seq<string>, field: string, b: byte, rest: Bytes)
    ensures ReadCode(table, field, [b] + rest) ==
            if b >= 128 then (if |table| <= b as int - 256 then Err(TooLarge(field)) else Ok((b as int - 256, rest)))
            else if b >= |table| then Err(TooLarge(field))
            else Ok((b as int, rest))
  {
    assert ([b] + rest)[..1] == [b] && ([b] + rest)[1..] == rest;
    assert [b][..0] == [] && Pow256(0) == 1 && Pow256(1) == 256;
    assert Unsigned([b]) == b as int;
  }

  /** Which error a field gives: the end of the input, clean at the boundary of a read, or a negative length. */
  lemma ReadErrors(width: nat, s: Bytes)
    ensures |s| < width ==> ReadInt(width, s) == Err(if s == [] then Eof else UnexpectedEof)
    ensures |s| < width ==> ReadArray(width, s) == Err(if s == [] then Eof else UnexpectedEof)
    ensures |s| >= width ==>
      var length := ToSigned(width, Unsigned(s[..width]));
      && ReadInt(width, s) == Ok((length, s[width..]))
      && (length < 0 ==> ReadArray(width, s) == Err(NegativeLength))
      && (length > |s| - width ==> ReadArray(width, s) == Err(if |s| == width then Eof else UnexpectedEof))
      && (width == 4 ==> ReadRaw(s) == if length < 0 then Err(Panicked) else ReadArray(4, s))
  {
  }

  // ---- when writing fails ----

  /** A request is written whole exactly if its transaction mode and method are listed and its parameters
      marshal; the first of these that does not hold is reported. */
  lemma RequestErrors<P(!new)>(j: Json<P>, r: Request<P>)
    ensures RequestSegments(j, r).1 ==
            if r.txnAccept != "single" && r.txnAccept != "multi" then Some(BadTxnAccept)
            else if r.httpMethod != "GET" && r.httpMethod != "POST" && r.httpMethod != "PUT" && r.httpMethod != "DELETE"
            then Some(BadMethod)
            else if j.marshal(r.params).None? then Some(MarshalFailed)
            else None
    ensures RequestSegments(j, r).1.None? <==> RequestWritable(j, r)
  {
    hide Code;
    Codes();
    NotListed(TXN_ACCEPT, r.txnAccept);
    NotListed(METHOD, r.httpMethod);
  }

  lemma ResponseErrors<P(!new)>(j: Json<P>, r: Response<P>)
    ensures ResponseSegments(j, r).1 ==
            if r.txnStatus != "completed" && r.txnStatus != "continue" then Some(BadTxnStatus)
            else if j.marshal(r.params).None? then Some(MarshalFailed)
            else None
    ensures ResponseSegments(j, r).1.None? <==> ResponseWritable(j, r)
  {
    hide Code;
    Codes();
    NotListed(TXN_STATUS, r.txnStatus);
  }

  lemma HelloErrors<P(!new)>(j: Json<P>, hello: P)
    ensures HelloSegments(j, hello).1 == if j.marshal(j.greet(hello)).None? then Some(MarshalFailed) else None
  {
  }

  lemma NotListed(table: seq<string>, name: string)
    ensures Code(table, name).None? <==> forall i :: 0 <= i < |table| ==> table[i] != name
  {
  }

  // ---- which bytes are written ----

  lemma ShardFields(shard: Option<ShardRequest>)
    ensures Flat(ShardSegments(shard)) ==
            if shard.None? then []
            else EncodeInt(2, shard.value.partition) + (EncodeInt(2, |shard.value.key|) + shard.value.key)
                 + EncodeInt(8, shard.value.revision)
  {
    hide EncodeInt;
    if shard.Some? {
      var a, b := EncodeInt(2, shard.value.partition), ArrayBytes(2, shard.value.key);
      FlatRow([], a, b, EncodeInt(8, shard.value.revision));
      assert [] + ShardSegments(shard) == ShardSegments(shard) && Flat([]) == [];
    }
  }

  lemma FlatRow(head: seq<Bytes>, a: Bytes, b: Bytes, c: Bytes)
    ensures Flat(head + [a, b, c]) == Flat(head) + a + b + c
  {
    FlatSnoc(head, a);
    FlatSnoc(head + [a], b);
    FlatSnoc(head + [a] + [b], c);
    assert head + [a, b, c] == head + [a] + [b] + [c];
  }

  lemma OneByte(b: byte)
    ensures EncodeInt(1, b) == [b]
  {
    assert EncodeInt(0, b / 256) == [];
  }

  lemma AcceptByte(name: string)
    requires name in TXN_ACCEPT
    ensures EncodeInt(1, Code(TXN_ACCEPT, name).value) == [if name == "single" then 0 else 1]
  {
    hide Code;
    hide EncodeInt;
    Codes();
    assert name == TXN_ACCEPT[0] || name == TXN_ACCEPT[1];
    OneByte(0);
    OneByte(1);
  }

  lemma StatusByte(name: string)
    requires name in TXN_STATUS
    ensures EncodeInt(1, Code(TXN_STATUS, name).value) == [if name == "completed" then 0 else 1]
  {
    hide Code;
    hide EncodeInt;
    Codes();
    assert name == TXN_STATUS[0] || name == TXN_STATUS[1];
    OneByte(0);
    OneByte(1);
  }

  lemma MethodByte(name: string)
    requires name in METHOD
    ensures EncodeInt(1, Code(METHOD, name).value) ==
      [if name == "GET" then 0 else if name == "POST" then 1 else if name == "PUT" then 2 else 3]
  {
    hide Code;
    hide EncodeInt;
    Codes();
    assert name == METHOD[0] || name == METHOD[1] || name == METHOD[2] || name == METHOD[3];
    OneByte(0);
    OneByte(1);
    OneByte(2);
    OneByte(3);
  }

  /** An unset or unknown content encoding is written as bytes. */
  lemma ContentByte(name: string)
    ensures EncodeInt(1, ContentCode(name)) ==
            [if name == "string" then 0 else if name == "json" then 2 else if name == "msqpack" then 3 else 1]
  {
    hide Code;
    hide EncodeInt;
    Codes();
    if name in CONTENT_ENCODING {
      assert exists i :: 0 <= i < 4 && name == CONTENT_ENCODING[i];
    }
    OneByte(0);
    OneByte(1);
    OneByte(2);
    OneByte(3);
  }

  /** The fields of a request in the order they are written, each with its width. */
  lemma RequestFields<P(!new)>(j: Json<P>, r: Request<P>)
    requires RequestWritable(j, r)
    ensures Flat(RequestSegments(j, r).0) ==
            Flat(ShardSegments(r.shard))
            + (EncodeInt(2, |r.txnId|) + r.txnId)
            + [if r.txnAccept == "single" then 0 else 1]
            + [if r.httpMethod == "GET" then 0 else if r.httpMethod == "POST" then 1
               else if r.httpMethod == "PUT" then 2 else 3]
            + (EncodeInt(2, |r.uri|) + r.uri)
            + [0]
            + (EncodeInt(4, |j.marshal(r.params).value|) + j.marshal(r.params).value)
            + [if r.contentEncoding == "string" then 0 else if r.contentEncoding == "json" then 2
               else if r.contentEncoding == "msqpack" then 3 else 1]
            + (EncodeInt(4, |r.content|)
               + if r.contentEncoding == "" && WrapSigned(4, |r.content|) <= 0 then [] else r.content)
  {
    hide Code;
    hide EncodeInt;
    hide WrapSigned;
    hide ContentCode;
    hide Flat;
    var head, params := ShardSegments(r.shard), j.marshal(r.params).value;
    var a, b := ArrayBytes(2, r.txnId), EncodeInt(1, Code(TXN_ACCEPT, r.txnAccept).value);
    var c, d := EncodeInt(1, Code(METHOD, r.httpMethod).value), ArrayBytes(2, r.uri);
    var e, f, g := EncodeInt(1, 0), ArrayBytes(4, params), EncodeInt(1, ContentCode(r.contentEncoding));
    var h := RequestContent(r);
    FlatRow(head, a, b, c);
    FlatRow(head + [a, b, c], d, e, f);
    FlatSnoc(head + [a, b, c] + [d, e, f], g);
    FlatSnoc(head + [a, b, c] + [d, e, f] + [g], h);
    assert RequestSegments(j, r).0 == head + [a, b, c] + [d, e, f] + [g] + [h];
    AcceptByte(r.txnAccept);
    MethodByte(r.httpMethod);
    ContentByte(r.contentEncoding);
    OneByte(0);
  }

  /** What has been written when a request is refused: the fields before the one at fault. */
  lemma RefusedRequestFields<P(!new)>(j: Json<P>, r: Request<P>)
    requires !RequestWritable(j, r)
    ensures var id := Flat(ShardSegments(r.shard)) + (EncodeInt(2, |r.txnId|) + r.txnId);
            var accept := [if r.txnAccept == "single" then 0 else 1];
            var m := [if r.httpMethod == "GET" then 0 else if r.httpMethod == "POST" then 1
                      else if r.httpMethod == "PUT" then 2 else 3];
            Flat(RequestSegments(j, r).0) ==
            if r.txnAccept !in TXN_ACCEPT then id
            else if r.httpMethod !in METHOD then id + accept
            else id + accept + m + (EncodeInt(2, |r.uri|) + r.uri)
  {
    hide Code;
    hide EncodeInt;
    hide Flat;
    var head, a := ShardSegments(r.shard), ArrayBytes(2, r.txnId);
    FlatSnoc(head, a);
    if r.txnAccept in TXN_ACCEPT {
      AcceptByte(r.txnAccept);
      var b := EncodeInt(1, Code(TXN_ACCEPT, r.txnAccept).value);
      FlatSnoc(head + [a], b);
      if r.httpMethod in METHOD {
        MethodByte(r.httpMethod);
        var c, d := EncodeInt(1, Code(METHOD, r.httpMethod).value), ArrayBytes(2, r.uri);
        FlatSnoc(head + [a] + [b], c);
        FlatSnoc(head + [a] + [b] + [c], d);
        assert RequestSegments(j, r).0 == head + [a] + [b] + [c] + [d];
      }
    }
  }

  /** The fields of a response: its content is written only if the encoding is set. */
  lemma ResponseFields<P(!new)>(j: Json<P>, r: Response<P>)
    requires ResponseWritable(j, r)
    ensures var content := if r.contentEncoding != "" then r.content else [];
            Flat(ResponseSegments(j, r).0) ==
            (EncodeInt(2, |r.txnId|) + r.txnId)
            + [if r.txnStatus == "completed" then 0 else 1]
            + EncodeInt(2, r.statusCode)
            + (EncodeInt(2, |r.statusMessage|) + r.statusMessage)
            + [0]
            + (EncodeInt(4, |j.marshal(r.params).value|) + j.marshal(r.params).value)
            + [if r.contentEncoding == "string" then 0 else if r.contentEncoding == "json" then 2
               else if r.contentEncoding == "msqpack" then 3 else 1]
            + (EncodeInt(4, |content|) + if WrapSigned(4, |content|) <= 0 then [] else content)
  {
    hide Code;
    hide EncodeInt;
    hide WrapSigned;
    hide ContentCode;
    hide Flat;
    var params := j.marshal(r.params).value;
    var a, b := ArrayBytes(2, r.txnId), EncodeInt(1, Code(TXN_STATUS, r.txnStatus).value);
    var c, d := EncodeInt(2, r.statusCode), ArrayBytes(2, r.statusMessage);
    var e, f, g := EncodeInt(1, 0), ArrayBytes(4, params), EncodeInt(1, ContentCode(r.contentEncoding));
    var h := GuardedArrayBytes(if r.ContentIsSet() then r.content else []);
    FlatOne(a);
    FlatRow([a], b, c, d);
    FlatRow([a] + [b, c, d], e, f, g);
    FlatSnoc([a] + [b, c, d] + [e, f, g], h);
    assert ResponseSegments(j, r).0 == [a] + [b, c, d] + [e, f, g] + [h];
    StatusByte(r.txnStatus);
    ContentByte(r.contentEncoding);
    OneByte(0);
  }

  lemma RefusedResponseFields<P(!new)>(j: Json<P>, r: Response<P>)
    requires !ResponseWritable(j, r)
    ensures var id := EncodeInt(2, |r.txnId|) + r.txnId;
            Flat(ResponseSegments(j, r).0) ==
            if r.txnStatus !in TXN_STATUS then id
            else id + [if r.txnStatus == "completed" then 0 else 1] + EncodeInt(2, r.statusCode)
                 + (EncodeInt(2, |r.statusMessage|) + r.statusMessage)
  {
    hide Code;
    hide EncodeInt;
    hide Flat;
    var a := ArrayBytes(2, r.txnId);
    FlatOne(a);
    if r.txnStatus in TXN_STATUS {
      StatusByte(r.txnStatus);
      var b, c := EncodeInt(1, Code(TXN_STATUS, r.txnStatus).value), EncodeInt(2, r.statusCode);
      var d := ArrayBytes(2, r.statusMessage);
      FlatRow([a], b, c, d);
      assert ResponseSegments(j, r).0 == [a] + [b, c, d];
    }
  }

  lemma FlatOne(a: Bytes)
    ensures Flat([a]) == a
  {
    FlatSnoc([], a);
    assert [] + [a] == [a];
  }

  lemma HelloFields<P(!new)>(j: Json<P>, hello: P)
    ensures Flat(HelloSegments(j, hello).0) ==
            match j.marshal(j.greet(hello))
            case Some(text) => [0] + (EncodeInt(2, |text|) + text)
            case None => [0]
  {
    hide EncodeInt;
    OneByte(0);
    FlatSnoc([], EncodeInt(1, 0));
    assert [] + [EncodeInt(1, 0)] == [EncodeInt(1, 0)];
    match j.marshal(j.greet(hello))
    case None =>
    case Some(text) =>
      FlatSnoc([EncodeInt(1, 0)], ArrayBytes(2, text));
      assert [EncodeInt(1, 0)] + [ArrayBytes(2, text)] == HelloSegments(j, hello).0;
  }

  // ---- which bytes are read, and as what ----

  /** A request read from its fields, whatever their values: its errors in the order they are found, an
      empty text as the empty parameters, and the names of the codes. */
  lemma RequestFromFields<P(!new)>(j: Json<P>, shard: ShardRequest, txnId: Bytes, accept: byte, m: byte, uri: Bytes,
                                   encoding: byte, text: Bytes, contentEncoding: byte, content: Bytes, rest: Bytes)
    requires FitsSigned(2, shard.partition) && FitsSigned(2, |shard.key|) && FitsSigned(8, shard.revision)
    requires FitsSigned(2, |txnId|) && FitsSigned(2, |uri|) && FitsSigned(4, |text|) && FitsSigned(4, |content|)
    ensures DecodeRequest(j, RequestFrame(shard, txnId, accept, m, uri, encoding, text, contentEncoding, content)
                             + rest) ==
            if 2 <= accept < 128 then Err(TooLarge("TxnAccept"))
            else if 4 <= m < 128 then Err(TooLarge("Method"))
            else if 2 <= encoding < 128 then Err(TooLarge("paramEncoding"))
            else if text != [] && encoding != 0 then Err(UnsupportedParamEncoding)
            else if text != [] && j.unmarshal(text).None? then Err(BadJson)
            else if 4 <= contentEncoding < 128 then Err(TooLarge("contentEncoding"))
            else if accept >= 128 || m >= 128 || contentEncoding >= 128 then Err(Panicked)
            else
              Ok((Request(2.0, "binary", Some(shard), txnId, ["single", "multi"][accept],
                          ["GET", "POST", "PUT", "DELETE"][m], uri,
                          if text == [] then j.empty else j.unmarshal(text).value,
                          ["string", "bytes", "json", "msqpack"][contentEncoding], content), rest))
  {
    hide ReadInt;
    hide ReadArray;
    hide ReadRaw;
    hide ReadCode;
    hide FitsSigned;
    hide EncodeInt;
    hide ArrayBytes;
    hide DecodeShardRequest;
    var s8 := ArrayBytes(4, content) + rest;
    var s7 := [contentEncoding] + s8;
    var s6 := ArrayBytes(4, text) + s7;
    var s5 := [encoding] + s6;
    var s4 := ArrayBytes(2, uri) + s5;
    var s3 := [m] + s4;
    var s2 := [accept] + s3;
    var s1 := ArrayBytes(2, txnId) + s2;
    var frame := RequestFrame(shard, txnId, accept, m, uri, encoding, text, contentEncoding, content);
    assert frame + rest
        == EncodeInt(2, shard.partition) + (ArrayBytes(2, shard.key) + (EncodeInt(8, shard.revision) + s1));
    ShardFromFields(shard, s1);
    ArrayRoundTrip(2, txnId, s2);
    ReadCodeByte(TXN_ACCEPT, "TxnAccept", accept, s3);
    ReadCodeByte(METHOD, "Method", m, s4);
    ArrayRoundTrip(2, uri, s5);
    ReadCodeByte(PARAM_ENCODING, "paramEncoding", encoding, s6);
    ArrayRoundTrip(4, text, s7);
    ReadCodeByte(CONTENT_ENCODING, "contentEncoding", contentEncoding, s8);
    RawRoundTrip(content, rest);
  }

  ghost function RequestFrame(shard: ShardRequest, txnId: Bytes, accept: byte, m: byte, uri: Bytes, encoding: byte,
                              text: Bytes, contentEncoding: byte, content: Bytes): Bytes {
    EncodeInt(2, shard.partition) + ArrayBytes(2, shard.key) + EncodeInt(8, shard.revision) + ArrayBytes(2, txnId)
    + [accept] + [m] + ArrayBytes(2, uri) + [encoding] + ArrayBytes(4, text) + [contentEncoding]
    + ArrayBytes(4, content)
  }

  lemma ShardFromFields(shard: ShardRequest, rest: Bytes)
    requires FitsSigned(2, shard.partition) && FitsSigned(2, |shard.key|) && FitsSigned(8, shard.revision)
    ensures DecodeShardRequest(EncodeInt(2, shard.partition)
                               + (ArrayBytes(2, shard.key) + (EncodeInt(8, shard.revision) + rest)))
         == Ok((shard, rest))
  {
    hide EncodeInt;
    hide ArrayBytes;
    ShardRoundTrip(shard, rest);
    CatThree(EncodeInt(2, shard.partition), ArrayBytes(2, shard.key), EncodeInt(8, shard.revision), rest);
  }

  /** And a request is read from nothing else. */
  lemma RequestHasFields<P(!new)>(j: Json<P>, s: Bytes)
    returns (accept: byte, m: byte, encoding: byte, text: Bytes, contentEncoding: byte)
    requires DecodeRequest(j, s).Ok?
    ensures var (r, rest) := DecodeRequest(j, s).value;
      && r.shard.Some? && ShardInDomain(r.shard.value)
      && FitsSigned(2, |r.txnId|) && FitsSigned(2, |r.uri|) && FitsSigned(4, |text|) && FitsSigned(4, |r.content|)
      && s == RequestFrame(r.shard.value, r.txnId, accept, m, r.uri, encoding, text, contentEncoding, r.content) + rest
  {
    hide ReadInt;
    hide ReadArray;
    hide ReadRaw;
    hide ReadCode;
    hide FitsSigned;
    hide EncodeInt;
    hide ArrayBytes;
    hide DecodeShardRequest;
    hide ParseParams;
    var s1 := DecodeShardRequest(s).value.1;
    var s2 := ReadArray(2, s1).value.1;
    var s3 := ReadCode(TXN_ACCEPT, "TxnAccept", s2).value.1;
    var s4 := ReadCode(METHOD, "Method", s3).value.1;
    var s5 := ReadArray(2, s4).value.1;
    var s6 := ReadCode(PARAM_ENCODING, "paramEncoding", s5).value.1;
    var s7 := ReadArray(4, s6).value.1;
    var s8 := ReadCode(CONTENT_ENCODING, "contentEncoding", s7).value.1;
    ShardRead(s);
    ArrayRead(2, s1);
    accept := CodeRead(TXN_ACCEPT, "TxnAccept", s2);
    m := CodeRead(METHOD, "Method", s3);
    ArrayRead(2, s4);
    encoding := CodeRead(PARAM_ENCODING, "paramEncoding", s5);
    text := ReadArray(4, s6).value.0;
    ArrayRead(4, s6);
    contentEncoding := CodeRead(CONTENT_ENCODING, "contentEncoding", s7);
    RawRead(s8);
    var (r, rest) := DecodeRequest(j, s).value;
    var frame := RequestFrame(r.shard.value, r.txnId, accept, m, r.uri, encoding, text, contentEncoding, r.content);
    assert frame + rest == EncodeInt(2, r.shard.value.partition)
        + (ArrayBytes(2, r.shard.value.key) + (EncodeInt(8, r.shard.value.revision) + s1));
  }

  lemma ArrayRead(width: nat, s: Bytes)
    requires ReadArray(width, s).Ok?
    ensures var (b, t) := ReadArray(width, s).value; FitsSigned(width, |b|) && s == ArrayBytes(width, b) + t
  {
    WriteUndoesRead(width, s);
    ReadIntSize(width, s);
  }

  lemma RawRead(s: Bytes)
    requires ReadRaw(s).Ok?
    ensures var (b, t) := ReadRaw(s).value; FitsSigned(4, |b|) && s == ArrayBytes(4, b) + t
  {
    WriteUndoesRead(4, s);
    ReadIntSize(4, s);
  }

  lemma CodeRead(table: seq<string>, field: string, s: Bytes) returns (b: byte)
    requires ReadCode(table, field, s).Ok?
    ensures s == [b] + ReadCode(table, field, s).value.1
  {
    b := s[0];
    assert s == [b] + s[1..];
    ReadCodeByte(table, field, b, s[1..]);
  }

  lemma ShardRead(s: Bytes)
    requires DecodeShardRequest(s).Ok?
    ensures var (shard, t) := DecodeShardRequest(s).value;
      && ShardInDomain(shard)
      && s == EncodeInt(2, shard.partition) + (ArrayBytes(2, shard.key) + (EncodeInt(8, shard.revision) + t))
  {
    hide ReadInt;
    hide ReadArray;
    hide FitsSigned;
    hide EncodeInt;
    hide ArrayBytes;
    var s1 := ReadInt(2, s).value.1;
    var s2 := ReadArray(2, s1).value.1;
    WriteUndoesRead(2, s);
    ReadIntSize(2, s);
    ArrayRead(2, s1);
    WriteUndoesRead(8, s2);
    ReadIntSize(8, s2);
  }

  ghost function ResponseFrame(txnId: Bytes, status: byte, statusCode: int, message: Bytes, encoding: byte, text: Bytes,
                               contentEncoding: byte, content: Bytes): Bytes {
    ArrayBytes(2, txnId) + [status] + EncodeInt(2, statusCode) + ArrayBytes(2, message) + [encoding]
    + ArrayBytes(4, text) + [contentEncoding] + ArrayBytes(4, content)
  }

  /** The same for responses. */
  lemma ResponseFromFields<P(!new)>(j: Json<P>, txnId: Bytes, status: byte, statusCode: int, message: Bytes,
                                    encoding: byte, text: Bytes, contentEncoding: byte, content: Bytes, rest: Bytes)
    requires FitsSigned(2, |txnId|) && FitsSigned(2, statusCode) && FitsSigned(2, |message|)
    requires FitsSigned(4, |text|) && FitsSigned(4, |content|)
    ensures DecodeResponse(j, ResponseFrame(txnId, status, statusCode, message, encoding, text, contentEncoding,
                                            content) + rest) ==
            if 2 <= status < 128 then Err(TooLarge("TxnStatus"))
            else if 2 <= encoding < 128 then Err(TooLarge("paramEncoding"))
            else if text != [] && encoding != 0 then Err(UnsupportedParamEncoding)
            else if text != [] && j.unmarshal(text).None? then Err(BadJson)
            else if 4 <= contentEncoding < 128 then Err(TooLarge("contentEncoding"))
            else if status >= 128 || contentEncoding >= 128 then Err(Panicked)
            else
              Ok((Response(if text == [] then j.empty else j.unmarshal(text).value, txnId,
                           ["completed", "continue"][status], statusCode, message,
                           ["string", "bytes", "json", "msqpack"][contentEncoding], content), rest))
  {
    hide ReadInt;
    hide ReadArray;
    hide ReadRaw;
    hide ReadCode;
    hide FitsSigned;
    hide EncodeInt;
    hide ArrayBytes;
    var s7 := ArrayBytes(4, content) + rest;
    var s6 := [contentEncoding] + s7;
    var s5 := ArrayBytes(4, text) + s6;
    var s4 := [encoding] + s5;
    var s3 := ArrayBytes(2, message) + s4;
    var s2 := EncodeInt(2, statusCode) + s3;
    var s1 := [status] + s2;
    var frame := ResponseFrame(txnId, status, statusCode, message, encoding, text, contentEncoding, content);
    assert frame + rest == ArrayBytes(2, txnId) + s1;
    ArrayRoundTrip(2, txnId, s1);
    ReadCodeByte(TXN_STATUS, "TxnStatus", status, s2);
    IntRoundTrip(2, statusCode, s3);
    ArrayRoundTrip(2, message, s4);
    ReadCodeByte(PARAM_ENCODING, "paramEncoding", encoding, s5);
    RawRoundTrip(text, s6);
    ReadCodeByte(CONTENT_ENCODING, "contentEncoding", contentEncoding, s7);
    RawRoundTrip(content, rest);
  }

  lemma ResponseHasFields<P(!new)>(j: Json<P>, s: Bytes)
    returns (status: byte, encoding: byte, text: Bytes, contentEncoding: byte)
    requires DecodeResponse(j, s).Ok?
    ensures var (r, rest) := DecodeResponse(j, s).value;
      && FitsSigned(2, |r.txnId|) && FitsSigned(2, r.statusCode) && FitsSigned(2, |r.statusMessage|)
      && FitsSigned(4, |text|) && FitsSigned(4, |r.content|)
      && s == ResponseFrame(r.txnId, status, r.statusCode, r.statusMessage, encoding, text, contentEncoding, r.content)
              + rest
  {
    hide ReadInt;
    hide ReadArray;
    hide ReadRaw;
    hide ReadCode;
    hide FitsSigned;
    hide EncodeInt;
    hide ArrayBytes;
    hide ParseParams;
    var s1 := ReadArray(2, s).value.1;
    var s2 := ReadCode(TXN_STATUS, "TxnStatus", s1).value.1;
    var s3 := ReadInt(2, s2).value.1;
    var s4 := ReadArray(2, s3).value.1;
    var s5 := ReadCode(PARAM_ENCODING, "paramEncoding", s4).value.1;
    var s6 := ReadRaw(s5).value.1;
    var s7 := ReadCode(CONTENT_ENCODING, "contentEncoding", s6).value.1;
    ArrayRead(2, s);
    status := CodeRead(TXN_STATUS, "TxnStatus", s1);
    WriteUndoesRead(2, s2);
    ReadIntSize(2, s2);
    ArrayRead(2, s3);
    encoding := CodeRead(PARAM_ENCODING, "paramEncoding", s4);
    text := ReadRaw(s5).value.0;
    RawRead(s5);
    contentEncoding := CodeRead(CONTENT_ENCODING, "contentEncoding", s6);
    RawRead(s7);
    var (r, rest) := DecodeResponse(j, s).value;
    assert ResponseFrame(r.txnId, status, r.statusCode, r.statusMessage, encoding, text, contentEncoding, r.content)
           + rest == ArrayBytes(2, r.txnId) + s1;
  }

  /** A hello is an ignored byte and a text, read whatever the byte says. */
  lemma HelloFromFields<P(!new)>(j: Json<P>, encoding: byte, text: Bytes, rest: Bytes)
    requires FitsSigned(2, |text|)
    ensures DecodeHello(j, [encoding] + ArrayBytes(2, text) + rest) ==
            match j.unmarshal(text) case Some(hello) => Ok((hello, rest)) case None => Err(BadJson)
  {
    var s := [encoding] + (ArrayBytes(2, text) + rest);
    assert [encoding] + ArrayBytes(2, text) + rest == s;
    assert s[1..] == ArrayBytes(2, text) + rest;
    ArrayRoundTrip(2, text, rest);
  }
}
