/** Round trips, framing and prefix-freeness of the binary packets. */
module PacketTheorems {
  import opened Wrappers
  import opened Wire
  import opened Packets

  // ---- sizes of what the primitives read ----

  lemma {:induction false} UnsignedBound(s: Bytes)
    ensures Unsigned(s) < Pow256(|s|)
  {
    if s != [] {
      UnsignedBound(s[..|s| - 1]);
    }
  }

  lemma ReadIntSize(width: nat, s: Bytes)
    requires ReadInt(width, s).Ok?
    ensures |ReadInt(width, s).value.1| == |s| - width
    ensures FitsSigned(width, ReadInt(width, s).value.0)
  {
    UnsignedBound(s[..width]);
  }

  lemma ReadRawSize(s: Bytes)
    requires ReadRaw(s).Ok?
    ensures var (b, t) := ReadRaw(s).value; FitsSigned(4, |b|) && |t| == |s| - 4 - |b|
  {
    ReadIntSize(4, s);
  }

  lemma ReadArraySize(width: nat, s: Bytes)
    requires ReadArray(width, s).Ok?
    ensures var (b, t) := ReadArray(width, s).value; FitsSigned(width, |b|) && |t| == |s| - width - |b|
  {
    ReadIntSize(width, s);
  }

  lemma ReadCodeSize(table: seq<string>, field: string, s: Bytes)
    requires ReadCode(table, field, s).Ok?
    ensures |ReadCode(table, field, s).value.1| == |s| - 1
  {
    ReadIntSize(1, s);
  }

  lemma ArraySize(width: nat, b: Bytes)
    ensures |ArrayBytes(width, b)| == width + |b|
    ensures width == 4 && FitsSigned(4, |b|) ==> |GuardedArrayBytes(b)| == 4 + |b|
  {
    WrapSignedExact(4, |b|);
  }

  lemma CodeFits(code: nat)
    requires code < 128
    ensures FitsSigned(1, code)
  {
    assert Pow256(1) == 256;
  }

  lemma CodeRoundTrip(table: seq<string>, field: string, code: nat, rest: Bytes)
    requires code < |table| < 128
    ensures ReadCode(table, field, EncodeInt(1, code) + rest) == Ok((code, rest))
  {
    CodeFits(code);
    IntRoundTrip(1, code, rest);
  }

  /** Array and raw reading of a length-prefixed field: the field and what follows when the length
      fits, otherwise nothing or something else. */
  lemma RawRoundTrip(b: Bytes, rest: Bytes)
    ensures FitsSigned(4, |b|) ==> ReadRaw(ArrayBytes(4, b) + rest) == Ok((b, rest))
    ensures FitsSigned(4, |b|) ==> ReadRaw(GuardedArrayBytes(b) + rest) == Ok((b, rest))
  {
    assert ArrayBytes(4, b) + rest == EncodeInt(4, |b|) + (b + rest);
    IntRoundTrip(4, |b|, b + rest);
    if FitsSigned(4, |b|) {
      assert (b + rest)[..|b|] == b && (b + rest)[|b|..] == rest;
      assert GuardedArrayBytes(b) == ArrayBytes(4, b) by {
        assert b == [] ==> EncodeInt(4, |b|) + [] == EncodeInt(4, |b|) + b;
      }
    }
  }

  // ---- fields in a row ----

  function Cat(segments: seq<Bytes>, rest: Bytes): Bytes {
    if segments == [] then rest else segments[0] + Cat(segments[1..], rest)
  }

  lemma {:induction false} FlatIsCat(segments: seq<Bytes>, rest: Bytes)
    ensures Flat(segments) + rest == Cat(segments, rest)
  {
    if segments != [] {
      FlatUncons(segments, rest);
      FlatIsCat(segments[1..], rest);
    }
  }

  lemma {:induction false} CatConcat(xs: seq<Bytes>, ys: seq<Bytes>, rest: Bytes)
    ensures Cat(xs + ys, rest) == Cat(xs, Cat(ys, rest))
  {
    if xs == [] {
      assert xs + ys == ys;
    } else {
      assert (xs + ys)[1..] == xs[1..] + ys;
      CatConcat(xs[1..], ys, rest);
    }
  }

  lemma CatThree(a: Bytes, b: Bytes, c: Bytes, rest: Bytes)
    ensures Cat([a, b, c], rest) == a + (b + (c + rest))
  {
    assert [a, b, c][1..] == [b, c] && [b, c][1..] == [c] && [c][1..] == [];
    assert Cat([b, c], rest) == b + Cat([c], rest);
  }

  // ---- the shard header ----

  ghost predicate ShardInDomain(s: ShardRequest) {
    FitsSigned(2, s.partition) && FitsSigned(2, |s.key|) && FitsSigned(8, s.revision)
  }

  lemma ShardRoundTrip(s: ShardRequest, rest: Bytes)
    ensures ShardInDomain(s) ==> DecodeShardRequest(Cat(ShardSegments(Some(s)), rest)) == Ok((s, rest))
    ensures !ShardInDomain(s) ==>
      var d := DecodeShardRequest(Cat(ShardSegments(Some(s)), rest)); !d.Ok? || d.value.0 != s
  {
    var t2 := EncodeInt(8, s.revision) + rest;
    var t1 := ArrayBytes(2, s.key) + t2;
    CatThree(EncodeInt(2, s.partition), ArrayBytes(2, s.key), EncodeInt(8, s.revision), rest);
    IntRoundTrip(2, s.partition, t1);
    ArrayRoundTrip(2, s.key, t2);
    IntRoundTrip(8, s.revision, rest);
  }

  // ---- requests ----

  /** A request as its receiver sees it: unset and unknown content encodings have become bytes, but the
      content itself is there in every case. */
  function NormalRequest<P(!new)>(r: Request<P>): Request<P> {
    r.(version := STREST_VERSION, userAgent := "binary",
       contentEncoding := if r.contentEncoding in CONTENT_ENCODING then r.contentEncoding else "bytes")
  }

  /** The name a receiver finds under the number written for a content encoding. */
  lemma NormalEncoding(name: string)
    ensures ContentCode(name) < |CONTENT_ENCODING|
    ensures CONTENT_ENCODING[ContentCode(name)] == if name in CONTENT_ENCODING then name else "bytes"
  {
  }

  ghost predicate RequestInDomain<P(!new)>(j: Json<P>, r: Request<P>) {
    && r.shard.Some? && ShardInDomain(r.shard.value)
    && FitsSigned(2, |r.txnId|) && FitsSigned(2, |r.uri|)
    && (j.marshal(r.params).Some? ==> FitsSigned(4, |j.marshal(r.params).value|))
    && FitsSigned(4, |r.content|)
  }

  /** The writer does not stop with an error. */
  predicate RequestWritable<P(!new)>(j: Json<P>, r: Request<P>) {
    r.txnAccept in TXN_ACCEPT && r.httpMethod in METHOD && j.marshal(r.params).Some?
  }

  /** The fields after the shard header. */
  function RequestTail<P(!new)>(r: Request<P>, accept: nat, m: nat, params: Bytes, rest: Bytes): Bytes {
    ArrayBytes(2, r.txnId) + (EncodeInt(1, accept) + (EncodeInt(1, m) + (ArrayBytes(2, r.uri) +
    ParamsTail(params, ContentCode(r.contentEncoding), RequestContent(r), rest))))
  }

  function RequestContent<P(!new)>(r: Request<P>): Bytes {
    if r.ContentIsSet() then ArrayBytes(4, r.content) else GuardedArrayBytes(r.content)
  }

  function ParamsTail(params: Bytes, contentCode: nat, content: Bytes, rest: Bytes): Bytes {
    EncodeInt(1, 0) + (ArrayBytes(4, params) + (EncodeInt(1, contentCode) + (content + rest)))
  }

  lemma RequestLayout<P(!new)>(j: Json<P>, r: Request<P>, rest: Bytes)
    requires RequestWritable(j, r)
    ensures RequestSegments(j, r).1.None?
    ensures Flat(RequestSegments(j, r).0) + rest
         == Cat(ShardSegments(r.shard), RequestTail(r, Code(TXN_ACCEPT, r.txnAccept).value,
                  Code(METHOD, r.httpMethod).value, j.marshal(r.params).value, rest))
  {
    var segs := RequestSegments(j, r).0;
    var accept, m := Code(TXN_ACCEPT, r.txnAccept).value, Code(METHOD, r.httpMethod).value;
    var params := j.marshal(r.params).value;
    var a, b, c, d := ArrayBytes(2, r.txnId), EncodeInt(1, accept), EncodeInt(1, m), ArrayBytes(2, r.uri);
    var e, f, g := EncodeInt(1, 0), ArrayBytes(4, params), EncodeInt(1, ContentCode(r.contentEncoding));
    var h := RequestContent(r);
    assert segs == ShardSegments(r.shard) + ([a, b, c] + ([d, e, f] + [g, h]));
    FlatIsCat(segs, rest);
    CatConcat(ShardSegments(r.shard), [a, b, c] + ([d, e, f] + [g, h]), rest);
    CatConcat([a, b, c], [d, e, f] + [g, h], rest);
    CatConcat([d, e, f], [g, h], rest);
    CatTwo(g, h, rest);
    CatThree(d, e, f, g + (h + rest));
    CatThree(a, b, c, d + (e + (f + (g + (h + rest)))));
  }

  lemma CatTwo(a: Bytes, b: Bytes, rest: Bytes)
    ensures Cat([a, b], rest) == a + (b + rest)
  {
    assert [a, b][1..] == [b] && [b][1..] == [];
    assert Cat([b], rest) == b + Cat([], rest);
  }

  lemma ContentSize<P(!new)>(r: Request<P>, rest: Bytes)
    requires FitsSigned(4, |r.content|)
    ensures |RequestContent(r) + rest| == 4 + |r.content| + |rest|
  {
    ArraySize(4, r.content);
  }

  /** Decoding what was written for a request, whatever follows, gives the normalised request and
      exactly what follows, if and only if every length and number fits its field and the request has
      a shard header. */
  lemma RequestRoundTrip<P(!new)>(j: Json<P>, r: Request<P>, rest: Bytes)
    requires j.Lawful() && RequestWritable(j, r)
    ensures DecodeRequest(j, Flat(RequestSegments(j, r).0) + rest) == Ok((NormalRequest(r), rest))
       <==> RequestInDomain(j, r)
  {
    hide ReadInt;
    hide ReadArray;
    hide ReadRaw;
    hide ReadCode;
    hide FitsSigned;
    hide EncodeInt;
    hide ArrayBytes;
    hide GuardedArrayBytes;
    hide RequestSegments;
    var accept, m := Code(TXN_ACCEPT, r.txnAccept).value, Code(METHOD, r.httpMethod).value;
    var params := j.marshal(r.params).value;
    var code := ContentCode(r.contentEncoding);
    var s8 := RequestContent(r) + rest;
    var s7 := EncodeInt(1, code) + s8;
    var s6 := ArrayBytes(4, params) + s7;
    var s5 := EncodeInt(1, 0) + s6;
    var s4 := ArrayBytes(2, r.uri) + s5;
    var s3 := EncodeInt(1, m) + s4;
    var s2 := EncodeInt(1, accept) + s3;
    var s1 := ArrayBytes(2, r.txnId) + s2;
    RequestLayout(j, r, rest);
    NormalEncoding(r.contentEncoding);
    if r.shard.Some? {
      ShardRoundTrip(r.shard.value, s1);
      ArrayRoundTrip(2, r.txnId, s2);
      CodeRoundTrip(TXN_ACCEPT, "TxnAccept", accept, s3);
      CodeRoundTrip(METHOD, "Method", m, s4);
      ArrayRoundTrip(2, r.uri, s5);
      CodeRoundTrip(PARAM_ENCODING, "paramEncoding", 0, s6);
      ArrayRoundTrip(4, params, s7);
      CodeRoundTrip(CONTENT_ENCODING, "contentEncoding", code, s8);
      RawRoundTrip(r.content, rest);
      if DecodeRequest(j, Flat(RequestSegments(j, r).0) + rest) == Ok((NormalRequest(r), rest)) {
        // Lengths decide: what was read equals what was written, so its parts have the same sizes.
        ReadArraySize(4, s6);
        var t7 := ReadArray(4, s6).value.1;
        ReadCodeSize(CONTENT_ENCODING, "contentEncoding", t7);
        ReadRawSize(ReadCode(CONTENT_ENCODING, "contentEncoding", t7).value.1);
        ContentSize(r, rest);
        ArraySize(4, params);
      }
    }
  }

  // ---- responses ----

  /** A response as its receiver sees it: content whose encoding was not set is gone. */
  function NormalResponse<P(!new)>(r: Response<P>): Response<P> {
    r.(contentEncoding := if r.contentEncoding in CONTENT_ENCODING then r.contentEncoding else "bytes",
       content := if r.contentEncoding != "" then r.content else [])
  }

  predicate ResponseWritable<P(!new)>(j: Json<P>, r: Response<P>) {
    r.txnStatus in TXN_STATUS && j.marshal(r.params).Some?
  }

  ghost predicate ResponseInDomain<P(!new)>(j: Json<P>, r: Response<P>) {
    && FitsSigned(2, |r.txnId|) && FitsSigned(2, r.statusCode) && FitsSigned(2, |r.statusMessage|)
    && (j.marshal(r.params).Some? ==> FitsSigned(4, |j.marshal(r.params).value|))
    && (r.contentEncoding != "" ==> FitsSigned(4, |r.content|))
  }

  lemma ResponseLayout<P(!new)>(j: Json<P>, r: Response<P>, rest: Bytes)
    requires ResponseWritable(j, r)
    ensures ResponseSegments(j, r).1.None?
    ensures Flat(ResponseSegments(j, r).0) + rest
         == ArrayBytes(2, r.txnId) + (EncodeInt(1, Code(TXN_STATUS, r.txnStatus).value) +
              (EncodeInt(2, r.statusCode) + (ArrayBytes(2, r.statusMessage) + ParamsTail(j.marshal(r.params).value,
              ContentCode(r.contentEncoding), GuardedArrayBytes(NormalResponse(r).content), rest))))
  {
    var segs, status := ResponseSegments(j, r).0, Code(TXN_STATUS, r.txnStatus).value;
    var params := j.marshal(r.params).value;
    var a, b := ArrayBytes(2, r.txnId), EncodeInt(1, status);
    var c, d := EncodeInt(2, r.statusCode), ArrayBytes(2, r.statusMessage);
    var e, f, g := EncodeInt(1, 0), ArrayBytes(4, params), EncodeInt(1, ContentCode(r.contentEncoding));
    var h := GuardedArrayBytes(NormalResponse(r).content);
    assert segs == [a, b, c] + ([d, e, f] + [g, h]);
    FlatIsCat(segs, rest);
    CatConcat([a, b, c], [d, e, f] + [g, h], rest);
    CatConcat([d, e, f], [g, h], rest);
    CatTwo(g, h, rest);
    CatThree(d, e, f, g + (h + rest));
    CatThree(a, b, c, d + (e + (f + (g + (h + rest)))));
  }

  /** The same for responses. */
  lemma ResponseRoundTrip<P(!new)>(j: Json<P>, r: Response<P>, rest: Bytes)
    requires j.Lawful() && ResponseWritable(j, r)
    ensures DecodeResponse(j, Flat(ResponseSegments(j, r).0) + rest) == Ok((NormalResponse(r), rest))
       <==> ResponseInDomain(j, r)
  {
    hide ReadInt;
    hide ReadArray;
    hide ReadRaw;
    hide ReadCode;
    hide FitsSigned;
    hide EncodeInt;
    hide ArrayBytes;
    hide GuardedArrayBytes;
    hide ResponseSegments;
    var status, params := Code(TXN_STATUS, r.txnStatus).value, j.marshal(r.params).value;
    var code := ContentCode(r.contentEncoding);
    var content := NormalResponse(r).content;
    var s7 := GuardedArrayBytes(content) + rest;
    var s6 := EncodeInt(1, code) + s7;
    var s5 := ArrayBytes(4, params) + s6;
    var s4 := EncodeInt(1, 0) + s5;
    var s3 := ArrayBytes(2, r.statusMessage) + s4;
    var s2 := EncodeInt(2, r.statusCode) + s3;
    var s1 := EncodeInt(1, status) + s2;
    ResponseLayout(j, r, rest);
    NormalEncoding(r.contentEncoding);
    ArrayRoundTrip(2, r.txnId, s1);
    CodeRoundTrip(TXN_STATUS, "TxnStatus", status, s2);
    IntRoundTrip(2, r.statusCode, s3);
    ArrayRoundTrip(2, r.statusMessage, s4);
    CodeRoundTrip(PARAM_ENCODING, "paramEncoding", 0, s5);
    RawRoundTrip(params, s6);
    CodeRoundTrip(CONTENT_ENCODING, "contentEncoding", code, s7);
    RawRoundTrip(content, rest);
    EmptyFits();
    if DecodeResponse(j, Flat(ResponseSegments(j, r).0) + rest) == Ok((NormalResponse(r), rest)) {
      ReadRawSize(s5);
      var t6 := ReadRaw(s5).value.1;
      ReadCodeSize(CONTENT_ENCODING, "contentEncoding", t6);
      ReadRawSize(ReadCode(CONTENT_ENCODING, "contentEncoding", t6).value.1);
      ArraySize(4, content);
      ArraySize(4, params);
    }
  }

  lemma EmptyFits()
    ensures FitsSigned(4, 0)
  {
  }

  // ---- hello ----

  /** The hello comes back as sent, with version and user agent put in, exactly when its text fits a
      two-byte length. */
  lemma HelloRoundTrip<P(!new)>(j: Json<P>, hello: P, rest: Bytes)
    requires j.Lawful() && j.marshal(j.greet(hello)).Some?
    ensures HelloSegments(j, hello).1.None?
    ensures DecodeHello(j, Flat(HelloSegments(j, hello).0) + rest) == Ok((j.greet(hello), rest))
       <==> FitsSigned(2, |j.marshal(j.greet(hello)).value|)
  {
    hide ReadInt;
    hide ReadArray;
    hide FitsSigned;
    hide EncodeInt;
    hide ArrayBytes;
    var b := j.marshal(j.greet(hello)).value;
    var s1 := ArrayBytes(2, b) + rest;
    FlatIsCat(HelloSegments(j, hello).0, rest);
    CatTwo(EncodeInt(1, 0), ArrayBytes(2, b), rest);
    IntRoundTrip(1, 0, s1);
    ArrayRoundTrip(2, b, rest);
    if DecodeHello(j, Flat(HelloSegments(j, hello).0) + rest) == Ok((j.greet(hello), rest)) {
      ReadArraySize(2, s1);
      ArraySize(2, b);
    }
  }

  // ---- any decoder that does not look beyond what it consumes ----

  type Decoder<!T> = Bytes -> Parsed<T>

  ghost predicate Stable<T(!new)>(dec: Decoder<T>) {
    forall s: Bytes, more: Bytes :: dec(s).Ok? ==> dec(s + more) == Ok((dec(s).value.0, dec(s).value.1 + more))
  }

  ghost predicate Progresses<T(!new)>(dec: Decoder<T>) {
    && dec([]) == Err(Eof)
    && forall s: Bytes :: dec(s).Ok? ==> |dec(s).value.1| < |s|
  }

  ghost predicate Encodes<T(!new)>(dec: Decoder<T>, enc: Bytes, v: T) {
    forall rest: Bytes :: dec(enc + rest) == Ok((v, rest))
  }

  /** No strict prefix of an encoding decodes. */
  lemma NoPrefixDecodes<T(!new)>(dec: Decoder<T>, enc: Bytes, v: T, k: nat)
    requires Stable(dec) && Encodes(dec, enc, v) && k < |enc|
    ensures !dec(enc[..k]).Ok?
  {
    var s, more := enc[..k], enc[k..];
    assert s + more == enc && enc + [] == enc;
    assert dec(enc + []) == Ok((v, []));
  }

  /** Decoding until the first error: what was read, and the error. */
  ghost function DecodeAll<T(!new)>(dec: Decoder<T>, s: Bytes): (seq<T>, DecodeError)
    requires Progresses(dec)
    decreases |s|
  {
    match dec(s)
    case Err(e) => ([], e)
    case Ok((v, t)) => var (vs, e) := DecodeAll(dec, t); ([v] + vs, e)
  }

  /** A stream of encodings decodes to exactly its values and ends cleanly. */
  lemma {:induction false} StreamDecodes<T(!new)>(dec: Decoder<T>, encs: seq<Bytes>, vs: seq<T>)
    requires Progresses(dec) && |encs| == |vs|
    requires forall i :: 0 <= i < |encs| ==> Encodes(dec, encs[i], vs[i])
    ensures DecodeAll(dec, Cat(encs, [])) == (vs, Eof)
  {
    if encs != [] {
      assert Encodes(dec, encs[0], vs[0]);
      StreamDecodes(dec, encs[1..], vs[1..]);
      assert vs == [vs[0]] + vs[1..];
    }
  }

  // ---- which the packet decoders are ----

  lemma ShardStable(s: Bytes, more: Bytes)
    requires DecodeShardRequest(s).Ok?
    ensures DecodeShardRequest(s + more) == Ok((DecodeShardRequest(s).value.0, DecodeShardRequest(s).value.1 + more))
    ensures |DecodeShardRequest(s).value.1| < |s|
  {
    var s1 := ReadInt(2, s).value.1;
    var s2 := ReadArray(2, s1).value.1;
    ReadIntExtends(2, s, more);
    ReadArrayExtends(2, s1, more);
    ReadIntExtends(8, s2, more);
    ReadIntSize(2, s);
    ReadArraySize(2, s1);
    ReadIntSize(8, s2);
  }

  lemma ReadCodeExtends(table: seq<string>, field: string, s: Bytes, more: Bytes)
    requires ReadCode(table, field, s).Ok?
    ensures var (code, t) := ReadCode(table, field, s).value; ReadCode(table, field, s + more) == Ok((code, t + more))
  {
    ReadIntExtends(1, s, more);
  }

  lemma ReadRawExtends(s: Bytes, more: Bytes)
    requires ReadRaw(s).Ok?
    ensures var (b, t) := ReadRaw(s).value; ReadRaw(s + more) == Ok((b, t + more))
  {
    ReadIntExtends(4, s, more);
    var (length, t) := ReadInt(4, s).value;
    TakeExtends(t, length, more);
  }

  lemma RequestStable<P(!new)>(j: Json<P>, s: Bytes, more: Bytes)
    requires DecodeRequest(j, s).Ok?
    ensures var (r, t) := DecodeRequest(j, s).value; DecodeRequest(j, s + more) == Ok((r, t + more)) && |t| < |s|
  {
    hide ReadInt;
    hide ReadArray;
    hide ReadRaw;
    hide ReadCode;
    hide DecodeShardRequest;
    var s1 := DecodeShardRequest(s).value.1;
    var s2 := ReadArray(2, s1).value.1;
    var s3 := ReadCode(TXN_ACCEPT, "TxnAccept", s2).value.1;
    var s4 := ReadCode(METHOD, "Method", s3).value.1;
    var s5 := ReadArray(2, s4).value.1;
    var s6 := ReadCode(PARAM_ENCODING, "paramEncoding", s5).value.1;
    var s7 := ReadArray(4, s6).value.1;
    var s8 := ReadCode(CONTENT_ENCODING, "contentEncoding", s7).value.1;
    ShardStable(s, more);
    ReadArrayExtends(2, s1, more);
    ReadCodeExtends(TXN_ACCEPT, "TxnAccept", s2, more);
    ReadCodeExtends(METHOD, "Method", s3, more);
    ReadArrayExtends(2, s4, more);
    ReadCodeExtends(PARAM_ENCODING, "paramEncoding", s5, more);
    ReadArrayExtends(4, s6, more);
    ReadCodeExtends(CONTENT_ENCODING, "contentEncoding", s7, more);
    ReadRawExtends(s8, more);
    ReadArraySize(2, s1);
    ReadCodeSize(TXN_ACCEPT, "TxnAccept", s2);
    ReadCodeSize(METHOD, "Method", s3);
    ReadArraySize(2, s4);
    ReadCodeSize(PARAM_ENCODING, "paramEncoding", s5);
    ReadArraySize(4, s6);
    ReadCodeSize(CONTENT_ENCODING, "contentEncoding", s7);
    ReadRawSize(s8);
  }

  lemma ResponseStable<P(!new)>(j: Json<P>, s: Bytes, more: Bytes)
    requires DecodeResponse(j, s).Ok?
    ensures var (r, t) := DecodeResponse(j, s).value; DecodeResponse(j, s + more) == Ok((r, t + more)) && |t| < |s|
  {
    hide ReadInt;
    hide ReadArray;
    hide ReadRaw;
    hide ReadCode;
    var s1 := ReadArray(2, s).value.1;
    var s2 := ReadCode(TXN_STATUS, "TxnStatus", s1).value.1;
    var s3 := ReadInt(2, s2).value.1;
    var s4 := ReadArray(2, s3).value.1;
    var s5 := ReadCode(PARAM_ENCODING, "paramEncoding", s4).value.1;
    var s6 := ReadRaw(s5).value.1;
    var s7 := ReadCode(CONTENT_ENCODING, "contentEncoding", s6).value.1;
    ReadArrayExtends(2, s, more);
    ReadCodeExtends(TXN_STATUS, "TxnStatus", s1, more);
    ReadIntExtends(2, s2, more);
    ReadArrayExtends(2, s3, more);
    ReadCodeExtends(PARAM_ENCODING, "paramEncoding", s4, more);
    ReadRawExtends(s5, more);
    ReadCodeExtends(CONTENT_ENCODING, "contentEncoding", s6, more);
    ReadRawExtends(s7, more);
    ReadArraySize(2, s);
    ReadCodeSize(TXN_STATUS, "TxnStatus", s1);
    ReadIntSize(2, s2);
    ReadArraySize(2, s3);
    ReadCodeSize(PARAM_ENCODING, "paramEncoding", s4);
    ReadRawSize(s5);
    ReadCodeSize(CONTENT_ENCODING, "contentEncoding", s6);
    ReadRawSize(s7);
  }

  function RequestDecoder<P(!new)>(j: Json<P>): Decoder<Request<P>> {
    (s: Bytes) => DecodeRequest(j, s)
  }

  function ResponseDecoder<P(!new)>(j: Json<P>): Decoder<Response<P>> {
    (s: Bytes) => DecodeResponse(j, s)
  }

  lemma RequestDecoderLaws<P(!new)>(j: Json<P>)
    ensures Stable(RequestDecoder(j)) && Progresses(RequestDecoder(j))
  {
    EmptyRequestIsEof(j);
    hide DecodeRequest;
    var dec := RequestDecoder(j);
    forall s: Bytes, more: Bytes | dec(s).Ok?
      ensures dec(s + more) == Ok((dec(s).value.0, dec(s).value.1 + more))
    {
      RequestStable(j, s, more);
    }
    forall s: Bytes | dec(s).Ok? ensures |dec(s).value.1| < |s| {
      RequestStable(j, s, []);
    }
  }

  lemma EmptyRequestIsEof<P(!new)>(j: Json<P>)
    ensures DecodeRequest(j, []) == Err(Eof)
  {
  }

  lemma ResponseDecoderLaws<P(!new)>(j: Json<P>)
    ensures Stable(ResponseDecoder(j)) && Progresses(ResponseDecoder(j))
  {
    EmptyResponseIsEof(j);
    hide DecodeResponse;
    var dec := ResponseDecoder(j);
    forall s: Bytes, more: Bytes | dec(s).Ok?
      ensures dec(s + more) == Ok((dec(s).value.0, dec(s).value.1 + more))
    {
      ResponseStable(j, s, more);
    }
    forall s: Bytes | dec(s).Ok? ensures |dec(s).value.1| < |s| {
      ResponseStable(j, s, []);
    }
  }

  lemma EmptyResponseIsEof<P(!new)>(j: Json<P>)
    ensures DecodeResponse(j, []) == Err(Eof)
  {
  }

  ghost predicate Sendable<P(!new)>(j: Json<P>, r: Request<P>) {
    RequestWritable(j, r) && RequestInDomain(j, r)
  }

  ghost predicate Answerable<P(!new)>(j: Json<P>, r: Response<P>) {
    ResponseWritable(j, r) && ResponseInDomain(j, r)
  }

  function RequestBytes<P(!new)>(j: Json<P>, r: Request<P>): Bytes {
    Flat(RequestSegments(j, r).0)
  }

  function ResponseBytes<P(!new)>(j: Json<P>, r: Response<P>): Bytes {
    Flat(ResponseSegments(j, r).0)
  }

  // ---- input that is cut short ----

  lemma IntCut(width: nat, s: Bytes)
    requires ReadInt(width, s).Err?
    ensures ReadInt(width, s) == Err(Eof) || ReadInt(width, s) == Err(UnexpectedEof)
  {
  }

  lemma ArrayCut(width: nat, s: Bytes, more: Bytes)
    requires ReadArray(width, s + more).Ok? && ReadArray(width, s).Err?
    ensures ReadArray(width, s) == Err(Eof) || ReadArray(width, s) == Err(UnexpectedEof)
  {
    if ReadInt(width, s).Ok? {
      ReadIntExtends(width, s, more);
    }
  }

  lemma CodeCut(table: seq<string>, field: string, s: Bytes, more: Bytes)
    requires ReadCode(table, field, s + more).Ok? && ReadCode(table, field, s).Err?
    ensures ReadCode(table, field, s) == Err(Eof) || ReadCode(table, field, s) == Err(UnexpectedEof)
  {
    if ReadInt(1, s).Ok? {
      ReadIntExtends(1, s, more);
    }
  }

  lemma RawCut(s: Bytes, more: Bytes)
    requires ReadRaw(s + more).Ok? && ReadRaw(s).Err?
    ensures ReadRaw(s) == Err(Eof) || ReadRaw(s) == Err(UnexpectedEof)
  {
    if ReadInt(4, s).Ok? {
      ReadIntExtends(4, s, more);
    }
  }

  lemma ShardCut(s: Bytes, more: Bytes)
    requires DecodeShardRequest(s + more).Ok? && DecodeShardRequest(s).Err?
    ensures DecodeShardRequest(s) == Err(Eof) || DecodeShardRequest(s) == Err(UnexpectedEof)
  {
    hide ReadInt;
    hide ReadArray;
    if ReadInt(2, s).Err? {
      IntCut(2, s);
      return;
    }
    ReadIntExtends(2, s, more);
    var s1 := ReadInt(2, s).value.1;
    if ReadArray(2, s1).Err? {
      ArrayCut(2, s1, more);
      return;
    }
    IntCut(8, ReadArray(2, s1).value.1);
  }

  /** A request that is cut short is reported as the end of the input, never as malformed. */
  lemma RequestCut<P(!new)>(j: Json<P>, s: Bytes, more: Bytes)
    requires DecodeRequest(j, s + more).Ok? && DecodeRequest(j, s).Err?
    ensures DecodeRequest(j, s) == Err(Eof) || DecodeRequest(j, s) == Err(UnexpectedEof)
  {
    hide ReadInt;
    hide ReadArray;
    hide ReadRaw;
    hide ReadCode;
    hide DecodeShardRequest;
    hide ParseParams;
    if DecodeShardRequest(s).Err? {
      ShardCut(s, more);
      return;
    }
    ShardStable(s, more);
    var s1 := DecodeShardRequest(s).value.1;
    if ReadArray(2, s1).Err? {
      ArrayCut(2, s1, more);
      return;
    }
    ReadArrayExtends(2, s1, more);
    var s2 := ReadArray(2, s1).value.1;
    if ReadCode(TXN_ACCEPT, "TxnAccept", s2).Err? {
      CodeCut(TXN_ACCEPT, "TxnAccept", s2, more);
      return;
    }
    ReadCodeExtends(TXN_ACCEPT, "TxnAccept", s2, more);
    var s3 := ReadCode(TXN_ACCEPT, "TxnAccept", s2).value.1;
    if ReadCode(METHOD, "Method", s3).Err? {
      CodeCut(METHOD, "Method", s3, more);
      return;
    }
    ReadCodeExtends(METHOD, "Method", s3, more);
    var s4 := ReadCode(METHOD, "Method", s3).value.1;
    if ReadArray(2, s4).Err? {
      ArrayCut(2, s4, more);
      return;
    }
    ReadArrayExtends(2, s4, more);
    var s5 := ReadArray(2, s4).value.1;
    if ReadCode(PARAM_ENCODING, "paramEncoding", s5).Err? {
      CodeCut(PARAM_ENCODING, "paramEncoding", s5, more);
      return;
    }
    ReadCodeExtends(PARAM_ENCODING, "paramEncoding", s5, more);
    var s6 := ReadCode(PARAM_ENCODING, "paramEncoding", s5).value.1;
    if ReadArray(4, s6).Err? {
      ArrayCut(4, s6, more);
      return;
    }
    ReadArrayExtends(4, s6, more);
    var s7 := ReadArray(4, s6).value.1;
    if ReadCode(CONTENT_ENCODING, "contentEncoding", s7).Err? {
      CodeCut(CONTENT_ENCODING, "contentEncoding", s7, more);
      return;
    }
    ReadCodeExtends(CONTENT_ENCODING, "contentEncoding", s7, more);
    var s8 := ReadCode(CONTENT_ENCODING, "contentEncoding", s7).value.1;
    if ReadRaw(s8).Err? {
      RawCut(s8, more);
    } else {
      ReadRawExtends(s8, more);
    }
  }

  lemma ResponseCut<P(!new)>(j: Json<P>, s: Bytes, more: Bytes)
    requires DecodeResponse(j, s + more).Ok? && DecodeResponse(j, s).Err?
    ensures DecodeResponse(j, s) == Err(Eof) || DecodeResponse(j, s) == Err(UnexpectedEof)
  {
    hide ReadInt;
    hide ReadArray;
    hide ReadRaw;
    hide ReadCode;
    hide ParseParams;
    if ReadArray(2, s).Err? {
      ArrayCut(2, s, more);
      return;
    }
    ReadArrayExtends(2, s, more);
    var s1 := ReadArray(2, s).value.1;
    if ReadCode(TXN_STATUS, "TxnStatus", s1).Err? {
      CodeCut(TXN_STATUS, "TxnStatus", s1, more);
      return;
    }
    ReadCodeExtends(TXN_STATUS, "TxnStatus", s1, more);
    var s2 := ReadCode(TXN_STATUS, "TxnStatus", s1).value.1;
    if ReadInt(2, s2).Err? {
      IntCut(2, s2);
      return;
    }
    ReadIntExtends(2, s2, more);
    var s3 := ReadInt(2, s2).value.1;
    if ReadArray(2, s3).Err? {
      ArrayCut(2, s3, more);
      return;
    }
    ReadArrayExtends(2, s3, more);
    var s4 := ReadArray(2, s3).value.1;
    if ReadCode(PARAM_ENCODING, "paramEncoding", s4).Err? {
      CodeCut(PARAM_ENCODING, "paramEncoding", s4, more);
      return;
    }
    ReadCodeExtends(PARAM_ENCODING, "paramEncoding", s4, more);
    var s5 := ReadCode(PARAM_ENCODING, "paramEncoding", s4).value.1;
    if ReadRaw(s5).Err? {
      RawCut(s5, more);
      return;
    }
    ReadRawExtends(s5, more);
    var s6 := ReadRaw(s5).value.1;
    if ReadCode(CONTENT_ENCODING, "contentEncoding", s6).Err? {
      CodeCut(CONTENT_ENCODING, "contentEncoding", s6, more);
      return;
    }
    ReadCodeExtends(CONTENT_ENCODING, "contentEncoding", s6, more);
    var s7 := ReadCode(CONTENT_ENCODING, "contentEncoding", s6).value.1;
    if ReadRaw(s7).Err? {
      RawCut(s7, more);
    } else {
      ReadRawExtends(s7, more);
    }
  }

  lemma RequestPrefixFree<P(!new)>(j: Json<P>, r: Request<P>, k: nat)
    requires j.Lawful() && Sendable(j, r) && k < |RequestBytes(j, r)|
    ensures var d := DecodeRequest(j, RequestBytes(j, r)[..k]); d == Err(Eof) || d == Err(UnexpectedEof)
  {
    hide DecodeRequest;
    hide RequestBytes;
    var enc := RequestBytes(j, r);
    RequestDecoderLaws(j);
    RequestEncodes(j, r);
    NoPrefixDecodes(RequestDecoder(j), enc, NormalRequest(r), k);
    assert enc[..k] + enc[k..] == enc && enc + [] == enc;
    assert RequestDecoder(j)(enc + []) == Ok((NormalRequest(r), []));
    RequestCut(j, enc[..k], enc[k..]);
  }

  lemma RequestEncodes<P(!new)>(j: Json<P>, r: Request<P>)
    requires j.Lawful() && Sendable(j, r)
    ensures Encodes(RequestDecoder(j), RequestBytes(j, r), NormalRequest(r))
  {
    forall rest: Bytes ensures RequestDecoder(j)(RequestBytes(j, r) + rest) == Ok((NormalRequest(r), rest)) {
      RequestRoundTrip(j, r, rest);
    }
  }

  lemma ResponsePrefixFree<P(!new)>(j: Json<P>, r: Response<P>, k: nat)
    requires j.Lawful() && Answerable(j, r) && k < |ResponseBytes(j, r)|
    ensures var d := DecodeResponse(j, ResponseBytes(j, r)[..k]); d == Err(Eof) || d == Err(UnexpectedEof)
  {
    hide DecodeResponse;
    hide ResponseBytes;
    var enc := ResponseBytes(j, r);
    ResponseDecoderLaws(j);
    ResponseEncodes(j, r);
    NoPrefixDecodes(ResponseDecoder(j), enc, NormalResponse(r), k);
    assert enc[..k] + enc[k..] == enc && enc + [] == enc;
    assert ResponseDecoder(j)(enc + []) == Ok((NormalResponse(r), []));
    ResponseCut(j, enc[..k], enc[k..]);
  }

  lemma ResponseEncodes<P(!new)>(j: Json<P>, r: Response<P>)
    requires j.Lawful() && Answerable(j, r)
    ensures Encodes(ResponseDecoder(j), ResponseBytes(j, r), NormalResponse(r))
  {
    forall rest: Bytes ensures ResponseDecoder(j)(ResponseBytes(j, r) + rest) == Ok((NormalResponse(r), rest)) {
      ResponseRoundTrip(j, r, rest);
    }
  }

  // ---- whole connections ----

  function Map<A, B>(f: A -> B, xs: seq<A>): (ys: seq<B>)
    ensures |ys| == |xs| && forall i :: 0 <= i < |xs| ==> ys[i] == f(xs[i])
  {
    seq(|xs|, i requires 0 <= i < |xs| => f(xs[i]))
  }

  function RequestStream<P(!new)>(j: Json<P>, rs: seq<Request<P>>): Bytes {
    Cat(Map((r: Request<P>) => RequestBytes(j, r), rs), [])
  }

  function ResponseStream<P(!new)>(j: Json<P>, rs: seq<Response<P>>): Bytes {
    Cat(Map((r: Response<P>) => ResponseBytes(j, r), rs), [])
  }

  /** What a client sends, a hello and any requests, is read by the server as exactly that hello and
      those requests, and then the clean end of the input. */
  lemma ClientStreamDecodes<P(!new)>(j: Json<P>, hello: P, rs: seq<Request<P>>)
    requires j.Lawful() && forall r <- rs :: Sendable(j, r)
    requires j.marshal(j.greet(hello)).Some? && FitsSigned(2, |j.marshal(j.greet(hello)).value|)
    ensures DecodeHello(j, Flat(HelloSegments(j, hello).0) + RequestStream(j, rs))
         == Ok((j.greet(hello), RequestStream(j, rs)))
    ensures Progresses(RequestDecoder(j))
    ensures DecodeAll(RequestDecoder(j), RequestStream(j, rs)) == (Map((r: Request<P>) => NormalRequest(r), rs), Eof)
  {
    HelloRoundTrip(j, hello, RequestStream(j, rs));
    RequestDecoderLaws(j);
    var encs, vs := Map((r: Request<P>) => RequestBytes(j, r), rs), Map((r: Request<P>) => NormalRequest(r), rs);
    forall i | 0 <= i < |rs| ensures Encodes(RequestDecoder(j), encs[i], vs[i]) {
      assert rs[i] in rs;
      RequestEncodes(j, rs[i]);
    }
    StreamDecodes(RequestDecoder(j), encs, vs);
  }

  /** And what a server sends back, any responses, is read by the client as exactly those. */
  lemma ServerStreamDecodes<P(!new)>(j: Json<P>, rs: seq<Response<P>>)
    requires j.Lawful() && forall r <- rs :: Answerable(j, r)
    ensures Progresses(ResponseDecoder(j))
    ensures DecodeAll(ResponseDecoder(j), ResponseStream(j, rs))
         == (Map((r: Response<P>) => NormalResponse(r), rs), Eof)
  {
    ResponseDecoderLaws(j);
    var encs, vs := Map((r: Response<P>) => ResponseBytes(j, r), rs), Map((r: Response<P>) => NormalResponse(r), rs);
    forall i | 0 <= i < |rs| ensures Encodes(ResponseDecoder(j), encs[i], vs[i]) {
      assert rs[i] in rs;
      ResponseEncodes(j, rs[i]);
    }
    StreamDecodes(ResponseDecoder(j), encs, vs);
  }
}
