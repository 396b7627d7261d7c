/** Byte strings and the two primitives of the binary protocol: signed big-endian integers and
    length-prefixed arrays (cheshire/protocol_bin.go). */
module Wire {
  import opened Wrappers

  type byte = x: int | 0 <= x < 256
  type Bytes = seq<byte>

  /** Why a decoder stopped. Panicked stands for inputs on which the source panics: a negative size
      handed to make, or a negative table index. */
  datatype DecodeError =
    | Eof
    | UnexpectedEof
    | NegativeLength
    | TooLarge(field: string)
    | BadJson
    | UnsupportedParamEncoding
    | Panicked

  type Parsed<T> = Result<(T, Bytes), DecodeError>

  /** io.ReadFull: n bytes, or an error telling an empty input from a short one. */
  function Take(s: Bytes, n: nat): Parsed<Bytes> {
    if n <= |s| then Ok((s[..n], s[n..]))
    else if s == [] then Err(Eof)
    else Err(UnexpectedEof)
  }

  // ---- integers ----

  function Pow256(width: nat): (p: int)
    ensures p > 0
  {
    if width == 0 then 1 else 256 * Pow256(width - 1)
  }

  predicate FitsSigned(width: nat, v: int) {
    -Pow256(width) <= 2 * v < Pow256(width)
  }

  /** The value of v in a signed integer variable of the given width in bytes. */
  function WrapSigned(width: nat, v: int): int {
    ToSigned(width, v % Pow256(width))
  }

  function ToSigned(width: nat, u: int): int {
    if 2 * u < Pow256(width) then u else u - Pow256(width)
  }

  /** The width low-order bytes of v in two's complement, most significant first. */
  function EncodeInt(width: nat, v: int): (r: Bytes)
    ensures |r| == width
  {
    if width == 0 then [] else EncodeInt(width - 1, v / 256) + [v % 256]
  }

  function Unsigned(s: Bytes): nat {
    if s == [] then 0 else 256 * Unsigned(s[..|s| - 1]) + s[|s| - 1]
  }

  function ReadInt(width: nat, s: Bytes): Parsed<int> {
    var (b, t) :- Take(s, width);
    Ok((ToSigned(width, Unsigned(b)), t))
  }

  lemma {:induction false} UnsignedOfEncode(width: nat, v: int)
    ensures Unsigned(EncodeInt(width, v)) == v % Pow256(width)
  {
    if width > 0 {
      UnsignedOfEncode(width - 1, v / 256);
      assert EncodeInt(width, v)[..width - 1] == EncodeInt(width - 1, v / 256);
      ModDivStep(v, Pow256(width - 1));
    }
  }

  lemma ModDivStep(v: int, p: int)
    requires p > 0
    ensures 256 * ((v / 256) % p) + v % 256 == v % (256 * p)
  {
    var q := v / 256;
    var r := 256 * (q % p) + v % 256;
    assert 0 <= r < 256 * p;
    assert v == (256 * p) * (q / p) + r by {
      assert q == p * (q / p) + q % p;
      assert 256 * (p * (q / p)) == (256 * p) * (q / p);
    }
    UniqueMod(v, 256 * p, q / p, r);
  }

  lemma UniqueMod(v: int, m: int, k: int, r: int)
    requires m > 0 && v == m * k + r && 0 <= r < m
    ensures v % m == r
  {
    var d := v / m - k;
    assert m * d == r - v % m by {
      assert v == m * (v / m) + v % m;
      assert m * d == m * (v / m) - m * k;
    }
    assert d >= 1 ==> m * d >= m;
    assert d <= -1 ==> m * d <= -m;
    assert d == 0;
  }

  lemma WrapSignedExact(width: nat, v: int)
    ensures WrapSigned(width, v) == v <==> FitsSigned(width, v)
  {
    var p := Pow256(width);
    if FitsSigned(width, v) {
      UniqueMod(v, p, if v < 0 then -1 else 0, if v < 0 then v + p else v);
    } else {
      UniqueMod(v, p, v / p, v % p);
    }
  }

  /** An integer written in a field is read back wrapped to the field's width; what follows is left. */
  lemma IntRoundTrip(width: nat, v: int, rest: Bytes)
    ensures ReadInt(width, EncodeInt(width, v) + rest) == Ok((WrapSigned(width, v), rest))
    ensures WrapSigned(width, v) == v <==> FitsSigned(width, v)
  {
    WrapSignedExact(width, v);
    UnsignedOfEncode(width, v);
    var s := EncodeInt(width, v) + rest;
    assert s[..width] == EncodeInt(width, v) && s[width..] == rest;
  }

  lemma {:induction false} EncodeIsPeriodic(width: nat, v: int)
    ensures EncodeInt(width, v + Pow256(width)) == EncodeInt(width, v)
  {
    if width > 0 {
      assert v + Pow256(width) == v + 256 * Pow256(width - 1);
      assert (v + Pow256(width)) / 256 == v / 256 + Pow256(width - 1);
      EncodeIsPeriodic(width - 1, v / 256);
    }
  }

  /** Wrapping first does not change what is written. */
  lemma EncodeOfWrapped(width: nat, v: int)
    ensures EncodeInt(width, WrapSigned(width, v)) == EncodeInt(width, v)
  {
    EncodeOfMod(width, v);
    EncodeIsPeriodic(width, WrapSigned(width, v));
  }

  lemma {:induction false} EncodeOfMod(width: nat, v: int)
    ensures EncodeInt(width, v % Pow256(width)) == EncodeInt(width, v)
  {
    if width > 0 {
      var p := Pow256(width - 1);
      ModDivStep(v, p);
      assert (v % (256 * p)) / 256 == (v / 256) % p && (v % (256 * p)) % 256 == v % 256;
      EncodeOfMod(width - 1, v / 256);
    }
  }

  lemma {:induction false} EncodeOfUnsigned(s: Bytes)
    ensures EncodeInt(|s|, Unsigned(s)) == s
  {
    if s != [] {
      EncodeOfUnsigned(s[..|s| - 1]);
    }
  }

  /** Writing the integer that was read gives back the very bytes it was read from. */
  lemma WriteUndoesRead(width: nat, s: Bytes)
    requires ReadInt(width, s).Ok?
    ensures EncodeInt(width, ReadInt(width, s).value.0) + ReadInt(width, s).value.1 == s
    ensures EncodeInt(width, ReadInt(width, s).value.0) == s[..width]
  {
    EncodeOfUnsigned(s[..width]);
    EncodeIsPeriodic(width, ReadInt(width, s).value.0);
  }

  // ---- arrays ----

  /** A byte array after its length, the length wrapped to the prefix. */
  function ArrayBytes(width: nat, b: Bytes): Bytes {
    EncodeInt(width, |b|) + b
  }

  function ReadArray(width: nat, s: Bytes): Parsed<Bytes> {
    var (length, t) :- ReadInt(width, s);
    if length < 0 then Err(NegativeLength) else Take(t, length)
  }

  /** Reading back a written array, whatever follows it, gives the array and what follows exactly when
      its length fits the prefix. */
  lemma ArrayRoundTrip(width: nat, b: Bytes, rest: Bytes)
    ensures ReadArray(width, ArrayBytes(width, b) + rest) == Ok((b, rest)) <==> FitsSigned(width, |b|)
    ensures FitsSigned(width, |b|) || !ReadArray(width, ArrayBytes(width, b) + rest).Ok?
      || ReadArray(width, ArrayBytes(width, b) + rest).value.0 != b
  {
    assert ArrayBytes(width, b) + rest == EncodeInt(width, |b|) + (b + rest);
    IntRoundTrip(width, |b|, b + rest);
    if FitsSigned(width, |b|) {
      assert (b + rest)[..|b|] == b && (b + rest)[|b|..] == rest;
    }
  }

  // ---- what follows is never looked at ----

  lemma TakeExtends(s: Bytes, n: nat, more: Bytes)
    requires Take(s, n).Ok?
    ensures Take(s + more, n) == Ok((Take(s, n).value.0, Take(s, n).value.1 + more))
  {
    assert (s + more)[..n] == s[..n] && (s + more)[n..] == s[n..] + more;
  }

  lemma ReadIntExtends(width: nat, s: Bytes, more: Bytes)
    requires ReadInt(width, s).Ok?
    ensures ReadInt(width, s + more) == Ok((ReadInt(width, s).value.0, ReadInt(width, s).value.1 + more))
  {
    TakeExtends(s, width, more);
  }

  lemma ReadArrayExtends(width: nat, s: Bytes, more: Bytes)
    requires ReadArray(width, s).Ok?
    ensures ReadArray(width, s + more) == Ok((ReadArray(width, s).value.0, ReadArray(width, s).value.1 + more))
  {
    ReadIntExtends(width, s, more);
    var (length, t) := ReadInt(width, s).value;
    TakeExtends(t, length, more);
  }

  // ---- concatenation of fields ----

  function Flat(segments: seq<Bytes>): Bytes {
    if segments == [] then [] else Flat(segments[..|segments| - 1]) + segments[|segments| - 1]
  }

  lemma FlatSnoc(segments: seq<Bytes>, x: Bytes)
    ensures Flat(segments + [x]) == Flat(segments) + x
  {
    assert (segments + [x])[..|segments|] == segments;
  }

  lemma {:induction false} FlatConcat(xs: seq<Bytes>, ys: seq<Bytes>)
    ensures Flat(xs + ys) == Flat(xs) + Flat(ys)
  {
    if ys == [] {
      assert xs + ys == xs;
    } else {
      var n := |ys| - 1;
      FlatConcat(xs, ys[..n]);
      FlatSnoc(xs + ys[..n], ys[n]);
      assert xs + ys == (xs + ys[..n]) + [ys[n]];
    }
  }

  /** The first field, and then the others with what follows. */
  lemma FlatUncons(segments: seq<Bytes>, rest: Bytes)
    requires segments != []
    ensures Flat(segments) + rest == segments[0] + (Flat(segments[1..]) + rest)
  {
    FlatConcat([segments[0]], segments[1..]);
    assert segments == [segments[0]] + segments[1..];
    assert Flat([segments[0]]) == segments[0] by {
      FlatSnoc([], segments[0]);
      assert [] + [segments[0]] == [segments[0]];
    }
  }
}
