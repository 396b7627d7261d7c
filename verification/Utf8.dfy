/** UTF-8 as sections 3 and 4 of RFC 3629 define it, and Go's decoding of one rune. */
module Utf8 {
  import opened Wrappers
  import opened Wire

  /** A Unicode scalar value. */
  type Rune = c: int | 0 <= c < 0x11_0000 && !(0xD800 <= c < 0xE000)

  function EncodeRune(c: Rune): (s: Bytes)
    ensures 1 <= |s| <= 4
    ensures c < 0x80 ==> s == [c]
    ensures c >= 0x80 ==> forall b <- s :: b >= 0x80
  {
    var d := c / 0x40;
    var e := d / 0x40;
    var f := e / 0x40;
    if c < 0x80 then [c]
    else if c < 0x800 then [0xC0 + d, 0x80 + c % 0x40]
    else if c < 0x1_0000 then [0xE0 + e, 0x80 + d % 0x40, 0x80 + c % 0x40]
    else [0xF0 + f, 0x80 + e % 0x40, 0x80 + d % 0x40, 0x80 + c % 0x40]
  }

  /** How many bytes a scalar value takes, and which of its bits each byte carries. */
  lemma RuneBits(c: Rune)
    ensures var s := EncodeRune(c);
      if c < 0x80 then |s| == 1 && s[0] == c
      else if c < 0x800 then
        && |s| == 2 && 0xC0 <= s[0] < 0xE0 && 0x80 <= s[1] < 0xC0
        && c == (s[0] as int - 0xC0) * 0x40 + (s[1] as int - 0x80)
      else if c < 0x1_0000 then
        && |s| == 3 && 0xE0 <= s[0] < 0xF0 && 0x80 <= s[1] < 0xC0 && 0x80 <= s[2] < 0xC0
        && c == (s[0] as int - 0xE0) * 0x1000 + (s[1] as int - 0x80) * 0x40 + (s[2] as int - 0x80)
      else
        && |s| == 4 && 0xF0 <= s[0] < 0xF5 && 0x80 <= s[1] < 0xC0 && 0x80 <= s[2] < 0xC0 && 0x80 <= s[3] < 0xC0
        && c == (s[0] as int - 0xF0) * 0x4_0000 + (s[1] as int - 0x80) * 0x1000
                + (s[2] as int - 0x80) * 0x40 + (s[3] as int - 0x80)
  {
  }

  function EncodeAll(rs: seq<Rune>): Bytes {
    if rs == [] then [] else EncodeRune(rs[0]) + EncodeAll(rs[1..])
  }

  predicate Tail(b: byte) {
    0x80 <= b < 0xC0
  }

  /** The bits so far, and six more from a trailing byte. */
  function More(high: int, b: byte): int {
    high * 0x40 + (b as int - 0x80)
  }

  /** The rune at the head of the input and its size, or nothing where Go reports an error of size 1.
      The second byte's range depends on the first, which shuts out overlong forms, surrogates and
      values above the last scalar. */
  function DecodeRune(s: Bytes): Option<(Rune, nat)>
    requires s != []
  {
    var a: int := s[0];
    if a < 0x80 then Some((a, 1))
    else if 0xC2 <= a < 0xE0 && |s| >= 2 && Tail(s[1]) then
      Some((More(a - 0xC0, s[1]), 2))
    else if 0xE0 <= a < 0xF0 && |s| >= 3 && Tail(s[1]) && Tail(s[2])
      && (a == 0xE0 ==> s[1] >= 0xA0) && (a == 0xED ==> s[1] < 0xA0) then
      Some((More(More(a - 0xE0, s[1]), s[2]), 3))
    else if 0xF0 <= a < 0xF5 && |s| >= 4 && Tail(s[1]) && Tail(s[2]) && Tail(s[3])
      && (a == 0xF0 ==> s[1] >= 0x90) && (a == 0xF4 ==> s[1] < 0x90) then
      Some((More(More(More(a - 0xF0, s[1]), s[2]), s[3]), 4))
    else None
  }

  lemma DecodeOfEncode(c: Rune, rest: Bytes)
    ensures DecodeRune(EncodeRune(c) + rest) == Some((c, |EncodeRune(c)|))
  {
  }

  lemma MoreSplits(high: int, b: byte)
    requires Tail(b)
    ensures More(high, b) / 0x40 == high && 0x80 + More(high, b) % 0x40 == b
  {
  }

  lemma EncodeOfDecode(s: Bytes)
    requires s != [] && DecodeRune(s).Some?
    ensures var (c, n) := DecodeRune(s).value; n <= |s| && s[..n] == EncodeRune(c)
  {
    var a: int := s[0];
    var (c, n) := DecodeRune(s).value;
    if n == 2 {
      MoreSplits(a - 0xC0, s[1]);
    } else if n == 3 {
      MoreSplits(a - 0xE0, s[1]);
      MoreSplits(More(a - 0xE0, s[1]), s[2]);
    } else if n == 4 {
      MoreSplits(a - 0xF0, s[1]);
      MoreSplits(More(a - 0xF0, s[1]), s[2]);
      MoreSplits(More(More(a - 0xF0, s[1]), s[2]), s[3]);
    }
  }

  lemma HeadRune(s: Bytes)
    requires s != []
    ensures s[0] < 0x80 ==> DecodeRune(s) == Some((s[0], 1))
    ensures DecodeRune(s).Some? ==>
      var (c, n) := DecodeRune(s).value; 0 < n <= |s| && s[..n] == EncodeRune(c) && (c < 0x80 <==> s[0] < 0x80)
  {
    if DecodeRune(s).Some? {
      EncodeOfDecode(s);
      var (c, n) := DecodeRune(s).value;
      assert s[0] == s[..n][0] && s[0] in s[..n];
    }
  }

  // ---- whole strings ----

  function DecodeAll(s: Bytes): Option<seq<Rune>>
    decreases |s|
  {
    if s == [] then Some([])
    else
      match DecodeRune(s)
      case None => None
      case Some((c, n)) =>
        if n > |s| then None
        else match DecodeAll(s[n..]) case None => None case Some(rs) => Some([c] + rs)
  }

  lemma {:induction false} EncodeAllConcat(a: seq<Rune>, b: seq<Rune>)
    ensures EncodeAll(a + b) == EncodeAll(a) + EncodeAll(b)
  {
    hide EncodeRune;
    if a == [] {
      assert a + b == b;
    } else {
      assert (a + b)[1..] == a[1..] + b;
      EncodeAllConcat(a[1..], b);
    }
  }

  lemma {:induction false} DecodeAllOfEncodeAll(rs: seq<Rune>)
    ensures DecodeAll(EncodeAll(rs)) == Some(rs)
  {
    if rs != [] {
      var rest := EncodeAll(rs[1..]);
      DecodeOfEncode(rs[0], rest);
      assert (EncodeRune(rs[0]) + rest)[|EncodeRune(rs[0])|..] == rest;
      DecodeAllOfEncodeAll(rs[1..]);
      assert rs == [rs[0]] + rs[1..];
    }
  }

  lemma {:induction false} EncodeAllOfDecodeAll(s: Bytes)
    requires DecodeAll(s).Some?
    ensures EncodeAll(DecodeAll(s).value) == s
    decreases |s|
  {
    hide EncodeRune;
    hide DecodeRune;
    if s != [] {
      var (c, n) := DecodeRune(s).value;
      HeadRune(s);
      EncodeAllOfDecodeAll(s[n..]);
      assert s == s[..n] + s[n..];
      assert DecodeAll(s).value[1..] == DecodeAll(s[n..]).value;
    }
  }

  /** A byte string is valid UTF-8 if it is the encoding of some scalar values. */
  ghost predicate Valid(s: Bytes) {
    exists rs :: EncodeAll(rs) == s
  }

  /** Rune-by-rune decoding succeeds on the valid strings and on no others. */
  lemma DecodeAllIffValid(s: Bytes)
    ensures DecodeAll(s).Some? <==> Valid(s)
  {
    if DecodeAll(s).Some? {
      EncodeAllOfDecodeAll(s);
    }
    if Valid(s) {
      var rs :| EncodeAll(rs) == s;
      DecodeAllOfEncodeAll(rs);
    }
  }
}
