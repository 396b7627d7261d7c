/** Quoting a string for JSON (JSONEncodeString in cheshire/strestpackets.go), and reading a JSON
    string as section 7 of RFC 8259 says. */
module JsonString {
  import opened Wrappers
  import opened Wire
  import opened Utf8

  const QUOTE: byte := 0x22
  const BACKSLASH: byte := 0x5C

  // ---- the simple form of the escaper: one rune at a time ----

  /** An ASCII character that is copied as it is. */
  predicate Plain(b: int) {
    0x20 <= b < 0x80 && b != 0x5C && b != 0x22 && b != 0x3C && b != 0x3E
  }

  function HexDigit(n: nat): byte
    requires n < 16
  {
    if n < 10 then 0x30 + n else 0x61 + n - 10
  }

  function EscapeAscii(b: byte): Bytes
    requires b < 0x80
  {
    if Plain(b) then [b]
    else if b == BACKSLASH || b == QUOTE then [BACKSLASH, b]
    else if b == 0x0A then [BACKSLASH, 0x6E]
    else if b == 0x0D then [BACKSLASH, 0x72]
    else [BACKSLASH, 0x75, 0x30, 0x30, HexDigit(b / 16), HexDigit(b % 16)]
  }

  function EscapeRune(c: Rune): Bytes {
    if c < 0x80 then EscapeAscii(c) else EncodeRune(c)
  }

  function EscapeAll(rs: seq<Rune>): Bytes {
    if rs == [] then [] else EscapeAll(rs[..|rs| - 1]) + EscapeRune(rs[|rs| - 1])
  }

  /** What quoting amounts to: an error for anything but valid UTF-8. */
  function Quoted(s: Bytes): Option<Bytes> {
    match DecodeAll(s)
    case None => None
    case Some(rs) => Some([QUOTE] + EscapeAll(rs) + [QUOTE])
  }

  // ---- the escaper itself ----

  function Prepend(rs: seq<Rune>, d: Option<seq<Rune>>): Option<seq<Rune>> {
    match d case None => None case Some(more) => Some(rs + more)
  }

  lemma PrependTwice(rs: seq<Rune>, c: Rune, d: Option<seq<Rune>>)
    ensures Prepend(rs, Prepend([c], d)) == Prepend(rs + [c], d)
    ensures Prepend([], d) == d
  {
    if d.Some? {
      assert rs + ([c] + d.value) == (rs + [c]) + d.value && [] + d.value == d.value;
    }
  }

  lemma DecodeAllStep(s: Bytes)
    requires s != []
    ensures DecodeRune(s).None? ==> DecodeAll(s).None?
    ensures DecodeRune(s).Some? ==>
      var (c, n) := DecodeRune(s).value; n <= |s| && DecodeAll(s) == Prepend([c], DecodeAll(s[n..]))
  {
    hide DecodeRune;
    HeadRune(s);
  }

  /** What has been read before position i: the runes so far, and then whatever the rest decodes to. */
  ghost predicate Behind(s: Bytes, i: nat, rs: seq<Rune>)
    requires i <= |s|
  {
    DecodeAll(s) == Prepend(rs, DecodeAll(s[i..]))
  }

  lemma StepBehind(s: Bytes, i: nat, rs: seq<Rune>)
    requires i < |s| && Behind(s, i, rs)
    ensures DecodeRune(s[i..]).None? ==> DecodeAll(s).None?
    ensures DecodeRune(s[i..]).Some? ==>
      var (c, n) := DecodeRune(s[i..]).value;
      i + n <= |s| && s[i..i + n] == EncodeRune(c) && Behind(s, i + n, rs + [c]) && (c < 0x80 <==> s[i] < 0x80)
    ensures s[i] < 0x80 ==> DecodeRune(s[i..]) == Some((s[i], 1))
  {
    hide DecodeRune;
    hide EncodeRune;
    hide DecodeAll;
    HeadRune(s[i..]);
    DecodeAllStep(s[i..]);
    if DecodeRune(s[i..]).Some? {
      var (c, n) := DecodeRune(s[i..]).value;
      assert s[i..][n..] == s[i + n..] && s[i..][..n] == s[i..i + n];
      PrependTwice(rs, c, DecodeAll(s[i + n..]));
    }
  }

  lemma FromStart(s: Bytes)
    ensures Behind(s, 0, []) && EscapeAll([]) == []
    ensures forall rs :: Behind(s, |s|, rs) ==> DecodeAll(s) == Some(rs)
  {
    assert s[0..] == s && s[|s|..] == [];
    PrependTwice([], 0, DecodeAll(s));
    assert forall rs: seq<Rune> :: rs + [] == rs;
  }

  lemma EscapeSnoc(rs: seq<Rune>, c: Rune)
    ensures EscapeAll(rs + [c]) == EscapeAll(rs) + EscapeRune(c)
  {
    assert (rs + [c])[..|rs|] == rs;
  }

  /** The escapes of the characters that are not copied. */
  method WriteEscape(buf: Bytes, b: byte) returns (r: Bytes)
    requires b < 0x80 && !Plain(b)
    ensures r == buf + EscapeAscii(b)
  {
    if b == BACKSLASH || b == QUOTE {
      r := buf + [BACKSLASH] + [b];
    } else if b == 0x0A {
      r := buf + [BACKSLASH] + [0x6E];
    } else if b == 0x0D {
      r := buf + [BACKSLASH] + [0x72];
    } else {
      r := buf + [BACKSLASH, 0x75, 0x30, 0x30] + [HexDigit(b / 16)] + [HexDigit(b % 16)];
    }
  }

  /** The buffer and the pending run s[start..i] hold the escapes of the characters so far. */
  ghost predicate Written(buf: Bytes, s: Bytes, start: nat, i: nat, rs: seq<Rune>)
    requires start <= i <= |s|
  {
    buf + s[start..i] == [QUOTE] + EscapeAll(rs)
  }

  lemma RunGrows(buf: Bytes, s: Bytes, start: nat, i: nat, n: nat, rs: seq<Rune>, c: Rune)
    requires start <= i <= i + n <= |s| && Written(buf, s, start, i, rs) && s[i..i + n] == EscapeRune(c)
    ensures Written(buf, s, start, i + n, rs + [c])
  {
    hide EscapeRune;
    hide EscapeAll;
    EscapeSnoc(rs, c);
    assert buf + s[start..i + n] == (buf + s[start..i]) + s[i..i + n];
  }

  lemma RunFlushed(buf: Bytes, s: Bytes, start: nat, i: nat, rs: seq<Rune>, c: Rune, escape: Bytes)
    requires start <= i < |s| && Written(buf, s, start, i, rs) && escape == EscapeRune(c)
    ensures Written(buf + s[start..i] + escape, s, i + 1, i + 1, rs + [c])
    ensures start == i ==> buf + s[start..i] == buf
  {
    hide EscapeRune;
    hide EscapeAll;
    EscapeSnoc(rs, c);
    assert s[i + 1..i + 1] == [];
  }

  /** Copies maximal runs of characters that need no escape in one piece. The result is the quoted
      form, or the input itself marked as an error. */
  method JSONEncodeString(s: Bytes) returns (r: Result<Bytes, Bytes>)
    ensures match Quoted(s) case Some(q) => r == Ok(q) case None => r == Err(s)
    ensures r.Ok? <==> Valid(s)
  {
    hide EncodeRune;
    hide DecodeRune;
    hide DecodeAll;
    hide EscapeAll;
    hide EscapeAscii;
    hide Behind;
    hide Written;
    hide Valid;
    DecodeAllIffValid(s);
    FromStart(s);
    var buf: Bytes := [QUOTE];
    var start, i := 0, 0;
    ghost var rs: seq<Rune> := [];
    NothingWritten(s);
    while i < |s|
      invariant start <= i <= |s| && Behind(s, i, rs) && Written(buf, s, start, i, rs)
    {
      StepBehind(s, i, rs);
      var b := s[i];
      if b < 0x80 {
        if Plain(b) {
          PlainEscape(b);
          RunGrows(buf, s, start, i, 1, rs, b);
          rs := rs + [b];
          i := i + 1;
          continue;
        }
        RunFlushed(buf, s, start, i, rs, b, EscapeAscii(b));
        if start < i {
          buf := buf + s[start..i];
        }
        buf := WriteEscape(buf, b);
        rs := rs + [b];
        i := i + 1;
        start := i;
        continue;
      }
      var rune := DecodeRune(s[i..]);
      if rune.None? {
        return Err(s);
      }
      var (c, size) := rune.value;
      RunGrows(buf, s, start, i, size, rs, c);
      rs := rs + [c];
      i := i + size;
    }
    AllWritten(buf, s, start, rs);
    if start < |s| {
      buf := buf + s[start..];
    }
    buf := buf + [QUOTE];
    return Ok(buf);
  }

  lemma NothingWritten(s: Bytes)
    ensures Written([QUOTE], s, 0, 0, [])
  {
  }

  lemma AllWritten(buf: Bytes, s: Bytes, start: nat, rs: seq<Rune>)
    requires start <= |s| && Written(buf, s, start, |s|, rs)
    ensures buf + s[start..] == [QUOTE] + EscapeAll(rs)
    ensures start == |s| ==> buf + s[start..] == buf
  {
  }

  lemma PlainEscape(b: byte)
    requires Plain(b)
    ensures EscapeAscii(b) == [b]
  {
  }

  // ---- a reader of JSON strings ----

  function HexValue(b: byte): Option<nat> {
    if 0x30 <= b <= 0x39 then Some(b - 0x30)
    else if 0x61 <= b <= 0x66 then Some(b - 0x61 + 10)
    else if 0x41 <= b <= 0x46 then Some(b - 0x41 + 10)
    else None
  }

  /** The code unit written by four hex digits. */
  function ReadUnit(s: Bytes): (r: Option<nat>)
    ensures r.Some? ==> r.value < 0x1_0000
  {
    if |s| < 4 then None
    else
      match (HexValue(s[0]), HexValue(s[1]), HexValue(s[2]), HexValue(s[3]))
      case (Some(a), Some(b), Some(c), Some(d)) => Some(((a * 16 + b) * 16 + c) * 16 + d)
      case _ => None
  }

  /** One character of a string, escaped or not, and what follows it; surrogates come in pairs. */
  function ReadCharacter(s: Bytes): Option<(Rune, Bytes)>
    requires s != []
  {
    if s[0] == BACKSLASH then ReadEscape(s[1..])
    else if s[0] < 0x20 || s[0] == QUOTE then None
    else
      match DecodeRune(s)
      case Some((c, n)) => if n <= |s| then Some((c, s[n..])) else None
      case None => None
  }

  /** What follows a backslash. */
  function ReadEscape(s: Bytes): Option<(Rune, Bytes)> {
    if s == [] then None
    else if s[0] == QUOTE || s[0] == BACKSLASH || s[0] == 0x2F then Some((s[0], s[1..]))
    else if s[0] == 0x62 then Some((0x08, s[1..]))
    else if s[0] == 0x66 then Some((0x0C, s[1..]))
    else if s[0] == 0x6E then Some((0x0A, s[1..]))
    else if s[0] == 0x72 then Some((0x0D, s[1..]))
    else if s[0] == 0x74 then Some((0x09, s[1..]))
    else if s[0] == 0x75 then
      match ReadUnit(s[1..])
      case None => None
      case Some(u) =>
        if u < 0xD800 || 0xE000 <= u then Some((u, s[5..]))
        else if u < 0xDC00 && |s| >= 11 && s[5] == BACKSLASH && s[6] == 0x75 then
          match ReadUnit(s[7..])
          case Some(v) =>
            if 0xDC00 <= v < 0xE000 then Some((0x1_0000 + (u - 0xD800) * 0x400 + (v - 0xDC00), s[11..])) else None
          case None => None
        else None
    else None
  }

  /** Characters up to the closing quote: their UTF-8 form, and what follows the quote. */
  function ReadCharacters(s: Bytes): Option<(Bytes, Bytes)>
    decreases |s|
  {
    if s == [] then None
    else if s[0] == QUOTE then Some(([], s[1..]))
    else
      match ReadCharacter(s)
      case None => None
      case Some((c, t)) =>
        if |t| >= |s| then None
        else
          match ReadCharacters(t)
          case None => None
          case Some((value, rest)) => Some((EncodeRune(c) + value, rest))
  }

  function ReadString(s: Bytes): Option<(Bytes, Bytes)> {
    if s == [] || s[0] != QUOTE then None else ReadCharacters(s[1..])
  }

  lemma ReadUnitOfHex(b: byte, rest: Bytes)
    ensures ReadUnit([0x30, 0x30, HexDigit(b / 16), HexDigit(b % 16)] + rest) == Some(b)
  {
    assert HexValue(HexDigit(b / 16)) == Some(b / 16) && HexValue(HexDigit(b % 16)) == Some(b % 16);
    assert HexValue(0x30) == Some(0);
  }

  lemma ReadEscapedAscii(b: byte, rest: Bytes)
    requires b < 0x80
    ensures ReadCharacter(EscapeAscii(b) + rest) == Some((b, rest))
  {
    var s := EscapeAscii(b) + rest;
    if Plain(b) {
      HeadRune(s);
      assert s[1..] == rest;
    } else if b == BACKSLASH || b == QUOTE || b == 0x0A || b == 0x0D {
      assert s[1..][1..] == rest;
    } else {
      ReadUnitOfHex(b, rest);
      assert s[1..][1..] == [0x30, 0x30, HexDigit(b / 16), HexDigit(b % 16)] + rest;
      assert s[1..][5..] == rest;
    }
  }

  /** Reading one escaped rune gives the rune and what follows. */
  lemma ReadEscapedRune(c: Rune, rest: Bytes)
    ensures var s := EscapeRune(c) + rest; s[0] != QUOTE && |rest| < |s| && ReadCharacter(s) == Some((c, rest))
  {
    var s := EscapeRune(c) + rest;
    if c < 0x80 {
      ReadEscapedAscii(c, rest);
    } else {
      DecodeOfEncode(c, rest);
      assert s[0] == EncodeRune(c)[0] && EncodeRune(c)[0] in EncodeRune(c);
      assert s[|EncodeRune(c)|..] == rest;
    }
  }

  /** The escaped runes, first one first. */
  lemma {:induction false} EscapeCons(rs: seq<Rune>)
    requires rs != []
    ensures EscapeAll(rs) == EscapeRune(rs[0]) + EscapeAll(rs[1..])
  {
    var n := |rs| - 1;
    if n > 0 {
      EscapeCons(rs[..n]);
      assert rs[..n][1..] == rs[1..][..n - 1];
    }
  }

  lemma {:induction false} ReadEscapedRunes(rs: seq<Rune>, rest: Bytes)
    ensures ReadCharacters(EscapeAll(rs) + ([QUOTE] + rest)) == Some((EncodeAll(rs), rest))
  {
    hide ReadCharacter;
    hide EscapeRune;
    hide EncodeRune;
    if rs == [] {
      assert EscapeAll(rs) + ([QUOTE] + rest) == [QUOTE] + rest;
    } else {
      var t := EscapeAll(rs[1..]) + ([QUOTE] + rest);
      EscapeCons(rs);
      assert EscapeAll(rs) + ([QUOTE] + rest) == EscapeRune(rs[0]) + t;
      ReadEscapedRune(rs[0], t);
      ReadEscapedRunes(rs[1..], rest);
    }
  }

  /** A JSON reader gives back the string that was quoted and stops right behind the closing quote,
      whatever follows: nothing inside the quotes ends the string early. */
  lemma ReadUndoesQuote(s: Bytes, rest: Bytes)
    requires Valid(s)
    ensures Quoted(s).Some? && ReadString(Quoted(s).value + rest) == Some((s, rest))
  {
    hide Valid;
    hide DecodeAll;
    hide EscapeAll;
    hide EncodeAll;
    hide ReadCharacters;
    DecodeAllIffValid(s);
    EncodeAllOfDecodeAll(s);
    var rs := DecodeAll(s).value;
    ReadEscapedRunes(rs, rest);
    assert (Quoted(s).value + rest)[1..] == EscapeAll(rs) + ([QUOTE] + rest);
  }

  lemma {:induction false} EscapeConcat(a: seq<Rune>, b: seq<Rune>)
    ensures EscapeAll(a + b) == EscapeAll(a) + EscapeAll(b)
  {
    hide EscapeRune;
    if b == [] {
      assert a + b == a;
    } else {
      var n := |b| - 1;
      EscapeConcat(a, b[..n]);
      assert (a + b)[..|a| + n] == a + b[..n];
    }
  }

  /** Quoting works character by character. */
  lemma QuotedConcat(s: Bytes, t: Bytes)
    requires Valid(s) && Valid(t)
    ensures Quoted(s).Some? && Quoted(t).Some? && |Quoted(s).value| >= 2 && |Quoted(t).value| >= 2
    ensures Quoted(s + t) == Some(Quoted(s).value[..|Quoted(s).value| - 1] + Quoted(t).value[1..])
  {
    hide DecodeAll;
    hide EncodeAll;
    hide EscapeAll;
    var a :| EncodeAll(a) == s;
    var b :| EncodeAll(b) == t;
    DecodeAllOfEncodeAll(a);
    DecodeAllOfEncodeAll(b);
    EncodeAllConcat(a, b);
    DecodeAllOfEncodeAll(a + b);
    EscapeConcat(a, b);
    var x, y := Quoted(s).value, Quoted(t).value;
    assert x[..|x| - 1] == [QUOTE] + EscapeAll(a) && y[1..] == EscapeAll(b) + [QUOTE];
    assert [QUOTE] + EscapeAll(a + b) + [QUOTE] == x[..|x| - 1] + y[1..];
  }

  /** The form of each character between its quotes: a backslash before a quote or a backslash, letters for line
      feed and carriage return, four hex digits for the other control characters and the angle brackets, and
      anything else as it is. */
  lemma QuotedCharacter(c: Rune)
    ensures var form := if c == 0x22 then [0x5C, 0x22] else if c == 0x5C then [0x5C, 0x5C]
                        else if c == 0x0A then [0x5C, 0x6E] else if c == 0x0D then [0x5C, 0x72]
                        else if c == 0x3C then [0x5C, 0x75, 0x30, 0x30, 0x33, 0x63]
                        else if c == 0x3E then [0x5C, 0x75, 0x30, 0x30, 0x33, 0x65]
                        else if c < 0x10 then [0x5C, 0x75, 0x30, 0x30, 0x30, if c < 10 then 0x30 + c else 0x57 + c]
                        else if c < 0x20 then
                          [0x5C, 0x75, 0x30, 0x30, 0x31, if c < 0x1A then 0x20 + c else 0x47 + c]
                        else EncodeRune(c);
      Quoted(EncodeRune(c)) == Some([0x22] + form + [0x22])
  {
    hide DecodeAll;
    hide EncodeRune;
    assert [c][1..] == [] && [c][..0] == [];
    assert EncodeAll([c]) == EncodeRune(c) + EncodeAll([]) == EncodeRune(c);
    assert EscapeAll([c]) == EscapeAll([]) + EscapeRune(c) == EscapeRune(c);
    DecodeAllOfEncodeAll([c]);
    AsciiRune(c);
  }

  lemma AsciiRune(c: Rune)
    ensures c < 0x80 ==> EncodeRune(c) == [c]
  {
  }

  /** No control character and no angle bracket gets into the output. */
  lemma {:induction false} NothingRaw(rs: seq<Rune>)
    ensures forall b <- EscapeAll(rs) :: b >= 0x20 && b != 0x3C && b != 0x3E
  {
    if rs != [] {
      NothingRaw(rs[..|rs| - 1]);
    }
  }

  lemma QuotedIsSafe(s: Bytes)
    requires Quoted(s).Some?
    ensures forall b <- Quoted(s).value :: b >= 0x20 && b != 0x3C && b != 0x3E
  {
    NothingRaw(DecodeAll(s).value);
  }
}
