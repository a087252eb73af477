/** The escape decoding of JSON_node_to_new_string_resolved (json_parser.c:540-603),
    written as a recursive reference decoder, with an encoder it inverts.

    Section 7 of RFC 8259 lists the escapes; the code decodes `\\ \/ \b \f \n \r \t`
    and `\uXXXX`, and refuses every other escape, `\"` among them. A `\uXXXX`
    becomes two raw bytes, the low byte of the code unit first, with no UTF-8
    encoding. */
module Escapes {
  import opened Bytes
  import opened Wrappers

  const BACKSPACE: byte := 8
  const FORM_FEED: byte := 12

  /** The byte a one-letter escape `\c` stands for, if `c` is one of the seven. */
  function ShortEscape(c: byte): Option<byte> {
    if c == BACKSLASH then Some(BACKSLASH)
    else if c == SLASH then Some(SLASH)
    else if c == 'b' as int then Some(BACKSPACE)
    else if c == 'f' as int then Some(FORM_FEED)
    else if c == 'n' as int then Some(LINE_FEED)
    else if c == 'r' as int then Some(CARRIAGE_RETURN)
    else if c == 't' as int then Some(TAB)
    else None
  }

  /** The letter an encoder writes after `\` for a byte that needs escaping here:
      the backslash itself and the five control bytes with a short escape. */
  function EscapeLetter(b: byte): Option<byte> {
    if b == BACKSLASH then Some(BACKSLASH)
    else if b == BACKSPACE then Some('b' as int)
    else if b == FORM_FEED then Some('f' as int)
    else if b == LINE_FEED then Some('n' as int)
    else if b == CARRIAGE_RETURN then Some('r' as int)
    else if b == TAB then Some('t' as int)
    else None
  }

  /** Every letter the encoder writes is decoded back to its byte, and every short
      escape but `\/` is one the encoder writes. */
  lemma ShortEscapeInvertsEscapeLetter(b: byte, c: byte)
    ensures EscapeLetter(b) == Some(c) ==> ShortEscape(c) == Some(b)
    ensures ShortEscape(c) == Some(b) ==> c == SLASH || EscapeLetter(b) == Some(c)
  {
  }

  /** The bytes of a `\uXXXX` escape whose digits are s[2..6], low byte first. */
  function UnicodeBytes(b1: byte, b2: byte, b3: byte, b4: byte): (r: seq<byte>)
    requires b1 < 16 && b2 < 16 && b3 < 16 && b4 < 16
    ensures |r| == 2
  {
    [b3 * 16 + b4, b1 * 16 + b2]
  }

  /** The decoded bytes of an escaped string value, or None when an escape is not
      one of the accepted ones: a `\` as the last byte, an unknown letter, or a
      `\u` without four hex digits inside the value. */
  function Unescape(s: seq<byte>): (r: Option<seq<byte>>)
    ensures r.Some? ==> |r.value| <= |s|
    ensures (forall i | 0 <= i < |s| :: s[i] != BACKSLASH) ==> r == Some(s)
    ensures r.Some? && |r.value| == |s| ==> forall i | 0 <= i < |s| :: s[i] != BACKSLASH
    decreases |s|
  {
    if |s| == 0 then Some([])
    else if s[0] != BACKSLASH then
      var rest := Unescape(s[1..]);
      assert forall i | 1 <= i < |s| :: s[1..][i - 1] == s[i];
      assert [s[0]] + s[1..] == s;
      Prepend([s[0]], rest)
    else if |s| == 1 then None
    else if s[1] == LOWER_U then
      if |s| < 6 then None
      else
        var b1, b2, b3, b4 := HexDigitToByte(s[2]), HexDigitToByte(s[3]), HexDigitToByte(s[4]), HexDigitToByte(s[5]);
        if b1 == MAX_BYTE_VALUE || b2 == MAX_BYTE_VALUE || b3 == MAX_BYTE_VALUE || b4 == MAX_BYTE_VALUE then None
        else Prepend(UnicodeBytes(b1, b2, b3, b4), Unescape(s[6..]))
    else
      match ShortEscape(s[1])
      case None => None
      case Some(b) => Prepend([b], Unescape(s[2..]))
  }

  /** Escapes the backslash and the five control bytes that have a short escape;
      every other byte is written as it is. */
  function Escape(s: seq<byte>): (r: seq<byte>)
    ensures |s| <= |r|
  {
    if |s| == 0 then []
    else
      match EscapeLetter(s[0])
      case Some(c) => [BACKSLASH, c] + Escape(s[1..])
      case None => [s[0]] + Escape(s[1..])
  }

  /** Decoding undoes encoding. */
  lemma {:induction false} UnescapeEscape(s: seq<byte>)
    ensures Unescape(Escape(s)) == Some(s)
  {
    if |s| > 0 {
      UnescapeEscape(s[1..]);
      var e := Escape(s);
      assert [s[0]] + s[1..] == s;
      match EscapeLetter(s[0])
      case Some(c) =>
        ShortEscapeInvertsEscapeLetter(s[0], c);
        assert e[0] == BACKSLASH && e[1] == c && c != LOWER_U && e[2..] == Escape(s[1..]);
        assert Unescape(e) == Prepend([s[0]], Unescape(Escape(s[1..])));
      case None =>
        assert e[0] == s[0] != BACKSLASH && e[1..] == Escape(s[1..]);
        assert Unescape(e) == Prepend([s[0]], Unescape(Escape(s[1..])));
    }
  }

  /** The four hex digits of a 16-bit code unit, most significant first. */
  function HexQuad(unit: nat, upper: bool): (r: seq<byte>)
    requires unit < 0x1_0000
    ensures |r| == 4
  {
    [HexDigit(unit / 4096, upper), HexDigit(unit / 256 % 16, upper),
     HexDigit(unit / 16 % 16, upper), HexDigit(unit % 16, upper)]
  }

  /** `\u` and the four hex digits of a code unit decode to its low byte, then its
      high byte, in either letter case. */
  lemma UnicodeEscapeLowByteFirst(unit: nat, upper: bool, rest: seq<byte>)
    requires unit < 0x1_0000
    ensures Unescape([BACKSLASH, LOWER_U] + HexQuad(unit, upper) + rest)
            == Prepend([unit % 256, unit / 256], Unescape(rest))
  {
    var s := [BACKSLASH, LOWER_U] + HexQuad(unit, upper) + rest;
    var b1, b2, b3, b4 := unit / 4096, unit / 256 % 16, unit / 16 % 16, unit % 16;
    HexDigitRoundTrip(b1, upper);
    HexDigitRoundTrip(b2, upper);
    HexDigitRoundTrip(b3, upper);
    HexDigitRoundTrip(b4, upper);
    assert s[0] == BACKSLASH && s[1] == LOWER_U && s[6..] == rest;
    assert s[2] == HexDigit(b1, upper) && s[3] == HexDigit(b2, upper);
    assert s[4] == HexDigit(b3, upper) && s[5] == HexDigit(b4, upper);
    DecodeUnicodeEscape(s, 0, [], b1, b2, b3, b4);
    assert s[0..] == s;
    CodeUnitBytes(unit);
  }

  /** The bytes a `\u` escape produces are the low and the high byte of the code unit. */
  lemma CodeUnitBytes(unit: nat)
    requires unit < 0x1_0000
    ensures UnicodeBytes(unit / 4096, unit / 256 % 16, unit / 16 % 16, unit % 16) == [unit % 256, unit / 256]
  {
    assert (unit / 16 % 16) * 16 + unit % 16 == unit % 256;
    assert (unit / 4096) * 16 + unit / 256 % 16 == unit / 256;
  }

  /** One step of a left-to-right decoding loop at index `i`, by the kind of byte
      found there: a plain byte is copied, a short escape gives one byte, a `\u`
      escape two, and a refused escape makes the whole decoding fail. */
  lemma DecodePlainByte(s: seq<byte>, i: nat, out: seq<byte>)
    requires i < |s| && s[i] != BACKSLASH
    ensures Prepend(out, Unescape(s[i..])) == Prepend(out + [s[i]], Unescape(s[i + 1..]))
  {
    assert s[i..][0] == s[i] && s[i..][1..] == s[i + 1..];
    PrependTwice(out, [s[i]], Unescape(s[i + 1..]));
  }

  lemma DecodeShortEscape(s: seq<byte>, i: nat, out: seq<byte>, b: byte)
    requires i + 1 < |s| && s[i] == BACKSLASH && s[i + 1] != LOWER_U && ShortEscape(s[i + 1]) == Some(b)
    ensures Prepend(out, Unescape(s[i..])) == Prepend(out + [b], Unescape(s[i + 2..]))
  {
    assert s[i..][0] == s[i] && s[i..][1] == s[i + 1] && s[i..][2..] == s[i + 2..];
    PrependTwice(out, [b], Unescape(s[i + 2..]));
  }

  lemma DecodeUnicodeEscape(s: seq<byte>, i: nat, out: seq<byte>, b1: byte, b2: byte, b3: byte, b4: byte)
    requires i + 5 < |s| && s[i] == BACKSLASH && s[i + 1] == LOWER_U
    requires b1 == HexDigitToByte(s[i + 2]) && b2 == HexDigitToByte(s[i + 3])
    requires b3 == HexDigitToByte(s[i + 4]) && b4 == HexDigitToByte(s[i + 5])
    requires b1 < 16 && b2 < 16 && b3 < 16 && b4 < 16
    ensures Prepend(out, Unescape(s[i..])) == Prepend(out + UnicodeBytes(b1, b2, b3, b4), Unescape(s[i + 6..]))
  {
    var rest := s[i..];
    assert rest[0] == s[i] && rest[1] == s[i + 1] && rest[2] == s[i + 2] && rest[3] == s[i + 3];
    assert rest[4] == s[i + 4] && rest[5] == s[i + 5] && rest[6..] == s[i + 6..];
    PrependTwice(out, UnicodeBytes(b1, b2, b3, b4), Unescape(s[i + 6..]));
  }

  lemma DecodeRefusedEscape(s: seq<byte>, i: nat)
    requires i < |s| && s[i] == BACKSLASH
    requires || i + 1 == |s|
             || (s[i + 1] == LOWER_U && i + 5 >= |s|)
             || (s[i + 1] == LOWER_U && i + 5 < |s| &&
                   (|| HexDigitToByte(s[i + 2]) == MAX_BYTE_VALUE || HexDigitToByte(s[i + 3]) == MAX_BYTE_VALUE
                    || HexDigitToByte(s[i + 4]) == MAX_BYTE_VALUE || HexDigitToByte(s[i + 5]) == MAX_BYTE_VALUE))
             || (s[i + 1] != LOWER_U && ShortEscape(s[i + 1]).None?)
    ensures Unescape(s[i..]) == None
  {
    var rest := s[i..];
    assert rest[0] == s[i];
    if i + 1 < |s| {
      assert rest[1] == s[i + 1];
      if s[i + 1] == LOWER_U && i + 5 < |s| {
        assert rest[2] == s[i + 2] && rest[3] == s[i + 3] && rest[4] == s[i + 4] && rest[5] == s[i + 5];
      }
    }
  }
}
