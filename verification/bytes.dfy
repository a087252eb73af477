/** The bytes of a JSON document, the character classes the tokenizer tests
    (json_parser.c:68-100), and `Buffer`, the window every token and node keeps
    into the document (json_parser.h:21-25). */
module Bytes {

  /** `u8` of json_parser.h. */
  type byte = b: int | 0 <= b < 256

  const TAB: byte := 9
  const LINE_FEED: byte := 10
  const CARRIAGE_RETURN: byte := 13
  const SPACE: byte := ' ' as int
  const QUOTE: byte := '"' as int
  const BACKSLASH: byte := '\\' as int
  const SLASH: byte := '/' as int
  const COLON: byte := ':' as int
  const COMMA: byte := ',' as int
  const OPEN_BRACE: byte := '{' as int
  const CLOSED_BRACE: byte := '}' as int
  const OPEN_BRACKET: byte := '[' as int
  const CLOSED_BRACKET: byte := ']' as int
  const MINUS: byte := '-' as int
  const PLUS: byte := '+' as int
  const DOT: byte := '.' as int
  const ZERO: byte := '0' as int
  const NINE: byte := '9' as int
  const LOWER_E: byte := 'e' as int
  const UPPER_E: byte := 'E' as int
  const LOWER_U: byte := 'u' as int

  /** MAX_BYTE_VALUE, the "not a hex digit" answer of ascii_hex_digit_to_byte. */
  const MAX_BYTE_VALUE: byte := 255

  /** The bytes of an ASCII/Latin-1 string literal, for writing documents and keywords. */
  function Ascii(s: string): (r: seq<byte>)
    requires forall i | 0 <= i < |s| :: s[i] as int < 256
    ensures |r| == |s|
    ensures forall i | 0 <= i < |s| :: r[i] == s[i] as int
  {
    seq(|s|, i requires 0 <= i < |s| => s[i] as int)
  }

  /** is_json_white_space: the four whitespace bytes of JSON. */
  predicate IsWhiteSpace(c: byte) {
    c == SPACE || c == TAB || c == LINE_FEED || c == CARRIAGE_RETURN
  }

  predicate IsDigit(c: byte) {
    ZERO <= c <= NINE
  }

  predicate IsHexDigit(c: byte) {
    IsDigit(c) || ('a' as int <= c <= 'f' as int) || ('A' as int <= c <= 'F' as int)
  }

  /** The byte classes nest as the tokenizer relies on: the decimal digits are the
      hex digits worth less than ten, and no whitespace byte is a hex digit. */
  lemma CharacterClasses(c: byte)
    ensures IsDigit(c) <==> HexDigitToByte(c) < 10
    ensures IsDigit(c) ==> IsHexDigit(c)
    ensures IsWhiteSpace(c) ==> !IsHexDigit(c) && HexDigitToByte(c) == MAX_BYTE_VALUE
  {
  }

  /** ascii_hex_digit_to_byte: the value of a hex digit, MAX_BYTE_VALUE for any other byte. */
  function HexDigitToByte(c: byte): (r: byte)
    ensures IsHexDigit(c) <==> r < 16
    ensures !IsHexDigit(c) ==> r == MAX_BYTE_VALUE
  {
    if ZERO <= c <= NINE then c - ZERO
    else if 'a' as int <= c <= 'f' as int then c - 'a' as int + 10
    else if 'A' as int <= c <= 'F' as int then c - 'A' as int + 10
    else MAX_BYTE_VALUE
  }

  /** The digit that writes `v` in hexadecimal, in upper or lower case. */
  function HexDigit(v: nat, upper: bool): (c: byte)
    requires v < 16
  {
    if v < 10 then ZERO + v
    else if upper then 'A' as int + v - 10
    else 'a' as int + v - 10
  }

  /** ascii_hex_digit_to_byte inverts the writing of a hex digit, in either case. */
  lemma HexDigitRoundTrip(v: nat, upper: bool)
    requires v < 16
    ensures IsHexDigit(HexDigit(v, upper))
    ensures HexDigitToByte(HexDigit(v, upper)) == v
  {
  }

  /** `Buffer` as a window [start, start + size) of the document. The zeroed Buffer
      `{}` that tokens and fresh nodes start with is `Empty`. */
  datatype Buffer = Buffer(start: nat, size: nat)

  const Empty := Buffer(0, 0)

  predicate InBounds(b: Buffer, src: seq<byte>) {
    b.start + b.size <= |src|
  }

  /** The bytes a window shows. */
  function Slice(src: seq<byte>, b: Buffer): (r: seq<byte>)
    requires InBounds(b, src)
    ensures |r| == b.size
    ensures forall i | 0 <= i < b.size :: r[i] == src[b.start + i]
  {
    src[b.start..b.start + b.size]
  }
}
