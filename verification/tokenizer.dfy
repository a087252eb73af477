/** The byte-level tokenizer: JSON_next_token and its parser_* helpers
    (json_parser.c:102-282), with the token and parser types of json_parser.h:27-58.
    A token's value is a window into the document, never a copy. */
module Tokenizer {
  import opened Bytes

  /** JSON_Token_Type without the Token_Count sentinel. Error and EndOfStream are
      ordinary answers of the tokenizer, not failures. */
  datatype TokenType =
    | Number | String | True | False | Null
    | Colon | Comma | OpenBrace | ClosedBrace | OpenBracket | ClosedBracket
    | Error | EndOfStream

  /** Token_Count: the number of token types. */
  const TOKEN_COUNT: nat := 13

  /** The enumerator value each token type has in C. Only the debug name table
      uses these numbers; here they document the enumeration of json_parser.h. */
  function Ordinal(t: TokenType): (r: nat)
    ensures r < TOKEN_COUNT
    ensures t.Error? <==> r == 11
    ensures t.EndOfStream? <==> r == 12
  {
    match t
    case Number => 0
    case String => 1
    case True => 2
    case False => 3
    case Null => 4
    case Colon => 5
    case Comma => 6
    case OpenBrace => 7
    case ClosedBrace => 8
    case OpenBracket => 9
    case ClosedBracket => 10
    case Error => 11
    case EndOfStream => 12
  }

  /** Distinct token types have distinct enumerator values, so the enumeration
      of json_parser.h names each token type once. */
  lemma OrdinalInjective(a: TokenType, b: TokenType)
    requires a != b
    ensures Ordinal(a) != Ordinal(b)
  {
  }

  datatype Token = Token(kind: TokenType, value: Buffer)

  /** JSON_Parser: the document, the cursor and the sticky error flag; nothing else
      survives between calls. The cursor may stand past the end of the document. */
  datatype Parser = Parser(source: seq<byte>, at: nat, errorEncountered: bool)

  /** What one call of the tokenizer yields: the token and the new cursor. */
  datatype Scan = Scan(token: Token, at: nat)

  /** parser_skip_white_space: the end of the whitespace run starting at `at`. */
  function SkipWhiteSpace(src: seq<byte>, at: nat): (r: nat)
    ensures at <= r
    ensures r == at || r <= |src|
    ensures forall i | at <= i < r :: IsWhiteSpace(src[i])
    ensures r < |src| ==> !IsWhiteSpace(src[r])
    decreases |src| - at
  {
    if at < |src| && IsWhiteSpace(src[at]) then SkipWhiteSpace(src, at + 1) else at
  }

  /** parser_look_character. */
  predicate Look(src: seq<byte>, at: nat, c: byte) {
    at < |src| && src[at] == c
  }

  /** parser_look_back_character. */
  predicate LookBack(src: seq<byte>, at: nat, c: byte)
    requires 1 <= at <= |src|
  {
    src[at - 1] == c
  }

  datatype Matched = Matched(ok: bool, at: nat)

  /** parser_look_character is a one-byte parser_match_characters that keeps the
      cursor, except that it fails at the end of the document; parser_look_back_character
      looks at the byte before the cursor. */
  lemma LookIsOneByteMatch(src: seq<byte>, at: nat, c: byte)
    ensures Look(src, at, c) <==> at < |src| && MatchCharacters(src, at, [c]).ok
    ensures Look(src, at, c) ==> MatchCharacters(src, at, [c]).at == at + 1
    ensures 1 <= at <= |src| ==> (LookBack(src, at, c) <==> Look(src, at - 1, c))
  {
  }

  /** parser_match_characters: compares `expected` byte by byte from `at`. A byte
      past the end of the document is not compared and counts as a match, so the
      cursor keeps moving past the end. */
  function MatchCharacters(src: seq<byte>, at: nat, expected: seq<byte>): (r: Matched)
    ensures r.ok <==> forall i | 0 <= i < |expected| :: at + i < |src| ==> src[at + i] == expected[i]
    ensures r.ok ==> r.at == at + |expected|
    ensures !r.ok ==> at <= r.at < at + |expected| && r.at < |src| && src[r.at] != expected[r.at - at]
    decreases |expected|
  {
    if |expected| == 0 then Matched(true, at)
    else if at < |src| && expected[0] != src[at] then Matched(false, at)
    else
      var rest := MatchCharacters(src, at + 1, expected[1..]);
      assert forall i | 1 <= i < |expected| :: expected[1..][i - 1] == expected[i];
      rest
  }

  /** parser_match_digits: the end of the digit run starting at `at`. The source
      reads `data[at]` without a bounds test; here the end of the document stops it. */
  function MatchDigits(src: seq<byte>, at: nat): (r: nat)
    requires at <= |src|
    ensures at <= r <= |src|
    ensures forall i | at <= i < r :: IsDigit(src[i])
    ensures r == |src| || !IsDigit(src[r])
    decreases |src| - at
  {
    if at < |src| && IsDigit(src[at]) then MatchDigits(src, at + 1) else at
  }

  /** A `"` at `at` closes a string unless the byte before it is `\` and the byte
      before that is not. Only two bytes are looked back at. */
  predicate ClosesString(src: seq<byte>, at: nat)
    requires 1 <= at < |src|
  {
    src[at] == QUOTE && (src[at - 1] != BACKSLASH || (at >= 2 && src[at - 2] == BACKSLASH))
  }

  /** The string case of JSON_next_token (json_parser.c:178-220): `start` is just
      past the opening quote, `at` the byte under scrutiny. Without a closing quote
      the token is an Error and the cursor ends one past the end of the document. */
  function ScanString(src: seq<byte>, start: nat, at: nat): (r: Scan)
    requires 1 <= start <= at <= |src|
    requires src[start - 1] == QUOTE
    requires forall i | start <= i < at :: !ClosesString(src, i)
    ensures r.token.kind == String || r.token.kind == Error
    ensures r.token.value.start == start && r.at == r.token.value.start + r.token.value.size + 1
    ensures r.token.kind == String ==>
              var close := start + r.token.value.size;
              close < |src| && ClosesString(src, close)
              && forall i | start <= i < close :: !ClosesString(src, i)
    ensures r.token.kind == Error ==>
              start + r.token.value.size == |src|
              && forall i | start <= i < |src| :: !ClosesString(src, i)
    decreases |src| - at
  {
    if at == |src| then Scan(Token(Error, Buffer(start, at - start)), at + 1)
    else if ClosesString(src, at) then Scan(Token(String, Buffer(start, at - start)), at + 1)
    else ScanString(src, start, at + 1)
  }

  /** The integer part of a number (json_parser.c:236-244), `first` being the index
      of its leading `-` or digit. After `0` or `-0` no further digit is taken. */
  function IntegerEnd(src: seq<byte>, first: nat): (r: nat)
    requires first < |src| && (src[first] == MINUS || IsDigit(src[first]))
    ensures first < r <= |src|
    ensures var a := if src[first] == MINUS then first + 1 else first;
            && a <= r
            && (forall i | a <= i < r :: IsDigit(src[i]))
            && (a < r && src[a] == ZERO ==> r == a + 1)
            && (a < r && src[a] != ZERO ==> r == |src| || !IsDigit(src[r]))
            && (a == r ==> r == |src| || !IsDigit(src[r]))
  {
    var at := first + 1;
    var at' := if !(LookBack(src, at, MINUS) && Look(src, at, ZERO)) && !LookBack(src, at, ZERO)
               then MatchDigits(src, at) else at;
    if !LookBack(src, at', ZERO) && Look(src, at', ZERO) then at' + 1 else at'
  }

  /** The fraction of a number (json_parser.c:246-252): a `.` not followed by a
      digit is given back. */
  function FractionEnd(src: seq<byte>, at: nat): (r: nat)
    requires at <= |src|
    ensures at <= r <= |src|
    ensures r == at <==> !(at + 1 < |src| && src[at] == DOT && IsDigit(src[at + 1]))
    ensures r > at ==> src[at] == DOT && at + 2 <= r
                       && (forall i | at + 1 <= i < r :: IsDigit(src[i]))
                       && (r == |src| || !IsDigit(src[r]))
  {
    if Look(src, at, DOT) then
      var digitsEnd := MatchDigits(src, at + 1);
      if digitsEnd == at + 1 then at else digitsEnd
    else at
  }

  predicate IsExponentMarker(c: byte) {
    c == LOWER_E || c == UPPER_E
  }

  predicate IsSign(c: byte) {
    c == PLUS || c == MINUS
  }

  /** Where the digits of an exponent starting at `at` would begin: after the marker
      and the optional sign. */
  function ExponentDigitsStart(src: seq<byte>, at: nat): nat {
    if at + 1 < |src| && IsSign(src[at + 1]) then at + 2 else at + 1
  }

  /** The exponent of a number (json_parser.c:254-267): `e` or `E`, an optional sign,
      then digits; with no digit, the marker and its sign are given back. */
  function ExponentEnd(src: seq<byte>, at: nat): (r: nat)
    requires at <= |src|
    ensures at <= r <= |src|
    ensures var d := ExponentDigitsStart(src, at);
            r == at <==> !(at < |src| && IsExponentMarker(src[at]) && d < |src| && IsDigit(src[d]))
    ensures var d := ExponentDigitsStart(src, at);
            r > at ==> at < |src| && IsExponentMarker(src[at]) && d < r
                       && (forall i | d <= i < r :: IsDigit(src[i]))
                       && (r == |src| || !IsDigit(src[r]))
  {
    if Look(src, at, LOWER_E) || Look(src, at, UPPER_E) then
      var afterMarker := at + 1;
      var afterSign := if Look(src, afterMarker, PLUS) || Look(src, afterMarker, MINUS)
                       then afterMarker + 1 else afterMarker;
      var digitsEnd := MatchDigits(src, afterSign);
      if digitsEnd > afterSign then digitsEnd
      else
        var back := afterSign - 1;
        if Look(src, back, PLUS) || Look(src, back, MINUS) then back - 1 else back
    else at
  }

  /** The number case of JSON_next_token (json_parser.c:222-273), `first` being the
      index of the leading `-` or digit. The token is a Number unless the last byte
      consumed is `-`, which happens only for a lone `-`. */
  function ScanNumber(src: seq<byte>, first: nat): (r: Scan)
    requires first < |src| && (src[first] == MINUS || IsDigit(src[first]))
    ensures r.token.kind == Number || r.token.kind == Error
    ensures r.token.value.start == first && first < r.at <= |src|
    ensures r.token.kind == Number ==> r.at == first + r.token.value.size
    ensures r.token.kind == Error ==> r.token.value.size == 0 && r.at == first + 1 && src[first] == MINUS
  {
    var end := ExponentEnd(src, FractionEnd(src, IntegerEnd(src, first)));
    if LookBack(src, end, MINUS) then Scan(Token(Error, Buffer(first, 0)), end)
    else Scan(Token(Number, Buffer(first, end - first)), end)
  }

  /** The keyword tails compared after `t`, `f` and `n`. */
  const TRUE_TAIL: seq<byte> := ['r' as int, 'u' as int, 'e' as int]
  const FALSE_TAIL: seq<byte> := ['a' as int, 'l' as int, 's' as int, 'e' as int]
  const NULL_TAIL: seq<byte> := ['u' as int, 'l' as int, 'l' as int]

  /** A keyword token: its kind if the tail matches, Error otherwise, with an empty value. */
  function ScanKeyword(src: seq<byte>, at: nat, tail: seq<byte>, kind: TokenType): (r: Scan)
    requires kind != Error
    ensures r.token.value == Empty
    ensures r.token.kind == kind || r.token.kind == Error
    ensures r.token.kind == kind <==> forall i | 0 <= i < |tail| :: at + i < |src| ==> src[at + i] == tail[i]
    ensures r.token.kind == kind ==> r.at == at + |tail|
    ensures at <= r.at
  {
    var m := MatchCharacters(src, at, tail);
    Scan(Token(if m.ok then kind else Error, Empty), m.at)
  }

  /** JSON_next_token on a document and a cursor. */
  function Lex(src: seq<byte>, at: nat): (r: Scan)
    ensures at <= r.at
    ensures at < |src| ==> at < r.at
    ensures r.at == at || r.at <= |src| + 4
    ensures InBounds(r.token.value, src)
    ensures r.token.kind == EndOfStream <==> SkipWhiteSpace(src, at) >= |src|
    ensures r.token.kind == EndOfStream ==> r.at == SkipWhiteSpace(src, at) && r.token.value == Empty
    ensures r.token.kind !in {Number, String, Error} ==> r.token.value == Empty
  {
    var s := SkipWhiteSpace(src, at);
    if s >= |src| then Scan(Token(EndOfStream, Empty), s)
    else
      var c := src[s];
      if c == COLON then Scan(Token(Colon, Empty), s + 1)
      else if c == COMMA then Scan(Token(Comma, Empty), s + 1)
      else if c == OPEN_BRACE then Scan(Token(OpenBrace, Empty), s + 1)
      else if c == CLOSED_BRACE then Scan(Token(ClosedBrace, Empty), s + 1)
      else if c == OPEN_BRACKET then Scan(Token(OpenBracket, Empty), s + 1)
      else if c == CLOSED_BRACKET then Scan(Token(ClosedBracket, Empty), s + 1)
      else if c == 't' as int then ScanKeyword(src, s + 1, TRUE_TAIL, True)
      else if c == 'f' as int then ScanKeyword(src, s + 1, FALSE_TAIL, False)
      else if c == 'n' as int then ScanKeyword(src, s + 1, NULL_TAIL, Null)
      else if c == QUOTE then ScanString(src, s + 1, s + 1)
      else if c == MINUS || IsDigit(c) then ScanNumber(src, s)
      else Scan(Token(Error, Empty), s + 1)
  }

  /** JSON_next_token: the next token and the parser with its cursor moved past it. */
  function NextToken(p: Parser): (r: (Token, Parser))
    ensures r.1.source == p.source && r.1.errorEncountered == p.errorEncountered
    ensures p.at <= r.1.at
    ensures p.at < |p.source| ==> p.at < r.1.at
    ensures InBounds(r.0.value, p.source)
  {
    var scan := Lex(p.source, p.at);
    (scan.token, p.(at := scan.at))
  }

  /** Each of `: , { } [ ]` is a token of its own, one byte long, with an empty value. */
  lemma LexPunctuation(src: seq<byte>, at: nat)
    requires var s := SkipWhiteSpace(src, at); s < |src|
    ensures var s := SkipWhiteSpace(src, at);
            var r := Lex(src, at);
            && (src[s] == COLON ==> r == Scan(Token(Colon, Empty), s + 1))
            && (src[s] == COMMA ==> r == Scan(Token(Comma, Empty), s + 1))
            && (src[s] == OPEN_BRACE ==> r == Scan(Token(OpenBrace, Empty), s + 1))
            && (src[s] == CLOSED_BRACE ==> r == Scan(Token(ClosedBrace, Empty), s + 1))
            && (src[s] == OPEN_BRACKET ==> r == Scan(Token(OpenBracket, Empty), s + 1))
            && (src[s] == CLOSED_BRACKET ==> r == Scan(Token(ClosedBracket, Empty), s + 1))
  {
  }

  /** After `t`, `f` or `n` the rest of the keyword must follow, except that bytes
      missing because the input ended are not compared: a final `t` is a True. */
  lemma LexKeyword(src: seq<byte>, at: nat, first: byte, tail: seq<byte>, kind: TokenType)
    requires var s := SkipWhiteSpace(src, at); s < |src| && src[s] == first
    requires || (first == 't' as int && tail == TRUE_TAIL && kind == True)
             || (first == 'f' as int && tail == FALSE_TAIL && kind == False)
             || (first == 'n' as int && tail == NULL_TAIL && kind == Null)
    ensures var s := SkipWhiteSpace(src, at);
            var r := Lex(src, at);
            && r.token.value == Empty
            && (r.token.kind == kind || r.token.kind == Error)
            && (r.token.kind == kind <==>
                  forall i | 0 <= i < |tail| :: s + 1 + i < |src| ==> src[s + 1 + i] == tail[i])
            && (r.token.kind == kind ==> r.at == s + 1 + |tail|)
  {
    LexDispatchesKeyword(src, at, first, tail, kind);
  }

  /** After `t`, `f` or `n` the tokenizer is the keyword scan of the rest. */
  lemma LexDispatchesKeyword(src: seq<byte>, at: nat, first: byte, tail: seq<byte>, kind: TokenType)
    requires var s := SkipWhiteSpace(src, at); s < |src| && src[s] == first
    requires || (first == 't' as int && tail == TRUE_TAIL && kind == True)
             || (first == 'f' as int && tail == FALSE_TAIL && kind == False)
             || (first == 'n' as int && tail == NULL_TAIL && kind == Null)
    ensures Lex(src, at) == ScanKeyword(src, SkipWhiteSpace(src, at) + 1, tail, kind)
  {
  }

  /** A string token holds exactly the bytes between its quotes, escapes untouched,
      and ends at the first quote that closes it; without one it is an Error that
      spans the rest of the input. */
  lemma LexString(src: seq<byte>, at: nat)
    requires var s := SkipWhiteSpace(src, at); s < |src| && src[s] == QUOTE
    ensures var s := SkipWhiteSpace(src, at);
            var r := Lex(src, at);
            var close := s + 1 + r.token.value.size;
            && (r.token.kind == String || r.token.kind == Error)
            && r.token.value.start == s + 1
            && r.at == close + 1
            && (r.token.kind == String <==> exists i | s + 1 <= i < |src| :: ClosesString(src, i))
            && (r.token.kind == String ==>
                  close < |src| && ClosesString(src, close)
                  && forall i | s + 1 <= i < close :: !ClosesString(src, i))
            && (r.token.kind == Error ==> close == |src|)
  {
  }

  /** After `-` or a digit the tokenizer is the number scan from that byte. */
  lemma LexDispatchesNumber(src: seq<byte>, at: nat)
    requires var s := SkipWhiteSpace(src, at); s < |src| && (src[s] == MINUS || IsDigit(src[s]))
    ensures Lex(src, at) == ScanNumber(src, SkipWhiteSpace(src, at))
  {
  }

  /** Any other first byte is an Error that consumes that byte. */
  lemma LexOtherByte(src: seq<byte>, at: nat)
    requires var s := SkipWhiteSpace(src, at);
             && s < |src|
             && src[s] !in {COLON, COMMA, OPEN_BRACE, CLOSED_BRACE, OPEN_BRACKET, CLOSED_BRACKET, QUOTE, MINUS}
             && src[s] !in {'t' as int, 'f' as int, 'n' as int}
             && !IsDigit(src[s])
    ensures var s := SkipWhiteSpace(src, at);
            Lex(src, at) == Scan(Token(Error, Empty), s + 1)
  {
  }
}
