/** Small documents that show the deviations of the parser from RFC 8259, each
    stated as what the model computes for it. */
module Examples {
  import opened Bytes
  import opened Wrappers
  import opened Tokenizer
  import opened Nodes
  import opened TreeBuilder
  import opened Lookup
  import opened Escapes
  import opened Accessors

  /** After a leading `0` no more integer digits are taken: `01` is `0`, then `1`. */
  lemma LeadingZeroEndsTheNumber()
    ensures Lex(Ascii("01"), 0) == Scan(Token(Number, Buffer(0, 1)), 1)
    ensures Lex(Ascii("01"), 1) == Scan(Token(Number, Buffer(1, 1)), 2)
  {
  }

  /** A lone `-` is an Error, while `-.5` is a Number. */
  lemma MinusNeedsMore()
    ensures Lex(Ascii("-"), 0).token.kind == Error
    ensures Lex(Ascii("-.5"), 0) == Scan(Token(Number, Buffer(0, 3)), 3)
  {
  }

  /** `1.` gives back its `.`: the Number is `1` and the `.` is left for the next token. */
  lemma DotWithoutDigitIsGivenBack()
    ensures Lex(Ascii("1."), 0) == Scan(Token(Number, Buffer(0, 1)), 1)
  {
  }

  /** A keyword cut off by the end of the input is still the keyword, and the cursor
      ends three bytes past the end. */
  lemma CutKeyword()
    ensures Lex(Ascii("t"), 0) == Scan(Token(True, Empty), 4)
  {
  }

  /** A `"` after `\` does not close a string. */
  lemma EscapedQuoteDoesNotClose()
    ensures Lex(Ascii("\"a\\\"b\""), 0) == Scan(Token(String, Buffer(1, 4)), 6)
  {
  }

  /** A `"` after `\\` closes a string. */
  lemma QuoteAfterEscapedBackslashCloses()
    ensures Lex(Ascii("\"a\\\\\""), 0) == Scan(Token(String, Buffer(1, 3)), 5)
  {
  }

  /** A string that is never closed is an Error that moves the cursor one past the end. */
  lemma UnclosedStringIsError()
    ensures Lex(Ascii("\"ab"), 0) == Scan(Token(Error, Buffer(1, 2)), 4)
  {
  }

  /** Only two bytes before a quote are looked at, so in `"\\\"x"` (a backslash, an
      escaped quote and `x`) the quote after the third backslash closes the string,
      and the value `\\\` it leaves is refused by the decoder. */
  lemma EscapedQuoteAfterEscapedBackslash()
    ensures Lex(Ascii("\"\\\\\\\"x\""), 0) == Scan(Token(String, Buffer(1, 3)), 5)
    ensures Unescape(Ascii("\\\\\\")) == None
  {
  }

  /** The literal `null` is stored with an empty value, so is_null is false on it. */
  lemma NullLiteralIsNotNull()
    ensures Parse(Ascii("null")) == Some(NewNode)
    ensures !IsNull(Ascii("null"), Parse(Ascii("null")))
  {
    var literal := Ascii("null");
    LexKeyword(literal, 0, 'n' as int, NULL_TAIL, Null);
    ParseByFirstToken(literal);
  }

  /** The string "null" is stored as its four bytes, so is_null is true on it. */
  lemma NullStringIsNull()
    ensures Parse(Ascii("\"null\"")) == Some(NewNode.(value := Buffer(1, 4)))
    ensures IsNull(Ascii("\"null\""), Parse(Ascii("\"null\"")))
  {
    var quoted := Ascii("\"null\"");
    assert Lex(quoted, 0) == Scan(Token(String, Buffer(1, 4)), 6);
    ParseByFirstToken(quoted);
    assert Slice(quoted, Buffer(1, 4)) == Ascii("null");
  }

  /** `\"` is refused by the decoder: only the parser knows it as an escape. */
  lemma QuoteEscapeIsRefused()
    ensures Unescape(Ascii("a\\\"b")) == None
  {
    var s := Ascii("a\\\"b");
    DecodeRefusedEscape(s, 1);
    DecodePlainByte(s, 0, []);
  }

  /** `\u0041` becomes the low byte 0x41 and then the high byte 0. */
  lemma UnicodeEscapeExample()
    ensures Unescape([BACKSLASH, LOWER_U, ZERO, ZERO, '4' as int, '1' as int]) == Some([0x41, 0])
  {
    var s: seq<byte> := [BACKSLASH, LOWER_U, ZERO, ZERO, '4' as int, '1' as int];
    assert HexDigitToByte(s[2]) == 0 && HexDigitToByte(s[3]) == 0;
    assert HexDigitToByte(s[4]) == 4 && HexDigitToByte(s[5]) == 1;
    assert s[6..] == [] && Unescape(s[6..]) == Some([]);
    assert Unescape(s) == Prepend(UnicodeBytes(0, 0, 4, 1), Some([]));
    assert UnicodeBytes(0, 0, 4, 1) + [] == [0x41, 0];
  }

  /** The document `{"a":{"b":1},"b":2}` and the tree JSON_parse builds for it,
      written out with its views (DocumentTree below proves it is that tree). */
  const Document: seq<byte> :=
    [OPEN_BRACE, QUOTE, 'a' as int, QUOTE, COLON,
       OPEN_BRACE, QUOTE, 'b' as int, QUOTE, COLON, '1' as int, CLOSED_BRACE, COMMA,
       QUOTE, 'b' as int, QUOTE, COLON, '2' as int, CLOSED_BRACE]
  const NameB: CString := ['b' as int]
  const InnerB := Node(Buffer(7, 1), Buffer(10, 1), None, None)
  const OuterB := Node(Buffer(14, 1), Buffer(17, 1), None, None)
  const A := Node(Buffer(2, 1), Empty, Some(InnerB), Some(OuterB))
  const Root := Node(Empty, Empty, Some(A), None)

  /** JSON_find searches the subtree of "a" before the next sibling of "a", so it
      finds the inner "b"; JSON_find_child looks at the children of the root only,
      so it finds the outer one. */
  lemma FindIsDepthFirst(signedChar: bool)
    ensures Find(Document, Some(Root), NameB, signedChar) == Some(InnerB)
    ensures FindChild(Document, Some(Root), NameB, signedChar) == Some(OuterB)
  {
    KeysOfDocument(signedChar);
    assert Find(Document, Some(InnerB), NameB, signedChar) == Some(InnerB);
    assert Find(Document, Some(A), NameB, signedChar) == Some(InnerB);
    assert FindSibling(Document, Some(OuterB), NameB, signedChar) == Some(OuterB);
    assert FindSibling(Document, Some(A), NameB, signedChar) == Some(OuterB);
  }

  /** Which nodes of Root are labelled "b". */
  lemma KeysOfDocument(signedChar: bool)
    ensures !Labelled(Document, Root, NameB, signedChar)
    ensures !Labelled(Document, A, NameB, signedChar)
    ensures Labelled(Document, InnerB, NameB, signedChar)
    ensures Labelled(Document, OuterB, NameB, signedChar)
  {
    assert Slice(Document, A.key)[0] == 'a' as int;
    assert Slice(Document, InnerB.key) == NameB;
    assert Slice(Document, OuterB.key) == NameB;
  }

  /** The punctuation tokens of Document up to the value of the inner "b". */
  lemma DocumentOpenings()
    ensures NextToken(Parser(Document, 0, false)) == (Token(OpenBrace, Empty), Parser(Document, 1, false))
    ensures NextToken(Parser(Document, 4, false)) == (Token(Colon, Empty), Parser(Document, 5, false))
    ensures NextToken(Parser(Document, 5, false)) == (Token(OpenBrace, Empty), Parser(Document, 6, false))
    ensures NextToken(Parser(Document, 9, false)) == (Token(Colon, Empty), Parser(Document, 10, false))
  {
    PunctuationAt(Document, 0, OpenBrace);
    PunctuationAt(Document, 4, Colon);
    PunctuationAt(Document, 5, OpenBrace);
    PunctuationAt(Document, 9, Colon);
  }

  /** The punctuation tokens of Document after the value of the inner "b". */
  lemma DocumentClosings()
    ensures NextToken(Parser(Document, 11, false)) == (Token(ClosedBrace, Empty), Parser(Document, 12, false))
    ensures NextToken(Parser(Document, 12, false)) == (Token(Comma, Empty), Parser(Document, 13, false))
    ensures NextToken(Parser(Document, 16, false)) == (Token(Colon, Empty), Parser(Document, 17, false))
    ensures NextToken(Parser(Document, 18, false)) == (Token(ClosedBrace, Empty), Parser(Document, 19, false))
  {
    PunctuationAt(Document, 11, ClosedBrace);
    PunctuationAt(Document, 12, Comma);
    PunctuationAt(Document, 16, Colon);
    PunctuationAt(Document, 18, ClosedBrace);
  }

  /** A punctuation byte of an object, read where it stands. */
  lemma PunctuationAt(src: seq<byte>, k: nat, kind: TokenType)
    requires k < |src|
    requires || (src[k] == COLON && kind == Colon) || (src[k] == COMMA && kind == Comma)
             || (src[k] == OPEN_BRACE && kind == OpenBrace) || (src[k] == CLOSED_BRACE && kind == ClosedBrace)
    ensures NextToken(Parser(src, k, false)) == (Token(kind, Empty), Parser(src, k + 1, false))
  {
    assert SkipWhiteSpace(src, k) == k;
    LexPunctuation(src, k);
  }

  /** A one-byte string, such as the keys of Document. */
  lemma LexOneByteString(src: seq<byte>, k: nat)
    requires k + 2 < |src| && src[k] == QUOTE && src[k + 1] != QUOTE && src[k + 1] != BACKSLASH && src[k + 2] == QUOTE
    ensures NextToken(Parser(src, k, false)) == (Token(String, Buffer(k + 1, 1)), Parser(src, k + 3, false))
  {
    assert SkipWhiteSpace(src, k) == k;
    LexString(src, k);
    assert ClosesString(src, k + 2) && !ClosesString(src, k + 1);
  }

  /** A one-digit number followed by a byte that cannot continue it. */
  lemma LexOneDigit(src: seq<byte>, k: nat)
    requires k + 1 < |src| && IsDigit(src[k]) && src[k + 1] in {COMMA, CLOSED_BRACE, CLOSED_BRACKET}
    ensures NextToken(Parser(src, k, false)) == (Token(Number, Buffer(k, 1)), Parser(src, k + 1, false))
  {
    assert SkipWhiteSpace(src, k) == k;
  }

  /** The keys of Document: "a", the inner "b" and the outer "b". */
  lemma KeyOfA()
    ensures NextToken(Parser(Document, 1, false)) == (Token(String, Buffer(2, 1)), Parser(Document, 4, false))
  {
    LexOneByteString(Document, 1);
  }

  lemma InnerKey()
    ensures NextToken(Parser(Document, 6, false)) == (Token(String, Buffer(7, 1)), Parser(Document, 9, false))
  {
    LexOneByteString(Document, 6);
  }

  lemma OuterKey()
    ensures NextToken(Parser(Document, 13, false)) == (Token(String, Buffer(14, 1)), Parser(Document, 16, false))
  {
    LexOneByteString(Document, 13);
  }

  /** The number values of Document. */
  lemma DocumentNumbers()
    ensures NextToken(Parser(Document, 10, false)) == (Token(Number, Buffer(10, 1)), Parser(Document, 11, false))
    ensures NextToken(Parser(Document, 17, false)) == (Token(Number, Buffer(17, 1)), Parser(Document, 18, false))
  {
    LexOneDigit(Document, 10);
    LexOneDigit(Document, 17);
  }

  /** The value of "b" inside "a", the number 1. */
  lemma InnerMember()
    ensures ParseNode(Parser(Document, 10, false), NewNode.(key := Buffer(7, 1)))
            == Built(Parser(Document, 11, false), InnerB)
  {
    DocumentNumbers();
  }

  /** The value of "a": an object whose one member is "b" with value 1. */
  lemma InnerObject()
    ensures ParseNode(Parser(Document, 5, false), NewNode.(key := Buffer(2, 1)))
            == Built(Parser(Document, 12, false), A.(nextSibling := None))
  {
    var keyA := NewNode.(key := Buffer(2, 1));
    var member := ParseNode(Parser(Document, 10, false), NewNode.(key := Buffer(7, 1)));
    DocumentOpenings();
    DocumentClosings();
    InnerKey();
    InnerMember();
    OpensObject(Parser(Document, 5, false), keyA);
    MemberWithKey(Parser(Document, 6, false), keyA);
    MemberSeparator(member, keyA);
    assert AttachChild(keyA, InnerB) == A.(nextSibling := None);
  }

  /** The second member of the root, "b" with value 2, after "a" was attached. */
  lemma OuterMember()
    ensures var withA := Node(Empty, Empty, Some(A.(nextSibling := None)), None);
            ParseMembers(Parser(Document, 13, false), withA) == Built(Parser(Document, 19, false), Root)
  {
    var withA := Node(Empty, Empty, Some(A.(nextSibling := None)), None);
    var last := ParseNode(Parser(Document, 17, false), NewNode.(key := Buffer(14, 1)));
    DocumentNumbers();
    DocumentClosings();
    OuterKey();
    assert last == Built(Parser(Document, 18, false), OuterB);
    MemberWithKey(Parser(Document, 13, false), withA);
    MemberSeparator(last, withA);
    assert AttachChild(withA, OuterB) == Root;
  }

  /** JSON_parse builds Root for Document. */
  lemma DocumentTree()
    ensures Parse(Document) == Some(Root)
  {
    var first := ParseNode(Parser(Document, 5, false), NewNode.(key := Buffer(2, 1)));
    var withA := Node(Empty, Empty, Some(A.(nextSibling := None)), None);
    InnerObject();
    OuterMember();
    DocumentOpenings();
    DocumentClosings();
    KeyOfA();
    OpensObject(Start(Document), NewNode);
    MemberWithKey(Parser(Document, 1, false), NewNode);
    MemberSeparator(first, NewNode);
    assert AttachChild(NewNode, A.(nextSibling := None)) == withA;
  }
}
