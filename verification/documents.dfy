/** A reference for the tree builder: JSON values, their compact serialization,
    and the shape of the tree JSON_parse (json_parser.c:300-399) should build for
    one. The theorem at the end says that it does, for every value: members and
    elements become children in document order, and every key and scalar window
    spells the bytes the serialization wrote for it. */
module Documents {
  import opened Bytes
  import opened Wrappers
  import opened Tokenizer
  import opened NumberGrammar
  import opened Nodes
  import opened TreeBuilder

  /** A JSON value with its keys, strings and numbers kept as the bytes written
      between the quotes or for the number. */
  datatype Value =
    | Num(text: seq<byte>)
    | Str(text: seq<byte>)
    | Bool(b: bool)
    | Nil
    | Object(members: seq<Member>)
    | Array(elements: seq<Value>)

  datatype Member = Member(key: seq<byte>, value: Value)

  /** The bytes between two quotes that the tokenizer reads back unchanged: no
      quote, and no lone `\` at the end, which would make the closing quote look
      escaped. Escapes are not decoded by the tree builder, so any other bytes do. */
  predicate StringText(t: seq<byte>) {
    && (forall i | 0 <= i < |t| :: t[i] != QUOTE)
    && (|t| > 0 && t[|t| - 1] == BACKSLASH ==> |t| > 1 && t[|t| - 2] == BACKSLASH)
  }

  /** A value the serializer writes as a document the tokenizer reads back. */
  ghost predicate Valid(v: Value)
    decreases v, 1
  {
    match v
    case Num(t) => NumberLexeme(t)
    case Str(t) => StringText(t)
    case Bool(_) => true
    case Nil => true
    case Object(ms) => ValidMembers(ms)
    case Array(es) => ValidElements(es)
  }

  ghost predicate ValidMembers(ms: seq<Member>)
    decreases ms, 0
  {
    |ms| > 0 ==> StringText(ms[0].key) && Valid(ms[0].value) && ValidMembers(ms[1..])
  }

  ghost predicate ValidElements(es: seq<Value>)
    decreases es, 0
  {
    |es| > 0 ==> Valid(es[0]) && ValidElements(es[1..])
  }

  /** The compact serialization: no whitespace, members and elements separated by `,`. */
  function Serialize(v: Value): seq<byte>
    decreases v, 1
  {
    match v
    case Num(t) => t
    case Str(t) => [QUOTE] + t + [QUOTE]
    case Bool(b) => if b then ['t' as int] + TRUE_TAIL else ['f' as int] + FALSE_TAIL
    case Nil => ['n' as int] + NULL_TAIL
    case Object(ms) => [OPEN_BRACE] + MembersThenClose(ms)
    case Array(es) => [OPEN_BRACKET] + ElementsThenClose(es)
  }

  /** The members of an object and its closing `}`. */
  function MembersThenClose(ms: seq<Member>): seq<byte>
    decreases ms, 0
  {
    if |ms| == 0 then [CLOSED_BRACE]
    else
      [QUOTE] + ms[0].key + [QUOTE, COLON] + Serialize(ms[0].value)
      + (if |ms| == 1 then [] else [COMMA]) + MembersThenClose(ms[1..])
  }

  /** The elements of an array and its closing `]`. */
  function ElementsThenClose(es: seq<Value>): seq<byte>
    decreases es, 0
  {
    if |es| == 0 then [CLOSED_BRACKET]
    else Serialize(es[0]) + (if |es| == 1 then [] else [COMMA]) + ElementsThenClose(es[1..])
  }

  /** What a node shows once its windows are read: its key, its value and the
      shapes of its children, in foreach_child order. */
  datatype Shape = Shape(key: seq<byte>, value: seq<byte>, children: seq<Shape>)

  /** The bytes of a window, or nothing for a window outside the document. */
  function Read(src: seq<byte>, b: Buffer): seq<byte> {
    if InBounds(b, src) then Slice(src, b) else []
  }

  function ShapeOf(n: Node, src: seq<byte>): Shape
    decreases n
  {
    Shape(Read(src, n.key), Read(src, n.value), ChainShapes(n.firstChild, src))
  }

  function ChainShapes(chain: Option<Node>, src: seq<byte>): seq<Shape>
    decreases chain
  {
    match chain
    case None => []
    case Some(n) => [ShapeOf(n, src)] + ChainShapes(n.nextSibling, src)
  }

  /** The shape a value should be parsed into, under the given key. A keyword keeps
      an empty value: its token carries none. */
  function Expected(v: Value, key: seq<byte>): Shape
    decreases v, 1
  {
    match v
    case Num(t) => Shape(key, t, [])
    case Str(t) => Shape(key, t, [])
    case Bool(_) => Shape(key, [], [])
    case Nil => Shape(key, [], [])
    case Object(ms) => Shape(key, [], MemberShapes(ms))
    case Array(es) => Shape(key, [], ElementShapes(es))
  }

  function MemberShapes(ms: seq<Member>): seq<Shape>
    decreases ms, 0
  {
    if |ms| == 0 then [] else [Expected(ms[0].value, ms[0].key)] + MemberShapes(ms[1..])
  }

  function ElementShapes(es: seq<Value>): seq<Shape>
    decreases es, 0
  {
    if |es| == 0 then [] else [Expected(es[0], [])] + ElementShapes(es[1..])
  }

  /** The document holds the bytes `s` from `at` on. The bytes are compared
      through ByteAt so that only a proof that names a position looks at it. */
  predicate Holds(src: seq<byte>, at: nat, s: seq<byte>) {
    at + |s| <= |src| && forall i {:trigger ByteAt(s, i)} | 0 <= i < |s| :: src[at + i] == ByteAt(s, i)
  }

  function ByteAt(s: seq<byte>, i: nat): byte
    requires i < |s|
  {
    s[i]
  }

  /** What may follow a value in a serialization: the end of the document, or the
      `,`, `}` or `]` after a member or element. */
  predicate EndsValue(src: seq<byte>, at: nat) {
    at == |src| || (at < |src| && (src[at] == COMMA || src[at] == CLOSED_BRACE || src[at] == CLOSED_BRACKET))
  }

  lemma HoldsConcat(src: seq<byte>, at: nat, a: seq<byte>, b: seq<byte>)
    requires Holds(src, at, a + b)
    ensures Holds(src, at, a) && Holds(src, at + |a|, b)
  {
    forall i | 0 <= i < |a|
      ensures src[at + i] == ByteAt(a, i)
    {
      assert ByteAt(a + b, i) == a[i];
    }
    forall i | 0 <= i < |b|
      ensures src[at + |a| + i] == ByteAt(b, i)
    {
      assert ByteAt(a + b, |a| + i) == b[i];
    }
  }

  lemma HoldsByte(src: seq<byte>, at: nat, c: byte)
    requires Holds(src, at, [c])
    ensures at < |src| && src[at] == c
  {
    assert ByteAt([c], 0) == c;
  }

  /** Holding `s` is having the slice `s`. */
  lemma ReadHeldBytes(src: seq<byte>, at: nat, s: seq<byte>)
    requires Holds(src, at, s)
    ensures src[at..at + |s|] == s
  {
    forall i | 0 <= i < |s|
      ensures src[at..at + |s|][i] == s[i]
    {
      assert ByteAt(s, i) == s[i];
    }
  }

  /** The bytes a window shows are those the document holds there. */
  lemma ReadHeld(src: seq<byte>, at: nat, s: seq<byte>)
    requires Holds(src, at, s)
    ensures Read(src, Buffer(at, |s|)) == s
  {
    ReadHeldBytes(src, at, s);
    assert Slice(src, Buffer(at, |s|)) == s;
  }

  // Reading shapes back from nodes.

  /** The shapes of a chain are those of the nodes foreach_sibling visits. */
  lemma {:induction false} ChainShapesOfSiblings(chain: Option<Node>, src: seq<byte>)
    ensures |ChainShapes(chain, src)| == |Siblings(chain)|
    ensures forall i | 0 <= i < |Siblings(chain)| :: ChainShapes(chain, src)[i] == ShapeOf(Siblings(chain)[i], src)
    decreases chain
  {
    match chain
    case None =>
    case Some(n) =>
      ChainShapesOfSiblings(n.nextSibling, src);
      assert Siblings(chain) == [n] + Siblings(n.nextSibling);
  }

  /** Attaching a child adds its shape after the shapes of the children already there. */
  lemma AttachChildShape(parent: Node, child: Node, src: seq<byte>)
    requires child.nextSibling.None?
    ensures var s := ShapeOf(parent, src);
            ShapeOf(AttachChild(parent, child), src) == s.(children := s.children + [ShapeOf(child, src)])
  {
    var r := AttachChild(parent, child);
    var before := Children(parent);
    var after := Children(r);
    ChainShapesOfSiblings(parent.firstChild, src);
    ChainShapesOfSiblings(r.firstChild, src);
    var s := ShapeOf(parent, src).children + [ShapeOf(child, src)];
    assert |after| == |before| + 1 && after[|before|] == child;
    forall i | 0 <= i < |after|
      ensures ChainShapes(r.firstChild, src)[i] == s[i]
    {
      if i < |before| {
        assert SameContent(before[i], after[i]);
      }
    }
  }

  // The tokens of a serialization.

  lemma LexPunctuationAt(src: seq<byte>, at: nat)
    requires at < |src|
    requires src[at] in {COLON, COMMA, OPEN_BRACE, CLOSED_BRACE, OPEN_BRACKET, CLOSED_BRACKET}
    ensures NextToken(Parser(src, at, false)).1 == Parser(src, at + 1, false)
    ensures var kind := NextToken(Parser(src, at, false)).0.kind;
            && (src[at] == COLON ==> kind == Colon)
            && (src[at] == COMMA ==> kind == Comma)
            && (src[at] == OPEN_BRACE ==> kind == OpenBrace)
            && (src[at] == CLOSED_BRACE ==> kind == ClosedBrace)
            && (src[at] == OPEN_BRACKET ==> kind == OpenBracket)
            && (src[at] == CLOSED_BRACKET ==> kind == ClosedBracket)
  {
    assert SkipWhiteSpace(src, at) == at;
    LexPunctuation(src, at);
  }

  /** A quoted text: the opening quote, the text, the closing quote. */
  predicate QuotedAt(src: seq<byte>, at: nat, t: seq<byte>) {
    at + |t| + 1 < |src| && src[at] == QUOTE && Holds(src, at + 1, t) && src[at + |t| + 1] == QUOTE
  }

  lemma QuotedLayout(src: seq<byte>, at: nat, t: seq<byte>)
    requires Holds(src, at, [QUOTE] + t + [QUOTE])
    ensures QuotedAt(src, at, t)
  {
    HoldsConcat(src, at, [QUOTE] + t, [QUOTE]);
    HoldsConcat(src, at, [QUOTE], t);
    HoldsByte(src, at, QUOTE);
    HoldsByte(src, at + 1 + |t|, QUOTE);
  }

  /** A string serialized between quotes is one String token holding its text. */
  lemma LexStringText(src: seq<byte>, at: nat, t: seq<byte>)
    requires StringText(t) && QuotedAt(src, at, t)
    ensures NextToken(Parser(src, at, false))
            == (Token(String, Buffer(at + 1, |t|)), Parser(src, at + |t| + 2, false))
  {
    var close := at + 1 + |t|;
    assert ClosesString(src, close) by {
      if |t| > 0 {
        assert src[at + 1 + (|t| - 1)] == ByteAt(t, |t| - 1);
        if |t| > 1 {
          assert src[at + 1 + (|t| - 2)] == ByteAt(t, |t| - 2);
        }
      }
    }
    forall i | at + 1 <= i < close
      ensures !ClosesString(src, i)
    {
      assert src[at + 1 + (i - at - 1)] == ByteAt(t, i - at - 1);
    }
    assert SkipWhiteSpace(src, at) == at;
    LexString(src, at);
  }

  /** A number lexeme followed by what may follow a value is one Number token. */
  lemma LexNumberText(src: seq<byte>, at: nat, t: seq<byte>)
    requires NumberLexeme(t)
    requires Holds(src, at, t) && EndsValue(src, at + |t|)
    ensures NextToken(Parser(src, at, false)) == (Token(Number, Buffer(at, |t|)), Parser(src, at + |t|, false))
  {
    ReadHeldBytes(src, at, t);
    LexNumberSlice(src, at, t);
  }

  lemma LexNumberSlice(src: seq<byte>, at: nat, t: seq<byte>)
    requires NumberLexeme(t)
    requires at + |t| <= |src| && src[at..at + |t|] == t && NumberEnd(src, at + |t|)
    ensures NextToken(Parser(src, at, false)) == (Token(Number, Buffer(at, |t|)), Parser(src, at + |t|, false))
  {
    LexemeIsScannedWhole(src, at, t);
    NumberTokenAt(src, at, t);
  }

  /** Where a number lexeme must stop for the scan to stop with it. */
  predicate NumberEnd(src: seq<byte>, at: nat) {
    at == |src| || (at < |src| && !IsNumberByte(src[at]))
  }

  /** A number scan that starts at the cursor is the next token. */
  lemma NumberTokenAt(src: seq<byte>, at: nat, t: seq<byte>)
    requires at < |src| && (src[at] == MINUS || IsDigit(src[at]))
    requires ScanNumber(src, at) == Scan(Token(Number, Buffer(at, |t|)), at + |t|)
    ensures NextToken(Parser(src, at, false)) == (Token(Number, Buffer(at, |t|)), Parser(src, at + |t|, false))
  {
    assert SkipWhiteSpace(src, at) == at;
    LexDispatchesNumber(src, at);
  }

  /** `true`, `false` and `null` are keyword tokens with an empty value. */
  lemma LexKeywordText(src: seq<byte>, at: nat, first: byte, tail: seq<byte>, kind: TokenType)
    requires || (first == 't' as int && tail == TRUE_TAIL && kind == True)
             || (first == 'f' as int && tail == FALSE_TAIL && kind == False)
             || (first == 'n' as int && tail == NULL_TAIL && kind == Null)
    requires Holds(src, at, [first] + tail)
    ensures NextToken(Parser(src, at, false)) == (Token(kind, Empty), Parser(src, at + 1 + |tail|, false))
  {
    HoldsConcat(src, at, [first], tail);
    HoldsByte(src, at, first);
    forall i | 0 <= i < |tail|
      ensures src[at + 1 + i] == tail[i]
    {
      assert ByteAt(tail, i) == tail[i];
    }
    assert SkipWhiteSpace(src, at) == at;
    LexKeyword(src, at, first, tail, kind);
  }

  // The layout of a serialization.

  /** Every valid value serializes to at least one byte, and never starts with `]`. */
  lemma SerializeStart(v: Value)
    requires Valid(v)
    ensures |Serialize(v)| > 0 && Serialize(v)[0] != CLOSED_BRACKET
  {
    if v.Num? {
      LexemeBytes(v.text);
    }
  }

  /** A piece of the document followed by a separator byte and the rest. */
  lemma SeparatorLayout(src: seq<byte>, at: nat, piece: seq<byte>, last: bool, close: byte, tail: seq<byte>)
    requires last ==> tail == [close]
    requires Holds(src, at, piece + (if last then [] else [COMMA]) + tail)
    ensures Holds(src, at, piece)
    ensures var e := at + |piece|;
            && e < |src| && src[e] == (if last then close else COMMA)
            && (!last ==> Holds(src, e + 1, tail))
  {
    var sep: seq<byte> := if last then [] else [COMMA];
    HoldsConcat(src, at, piece + sep, tail);
    HoldsConcat(src, at, piece, sep);
    if last {
      HoldsByte(src, at + |piece|, close);
    } else {
      HoldsByte(src, at + |piece|, COMMA);
    }
  }

  /** `"key":` followed by the rest of a member. */
  lemma KeyLayout(src: seq<byte>, at: nat, k: seq<byte>, rest: seq<byte>)
    requires Holds(src, at, [QUOTE] + k + [QUOTE, COLON] + rest)
    ensures at < |src| && src[at] == QUOTE
    ensures Holds(src, at + 1, k)
    ensures at + |k| + 2 < |src| && src[at + |k| + 1] == QUOTE && src[at + |k| + 2] == COLON
    ensures Holds(src, at + |k| + 3, rest)
  {
    HoldsConcat(src, at, [QUOTE] + k + [QUOTE, COLON], rest);
    HoldsConcat(src, at, [QUOTE] + k, [QUOTE, COLON]);
    HoldsConcat(src, at, [QUOTE], k);
    HoldsByte(src, at, QUOTE);
    assert ByteAt([QUOTE, COLON], 0) == QUOTE && ByteAt([QUOTE, COLON], 1) == COLON;
  }

  /** Where `"key":value` and the separator after it lie: the key between quotes
      from `at`, the colon, the value, then `}` for the last member or `,` and the
      rest of the members. */
  predicate MemberAt(src: seq<byte>, at: nat, k: seq<byte>, sv: seq<byte>, last: bool, tail: seq<byte>) {
    var e := at + |k| + 3 + |sv|;
    && at < |src| && src[at] == QUOTE
    && Holds(src, at + 1, k)
    && at + |k| + 2 < |src| && src[at + |k| + 1] == QUOTE && src[at + |k| + 2] == COLON
    && Holds(src, at + |k| + 3, sv)
    && e < |src| && src[e] == (if last then CLOSED_BRACE else COMMA)
    && (!last ==> Holds(src, e + 1, tail))
  }

  lemma MemberPieces(src: seq<byte>, at: nat, k: seq<byte>, sv: seq<byte>, last: bool, tail: seq<byte>)
    requires last ==> tail == [CLOSED_BRACE]
    requires Holds(src, at, [QUOTE] + k + [QUOTE, COLON] + sv + (if last then [] else [COMMA]) + tail)
    ensures MemberAt(src, at, k, sv, last, tail)
  {
    var head := [QUOTE] + k + [QUOTE, COLON];
    SeparatorLayout(src, at, head + sv, last, CLOSED_BRACE, tail);
    HoldsConcat(src, at, head, sv);
    HoldsConcat(src, at, [QUOTE] + k, [QUOTE, COLON]);
    HoldsConcat(src, at, [QUOTE], k);
    HoldsByte(src, at, QUOTE);
    assert ByteAt([QUOTE, COLON], 0) == QUOTE && ByteAt([QUOTE, COLON], 1) == COLON;
  }

  /** Where the key, the colon, the value and the separator of the first member lie. */
  lemma MemberLayout(ms: seq<Member>, src: seq<byte>, at: nat)
    requires |ms| > 0 && Holds(src, at, MembersThenClose(ms))
    ensures MemberAt(src, at, ms[0].key, Serialize(ms[0].value), |ms| == 1, MembersThenClose(ms[1..]))
    ensures at + |MembersThenClose(ms)|
            == at + |ms[0].key| + 3 + |Serialize(ms[0].value)| + 1 + (if |ms| == 1 then 0 else |MembersThenClose(ms[1..])|)
  {
    var k := ms[0].key;
    var sv := Serialize(ms[0].value);
    var sep: seq<byte> := if |ms| == 1 then [] else [COMMA];
    var tail := MembersThenClose(ms[1..]);
    assert |ms| == 1 ==> tail == [CLOSED_BRACE];
    assert MembersThenClose(ms) == [QUOTE] + k + [QUOTE, COLON] + sv + sep + tail;
    MemberPieces(src, at, k, sv, |ms| == 1, tail);
  }

  /** Where the first element and its separator lie. */
  lemma ElementLayout(es: seq<Value>, src: seq<byte>, at: nat)
    requires |es| > 0 && Holds(src, at, ElementsThenClose(es))
    ensures var sv := Serialize(es[0]);
            var e := at + |sv|;
            && Holds(src, at, sv)
            && e < |src| && src[e] == (if |es| == 1 then CLOSED_BRACKET else COMMA)
            && (|es| > 1 ==> Holds(src, e + 1, ElementsThenClose(es[1..])))
            && at + |ElementsThenClose(es)| == if |es| == 1 then e + 1 else e + 1 + |ElementsThenClose(es[1..])|
  {
    var sv := Serialize(es[0]);
    var tail := ElementsThenClose(es[1..]);
    assert ElementsThenClose(es) == sv + (if |es| == 1 then [] else [COMMA]) + tail;
    SeparatorLayout(src, at, sv, |es| == 1, CLOSED_BRACKET, tail);
  }

  /** The opening byte of a serialized object or array and what follows it. */
  lemma OpeningLayout(v: Value, src: seq<byte>, at: nat)
    requires v.Object? || v.Array?
    requires Holds(src, at, Serialize(v))
    ensures src[at] == (if v.Object? then OPEN_BRACE else OPEN_BRACKET)
    ensures v.Object? ==> Holds(src, at + 1, MembersThenClose(v.members))
    ensures v.Array? ==> Holds(src, at + 1, ElementsThenClose(v.elements))
  {
    var open := if v.Object? then OPEN_BRACE else OPEN_BRACKET;
    var inner := if v.Object? then MembersThenClose(v.members) else ElementsThenClose(v.elements);
    assert Serialize(v) == [open] + inner;
    HoldsConcat(src, at, [open], inner);
    HoldsByte(src, at, open);
  }

  // The theorem: the tree builder reads every serialization back.

  /** A parsing call stopped at `end` without an error and built `shape`. */
  predicate ReadsTo(r: Built, src: seq<byte>, end: nat, shape: Shape) {
    r.parser == Parser(src, end, false) && ShapeOf(r.node, src) == shape
  }

  /** The serialization of a valid value lies at `at`, followed by what may follow a value. */
  ghost predicate ValueAt(v: Value, src: seq<byte>, at: nat) {
    Valid(v) && Holds(src, at, Serialize(v)) && EndsValue(src, at + |Serialize(v)|)
  }

  /** Valid members and the closing `}` lie at `at`. */
  ghost predicate MembersAt(ms: seq<Member>, src: seq<byte>, at: nat) {
    ValidMembers(ms) && Holds(src, at, MembersThenClose(ms))
  }

  /** At least one valid element and the closing `]` lie at `at`. */
  ghost predicate ElementsAt(es: seq<Value>, src: seq<byte>, at: nat) {
    |es| > 0 && ValidElements(es) && Holds(src, at, ElementsThenClose(es))
  }

  /** A shape with more children after the ones it has. */
  function Appended(s: Shape, more: seq<Shape>): Shape {
    s.(children := s.children + more)
  }

  lemma AppendedNothing(s: Shape)
    ensures Appended(s, []) == s
  {
    assert s.children + [] == s.children;
  }

  /** Appending one shape, then the rest, is appending all of them. */
  lemma AppendedStep(s: Shape, x: Shape, rest: seq<Shape>, all: seq<Shape>)
    requires all == [x] + rest
    ensures Appended(Appended(s, [x]), rest) == Appended(s, all)
    ensures rest == [] ==> Appended(s, [x]) == Appended(s, all)
  {
    assert s.children + [x] + rest == s.children + all;
  }

  /** The shape of a fresh node labelled with `key`. */
  lemma FreshShape(src: seq<byte>, key: Buffer)
    ensures ShapeOf(NewNode.(key := key), src) == Shape(Read(src, key), [], [])
  {
    assert Read(src, Empty) == [];
  }

  /** A scalar token puts its window into the value of the node. */
  lemma ScalarShape(src: seq<byte>, at: nat, key: Buffer, token: Token, q: Parser)
    requires IsScalar(token.kind)
    requires NextToken(Parser(src, at, false)) == (token, q)
    ensures ParseNode(Parser(src, at, false), NewNode.(key := key)) == Built(q, NewNode.(key := key, value := token.value))
    ensures ShapeOf(NewNode.(key := key, value := token.value), src) == Shape(Read(src, key), Read(src, token.value), [])
  {
  }

  lemma ParseReadsNumber(t: seq<byte>, src: seq<byte>, at: nat, key: Buffer)
    requires NumberLexeme(t) && Holds(src, at, t) && EndsValue(src, at + |t|)
    ensures ReadsTo(ParseNode(Parser(src, at, false), NewNode.(key := key)), src, at + |t|, Shape(Read(src, key), t, []))
  {
    LexNumberText(src, at, t);
    ScalarShape(src, at, key, Token(Number, Buffer(at, |t|)), Parser(src, at + |t|, false));
    ReadHeld(src, at, t);
  }

  lemma ParseReadsString(t: seq<byte>, src: seq<byte>, at: nat, key: Buffer)
    requires StringText(t) && Holds(src, at, [QUOTE] + t + [QUOTE])
    ensures ReadsTo(ParseNode(Parser(src, at, false), NewNode.(key := key)), src, at + |t| + 2, Shape(Read(src, key), t, []))
  {
    QuotedLayout(src, at, t);
    LexStringText(src, at, t);
    ScalarShape(src, at, key, Token(String, Buffer(at + 1, |t|)), Parser(src, at + |t| + 2, false));
    ReadHeld(src, at + 1, t);
  }

  lemma ParseReadsKeyword(src: seq<byte>, at: nat, key: Buffer, first: byte, tail: seq<byte>, kind: TokenType)
    requires || (first == 't' as int && tail == TRUE_TAIL && kind == True)
             || (first == 'f' as int && tail == FALSE_TAIL && kind == False)
             || (first == 'n' as int && tail == NULL_TAIL && kind == Null)
    requires Holds(src, at, [first] + tail)
    ensures ReadsTo(ParseNode(Parser(src, at, false), NewNode.(key := key)), src, at + 1 + |tail|, Shape(Read(src, key), [], []))
  {
    LexKeywordText(src, at, first, tail, kind);
    ScalarShape(src, at, key, Token(kind, Empty), Parser(src, at + 1 + |tail|, false));
    assert Read(src, Empty) == [];
  }

  /** JSON_parse_node reads the serialization of any valid value, as the value
      of a fresh node labelled `key`: it stops right after it, sets no error, and
      builds the expected shape. */
  lemma {:induction false} ParseReadsValue(v: Value, src: seq<byte>, at: nat, key: Buffer)
    requires ValueAt(v, src, at)
    ensures ReadsTo(ParseNode(Parser(src, at, false), NewNode.(key := key)), src, at + |Serialize(v)|, Expected(v, Read(src, key)))
    decreases v, 2
  {
    match v
    case Num(t) => ParseReadsNumber(t, src, at, key);
    case Str(t) => ParseReadsString(t, src, at, key);
    case Bool(b) =>
      if b {
        ParseReadsKeyword(src, at, key, 't' as int, TRUE_TAIL, True);
      } else {
        ParseReadsKeyword(src, at, key, 'f' as int, FALSE_TAIL, False);
      }
    case Nil => ParseReadsKeyword(src, at, key, 'n' as int, NULL_TAIL, Null);
    case Object(ms) => ParseReadsObject(ms, src, at, key);
    case Array(es) => ParseReadsArray(es, src, at, key);
  }

  lemma {:induction false} ParseReadsObject(ms: seq<Member>, src: seq<byte>, at: nat, key: Buffer)
    requires ValidMembers(ms) && Holds(src, at, Serialize(Object(ms)))
    ensures ReadsTo(ParseNode(Parser(src, at, false), NewNode.(key := key)), src, at + |Serialize(Object(ms))|,
                    Shape(Read(src, key), [], MemberShapes(ms)))
    decreases ms, 6
  {
    var node := NewNode.(key := key);
    OpeningLayout(Object(ms), src, at);
    LexPunctuationAt(src, at);
    OpensObject(Parser(src, at, false), node);
    FreshShape(src, key);
    ParseReadsMembers(ms, src, at + 1, node);
    assert [] + MemberShapes(ms) == MemberShapes(ms);
  }

  lemma {:induction false} ParseReadsArray(es: seq<Value>, src: seq<byte>, at: nat, key: Buffer)
    requires ValidElements(es) && Holds(src, at, Serialize(Array(es)))
    ensures ReadsTo(ParseNode(Parser(src, at, false), NewNode.(key := key)), src, at + |Serialize(Array(es))|,
                    Shape(Read(src, key), [], ElementShapes(es)))
    decreases es, 4
  {
    var node := NewNode.(key := key);
    OpeningLayout(Array(es), src, at);
    LexPunctuationAt(src, at);
    FreshShape(src, key);
    if |es| == 0 {
      EmptyArrayReads(src, at, node);
    } else {
      ElementsStart(es, src, at + 1);
      OpensArray(Parser(src, at, false), node);
      ParseReadsElements(es, src, at + 1, node);
      assert [] + ElementShapes(es) == ElementShapes(es);
    }
  }

  /** `[]` leaves the node as it was. */
  lemma EmptyArrayReads(src: seq<byte>, at: nat, node: Node)
    requires NextToken(Parser(src, at, false)) == (Token(OpenBracket, Empty), Parser(src, at + 1, false))
    requires Holds(src, at + 1, [CLOSED_BRACKET])
    ensures ParseNode(Parser(src, at, false), node) == Built(Parser(src, at + 2, false), node)
  {
    HoldsByte(src, at + 1, CLOSED_BRACKET);
    LexPunctuationAt(src, at + 1);
    OpensArray(Parser(src, at, false), node);
  }

  /** Elements never start with `]`, so `[` followed by them is not read as `[]`. */
  lemma ElementsStart(es: seq<Value>, src: seq<byte>, at: nat)
    requires ElementsAt(es, src, at)
    ensures at < |src| && src[at] != CLOSED_BRACKET
  {
    ElementLayout(es, src, at);
    SerializeStart(es[0]);
    assert src[at + 0] == ByteAt(Serialize(es[0]), 0);
  }

  /** The loop of the object case reads the members and the closing `}`. */
  lemma {:induction false} ParseReadsMembers(ms: seq<Member>, src: seq<byte>, at: nat, node: Node)
    requires MembersAt(ms, src, at)
    ensures ReadsTo(ParseMembers(Parser(src, at, false), node), src, at + |MembersThenClose(ms)|,
                    Appended(ShapeOf(node, src), MemberShapes(ms)))
    decreases ms, 5
  {
    if |ms| == 0 {
      NoMembersRead(ms, src, at, node);
    } else {
      var parent, rest, next := MemberStepReads(ms, src, at, node);
      if |ms| > 1 {
        ParseReadsMembers(rest, src, next, parent);
      }
    }
  }

  /** `}` in place of the first key ends the object with nothing added. */
  lemma NoMembersRead(ms: seq<Member>, src: seq<byte>, at: nat, node: Node)
    requires |ms| == 0 && MembersAt(ms, src, at)
    ensures ReadsTo(ParseMembers(Parser(src, at, false), node), src, at + |MembersThenClose(ms)|,
                    Appended(ShapeOf(node, src), MemberShapes(ms)))
  {
    HoldsByte(src, at, CLOSED_BRACE);
    LexPunctuationAt(src, at);
    MembersAcceptClosingBrace(Parser(src, at, false), node);
    AppendedNothing(ShapeOf(node, src));
  }

  /** One member: the loop reads it, attaches it, and either stops after `}` or
      goes on after `,` with the rest, which then read into the whole. */
  lemma {:induction false} MemberStepReads(ms: seq<Member>, src: seq<byte>, at: nat, node: Node)
    returns (parent: Node, rest: seq<Member>, next: nat)
    requires |ms| > 0 && MembersAt(ms, src, at)
    ensures |ms| == 1 ==>
              ReadsTo(ParseMembers(Parser(src, at, false), node), src, at + |MembersThenClose(ms)|,
                      Appended(ShapeOf(node, src), MemberShapes(ms)))
    ensures |ms| > 1 ==> rest == ms[1..] && MembersAt(rest, src, next)
    ensures |ms| > 1 ==>
              ReadsTo(ParseMembers(Parser(src, next, false), parent), src, next + |MembersThenClose(rest)|,
                      Appended(ShapeOf(parent, src), MemberShapes(rest)))
              ==> ReadsTo(ParseMembers(Parser(src, at, false), node), src, at + |MembersThenClose(ms)|,
                          Appended(ShapeOf(node, src), MemberShapes(ms)))
    decreases ms, 4
  {
    if |ms| == 1 {
      parent := LastMember(ms, src, at, node);
      rest, next := [], 0;
      ReadsToBuilt(ParseMembers(Parser(src, at, false), node), parent, src, at + |MembersThenClose(ms)|,
                   Appended(ShapeOf(node, src), MemberShapes(ms)));
    } else {
      parent, rest, next := MoreMembers(ms, src, at, node);
      ReadsToTransfer(ParseMembers(Parser(src, next, false), parent), ParseMembers(Parser(src, at, false), node),
                      src, next + |MembersThenClose(rest)|, at + |MembersThenClose(ms)|,
                      Appended(ShapeOf(parent, src), MemberShapes(rest)), Appended(ShapeOf(node, src), MemberShapes(ms)));
    }
  }

  /** The last member: the loop attaches it and stops after `}`. */
  lemma {:induction false} LastMember(ms: seq<Member>, src: seq<byte>, at: nat, node: Node) returns (parent: Node)
    requires |ms| == 1 && MembersAt(ms, src, at)
    ensures ParseMembers(Parser(src, at, false), node) == Built(Parser(src, at + |MembersThenClose(ms)|, false), parent)
    ensures ShapeOf(parent, src) == Appended(ShapeOf(node, src), MemberShapes(ms))
    decreases ms, 3
  {
    var child, e, _, _ := MemberHead(ms, src, at, node);
    assert MemberShapes(ms) == [Expected(ms[0].value, ms[0].key)] + [];
    parent := MemberTail(child, node, src, e, true, Expected(ms[0].value, ms[0].key), [], MemberShapes(ms));
  }

  /** A member followed by `,`: the loop attaches it and goes on with the rest. */
  lemma {:induction false} MoreMembers(ms: seq<Member>, src: seq<byte>, at: nat, node: Node)
    returns (parent: Node, rest: seq<Member>, next: nat)
    requires |ms| > 1 && MembersAt(ms, src, at)
    ensures rest == ms[1..] && MembersAt(rest, src, next)
    ensures ParseMembers(Parser(src, at, false), node) == ParseMembers(Parser(src, next, false), parent)
    ensures next + |MembersThenClose(rest)| == at + |MembersThenClose(ms)|
    ensures Appended(ShapeOf(parent, src), MemberShapes(rest)) == Appended(ShapeOf(node, src), MemberShapes(ms))
    decreases ms, 3
  {
    var child, e;
    child, e, rest, next := MemberHead(ms, src, at, node);
    parent := MemberTail(child, node, src, e, false, Expected(ms[0].value, ms[0].key), MemberShapes(rest), MemberShapes(ms));
  }

  /** The key, the colon and the value of the first member, and where it ends. */
  lemma {:induction false} MemberHead(ms: seq<Member>, src: seq<byte>, at: nat, node: Node)
    returns (child: Built, e: nat, rest: seq<Member>, next: nat)
    requires |ms| > 0 && MembersAt(ms, src, at)
    ensures child.node.nextSibling.None?
    ensures ParseMembers(Parser(src, at, false), node) == AfterMember(child, node)
    ensures ReadsTo(child, src, e, Expected(ms[0].value, ms[0].key))
    ensures e < |src| && src[e] == (if |ms| == 1 then CLOSED_BRACE else COMMA)
    ensures |ms| == 1 ==> at + |MembersThenClose(ms)| == e + 1
    ensures rest == ms[1..] && next == e + 1
    ensures |ms| > 1 ==> rest == ms[1..] && MembersAt(rest, src, next)
    ensures |ms| > 1 ==> next + |MembersThenClose(rest)| == at + |MembersThenClose(ms)|
    decreases ms, 2
  {
    var k;
    k, e := MemberPlace(ms, src, at);
    rest, next := ms[1..], e + 1;
    child := MemberValue(k, ms[0].value, src, at);
    MemberOpening(k, src, at, node);
  }

  /** Where the key, the colon, the value and the separator of the first member lie. */
  lemma MemberPlace(ms: seq<Member>, src: seq<byte>, at: nat) returns (k: seq<byte>, e: nat)
    requires |ms| > 0 && MembersAt(ms, src, at)
    ensures k == ms[0].key && e == at + |k| + 3 + |Serialize(ms[0].value)|
    ensures StringText(k) && QuotedAt(src, at, k) && ValueAt(ms[0].value, src, at + |k| + 3)
    ensures at + |k| + 2 < |src| && src[at + |k| + 2] == COLON
    ensures e < |src| && src[e] == (if |ms| == 1 then CLOSED_BRACE else COMMA)
    ensures |ms| == 1 ==> at + |MembersThenClose(ms)| == e + 1
    ensures |ms| > 1 ==> at + |MembersThenClose(ms)| == e + 1 + |MembersThenClose(ms[1..])| && MembersAt(ms[1..], src, e + 1)
  {
    k := ms[0].key;
    e := at + |k| + 3 + |Serialize(ms[0].value)|;
    MemberLayout(ms, src, at);
  }

  /** The separator after a member that was read, and the member attached:
      whatever its value was, `}` stops the loop and `,` goes on. */
  lemma MemberTail(child: Built, node: Node, src: seq<byte>, e: nat, last: bool, shape: Shape, more: seq<Shape>, all: seq<Shape>)
    returns (parent: Node)
    requires child.node.nextSibling.None? && ReadsTo(child, src, e, shape)
    requires e < |src| && src[e] == (if last then CLOSED_BRACE else COMMA)
    requires all == [shape] + more
    ensures Appended(ShapeOf(parent, src), more) == Appended(ShapeOf(node, src), all)
    ensures more == [] ==> ShapeOf(parent, src) == Appended(ShapeOf(node, src), all)
    ensures last ==> AfterMember(child, node) == Built(Parser(src, e + 1, false), parent)
    ensures !last ==> AfterMember(child, node) == ParseMembers(Parser(src, e + 1, false), parent)
  {
    SeparatorAfter(child, node, src, e, last);
    AttachChildShape(node, child.node, src);
    parent := AttachChild(node, child.node);
    AppendedStep(ShapeOf(node, src), shape, more, all);
  }

  /** The value of a member, read into a fresh node labelled with its key. */
  lemma {:induction false} MemberValue(k: seq<byte>, v: Value, src: seq<byte>, at: nat) returns (child: Built)
    requires QuotedAt(src, at, k) && ValueAt(v, src, at + |k| + 3)
    ensures child == ParseNode(Parser(src, at + |k| + 3, false), NewNode.(key := Buffer(at + 1, |k|)))
    ensures child.node.nextSibling.None?
    ensures ReadsTo(child, src, at + |k| + 3 + |Serialize(v)|, Expected(v, k))
    decreases v, 4
  {
    ReadHeld(src, at + 1, k);
    ParseReadsValue(v, src, at + |k| + 3, Buffer(at + 1, |k|));
    child := ParseNode(Parser(src, at + |k| + 3, false), NewNode.(key := Buffer(at + 1, |k|)));
  }

  /** The key and colon of a member: the loop goes on to read its value. */
  lemma MemberOpening(k: seq<byte>, src: seq<byte>, at: nat, node: Node)
    requires StringText(k) && QuotedAt(src, at, k) && at + |k| + 2 < |src| && src[at + |k| + 2] == COLON
    ensures ParseMembers(Parser(src, at, false), node)
            == AfterMember(ParseNode(Parser(src, at + |k| + 3, false), NewNode.(key := Buffer(at + 1, |k|))), node)
  {
    LexStringText(src, at, k);
    LexPunctuationAt(src, at + |k| + 2);
    MemberWithKey(Parser(src, at, false), node);
  }

  /** The `}` or `,` after a member. */
  lemma SeparatorAfter(child: Built, node: Node, src: seq<byte>, e: nat, last: bool)
    requires child.parser == Parser(src, e, false) && child.node.nextSibling.None?
    requires e < |src| && src[e] == (if last then CLOSED_BRACE else COMMA)
    ensures last ==> AfterMember(child, node) == Built(Parser(src, e + 1, false), AttachChild(node, child.node))
    ensures !last ==> AfterMember(child, node) == ParseMembers(Parser(src, e + 1, false), AttachChild(node, child.node))
  {
    LexPunctuationAt(src, e);
    MemberSeparator(child, node);
  }

  /** The loop of the array case reads the elements and the closing `]`. */
  lemma {:induction false} ParseReadsElements(es: seq<Value>, src: seq<byte>, at: nat, node: Node)
    requires ElementsAt(es, src, at)
    ensures ReadsTo(ParseElements(Parser(src, at, false), node), src, at + |ElementsThenClose(es)|,
                    Appended(ShapeOf(node, src), ElementShapes(es)))
    decreases es, 3
  {
    var parent, rest, next := ElementStepReads(es, src, at, node);
    if |es| > 1 {
      ParseReadsElements(rest, src, next, parent);
    }
  }

  /** One element: the loop reads it, attaches it, and either stops after `]` or
      goes on after `,` with the rest, which then read into the whole. */
  lemma {:induction false} ElementStepReads(es: seq<Value>, src: seq<byte>, at: nat, node: Node)
    returns (parent: Node, rest: seq<Value>, next: nat)
    requires ElementsAt(es, src, at)
    ensures |es| == 1 ==>
              ReadsTo(ParseElements(Parser(src, at, false), node), src, at + |ElementsThenClose(es)|,
                      Appended(ShapeOf(node, src), ElementShapes(es)))
    ensures |es| > 1 ==> rest == es[1..] && ElementsAt(rest, src, next)
    ensures |es| > 1 ==>
              ReadsTo(ParseElements(Parser(src, next, false), parent), src, next + |ElementsThenClose(rest)|,
                      Appended(ShapeOf(parent, src), ElementShapes(rest)))
              ==> ReadsTo(ParseElements(Parser(src, at, false), node), src, at + |ElementsThenClose(es)|,
                          Appended(ShapeOf(node, src), ElementShapes(es)))
    decreases es, 2
  {
    if |es| == 1 {
      parent := LastElement(es, src, at, node);
      rest, next := [], 0;
      ReadsToBuilt(ParseElements(Parser(src, at, false), node), parent, src, at + |ElementsThenClose(es)|,
                   Appended(ShapeOf(node, src), ElementShapes(es)));
    } else {
      parent, rest, next := MoreElements(es, src, at, node);
      ReadsToTransfer(ParseElements(Parser(src, next, false), parent), ParseElements(Parser(src, at, false), node),
                      src, next + |ElementsThenClose(rest)|, at + |ElementsThenClose(es)|,
                      Appended(ShapeOf(parent, src), ElementShapes(rest)), Appended(ShapeOf(node, src), ElementShapes(es)));
    }
  }

  /** A result that stops at `end` with a node of the given shape reads to it. */
  lemma ReadsToBuilt(r: Built, n: Node, src: seq<byte>, end: nat, shape: Shape)
    requires r == Built(Parser(src, end, false), n) && ShapeOf(n, src) == shape
    ensures ReadsTo(r, src, end, shape)
  {
  }

  /** Reading into equal results is the same read. */
  lemma ReadsToTransfer(r: Built, r': Built, src: seq<byte>, end: nat, end': nat, shape: Shape, shape': Shape)
    requires r == r' && end == end' && shape == shape'
    ensures ReadsTo(r, src, end, shape) ==> ReadsTo(r', src, end', shape')
  {
  }

  /** The last element: the loop attaches it and stops after `]`. */
  lemma {:induction false} LastElement(es: seq<Value>, src: seq<byte>, at: nat, node: Node) returns (parent: Node)
    requires |es| == 1 && ElementsAt(es, src, at)
    ensures ParseElements(Parser(src, at, false), node) == Built(Parser(src, at + |ElementsThenClose(es)|, false), parent)
    ensures ShapeOf(parent, src) == Appended(ShapeOf(node, src), ElementShapes(es))
    decreases es, 1
  {
    var child, e := ElementHead(es, src, at, node);
    parent := ElementTail(child, node, src, e, true, Expected(es[0], []));
    assert ElementShapes(es) == [Expected(es[0], [])];
  }

  /** An element followed by `,`: the loop attaches it and goes on with the rest. */
  lemma {:induction false} MoreElements(es: seq<Value>, src: seq<byte>, at: nat, node: Node)
    returns (parent: Node, rest: seq<Value>, next: nat)
    requires |es| > 1 && ElementsAt(es, src, at)
    ensures rest == es[1..] && ElementsAt(rest, src, next)
    ensures ParseElements(Parser(src, at, false), node) == ParseElements(Parser(src, next, false), parent)
    ensures next + |ElementsThenClose(rest)| == at + |ElementsThenClose(es)|
    ensures Appended(ShapeOf(parent, src), ElementShapes(rest)) == Appended(ShapeOf(node, src), ElementShapes(es))
    decreases es, 1
  {
    var child, e := ElementHead(es, src, at, node);
    parent := ElementTail(child, node, src, e, false, Expected(es[0], []));
    rest := es[1..];
    next := e + 1;
    AppendedStep(ShapeOf(node, src), Expected(es[0], []), ElementShapes(rest), ElementShapes(es));
  }

  /** The first element's value and where it ends. */
  lemma {:induction false} ElementHead(es: seq<Value>, src: seq<byte>, at: nat, node: Node) returns (child: Built, e: nat)
    requires ElementsAt(es, src, at)
    ensures child.node.key == Empty && child.node.nextSibling.None?
    ensures ParseElements(Parser(src, at, false), node) == AfterElement(child, node)
    ensures ReadsTo(child, src, e, Expected(es[0], []))
    ensures e < |src| && src[e] == (if |es| == 1 then CLOSED_BRACKET else COMMA)
    ensures |es| == 1 ==> at + |ElementsThenClose(es)| == e + 1
    ensures |es| > 1 ==> at + |ElementsThenClose(es)| == e + 1 + |ElementsThenClose(es[1..])| && ElementsAt(es[1..], src, e + 1)
    decreases es, 0
  {
    e := at + |Serialize(es[0])|;
    ElementLayout(es, src, at);
    SerializeStart(es[0]);
    ElementStep(Parser(src, at, false), node);
    child := ElementValue(es[0], src, at);
  }

  /** The separator after a child that was read, and the child attached: whatever
      the child was, `]` stops the loop and `,` goes on. */
  lemma ElementTail(child: Built, node: Node, src: seq<byte>, e: nat, last: bool, shape: Shape) returns (parent: Node)
    requires child.node.key == Empty && child.node.nextSibling.None? && ReadsTo(child, src, e, shape)
    requires e < |src| && src[e] == (if last then CLOSED_BRACKET else COMMA)
    ensures ShapeOf(parent, src) == Appended(ShapeOf(node, src), [shape])
    ensures last ==> AfterElement(child, node) == Built(Parser(src, e + 1, false), parent)
    ensures !last ==> AfterElement(child, node) == ParseElements(Parser(src, e + 1, false), parent)
  {
    ElementSeparatorAfter(child, node, src, e, last);
    AttachChildShape(node, child.node, src);
    parent := AttachChild(node, child.node);
  }

  /** An element, read into a fresh unlabelled node. */
  lemma {:induction false} ElementValue(v: Value, src: seq<byte>, at: nat) returns (child: Built)
    requires ValueAt(v, src, at)
    ensures child == ParseNode(Parser(src, at, false), NewNode)
    ensures child.node.key == Empty && child.node.nextSibling.None?
    ensures ReadsTo(child, src, at + |Serialize(v)|, Expected(v, []))
    decreases v, 3
  {
    ParseReadsValue(v, src, at, Empty);
    assert Read(src, Empty) == [];
    assert NewNode.(key := Empty) == NewNode;
    child := ParseNode(Parser(src, at, false), NewNode);
  }

  /** The `]` or `,` after an element. */
  lemma ElementSeparatorAfter(child: Built, node: Node, src: seq<byte>, e: nat, last: bool)
    requires child.parser == Parser(src, e, false) && child.node.key == Empty && child.node.nextSibling.None?
    requires e < |src| && src[e] == (if last then CLOSED_BRACKET else COMMA)
    ensures last ==> AfterElement(child, node) == Built(Parser(src, e + 1, false), AttachChild(node, child.node))
    ensures !last ==> AfterElement(child, node) == ParseElements(Parser(src, e + 1, false), AttachChild(node, child.node))
  {
    LexPunctuationAt(src, e);
    ElementSeparator(child, node);
  }

  /** JSON_parse reads back the serialization of every valid value: it returns a
      tree, the tree has the value's shape, and so every key and scalar window
      spells the bytes written for it and the children are in document order. */
  lemma ParseReadsSerialization(v: Value)
    requires Valid(v)
    ensures var doc := Serialize(v);
            Parse(doc).Some? && ShapeOf(Parse(doc).value, doc) == Expected(v, [])
  {
    var doc := Serialize(v);
    forall i | 0 <= i < |doc|
      ensures doc[0 + i] == ByteAt(doc, i)
    {
    }
    ParseReadsValue(v, doc, 0, Empty);
    assert Read(doc, Empty) == [];
    assert NewNode.(key := Empty) == NewNode;
  }
}
