/** The recursive-descent tree builder: JSON_parse_node and JSON_parse
    (json_parser.c:300-399). Each call reads tokens from the cursor and hangs what
    it reads under the node it was given; the error flag, once set, stays set, and
    JSON_parse yields no tree when it is set. */
module TreeBuilder {
  import opened Bytes
  import opened Wrappers
  import opened Tokenizer
  import opened Nodes

  /** The parser after a call and the node the call filled in. */
  datatype Built = Built(parser: Parser, node: Node)

  /** Bytes left before the end of the document. Every nested call starts after
      its caller has consumed at least one byte, so this measure shrinks. */
  function Remaining(p: Parser): nat {
    if p.at < |p.source| then |p.source| - p.at else 0
  }

  function Fail(p: Parser): Parser {
    p.(errorEncountered := true)
  }

  predicate IsScalar(kind: TokenType) {
    kind == Number || kind == String || kind == True || kind == False || kind == Null
  }

  /** What every parsing call promises about the parser it returns. */
  predicate Advances(p: Parser, q: Parser) {
    && q.source == p.source
    && p.at <= q.at
    && (p.errorEncountered ==> q.errorEncountered)
  }

  /** What every parsing call promises about the node it returns: the node keeps
      its label and link, and the children it had stay first, in order. */
  predicate Grows(node: Node, r: Node) {
    && r.key == node.key
    && r.nextSibling == node.nextSibling
    && ChildrenExtend(node, r)
  }

  /** JSON_parse_node: reads one value. An object or array adds its members or
      elements as children of `node`; a scalar only sets the value of `node`; the
      end of the input changes nothing; any other token sets the error flag. */
  function ParseNode(p: Parser, node: Node): (r: Built)
    ensures Advances(p, r.parser) && Grows(node, r.node)
    ensures p.at < |p.source| ==> p.at < r.parser.at
    ensures node.value == Empty && node.firstChild.None? && WellFormed(node, p.source) ==>
              WellFormed(r.node, p.source)
    ensures var (token, q) := NextToken(p);
            && (IsScalar(token.kind) ==> r == Built(q, node.(value := token.value)))
            && (token.kind == EndOfStream ==> r == Built(q, node))
            && (token.kind in {Colon, Comma, ClosedBrace, ClosedBracket, Error} ==> r == Built(Fail(q), node))
            && (token.kind in {OpenBrace, OpenBracket} ==> r.node.value == node.value)
    decreases Remaining(p), 0
  {
    var (token, q) := NextToken(p);
    match token.kind
    case OpenBrace => ParseMembers(q, node)
    case OpenBracket =>
      // The raw byte right after `[` decides whether the array is empty.
      if q.at < |q.source| && q.source[q.at] == CLOSED_BRACKET then Built(NextToken(q).1, node)
      else ParseElements(q, node)
    case Number | String | True | False | Null => Built(q, node.(value := token.value))
    case EndOfStream => Built(q, node)
    case _ => Built(Fail(q), node)
  }

  /** The loop of the object case (json_parser.c:305-340): a key is expected while
      the cursor is inside the document and no error is set. A `}` in place of a
      key ends the object; a key must be a String followed by `:`. */
  function ParseMembers(p: Parser, node: Node): (r: Built)
    ensures Advances(p, r.parser) && Grows(node, r.node) && r.node.value == node.value
    ensures !(p.at < |p.source| && !p.errorEncountered) ==> r == Built(p, node)
    ensures p.at < |p.source| && !p.errorEncountered && NextToken(p).0.kind == ClosedBrace ==>
              r == Built(NextToken(p).1, node)
    ensures p.at < |p.source| && !p.errorEncountered
            && NextToken(p).0.kind == String && NextToken(NextToken(p).1).0.kind == Colon ==>
              var valueNode := ParseNode(NextToken(NextToken(p).1).1, NewNode.(key := NextToken(p).0.value)).node;
              |Children(r.node)| > |Children(node)| && SameContent(Children(r.node)[|Children(node)|], valueNode)
    ensures node.value == Empty && WellFormed(node, p.source) ==> WellFormed(r.node, p.source)
    decreases Remaining(p), 1
  {
    if !(p.at < |p.source| && !p.errorEncountered) then Built(p, node)
    else
      var (key, afterKey) := NextToken(p);
      if key.kind == String then
        var (colon, afterColon) := NextToken(afterKey);
        if colon.kind != Colon then Built(Fail(afterColon), node)
        else ParseMember(afterColon, node, key.value)
      else if key.kind == ClosedBrace then Built(afterKey, node)
      else ParseMember(Fail(afterKey), node, Empty)
  }

  /** One member (json_parser.c:326-339): a new node labelled with the key gets the
      value that follows. */
  function ParseMember(p: Parser, node: Node, keyView: Buffer): (r: Built)
    requires InBounds(keyView, p.source)
    ensures Advances(p, r.parser) && Grows(node, r.node) && r.node.value == node.value
    ensures |Children(r.node)| > |Children(node)| && Children(r.node)[|Children(node)|].key == keyView
    ensures SameContent(Children(r.node)[|Children(node)|], ParseNode(p, NewNode.(key := keyView)).node)
    ensures node.value == Empty && WellFormed(node, p.source) ==> WellFormed(r.node, p.source)
    decreases Remaining(p), 3
  {
    var newNode := NewNode.(key := keyView);
    assert WellFormed(newNode, p.source);
    AfterMember(ParseNode(p, newNode), node)
  }

  /** The rest of a member: the parsed node is attached as the last child, then a
      `}` ends the object, a `,` continues it, and anything else sets the error flag
      and the loop goes on. */
  function AfterMember(child: Built, node: Node): (r: Built)
    requires child.node.nextSibling.None?
    ensures Advances(child.parser, r.parser) && Grows(node, r.node) && r.node.value == node.value
    ensures |Children(r.node)| > |Children(node)| && SameContent(Children(r.node)[|Children(node)|], child.node)
    ensures node.value == Empty && WellFormed(node, child.parser.source) && WellFormed(child.node, child.parser.source) ==>
              WellFormed(r.node, child.parser.source)
    decreases Remaining(child.parser), 2
  {
    var parent := AttachChild(node, child.node);
    AttachChildWellFormed(node, child.node, child.parser.source);
    var (separator, afterSeparator) := NextToken(child.parser);
    var rest := if separator.kind == ClosedBrace then Built(afterSeparator, parent)
                else ParseMembers(if separator.kind == Comma then afterSeparator else Fail(afterSeparator), parent);
    ChildrenExtendTransitive(node, parent, rest.node);
    assert SameContent(Children(parent)[|Children(node)|], Children(rest.node)[|Children(node)|]);
    rest
  }

  /** The array case after a non-empty `[` (json_parser.c:349-363): while the cursor
      is inside the document and no error is set, a new unlabelled node gets the
      next value. */
  function ParseElements(p: Parser, node: Node): (r: Built)
    ensures Advances(p, r.parser) && Grows(node, r.node) && r.node.value == node.value
    ensures !(p.at < |p.source| && !p.errorEncountered) ==> r == Built(p, node)
    ensures p.at < |p.source| && !p.errorEncountered ==>
              |Children(r.node)| > |Children(node)| && SameContent(Children(r.node)[|Children(node)|], ParseNode(p, NewNode).node)
    ensures forall i | |Children(node)| <= i < |Children(r.node)| :: Children(r.node)[i].key == Empty
    ensures node.value == Empty && WellFormed(node, p.source) ==> WellFormed(r.node, p.source)
    decreases Remaining(p), 1
  {
    if !(p.at < |p.source| && !p.errorEncountered) then Built(p, node)
    else AfterElement(ParseNode(p, NewNode), node)
  }

  /** The rest of an element: the parsed node is attached as the last child, then
      a `]` ends the array, a `,` continues it, and anything else sets the error
      flag and the loop goes on. */
  function AfterElement(child: Built, node: Node): (r: Built)
    requires child.node.key == Empty && child.node.nextSibling.None?
    ensures Advances(child.parser, r.parser) && Grows(node, r.node) && r.node.value == node.value
    ensures forall i | |Children(node)| <= i < |Children(r.node)| :: Children(r.node)[i].key == Empty
    ensures |Children(r.node)| > |Children(node)| && SameContent(Children(r.node)[|Children(node)|], child.node)
    ensures node.value == Empty && WellFormed(node, child.parser.source) && WellFormed(child.node, child.parser.source) ==>
              WellFormed(r.node, child.parser.source)
    decreases Remaining(child.parser), 2
  {
    var parent := AttachChild(node, child.node);
    AttachChildWellFormed(node, child.node, child.parser.source);
    var (separator, afterSeparator) := NextToken(child.parser);
    var rest := if separator.kind == ClosedBracket then Built(afterSeparator, parent)
                else ParseElements(if separator.kind == Comma then afterSeparator else Fail(afterSeparator), parent);
    ChildrenExtendTransitive(node, parent, rest.node);
    NewChildrenUnlabelled(node, parent, rest.node);
    assert SameContent(Children(parent)[|Children(node)|], Children(rest.node)[|Children(node)|]);
    rest
  }

  /** The child an element attaches is unlabelled, and so are the ones after it. */
  lemma NewChildrenUnlabelled(node: Node, parent: Node, rest: Node)
    requires |Children(parent)| == |Children(node)| + 1 && Children(parent)[|Children(node)|].key == Empty
    requires ChildrenExtend(parent, rest)
    requires forall i | |Children(parent)| <= i < |Children(rest)| :: Children(rest)[i].key == Empty
    ensures forall i | |Children(node)| <= i < |Children(rest)| :: Children(rest)[i].key == Empty
  {
    assert SameContent(Children(parent)[|Children(node)|], Children(rest)[|Children(node)|]);
  }

  /** The parser JSON_parse starts with. */
  function Start(data: seq<byte>): Parser {
    Parser(data, 0, false)
  }

  /** JSON_parse: one value is read into a fresh root and whatever follows it is
      never looked at. No tree is returned when the error flag was set. */
  function Parse(data: seq<byte>): (r: Option<Node>)
    ensures r.Some? ==> r.value.key == Empty && r.value.nextSibling.None? && WellFormed(r.value, data)
    ensures r.Some? <==> !ParseNode(Start(data), NewNode).parser.errorEncountered
  {
    var built := ParseNode(Start(data), NewNode);
    if built.parser.errorEncountered then None else Some(built.node)
  }

  /** The first token alone decides a document that does not start with `{` or `[`:
      a scalar becomes the value of the root and whatever follows it is ignored, the
      end of the input gives an empty root, and any other token gives no tree. */
  lemma ParseByFirstToken(data: seq<byte>)
    ensures var first := Lex(data, 0).token;
            && (IsScalar(first.kind) ==> Parse(data) == Some(NewNode.(value := first.value)))
            && (first.kind == EndOfStream ==> Parse(data) == Some(NewNode))
            && (first.kind in {Colon, Comma, ClosedBrace, ClosedBracket, Error} ==> Parse(data) == None)
  {
  }

  /** ParseNode on a `{`: the member loop runs after it. */
  lemma OpensObject(p: Parser, node: Node)
    requires NextToken(p).0.kind == OpenBrace
    ensures ParseNode(p, node) == ParseMembers(NextToken(p).1, node)
  {
  }

  /** ParseNode on a `[`: the raw byte after it decides between the empty array and
      the element loop. */
  lemma OpensArray(p: Parser, node: Node)
    requires NextToken(p).0.kind == OpenBracket
    ensures var q := NextToken(p).1;
            ParseNode(p, node) == if q.at < |q.source| && q.source[q.at] == CLOSED_BRACKET
                                  then Built(NextToken(q).1, node) else ParseElements(q, node)
  {
  }

  /** The member loop on a String key followed by `:`. */
  lemma MemberWithKey(p: Parser, node: Node)
    requires p.at < |p.source| && !p.errorEncountered
    requires NextToken(p).0.kind == String && NextToken(NextToken(p).1).0.kind == Colon
    ensures ParseMembers(p, node)
            == AfterMember(ParseNode(NextToken(NextToken(p).1).1, NewNode.(key := NextToken(p).0.value)), node)
  {
  }

  /** The end of a member: the child is attached, then `}` ends the object and `,`
      continues it. */
  lemma MemberSeparator(child: Built, node: Node)
    requires child.node.nextSibling.None?
    requires NextToken(child.parser).0.kind in {ClosedBrace, Comma}
    ensures var (separator, afterSeparator) := NextToken(child.parser);
            AfterMember(child, node)
            == if separator.kind == ClosedBrace then Built(afterSeparator, AttachChild(node, child.node))
               else ParseMembers(afterSeparator, AttachChild(node, child.node))
  {
  }

  /** The element loop with input left and no error: one value is parsed into a
      fresh node and handed on. */
  lemma ElementStep(p: Parser, node: Node)
    requires p.at < |p.source| && !p.errorEncountered
    ensures ParseElements(p, node) == AfterElement(ParseNode(p, NewNode), node)
  {
  }

  /** The end of an element: the child is attached, then `]` ends the array and `,`
      continues it. */
  lemma ElementSeparator(child: Built, node: Node)
    requires child.node.key == Empty && child.node.nextSibling.None?
    requires NextToken(child.parser).0.kind in {ClosedBracket, Comma}
    ensures var (separator, afterSeparator) := NextToken(child.parser);
            AfterElement(child, node)
            == if separator.kind == ClosedBracket then Built(afterSeparator, AttachChild(node, child.node))
               else ParseElements(afterSeparator, AttachChild(node, child.node))
  {
  }

  /** The token JSON_parse reads first when the document starts with punctuation. */
  lemma FirstPunctuation(data: seq<byte>)
    requires var s := SkipWhiteSpace(data, 0); s < |data| && data[s] in {OPEN_BRACE, OPEN_BRACKET}
    ensures var s := SkipWhiteSpace(data, 0);
            NextToken(Start(data)) == (Token(if data[s] == OPEN_BRACE then OpenBrace else OpenBracket, Empty),
                                       Parser(data, s + 1, false))
  {
    LexPunctuation(data, 0);
  }

  /** An empty or all-whitespace document gives a root with no value and no children. */
  lemma ParseBlankDocument(data: seq<byte>)
    requires forall i | 0 <= i < |data| :: IsWhiteSpace(data[i])
    ensures Parse(data) == Some(NewNode)
  {
    assert SkipWhiteSpace(data, 0) == |data|;
  }

  /** `{` followed by `}`, with or without whitespace between, gives an empty root,
      and so does a `{` that ends the document: with the cursor at the end, the
      member loop does not run. */
  lemma ParseEmptyObject(data: seq<byte>)
    requires var s := SkipWhiteSpace(data, 0);
             s < |data| && data[s] == OPEN_BRACE
             && (s + 1 == |data| || Lex(data, s + 1).token.kind == ClosedBrace)
    ensures Parse(data) == Some(NewNode)
  {
    var s := SkipWhiteSpace(data, 0);
    var q := Parser(data, s + 1, false);
    FirstPunctuation(data);
    OpensObject(Start(data), NewNode);
    if s + 1 < |data| {
      MembersAcceptClosingBrace(q, NewNode);
    } else {
      LoopsStopAtEndOfInput(q, NewNode);
    }
  }

  /** An array is empty only when the byte right after `[` is `]`, or when `[`
      ends the document. */
  lemma ParseEmptyArray(data: seq<byte>)
    requires var s := SkipWhiteSpace(data, 0);
             s < |data| && data[s] == OPEN_BRACKET
             && (s + 1 == |data| || data[s + 1] == CLOSED_BRACKET)
    ensures Parse(data) == Some(NewNode)
  {
    var s := SkipWhiteSpace(data, 0);
    var q := Parser(data, s + 1, false);
    FirstPunctuation(data);
    OpensArray(Start(data), NewNode);
    if s + 1 == |data| {
      LoopsStopAtEndOfInput(q, NewNode);
    }
  }

  /** With whitespace between `[` and `]`, the element parse meets the `]`, which
      cannot start a value, so `[ ]` gives no tree. */
  lemma ParseRejectsSpacedEmptyArray(data: seq<byte>)
    requires var s := SkipWhiteSpace(data, 0);
             s + 1 < |data| && data[s] == OPEN_BRACKET && data[s + 1] != CLOSED_BRACKET
             && Lex(data, s + 1).token.kind == ClosedBracket
    ensures Parse(data) == None
  {
    var s := SkipWhiteSpace(data, 0);
    var q := Parser(data, s + 1, false);
    FirstPunctuation(data);
    OpensArray(Start(data), NewNode);
    ElementsRejectClosingBracket(q, NewNode);
  }

  /** Where a key is expected, `}` ends the object without error; so `{}` and an
      object with a trailing comma such as `{"a":1,}` are accepted. */
  lemma MembersAcceptClosingBrace(p: Parser, node: Node)
    requires p.at < |p.source| && !p.errorEncountered && NextToken(p).0.kind == ClosedBrace
    ensures ParseMembers(p, node) == Built(NextToken(p).1, node)
    ensures !ParseMembers(p, node).parser.errorEncountered
  {
  }

  /** Where an element is expected, `]` cannot start a value and sets the error
      flag; so an array with a trailing comma such as `[1,]` is refused, and so is
      `[ ]`. */
  lemma ElementsRejectClosingBracket(p: Parser, node: Node)
    requires p.at < |p.source| && !p.errorEncountered && NextToken(p).0.kind == ClosedBracket
    ensures ParseElements(p, node).parser.errorEncountered
  {
    var element := ParseNode(p, NewNode);
    assert element.parser.errorEncountered;
    assert ParseElements(p, node) == AfterElement(element, node);
  }

  /** When the input ends where a key or an element is expected, the loop stops
      without setting the error flag; so `{`, `[1,` and `{"a":1,` are accepted. */
  lemma LoopsStopAtEndOfInput(p: Parser, node: Node)
    requires |p.source| <= p.at
    ensures ParseMembers(p, node) == Built(p, node)
    ensures ParseElements(p, node) == Built(p, node)
  {
  }

  /** A value must be followed by `,` or the closing bracket or brace: any other
      token after it sets the error flag, and the flag is never cleared. */
  lemma ElementSeparatorRequired(child: Built, node: Node)
    requires child.node.key == Empty && child.node.nextSibling.None?
    requires NextToken(child.parser).0.kind !in {Comma, ClosedBracket}
    ensures AfterElement(child, node).parser.errorEncountered
  {
  }

  lemma MemberSeparatorRequired(child: Built, node: Node)
    requires child.node.nextSibling.None?
    requires NextToken(child.parser).0.kind !in {Comma, ClosedBrace}
    ensures AfterMember(child, node).parser.errorEncountered
  {
  }

  /** A key must be a String followed by `:`: a String key without the colon ends
      the object with the error flag set and nothing attached, and a key token that
      is neither a String nor `}` sets the flag (the code still parses the value
      that follows, under an unlabelled node). */
  lemma KeyMustBeStringThenColon(p: Parser, node: Node)
    requires p.at < |p.source| && !p.errorEncountered
    ensures var (key, afterKey) := NextToken(p);
            && (key.kind == String && NextToken(afterKey).0.kind != Colon ==>
                  ParseMembers(p, node) == Built(Fail(NextToken(afterKey).1), node))
            && (key.kind != String && key.kind != ClosedBrace ==>
                  ParseMembers(p, node).parser.errorEncountered)
  {
  }
}
