/** The value accessors of json_parser.c:477-603. Each takes a node that may be
    null; a null node and an empty value give false, 0 or a null string. The value
    is a window into the document, so each accessor also takes the document. */
module Accessors {
  import opened Bytes
  import opened Wrappers
  import opened Nodes
  import opened Escapes

  /** The guard every accessor starts with: a node with a non-empty value. A value
      whose data pointer is null is the zeroed Buffer, whose size is 0. */
  predicate HasValue(node: Option<Node>) {
    node.Some? && node.value.value.size > 0
  }

  /** The accessors may read the value of a node they are given. */
  predicate Readable(src: seq<byte>, node: Option<Node>) {
    node.Some? ==> InBounds(node.value.value, src)
  }

  /** JSON_node_to_new_string: a copy of the value bytes, escapes untouched. */
  function ToNewString(src: seq<byte>, node: Option<Node>): (r: Option<seq<byte>>)
    requires Readable(src, node)
    ensures r.None? <==> !HasValue(node)
    ensures r.Some? ==> |r.value| == node.value.value.size
                        && forall i | 0 <= i < |r.value| :: r.value[i] == src[node.value.value.start + i]
  {
    if HasValue(node) then Some(Slice(src, node.value.value)) else None
  }

  /** JSON_node_is_null: the value is exactly the four bytes `null`. So it holds
      for the string value "null" and not for the literal, whose token carries an
      empty value. */
  function IsNull(src: seq<byte>, node: Option<Node>): (r: bool)
    requires Readable(src, node)
    ensures r <==> ToNewString(src, node) == Some(Ascii("null"))
    ensures node.Some? && node.value.value == Empty ==> !r
  {
    if node.None? || node.value.value.size != 4 then false
    else Slice(src, node.value.value) == Ascii("null")
  }

  /** JSON_node_to_bool: the value is exactly the four bytes `true`. So it holds
      for the string value "true" and not for the literal, whose token carries an
      empty value. */
  function ToBool(src: seq<byte>, node: Option<Node>): (r: bool)
    requires Readable(src, node)
    ensures r <==> ToNewString(src, node) == Some(Ascii("true"))
    ensures node.Some? && node.value.value == Empty ==> !r
  {
    if node.None? || node.value.value.size < 4 then false
    else node.value.value.size == 4 && Slice(src, node.value.value) == Ascii("true")
  }

  /** JSON_node_to_char: the first byte of the value copy, 0 when there is none. */
  function ToChar(src: seq<byte>, node: Option<Node>): (r: byte)
    requires Readable(src, node)
    ensures ToNewString(src, node).Some? ==> r == ToNewString(src, node).value[0]
    ensures ToNewString(src, node).None? ==> r == 0
  {
    if !HasValue(node) then 0 else src[node.value.value.start]
  }

  /** JSON_node_to_new_string_resolved: the value with its escapes decoded, or null
      for an absent or empty value and for an escape the decoder refuses. A `\` as
      the last byte of the value makes the code read the byte after the value; the
      model counts that as a refused escape, which is what the code does for every
      value the parser produces, since that byte is the closing quote. */
  method ToNewStringResolved(src: seq<byte>, node: Option<Node>) returns (r: Option<seq<byte>>)
    requires Readable(src, node)
    ensures r == if HasValue(node) then Unescape(Slice(src, node.value.value)) else None
  {
    if !HasValue(node) {
      return None;
    }
    var value := Slice(src, node.value.value);
    var out: seq<byte> := [];
    var i: nat := 0;
    while i < |value|
      invariant i <= |value|
      invariant Unescape(value) == Prepend(out, Unescape(value[i..]))
      decreases |value| - i
    {
      if value[i] == BACKSLASH {
        if i + 1 >= |value| {
          DecodeRefusedEscape(value, i);
          return None;
        }
        if value[i + 1] == LOWER_U {
          if i + 1 + 4 < |value| {
            var b1 := HexDigitToByte(value[i + 2]);
            var b2 := HexDigitToByte(value[i + 3]);
            var b3 := HexDigitToByte(value[i + 4]);
            var b4 := HexDigitToByte(value[i + 5]);
            if b1 == MAX_BYTE_VALUE || b2 == MAX_BYTE_VALUE || b3 == MAX_BYTE_VALUE || b4 == MAX_BYTE_VALUE {
              DecodeRefusedEscape(value, i);
              return None;
            }
            DecodeUnicodeEscape(value, i, out, b1, b2, b3, b4);
            out := out + [b3 * 16 + b4, b1 * 16 + b2];
            i := i + 6;
          } else {
            DecodeRefusedEscape(value, i);
            return None;
          }
        } else {
          var short := ShortEscape(value[i + 1]);
          if short.None? {
            DecodeRefusedEscape(value, i);
            return None;
          }
          DecodeShortEscape(value, i, out, short.value);
          out := out + [short.value];
          i := i + 2;
        }
      } else {
        DecodePlainByte(value, i, out);
        out := out + [value[i]];
        i := i + 1;
      }
    }
    assert value[i..] == [] && out + [] == out;
    return Some(out);
  }

  /** Without a backslash in the value, the resolved string is the plain copy; with
      one, the decoded bytes are fewer than the value bytes. */
  lemma ResolvedIsCopyWithoutEscapes(src: seq<byte>, node: Option<Node>)
    requires Readable(src, node) && HasValue(node)
    ensures var value := Slice(src, node.value.value);
            && ((forall i | 0 <= i < |value| :: value[i] != BACKSLASH) ==> Unescape(value) == ToNewString(src, node))
            && (Unescape(value).Some? && (exists i | 0 <= i < |value| :: value[i] == BACKSLASH) ==>
                  |Unescape(value).value| < |value|)
  {
  }
}
