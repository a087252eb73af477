/** Label lookup (json_parser.c:421-475): comparing a label with a C string, and
    the three searches that return the first node with a given label.

    The comparison sets a window byte (`u8`) against a C string byte (`char`).
    Where `char` is signed, a string byte of 0x80 or more reads as a negative
    number and never equals a window byte, so such a name matches no label at all.
    Every member here takes `signedChar` to say which kind of `char` the
    platform has. */
module Lookup {
  import opened Bytes
  import opened Wrappers
  import opened Nodes

  /** The bytes of a C string before its terminating NUL. */
  type CString = s: seq<byte> | forall i | 0 <= i < |s| :: s[i] != 0

  /** The byte a C string holds at index `i`; the terminator and beyond read as 0. */
  function CharAt(s: CString, i: nat): (r: byte)
    ensures r == 0 <==> i >= |s|
  {
    if i < |s| then s[i] else 0
  }

  /** The number a `char` holding byte `c` stands for in a comparison. */
  function CharValue(c: byte, signedChar: bool): (r: int)
    ensures 0 <= r <= 255 <==> !signedChar || c < 0x80
    ensures 0 <= r ==> r == c
  {
    if signedChar && c >= 0x80 then c as int - 256 else c
  }

  /** Every byte of `name` can equal some window byte: always for an unsigned
      `char`, and for a signed one when the name is plain ASCII. */
  predicate Comparable(name: CString, signedChar: bool) {
    !signedChar || forall i | 0 <= i < |name| :: name[i] < 0x80
  }

  /** The label of `n` compares equal to `name`. */
  predicate Labelled(src: seq<byte>, n: Node, name: CString, signedChar: bool) {
    InBounds(n.key, src) && Slice(src, n.key) == name && Comparable(name, signedChar)
  }

  /** buffer_and_string_are_equal: the window and the C string are equal exactly when
      the string has as many bytes as the window, they agree one by one, and no
      string byte turned negative on the way to the comparison. */
  method BufferAndStringAreEqual(src: seq<byte>, buffer: Buffer, name: CString, signedChar: bool)
    returns (equal: bool)
    requires InBounds(buffer, src)
    ensures equal <==> Slice(src, buffer) == name && Comparable(name, signedChar)
  {
    var i: nat := 0;
    while i < buffer.size
      invariant i <= buffer.size && i <= |name|
      invariant forall k | 0 <= k < i :: src[buffer.start + k] == name[k]
      invariant forall k | 0 <= k < i :: !signedChar || name[k] < 0x80
    {
      if CharAt(name, i) == 0 || src[buffer.start + i] as int != CharValue(CharAt(name, i), signedChar) {
        assert i < |name| ==> Slice(src, buffer)[i] != name[i] || (signedChar && name[i] >= 0x80);
        return false;
      }
      i := i + 1;
    }
    equal := CharAt(name, i) == 0;
    if equal {
      assert forall k | 0 <= k < |name| :: Slice(src, buffer)[k] == name[k];
    }
  }

  /** The index of the first node of `s` labelled `name`, or |s| when there is none. */
  function FirstLabelled(src: seq<byte>, s: seq<Node>, name: CString, signedChar: bool): (r: nat)
    ensures r <= |s|
    ensures r < |s| ==> Labelled(src, s[r], name, signedChar)
    ensures forall j | 0 <= j < r :: !Labelled(src, s[j], name, signedChar)
  {
    if |s| == 0 then 0
    else if Labelled(src, s[0], name, signedChar) then 0
    else 1 + FirstLabelled(src, s[1..], name, signedChar)
  }

  /** The node at index `i`, or None past the end. */
  function At(s: seq<Node>, i: nat): Option<Node> {
    if i < |s| then Some(s[i]) else None
  }

  /** The first labelled node of a concatenation is the first of the front part,
      or, when the front part has none, the first of the back part. */
  lemma FirstLabelledAppend(src: seq<byte>, a: seq<Node>, b: seq<Node>, name: CString, signedChar: bool)
    ensures At(a + b, FirstLabelled(src, a + b, name, signedChar))
            == if FirstLabelled(src, a, name, signedChar) < |a| then At(a, FirstLabelled(src, a, name, signedChar))
               else At(b, FirstLabelled(src, b, name, signedChar))
  {
    var ab := a + b;
    var i := FirstLabelled(src, a, name, signedChar);
    var k := FirstLabelled(src, ab, name, signedChar);
    if i < |a| {
      assert ab[i] == a[i];
    } else {
      var j := FirstLabelled(src, b, name, signedChar);
      if j < |b| {
        assert ab[|a| + j] == b[j];
      }
    }
  }

  /** JSON_find_sibling: the node itself, then its later siblings, in order; None
      for a null node or when no name matches. */
  function FindSibling(src: seq<byte>, chain: Option<Node>, name: CString, signedChar: bool): (r: Option<Node>)
    ensures r.Some? ==> Labelled(src, r.value, name, signedChar) && r.value in Siblings(chain)
    ensures r.None? <==> forall i | 0 <= i < |Siblings(chain)| :: !Labelled(src, Siblings(chain)[i], name, signedChar)
    decreases chain
  {
    match chain
    case None => None
    case Some(n) =>
      if Labelled(src, n, name, signedChar) then Some(n) else FindSibling(src, n.nextSibling, name, signedChar)
  }

  /** JSON_find_sibling returns the first match in foreach_sibling order. */
  lemma {:induction false} FindSiblingIsFirstMatch(src: seq<byte>, chain: Option<Node>, name: CString, signedChar: bool)
    ensures FindSibling(src, chain, name, signedChar) == At(Siblings(chain), FirstLabelled(src, Siblings(chain), name, signedChar))
    decreases chain
  {
    match chain
    case None =>
    case Some(n) =>
      FindSiblingIsFirstMatch(src, n.nextSibling, name, signedChar);
      FirstLabelledAppend(src, [n], Siblings(n.nextSibling), name, signedChar);
  }

  /** JSON_find_child: JSON_find_sibling on the first child; None for a null node. */
  function FindChild(src: seq<byte>, node: Option<Node>, name: CString, signedChar: bool): (r: Option<Node>)
    ensures node.None? ==> r.None?
    ensures node.Some? ==> r == At(Children(node.value), FirstLabelled(src, Children(node.value), name, signedChar))
  {
    match node
    case None => None
    case Some(n) =>
      FindSiblingIsFirstMatch(src, n.firstChild, name, signedChar);
      FindSibling(src, n.firstChild, name, signedChar)
  }

  /** The order JSON_find visits nodes in: each node of the chain, then its whole
      subtree, then the next sibling. */
  function PreOrder(chain: Option<Node>): (r: seq<Node>)
    ensures chain.None? <==> |r| == 0
    ensures |Siblings(chain)| <= |r|
    decreases chain
  {
    match chain
    case None => []
    case Some(n) => [n] + PreOrder(n.firstChild) + PreOrder(n.nextSibling)
  }

  /** JSON_find: a pre-order search of the node, its subtree and its later siblings
      (with their subtrees); None for a null node or when no label matches. */
  function Find(src: seq<byte>, chain: Option<Node>, name: CString, signedChar: bool): (r: Option<Node>)
    ensures r.Some? ==> Labelled(src, r.value, name, signedChar) && r.value in PreOrder(chain)
    ensures chain.Some? && Labelled(src, chain.value, name, signedChar) ==> r == chain
    decreases chain
  {
    match chain
    case None => None
    case Some(n) =>
      if Labelled(src, n, name, signedChar) then Some(n)
      else
        var inSubtree := Find(src, n.firstChild, name, signedChar);
        if inSubtree.Some? then inSubtree else Find(src, n.nextSibling, name, signedChar)
  }

  /** JSON_find returns the first match in pre-order, so it finds a labelled node
      exactly when the subtree and later siblings hold one. */
  lemma {:induction false} FindIsFirstMatch(src: seq<byte>, chain: Option<Node>, name: CString, signedChar: bool)
    ensures Find(src, chain, name, signedChar) == At(PreOrder(chain), FirstLabelled(src, PreOrder(chain), name, signedChar))
    ensures Find(src, chain, name, signedChar).Some? ==>
              Labelled(src, Find(src, chain, name, signedChar).value, name, signedChar) && Find(src, chain, name, signedChar).value in PreOrder(chain)
    ensures Find(src, chain, name, signedChar).None? <==>
              forall i | 0 <= i < |PreOrder(chain)| :: !Labelled(src, PreOrder(chain)[i], name, signedChar)
    decreases chain
  {
    match chain
    case None =>
    case Some(n) =>
      FindIsFirstMatch(src, n.firstChild, name, signedChar);
      FindIsFirstMatch(src, n.nextSibling, name, signedChar);
      FirstLabelledAppend(src, [n], PreOrder(n.firstChild), name, signedChar);
      FirstLabelledAppend(src, [n] + PreOrder(n.firstChild), PreOrder(n.nextSibling), name, signedChar);
  }

  /** The empty C string matches exactly the unlabelled nodes, so a search for ""
      from an unlabelled node (such as the root JSON_parse returns) finds it. */
  lemma EmptyLabelMatchesUnlabelled(src: seq<byte>, n: Node, signedChar: bool)
    ensures Labelled(src, n, [], signedChar) <==> InBounds(n.key, src) && n.key.size == 0
    ensures n.key == Empty ==>
              FindSibling(src, Some(n), [], signedChar) == Some(n) && Find(src, Some(n), [], signedChar) == Some(n)
  {
  }

  /** Whether `char` is signed decides a search only through the bytes of the name:
      a plain ASCII name finds the same node either way, while with a signed `char`
      a name holding a byte of 0x80 or more finds nothing, even where a label spells
      it exactly. */
  lemma {:induction false} SignednessMattersOnlyForHighBytes(src: seq<byte>, chain: Option<Node>, name: CString)
    ensures Comparable(name, true) ==>
              Find(src, chain, name, true) == Find(src, chain, name, false)
              && FindSibling(src, chain, name, true) == FindSibling(src, chain, name, false)
    ensures !Comparable(name, true) ==>
              Find(src, chain, name, true).None? && FindSibling(src, chain, name, true).None?
    decreases chain
  {
    match chain
    case None =>
    case Some(n) =>
      SignednessMattersOnlyForHighBytes(src, n.firstChild, name);
      SignednessMattersOnlyForHighBytes(src, n.nextSibling, name);
  }
}
