/** The parse tree of json_parser.h:60-70: each node holds a label and a value
    (windows into the document), its first child and its next sibling, so that
    the children of a node are the chain that starts at its first child. */
module Nodes {
  import opened Bytes
  import opened Wrappers

  /** JSON_Node. `key` is the `label` field (a reserved word in Dafny); a null
      pointer is `None`. */
  datatype Node = Node(key: Buffer, value: Buffer, firstChild: Option<Node>, nextSibling: Option<Node>)

  /** new_json_node: a zeroed node, with no label, no value and no links. */
  const NewNode := Node(Empty, Empty, None, None)

  /** The number of nodes reachable from `n`: itself, its subtree and its later siblings. */
  function Size(n: Node): nat
    decreases n
  {
    1 + ChainSize(n.firstChild) + ChainSize(n.nextSibling)
  }

  function ChainSize(chain: Option<Node>): nat
    decreases chain
  {
    match chain
    case None => 0
    case Some(n) => Size(n)
  }

  /** The nodes foreach_sibling visits: the starting node, then each next sibling
      in turn until the link is null. */
  function Siblings(chain: Option<Node>): (r: seq<Node>)
    ensures chain.None? <==> |r| == 0
    ensures chain.Some? ==> r[0] == chain.value
    ensures |r| > 0 ==> r[|r| - 1].nextSibling.None?
    decreases chain
  {
    match chain
    case None => []
    case Some(n) => [n] + Siblings(n.nextSibling)
  }

  /** No node foreach_sibling visits is larger than the chain it starts. */
  lemma {:induction false} SiblingsAreSmaller(chain: Option<Node>)
    ensures forall i | 0 <= i < |Siblings(chain)| :: Size(Siblings(chain)[i]) <= ChainSize(chain)
    decreases chain
  {
    match chain
    case None =>
    case Some(n) =>
      SiblingsAreSmaller(n.nextSibling);
      assert Siblings(chain) == [n] + Siblings(n.nextSibling);
  }

  /** Each node foreach_sibling visits is the next sibling of the one before. */
  lemma {:induction false} SiblingsFollowLinks(chain: Option<Node>)
    ensures forall i | 1 <= i < |Siblings(chain)| ::
              Siblings(chain)[i - 1].nextSibling == Some(Siblings(chain)[i])
    decreases chain
  {
    match chain
    case None =>
    case Some(n) =>
      SiblingsFollowLinks(n.nextSibling);
      var rest := Siblings(n.nextSibling);
      assert Siblings(chain) == [n] + rest;
      forall i | 1 <= i < |Siblings(chain)|
        ensures Siblings(chain)[i - 1].nextSibling == Some(Siblings(chain)[i])
      {
        if i >= 2 {
          assert Siblings(chain)[i - 1] == rest[i - 2] && Siblings(chain)[i] == rest[i - 1];
          var j := i - 1;
          assert rest[j - 1].nextSibling == Some(rest[j]);
        } else {
          assert Siblings(chain)[1] == rest[0];
        }
      }
  }

  /** The nodes foreach_child visits: the chain at the first child, in order. */
  function Children(n: Node): (r: seq<Node>)
    ensures n.firstChild.None? <==> |r| == 0
    ensures n.firstChild.Some? ==> r[0] == n.firstChild.value
  {
    Siblings(n.firstChild)
  }

  /** Every node foreach_child visits is strictly smaller than the node, so
      foreach_child never visits the node itself, while foreach_sibling starts with it. */
  lemma ChildrenExcludeSelf(n: Node)
    ensures forall i | 0 <= i < |Children(n)| :: Size(Children(n)[i]) < Size(n)
    ensures n !in Children(n)
    ensures Siblings(Some(n))[0] == n
  {
    SiblingsAreSmaller(n.firstChild);
    forall i | 0 <= i < |Children(n)|
      ensures Children(n)[i] != n
    {
      assert Size(Children(n)[i]) < Size(n);
    }
  }

  /** Two nodes that differ at most in their next-sibling link. */
  predicate SameContent(a: Node, b: Node) {
    a.key == b.key && a.value == b.value && a.firstChild == b.firstChild
  }

  /** `b` keeps the children of `a`, in order, at the head of its own. */
  predicate ChildrenExtend(a: Node, b: Node) {
    |Children(a)| <= |Children(b)|
    && forall i | 0 <= i < |Children(a)| :: SameContent(Children(a)[i], Children(b)[i])
  }

  lemma ChildrenExtendTransitive(a: Node, b: Node, c: Node)
    requires ChildrenExtend(a, b) && ChildrenExtend(b, c)
    ensures ChildrenExtend(a, c)
  {
    forall i | 0 <= i < |Children(a)|
      ensures SameContent(Children(a)[i], Children(c)[i])
    {
      assert SameContent(Children(b)[i], Children(c)[i]);
    }
  }

  /** The walk of attach_child_node to the last node of a chain, and the link that
      hangs `child` there: the chain gains `child` (and whatever follows it) at its
      tail, and no node before the tail changes anything but that one link. */
  function AppendSibling(chain: Option<Node>, child: Node): (r: Node)
    ensures ChainSize(Some(r)) == ChainSize(chain) + Size(child)
    ensures chain.Some? ==> r.key == chain.value.key && r.value == chain.value.value
                            && r.firstChild == chain.value.firstChild
    decreases chain
  {
    match chain
    case None => child
    case Some(n) => n.(nextSibling := Some(AppendSibling(n.nextSibling, child)))
  }

  lemma {:induction false} AppendSiblingKeepsOrder(chain: Option<Node>, child: Node)
    ensures var before := Siblings(chain);
            var added := Siblings(Some(child));
            var after := Siblings(Some(AppendSibling(chain, child)));
            && |after| == |before| + |added|
            && (forall i | 0 <= i < |before| :: SameContent(after[i], before[i]))
            && after[|before|..] == added
    decreases chain
  {
    match chain
    case None =>
    case Some(n) =>
      AppendSiblingKeepsOrder(n.nextSibling, child);
      var rest := AppendSibling(n.nextSibling, child);
      var r := n.(nextSibling := Some(rest));
      var tail := Siblings(Some(rest));
      var beforeTail := Siblings(n.nextSibling);
      var before := Siblings(chain);
      var after := Siblings(Some(AppendSibling(chain, child)));
      assert after == [r] + tail;
      assert before == [n] + beforeTail;
      forall i | 0 <= i < |before|
        ensures SameContent(after[i], before[i])
      {
        if i > 0 {
          assert after[i] == tail[i - 1] && before[i] == beforeTail[i - 1];
        }
      }
      assert after[|before|..] == tail[|beforeTail|..];
  }

  /** attach_child_node: `child` becomes the last child of `parent`. */
  function AttachChild(parent: Node, child: Node): (r: Node)
    ensures r.key == parent.key && r.value == parent.value && r.nextSibling == parent.nextSibling
    ensures ChildrenExtend(parent, r)
    ensures child.nextSibling.None? ==>
              |Children(r)| == |Children(parent)| + 1 && Children(r)[|Children(parent)|] == child
  {
    AppendSiblingKeepsOrder(parent.firstChild, child);
    parent.(firstChild := Some(AppendSibling(parent.firstChild, child)))
  }

  /** Every window of the tree lies in the document, and no node has both a value
      and children. */
  predicate WellFormed(n: Node, src: seq<byte>)
    decreases n
  {
    && InBounds(n.key, src)
    && InBounds(n.value, src)
    && (n.firstChild.Some? ==> n.value == Empty)
    && WellFormedChain(n.firstChild, src)
    && WellFormedChain(n.nextSibling, src)
  }

  predicate WellFormedChain(chain: Option<Node>, src: seq<byte>)
    decreases chain
  {
    match chain
    case None => true
    case Some(n) => WellFormed(n, src)
  }

  lemma {:induction false} AppendSiblingWellFormed(chain: Option<Node>, child: Node, src: seq<byte>)
    requires WellFormedChain(chain, src) && WellFormed(child, src)
    ensures WellFormed(AppendSibling(chain, child), src)
    decreases chain
  {
    match chain
    case None =>
    case Some(n) => AppendSiblingWellFormed(n.nextSibling, child, src);
  }

  /** Attaching a well-formed child under a node without value keeps the tree well-formed. */
  lemma AttachChildWellFormed(parent: Node, child: Node, src: seq<byte>)
    ensures WellFormed(parent, src) && parent.value == Empty && WellFormed(child, src) ==>
              WellFormed(AttachChild(parent, child), src)
  {
    if WellFormed(parent, src) && parent.value == Empty && WellFormed(child, src) {
      AppendSiblingWellFormed(parent.firstChild, child, src);
    }
  }
}
