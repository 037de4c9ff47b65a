/** Cloning a node with all that hangs below it. */
module XmlClone {
  import opened XmlDom

  /** The trees below two nodes have the same shape and the same contents, down to a depth. */
  ghost predicate Alike(a: XmlNode, b: XmlNode, nodes: set<XmlNode>, depth: nat)
    reads nodes`isDocument, nodes`name, nodes`value, nodes`attributes, nodes`children
  {
    && a in nodes && b in nodes
    && a.isDocument == b.isDocument && a.name == b.name && a.value == b.value && a.attributes == b.attributes
    && |a.children| == |b.children|
    && (depth > 0 ==> forall k | 0 <= k < |a.children| :: Alike(a.children[k], b.children[k], nodes, depth - 1))
  }

  /** No node is below itself, and no document is below a node. */
  ghost predicate Grounded(all: set<XmlNode>, rank: map<XmlNode, nat>)
    reads all
  {
    forall n | n in all ::
      n in rank && forall c | c in n.children :: c in all && c in rank && rank[c] < rank[n] && !c.isDocument
  }

  lemma {:induction false} AlikeAmongMore(a: XmlNode, b: XmlNode, nodes: set<XmlNode>, more: set<XmlNode>, depth: nat)
    requires Alike(a, b, nodes, depth) && nodes <= more
    ensures Alike(a, b, more, depth)
    decreases depth
  {
    if depth > 0 {
      forall k | 0 <= k < |a.children| ensures Alike(a.children[k], b.children[k], more, depth - 1) {
        AlikeAmongMore(a.children[k], b.children[k], nodes, more, depth - 1);
      }
    }
  }

  /** Two forests side by side are a forest. */
  lemma ForestsTogether(a: set<XmlNode>, b: set<XmlNode>)
    requires Forest(a) && Forest(b)
    ensures Forest(a + b)
  {
  }

  /** The first k children of the source have been cloned, with all nodes below, and appended to the result, a
      node of another forest. */
  ghost predicate Partly(source: XmlNode, result: XmlNode, k: nat, all: set<XmlNode>, below: set<XmlNode>, others: set<XmlNode>)
    reads all, below, others
  {
    && source in all && result in others && others !! all && others !! below && Forest(below + others)
    && |result.children| == k <= |source.children| && (forall c | c in result.children :: c in below)
    && forall depth: nat, j | 0 <= j < k :: Alike(source.children[j], result.children[j], all + below, depth)
  }

  /** A clone: fresh nodes in the shape of the source, with its names, values and attributes; nothing that was
      there before changes. */
  method CloneNode(source: XmlNode, ghost all: set<XmlNode>, ghost rank: map<XmlNode, nat>)
    returns (result: XmlNode, ghost clones: set<XmlNode>)
    requires Forest(all) && source in all && Grounded(all, rank)
    ensures fresh(clones) && result in clones && Forest(clones) && result.parent == null
    ensures result.isDocument == source.isDocument
    ensures forall depth :: Alike(source, result, all + clones, depth)
    decreases rank[source], 2
  {
    hide Alike, Forest, XmlNode.Chained;
    result := new XmlNode(source.isDocument);
    SingleForest(result);
    ghost var below := CloneContents(source, result, all, rank, {result});
    clones := below + {result};
  }

  /** A clone put into a node that is already there, of another forest: its children leave, and it keeps its
      place; nothing else of the forest changes. */
  method CloneInto(source: XmlNode, result: XmlNode, ghost all: set<XmlNode>, ghost rank: map<XmlNode, nat>,
                   ghost others: set<XmlNode>) returns (ghost below: set<XmlNode>)
    requires Forest(all) && source in all && Grounded(all, rank)
    requires Forest(others) && result in others && others !! all
    modifies result`isDocument, result`name, result`value, result`attributes
    modifies result`firstNode, result`lastNode, result`children, result.children`parent
    ensures fresh(below) && Forest(below + others)
    ensures forall c | c in old(result.children) && c != result :: c.parent == null
    ensures forall depth :: Alike(source, result, all + (below + {result}), depth)
  {
    hide Alike, Forest, XmlNode.Chained;
    InForest(others, result);
    ClearAttributes(result, others);
    result.RemoveAllNodes(others);
    below := CloneContents(source, result, all, rank, others);
  }

  method ClearAttributes(node: XmlNode, ghost all: set<XmlNode>)
    requires Forest(all) && node in all
    modifies node`attributes
    ensures Forest(all) && node.attributes == []
  {
    hide Forest;
    node.attributes := [];
    ContentsApart(all);
  }

  method CopyContents(source: XmlNode, node: XmlNode, ghost all: set<XmlNode>)
    requires Forest(all) && node in all
    modifies node`isDocument, node`name, node`value
    ensures Forest(all) && node.isDocument == source.isDocument && node.name == source.name && node.value == source.value
  {
    hide Forest;
    node.isDocument, node.name, node.value := source.isDocument, source.name, source.value;
    ContentsApart(all);
  }

  /** A forest is a matter of its links. */
  twostate lemma ContentsApart(all: set<XmlNode>)
    requires old(Forest(all))
    requires forall n | n in all ::
               && n.firstNode == old(n.firstNode) && n.lastNode == old(n.lastNode) && n.children == old(n.children)
               && n.parent == old(n.parent) && n.prevSibling == old(n.prevSibling) && n.nextSibling == old(n.nextSibling)
    ensures Forest(all)
  {
    forall n | n in all ensures n.Chained() {
      assert old(n.Chained()) && forall c | c in n.children :: c in all;
    }
  }

  /** Fills an empty node. */
  method CloneContents(source: XmlNode, result: XmlNode, ghost all: set<XmlNode>, ghost rank: map<XmlNode, nat>,
                       ghost others: set<XmlNode>) returns (ghost below: set<XmlNode>)
    requires Forest(all) && source in all && Grounded(all, rank)
    requires Forest(others) && result in others && others !! all && result.children == [] && result.attributes == []
    modifies result`isDocument, result`name, result`value, result`attributes
    modifies result`firstNode, result`lastNode, result`children
    ensures fresh(below) && Forest(below + others) && result.isDocument == source.isDocument
    ensures forall depth :: Alike(source, result, all + (below + {result}), depth)
    decreases rank[source], 1
  {
    hide Alike, XmlNode.Chained;
    InForest(all, source);
    CopyContents(source, result, others);
    below := {};
    var child := source.firstNode;
    ghost var k := 0;
    assert below + others == others;
    assert Partly(source, result, 0, all, below, others);
    FirstChild(source);
    while child != null
      invariant 0 <= k <= |source.children| && Partly(source, result, k, all, below, others)
      invariant child == if k == |source.children| then null else source.children[k]
      invariant fresh(below)
      invariant result.isDocument == source.isDocument && result.name == source.name && result.value == source.value
      invariant result.attributes == []
      decreases |source.children| - k
    {
      hide Partly, Forest;
      NextChild(source, k);
      ghost var more := CloneChild(source, child, result, k, all, below, rank, others);
      below := below + more;
      child := child.nextSibling;
      k := k + 1;
    }
    CloneAttributes(source, result, k, all, below, others);
    forall depth ensures Alike(source, result, all + (below + {result}), depth) {
      AlikeBelow(source, result, all, below, depth);
    }
  }

  /** The attribute loop. */
  method CloneAttributes(source: XmlNode, result: XmlNode, ghost k: nat, ghost all: set<XmlNode>, ghost below: set<XmlNode>,
                         ghost others: set<XmlNode>)
    requires Partly(source, result, k, all, below, others) && result.attributes == []
    modifies result`attributes
    ensures Partly(source, result, k, all, below, others) && result.attributes == source.attributes
  {
    hide Alike, Forest;
    var i := 0;
    while i < |source.attributes|
      invariant 0 <= i <= |source.attributes| && result.attributes == source.attributes[..i]
      invariant Partly(source, result, k, all, below, others)
      modifies result`attributes
    {
      AppendAttribute(result, source.attributes[i], below + others);
      i := i + 1;
    }
  }

  lemma SingleForest(n: XmlNode)
    requires n.Chained() && n.children == [] && n.parent == null
    ensures Forest({n})
  {
  }

  lemma FirstChild(n: XmlNode)
    requires n.Chained()
    ensures n.firstNode == if n.children == [] then null else n.children[0]
  {
  }

  lemma NextChild(n: XmlNode, k: nat)
    requires n.Chained() && k < |n.children|
    ensures n.children[k].nextSibling == if k == |n.children| - 1 then null else n.children[k + 1]
  {
  }

  /** One round of the child loop. */
  method CloneChild(source: XmlNode, child: XmlNode, result: XmlNode, ghost k: nat, ghost all: set<XmlNode>,
                    ghost below: set<XmlNode>, ghost rank: map<XmlNode, nat>, ghost others: set<XmlNode>)
    returns (ghost more: set<XmlNode>)
    requires Forest(all) && source in all && Grounded(all, rank)
    requires k < |source.children| && child == source.children[k] && Partly(source, result, k, all, below, others)
    requires below !! all
    modifies result`firstNode, result`lastNode, result`children, below`nextSibling
    ensures fresh(more) && Partly(source, result, k + 1, all, below + more, others)
    decreases rank[source], 0
  {
    hide Alike, XmlNode.Chained, Forest;
    GroundedChild(all, rank, source, k);
    var copy, copies := CloneNode(child, all, rank);
    more := copies;
    ForestsTogether(below + others, copies);
    assert below + others + copies == below + copies + others;
    result.AppendNode(copy, below + copies + others);
    forall depth: nat, j | 0 <= j <= k ensures Alike(source.children[j], result.children[j], all + (below + copies), depth) {
      AlikeAmongMore(source.children[j], result.children[j], if j < k then all + below else all + copies, all + (below + copies), depth);
    }
  }

  lemma GroundedChild(all: set<XmlNode>, rank: map<XmlNode, nat>, n: XmlNode, k: nat)
    requires Grounded(all, rank) && n in all && k < |n.children|
    ensures n.children[k] in all && n.children[k] in rank && rank[n.children[k]] < rank[n] && !n.children[k].isDocument
  {
  }

  /** A node with the contents of another, over children like the other's, is like the other. */
  lemma AlikeBelow(source: XmlNode, result: XmlNode, all: set<XmlNode>, below: set<XmlNode>, depth: nat)
    requires source in all && result.isDocument == source.isDocument && result.name == source.name
    requires result.value == source.value && result.attributes == source.attributes && |result.children| == |source.children|
    requires forall d: nat, j | 0 <= j < |source.children| :: Alike(source.children[j], result.children[j], all + below, d)
    ensures Alike(source, result, all + (below + {result}), depth)
  {
    if depth > 0 {
      forall k | 0 <= k < |source.children| ensures Alike(source.children[k], result.children[k], all + (below + {result}), depth - 1) {
        AlikeAmongMore(source.children[k], result.children[k], all + below, all + (below + {result}), depth - 1);
      }
    }
  }

  method AppendAttribute(node: XmlNode, attribute: (Text, Text), ghost all: set<XmlNode>)
    requires Forest(all) && node in all
    modifies node`attributes
    ensures Forest(all) && node.attributes == old(node.attributes) + [attribute]
  {
    hide Forest;
    node.attributes := node.attributes + [attribute];
    ContentsApart(all);
  }
}
