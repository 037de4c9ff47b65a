/** The intrusive doubly linked lists of the DOM: the child nodes of a node. */
module XmlDom {

  /** A pointer to a text and its size. */
  datatype Text = Text(start: nat, size: nat)

  /** A node. The sibling pointers mean something only while there is a parent, the last pointers only
      while there is a first; otherwise they may hold anything. */
  class XmlNode {
    var isDocument: bool
    var name: Text
    var value: Text
    /** Names and values of the attributes in order; the links between them are not modelled. */
    var attributes: seq<(Text, Text)>
    var parent: XmlNode?
    var prevSibling: XmlNode?
    var nextSibling: XmlNode?
    var firstNode: XmlNode?
    var lastNode: XmlNode?

    /** The child nodes in order. */
    ghost var children: seq<XmlNode>

    constructor (isDocument: bool)
      ensures parent == null && children == [] && Chained() && this.isDocument == isDocument && attributes == []
    {
      this.isDocument := isDocument;
      name, value, attributes := Text(0, 0), Text(0, 0), [];
      parent, firstNode := null, null;
      children := [];
    }

    /** The pointers form a two-way chain over the children, each of which points back here. */
    ghost predicate Chained()
      reads this, children
    {
      && (firstNode == null <==> children == [])
      && (children != [] ==> firstNode == children[0] && lastNode == children[|children| - 1])
      && (forall k {:trigger children[k].parent} | 0 <= k < |children| :: children[k].parent == this)
      && (forall k {:trigger children[k].prevSibling} | 0 <= k < |children| ::
            children[k].prevSibling == if k == 0 then null else children[k - 1])
      && (forall k {:trigger children[k].nextSibling} | 0 <= k < |children| ::
            children[k].nextSibling == if k == |children| - 1 then null else children[k + 1])
      && (forall j, k | 0 <= j < k < |children| :: children[j] != children[k])
    }

    /** Where a child stands. */
    ghost function Index(c: XmlNode): (k: nat)
      requires c in children
      reads this
      ensures k < |children| && children[k] == c
    {
      var k :| 0 <= k < |children| && children[k] == c;
      k
    }

    method PrependNode(child: XmlNode, ghost all: set<XmlNode>)
      requires Forest(all) && this in all && child in all
      requires child.parent == null && !child.isDocument
      modifies this`firstNode, this`lastNode, this`children
      modifies child`parent, child`prevSibling, child`nextSibling, children`prevSibling
      ensures Forest(all) && children == [child] + old(children)
    {
      hide Forest;
      InForest(all, this);
      NotYetChild(all, this, child);
      if firstNode != null {
        child.nextSibling := firstNode;
        firstNode.prevSibling := child;
      } else {
        child.nextSibling := null;
        lastNode := child;
      }
      firstNode := child;
      child.parent := this;
      child.prevSibling := null;
      children := [child] + children;
      ForestKept(all, this);
    }

    method AppendNode(child: XmlNode, ghost all: set<XmlNode>)
      requires Forest(all) && this in all && child in all
      requires child.parent == null && !child.isDocument
      modifies this`firstNode, this`lastNode, this`children
      modifies child`parent, child`prevSibling, child`nextSibling, children`nextSibling
      ensures Forest(all) && children == old(children) + [child]
    {
      hide Forest;
      InForest(all, this);
      NotYetChild(all, this, child);
      if firstNode != null {
        child.prevSibling := lastNode;
        lastNode.nextSibling := child;
      } else {
        child.prevSibling := null;
        firstNode := child;
      }
      lastNode := child;
      child.parent := this;
      child.nextSibling := null;
      children := children + [child];
      ForestKept(all, this);
    }

    /** Inserts before where, or at the back when where is null. */
    method InsertNode(where: XmlNode?, child: XmlNode, ghost all: set<XmlNode>)
      requires Forest(all) && this in all && child in all
      requires where != null ==> where in all && where.parent == this
      requires child.parent == null && !child.isDocument
      modifies this`firstNode, this`lastNode, this`children
      modifies child`parent, child`prevSibling, child`nextSibling, children`prevSibling, children`nextSibling
      ensures Forest(all)
      ensures where == null ==> children == old(children) + [child]
      ensures where != null ==>
                var at := old(Index(where)); children == old(children[..at]) + [child] + old(children[at..])
    {
      if where == firstNode {
        if where != null { FirstIndex(all); }
        PrependNode(child, all);
      } else if where == null {
        AppendNode(child, all);
      } else {
        InsertBefore(where, child, all);
      }
    }

    /** The middle case of an insertion. */
    method InsertBefore(where: XmlNode, child: XmlNode, ghost all: set<XmlNode>)
      requires Forest(all) && this in all && child in all
      requires where in children && where != firstNode
      requires child.parent == null && !child.isDocument
      modifies this`children
      modifies child`parent, child`prevSibling, child`nextSibling, children`prevSibling, children`nextSibling
      ensures Forest(all)
      ensures var at := old(Index(where)); children == old(children[..at]) + [child] + old(children[at..])
    {
      hide Forest;
      InForest(all, this);
      NotYetChild(all, this, child);
      ghost var at, before := Index(where), children;
      assert where.prevSibling == before[at].prevSibling == before[at - 1];
      LinkBetween(where.prevSibling, where, child);
      child.parent := this;
      children := children[..at] + [child] + children[at..];
      ChainedAfterInsert(before, at, child);
      ForestKept(all, this);
    }

    static method LinkBetween(left: XmlNode, where: XmlNode, child: XmlNode)
      requires child != left && child != where && left != where && where.prevSibling == left
      modifies child`prevSibling, child`nextSibling, left`nextSibling, where`prevSibling
      ensures child.prevSibling == left && child.nextSibling == where
      ensures left.nextSibling == child && where.prevSibling == child
    {
      child.prevSibling := where.prevSibling;
      child.nextSibling := where;
      where.prevSibling.nextSibling := child;
      where.prevSibling := child;
    }

    /** Relinking one place of the chain makes a chain again. */
    twostate lemma ChainedAfterInsert(new before: seq<XmlNode>, at: nat, new child: XmlNode)
      requires old(Chained()) && before == old(children) && 0 < at < |before| && child !in before
      requires children == before[..at] + [child] + before[at..]
      requires firstNode == old(firstNode) && lastNode == old(lastNode)
      requires child.parent == this && child.prevSibling == before[at - 1] && child.nextSibling == before[at]
      requires forall c | c in before :: c.parent == old(c.parent)
      requires forall c | c in before && c != before[at] :: c.prevSibling == old(c.prevSibling)
      requires forall c | c in before && c != before[at - 1] :: c.nextSibling == old(c.nextSibling)
      requires before[at].prevSibling == child && before[at - 1].nextSibling == child
      ensures Chained()
    {
      forall k {:trigger children[k].prevSibling} | 0 <= k < |children|
        ensures children[k].prevSibling == if k == 0 then null else children[k - 1]
      {
        if k < at { assert children[k] == before[k]; }
        else if k > at { assert children[k] == before[k - 1]; }
      }
      forall k {:trigger children[k].nextSibling} | 0 <= k < |children|
        ensures children[k].nextSibling == if k == |children| - 1 then null else children[k + 1]
      {
        if k < at { assert children[k] == before[k]; }
        else if k > at { assert children[k] == before[k - 1]; }
      }
      forall k {:trigger children[k].parent} | 0 <= k < |children| ensures children[k].parent == this {
        if k < at { assert children[k] == before[k]; }
        else if k > at { assert children[k] == before[k - 1]; }
      }
    }

    method RemoveFirstNode(ghost all: set<XmlNode>)
      requires Forest(all) && this in all && firstNode != null
      modifies this`firstNode, this`lastNode, this`children, children`parent, children`prevSibling
      ensures Forest(all) && children == old(children[1..])
      ensures old(children[0]).parent == null
    {
      hide Forest;
      InForest(all, this);
      var child := firstNode;
      assert child == children[0];
      firstNode := child.nextSibling;
      if child.nextSibling != null {
        child.nextSibling.prevSibling := null;
      } else {
        lastNode := null;
      }
      child.parent := null;
      children := children[1..];
      ForestKept(all, this);
    }

    method RemoveLastNode(ghost all: set<XmlNode>)
      requires Forest(all) && this in all && firstNode != null
      modifies this`firstNode, this`lastNode, this`children, children`parent, children`nextSibling
      ensures Forest(all) && children == old(children[..|children| - 1])
      ensures old(children[|children| - 1]).parent == null
    {
      hide Forest, Chained;
      InForest(all, this);
      LastOnes();
      var child := lastNode;
      if child.prevSibling != null {
        lastNode := child.prevSibling;
        child.prevSibling.nextSibling := null;
      } else {
        firstNode := null;
      }
      child.parent := null;
      ghost var before := children;
      children := children[..|children| - 1];
      ChainedAfterRemoveLast(before);
      ForestKept(all, this);
    }

    lemma LastOnes()
      requires Chained() && firstNode != null
      ensures children != [] && lastNode == children[|children| - 1]
      ensures lastNode.prevSibling == if |children| == 1 then null else children[|children| - 2]
      ensures forall j, k | 0 <= j < k < |children| :: children[j] != children[k]
    {
    }

    twostate lemma ChainedAfterRemoveLast(new before: seq<XmlNode>)
      requires old(Chained()) && before == old(children) != []
      requires children == before[..|before| - 1]
      requires if children == [] then firstNode == null else firstNode == old(firstNode) && lastNode == before[|before| - 2]
      requires forall c | c in before && c != before[|before| - 1] :: c.parent == old(c.parent)
      requires forall c | c in before :: c.prevSibling == old(c.prevSibling)
      requires forall k | 0 <= k < |before| :: before[k].nextSibling == if k == |before| - 2 then null else old(before[k].nextSibling)
      ensures Chained()
    {
      assert forall k {:trigger children[k]} | 0 <= k < |children| :: children[k] == before[k];
    }

    method RemoveNode(where: XmlNode, ghost all: set<XmlNode>)
      requires Forest(all) && this in all && where in all && where.parent == this
      modifies this`firstNode, this`lastNode, this`children, children`parent, children`prevSibling, children`nextSibling
      ensures Forest(all) && where.parent == null
      ensures var at := old(Index(where)); children == old(children[..at]) + old(children[at + 1..])
    {
      hide Forest;
      InForest(all, this);
      InForest(all, where);
      ghost var at, before := Index(where), children;
      if where == firstNode {
        FirstIndex(all);
        RemoveFirstNode(all);
      } else if where == lastNode {
        assert at == |children| - 1;
        RemoveLastNode(all);
      } else {
        RemoveMiddle(where, all);
      }
    }

    /** The middle case of a removal. */
    method RemoveMiddle(where: XmlNode, ghost all: set<XmlNode>)
      requires Forest(all) && this in all && where in all && where in children
      requires where != firstNode && where != lastNode
      modifies this`children, where`parent, children`prevSibling, children`nextSibling
      ensures Forest(all) && where.parent == null
      ensures var at := old(Index(where)); children == old(children[..at]) + old(children[at + 1..])
    {
      hide Forest;
      InForest(all, this);
      ghost var at, before := Index(where), children;
      assert where.prevSibling == before[at].prevSibling == before[at - 1];
      assert where.nextSibling == before[at].nextSibling == before[at + 1];
      where.prevSibling.nextSibling := where.nextSibling;
      where.nextSibling.prevSibling := where.prevSibling;
      where.parent := null;
      children := children[..at] + children[at + 1..];
      ChainedAfterRemove(before, at);
      ForestKept(all, this);
    }

    twostate lemma ChainedAfterRemove(new before: seq<XmlNode>, at: nat)
      requires old(Chained()) && before == old(children) && 0 < at < |before| - 1
      requires children == before[..at] + before[at + 1..]
      requires firstNode == old(firstNode) && lastNode == old(lastNode)
      requires forall c | c in before && c != before[at] :: c.parent == old(c.parent)
      requires forall c | c in before && c != before[at + 1] :: c.prevSibling == old(c.prevSibling)
      requires forall c | c in before && c != before[at - 1] :: c.nextSibling == old(c.nextSibling)
      requires before[at + 1].prevSibling == before[at - 1] && before[at - 1].nextSibling == before[at + 1]
      ensures Chained()
    {
      forall k {:trigger children[k].prevSibling} | 0 <= k < |children|
        ensures children[k].prevSibling == if k == 0 then null else children[k - 1]
      {
        assert children[k] == if k < at then before[k] else before[k + 1];
      }
      forall k {:trigger children[k].nextSibling} | 0 <= k < |children|
        ensures children[k].nextSibling == if k == |children| - 1 then null else children[k + 1]
      {
        assert children[k] == if k < at then before[k] else before[k + 1];
      }
      forall k {:trigger children[k].parent} | 0 <= k < |children| ensures children[k].parent == this {
        assert children[k] == if k < at then before[k] else before[k + 1];
      }
    }

    method RemoveAllNodes(ghost all: set<XmlNode>)
      requires Forest(all) && this in all
      modifies this`firstNode, this`children, children`parent
      ensures Forest(all) && children == []
      ensures forall c | c in old(children) :: c.parent == null
    {
      hide Forest;
      InForest(all, this);
      var node := firstNode;
      ghost var k := 0;
      while node != null
        invariant 0 <= k <= |children| && children == old(children)
        invariant node == if k == |children| then null else children[k]
        invariant forall j | 0 <= j < k :: children[j].parent == null
        invariant forall c | c in all && c !in children :: c.parent == old(c.parent)
        decreases |children| - k
      {
        node.parent := null;
        node := node.nextSibling;
        k := k + 1;
      }
      firstNode := null;
      children := [];
      ForestKept(all, this);
    }

    lemma FirstIndex(all: set<XmlNode>)
      requires Forest(all) && this in all && firstNode != null
      ensures firstNode in children && Index(firstNode) == 0
    {
      assert children[0] == firstNode;
    }
  }

  /** All nodes there are: every node's children form its chain, and parents and children agree. */
  ghost predicate Forest(all: set<XmlNode>)
    reads all
  {
    && (forall n, c | n in all && c in n.children :: c in all)
    && (forall n | n in all :: n.Chained())
    && (forall n | n in all && n.parent != null :: n.parent in all && n in n.parent.children)
  }

  lemma InForest(all: set<XmlNode>, n: XmlNode)
    requires Forest(all) && n in all
    ensures n.Chained() && forall c | c in n.children :: c in all
    ensures n.parent != null ==> n.parent in all && n in n.parent.children
  {
  }

  lemma NotYetChild(all: set<XmlNode>, n: XmlNode, c: XmlNode)
    requires Forest(all) && n in all && c in all && c.parent == null
    ensures c !in n.children
  {
    forall k | 0 <= k < |n.children| ensures n.children[k] != c {
      assert n.children[k].parent == n;
    }
  }

  /** Changing one node's chain, with the parents of what joined and left, keeps the forest. */
  twostate lemma ForestKept(all: set<XmlNode>, new node: XmlNode)
    requires old(Forest(all)) && node in all && node.Chained()
    requires forall c | c in node.children :: c in all
    requires forall n | n in all && n != node ::
               n.children == old(n.children) && n.firstNode == old(n.firstNode) && n.lastNode == old(n.lastNode)
    requires forall c | c in all && c !in node.children && c !in old(node.children) ::
               c.parent == old(c.parent) && c.prevSibling == old(c.prevSibling) && c.nextSibling == old(c.nextSibling)
    requires forall c | c in old(node.children) && c !in node.children :: c.parent == null
    requires forall c | c in node.children && c !in old(node.children) :: old(c.parent) == null
    ensures Forest(all)
  {
    forall n | n in all && n != node ensures n.Chained() {
      forall c | c in n.children ensures c !in node.children && c !in old(node.children) {
        OldParent(all, n, c);
        if c in old(node.children) { OldParent(all, node, c); }
      }
    }
    forall n | n in all && n.parent != null ensures n.parent in all && n in n.parent.children {
      if n in node.children {
        var k :| 0 <= k < |node.children| && node.children[k] == n;
        assert node.children[k].parent == node;
      } else if n !in old(node.children) {
        assert n in old(n.parent.children);
      }
    }
  }

  twostate lemma OldParent(all: set<XmlNode>, new n: XmlNode, new c: XmlNode)
    requires old(Forest(all)) && n in all && c in old(n.children)
    ensures old(c.parent) == n
  {
    var k :| 0 <= k < |old(n.children)| && old(n.children)[k] == c;
    assert old(n.children[k].parent) == n;
  }
}
