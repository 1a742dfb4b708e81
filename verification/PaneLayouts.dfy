/** The mutable layout: a node map edited in place, always holding exactly one tree. */
module PaneLayouts {
  import opened Wrappers
  import opened Percentages
  import opened PaneTree
  import opened PaneNodes
  import opened PaneEdits
  import opened LayoutMaps

  class PaneLayout {
    var root: NodeId
    var nodes: Nodes
    var nextNodeValue: nat
    ghost var tree: Tree

    ghost predicate Valid()
      reads this
    {
      Represents(nodes, root, nextNodeValue, tree, 0)
    }

    /** A layout showing a single pane. */
    constructor Single(pane: PaneId)
      ensures Valid()
      ensures tree == Leaf(1, pane) && nextNodeValue == 2
    {
      root := 1;
      nodes := map[1 := Node(1, None, LeafContents(pane))];
      nextNodeValue := 2;
      tree := Leaf(1, pane);
      new;
      assert Leaves(tree) == [LeafRef(1, pane)];
      assert Panes(Leaves(tree)) == [pane];
    }

    constructor Copy(other: PaneLayout)
      ensures root == other.root && nodes == other.nodes && nextNodeValue == other.nextNodeValue && tree == other.tree
    {
      root := other.root;
      nodes := other.nodes;
      nextNodeValue := other.nextNodeValue;
      tree := other.tree;
    }

    /** Take over the state of another layout. */
    method Assign(other: PaneLayout)
      modifies this
      ensures root == old(other.root) && nodes == old(other.nodes)
      ensures nextNodeValue == old(other.nextNodeValue) && tree == old(other.tree)
    {
      root := other.root;
      nodes := other.nodes;
      nextNodeValue := other.nextNodeValue;
      tree := other.tree;
    }

    method AllocateNodeId() returns (r: Outcome<NodeId>)
      requires 0 < nextNodeValue <= MAX_NODE_VALUE
      modifies this`nextNodeValue
      ensures r.Rejected? <==> old(nextNodeValue) == MAX_NODE_VALUE
      ensures r.Rejected? ==> nextNodeValue == old(nextNodeValue)
      ensures r.Done? ==> r.value == old(nextNodeValue) && nextNodeValue == old(nextNodeValue) + 1
    {
      if nextNodeValue == 0 || nextNodeValue == MAX_NODE_VALUE {
        return Rejected;
      }
      r := Done(nextNodeValue);
      nextNodeValue := nextNodeValue + 1;
    }

    /** Where a child stands among its siblings. */
    static method ChildIndex(children: seq<Child>, id: NodeId) returns (i: nat)
      ensures i == IndexOf(children, id)
    {
      i := 0;
      while i < |children| && children[i].nodeId != id
        invariant 0 <= i <= |children|
        invariant IndexOf(children, id) == i + IndexOf(children[i..], id)
      {
        assert children[i..][1..] == children[i + 1..];
        i := i + 1;
      }
    }

    /** The node showing a pane, if any. */
    method FindPane(pane: PaneId) returns (r: Option<NodeId>)
      requires Valid()
      ensures r.Some? ==> LeafRef(r.value, pane) in Leaves(tree) && r.value in nodes && pane in PaneBag(tree)
      ensures r.None? ==> pane !in PaneBag(tree)
    {
      var rest := nodes.Keys;
      while rest != {}
        invariant rest <= nodes.Keys
        invariant forall x :: x in nodes && x !in rest ==> nodes[x].contents != LeafContents(pane)
        decreases rest
      {
        var id :| id in rest;
        if nodes[id].contents == LeafContents(pane) {
          LeafEntries(nodes, tree, None, id, pane);
          PaneShown(Leaves(tree), pane);
          return Some(id);
        }
        rest := rest - {id};
      }
      PaneShown(Leaves(tree), pane);
      forall x | LeafRef(x, pane) in Leaves(tree) ensures false {
        LeafEntries(nodes, tree, None, x, pane);
      }
      return None;
    }

    /** The ids of the leaves below a node, appended from left to right. */
    method AppendLeafNodes(nodeId: NodeId, output: seq<NodeId>, ghost t: Tree, ghost parent: Option<NodeId>)
      returns (r: seq<NodeId>)
      requires Holds(nodes, t, parent) && t.id == nodeId
      ensures r == output + LeafIds(Leaves(t))
      decreases t
    {
      if nodes[nodeId].IsLeaf() {
        return output + [nodeId];
      }
      r := output;
      var children := nodes[nodeId].contents.children;
      var i := 0;
      assert t.kids[..0] == [];
      while i < |children|
        invariant 0 <= i <= |children| == |t.kids|
        invariant r == output + LeafIds(LeavesKids(t.kids[..i]))
      {
        ghost var k := t.kids[i];
        assert k in t.kids && children[i] == Links(t.kids)[i];
        r := AppendLeafNodes(children[i].nodeId, r, k.tree, Some(t.id));
        LeavesSnoc(t.kids, i);
        i := i + 1;
      }
      assert t.kids[..i] == t.kids;
    }

    method LeafNodes() returns (r: seq<NodeId>)
      requires Valid()
      ensures r == LeafIds(Leaves(tree))
    {
      r := AppendLeafNodes(root, [], tree, None);
    }

    /** Whether a leaf can be split: it exists, the pane is new, and ids are left. */
    ghost predicate CanSplit(target: NodeId, axis: Axis, pane: PaneId)
      requires Valid()
      reads this
    {
      && target in Bag(tree)
      && At(tree, target).tree.Leaf?
      && pane !in PaneBag(tree)
      && nextNodeValue + (if Joins(At(tree, target).ctx, axis) then 1 else 2) <= MAX_NODE_VALUE
    }

    method SplitLeaf(target: NodeId, axis: Axis, pane: PaneId, insertion: Insertion) returns (r: Outcome<NodeId>)
      requires Valid()
      modifies this
      ensures Valid()
      ensures r.Done? <==> old(CanSplit(target, axis, pane))
      ensures r.Rejected? ==> tree == old(tree)
      ensures r.Done? ==>
                && r.value == old(nextNodeValue)
                && var l := At(old(tree), target);
                && tree == SplitAt(l.ctx, l.tree, axis, Leaf(r.value, pane), insertion, r.value + 1)
                && nextNodeValue == r.value + if Joins(l.ctx, axis) then 1 else 2
    {
      hide Sound, Plug, Place, PaneBag, Leaves, Bag, BagKids, CtxBag, HoldsCtx, Holds, Distinct;
      if target !in nodes {
        return Rejected;
      }
      ghost var l := At(tree, target);
      ghost var c, n := l.ctx, nodes;
      Open(nodes, tree, target);
      if !nodes[target].IsLeaf() {
        return Rejected;
      }
      var existing := FindPane(pane);
      if existing.Some? {
        return Rejected;
      }
      var newLeaf := AllocateNodeId();
      if newLeaf.Rejected? {
        return Rejected;
      }
      var parent := nodes[target].parent;
      if parent.Some? && nodes[parent.value].contents.axis == axis {
        JoinLevel(target, pane, insertion, newLeaf.value, c, l.tree);
        return newLeaf;
      }
      var split := AllocateNodeId();
      if split.Rejected? {
        return Rejected;
      }
      WrapLeaf(target, axis, pane, insertion, newLeaf.value, split.value, c, l.tree);
      return newLeaf;
    }

    /** The new leaf becomes a neighbour of the target at the target's own level. */
    method JoinLevel(target: NodeId, pane: PaneId, insertion: Insertion, newLeafId: NodeId, ghost c: Ctx, ghost s: Tree)
      requires Valid() && Opened(nodes, tree, c, s) && s.Leaf? && s.id == target && c.In?
      requires 0 < newLeafId && nextNodeValue == newLeafId + 1 && pane !in PaneBag(tree)
      requires forall x :: x in nodes ==> x < newLeafId
      modifies this
      ensures Valid() && nextNodeValue == old(nextNodeValue)
      ensures tree == SplitAt(c, s, c.axis, Leaf(newLeafId, pane), insertion, newLeafId + 1)
    {
      hide Sound, Plug, Place, PaneBag, Leaves, Bag, BagKids, CtxBag, HoldsCtx, Holds, Distinct;
      ghost var added, n := Leaf(newLeafId, pane), nodes;
      PlugSound(c, s, 0);
      SameRoot(c, s);
      var parent := nodes[target].parent;
      var children := nodes[parent.value].contents.children;
      var targetIndex := ChildIndex(children, target);
      var share := children[targetIndex].percentage;
      var first := (share + 1) / 2;
      var second := share / 2;
      var newIndex := if insertion.Before? then targetIndex else targetIndex + 1;
      children := children[targetIndex := Child(target, if insertion.Before? then second else first)];
      children := children[..newIndex] + [Child(newLeafId, if insertion.Before? then first else second)]
                  + children[newIndex..];
      nodes := nodes[parent.value := nodes[parent.value].(contents := SplitContents(nodes[parent.value].contents.axis,
                                                                                    children))];
      nodes := nodes[newLeafId := Node(newLeafId, parent, LeafContents(pane))];
      JoinHolds(n, nodes, c, s, added, insertion, children);
      SplitRepresented(tree, c, s, c.axis, added, insertion, newLeafId + 1, nodes, root, nextNodeValue);
      tree := SplitAt(c, s, c.axis, added, insertion, newLeafId + 1);
    }

    /** A new split of the target and the new leaf takes the target's place. */
    method WrapLeaf(target: NodeId, axis: Axis, pane: PaneId, insertion: Insertion, newLeafId: NodeId, splitId: NodeId,
                    ghost c: Ctx, ghost s: Tree)
      requires Valid() && Opened(nodes, tree, c, s) && s.Leaf? && s.id == target && !Joins(c, axis)
      requires 0 < newLeafId && splitId == newLeafId + 1 && nextNodeValue == splitId + 1 && pane !in PaneBag(tree)
      requires forall x :: x in nodes ==> x < newLeafId
      modifies this
      ensures Valid() && nextNodeValue == old(nextNodeValue)
      ensures tree == SplitAt(c, s, axis, Leaf(newLeafId, pane), insertion, splitId)
    {
      hide Sound, Plug, Place, PaneBag, Leaves, Bag, BagKids, CtxBag, HoldsCtx, Holds, Distinct;
      ghost var added := Leaf(newLeafId, pane);
      PlugSound(c, s, 0);
      SameRoot(c, s);
      if nodes[target].parent.None? {
        root := splitId;
      }
      nodes := Wrapped(nodes, target, axis, pane, insertion, newLeafId, splitId, c, s);
      SplitRepresented(tree, c, s, axis, added, insertion, splitId, nodes, root, nextNodeValue);
      tree := SplitAt(c, s, axis, added, insertion, splitId);
    }

    static method Wrapped(n: Nodes, target: NodeId, axis: Axis, pane: PaneId, insertion: Insertion, newLeafId: NodeId,
                          splitId: NodeId,
                          ghost c: Ctx, ghost s: Tree) returns (m: Nodes)
      requires Opened(n, Plug(c, s), c, s) && s.Leaf? && s.id == target
      requires newLeafId !in n && splitId !in n && splitId != newLeafId
      ensures Holds(m, Plug(c, Split(splitId, axis, Pair(Leaf(newLeafId, pane), s, MAX_PERCENTAGE, insertion))), None)
      ensures forall x :: x in m <==> x in n || x == newLeafId || x == splitId
    {
      hide Plug, Place, Bag, BagKids, CtxBag, HoldsCtx, Holds, Distinct;
      m := n;
      var parent := n[target].parent;
      var children := if insertion.Before? then [Child(newLeafId, 50), Child(target, 50)]
                      else [Child(target, 50), Child(newLeafId, 50)];
      if parent.Some? {
        var siblings := n[parent.value].contents.children;
        var i := ChildIndex(siblings, target);
        HoleLink(c, Child(target, c.share), Child(splitId, c.share));
        m := n[parent.value := n[parent.value].(contents :=
          SplitContents(n[parent.value].contents.axis, siblings[i := Child(splitId, siblings[i].percentage)]))];
      }
      m := m[target := m[target].(parent := Some(splitId))]
            [newLeafId := Node(newLeafId, Some(splitId), LeafContents(pane))]
            [splitId := Node(splitId, parent, SplitContents(axis, children))];
      PairLinks(Leaf(newLeafId, pane), s, insertion);
      WrapHolds(n, m, c, s, axis, Leaf(newLeafId, pane), insertion, splitId);
    }

    /** Hang every listed child below a parent. */
    static method WithParents(n: Nodes, children: seq<Child>, parent: NodeId) returns (m: Nodes)
      requires forall c | c in children :: c.nodeId in n
      ensures m == Reparented(n, ChildIds(children), Some(parent))
    {
      m := n;
      var i := 0;
      while i < |children|
        invariant 0 <= i <= |children|
        invariant m == Reparented(n, ChildIds(children[..i]), Some(parent))
      {
        var id := children[i].nodeId;
        assert children[i] in children;
        assert ChildIds(children[..i + 1]) == ChildIds(children[..i]) + [id];
        m := m[id := m[id].(parent := Some(parent))];
        i := i + 1;
      }
      assert children[..i] == children;
    }

    static method Percentages(children: seq<Child>) returns (values: seq<int>)
      ensures values == ChildShares(children)
    {
      values := [];
      for i := 0 to |children|
        invariant values == ChildShares(children)[..i]
      {
        values := values + [children[i].percentage];
      }
    }

    static method WithPercentages(children: seq<Child>, values: seq<int>) returns (r: seq<Child>)
      requires |children| == |values|
      ensures r == Repriced(children, values)
    {
      r := children;
      for i := 0 to |children|
        invariant |r| == |children|
        invariant forall j :: 0 <= j < i ==> r[j] == Repriced(children, values)[j]
        invariant forall j :: i <= j < |r| ==> r[j] == children[j]
      {
        r := r[i := r[i].(percentage := values[i])];
      }
    }

    /** The children with their percentages scaled to a new total. */
    static method Redistributed(children: seq<Child>, total: int) returns (r: seq<Child>)
      requires Weights(ChildShares(children)) && 0 <= total <= MAX_PERCENTAGE
      ensures r == Repriced(children, Distribute(ChildShares(children), total))
    {
      var weights := Percentages(children);
      var shares := DistributePercentageTotal(weights, total);
      r := WithPercentages(children, shares.value);
    }

    /** The grandchildren take the split's place among its siblings. */
    static method PromoteGrandchildren(n: Nodes, splitNode: NodeId, childId: NodeId, grandparent: NodeId, ghost c: Ctx,
                                       ghost u: Tree)
      returns (m: Nodes)
      requires Opened(n, Plug(c, u), c, u) && Sound(Plug(c, u), u.id) && u.Split? && |u.kids| == 1
      requires u.id == splitNode && u.kids[0].tree.id == childId && c.In? && c.id == grandparent
      requires Matches(u.kids[0].tree, c.axis)
      ensures Holds(m, DissolveAt(c, u.kids[0].tree), None)
      ensures forall x :: x in m <==> x in n && x != u.id && x != childId
    {
      hide Sound, Plug, Place, Bag, BagKids, CtxBag, HoldsCtx, Distinct, DissolveAt;
      UnaryChild(n, c, u);
      ShareWeights(n, c, u);
      var siblings := n[grandparent].contents.children;
      var index := ChildIndex(siblings, splitNode);
      var promoted := n[childId].contents.children;
      var children := Redistributed(promoted, siblings[index].percentage);
      siblings := siblings[..index] + children + siblings[index + 1..];
      m := n[grandparent := n[grandparent].(contents := SplitContents(n[grandparent].contents.axis, siblings))];
      m := WithParents(m, promoted, grandparent);
      m := m - {childId, splitNode};
      DissolvePromoteHolds(n, c, u, siblings, m);
    }

    /** The only child takes the split's place among its siblings. */
    static method RelinkChild(n: Nodes, splitNode: NodeId, childId: NodeId, grandparent: NodeId, ghost c: Ctx,
                              ghost u: Tree)
      returns (m: Nodes)
      requires Opened(n, Plug(c, u), c, u) && u.Split? && |u.kids| == 1
      requires u.id == splitNode && u.kids[0].tree.id == childId && c.In? && c.id == grandparent
      requires !Matches(u.kids[0].tree, c.axis)
      ensures Holds(m, DissolveAt(c, u.kids[0].tree), None)
      ensures forall x :: x in m <==> x in n && x != u.id
    {
      hide Plug, Place, Bag, BagKids, CtxBag, HoldsCtx, Distinct, DissolveAt;
      UnaryChild(n, c, u);
      var siblings := n[grandparent].contents.children;
      var index := ChildIndex(siblings, splitNode);
      siblings := siblings[index := Child(childId, siblings[index].percentage)];
      m := n[grandparent := n[grandparent].(contents := SplitContents(n[grandparent].contents.axis, siblings))]
            [childId := n[childId].(parent := Some(grandparent))] - {splitNode};
      HoleLink(c, Child(splitNode, c.share), Child(childId, c.share));
      DissolveRelinkHolds(n, c, u, m);
    }

    /** A split with one child left gives way to that child; if the child repeats the axis of the
        level it lands in, the child's own children are promoted instead. */
    method DissolveUnarySplit(splitNode: NodeId, ghost c: Ctx, ghost u: Tree)
      requires Represents(nodes, root, nextNodeValue, tree, splitNode)
      requires tree == Plug(c, u) && u.id == splitNode && u.Split? && |u.kids| == 1
      modifies this
      ensures Valid() && nextNodeValue == old(nextNodeValue)
      ensures tree == DissolveAt(c, u.kids[0].tree)
    {
      hide Sound, Plug, Place, PaneBag, Leaves, Bag, BagKids, CtxBag, HoldsCtx, Distinct;
      ghost var n, child := nodes, u.kids[0].tree;
      OpenAt(nodes, c, u);
      UnaryChild(n, c, u);
      SameRoot(c, u);
      var childId := nodes[splitNode].contents.children[0].nodeId;
      var grandparent := nodes[splitNode].parent;
      if grandparent.None? {
        root := childId;
        nodes := nodes[childId := nodes[childId].(parent := None)] - {splitNode};
        DissolveTopHolds(n, u, nodes);
      } else if !nodes[childId].IsLeaf() && nodes[childId].contents.axis == nodes[grandparent.value].contents.axis {
        nodes := PromoteGrandchildren(nodes, splitNode, childId, grandparent.value, c, u);
      } else {
        nodes := RelinkChild(nodes, splitNode, childId, grandparent.value, c, u);
      }
      tree := DissolveAt(c, child);
      DissolveRepresented(n, c, u, nodes, root, nextNodeValue);
    }

    /** Take a leaf out of its level and scale its siblings back to a full hundred. */
    static method WithoutLeaf(n: Nodes, target: NodeId, parent: NodeId, ghost c: Ctx, ghost s: Tree) returns (m: Nodes)
      requires Opened(n, Plug(c, s), c, s) && Sound(Plug(c, s), 0) && s.Leaf? && s.id == target && c.In?
               && c.id == parent && c.id != 0
      ensures Holds(m, Plug(c.up, ClosedUp(c)), None)
      ensures forall x :: x in m <==> x in n && x != target
      ensures parent in m && m[parent].contents.SplitContents? && |m[parent].contents.children| == |c.left| + |c.right|
    {
      hide Sound, Plug, Bag, BagKids, CtxBag, HoldsCtx, Distinct;
      var children := n[parent].contents.children;
      var index := ChildIndex(children, target);
      children := children[..index] + children[index + 1..];
      RestWeights(c, s, children);
      children := Redistributed(children, MAX_PERCENTAGE);
      m := n[parent := n[parent].(contents := SplitContents(n[parent].contents.axis, children))] - {target};
      CloseUpHolds(n, c, s.id, m);
    }

    /** Remove a leaf. The result is the leaf to focus next, or None when it is the only one. */
    method RemoveLeaf(target: NodeId) returns (r: Outcome<Option<NodeId>>)
      requires Valid()
      modifies this
      ensures Valid() && nextNodeValue == old(nextNodeValue)
      ensures r.Rejected? <==> target !in Bag(old(tree)) || !At(old(tree), target).tree.Leaf?
      ensures r.Done? ==> (r.value.None? <==> old(tree).Leaf?)
      ensures r.Rejected? || r.value.None? ==> tree == old(tree)
      ensures r.Done? && r.value.Some? ==>
                var c := At(old(tree), target).ctx;
                && c.In? && |c.left| + |c.right| >= 1
                && tree == RemoveAt(c)
                && |LeavesBefore(c)| + |LeavesAfter(c)| >= 1
                && r.value.value == NextFocus(LeafIds(LeavesBefore(c)), LeafIds(LeavesAfter(c)))
    {
      hide Sound, Plug, PaneBag, Leaves, Bag, BagKids, CtxBag, HoldsCtx, Holds, Distinct;
      if target !in nodes {
        return Rejected;
      }
      ghost var l := At(tree, target);
      ghost var c, n := l.ctx, nodes;
      Open(nodes, tree, target);
      if !nodes[target].IsLeaf() {
        return Rejected;
      }
      var leaves := LeafNodes();
      LeafPosition(n, tree, c, l.tree);
      if |leaves| == 1 {
        return Done(None);
      }
      var index := Position(leaves, target);
      FirstPlace(LeafIds(LeavesBefore(c)), target, LeafIds(LeavesAfter(c)), index);
      var nextFocus := if index + 1 < |leaves| then leaves[index + 1] else leaves[index - 1];
      var parent := nodes[target].parent.value;
      nodes := WithoutLeaf(nodes, target, parent, c, l.tree);
      ghost var rest := ClosedUp(c);
      PlugUp(c, l.tree);
      SameRootId(c.up, Fill(c, l.tree), rest);
      CloseUpRepresented(n, nextNodeValue, c, l.tree, nodes, root);
      tree := Plug(c.up, rest);
      if |nodes[parent].contents.children| == 1 {
        DissolveUnarySplit(parent, c.up, rest);
      }
      return Done(Some(nextFocus));
    }

    /** Where an id stands in a list that contains it. */
    static method Position(ids: seq<NodeId>, id: NodeId) returns (i: nat)
      requires id in ids
      ensures i < |ids| && ids[i] == id && id !in ids[..i]
    {
      i := 0;
      while ids[i] != id
        invariant i < |ids| && id in ids[i..] && id !in ids[..i]
        decreases |ids| - i
      {
        assert ids[i..] == [ids[i]] + ids[i + 1..];
        i := i + 1;
      }
    }

    /** The child list with every child that repeats the split's axis replaced by its own children. */
    static method FlatChildren(n: Nodes, before: seq<Child>, axis: Axis, ghost u: Tree, ghost parent: Option<NodeId>)
      returns (children: seq<Child>, flattened: set<NodeId>)
      requires Holds(n, u, parent) && u.Split? && Sound(u, 0) && before == Links(u.kids) && axis == u.axis
      ensures children == Links(Flat(u.kids, axis))
      ensures forall x :: x in flattened <==> x in DroppedKids(u.kids, axis)
    {
      hide Sound, Promoted, Distribute, Holds;
      children := [];
      flattened := {};
      var i := 0;
      assert u.kids[..0] == [];
      while i < |before|
        invariant 0 <= i <= |before|
        invariant children == Links(Flat(u.kids[..i], axis))
        invariant forall x :: x in flattened <==> x in DroppedKids(u.kids[..i], axis)
      {
        FlatStep(n, u, parent, i);
        FlatSnoc(u.kids, i, axis);
        LinksAppend(Flat(u.kids[..i], axis), Promoted(u.kids[i], axis));
        var childId := before[i].nodeId;
        if n[childId].IsLeaf() || n[childId].contents.axis != axis {
          children := children + [before[i]];
        } else {
          var promoted := Redistributed(n[childId].contents.children, before[i].percentage);
          children := children + promoted;
          flattened := flattened + {childId};
        }
        i := i + 1;
      }
      assert u.kids[..i] == u.kids;
    }

    /** Replace every child that repeats the split's axis by its own children. */
    static method FlattenMatchingSplitChildren(n: Nodes, splitNode: NodeId, ghost c: Ctx, ghost u: Tree)
      returns (m: Nodes)
      requires Opened(n, Plug(c, u), c, u) && u.Split? && u.id == splitNode && Sound(u, 0)
      ensures Holds(m, Plug(c, Flattened(u)), None)
      ensures forall x :: x in m <==> x in n && x !in DroppedKids(u.kids, u.axis)
    {
      hide Plug, Bag, BagKids, CtxBag, Sound, Distinct, HoldsCtx, Flat, DroppedKids;
      var axis := n[splitNode].contents.axis;
      var children, flattened := FlatChildren(n, n[splitNode].contents.children, axis, u, HoleParent(c));
      FlatPresent(n, c, u);
      m := n[splitNode := n[splitNode].(contents := SplitContents(axis, children))];
      m := WithParents(m, children, splitNode);
      m := m - flattened;
      FlattenHolds(n, c, u, flattened, m);
    }

    /** Turn the axis of every split below a node. */
    static method ToggleSplitAxes(n: Nodes, nodeId: NodeId, ghost t: Tree, ghost parent: Option<NodeId>)
      returns (m: Nodes)
      requires Holds(n, t, parent) && t.id == nodeId && Distinct(Bag(t))
      ensures m == TurnedMap(n, Bag(t))
      decreases t
    {
      if n[nodeId].IsLeaf() {
        return n;
      }
      hide Bag, BagKids, Distinct, Holds;
      SplitNode(t.id, t.axis, t.kids);
      m := n[nodeId := Turned(n[nodeId])];
      var children := n[nodeId].contents.children;
      var i := 0;
      assert BagKids(t.kids[..0]) == multiset{};
      while i < |children|
        invariant 0 <= i <= |children|
        invariant m == TurnedMap(n, multiset{t.id} + BagKids(t.kids[..i]))
      {
        TurnStep(n, t.kids, i, t.id, t.id);
        assert t.kids[i] in t.kids;
        m := ToggleSplitAxes(m, children[i].nodeId, t.kids[i].tree, Some(t.id));
        i := i + 1;
      }
      assert t.kids[..i] == t.kids;
    }

    /** The map with every axis below a split turned, and the split flattened into its parent if
        their axes now agree. */
    static method Rotated(n: Nodes, splitNode: NodeId, ghost c: Ctx, ghost s: Tree) returns (m: Nodes)
      requires Opened(n, Plug(c, s), c, s) && s.Split? && s.id == splitNode && Sound(Plug(c, s), 0)
               && Distinct(Bag(Plug(c, s)))
      ensures Holds(m, RotateAt(c, s), None)
      ensures forall x :: x in m <==> x in n && x !in RotateDrop(c, s)
    {
      hide Plug, Bag, Distinct, HoldsCtx, Sound, Holds, Toggle;
      var parent := n[splitNode].parent;
      m := ToggleSplitAxes(n, splitNode, s, HoleParent(c));
      TurnInPlace(n, m, c, s);
      AxisTurned(n, m, c, s);
      if parent.Some? && m[parent.value].contents.axis == m[splitNode].contents.axis {
        ToggleInPlace(c, s, 0);
        ghost var u := Fill(c, Toggle(s));
        PlugUp(c, Toggle(s));
        OpenAt(m, c.up, u);
        PlugSound(c.up, u, 0);
        m := FlattenMatchingSplitChildren(m, parent.value, c.up, u);
      }
    }

    /** Turn every axis below a split and flatten it into its parent if their axes now agree. */
    method RotateSplit(splitNode: NodeId) returns (r: Outcome<bool>)
      requires Valid()
      modifies this
      ensures Valid() && nextNodeValue == old(nextNodeValue)
      ensures r.Rejected? <==> splitNode !in Bag(old(tree))
      ensures r.Done? ==> r.value == At(old(tree), splitNode).tree.Split?
      ensures r == Done(true) ==>
                var l := At(old(tree), splitNode);
                tree == RotateAt(l.ctx, l.tree)
      ensures r != Done(true) ==> tree == old(tree)
    {
      if splitNode !in nodes {
        return Rejected;
      }
      ghost var l := At(tree, splitNode);
      ghost var n := nodes;
      Open(nodes, tree, splitNode);
      if nodes[splitNode].IsLeaf() {
        return Done(false);
      }
      hide Plug, Bag, Distinct, HoldsCtx, Sound, Holds, PaneBag, RotateAt, RotateDrop;
      RotateRoot(l.ctx, l.tree);
      nodes := Rotated(nodes, splitNode, l.ctx, l.tree);
      tree := RotateAt(l.ctx, l.tree);
      RotateRepresented(n, l.ctx, l.tree, nodes, root, nextNodeValue);
      return Done(true);
    }

    /** Whether the ids are neighbouring children of one split, but not all of them. */
    ghost predicate CanGroup(siblings: seq<NodeId>)
      requires Valid()
      reads this
    {
      && |siblings| >= 2
      && siblings[0] in Bag(tree)
      && At(tree, siblings[0]).ctx.In?
      && ProperRange(At(tree, siblings[0]), siblings)
      && nextNodeValue < MAX_NODE_VALUE
    }

    /** Whether the ids are the children from index first on. */
    static method IsRange(children: seq<Child>, first: nat, ids: seq<NodeId>) returns (ok: bool)
      ensures ok <==> first + |ids| <= |children| && ChildIds(children)[first..first + |ids|] == ids
    {
      if first + |ids| > |children| {
        return false;
      }
      for offset := 0 to |ids|
        invariant forall j :: 0 <= j < offset ==> children[first + j].nodeId == ids[j]
      {
        if children[first + offset].nodeId != ids[offset] {
          assert ChildIds(children)[first..first + |ids|][offset] != ids[offset];
          return false;
        }
      }
      assert ChildIds(children)[first..first + |ids|] == ids;
      return true;
    }

    /** Group a proper range of siblings below a new split of the other axis. */
    method RotateSiblingRange(siblings: seq<NodeId>) returns (r: Outcome<NodeId>)
      requires Valid()
      modifies this
      ensures Valid()
      ensures r.Done? <==> old(CanGroup(siblings))
      ensures r.Rejected? ==> tree == old(tree) && nextNodeValue == old(nextNodeValue)
      ensures r.Done? ==>
                var l := At(old(tree), siblings[0]);
                && r.value == old(nextNodeValue) && nextNodeValue == r.value + 1
                && |l.ctx.left| + |siblings| <= |Fill(l.ctx, l.tree).kids|
                && tree == Plug(l.ctx.up, Grouped(Fill(l.ctx, l.tree), |l.ctx.left|, |siblings|, r.value))
    {
      hide Plug, Bag, BagKids, CtxBag, Distinct, HoldsCtx, Sound, Holds, PaneBag, Grouped, Leaves, Fill;
      if |siblings| < 2 || siblings[0] !in nodes {
        return Rejected;
      }
      ghost var l := At(tree, siblings[0]);
      Open(nodes, tree, siblings[0]);
      var parent := nodes[siblings[0]].parent;
      if parent.None? {
        return Rejected;
      }
      FillShape(l.ctx, l.tree);
      var children := nodes[parent.value].contents.children;
      var first := ChildIndex(children, siblings[0]);
      var contiguous := IsRange(children, first, siblings);
      assert contiguous && |siblings| < |children| <==> ProperRange(l, siblings);
      if !contiguous || |siblings| == |children| || nextNodeValue == MAX_NODE_VALUE {
        return Rejected;
      }
      var group := AllocateNodeId();
      PlugUp(l.ctx, l.tree);
      GroupSiblings(parent.value, first, siblings, group.value, l.ctx.up, Fill(l.ctx, l.tree));
      return group;
    }

    method GroupSiblings(parent: NodeId, first: nat, siblings: seq<NodeId>, groupId: NodeId, ghost c: Ctx,
                         ghost u: Tree)
      requires Represents(nodes, root, groupId, tree, 0) && 0 < groupId < MAX_NODE_VALUE && nextNodeValue == groupId + 1
      requires tree == Plug(c, u) && u.Split? && u.id == parent
      requires 2 <= |siblings| < |u.kids| && first + |siblings| <= |u.kids|
               && Ids(u.kids)[first..first + |siblings|] == siblings
      modifies this
      ensures Valid() && nextNodeValue == old(nextNodeValue)
      ensures tree == Plug(c, Grouped(u, first, |siblings|, groupId))
    {
      hide Plug, Bag, BagKids, CtxBag, Distinct, HoldsCtx, Sound, Holds, PaneBag, Grouped, Leaves;
      OpenAt(nodes, c, u);
      ghost var n := nodes;
      nodes := GroupedMap(nodes, parent, first, siblings, groupId, c, u);
      GroupedRepresented(n, c, u, first, |siblings|, groupId, nodes, root);
      tree := Plug(c, Grouped(u, first, |siblings|, groupId));
    }

    /** Hang every sibling below the group and turn the axes inside it. */
    static method TurnSiblings(m0: Nodes, siblings: seq<NodeId>, groupId: NodeId, ghost sel: seq<Kid>,
                               ghost parentId: NodeId)
      returns (m: Nodes)
      requires siblings == Ids(sel) && Distinct(BagKids(sel)) && Grouping(m0, m0, sel, 0, groupId, parentId)
      ensures Grouping(m0, m, sel, |sel|, groupId, parentId)
    {
      hide Bag, BagKids, Distinct, Holds, HoldsKids;
      m := m0;
      for i := 0 to |siblings|
        invariant Grouping(m0, m, sel, i, groupId, parentId)
      {
        GroupingKid(m, m, sel, i, groupId, parentId);
        SplitBagAt(sel, i);
        ghost var before := m;
        m := m[siblings[i] := m[siblings[i]].(parent := Some(groupId))];
        ghost var between := m;
        GroupingKid(before, m, sel, i, groupId, parentId);
        m := ToggleSplitAxes(m, siblings[i], sel[i].tree, Some(groupId));
        GroupingStep(m0, before, between, m, sel, i, groupId, parentId);
      }
    }

    static method GroupedMap(n: Nodes, parent: NodeId, first: nat, siblings: seq<NodeId>, groupId: NodeId, ghost c: Ctx,
                             ghost u: Tree)
      returns (m: Nodes)
      requires Opened(n, Plug(c, u), c, u) && Sound(Plug(c, u), 0) && u.Split? && u.id == parent && groupId !in n
      requires 2 <= |siblings| && first + |siblings| <= |u.kids| && Ids(u.kids)[first..first + |siblings|] == siblings
      ensures Holds(m, Plug(c, Grouped(u, first, |siblings|, groupId)), None)
      ensures forall x :: x in m <==> x in n || x == groupId
    {
      hide Plug, Bag, BagKids, CtxBag, Distinct, HoldsCtx, Sound, Holds, Grouped, Sum;
      var children := n[parent].contents.children;
      var count := |siblings|;
      var selected := children[first..first + count];
      ghost var sel := u.kids[first..first + count];
      SelectedWeights(c, u, first, count);
      var weights := Percentages(selected);
      var selectedShare := Total(weights);
      var selectedChildren := Redistributed(selected, MAX_PERCENTAGE);
      children := children[..first] + [Child(groupId, selectedShare)] + children[first + count..];
      m := n[parent := n[parent].(contents := SplitContents(n[parent].contents.axis, children))];
      ghost var m0 := m;
      GroupingStart(n, c, u, first, count, groupId, m0);
      SliceNamed(u.kids, first, count, siblings);
      m := TurnSiblings(m, siblings, groupId, sel, u.id);
      ghost var m1 := m;
      m := m[groupId := Node(groupId, Some(parent), SplitContents(Other(n[parent].contents.axis), selectedChildren))];
      GroupedHolds(n, c, u, first, count, groupId, m0, m1, m);
    }

    /** Give every child of a split a new weight, normalized to percentages. */
    method SetSplitPercentages(splitNode: NodeId, weights: seq<int>) returns (r: Outcome<()>)
      requires Valid()
      modifies this
      ensures Valid() && nextNodeValue == old(nextNodeValue)
      ensures r.Done? <==>
                && splitNode in Bag(old(tree))
                && var u := At(old(tree), splitNode).tree;
                && u.Split? && |weights| == |u.kids| && Weights(weights)
      ensures r.Rejected? ==> tree == old(tree)
      ensures r.Done? ==>
                var l := At(old(tree), splitNode);
                tree == Plug(l.ctx, Reweighted(l.tree, weights))
    {
      hide Plug, Bag, BagKids, CtxBag, Distinct, HoldsCtx, Sound, Holds, PaneBag, Leaves, Normalize, Locate, Reweighted;
      if splitNode !in nodes {
        return Rejected;
      }
      ghost var l := At(tree, splitNode);
      ghost var n := nodes;
      Open(nodes, tree, splitNode);
      if nodes[splitNode].IsLeaf() || |weights| != |nodes[splitNode].contents.children| {
        return Rejected;
      }
      var percentages := NormalizePercentages(weights);
      if percentages.Rejected? {
        return Rejected;
      }
      var children := WithPercentages(nodes[splitNode].contents.children, percentages.value);
      nodes := nodes[splitNode := nodes[splitNode].(contents := SplitContents(nodes[splitNode].contents.axis,
                                                                              children))];
      ReweightedRepresented(n, l.ctx, l.tree, weights, nodes, root, nextNodeValue);
      tree := Plug(l.ctx, Reweighted(l.tree, weights));
      return Done(());
    }
  }

  lemma {:induction false} SliceNamed(ks: seq<Kid>, first: nat, count: nat, ids: seq<NodeId>)
    requires first + count <= |ks| && Ids(ks)[first..first + count] == ids
    ensures Ids(ks[first..first + count]) == ids
  {
  }

  /** The ids name consecutive children of the split around the first, leaving some out. */
  ghost predicate ProperRange(l: Loc, siblings: seq<NodeId>) {
    && l.ctx.In?
    && var ids := Ids(Fill(l.ctx, l.tree).kids);
    && |l.ctx.left| + |siblings| <= |ids|
    && |siblings| < |ids|
    && ids[|l.ctx.left|..|l.ctx.left| + |siblings|] == siblings
  }
}
