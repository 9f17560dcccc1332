/** The reference tree that the tests compare against: nodes with parent pointers, built with a queue.
    A pointer is the number of a node in the order of creation, the identifier the nodes carry. */
module ReferenceTrees {
  import opened Bits
  import opened Merkle
  import opened Canopy

  datatype TreeNode = TreeNode(node: Node, left: Option<nat>, right: Option<nat>, parent: Option<nat>, level: nat)

  function NewEmpty(level: nat): TreeNode {
    TreeNode(EmptyNode(level), None, None, None, level)
  }

  /** Where a node stands in the tree. */
  datatype Place = Place(level: nat, k: nat)

  function Above(p: Place): Place {
    Place(p.level + 1, p.k / 2)
  }

  function Beside(p: Place): Place {
    Place(p.level, Sib(p.k))
  }

  /** No two nodes stand at the same place, and every node knows its level. */
  ghost predicate Placed(nodes: seq<TreeNode>, places: seq<Place>) {
    && |places| == |nodes|
    && (forall x :: 0 <= x < |nodes| ==> nodes[x].level == places[x].level)
    && (forall x, y :: 0 <= x < y < |places| ==> places[x] != places[y])
  }

  /** p is the parent of x and links to it and to its sibling. */
  ghost predicate IsParent(nodes: seq<TreeNode>, places: seq<Place>, x: nat, p: nat)
    requires |places| == |nodes| && x < |nodes|
  {
    && p < |nodes| && places[p] == Above(places[x])
    && nodes[p].left.Some? && nodes[p].left.value < |nodes|
    && nodes[p].right.Some? && nodes[p].right.value < |nodes|
    && (if places[x].k % 2 == 0 then nodes[p].left.value == x && places[nodes[p].right.value] == Beside(places[x])
        else nodes[p].right.value == x && places[nodes[p].left.value] == Beside(places[x]))
  }

  /** Parent pointers lead to nodes created later, one level up. */
  ghost predicate Parented(nodes: seq<TreeNode>, places: seq<Place>) {
    && |places| == |nodes|
    && forall x :: 0 <= x < |nodes| && nodes[x].parent.Some? ==>
         x < nodes[x].parent.value && IsParent(nodes, places, x, nodes[x].parent.value)
  }

  /** Every node holds the node of the padded leaf array at its place. */
  ghost predicate Holds(nodes: seq<TreeNode>, places: seq<Place>, leaves: seq<Node>) {
    |places| == |nodes| && forall x :: 0 <= x < |nodes| ==>
      nodes[x].node == NodeAt(leaves, places[x].level, places[x].k)
  }

  // ----- the queue

  /** While a level with b nodes is being joined and c parents have been made, the queue holds the rest
      of the level, then the parents. */
  function QueuePlace(level: nat, b: nat, c: nat, j: nat): Place
    requires 2 * c <= b
  {
    if j < b - 2 * c then Place(level, 2 * c + j) else Place(level + 1, j - (b - 2 * c))
  }

  ghost predicate Queued(nodes: seq<TreeNode>, places: seq<Place>, queue: seq<nat>, level: nat, b: nat, c: nat) {
    && |places| == |nodes| && 2 * c <= b && |queue| == b - c
    && (forall j :: 0 <= j < |queue| ==>
        queue[j] < |nodes| && nodes[queue[j]].parent.None? && places[queue[j]] == QueuePlace(level, b, c, j))
    && (forall x :: 0 <= x < |nodes| && nodes[x].parent.None? ==> x in queue)
  }

  /** Places not yet taken while the level is being joined. */
  ghost predicate Unused(places: seq<Place>, level: nat, b: nat, c: nat) {
    forall x :: 0 <= x < |places| ==>
      places[x].level <= level + 1 && (places[x].level == level ==> places[x].k < b)
        && (places[x].level == level + 1 ==> places[x].k < c)
  }

  ghost predicate Building(nodes: seq<TreeNode>, places: seq<Place>, queue: seq<nat>, leaves: seq<Node>, level: nat,
                           b: nat, c: nat) {
    && Placed(nodes, places) && Parented(nodes, places) && Holds(nodes, places, leaves)
    && Queued(nodes, places, queue, level, b, c) && Unused(places, level, b, c)
  }

  /** nodes' has the nodes of nodes with the same children and levels, and perhaps more. */
  ghost predicate SameShape(nodes: seq<TreeNode>, nodes': seq<TreeNode>) {
    && |nodes| <= |nodes'|
    && forall x :: 0 <= x < |nodes| ==>
         nodes'[x].left == nodes[x].left && nodes'[x].right == nodes[x].right && nodes'[x].level == nodes[x].level
  }

  lemma ParentKept(nodes: seq<TreeNode>, nodes': seq<TreeNode>, places: seq<Place>, places': seq<Place>, x: nat, p: nat)
    requires |places| == |nodes| && |places'| == |nodes'| && x < |nodes|
    requires SameShape(nodes, nodes') && places <= places'
    requires IsParent(nodes, places, x, p)
    ensures IsParent(nodes', places', x, p)
  {
  }

  /** b is the number of nodes that the first n leaves need on the level. */
  ghost predicate Counted(n: nat, level: nat, b: nat) {
    n > 0 && Shr(n - 1, level) == b - 1 && (level > 0 ==> Shr(n - 1, level - 1) > 0)
  }

  /** The filler for a level with an odd number of nodes. */
  lemma Filled(nodes: seq<TreeNode>, places: seq<Place>, queue: seq<nat>, leaves: seq<Node>, level: nat, b: nat, c: nat)
    requires Building(nodes, places, queue, leaves, level, b, c) && b == 2 * c + 1
    requires Counted(|leaves|, level, b)
    ensures Building(nodes + [NewEmpty(level)], places + [Place(level, b)], [queue[0], |nodes|] + queue[1..], leaves,
      level, b + 1, c)
  {
    FilledPlaces(nodes, places, level, b, c);
    FilledParents(nodes, places, level, b);
    FilledHolds(nodes, places, leaves, level, b);
    FilledQueue(nodes, places, queue, level, b, c);
    hide Placed, Parented, Holds, Queued, Unused;
  }

  lemma FilledParents(nodes: seq<TreeNode>, places: seq<Place>, level: nat, b: nat)
    requires Parented(nodes, places)
    ensures Parented(nodes + [NewEmpty(level)], places + [Place(level, b)])
  {
    var nodes', places' := nodes + [NewEmpty(level)], places + [Place(level, b)];
    forall x | 0 <= x < |nodes'| && nodes'[x].parent.Some?
      ensures x < nodes'[x].parent.value && IsParent(nodes', places', x, nodes'[x].parent.value)
    {
      ParentKept(nodes, nodes', places, places', x, nodes[x].parent.value);
    }
  }

  lemma FilledHolds(nodes: seq<TreeNode>, places: seq<Place>, leaves: seq<Node>, level: nat, b: nat)
    requires Holds(nodes, places, leaves)
    requires |leaves| > 0 && Shr(|leaves| - 1, level) < b
    ensures Holds(nodes + [NewEmpty(level)], places + [Place(level, b)], leaves)
  {
    EmptySubtree(leaves, |leaves|, level, b);
  }

  lemma FilledPlaces(nodes: seq<TreeNode>, places: seq<Place>, level: nat, b: nat, c: nat)
    requires Placed(nodes, places) && Unused(places, level, b, c)
    ensures Placed(nodes + [NewEmpty(level)], places + [Place(level, b)])
    ensures Unused(places + [Place(level, b)], level, b + 1, c)
  {
  }

  lemma FilledQueue(nodes: seq<TreeNode>, places: seq<Place>, queue: seq<nat>, level: nat, b: nat, c: nat)
    requires Queued(nodes, places, queue, level, b, c) && b == 2 * c + 1
    ensures Queued(nodes + [NewEmpty(level)], places + [Place(level, b)], [queue[0], |nodes|] + queue[1..], level,
      b + 1, c)
  {
    var queue' := [queue[0], |nodes|] + queue[1..];
    forall x | 0 <= x < |nodes| && nodes[x].parent.None?
      ensures x in queue'
    {
      var j :| 0 <= j < |queue| && queue[j] == x;
      if j > 0 {
        assert queue'[j + 1] == x;
      }
    }
    assert queue'[1] == |nodes|;
  }

  // ----- joining two nodes below a new parent

  function NewParent(nodes: seq<TreeNode>, left: nat, right: nat): TreeNode
    requires left < |nodes| && right < |nodes|
  {
    TreeNode(Hash(nodes[left].node, nodes[right].node), Some(left), Some(right), None, nodes[left].level + 1)
  }

  function AssignParent(nodes: seq<TreeNode>, x: nat, parent: nat): (nodes': seq<TreeNode>)
    requires x < |nodes|
    ensures |nodes'| == |nodes|
  {
    nodes[x := nodes[x].(parent := Some(parent))]
  }

  /** The two nodes at the head of the queue hang below a new node. */
  ghost function Joined(nodes: seq<TreeNode>, left: nat, right: nat): (nodes': seq<TreeNode>)
    requires left < |nodes| && right < |nodes| && left != right
    ensures |nodes'| == |nodes| + 1
  {
    var parent := NewParent(nodes, left, right);
    seq(|nodes| + 1, x requires 0 <= x <= |nodes| =>
      if x == |nodes| then parent
      else if x == left || x == right then nodes[x].(parent := Some(|nodes|))
      else nodes[x])
  }

  lemma JoinedInSteps(nodes: seq<TreeNode>, left: nat, right: nat)
    requires left < |nodes| && right < |nodes| && left != right
    ensures AssignParent(AssignParent(nodes + [NewParent(nodes, left, right)], left, |nodes|), right, |nodes|)
         == Joined(nodes, left, right)
  {
  }

  lemma HeadsAreSiblings(nodes: seq<TreeNode>, places: seq<Place>, queue: seq<nat>, level: nat, b: nat, c: nat)
    requires Queued(nodes, places, queue, level, b, c) && b >= 2 * c + 2
    ensures |queue| >= 2 && queue[0] < |nodes| && queue[1] < |nodes| && queue[0] != queue[1]
    ensures places[queue[0]] == Place(level, 2 * c) && places[queue[1]] == Place(level, 2 * c + 1)
  {
    assert places[queue[1]] == QueuePlace(level, b, c, 1);
  }

  lemma JoinStep(nodes: seq<TreeNode>, places: seq<Place>, queue: seq<nat>, leaves: seq<Node>, level: nat, b: nat,
                 c: nat)
    requires Building(nodes, places, queue, leaves, level, b, c) && b >= 2 * c + 2
    ensures |queue| == b - c >= 2 && queue[0] < |nodes| && queue[1] < |nodes| && queue[0] != queue[1]
    ensures Building(Joined(nodes, queue[0], queue[1]), places + [Place(level + 1, c)], queue[2..] + [|nodes|], leaves,
      level, b, c + 1)
  {
    HeadsAreSiblings(nodes, places, queue, level, b, c);
    JoinedPlaces(nodes, places, queue[0], queue[1], level, b, c);
    JoinedParents(nodes, places, queue[0], queue[1], level, c);
    JoinedHolds(nodes, places, leaves, queue[0], queue[1], level, c);
    JoinedQueue(nodes, places, queue, level, b, c);
  }

  lemma HangStep(nodes: seq<TreeNode>, places: seq<Place>, left: nat, right: nat, queue: seq<nat>, leaves: seq<Node>,
                 level: nat, b: nat, c: nat)
    requires Building(nodes, places, [left, right] + queue, leaves, level, b, c) && b >= 2 * c + 2
    ensures |queue| + 2 == b - c && left < |nodes| && right < |nodes| && left != right
    ensures Building(Joined(nodes, left, right), places + [Place(level + 1, c)], queue + [|nodes|], leaves, level, b,
      c + 1)
  {
    JoinStep(nodes, places, [left, right] + queue, leaves, level, b, c);
    assert ([left, right] + queue)[2..] == queue;
  }

  lemma JoinedPlaces(nodes: seq<TreeNode>, places: seq<Place>, left: nat, right: nat, level: nat, b: nat, c: nat)
    requires Placed(nodes, places) && Unused(places, level, b, c)
    requires left < |nodes| && right < |nodes| && left != right && places[left].level == level
    ensures Placed(Joined(nodes, left, right), places + [Place(level + 1, c)])
    ensures Unused(places + [Place(level + 1, c)], level, b, c + 1)
  {
  }

  lemma JoinedParents(nodes: seq<TreeNode>, places: seq<Place>, left: nat, right: nat, level: nat, c: nat)
    requires Parented(nodes, places) && left < |nodes| && right < |nodes| && left != right
    requires places[left] == Place(level, 2 * c) && places[right] == Place(level, 2 * c + 1)
    ensures Parented(Joined(nodes, left, right), places + [Place(level + 1, c)])
  {
    var nodes', places' := Joined(nodes, left, right), places + [Place(level + 1, c)];
    forall x | 0 <= x < |nodes'| && nodes'[x].parent.Some?
      ensures x < nodes'[x].parent.value && IsParent(nodes', places', x, nodes'[x].parent.value)
    {
      if x != left && x != right {
        ParentKept(nodes, nodes', places, places', x, nodes[x].parent.value);
      }
    }
  }

  lemma JoinedHolds(nodes: seq<TreeNode>, places: seq<Place>, leaves: seq<Node>, left: nat, right: nat, level: nat,
                    c: nat)
    requires Holds(nodes, places, leaves) && left < |nodes| && right < |nodes| && left != right
    requires places[left] == Place(level, 2 * c) && places[right] == Place(level, 2 * c + 1)
    ensures Holds(Joined(nodes, left, right), places + [Place(level + 1, c)], leaves)
  {
  }

  lemma JoinedQueue(nodes: seq<TreeNode>, places: seq<Place>, queue: seq<nat>, level: nat, b: nat, c: nat)
    requires Queued(nodes, places, queue, level, b, c) && b >= 2 * c + 2
    requires |queue| >= 2 && queue[0] < |nodes| && queue[1] < |nodes| && queue[0] != queue[1]
    ensures Queued(Joined(nodes, queue[0], queue[1]), places + [Place(level + 1, c)], queue[2..] + [|nodes|], level, b,
      c + 1)
  {
    var nodes', places', queue' :=
      Joined(nodes, queue[0], queue[1]), places + [Place(level + 1, c)], queue[2..] + [|nodes|];
    forall j | 0 <= j < |queue'|
      ensures queue'[j] < |nodes'| && nodes'[queue'[j]].parent.None?
      ensures places'[queue'[j]] == QueuePlace(level, b, c + 1, j)
    {
      if j < |queue| - 2 {
        assert queue'[j] == queue[j + 2];
        assert places[queue[j + 2]] == QueuePlace(level, b, c, j + 2);
        assert places[queue[0]] == QueuePlace(level, b, c, 0) && places[queue[1]] == QueuePlace(level, b, c, 1);
      }
    }
    forall x | 0 <= x < |nodes'| && nodes'[x].parent.None?
      ensures x in queue'
    {
      if x == |nodes| {
        assert queue'[|queue| - 2] == x;
      } else {
        var j :| 0 <= j < |queue| && queue[j] == x;
        assert queue'[j - 2] == x;
      }
    }
  }

  /** A finished level is followed by its parents' level. */
  lemma NextLevel(nodes: seq<TreeNode>, places: seq<Place>, queue: seq<nat>, leaves: seq<Node>, level: nat, b: nat,
                  c: nat)
    requires Building(nodes, places, queue, leaves, level, b, c) && b == 2 * c
    ensures Building(nodes, places, queue, leaves, level + 1, c, 0)
  {
    forall j | 0 <= j < |queue|
      ensures places[queue[j]] == QueuePlace(level + 1, c, 0, j)
    {
      assert places[queue[j]] == QueuePlace(level, b, c, j);
    }
  }

  // ----- the height

  /** A tree of this height is the smallest that has room for n leaves. */
  predicate Fits(n: nat, height: nat) {
    n <= Pow2(height) && (height > 0 ==> Pow2(height - 1) < n)
  }

  lemma {:induction false} ShrZero(i: nat, d: nat)
    ensures Shr(i, d) == 0 <==> i < Pow2(d)
  {
    if d > 0 {
      ShrHalf(i, d);
      ShrZero(i / 2, d - 1);
    }
  }

  lemma CountNextLevel(n: nat, level: nat, b: nat, c: nat)
    requires Counted(n, level, b) && b > 1 && 2 * c <= b + 1 && b <= 2 * c
    ensures Counted(n, level + 1, c)
  {
  }

  lemma FitsExactly(n: nat, height: nat)
    requires Counted(n, height, 1)
    ensures Fits(n, height)
  {
    ShrZero(n - 1, height);
    if height > 0 {
      ShrZero(n - 1, height - 1);
    }
  }

  function LeafPlaces(n: nat): (places: seq<Place>)
    ensures |places| == n
  {
    seq(n, (i: nat) => Place(0, i))
  }

  function LeafNode(leaf: Node): TreeNode {
    TreeNode(leaf, None, None, None, 0)
  }

  lemma BuildingStarts(nodes: seq<TreeNode>, queue: seq<nat>, leaves: seq<Node>)
    requires |nodes| == |queue| == |leaves|
    requires forall i :: 0 <= i < |leaves| ==> nodes[i] == LeafNode(leaves[i]) && queue[i] == i
    ensures Building(nodes, LeafPlaces(|leaves|), queue, leaves, 0, |leaves|, 0)
    ensures |leaves| > 0 ==> Counted(|leaves|, 0, |leaves|)
  {
    forall x | 0 <= x < |nodes|
      ensures x in queue
    {
      assert queue[x] == x;
    }
  }

  /** With one node left in the queue, that is the root. */
  lemma BuildingEnds(nodes: seq<TreeNode>, places: seq<Place>, queue: seq<nat>, leaves: seq<Node>, level: nat, b: nat,
                     c: nat)
    requires Building(nodes, places, queue, leaves, level, b, c) && 2 * c < b && |queue| <= 1
    ensures b == 1 && c == 0 && |queue| == 1 && queue[0] < |nodes| && nodes[queue[0]].node == Root(leaves, level)
    ensures Topped(nodes, places, level)
  {
    assert places[queue[0]] == QueuePlace(level, b, c, 0);
  }

  lemma BuildingIsLinked(nodes: seq<TreeNode>, places: seq<Place>, queue: seq<nat>, leaves: seq<Node>, level: nat,
                         b: nat, c: nat)
    requires Building(nodes, places, queue, leaves, level, b, c)
    ensures Placed(nodes, places) && Parented(nodes, places) && Holds(nodes, places, leaves)
  {
  }

  /** The levels of the two heads differ exactly when the first is the last of its level. */
  lemma HeadLevels(nodes: seq<TreeNode>, places: seq<Place>, queue: seq<nat>, leaves: seq<Node>, level: nat, b: nat,
                   c: nat)
    requires Building(nodes, places, queue, leaves, level, b, c) && 2 * c < b && |queue| > 1
    ensures queue[0] < |nodes| && queue[1] < |nodes| && nodes[queue[0]].level == level
    ensures nodes[queue[1]].level != level <==> b == 2 * c + 1
  {
    assert places[queue[0]] == QueuePlace(level, b, c, 0) && places[queue[1]] == QueuePlace(level, b, c, 1);
  }

  /** Only the root has no parent. */
  ghost predicate Topped(nodes: seq<TreeNode>, places: seq<Place>, height: nat) {
    && |places| == |nodes|
    && forall x :: 0 <= x < |nodes| ==>
        places[x].level <= height && (nodes[x].parent.None? ==> places[x] == Place(height, 0))
  }

  predicate HasParent(nodes: seq<TreeNode>, x: nat) {
    && x < |nodes| && nodes[x].parent.Some?
    && var p := nodes[x].parent.value;
      p < |nodes| && nodes[p].left.Some? && nodes[p].right.Some? && nodes[p].left.value < |nodes|
        && nodes[p].right.value < |nodes|
  }

  /** Which child a node is, told by comparing identifiers. */
  predicate IsLeftChild(nodes: seq<TreeNode>, x: nat)
    requires HasParent(nodes, x)
  {
    nodes[nodes[x].parent.value].left.value == x
  }

  function Sibling(nodes: seq<TreeNode>, x: nat): (y: nat)
    requires HasParent(nodes, x)
    ensures y < |nodes|
  {
    if IsLeftChild(nodes, x) then nodes[nodes[x].parent.value].right.value else nodes[nodes[x].parent.value].left.value
  }

  function SetNode(nodes: seq<TreeNode>, x: nat, node: Node): (nodes': seq<TreeNode>)
    requires x < |nodes|
    ensures |nodes'| == |nodes|
  {
    nodes[x := nodes[x].(node := node)]
  }

  /** Every node is right, except those above the level on the path of leaf idx. */
  ghost predicate HoldsBut(nodes: seq<TreeNode>, places: seq<Place>, leaves: seq<Node>, idx: nat, level: nat) {
    && |places| == |nodes|
    && forall x :: 0 <= x < |nodes| ==>
         (places[x].level > level && places[x].k == Shr(idx, places[x].level))
           || nodes[x].node == NodeAt(leaves, places[x].level, places[x].k)
  }

  lemma LeafSet(nodes: seq<TreeNode>, places: seq<Place>, leaves: seq<Node>, x: nat, idx: nat, leaf: Node)
    requires Holds(nodes, places, leaves) && Placed(nodes, places)
    requires idx < |leaves| && x < |nodes| && places[x] == Place(0, idx)
    ensures HoldsBut(SetNode(nodes, x, leaf), places, leaves[idx := leaf], idx, 0)
  {
    forall y | 0 <= y < |nodes| && !(places[y].level > 0 && places[y].k == Shr(idx, places[y].level))
      ensures SetNode(nodes, x, leaf)[y].node == NodeAt(leaves[idx := leaf], places[y].level, places[y].k)
    {
      if y != x {
        WriteKeepsOtherNodes(leaves, idx, leaf, places[y].level, places[y].k);
      }
    }
  }

  /** The pointers of a tree over n leaves. */
  ghost predicate Wired(nodes: seq<TreeNode>, leafNodes: seq<nat>, places: seq<Place>, n: nat, height: nat)
    ensures Wired(nodes, leafNodes, places, n, height) ==> n == |leafNodes| > 0 && |places| == |nodes|
  {
    && Placed(nodes, places) && Parented(nodes, places) && Topped(nodes, places, height)
    && n == |leafNodes| > 0 && LeafPlaces(n) <= places
    && (forall i :: 0 <= i < |leafNodes| ==> leafNodes[i] == i)
    && Fits(n, height)
  }

  class MerkleTree {
    var nodes: seq<TreeNode>
    var leafNodes: seq<nat>
    var root: Node
    ghost var leaves: seq<Node>
    ghost var places: seq<Place>
    ghost var height: nat

    ghost predicate Linked()
      reads this
    {
      Wired(nodes, leafNodes, places, |leaves|, height)
    }

    ghost predicate Valid()
      reads this
    {
      Linked() && Holds(nodes, places, leaves) && root == Root(leaves, height)
    }

    /** `MerkleTree::new`; without any leaf it panics. */
    static method New(init: seq<Node>) returns (tree: Option<MerkleTree>)
      ensures tree.Some? <==> |init| > 0
      ensures tree.Some? ==> fresh(tree.value) && tree.value.Valid() && tree.value.leaves == init
    {
      if |init| == 0 {
        return None;
      }
      var t := new MerkleTree(init);
      tree := Some(t);
    }

    /** The tree over any number of leaves, padded with Empty up to the next power of two. */
    constructor (init: seq<Node>)
      requires |init| > 0
      ensures Valid() && leaves == init
    {
      nodes := seq(|init|, (i: nat) requires i < |init| => LeafNode(init[i]));
      leafNodes := seq(|init|, (i: nat) => i);
      leaves := init;
      places := LeafPlaces(|init|);
      height := 0;
      root := Empty;
      new;
      root := BuildRoot();
    }

    method BuildRoot() returns (hash: Node)
      requires |leaves| == |leafNodes| == |nodes| > 0 && places == LeafPlaces(|leaves|)
      requires forall i :: 0 <= i < |leaves| ==> nodes[i] == LeafNode(leaves[i]) && leafNodes[i] == i
      modifies this`nodes, this`places, this`height
      ensures Linked() && Holds(nodes, places, leaves) && hash == Root(leaves, height)
    {
      hide Building, Topped, Placed, Parented, Holds, Counted, Fits, LeafPlaces;
      var queue := leafNodes;
      ghost var n, level: nat, b: nat, c: nat := |leaves|, 0, |leaves|, 0;
      BuildingStarts(nodes, queue, leaves);
      while |queue| > 1
        invariant Building(nodes, places, queue, leaves, level, b, c) && |queue| == b - c && 2 * c < b
        invariant Counted(n, level, b)
        invariant LeafPlaces(n) <= places
        decreases 2 * |queue| + (if b == 2 * c + 1 then 1 else 0)
      {
        ghost var b';
        queue, b' := JoinHeads(queue, level, b, c);
        c := c + 1;
        if b' == 2 * c {
          NextLevel(nodes, places, queue, leaves, level, b', c);
          CountNextLevel(n, level, b, c);
          level, b, c := level + 1, c, 0;
        }
      }
      BuildingEnds(nodes, places, queue, leaves, level, b, c);
      FitsExactly(n, level);
      height := level;
      hash := nodes[queue[0]].node;
      BuildingIsLinked(nodes, places, queue, leaves, level, b, c);
    }

    /** One round of the loop: the first two nodes of the queue, or the last of a level and a new empty
        node, are hung below a new parent. */
    method JoinHeads(queue: seq<nat>, ghost level: nat, ghost b: nat, ghost c: nat)
      returns (rest: seq<nat>, ghost b': nat)
      requires Building(nodes, places, queue, leaves, level, b, c) && |queue| > 1 && 2 * c < b
      requires Counted(|leaves|, level, b)
      modifies this`nodes, this`places
      ensures b' == if b == 2 * c + 1 then b + 1 else b
      ensures Building(nodes, places, rest, leaves, level, b', c + 1) && |rest| == b' - (c + 1)
      ensures old(places) <= places
    {
      HeadLevels(nodes, places, queue, leaves, level, b, c);
      hide Building, NewEmpty;
      var left := queue[0];
      rest := queue[1..];
      var leftLevel, right := nodes[left].level, 0;
      if leftLevel != nodes[rest[0]].level {
        Filled(nodes, places, queue, leaves, level, b, c);
        right := |nodes|;
        nodes, places, b' := nodes + [NewEmpty(leftLevel)], places + [Place(level, b)], b + 1;
      } else {
        right := rest[0];
        rest := rest[1..];
        b' := b;
        assert [left, right] + rest == queue;
      }
      rest := HangBelow(left, right, rest, level, b', c);
    }

    /** Links left and right to a new parent, which joins the end of the queue. */
    method HangBelow(left: nat, right: nat, queue: seq<nat>, ghost level: nat, ghost b: nat, ghost c: nat)
      returns (rest: seq<nat>)
      requires Building(nodes, places, [left, right] + queue, leaves, level, b, c) && b >= 2 * c + 2
      modifies this`nodes, this`places
      ensures Building(nodes, places, rest, leaves, level, b, c + 1) && |rest| == b - (c + 1)
      ensures old(places) <= places
    {
      HangStep(nodes, places, left, right, queue, leaves, level, b, c);
      hide Building, Joined, AssignParent, NewParent;
      JoinedInSteps(nodes, left, right);
      var parent := |nodes|;
      nodes := nodes + [NewParent(nodes, left, right)];
      nodes := AssignParent(nodes, left, parent);
      nodes := AssignParent(nodes, right, parent);
      places := places + [Place(level + 1, c)];
      rest := queue + [parent];
    }

    /** The proof of a leaf, by following parent pointers; no such leaf is a panic. */
    method GetProofOfLeaf(idx: nat) returns (proof: Option<seq<Node>>)
      requires Valid()
      ensures proof == if idx < |leaves| then Some(AuthPath(leaves, height, idx)) else None
    {
      hide Wired, Holds, Shr, Sib, SiblingAt, Sibling, HasParent;
      if idx >= |leafNodes| {
        return None;
      }
      var path: seq<Node> := [];
      var node := leafNodes[idx];
      LeafIsPlaced(idx);
      while nodes[node].parent.Some?
        invariant node < |nodes| == |places| && places[node] == Place(|path|, Shr(idx, |path|)) && |path| <= height
        invariant forall j :: 0 <= j < |path| ==> path[j] == SiblingAt(leaves, idx, j)
        decreases |nodes| - node
      {
        StepUp(idx, node, |path|);
        path := path + [nodes[Sibling(nodes, node)].node];
        node := nodes[node].parent.value;
      }
      TopReached(node);
      assert path == AuthPath(leaves, height, idx);
      proof := Some(path);
    }

    lemma LeafIsPlaced(idx: nat)
      requires Linked() && idx < |leafNodes|
      ensures idx < |leaves| && leafNodes[idx] < |nodes| == |places| && places[leafNodes[idx]] == Place(0, Shr(idx, 0))
    {
      assert places[idx] == LeafPlaces(|leaves|)[idx];
    }

    /** One step from a node on the path of a leaf to its parent. */
    lemma StepUp(idx: nat, x: nat, l: nat)
      requires Linked() && x < |nodes| && places[x] == Place(l, Shr(idx, l)) && nodes[x].parent.Some?
      ensures HasParent(nodes, x)
      ensures var p := nodes[x].parent.value;
        x < p < |nodes| && places[p] == Place(l + 1, Shr(idx, l + 1)) && l < height
      ensures IsLeftChild(nodes, x) <==> Shr(idx, l) % 2 == 0
      ensures places[Sibling(nodes, x)] == Place(l, Sib(Shr(idx, l)))
      ensures Holds(nodes, places, leaves) ==> nodes[Sibling(nodes, x)].node == SiblingAt(leaves, idx, l)
    {
      assert IsParent(nodes, places, x, nodes[x].parent.value);
    }

    lemma TopReached(x: nat)
      requires Linked() && x < |nodes| && nodes[x].parent.None?
      ensures places[x] == Place(height, 0)
    {
    }

    method GetLeaf(idx: nat) returns (leaf: Node)
      requires Valid() && idx < |leaves|
      ensures leaf == leaves[idx]
    {
      LeafIsPlaced(idx);
      leaf := nodes[leafNodes[idx]].node;
    }

    /** After leaf idx has been changed, rehashes the way up to the root. */
    method UpdateRootFromLeaf(idx: nat)
      requires Linked() && idx < |leafNodes| && HoldsBut(nodes, places, leaves, idx, 0)
      modifies this`nodes, this`root
      ensures Valid()
    {
      hide Wired, Holds, HoldsBut, Shr, Sib, Sibling, HasParent, IsLeftChild, SetNode;
      var node := leafNodes[idx];
      ghost var level := 0;
      LeafIsPlaced(idx);
      while nodes[node].parent.Some?
        invariant Linked() && node < |nodes| && places[node] == Place(level, Shr(idx, level))
        invariant HoldsBut(nodes, places, leaves, idx, level)
        decreases |nodes| - node
      {
        StepUp(idx, node, level);
        RehashStep(idx, node, level);
        var sibling := nodes[Sibling(nodes, node)].node;
        var hash := if IsLeftChild(nodes, node) then Hash(nodes[node].node, sibling)
          else Hash(sibling, nodes[node].node);
        node := nodes[node].parent.value;
        SetNodeKeepsLinks(node, hash);
        nodes := SetNode(nodes, node, hash);
        level := level + 1;
      }
      root := nodes[node].node;
      TopReached(node);
      Rehashed(idx, node);
    }

    lemma SetNodeKeepsLinks(x: nat, node: Node)
      requires Linked() && x < |nodes|
      ensures Wired(SetNode(nodes, x, node), leafNodes, places, |leaves|, height)
    {
      var nodes' := SetNode(nodes, x, node);
      forall y | 0 <= y < |nodes| && nodes'[y].parent.Some?
        ensures y < nodes'[y].parent.value && IsParent(nodes', places, y, nodes'[y].parent.value)
      {
        ParentKept(nodes, nodes', places, places, y, nodes[y].parent.value);
      }
    }

    /** The parent's new hash is the node of the new leaves there. */
    lemma RehashStep(idx: nat, x: nat, level: nat)
      requires Linked() && x < |nodes| && places[x] == Place(level, Shr(idx, level)) && HasParent(nodes, x)
      requires places[nodes[x].parent.value] == Place(level + 1, Shr(idx, level + 1))
      requires places[Sibling(nodes, x)] == Place(level, Sib(Shr(idx, level)))
      requires IsLeftChild(nodes, x) <==> Shr(idx, level) % 2 == 0
      requires HoldsBut(nodes, places, leaves, idx, level)
      ensures var node, sibling := nodes[x].node, nodes[Sibling(nodes, x)].node;
              var hash := if IsLeftChild(nodes, x) then Hash(node, sibling) else Hash(sibling, node);
        HoldsBut(SetNode(nodes, nodes[x].parent.value, hash), places, leaves, idx, level + 1)
    {
      hide Parented, Topped, Fits, LeafPlaces, Sib;
      ParentOfSiblings(leaves, level, Shr(idx, level));
    }

    lemma Rehashed(idx: nat, x: nat)
      requires Linked() && x < |nodes| && nodes[x].parent.None? && HoldsBut(nodes, places, leaves, idx, height)
      ensures Holds(nodes, places, leaves) && nodes[x].node == Root(leaves, height)
    {
    }

    /** Writes a leaf; no such leaf is a panic. */
    method AddLeaf(leaf: Node, idx: nat) returns (panicked: bool)
      requires Valid()
      modifies this`nodes, this`root, this`leaves
      ensures Valid()
      ensures panicked <==> idx >= |old(leaves)|
      ensures leaves == if idx < |old(leaves)| then old(leaves)[idx := leaf] else old(leaves)
    {
      if idx >= |leafNodes| {
        return true;
      }
      LeafIsPlaced(idx);
      LeafSet(nodes, places, leaves, leafNodes[idx], idx, leaf);
      SetNodeKeepsLinks(leafNodes[idx], leaf);
      hide Wired, Holds, HoldsBut, SetNode;
      nodes := SetNode(nodes, leafNodes[idx], leaf);
      leaves := leaves[idx := leaf];
      UpdateRootFromLeaf(idx);
      panicked := false;
    }

    /** Empties a leaf; no such leaf is a panic. */
    method RemoveLeaf(idx: nat) returns (panicked: bool)
      requires Valid()
      modifies this`nodes, this`root, this`leaves
      ensures Valid()
      ensures panicked <==> idx >= |old(leaves)|
      ensures leaves == if idx < |old(leaves)| then old(leaves)[idx := Empty] else old(leaves)
    {
      panicked := AddLeaf(Empty, idx);
    }
  }
}
