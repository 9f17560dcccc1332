/** Checking that the stored nodes of a tree fit together. */
module Backfiller {
  import opened Bits
  import opened Merkle
  import opened VersionedTree
  import opened Canopy
  import opened Events
  import opened SdkIndexer

  /** `getTree`: the newest hash of every node up to a sequence number. */
  type NodeMap = map<nat, Node>

  ghost predicate IsTree(rows: Rows, upto: nat, tree: NodeMap) {
    && (forall n :: n in tree ==> exists s :: NewestUpTo(rows, n, upto, s) && rows[(s, n)].hash == tree[n])
    && (forall n, s :: NewestUpTo(rows, n, upto, s) ==> n in tree)
  }

  /** A stored node, or the empty node of its level. */
  function Child(tree: NodeMap, depth: nat, m: nat): Node
    requires 1 <= m < Pow2(depth + 1)
  {
    Log2Below(m, depth);
    if m in tree then tree[m] else EmptyNode(depth - Log2(m))
  }

  /** The stored inner node n is the hash of its children. */
  predicate FitsChildren(tree: NodeMap, depth: nat, n: nat)
    requires n in tree && 1 <= n < Pow2(depth)
  {
    tree[n] == Hash(Child(tree, depth, 2 * n), Child(tree, depth, 2 * n + 1))
  }

  /** n and every node left of it on its level are stored. */
  ghost predicate Reached(tree: NodeMap, n: nat)
    requires n >= 1
  {
    n in tree && forall m :: Pow2(Log2(n)) <= m <= n ==> m in tree
  }

  /** `validateTree`: walks each level from the left up to the first missing node. It accepts exactly
      the tables in which every node it reaches is the hash of its children. */
  method ValidateTree(depth: nat, tree: NodeMap) returns (valid: bool)
    ensures valid <==> forall n :: 1 <= n < Pow2(depth) && Reached(tree, n) ==> FitsChildren(tree, depth, n)
  {
    var nodeIdx := 1;
    while nodeIdx < Pow2(depth)
      invariant nodeIdx >= 1
      invariant forall m :: Pow2(Log2(nodeIdx)) <= m < nodeIdx ==> m in tree
      invariant forall n :: 1 <= n < nodeIdx && n < Pow2(depth) && Reached(tree, n) ==> FitsChildren(tree, depth, n)
      decreases Pow2(depth) - nodeIdx
    {
      Log2Bounds(nodeIdx);
      if nodeIdx !in tree {
        var next := Pow2(Log2(nodeIdx) + 1);
        RestOfLevelNotReached(tree, nodeIdx);
        Log2Pow2(Log2(nodeIdx) + 1);
        nodeIdx := next;
        continue;
      }
      assert Reached(tree, nodeIdx);
      ChildLevels(depth, nodeIdx);
      var left := if 2 * nodeIdx in tree then tree[2 * nodeIdx] else EmptyNode(depth - Log2(2 * nodeIdx));
      var right := if 2 * nodeIdx + 1 in tree then tree[2 * nodeIdx + 1] else EmptyNode(depth - Log2(2 * nodeIdx));
      if tree[nodeIdx] != Hash(left, right) {
        return false;
      }
      NextNumber(nodeIdx);
      nodeIdx := nodeIdx + 1;
    }
    valid := true;
  }

  lemma ChildLevels(depth: nat, n: nat)
    requires 1 <= n < Pow2(depth)
    ensures 2 * n + 1 < Pow2(depth + 1)
    ensures Log2(2 * n) == Log2(2 * n + 1) == Log2(n) + 1 <= depth
  {
    assert Pow2(depth + 1) == 2 * Pow2(depth);
    Log2Below(2 * n, depth);
  }

  /** Either the next number is on the same level, or it starts the next one. */
  lemma NextNumber(n: nat)
    requires n >= 1
    ensures Log2(n + 1) == Log2(n) || (Log2(n + 1) == Log2(n) + 1 && n + 1 == Pow2(Log2(n + 1)))
  {
    Log2Bounds(n);
    if n + 1 < 2 * Pow2(Log2(n)) {
      Log2Unique(n + 1, Log2(n));
    } else {
      Log2Pow2(Log2(n) + 1);
    }
  }

  lemma RestOfLevelNotReached(tree: NodeMap, n: nat)
    requires n >= 1 && n !in tree
    ensures forall m {:trigger Reached(tree, m)} :: n <= m < Pow2(Log2(n) + 1) ==> !Reached(tree, m)
  {
    Log2Bounds(n);
    forall m {:trigger Reached(tree, m)} | n <= m < Pow2(Log2(n) + 1)
      ensures !Reached(tree, m)
    {
      Log2Unique(m, Log2(n));
    }
  }

  /** On each level the stored nodes are the leftmost ones. */
  ghost predicate LeftFilled(tree: NodeMap) {
    forall m, n :: 1 <= m < n && n in tree && Log2(m) == Log2(n) ==> m in tree
  }

  /** On such a table every stored node is reached, so acceptance means that all inner nodes fit. */
  lemma LeftFilledIsFullyChecked(tree: NodeMap, n: nat)
    requires LeftFilled(tree) && n >= 1
    ensures Reached(tree, n) <==> n in tree
  {
    Log2Bounds(n);
    if n in tree {
      forall m | Pow2(Log2(n)) <= m <= n
        ensures m in tree
      {
        Log2Unique(m, Log2(n));
      }
    }
  }

  // ----- what acceptance means

  /** With every node its parent is stored. */
  ghost predicate ParentsStored(tree: NodeMap) {
    forall n :: n >= 2 && n in tree ==> n / 2 in tree
  }

  /** The leaves a table holds, empty ones included. */
  ghost function StoredLeaves(tree: NodeMap, depth: nat): (leaves: seq<Node>)
    ensures |leaves| == Pow2(depth)
  {
    seq(Pow2(depth), (i: nat) => if Pow2(depth) + i in tree then tree[Pow2(depth) + i] else Empty)
  }

  /** A table, with empty nodes for missing rows, is the tree of its own leaves. */
  ghost predicate IsTreeOfItsLeaves(tree: NodeMap, depth: nat) {
    forall n :: 1 <= n < Pow2(depth + 1) ==> Child(tree, depth, n) == NodeByNumber(StoredLeaves(tree, depth), depth, n)
  }

  lemma LeafIsStored(tree: NodeMap, depth: nat, n: nat)
    requires Pow2(depth) <= n < Pow2(depth + 1)
    ensures Child(tree, depth, n) == NodeByNumber(StoredLeaves(tree, depth), depth, n)
  {
    Log2Unique(n, depth);
  }

  lemma ParentByNumber(leaves: seq<Node>, depth: nat, n: nat)
    requires 1 <= n < Pow2(depth)
    ensures 2 * n + 1 < Pow2(depth + 1)
    ensures NodeByNumber(leaves, depth, n)
         == Hash(NodeByNumber(leaves, depth, 2 * n), NodeByNumber(leaves, depth, 2 * n + 1))
  {
    ChildLevels(depth, n);
    Log2Bounds(n);
    assert Pow2(Log2(n) + 1) == 2 * Pow2(Log2(n));
  }

  /** A missing parent has no stored children, and the empty node is the hash of its children too. */
  lemma ParentFits(tree: NodeMap, depth: nat, n: nat)
    requires ParentsStored(tree) && 1 <= n < Pow2(depth)
    requires n in tree ==> FitsChildren(tree, depth, n)
    ensures 2 * n + 1 < Pow2(depth + 1)
    ensures Child(tree, depth, n) == Hash(Child(tree, depth, 2 * n), Child(tree, depth, 2 * n + 1))
  {
    ChildLevels(depth, n);
    if n !in tree {
      assert (2 * n) / 2 == n && (2 * n + 1) / 2 == n;
      assert 2 * n !in tree && 2 * n + 1 !in tree;
    }
  }

  lemma {:induction false} FittingNode(tree: NodeMap, depth: nat, n: nat)
    requires ParentsStored(tree) && 1 <= n < Pow2(depth + 1)
    requires forall m :: 1 <= m < Pow2(depth) && m in tree ==> FitsChildren(tree, depth, m)
    ensures Child(tree, depth, n) == NodeByNumber(StoredLeaves(tree, depth), depth, n)
    decreases Pow2(depth + 1) - n
  {
    hide Child, NodeByNumber, FitsChildren, ParentsStored, StoredLeaves;
    if n < Pow2(depth) {
      ParentFits(tree, depth, n);
      ParentByNumber(StoredLeaves(tree, depth), depth, n);
      FittingNode(tree, depth, 2 * n);
      FittingNode(tree, depth, 2 * n + 1);
    } else {
      LeafIsStored(tree, depth, n);
    }
  }

  /** `validateTree`, on a table filled from the left that holds a parent for every node, accepts if and only
      if the table is the tree of its leaves. */
  lemma AcceptedIsTheTree(tree: NodeMap, depth: nat)
    requires LeftFilled(tree) && ParentsStored(tree)
    ensures (forall n :: 1 <= n < Pow2(depth) && Reached(tree, n) ==> FitsChildren(tree, depth, n))
       <==> IsTreeOfItsLeaves(tree, depth)
  {
    hide FitsChildren, LeftFilled, ParentsStored, Reached, Child, NodeByNumber, StoredLeaves;
    forall n: nat | n >= 1
      ensures Reached(tree, n) <==> n in tree
    {
      LeftFilledIsFullyChecked(tree, n);
    }
    if forall n :: 1 <= n < Pow2(depth) && Reached(tree, n) ==> FitsChildren(tree, depth, n) {
      forall n | 1 <= n < Pow2(depth + 1)
        ensures Child(tree, depth, n) == NodeByNumber(StoredLeaves(tree, depth), depth, n)
      {
        FittingNode(tree, depth, n);
      }
    }
    if IsTreeOfItsLeaves(tree, depth) {
      forall n | 1 <= n < Pow2(depth) && n in tree
        ensures FitsChildren(tree, depth, n)
      {
        TreeFits(tree, depth, n);
      }
    }
  }

  lemma TreeFits(tree: NodeMap, depth: nat, n: nat)
    requires IsTreeOfItsLeaves(tree, depth) && 1 <= n < Pow2(depth) && n in tree
    ensures FitsChildren(tree, depth, n)
  {
    ParentByNumber(StoredLeaves(tree, depth), depth, n);
    hide NodeByNumber, StoredLeaves;
    Log2Below(n, depth);
    assert Child(tree, depth, n) == tree[n];
  }

  lemma OwnRoot(tree: NodeMap, depth: nat)
    requires IsTreeOfItsLeaves(tree, depth) && 1 < Pow2(depth + 1)
    ensures Child(tree, depth, 1) == Root(StoredLeaves(tree, depth), depth)
  {
    assert Pow2(0) == 1;
    Log2Unique(1, 0);
    assert NodeByNumber(StoredLeaves(tree, depth), depth, 1) == Root(StoredLeaves(tree, depth), depth);
  }

  lemma OwnLeaf(tree: NodeMap, depth: nat, leaves: seq<Node>, i: nat)
    requires i < Pow2(depth) == |leaves|
    ensures Pow2(depth) + i < Pow2(depth + 1)
    ensures Child(tree, depth, Pow2(depth) + i) == NodeByNumber(leaves, depth, Pow2(depth) + i)
         ==> StoredLeaves(tree, depth)[i] == leaves[i]
  {
    assert Pow2(depth + 1) == 2 * Pow2(depth);
    Log2Unique(Pow2(depth) + i, depth);
  }

  lemma TreeOfThese(tree: NodeMap, depth: nat, leaves: seq<Node>)
    requires StoredLeaves(tree, depth) == leaves
    ensures IsTreeOfItsLeaves(tree, depth)
       <==> forall n :: 1 <= n < Pow2(depth + 1) ==> Child(tree, depth, n) == NodeByNumber(leaves, depth, n)
  {
  }

  /** So on a table with the right root it accepts if and only if every node of the tree is right. */
  lemma AcceptedWithTheRoot(tree: NodeMap, depth: nat, leaves: seq<Node>)
    requires LeftFilled(tree) && ParentsStored(tree) && |leaves| == Pow2(depth)
    requires 1 < Pow2(depth + 1) && Child(tree, depth, 1) == Root(leaves, depth)
    ensures (forall n :: 1 <= n < Pow2(depth) && Reached(tree, n) ==> FitsChildren(tree, depth, n))
       <==> forall n :: 1 <= n < Pow2(depth + 1) ==> Child(tree, depth, n) == NodeByNumber(leaves, depth, n)
  {
    hide FitsChildren, LeftFilled, ParentsStored, Reached, IsTreeOfItsLeaves, NodeByNumber, Child, StoredLeaves;
    AcceptedIsTheTree(tree, depth);
    var own := StoredLeaves(tree, depth);
    if IsTreeOfItsLeaves(tree, depth) {
      OwnRoot(tree, depth);
      RootIsInjective(own, leaves, depth);
      TreeOfThese(tree, depth, leaves);
    }
    if forall n :: 1 <= n < Pow2(depth + 1) ==> Child(tree, depth, n) == NodeByNumber(leaves, depth, n) {
      forall i | 0 <= i < Pow2(depth)
        ensures own[i] == leaves[i]
      {
        OwnLeaf(tree, depth, leaves, i);
      }
      assert own == leaves;
      TreeOfThese(tree, depth, leaves);
    }
  }

  // ----- trees grow from the left

  /** The first position not yet written after version w. */
  ghost function FreeAfter(t: Tree, w: nat): nat
    requires w < |t.versions|
  {
    if w == 0 then 0
    else if t.versions[w].index == FreeAfter(t, w - 1) then FreeAfter(t, w - 1) + 1
    else FreeAfter(t, w - 1)
  }

  /** No write ever skipped a position. */
  ghost predicate GrewFromLeft(t: Tree) {
    && |t.versions| > 0 && FreeAfter(t, Newest(t)) == t.next
    && forall w {:trigger LeavesNoGap(t, w)} :: 0 < w < |t.versions| ==> LeavesNoGap(t, w)
  }

  ghost predicate LeavesNoGap(t: Tree, w: nat)
    requires 0 < w < |t.versions|
  {
    t.versions[w].index <= FreeAfter(t, w - 1)
  }

  lemma InitialGrewFromLeft(depth: nat, capacity: nat)
    ensures GrewFromLeft(Initial(depth, capacity))
  {
  }

  lemma {:induction false} FreeAfterPrefix(t: Tree, t': Tree, w: nat)
    requires w < |t.versions| && t.versions <= t'.versions
    ensures FreeAfter(t', w) == FreeAfter(t, w)
  {
    assert t'.versions[w] == t.versions[w];
    if w > 0 {
      FreeAfterPrefix(t, t', w - 1);
    }
  }

  /** Writes at or before the first free position, which is all the roll accepts below 2^depth. */
  lemma WriteGrowsFromLeft(t: Tree, index: nat, x: Node)
    requires |t.versions| > 0 && |Leaves(t)| == Pow2(t.depth) && GrewFromLeft(t)
    requires index <= t.next <= Pow2(t.depth) && index < Pow2(t.depth)
    ensures GrewFromLeft(Write(t, index, x))
  {
    var t', n := Write(t, index, x), |t.versions|;
    assert |t'.versions| == n + 1 && t'.versions[n].index == index && t.versions <= t'.versions;
    assert t'.next == if index == t.next then index + 1 else t.next;
    hide Write;
    FreeAfterPrefix(t, t', n - 1);
    forall w | 0 < w < |t'.versions|
      ensures LeavesNoGap(t', w)
    {
      FreeAfterPrefix(t, t', w - 1);
      if w < n {
        assert t'.versions[w] == t.versions[w] && LeavesNoGap(t, w);
      }
    }
  }

  /** Every position before the first free one has been written. */
  lemma {:induction false} EarlierWasWritten(t: Tree, g: nat, i: nat) returns (w: nat)
    requires g < |t.versions| && i < FreeAfter(t, g)
    ensures 1 <= w <= g && t.versions[w].index == i
  {
    if t.versions[g].index == i {
      w := g;
    } else {
      w := EarlierWasWritten(t, g - 1, i);
    }
  }

  lemma {:induction false} FreeGrows(t: Tree, w: nat, g: nat)
    requires w <= g < |t.versions|
    ensures FreeAfter(t, w) <= FreeAfter(t, g)
    decreases g - w
  {
    if w < g {
      FreeGrows(t, w, g - 1);
    }
  }

  /** Below a position of a level there is a leaf, and it is left of every leaf of a later position. */
  lemma {:induction false} LeftmostLeaf(l: nat, k: nat, i: nat) returns (j: nat)
    requires k < Shr(i, l)
    ensures Shr(j, l) == k && j < i
    decreases l
  {
    if l == 0 {
      j := k;
    } else {
      j := LeftmostLeaf(l - 1, 2 * k, i);
    }
  }

  /** So the stored nodes of a complete prefix of the events are the leftmost ones of their levels. */
  lemma CompletePrefixIsLeftFilled(t: Tree, ws: set<nat>, rows: Rows, g: nat, tree: NodeMap)
    requires Published(t) && GrewFromLeft(t) && Keeps(t, ws, rows)
    requires 1 <= g < |t.versions| && forall w :: 1 <= w <= g ==> w in ws
    requires IsTree(rows, g, tree)
    ensures LeftFilled(tree)
  {
    forall m, n | 1 <= m < n && n in tree && Log2(m) == Log2(n)
      ensures m in tree
    {
      var s :| NewestUpTo(rows, n, g, s) && rows[(s, n)].hash == tree[n];
      LeftNeighbourStored(t, ws, rows, g, tree, m, n, s);
    }
  }

  /** Such a table holds the parent of every node: an event carries a whole path. */
  lemma CompletePrefixStoresParents(t: Tree, ws: set<nat>, rows: Rows, g: nat, tree: NodeMap)
    requires Keeps(t, ws, rows) && IsTree(rows, g, tree)
    ensures ParentsStored(tree)
  {
    forall n | n >= 2 && n in tree
      ensures n / 2 in tree
    {
      var s :| NewestUpTo(rows, n, g, s) && rows[(s, n)].hash == tree[n];
      ParentStored(t, ws, rows, n, s);
      var v := NewestExists(rows, n / 2, g, s);
    }
  }

  lemma ParentStored(t: Tree, ws: set<nat>, rows: Rows, n: nat, s: nat)
    requires Keeps(t, ws, rows) && (s, n) in rows && n >= 2
    ensures (s, n / 2) in rows
  {
    assert n < Pow2(t.depth + 1) && 0 < s < |t.versions|;
    Log2Bounds(n);
    var l, k := DepthOf(t.depth, n), n - Pow2(Log2(n));
    assert Pow2(t.depth - l) == Pow2(Log2(n)) && Log2(n) >= 1;
    assert Pow2(Log2(n)) == 2 * Pow2(Log2(n) - 1);
    assert n == NodeNumber(t.depth, l, k) && n / 2 == NodeNumber(t.depth, l + 1, k / 2);
    assert VersionRecorded(t, ws, rows, s, l, k) && VersionRecorded(t, ws, rows, s, l + 1, k / 2);
  }

  /** A node left of a touched one has been touched too. */
  lemma LeftNeighbourTouched(t: Tree, g: nat, l: nat, k: nat, s: nat) returns (w: nat)
    requires GrewFromLeft(t) && 0 < s <= g < |t.versions|
    requires k < Shr(t.versions[s].index, l)
    ensures 1 <= w <= g && Touches(t, w, l, k)
  {
    var j := LeftmostLeaf(l, k, t.versions[s].index);
    assert LeavesNoGap(t, s);
    FreeGrows(t, s - 1, g);
    w := EarlierWasWritten(t, g, j);
  }

  /** Two numbers of one level differ as their positions do. */
  lemma SameLevelPositions(depth: nat, m: nat, n: nat) returns (l: nat, k: nat, k': nat)
    requires 1 <= m < n < Pow2(depth + 1) && Log2(m) == Log2(n)
    ensures l <= depth && k < k' < Pow2(depth - l)
    ensures m == NodeNumber(depth, l, k) && n == NodeNumber(depth, l, k')
  {
    Log2Bounds(m);
    Log2Bounds(n);
    l, k, k' := DepthOf(depth, n), m - Pow2(Log2(m)), n - Pow2(Log2(n));
  }

  lemma LeftNeighbourStored(t: Tree, ws: set<nat>, rows: Rows, g: nat, tree: NodeMap, m: nat, n: nat, s: nat)
    requires GrewFromLeft(t) && Keeps(t, ws, rows)
    requires 1 <= g < |t.versions| && forall w :: 1 <= w <= g ==> w in ws
    requires IsTree(rows, g, tree)
    requires 1 <= m < n && Log2(m) == Log2(n) && (s, n) in rows && s <= g
    ensures m in tree
  {
    assert n < Pow2(t.depth + 1) && 0 < s < |t.versions|;
    var l, k, k' := SameLevelPositions(t.depth, m, n);
    assert VersionRecorded(t, ws, rows, s, l, k');
    var w := LeftNeighbourTouched(t, g, l, k, s);
    assert VersionRecorded(t, ws, rows, w, l, k);
    assert (w, m) in rows;
    var v := NewestExists(rows, m, g, w);
  }

  /** The tree read from a complete prefix of the events, with an empty node for every missing row, is
      the tree of that version. */
  lemma CompletePrefixIsTheTree(t: Tree, ws: set<nat>, rows: Rows, g: nat, tree: NodeMap, l: nat, k: nat)
    requires Published(t) && Keeps(t, ws, rows) && l <= t.depth && k < Pow2(t.depth - l)
    requires 1 <= g < |t.versions| && forall w :: 1 <= w <= g ==> w in ws
    requires IsTree(rows, g, tree)
    ensures NodeNumber(t.depth, l, k) < Pow2(t.depth + 1)
    ensures Child(tree, t.depth, NodeNumber(t.depth, l, k)) == NodeAt(t.versions[g].leaves, l, k)
  {
    var n := NodeNumber(t.depth, l, k);
    NumberedNode([], t.depth, l, k);
    if n in tree {
      var s :| NewestUpTo(rows, n, g, s) && rows[(s, n)].hash == tree[n];
      NodeUpTo(t, ws, rows, g, l, k, s);
    } else {
      forall v | v <= g
        ensures (v, n) !in rows
      {
        if (v, n) in rows {
          var s := NewestExists(rows, n, g, v);
        }
      }
      NodeUpTo(t, ws, rows, g, l, k, 0);
    }
  }

  /** Every complete prefix of the events validates. */
  lemma CompletePrefixValidates(t: Tree, ws: set<nat>, rows: Rows, g: nat, tree: NodeMap, n: nat)
    requires Published(t) && Keeps(t, ws, rows)
    requires 1 <= g < |t.versions| && forall w :: 1 <= w <= g ==> w in ws
    requires IsTree(rows, g, tree)
    requires n in tree && 1 <= n < Pow2(t.depth)
    ensures FitsChildren(tree, t.depth, n)
  {
    Log2Bounds(n);
    ChildLevels(t.depth, n);
    var l, k := t.depth - Log2(n), n - Pow2(Log2(n));
    assert Pow2(t.depth - (l - 1)) == 2 * Pow2(t.depth - l);
    assert n == NodeNumber(t.depth, l, k);
    assert 2 * n == NodeNumber(t.depth, l - 1, 2 * k) && 2 * n + 1 == NodeNumber(t.depth, l - 1, 2 * k + 1);
    CompletePrefixIsTheTree(t, ws, rows, g, tree, l, k);
    CompletePrefixIsTheTree(t, ws, rows, g, tree, l - 1, 2 * k);
    CompletePrefixIsTheTree(t, ws, rows, g, tree, l - 1, 2 * k + 1);
  }

  /** `validateTree` on a complete prefix of the events of a tree: it accepts. */
  method ValidateCompletePrefix(depth: nat, tree: NodeMap, ghost t: Tree, ghost ws: set<nat>, ghost rows: Rows,
                                ghost g: nat)
    returns (valid: bool)
    requires Published(t) && Keeps(t, ws, rows) && depth == t.depth
    requires 1 <= g < |t.versions| && forall w :: 1 <= w <= g ==> w in ws
    requires IsTree(rows, g, tree)
    ensures valid
  {
    valid := ValidateTree(depth, tree);
    forall n | 1 <= n < Pow2(depth) && Reached(tree, n)
      ensures FitsChildren(tree, depth, n)
    {
      CompletePrefixValidates(t, ws, rows, g, tree, n);
    }
  }
}
