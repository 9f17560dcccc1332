/** Node numbering of the whole tree, the change-log event, and the cached top levels. */
module Canopy {
  import opened Bits
  import opened Merkle
  import opened VersionedTree
  import opened Replay

  // ----- node numbers: the root is 1, the children of n are 2n and 2n + 1

  function NodeNumber(depth: nat, l: nat, k: nat): (n: nat)
    requires l <= depth
    ensures n >= 1
  {
    Pow2(depth - l) + k
  }

  /** The node with number n. */
  function NodeByNumber(leaves: seq<Node>, depth: nat, n: nat): Node
    requires 1 <= n < Pow2(depth + 1)
  {
    Log2Bounds(n);
    Log2Below(n, depth);
    NodeAt(leaves, depth - Log2(n), n - Pow2(Log2(n)))
  }

  lemma {:induction false} Log2Below(n: nat, depth: nat)
    requires 1 <= n < Pow2(depth + 1)
    ensures Log2(n) <= depth
  {
    Log2Bounds(n);
    if Log2(n) > depth {
      Pow2Monotone(depth + 1, Log2(n));
    }
  }

  /** The level of the node with number n. */
  ghost function DepthOf(depth: nat, n: nat): (l: nat)
    requires 1 <= n < Pow2(depth + 1)
    ensures l <= depth
  {
    Log2Below(n, depth);
    depth - Log2(n)
  }

  lemma NumberedNode(leaves: seq<Node>, depth: nat, l: nat, k: nat)
    requires l <= depth && k < Pow2(depth - l)
    ensures NodeNumber(depth, l, k) < Pow2(depth + 1) && Log2(NodeNumber(depth, l, k)) == depth - l
    ensures NodeByNumber(leaves, depth, NodeNumber(depth, l, k)) == NodeAt(leaves, l, k)
  {
    assert Pow2(depth - l + 1) == 2 * Pow2(depth - l);
    Pow2Monotone(depth - l + 1, depth + 1);
    Log2Unique(NodeNumber(depth, l, k), depth - l);
  }

  /** Number and level of a node determine each other. */
  lemma NumbersAreDistinct(depth: nat, l: nat, k: nat, l': nat, k': nat)
    requires l <= depth && l' <= depth && k < Pow2(depth - l) && k' < Pow2(depth - l')
    ensures NodeNumber(depth, l, k) == NodeNumber(depth, l', k') <==> l == l' && k == k'
  {
    NumberedNode([], depth, l, k);
    NumberedNode([], depth, l', k');
  }

  /** Shifting the number of a leaf gives the number of its ancestor. */
  lemma AncestorNumber(depth: nat, i: nat, l: nat)
    requires i < Pow2(depth) && l <= depth
    ensures Shr(Pow2(depth) + i, l) == NodeNumber(depth, l, Shr(i, l))
    ensures Shr(i, l) < Pow2(depth - l)
  {
    ShrAddPow2(i, depth, l);
    ShrBound(i, depth, l);
  }

  /** The sibling of a numbered node below the root has the sibling number. */
  lemma SiblingNumber(depth: nat, l: nat, k: nat)
    requires l < depth && k < Pow2(depth - l)
    ensures Sib(NodeNumber(depth, l, k)) == NodeNumber(depth, l, Sib(k)) && Sib(k) < Pow2(depth - l)
  {
    assert Pow2(depth - l) == 2 * Pow2(depth - l - 1);
  }

  // ----- the change-log event

  datatype PathNode = PathNode(node: Node, index: nat)

  datatype ChangeLogEvent = ChangeLogEvent(path: seq<PathNode>, seqNo: nat, index: nat)

  /** `From<ChangeLog>`: every node of the path with its number, the root last. */
  function ToEvent(log: Log, seqNo: nat): (e: ChangeLogEvent)
    ensures |e.path| == |log.path| + 1
  {
    var depth := |log.path|;
    ChangeLogEvent(
      seq(depth, l requires 0 <= l < depth => PathNode(log.path[l], Pow2(depth - l) + Shr(log.index, l)))
        + [PathNode(log.root, 1)],
      seqNo, log.index)
  }

  /** The event of version w of a tree: the numbered nodes of that version on one leaf's path. */
  ghost function EventOf(t: Tree, w: nat): ChangeLogEvent
    requires w < |t.versions|
  {
    ToEvent(LogOf(t.depth, t.versions[w]), if w < TWO_64 then w else TWO_64 - 1)
  }

  /** The nodes a log holds, root included, are those on the path of its leaf. */
  lemma LogNodes(depth: nat, v: Version, l: nat)
    requires v.index < Pow2(depth) && l <= depth
    ensures Shr(v.index, l) < Pow2(depth - l)
    ensures (if l < depth then LogOf(depth, v).path[l] else LogOf(depth, v).root)
         == NodeAt(v.leaves, l, Shr(v.index, l))
  {
    LowSmall(v.index, depth);
    ShrBound(v.index, depth, l);
    if l == depth {
      assert Shr(v.index, l) == 0;
    }
  }

  /** The event of a version: the leaf written, its number in the sequence, and the path. */
  lemma EventNodes(t: Tree, w: nat, l: nat)
    requires w < |t.versions| && t.versions[w].index < Pow2(t.depth) && l <= t.depth
    ensures |EventOf(t, w).path| == t.depth + 1 && EventOf(t, w).index == t.versions[w].index
    ensures w < TWO_64 ==> EventOf(t, w).seqNo == w
    ensures Shr(t.versions[w].index, l) < Pow2(t.depth - l)
    ensures EventOf(t, w).path[l] == PathNode(
      NodeAt(t.versions[w].leaves, l, Shr(t.versions[w].index, l)), NodeNumber(t.depth, l, Shr(t.versions[w].index, l)))
  {
    hide NodeAt, Shr, ToEvent, NodeNumber;
    var log := LogOf(t.depth, t.versions[w]);
    assert |log.path| == t.depth && log.index == t.versions[w].index;
    LogNodes(t.depth, t.versions[w], l);
    hide LogOf;
    NumberedPath(log, EventOf(t, w).seqNo, l);
    SeqNoOfEvent(log, if w < TWO_64 then w else TWO_64 - 1);
  }

  lemma SeqNoOfEvent(log: Log, seqNo: nat)
    ensures ToEvent(log, seqNo).seqNo == seqNo && ToEvent(log, seqNo).index == log.index
  {
  }

  /** Every node of a log is in its event, under its number. */
  lemma NumberedPath(log: Log, seqNo: nat, l: nat)
    requires l <= |log.path| && Shr(log.index, l) < Pow2(|log.path| - l)
    ensures ToEvent(log, seqNo).path[l] == PathNode(
      if l < |log.path| then log.path[l] else log.root, NodeNumber(|log.path|, l, Shr(log.index, l)))
  {
    hide Shr;
    assert Pow2(0) == 1;
  }

  /** Sequence numbers never go back, not even when the counter is exhausted. */
  lemma SequenceNumbersNeverDecrease(t: Tree, w: nat, w': nat)
    requires w <= w' < |t.versions|
    ensures EventOf(t, w).seqNo <= EventOf(t, w').seqNo < TWO_64
  {
  }

  // ----- the canopy: all nodes of the top levels without the root, by number minus two

  datatype PathLength = Levels(count: int) | CanopyLengthMismatch

  /** `get_cached_path_length` */
  function GetCachedPathLength(canopyLength: nat, maxDepth: nat): PathLength {
    var closestPowerOf2 := canopyLength + 2;
    if And(closestPowerOf2, closestPowerOf2 - 1) == 0 then
      if closestPowerOf2 > Pow2(maxDepth + 1) then CanopyLengthMismatch
      else Levels(TrailingZeros32(closestPowerOf2) - 1)
    else CanopyLengthMismatch
  }

  /** Exactly the lengths 2^(p+1) - 2 with p at most the depth are accepted, as p levels. */
  lemma CachedPathLengthExact(canopyLength: nat, maxDepth: nat, p: nat)
    ensures GetCachedPathLength(canopyLength, maxDepth) == Levels(p)
       <==> p <= maxDepth && canopyLength == Pow2(p + 1) - 2
  {
    var c := canopyLength + 2;
    IsPow2Exact(c);
    TrailingZerosPow2(Log2(c));
    Log2Pow2(p + 1);
    TrailingZerosPow2(p + 1);
    if c == Pow2(Log2(c)) && c > 1 {
      var q := Log2(c) - 1;
      if q <= maxDepth {
        Pow2Monotone(q + 1, maxDepth + 1);
      } else {
        Pow2Monotone(maxDepth + 2, q + 1);
      }
    }
  }

  /** A slot holds the node it stands for, or nothing if that node is the empty one of its level. */
  ghost predicate SlotAgrees(x: Node, leaves: seq<Node>, depth: nat, n: nat)
    requires 1 <= n < Pow2(depth + 1)
  {
    || x == NodeByNumber(leaves, depth, n)
    || (x == Empty && NodeByNumber(leaves, depth, n) == EmptyNode(DepthOf(depth, n)))
  }

  ghost predicate Agrees(canopy: seq<Node>, leaves: seq<Node>, depth: nat, p: nat) {
    && p <= depth && |canopy| == Pow2(p + 1) - 2
    && Pow2(p + 1) <= Pow2(depth + 1)
    && forall i :: 0 <= i < |canopy| ==> SlotAgrees(canopy[i], leaves, depth, i + 2)
  }

  /** A zeroed canopy agrees with the empty tree. */
  lemma ZeroedCanopyAgrees(canopy: seq<Node>, depth: nat, p: nat)
    requires p <= depth && |canopy| == Pow2(p + 1) - 2
    requires forall i :: 0 <= i < |canopy| ==> canopy[i] == Empty
    ensures Agrees(canopy, EmptyLeaves(depth), depth, p)
  {
    Pow2Monotone(p + 1, depth + 1);
    forall i | 0 <= i < |canopy|
      ensures SlotAgrees(canopy[i], EmptyLeaves(depth), depth, i + 2)
    {
      Log2Below(i + 2, depth);
      Log2Bounds(i + 2);
      EmptySubtree(EmptyLeaves(depth), 0, depth - Log2(i + 2), i + 2 - Pow2(Log2(i + 2)));
    }
  }

  /** A slot off the path of leaf i survives a write to it. */
  lemma SlotOffPath(x: Node, leaves: seq<Node>, depth: nat, n: nat, i: nat, leaf: Node)
    requires |leaves| == Pow2(depth) && i < |leaves| && 1 <= n < Pow2(depth + 1)
    requires SlotAgrees(x, leaves, depth, n)
    requires n != NodeNumber(depth, DepthOf(depth, n), Shr(i, DepthOf(depth, n)))
    ensures SlotAgrees(x, leaves[i := leaf], depth, n)
  {
    Log2Bounds(n);
    WriteKeepsOtherNodes(leaves, i, leaf, DepthOf(depth, n), n - Pow2(Log2(n)));
  }

  /** n lies on the path of leaf i, below level `bound`. */
  ghost predicate OnPathBelow(depth: nat, n: nat, i: nat, bound: nat)
    requires 1 <= n < Pow2(depth + 1)
  {
    DepthOf(depth, n) < bound && n == NodeNumber(depth, DepthOf(depth, n), Shr(i, DepthOf(depth, n)))
  }

  /** Half-updated canopy: only the slots on the path below `bound` may still be old. */
  ghost predicate AgreesAbove(canopy: seq<Node>, leaves: seq<Node>, depth: nat, p: nat, i: nat, bound: nat) {
    && p <= depth && |canopy| == Pow2(p + 1) - 2
    && Pow2(p + 1) <= Pow2(depth + 1)
    && forall j :: 0 <= j < |canopy| ==>
        SlotAgrees(canopy[j], leaves, depth, j + 2) || OnPathBelow(depth, j + 2, i, bound)
  }

  lemma AgreesBeforeUpdate(canopy: seq<Node>, leaves: seq<Node>, depth: nat, p: nat, i: nat, leaf: Node)
    requires |leaves| == Pow2(depth) && i < |leaves|
    requires Agrees(canopy, leaves, depth, p)
    ensures AgreesAbove(canopy, leaves[i := leaf], depth, p, i, depth)
  {
    forall j | 0 <= j < |canopy|
      ensures SlotAgrees(canopy[j], leaves[i := leaf], depth, j + 2) || OnPathBelow(depth, j + 2, i, depth)
    {
      Log2Bounds(j + 2);
      if j + 2 != NodeNumber(depth, DepthOf(depth, j + 2), Shr(i, DepthOf(depth, j + 2))) {
        SlotOffPath(canopy[j], leaves, depth, j + 2, i, leaf);
      }
    }
  }

  lemma PathSlotInside(leaves: seq<Node>, depth: nat, p: nat, i: nat, l: nat)
    requires i < Pow2(depth) && p <= depth && depth - p <= l < depth
    ensures var n := NodeNumber(depth, l, Shr(i, l));
      && 2 <= n < Pow2(p + 1) && n < Pow2(depth + 1)
      && SlotAgrees(NodeAt(leaves, l, Shr(i, l)), leaves, depth, n)
  {
    ShrBound(i, depth, l);
    NumberedNode(leaves, depth, l, Shr(i, l));
    assert Pow2(depth - l + 1) == 2 * Pow2(depth - l);
    Pow2Monotone(depth - l + 1, p + 1);
    Pow2Monotone(1, depth - l);
  }

  lemma OtherSlotOneLevelLower(depth: nat, n: nat, i: nat, l: nat)
    requires 1 <= n < Pow2(depth + 1) && l < depth
    requires OnPathBelow(depth, n, i, l + 1) && n != NodeNumber(depth, l, Shr(i, l))
    ensures OnPathBelow(depth, n, i, l)
  {
  }

  /** Storing the path node of one more level. */
  lemma AgreesOneLevelLower(canopy: seq<Node>, leaves: seq<Node>, depth: nat, p: nat, i: nat, l: nat)
    requires i < Pow2(depth) && p <= depth && depth - p <= l < depth
    requires AgreesAbove(canopy, leaves, depth, p, i, l + 1)
    ensures 0 <= NodeNumber(depth, l, Shr(i, l)) - 2 < |canopy|
    ensures AgreesAbove(canopy[NodeNumber(depth, l, Shr(i, l)) - 2 := NodeAt(leaves, l, Shr(i, l))], leaves, depth, p,
      i, l)
  {
    hide SlotAgrees, OnPathBelow, NodeAt, Shr, NodeNumber;
    var n := NodeNumber(depth, l, Shr(i, l));
    PathSlotInside(leaves, depth, p, i, l);
    var canopy' := canopy[n - 2 := NodeAt(leaves, l, Shr(i, l))];
    forall j | 0 <= j < |canopy'|
      ensures SlotAgrees(canopy'[j], leaves, depth, j + 2) || OnPathBelow(depth, j + 2, i, l)
    {
      if j != n - 2 && !SlotAgrees(canopy[j], leaves, depth, j + 2) {
        OtherSlotOneLevelLower(depth, j + 2, i, l);
      }
    }
  }

  lemma AgreesAfterUpdate(canopy: seq<Node>, leaves: seq<Node>, depth: nat, p: nat, i: nat)
    requires p <= depth && AgreesAbove(canopy, leaves, depth, p, i, depth - p)
    ensures Agrees(canopy, leaves, depth, p)
  {
    forall j | 0 <= j < |canopy|
      ensures SlotAgrees(canopy[j], leaves, depth, j + 2)
    {
      Log2Below(j + 2, p);
    }
  }

  datatype Option<T> = None | Some(value: T)

  /** The event names leaf i and carries the nodes of `leaves` on its path. */
  ghost predicate EventFor(e: ChangeLogEvent, leaves: seq<Node>, depth: nat, i: nat) {
    && i < Pow2(depth) && |e.path| == depth + 1 && e.index == i
    && forall l {:trigger e.path[l]} :: 0 <= l <= depth ==>
         e.path[l] == PathNode(NodeAt(leaves, l, Shr(i, l)), NodeNumber(depth, l, Shr(i, l)))
  }

  /** `update_canopy`: stores the top `p` path nodes of an event, from the children of the root down.
      Without an event only the size of the canopy is checked. */
  method UpdateCanopy(canopy: array<Node>, maxDepth: nat, changeLog: Option<ChangeLogEvent>, ghost before: seq<Node>,
                      ghost i: nat, ghost leaf: Node)
    returns (mismatch: bool)
    requires |before| == Pow2(maxDepth)
    requires changeLog.Some? ==> i < |before| && EventFor(changeLog.value, before[i := leaf], maxDepth, i)
    requires forall p: nat :: p <= maxDepth && canopy.Length == Pow2(p + 1) - 2 ==>
      Agrees(canopy[..], before, maxDepth, p)
    modifies canopy
    ensures mismatch <==> GetCachedPathLength(canopy.Length, maxDepth) == CanopyLengthMismatch
    ensures mismatch || changeLog.None? ==> canopy[..] == old(canopy[..])
    ensures !mismatch && changeLog.Some? ==>
      exists p: nat :: GetCachedPathLength(canopy.Length, maxDepth) == Levels(p)
        && Agrees(canopy[..], before[i := leaf], maxDepth, p)
  {
    var pathLength := GetCachedPathLength(canopy.Length, maxDepth);
    if pathLength == CanopyLengthMismatch {
      return true;
    }
    mismatch := false;
    if changeLog.None? {
      return;
    }
    var p, e := pathLength.count, changeLog.value;
    LevelsNonNegative(canopy.Length, maxDepth);
    CachedPathLengthExact(canopy.Length, maxDepth, p);
    ghost var now := before[i := leaf];
    AgreesBeforeUpdate(canopy[..], before, maxDepth, p, i, leaf);
    hide AgreesAbove, Agrees, GetCachedPathLength, NodeAt, Shr;
    for k := 0 to p
      invariant AgreesAbove(canopy[..], now, maxDepth, p, i, maxDepth - k)
    {
      var l := maxDepth - 1 - k;
      AgreesOneLevelLower(canopy[..], now, maxDepth, p, i, l);
      var pathNode := e.path[|e.path| - 2 - k];
      assert pathNode == e.path[l];
      ghost var slots := canopy[..];
      canopy[pathNode.index - 2] := pathNode.node;
      assert canopy[..] == slots[pathNode.index - 2 := pathNode.node];
    }
    AgreesAfterUpdate(canopy[..], now, maxDepth, p, i);
  }

  lemma LevelsNonNegative(canopyLength: nat, maxDepth: nat)
    ensures GetCachedPathLength(canopyLength, maxDepth).Levels? ==>
      GetCachedPathLength(canopyLength, maxDepth).count >= 0
  {
    var c := canopyLength + 2;
    IsPow2Exact(c);
    TrailingZerosPow2(Log2(c));
  }

  /** The siblings of leaf i from level `from` up to the children of the root. */
  function UpperPath(leaves: seq<Node>, depth: nat, i: nat, from: nat): (nodes: seq<Node>)
    requires from <= depth
    ensures |nodes| == depth - from
  {
    AuthPath(leaves, depth, i)[from..]
  }

  /** Where the walk is at a cached level, and where it goes next. */
  lemma WalkNumber(depth: nat, p: nat, i: nat, l: nat)
    requires i < Pow2(depth) && p <= depth && depth - p <= l < depth
    ensures var n := NodeNumber(depth, l, Shr(i, l));
      && n > 1 && Log2(n) == depth - l && n / 2 == NodeNumber(depth, l + 1, Shr(i, l + 1))
      && 2 <= Sib(n) < Pow2(p + 1)
  {
    ShrBound(i, depth, l);
    NumberedNode([], depth, l, Shr(i, l));
    SiblingNumber(depth, l, Shr(i, l));
    assert Pow2(depth - l + 1) == 2 * Pow2(depth - l);
    Pow2Monotone(depth - l + 1, p + 1);
    Pow2Monotone(1, depth - l);
    assert Pow2(depth - l) == 2 * Pow2(depth - l - 1);
  }

  /** One level of the walk: the slot beside the path is inside the canopy and stands for the sibling. */
  lemma SlotBesidePath(canopy: seq<Node>, leaves: seq<Node>, depth: nat, p: nat, i: nat, l: nat)
    requires i < Pow2(depth) && p <= depth && depth - p <= l < depth
    requires Agrees(canopy, leaves, depth, p)
    ensures var n := NodeNumber(depth, l, Shr(i, l));
      && n > 1 && 0 <= Sib(n) - 2 < |canopy| && Log2(n) == depth - l
      && n / 2 == NodeNumber(depth, l + 1, Shr(i, l + 1))
      && SiblingAt(leaves, i, l) == if canopy[Sib(n) - 2] == Empty then EmptyNode(l) else canopy[Sib(n) - 2]
  {
    var n := NodeNumber(depth, l, Shr(i, l));
    WalkNumber(depth, p, i, l);
    ShrBound(i, depth, l);
    SiblingNumber(depth, l, Shr(i, l));
    NumberedNode(leaves, depth, l, Sib(Shr(i, l)));
    assert SlotAgrees(canopy[Sib(n) - 2], leaves, depth, Sib(n));
    hide Pow2, Shr, Log2, NodeAt, NodeByNumber;
    if NodeByNumber(leaves, depth, Sib(n)) == Empty {
      EmptyOnlyAtLeaves(leaves, depth, Sib(n));
    }
  }

  /** Putting a slot's own node into it keeps the agreement. */
  lemma FillingKeepsAgreement(canopy: seq<Node>, leaves: seq<Node>, depth: nat, p: nat, j: nat)
    requires Agrees(canopy, leaves, depth, p) && j < |canopy| && canopy[j] == Empty
    ensures Agrees(canopy[j := EmptyNode(DepthOf(depth, j + 2))], leaves, depth, p)
  {
    assert SlotAgrees(canopy[j], leaves, depth, j + 2);
    if NodeByNumber(leaves, depth, j + 2) == Empty {
      EmptyOnlyAtLeaves(leaves, depth, j + 2);
    }
  }

  /** An inner node is a hash, so only a leaf can be the zero node. */
  lemma EmptyOnlyAtLeaves(leaves: seq<Node>, depth: nat, n: nat)
    requires 1 <= n < Pow2(depth + 1)
    requires NodeByNumber(leaves, depth, n) == Empty
    ensures DepthOf(depth, n) == 0 && EmptyNode(0) == Empty
  {
  }

  /** The first slot looked at for an index past the end is outside the canopy. */
  lemma PastTheEnd(depth: nat, p: nat, index: nat)
    requires p <= depth && index >= Pow2(depth)
    ensures var n := Shr(Pow2(depth) + index, depth - p); n > 1 && Sib(n) - 2 >= Pow2(p + 1) - 2
  {
    ShrMonotone(2 * Pow2(depth), Pow2(depth) + index, depth - p);
    ShrOfPow2(depth + 1, depth - p);
    assert depth + 1 - (depth - p) == p + 1;
    assert Pow2(p + 1) == 2 * Pow2(p);
  }

  lemma {:induction false} ShrOfPow2(d: nat, l: nat)
    requires l <= d
    ensures Shr(Pow2(d), l) == Pow2(d - l)
  {
    ShrAddPow2(0, d, l);
    ShrZero(l);
  }

  lemma {:induction false} ShrZero(l: nat)
    ensures Shr(0, l) == 0
  {
    if l > 0 {
      ShrZero(l - 1);
    }
  }

  /** One step of the walk up the canopy: reads the sibling's slot, filling it in if it is unset. */
  method ReadSibling(canopy: array<Node>, maxDepth: nat, nodeIdx: nat) returns (node: Node)
    requires nodeIdx > 1 && 0 <= Sib(nodeIdx) - 2 < canopy.Length && Log2(nodeIdx) <= maxDepth
    modifies canopy
    ensures var j := Sib(nodeIdx) - 2;
            if old(canopy[j]) == Empty
            then node == EmptyNode(maxDepth - Log2(nodeIdx)) && canopy[..] == old(canopy[..])[j := node]
            else node == old(canopy[j]) && canopy[..] == old(canopy[..])
  {
    var shiftedIndex := nodeIdx - 2;
    var cachedIdx := if shiftedIndex % 2 == 0 then shiftedIndex + 1 else shiftedIndex - 1;
    if canopy[cachedIdx] == Empty {
      BitLengthLog2(nodeIdx);
      var level := maxDepth - (31 - LeadingZeros32(nodeIdx));
      EmptyNodeCachedIsEmptyNode(level, seq(30, _ => Empty));
      node := EmptyNodeCached(level, seq(30, _ => Empty));
      canopy[cachedIdx] := node;
      assert canopy[..] == old(canopy[..])[cachedIdx := node];
    } else {
      node := canopy[cachedIdx];
    }
  }

  lemma SiblingSlotLevel(leaves: seq<Node>, depth: nat, i: nat, l: nat)
    requires i < Pow2(depth) && l < depth
    ensures var m := Sib(NodeNumber(depth, l, Shr(i, l))); 1 <= m < Pow2(depth + 1) && DepthOf(depth, m) == l
  {
    ShrBound(i, depth, l);
    SiblingNumber(depth, l, Shr(i, l));
    NumberedNode(leaves, depth, l, Sib(Shr(i, l)));
  }

  /** What one step yields: the true sibling, and a canopy that still agrees. */
  lemma ReadSiblingYieldsNode(canopy: seq<Node>, leaves: seq<Node>, depth: nat, p: nat, i: nat, l: nat, node: Node,
                              canopy': seq<Node>)
    requires i < Pow2(depth) && p <= depth && depth - p <= l < depth
    requires Agrees(canopy, leaves, depth, p)
    requires var n := NodeNumber(depth, l, Shr(i, l)); var j := Sib(n) - 2;
      && 0 <= j < |canopy|
      && if canopy[j] == Empty then node == EmptyNode(l) && canopy' == canopy[j := node]
         else node == canopy[j] && canopy' == canopy
    ensures node == SiblingAt(leaves, i, l) && Agrees(canopy', leaves, depth, p)
  {
    hide NodeAt, Agrees, SiblingAt, EmptyNode, Shr;
    SlotBesidePath(canopy, leaves, depth, p, i, l);
    var j := Sib(NodeNumber(depth, l, Shr(i, l))) - 2;
    if canopy[j] == Empty {
      SiblingSlotLevel(leaves, depth, i, l);
      FillingKeepsAgreement(canopy, leaves, depth, p, j);
    }
  }

  /** One level of the walk. */
  method ClimbOneLevel(canopy: array<Node>, maxDepth: nat, nodeIdx: nat, ghost leaves: seq<Node>, ghost p: nat,
                       ghost i: nat, ghost l: nat)
    returns (node: Node)
    requires i < Pow2(maxDepth) && p <= maxDepth && maxDepth - p <= l < maxDepth
    requires nodeIdx == NodeNumber(maxDepth, l, Shr(i, l))
    requires Agrees(canopy[..], leaves, maxDepth, p)
    modifies canopy
    ensures node == SiblingAt(leaves, i, l) && Agrees(canopy[..], leaves, maxDepth, p)
    ensures nodeIdx / 2 == NodeNumber(maxDepth, l + 1, Shr(i, l + 1))
  {
    SlotBesidePath(canopy[..], leaves, maxDepth, p, i, l);
    hide NodeAt, Agrees, SiblingAt, Shr;
    ghost var slots := canopy[..];
    node := ReadSibling(canopy, maxDepth, nodeIdx);
    ReadSiblingYieldsNode(slots, leaves, maxDepth, p, i, l, node, canopy[..]);
  }

  /** Where the walk starts: beside the path, unless the index is past the end of the tree. */
  lemma FirstLookup(canopy: seq<Node>, leaves: seq<Node>, depth: nat, p: nat, index: nat)
    requires Agrees(canopy, leaves, depth, p)
    ensures p <= depth
    ensures var n := Shr(Pow2(depth) + index, depth - p);
      && (n > 1 && Sib(n) - 2 >= |canopy| <==> index >= Pow2(depth))
      && (index < Pow2(depth) ==> n == NodeNumber(depth, depth - p, Shr(index, depth - p)))
  {
    if index < Pow2(depth) {
      AncestorNumber(depth, index, depth - p);
      RootIsTop(depth, index, depth - p);
      if p > 0 {
        SlotBesidePath(canopy, leaves, depth, p, index, depth - p);
      }
    } else {
      PastTheEnd(depth, p, index);
    }
  }

  /** `fill_in_proof_from_canopy`: yields exactly the siblings of the cached levels, and leaves a
      canopy that still agrees with the tree; an index past the end of the tree panics. */
  method FillInProofFromCanopy(canopy: array<Node>, maxDepth: nat, index: nat, ghost leaves: seq<Node>, ghost p: nat)
    returns (inferred: seq<Node>, panicked: bool)
    requires 0 < maxDepth < 31 && Agrees(canopy[..], leaves, maxDepth, p)
    modifies canopy
    ensures panicked <==> index >= Pow2(maxDepth)
    ensures !panicked ==> inferred == UpperPath(leaves, maxDepth, index, maxDepth - p)
    ensures Agrees(canopy[..], leaves, maxDepth, p)
  {
    inferred := [];
    var pathLength := GetCachedPathLength(canopy.Length, maxDepth);
    assert |canopy[..]| == canopy.Length;
    CachedPathLengthExact(canopy.Length, maxDepth, p);
    var pathLen := pathLength.count;
    var nodeIdx := Shr(Pow2(maxDepth) + index, maxDepth - pathLen);
    ghost var l := maxDepth - p;
    FirstLookup(canopy[..], leaves, maxDepth, p, index);
    hide Agrees, GetCachedPathLength, SiblingAt, EmptyNode, Shr, Pow2;
    // Only the first lookup can be out of bounds.
    panicked := nodeIdx > 1 && Sib(nodeIdx) - 2 >= canopy.Length;
    if panicked {
      return;
    }
    while nodeIdx > 1
      invariant maxDepth - p <= l <= maxDepth
      invariant nodeIdx == NodeNumber(maxDepth, l, Shr(index, l))
      invariant Agrees(canopy[..], leaves, maxDepth, p)
      invariant inferred == UpperPath(leaves, maxDepth, index, maxDepth - p)[..l - (maxDepth - p)]
      decreases nodeIdx
    {
      RootIsTop(maxDepth, index, l);
      var node := ClimbOneLevel(canopy, maxDepth, nodeIdx, leaves, p, index, l);
      inferred := inferred + [node];
      nodeIdx := nodeIdx / 2;
      l := l + 1;
    }
    RootIsTop(maxDepth, index, l);
  }

  /** The walk has reached the root exactly when its number is 1. */
  lemma RootIsTop(depth: nat, i: nat, l: nat)
    requires i < Pow2(depth) && l <= depth
    ensures NodeNumber(depth, l, Shr(i, l)) > 1 <==> l < depth
  {
    ShrBound(i, depth, l);
    if l < depth {
      Pow2Monotone(1, depth - l);
    }
  }
}
