/** The concurrent Merkle tree: a ring of change logs and one rightmost path, kept in place of the
    2^depth leaves. Every operation is proved to be the operation of the plain versioned tree. */
module MerkleRolls {
  import opened Bits
  import opened Merkle
  import opened VersionedTree
  import opened Replay
  import opened Ring
  import opened ChangeLogs

  /** Sets every level to its empty node, through the cache. */
  method FillEmpty(nodes: array<Node>)
    modifies nodes
    ensures forall l {:trigger nodes[l]} :: 0 <= l < nodes.Length ==> nodes[l] == EmptyNode(l)
  {
    var cache := seq(nodes.Length, _ => Empty);
    for i := 0 to nodes.Length
      invariant forall l {:trigger nodes[l]} :: 0 <= l < i ==> nodes[l] == EmptyNode(l)
    {
      EmptyNodeCachedIsEmptyNode(i, cache);
      nodes[i] := EmptyNodeCached(i, cache);
    }
  }

  /** The stored path of a tree nobody has written to is a proof for position 0. */
  lemma UnwrittenProof(t: Tree, proof: seq<Node>)
    requires Wellformed(t) && t.next == 0
    requires proof == AuthPath(Leaves(t), t.depth, 0)
    ensures RootFromProof(Empty, proof, 0) == CurrentRoot(t) == EmptyNode(t.depth)
    ensures Judge(t, CurrentRoot(t), Empty, proof, 0, false) == Accept
  {
    LowSmall(0, t.depth);
    EmptyTree(t.depth, 0);
    ProofExact(Leaves(t), t.depth, Empty, proof, 0);
    assert CurrentLeaf(t, 0) == Empty;
    CurrentProofAccepted(t, 0, false);
  }

  /** The new log and rightmost path of an append. */
  lemma AppendedState(t: Tree, x: Node)
    requires Wellformed(t) && 0 < t.next < Pow2(t.depth)
    ensures var now, n := LeavesAfter(t, t.next, x), t.next;
      && Log(Root(now, t.depth), PathNodes(now, t.depth, n), n) == LogOf(t.depth, Version(now, n))
      && HoldsRightmost(AuthPath(now, t.depth, n), x, n + 1, Write(t, n, x))
  {
    LowSmall(t.next, t.depth);
  }

  lemma LeafNodes(t: Tree, x: Node)
    requires Wellformed(t) && 0 < t.next < Pow2(t.depth)
    ensures NodeAt(LeavesAfter(t, t.next, x), 0, Shr(t.next, 0)) == x
    ensures NodeAt(Leaves(t), 0, Shr(t.next - 1, 0)) == LeafAt(Leaves(t), t.next - 1)
  {
    LowSmall(t.next, t.depth);
  }

  /** One level of the append loop. */
  method AppendLevel(proof: array<Node>, rightmostIndex: nat, intersection: nat, i: nat, node: Node,
                     intersectionNode: Node,
                     ghost t: Tree, ghost x: Node)
    returns (nextNode: Node, nextIntersection: Node)
    requires Wellformed(t) && 0 < t.next < Pow2(t.depth) && t.next == rightmostIndex
    requires i < proof.Length == t.depth && intersection == TrailingZeros32(rightmostIndex)
    requires node == NodeAt(LeavesAfter(t, t.next, x), i, Shr(t.next, i))
    requires i <= intersection ==> intersectionNode == NodeAt(Leaves(t), i, Shr(t.next - 1, i))
    requires proof[i] == SiblingAt(Leaves(t), t.next - 1, i)
    modifies proof
    ensures nextNode == NodeAt(LeavesAfter(t, t.next, x), i + 1, Shr(t.next, i + 1))
    ensures i + 1 <= intersection ==> nextIntersection == NodeAt(Leaves(t), i + 1, Shr(t.next - 1, i + 1))
    ensures proof[i] == SiblingAt(LeavesAfter(t, t.next, x), t.next, i)
    ensures forall l :: 0 <= l < proof.Length && l != i ==> proof[l] == old(proof[l])
  {
    AppendStep(t, x, i);
    hide Wellformed, LeavesAfter, Leaves, SiblingAt, NodeAt, EmptyNode, EmptyNodeCached, TrailingZeros32, HashToParent;
    nextIntersection := intersectionNode;
    if i < intersection {
      // The path of the new leaf runs beside empty subtrees.
      var cache := seq(proof.Length, _ => Empty);
      EmptyNodeCachedIsEmptyNode(i, cache);
      var sibling := EmptyNodeCached(i, cache);
      nextIntersection := HashToParent(intersectionNode, proof[i], Shr(rightmostIndex - 1, i) % 2 == 0);
      nextNode := HashToParent(node, sibling, true);
      proof[i] := sibling;
    } else if i == intersection {
      // Here it meets the rightmost path.
      nextNode := HashToParent(node, intersectionNode, false);
      proof[intersection] := intersectionNode;
    } else {
      nextNode := HashToParent(node, proof[i], Shr(rightmostIndex - 1, i) % 2 == 0);
    }
  }

  /** The loop of `append`: one pass over the rightmost path yields the new root and the new path,
      and leaves the new leaf's own path as the rightmost one. */
  method ClimbFromRightmost(proof: array<Node>, rightmostLeaf: Node, rightmostIndex: nat, leaf: Node, ghost t: Tree)
    returns (root: Node, changeList: seq<Node>)
    requires Wellformed(t) && 0 < t.next < Pow2(t.depth) && rightmostIndex == t.next
    requires proof[..] == AuthPath(Leaves(t), t.depth, t.next - 1)
    requires rightmostLeaf == LeafAt(Leaves(t), t.next - 1)
    modifies proof
    ensures root == Root(LeavesAfter(t, t.next, leaf), t.depth)
    ensures changeList == PathNodes(LeavesAfter(t, t.next, leaf), t.depth, t.next)
    ensures proof[..] == AuthPath(LeavesAfter(t, t.next, leaf), t.depth, t.next)
  {
    ghost var was, now, n := Leaves(t), LeavesAfter(t, t.next, leaf), t.next;
    var depth := proof.Length;
    assert depth == t.depth && Shr(n, depth) == 0 by {
      assert |proof[..]| == depth;
      ShrBound(n, depth, depth);
    }
    LeafNodes(t, leaf);
    hide Wellformed, LeavesAfter, Leaves, SiblingAt, NodeAt, Shr;
    var intersection := TrailingZeros32(rightmostIndex);
    var node, intersectionNode := leaf, rightmostLeaf;
    changeList := seq(depth, _ => Empty);
    for i := 0 to depth
      invariant |changeList| == depth
      invariant node == NodeAt(now, i, Shr(n, i))
      invariant i <= intersection ==> intersectionNode == NodeAt(was, i, Shr(n - 1, i))
      invariant forall l {:trigger changeList[l]} :: 0 <= l < i ==> changeList[l] == NodeAt(now, l, Shr(n, l))
      invariant forall l {:trigger proof[l]} :: 0 <= l < i ==> proof[l] == SiblingAt(now, n, l)
      invariant forall l {:trigger proof[l]} :: i <= l < depth ==> proof[l] == SiblingAt(was, n - 1, l)
    {
      changeList := changeList[i := node];
      node, intersectionNode := AppendLevel(proof, rightmostIndex, intersection, i, node, intersectionNode, t, leaf);
    }
    root := node;
    assert changeList == PathNodes(now, depth, n);
    assert proof[..] == AuthPath(now, depth, n);
  }

  class MerkleRoll {
    const maxDepth: nat
    const maxBufferSize: nat
    var sequenceNumber: nat
    /** Slot of the most recent root and path. */
    var activeIndex: nat
    /** Number of slots in use. */
    var bufferSize: nat
    const changeLogs: seq<ChangeLog>
    const rightmostProof: array<Node>
    var rightmostLeaf: Node
    var rightmostIndex: nat
    /** The plain tree this roll stands for. */
    ghost var tree: Tree
    /** The values of the slots. */
    ghost var logs: seq<Log>

    /** `logs` are the values of the slots. */
    ghost predicate SlotsHold()
      reads this`logs, changeLogs
      ensures SlotsHold() ==> Supported(maxDepth, maxBufferSize) && |changeLogs| == |logs| == maxBufferSize > 0
    {
      && Supported(maxDepth, maxBufferSize)
      && |changeLogs| == |logs| == maxBufferSize > 0
      && (forall i :: 0 <= i < |changeLogs| ==> changeLogs[i].Value() == logs[i])
      && (forall i :: 0 <= i < |logs| ==> |logs[i].path| == maxDepth)
    }

    /** The fixed layout: distinct slots, each with a path of the tree's depth. */
    ghost predicate Laidout()
      reads this`logs, changeLogs
    {
      && SlotsHold()
      && rightmostProof.Length == maxDepth
      && (forall i, j :: 0 <= i < j < |changeLogs| ==> changeLogs[i] != changeLogs[j])
    }

    /** Everything but the counters agrees with the tree. */
    ghost predicate Consistent()
      reads this, rightmostProof, changeLogs
    {
      && Laidout()
      && Wellformed(tree)
      && tree.depth == maxDepth && tree.capacity == maxBufferSize
      && HoldsWindow(logs, tree)
      && HoldsRightmost(rightmostProof[..], rightmostLeaf, rightmostIndex, tree)
    }

    ghost predicate Valid()
      reads this, rightmostProof, changeLogs
    {
      && Consistent()
      && CountersFor(sequenceNumber, activeIndex, bufferSize, maxBufferSize, |tree.versions|)
    }

    /** What most operations need to know of a valid roll. */
    lemma Outline()
      requires Valid()
      ensures Consistent()
      ensures Wellformed(tree) && tree.depth == maxDepth && tree.capacity == maxBufferSize
      ensures rightmostIndex == tree.next <= Pow2(maxDepth)
      ensures |tree.versions| > 0 && |Leaves(tree)| == Pow2(maxDepth)
      ensures Supported(maxDepth, maxBufferSize) && rightmostProof.Length == maxDepth
      ensures Laidout() && |changeLogs| == |logs| == maxBufferSize > 0
    {
    }

    lemma OutlineConsistent()
      requires Consistent()
      ensures Wellformed(tree) && tree.depth == maxDepth && tree.capacity == maxBufferSize
      ensures HoldsWindow(logs, tree) && HoldsRightmost(rightmostProof[..], rightmostLeaf, rightmostIndex, tree)
      ensures |tree.versions| > 0 && |Leaves(tree)| == Pow2(maxDepth)
      ensures Supported(maxDepth, maxBufferSize) && rightmostProof.Length == maxDepth
      ensures Laidout() && |changeLogs| == |logs| == maxBufferSize > 0
    {
    }

    /** The stored state of a valid roll: the newest root is that of the leaf array, everything from
        the first free position on is Empty, and until the tree is full the rightmost path is the
        path of the last leaf. */
    lemma StoredState()
      requires Valid()
      ensures |tree.versions| > 0 && |Leaves(tree)| == Pow2(maxDepth) && EmptyFrom(Leaves(tree), rightmostIndex)
      ensures activeIndex < |changeLogs| && changeLogs[activeIndex].root == CurrentRoot(tree)
      ensures 0 < rightmostIndex < Pow2(maxDepth) ==>
        rightmostProof[..] == AuthPath(Leaves(tree), maxDepth, rightmostIndex - 1)
    {
      assert changeLogs[activeIndex].Value() == SlotOf(logs, Newest(tree));
    }

    lemma IsValid()
      requires Laidout() && Wellformed(tree) && tree.depth == maxDepth && tree.capacity == maxBufferSize
      requires HoldsWindow(logs, tree) && HoldsRightmost(rightmostProof[..], rightmostLeaf, rightmostIndex, tree)
      requires CountersFor(sequenceNumber, activeIndex, bufferSize, maxBufferSize, |tree.versions|)
      ensures Valid()
    {
    }

    /** An account that holds only zeros. */
    ghost predicate Zeroed()
      reads this, rightmostProof, changeLogs
    {
      && Laidout()
      && sequenceNumber == activeIndex == bufferSize == rightmostIndex == 0
      && rightmostLeaf == Empty
      && forall i :: 0 <= i < |logs| ==> logs[i] == DefaultLog(maxDepth)
    }

    constructor (depth: nat, capacity: nat)
      requires Supported(depth, capacity)
      ensures maxDepth == depth && maxBufferSize == capacity
      ensures Zeroed() && fresh(rightmostProof) && fresh(changeLogs)
    {
      maxDepth, maxBufferSize := depth, capacity;
      sequenceNumber, activeIndex, bufferSize := 0, 0, 0;
      rightmostLeaf, rightmostIndex := Empty, 0;
      var proof := new Node[depth](_ => Empty);
      rightmostProof := proof;
      var slots: seq<ChangeLog> := [];
      while |slots| < capacity
        invariant |slots| <= capacity
        invariant forall i :: 0 <= i < |slots| ==> fresh(slots[i]) && slots[i].Value() == DefaultLog(depth)
        invariant forall i, j :: 0 <= i < j < |slots| ==> slots[i] != slots[j]
      {
        var slot := new ChangeLog(depth);
        slots := slots + [slot];
      }
      changeLogs := slots;
      tree := Initial(depth, capacity);
      logs := seq(capacity, _ => DefaultLog(depth));
    }

    /** Counters, first slot and rightmost path of a tree nobody has written to. */
    ghost predicate SetUp()
      reads this, rightmostProof, changeLogs
    {
      && Laidout() && |logs[0].path| == rightmostProof.Length
      && sequenceNumber == activeIndex == rightmostIndex == 0 && bufferSize == 1
      && (forall l {:trigger logs[0].path[l]} :: 0 <= l < maxDepth ==> logs[0].path[l] == EmptyNode(l))
      && (forall l {:trigger rightmostProof[l]} :: 0 <= l < rightmostProof.Length ==> rightmostProof[l] == EmptyNode(l))
      && logs[0].root == EmptyNode(maxDepth) && logs[0].index == 0
      && forall i :: 0 < i < |logs| ==> logs[i] == DefaultLog(maxDepth)
    }

    lemma SetUpIsValid()
      requires SetUp() && tree == Initial(maxDepth, maxBufferSize)
      ensures Valid() && |tree.versions| > 0 && CurrentRoot(tree) == logs[0].root
    {
      hide Consistent, Wellformed, HoldsWindow, HoldsRightmost, Valid;
      InitialIsWellformed(maxDepth, maxBufferSize);
      RingSmall(0, maxBufferSize);
      InitialWindow(logs, rightmostProof[..], rightmostLeaf, maxDepth, maxBufferSize);
      IsValid();
    }

    /** Root and path of slot 0; its index stays. */
    method AssignFirstSlot(root: Node, path: seq<Node>)
      requires Laidout() && |logs| > 0 && |path| == maxDepth
      modifies changeLogs[0], this`logs
      ensures Laidout()
      ensures logs == old(logs)[0 := Log(root, path, old(logs)[0].index)]
    {
      changeLogs[0].root := root;
      changeLogs[0].path := path;
      logs := logs[0 := changeLogs[0].Value()];
    }

    /** Starts the tree on a zeroed account: all leaves empty, one version in the window. */
    method Initialize() returns (root: Node)
      requires Zeroed()
      modifies this, rightmostProof, changeLogs
      ensures Valid()
      ensures tree == Initial(maxDepth, maxBufferSize)
      ensures root == CurrentRoot(tree)
    {
      hide Valid, Consistent, Wellformed, CurrentRoot, MerkleRoll.SlotsHold;
      FillEmpty(rightmostProof);
      var path := new Node[maxDepth](_ => Empty);
      FillEmpty(path);
      root := EmptyNode(maxDepth);
      AssignFirstSlot(root, path[..]);
      sequenceNumber, activeIndex, bufferSize := 0, 0, 1;
      rightmostLeaf, rightmostIndex := Empty, 0;
      tree := Initial(maxDepth, maxBufferSize);
      SetUpIsValid();
    }

    /** Circular step of the active slot; the buffer grows until every slot is in use. */
    method UpdateInternalCounters(ghost n: nat)
      requires Supported(maxDepth, maxBufferSize) && n > 0
      requires CountersFor(sequenceNumber, activeIndex, bufferSize, maxBufferSize, n)
      modifies this`sequenceNumber, this`activeIndex, this`bufferSize
      ensures CountersFor(sequenceNumber, activeIndex, bufferSize, maxBufferSize, n + 1)
    {
      assert maxBufferSize > 0;
      hide IsPow2, And;
      var mask := maxBufferSize - 1;
      activeIndex := activeIndex + 1;
      MaskIsMod(activeIndex, maxBufferSize);
      RingSum(n - 1, 1, maxBufferSize);
      activeIndex := And(activeIndex, mask);
      if bufferSize < maxBufferSize {
        bufferSize := bufferSize + 1;
      }
      sequenceNumber := if sequenceNumber + 1 < TWO_64 then sequenceNumber + 1 else sequenceNumber;
    }

    /** Searches the window from the newest root backwards. */
    method FindRootInChangelog(currentRoot: Node) returns (found: bool, slot: nat)
      requires Valid()
      ensures found <==> NewestMatch(tree, currentRoot) >= 0
      ensures found ==> slot == NewestMatch(tree, currentRoot) % maxBufferSize
    {
      var mask := maxBufferSize - 1;
      ghost var newest := Newest(tree);
      for i := 0 to bufferSize
        invariant MatchUpTo(tree, currentRoot, newest - i) == NewestMatch(tree, currentRoot)
      {
        var j := And(WrappingSub64(activeIndex, i), mask);
        RingBack(newest, i, maxBufferSize);
        assert SlotOf(logs, newest - i) == LogOf(maxDepth, tree.versions[newest - i]);
        if changeLogs[j].root == currentRoot {
          return true, j;
        }
      }
      found, slot := false, 0;
    }

    /** The loop of `fast_forward_proof`: applies the logs after slot `start`, up to the active one.
        With `useFullBuffer` the active slot is tested after each step instead of before, so that a
        start at the active slot goes round the whole ring. */
    method WalkRing(leaf: Node, proof: array<Node>, leafIndex: nat, start: nat, useFullBuffer: bool, ghost steps: nat)
      returns (updatedLeaf: Node, panicked: bool)
      requires SlotsHold() && proof.Length == maxDepth
      requires WalkEnds(start, steps, activeIndex, maxBufferSize, useFullBuffer)
      modifies proof
      ensures panicked <==> AliasAmong(logs, start, steps, maxDepth, leafIndex)
      ensures !panicked ==> (updatedLeaf, proof[..]) == Replayed(logs, start, steps, leafIndex, leaf, old(proof[..]))
    {
      updatedLeaf := leaf;
      var slot, mask := start, maxBufferSize - 1;
      ghost var before := proof[..];
      ghost var j := 0;
      AfterNone(start, maxBufferSize);
      while true
        invariant j <= steps && (useFullBuffer ==> j < steps)
        invariant slot == After(start, j, maxBufferSize)
        invariant !AliasAmong(logs, start, j, maxDepth, leafIndex)
        invariant (updatedLeaf, proof[..]) == Replayed(logs, start, j, leafIndex, leaf, before)
        modifies proof
        decreases steps - j
      {
        if !useFullBuffer && slot == activeIndex {
          break;
        }
        j := j + 1;
        AfterNext(start, j - 1, maxBufferSize);
        slot := And(slot + 1, mask);
        assert changeLogs[slot].Value() == Slot(logs, start, j);
        updatedLeaf, panicked := changeLogs[slot].UpdateProofOrLeaf(leafIndex, proof, updatedLeaf);
        if panicked {
          AliasAmongMore(logs, start, j, steps, maxDepth, leafIndex);
          return;
        }
        if useFullBuffer && slot == activeIndex {
          break;
        }
      }
      assert j == steps;
      panicked := false;
    }

    method FastForwardProof(leaf: Node, proof: array<Node>, leafIndex: nat, start: nat, useFullBuffer: bool,
                            ghost from: int)
      returns (updatedLeaf: Node, leafUnchanged: bool, panicked: bool)
      requires Valid()
      requires proof != rightmostProof && proof.Length == maxDepth
      requires StartsAt(tree, from, start, useFullBuffer)
      requires useFullBuffer ==> leafIndex <= tree.next
      modifies proof
      ensures panicked <==> AliasWritten(tree, from, Newest(tree), leafIndex)
      ensures !panicked ==>
        BroughtUpTo(tree, from, Newest(tree), leafIndex, leaf, old(proof[..]), updatedLeaf, proof[..])
      ensures !panicked ==> (leafUnchanged <==> updatedLeaf == leaf)
    {
      hide Wellformed, HoldsWindow, HoldsRightmost, BroughtUpTo, AliasAmong, AliasWritten, Replayed, WalkEnds,
        ReplaySteps;
      ReplayEffect(logs, tree, from, start, useFullBuffer, leafIndex, leaf, proof[..]);
      WalkEndsAtActive(tree, from, start, useFullBuffer);
      updatedLeaf, panicked :=
        WalkRing(leaf, proof, leafIndex, start, useFullBuffer, ReplaySteps(tree, from, useFullBuffer));
      leafUnchanged := updatedLeaf == leaf;
    }

    /** The newest log. */
    method GetChangeLog() returns (log: Log)
      requires Valid()
      ensures log == LogOf(maxDepth, tree.versions[Newest(tree)])
    {
      log := changeLogs[activeIndex].Value();
      assert log == SlotOf(logs, Newest(tree));
    }

    /** Where the replay for a supplied root starts. */
    method FindReplayStart(currentRoot: Node, allowInferredProof: bool) returns (found: bool, start: nat)
      requires Valid()
      ensures found <==> NewestMatch(tree, currentRoot) >= 0
      ensures found || allowInferredProof ==> StartsAt(tree, ReplayStart(tree, currentRoot), start, !found)
    {
      var mask := maxBufferSize - 1;
      found, start := FindRootInChangelog(currentRoot);
      if !found && allowInferredProof {
        start := And(WrappingSub64(activeIndex, bufferSize - 1), mask);
        RingBack(Newest(tree), bufferSize - 1, maxBufferSize);
      }
    }

    /** Replays from the supplied root; a root that does not come out is an invalid proof. */
    method CheckValidLeaf(currentRoot: Node, leaf: Node, proof: array<Node>, leafIndex: nat, allowInferredProof: bool)
      returns (verdict: Verdict)
      requires Valid()
      requires proof != rightmostProof && proof.Length == maxDepth
      requires allowInferredProof ==> leafIndex <= tree.next
      modifies proof
      ensures verdict == Judge(tree, currentRoot, leaf, old(proof[..]), leafIndex, allowInferredProof)
      ensures verdict == Accept ==> proof[..] == AuthPath(Leaves(tree), maxDepth, Position(tree, leafIndex))
    {
      hide Valid, Consistent, Wellformed, StartsAt, BroughtUpTo;
      Outline();
      var found, start := FindReplayStart(currentRoot, allowInferredProof);
      if !found && !allowInferredProof {
        return Reject(RootNotFound);
      }
      ghost var from, before := ReplayStart(tree, currentRoot), proof[..];
      var updatedLeaf, leafUnchanged, panicked := FastForwardProof(leaf, proof, leafIndex, start, !found, from);
      if panicked {
        return Panic;
      }
      VerdictOfReplay(tree, from, leafIndex, leaf, before, updatedLeaf, proof[..]);
      if !leafUnchanged {
        return Reject(LeafContentsModified);
      }
      var root := Recompute(updatedLeaf, proof, leafIndex);
      var newest := GetChangeLog();
      verdict := if root == newest.root then Accept else Reject(InvalidProof);
    }

    /** Carries the rightmost path over a write, from the log of that write. */
    method UpdateRightmost(slot: ChangeLog, proof: array<Node>, index: nat, ghost t: Tree, ghost x: Node)
      requires 0 < maxDepth == rightmostProof.Length == proof.Length && proof != rightmostProof
      requires Wellformed(t) && t.depth == maxDepth
      requires HoldsRightmost(rightmostProof[..], rightmostLeaf, rightmostIndex, t)
      requires proof[..] == AuthPath(Leaves(t), maxDepth, Position(t, index))
      requires index <= t.next || t.next == Pow2(maxDepth)
      requires slot.Value() == LogOf(maxDepth, Version(LeavesAfter(t, index, x), index))
      modifies this`rightmostLeaf, this`rightmostIndex, rightmostProof
      ensures HoldsRightmost(rightmostProof[..], rightmostLeaf, rightmostIndex, Write(t, index, x))
    {
      assert |slot.path| == maxDepth <= 32;
      hide Wellformed, LogOf, LeavesAfter;
      if rightmostIndex < Pow2(maxDepth) {
        if index < rightmostIndex {
          RightmostPatched(t, index, x, rightmostProof[..], rightmostLeaf);
          var leaf, panicked := slot.UpdateProofOrLeaf(rightmostIndex - 1, rightmostProof, rightmostLeaf);
          rightmostLeaf := leaf;
        } else {
          RightmostReplaced(t, x, proof[..]);
          forall l | 0 <= l < maxDepth {
            rightmostProof[l] := proof[l];
          }
          assert rightmostProof[..] == proof[..];
          rightmostIndex := index + 1;
          rightmostLeaf := slot.path[0];
        }
      }
    }

    /** Recomputes the active slot from a leaf and its proof. */
    method StoreLog(newLeaf: Node, proof: array<Node>, index: nat, ghost t: Tree) returns (root: Node)
      requires Laidout() && activeIndex < maxBufferSize && proof.Length == maxDepth
      requires |t.versions| > 0 && t.depth == maxDepth && |Leaves(t)| == Pow2(maxDepth)
      requires proof[..] == AuthPath(Leaves(t), maxDepth, Position(t, index))
      modifies changeLogs[activeIndex], this`logs
      ensures Laidout()
      ensures logs == old(logs)[activeIndex := LogOf(maxDepth, Version(LeavesAfter(t, index, newLeaf), index))]
      ensures changeLogs[activeIndex].Value() == logs[activeIndex]
      ensures root == Root(LeavesAfter(t, index, newLeaf), maxDepth)
    {
      root := changeLogs[activeIndex].ReplaceAndRecomputePath(index, newLeaf, proof);
      LogOfWrite(Leaves(t), maxDepth, index, newLeaf, proof[..], changeLogs[activeIndex].Value());
      logs := logs[activeIndex := changeLogs[activeIndex].Value()];
    }

    /** Stores the log of the write in the active slot and brings the rightmost path along. */
    method UpdateBuffersFromProof(newLeaf: Node, proof: array<Node>, index: nat) returns (root: Node)
      requires Consistent()
      requires CountersFor(sequenceNumber, activeIndex, bufferSize, maxBufferSize, |tree.versions| + 1)
      requires proof != rightmostProof && proof.Length == maxDepth
      requires proof[..] == AuthPath(Leaves(tree), maxDepth, Position(tree, index))
      requires index <= tree.next || tree.next == Pow2(maxDepth)
      modifies this, changeLogs, rightmostProof
      ensures Valid()
      ensures tree == Write(old(tree), index, newLeaf)
      ensures root == CurrentRoot(tree)
    {
      OutlineConsistent();
      assert activeIndex == |tree.versions| % maxBufferSize;
      hide Consistent, Valid, Wellformed, HoldsWindow, HoldsRightmost, Write, Laidout, CountersFor, LogOf, LeavesAfter,
        AuthPath, Supported;
      ghost var t := tree;
      root := StoreLog(newLeaf, proof, index, t);
      StoreKeepsWindow(old(logs), t, index, newLeaf, logs);
      UpdateRightmost(changeLogs[activeIndex], proof, index, t, newLeaf);
      WriteIsWellformed(t, index, newLeaf);
      tree := Write(t, index, newLeaf);
      IsValid();
    }

    /** Commits an accepted write. */
    method ApplyWrite(newLeaf: Node, proof: array<Node>, index: nat) returns (root: Node)
      requires Valid()
      requires proof != rightmostProof && proof.Length == maxDepth
      requires proof[..] == AuthPath(Leaves(tree), maxDepth, Position(tree, index))
      requires index <= tree.next || tree.next == Pow2(maxDepth)
      modifies this, changeLogs, rightmostProof
      ensures Valid()
      ensures tree == Write(old(tree), index, newLeaf)
      ensures root == CurrentRoot(tree)
    {
      UpdateInternalCounters(|tree.versions|);
      root := UpdateBuffersFromProof(newLeaf, proof, index);
    }

    method TryApplyProof(currentRoot: Node, leaf: Node, newLeaf: Node, proof: array<Node>, leafIndex: nat,
                         allowInferredProof: bool)
      returns (outcome: Outcome)
      requires Valid()
      requires proof != rightmostProof && proof.Length == maxDepth
      requires allowInferredProof ==> leafIndex <= tree.next
      modifies this, changeLogs, rightmostProof, proof
      ensures Valid()
      ensures (tree, outcome)
           == TryApply(old(tree), currentRoot, leaf, newLeaf, old(proof[..]), leafIndex, allowInferredProof)
    {
      hide Valid, Consistent, Wellformed, Judge, Write;
      Outline();
      var verdict := CheckValidLeaf(currentRoot, leaf, proof, leafIndex, allowInferredProof);
      match verdict
      case Reject(error) =>
        outcome := Err(error);
      case Panic =>
        outcome := Aborted;
      case Accept =>
        // The source asserts this after its writes; the abort undoes them.
        if rightmostIndex < Pow2(maxDepth) && leafIndex > rightmostIndex {
          return Aborted;
        }
        var root := ApplyWrite(newLeaf, proof, leafIndex);
        outcome := Ok(root);
    }

    method SetLeaf(currentRoot: Node, previousLeaf: Node, newLeaf: Node, proofVec: seq<Node>, index: nat)
      returns (outcome: Outcome)
      requires Valid()
      modifies this, changeLogs, rightmostProof
      ensures Valid()
      ensures (tree, outcome) == VersionedTree.SetLeaf(old(tree), currentRoot, previousLeaf, newLeaf, proofVec, index)
    {
      hide Valid, Consistent, Wellformed, TryApply;
      Outline();
      if index > rightmostIndex {
        return Err(LeafIndexOutOfBounds);
      }
      var proof := new Node[maxDepth](_ => Empty);
      var tooLong := FillInProof(proofVec, proof);
      if tooLong {
        return Aborted;
      }
      outcome := TryApplyProof(currentRoot, previousLeaf, newLeaf, proof, index, true);
    }

    method ProveLeaf(currentRoot: Node, leaf: Node, proofVec: seq<Node>, leafIndex: nat) returns (outcome: Outcome)
      requires Valid()
      ensures outcome == VersionedTree.ProveLeaf(tree, currentRoot, leaf, proofVec, leafIndex)
    {
      hide Valid, Consistent, Wellformed, Judge;
      Outline();
      if leafIndex > rightmostIndex {
        return Err(LeafIndexOutOfBounds);
      }
      var proof := new Node[maxDepth](_ => Empty);
      var tooLong := FillInProof(proofVec, proof);
      if tooLong {
        return Aborted;
      }
      var verdict := CheckValidLeaf(currentRoot, leaf, proof, leafIndex, true);
      match verdict
      case Reject(error) => outcome := Err(error);
      case Panic => outcome := Aborted;
      case Accept => outcome := Ok(Empty);
    }

    /** Only for a tree nobody has written to: an append is a write at position 0. */
    method InitializeTreeFromAppend(leaf: Node) returns (outcome: Outcome)
      requires Valid() && rightmostIndex == 0
      modifies this, changeLogs, rightmostProof
      ensures Valid()
      ensures tree == Write(old(tree), 0, leaf)
      ensures outcome == Ok(CurrentRoot(tree))
    {
      Outline();
      UnwrittenProof(tree, rightmostProof[..]);
      hide Valid, Consistent, Wellformed, Judge, Write;
      var proof := new Node[maxDepth](_ => Empty);
      forall l | 0 <= l < maxDepth {
        proof[l] := rightmostProof[l];
      }
      assert proof[..] == rightmostProof[..];
      var oldRoot := Recompute(Empty, proof, 0);
      if oldRoot == EmptyNode(maxDepth) {
        outcome := TryApplyProof(oldRoot, Empty, leaf, proof, 0, false);
      } else {
        outcome := Err(TreeAlreadyInitialized);
      }
    }

    method Append(node: Node) returns (outcome: Outcome)
      requires Valid()
      modifies this, changeLogs, rightmostProof
      ensures Valid()
      ensures (tree, outcome) == VersionedTree.Append(old(tree), node)
    {
      Outline();
      hide Valid, Consistent, Wellformed, Write;
      if node == Empty {
        return Err(CannotAppendEmptyNode);
      }
      if rightmostIndex >= Pow2(maxDepth) {
        return Err(TreeFull);
      }
      if rightmostIndex == 0 {
        outcome := InitializeTreeFromAppend(node);
        return;
      }
      var root := AppendToRightmost(node);
      outcome := Ok(root);
    }

    /** Overwrites the active slot. */
    method AssignActiveSlot(root: Node, path: seq<Node>, index: nat)
      requires Laidout() && activeIndex < maxBufferSize && |path| == maxDepth
      modifies changeLogs[activeIndex], this`logs
      ensures Laidout()
      ensures logs == old(logs)[activeIndex := Log(root, path, index)]
    {
      changeLogs[activeIndex].Assign(root, path, index);
      logs := logs[activeIndex := changeLogs[activeIndex].Value()];
    }

    /** The end of `append`: the new log goes to the active slot, the new leaf becomes the rightmost. */
    method StoreAppended(root: Node, changeList: seq<Node>, leaf: Node)
      requires Laidout() && Wellformed(tree) && tree.depth == maxDepth && tree.capacity == maxBufferSize
      requires 0 < tree.next < Pow2(maxDepth) && rightmostIndex == tree.next
      requires HoldsWindow(logs, tree)
      requires CountersFor(sequenceNumber, activeIndex, bufferSize, maxBufferSize, |tree.versions| + 1)
      requires rightmostProof[..] == AuthPath(LeavesAfter(tree, tree.next, leaf), maxDepth, tree.next)
      requires root == Root(LeavesAfter(tree, tree.next, leaf), maxDepth)
      requires changeList == PathNodes(LeavesAfter(tree, tree.next, leaf), maxDepth, tree.next)
      modifies this, changeLogs
      ensures Valid()
      ensures tree == Write(old(tree), old(tree).next, leaf)
      ensures root == CurrentRoot(tree)
    {
      ghost var t := tree;
      AppendedState(t, leaf);
      WriteIsWellformed(t, t.next, leaf);
      assert activeIndex == |t.versions| % maxBufferSize;
      hide Consistent, Valid, Wellformed, HoldsWindow, HoldsRightmost, Write, LogOf, Laidout, LeavesAfter, AuthPath,
        CountersFor;
      AssignActiveSlot(root, changeList, rightmostIndex);
      StoreKeepsWindow(old(logs), t, t.next, leaf, logs);
      rightmostIndex := rightmostIndex + 1;
      rightmostLeaf := leaf;
      tree := Write(t, t.next, leaf);
      IsValid();
    }

    /** The body of `append` on a tree that already has a leaf. */
    method AppendToRightmost(leaf: Node) returns (root: Node)
      requires Valid() && 0 < rightmostIndex < Pow2(maxDepth)
      modifies this, changeLogs, rightmostProof
      ensures Valid()
      ensures tree == Write(old(tree), old(tree).next, leaf)
      ensures root == CurrentRoot(tree)
    {
      Outline();
      OutlineConsistent();
      hide Consistent, Valid, Wellformed, HoldsWindow, Write, Laidout, LeavesAfter, CountersFor;
      var changeList;
      root, changeList := ClimbFromRightmost(rightmostProof, rightmostLeaf, rightmostIndex, leaf, tree);
      UpdateInternalCounters(|tree.versions|);
      StoreAppended(root, changeList, leaf);
    }

    method FillEmptyOrAppend(currentRoot: Node, leaf: Node, proofVec: seq<Node>, index: nat) returns (outcome: Outcome)
      requires Valid()
      modifies this, changeLogs, rightmostProof
      ensures Valid()
      ensures (tree, outcome) == VersionedTree.FillEmptyOrAppend(old(tree), currentRoot, leaf, proofVec, index)
    {
      Outline();
      hide Valid, Consistent, Wellformed, TryApply, VersionedTree.Append;
      var proof := new Node[maxDepth](_ => Empty);
      var tooLong := FillInProof(proofVec, proof);
      if tooLong {
        return Aborted;
      }
      outcome := TryApplyProof(currentRoot, Empty, leaf, proof, index, false);
      if outcome == Err(LeafContentsModified) {
        FailureKeepsTree(old(tree), currentRoot, Empty, leaf, Completed(proofVec, maxDepth), index, false);
        outcome := Append(leaf);
      }
    }
  }
}
