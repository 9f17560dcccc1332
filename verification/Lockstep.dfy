/** The comparison the tests make, for every run: the roll and the reference tree, side by side over
    the same leaves, always have the same root. */
module Lockstep {
  import opened Bits
  import opened Merkle
  import opened VersionedTree
  import opened Replay
  import opened Guarantees
  import opened MerkleRolls
  import opened Runs
  import opened ReferenceTrees

  /** A reference tree over 2^d leaves has height d. */
  lemma FitsPow2(d: nat, height: nat)
    requires Fits(Pow2(d), height)
    ensures height == d
  {
    if height < d {
      Pow2Monotone(height + 1, d);
    } else if height > d {
      Pow2Monotone(d, height - 1);
    }
  }

  /** The reference tree holds the leaves of the newest version. */
  ghost predicate Mirrors(t: Tree, leaves: seq<Node>) {
    Wellformed(t) && leaves == Leaves(t)
  }

  lemma SameRoot(tree: MerkleTree, t: Tree)
    requires tree.Valid() && Mirrors(t, tree.leaves)
    ensures tree.height == t.depth && tree.root == CurrentRoot(t)
  {
    FitsPow2(t.depth, tree.height);
  }

  /** The newest log says which leaf was written last, and what it became. */
  lemma NewestLog(t: Tree)
    requires Wellformed(t)
    ensures var log := LogOf(t.depth, t.versions[Newest(t)]);
            var p := Low(log.index, t.depth);
      && p < |Leaves(t)| && Leaves(t)[p] == log.path[0] && log.root == CurrentRoot(t)
      && (Newest(t) > 0 ==> |t.versions[Newest(t) - 1].leaves| == Pow2(t.depth)
                            && Leaves(t) == t.versions[Newest(t) - 1].leaves[p := log.path[0]])
  {
    var v := t.versions[Newest(t)];
    assert LeafAt(v.leaves, Low(v.index, t.depth)) == NodeAt(v.leaves, 0, Shr(Low(v.index, t.depth), 0));
    if Newest(t) > 0 {
      assert WroteOneLeaf(t, Newest(t));
    }
  }

  /** Where a successful operation wrote, and what: said by its own arguments, except that a fill learns
      from the newest log which of its two places it got. */
  lemma WrittenByOperation(t: Tree, op: Operation)
    requires Wellformed(t) && Step(t, op).1.Ok? && !op.ProveOp?
    ensures var t' := Step(t, op).0;
      && Wellformed(t') && t'.depth == t.depth && |Leaves(t)| == Pow2(t.depth)
      && match op
         case SetLeafOp(_, _, newLeaf, _, index) => Leaves(t') == Leaves(t)[index % Pow2(t.depth) := newLeaf]
         case AppendOp(leaf) => t.next < Pow2(t.depth) && Leaves(t') == Leaves(t)[t.next := leaf]
         case FillOp(_, leaf, _, _) => Leaves(t') == Leaves(t)[t'.versions[Newest(t')].index % Pow2(t.depth) := leaf]
  {
    StepKeepsTree(t, op);
    match op
    case SetLeafOp(root, previousLeaf, newLeaf, proofVec, index) =>
      SetLeafIsSound(t, root, previousLeaf, newLeaf, proofVec, index);
      LowIsMod(index, t.depth);
    case AppendOp(leaf) =>
      AppendIsSound(t, leaf);
    case FillOp(root, leaf, proofVec, index) =>
      FillLandsExactly(t, root, leaf, proofVec, index);
      if t.next < Pow2(t.depth) {
        SmallIndex(t.next, t.depth);
      }
      if index < Pow2(t.depth) {
        SmallIndex(index, t.depth);
      }
  }

  lemma SmallIndex(index: nat, depth: nat)
    requires index < Pow2(depth)
    ensures index % Pow2(depth) == index
  {
    ModUnique(index, Pow2(depth), 0, index);
  }

  ghost predicate Paired(roll: MerkleRoll, tree: MerkleTree)
    reads roll, roll.changeLogs, roll.rightmostProof, tree
  {
    roll.Valid() && tree.Valid() && Mirrors(roll.tree, tree.leaves)
  }

  lemma PairedTree(roll: MerkleRoll, tree: MerkleTree)
    requires Paired(roll, tree)
    ensures Wellformed(roll.tree)
  {
  }

  /** The comparison: the root in the roll's newest log, and the root of the reference tree. */
  method BothRoots(roll: MerkleRoll, tree: MerkleTree) returns (rollRoot: Node, treeRoot: Node)
    requires Paired(roll, tree)
    ensures |roll.tree.versions| > 0 && rollRoot == treeRoot == CurrentRoot(roll.tree)
  {
    SameRoot(tree, roll.tree);
    NewestLog(roll.tree);
    hide MerkleRoll.Valid, MerkleTree.Valid;
    var log := roll.GetChangeLog();
    rollRoot, treeRoot := log.root, tree.root;
  }

  /** Both trees, empty. */
  method Setup(depth: nat, capacity: nat) returns (roll: MerkleRoll, tree: MerkleTree)
    requires Supported(depth, capacity)
    ensures fresh(roll) && fresh(roll.changeLogs) && fresh(roll.rightmostProof) && fresh(tree)
    ensures Paired(roll, tree) && roll.tree == Initial(depth, capacity)
  {
    InitialIsWellformed(depth, capacity);
    hide MerkleRoll.Valid, MerkleTree.Valid, Wellformed;
    roll := new MerkleRoll(depth, capacity);
    var root := roll.Initialize();
    tree := new MerkleTree(EmptyLeaves(depth));
  }

  /** Repeats an operation's write on the reference tree; `next` is where an append has gone. */
  method RepeatWrite(roll: MerkleRoll, tree: MerkleTree, op: Operation, next: nat, ghost t: Tree)
    requires roll.Valid() && tree.Valid() && Mirrors(t, tree.leaves)
    requires !op.ProveOp? && Step(t, op).1.Ok? && roll.tree == Step(t, op).0 && next == t.next
    modifies tree
    ensures Paired(roll, tree)
  {
    hide MerkleRoll.Valid, MerkleTree.Valid, Wellformed, Step;
    RollOutline(roll);
    WrittenByOperation(t, op);
    var leaf, idx := Empty, next;
    match op {
      case SetLeafOp(_, _, newLeaf, _, index) =>
        leaf, idx := newLeaf, index % Pow2(roll.maxDepth);
      case AppendOp(newLeaf) =>
        leaf := newLeaf;
      case FillOp(_, newLeaf, _, _) =>
        var log := roll.GetChangeLog();
        leaf, idx := newLeaf, log.index % Pow2(roll.maxDepth);
    }
    var panicked := tree.AddLeaf(leaf, idx);
  }

  lemma RollOutline(roll: MerkleRoll)
    requires roll.Valid()
    ensures Wellformed(roll.tree) && roll.tree.depth == roll.maxDepth > 0 && roll.rightmostIndex == roll.tree.next
  {
    roll.Outline();
  }

  /** One operation on the roll; a write that succeeded is repeated on the reference tree. */
  method PerformBoth(roll: MerkleRoll, tree: MerkleTree, op: Operation) returns (outcome: Outcome)
    requires Paired(roll, tree)
    modifies roll, roll.changeLogs, roll.rightmostProof, tree
    ensures Paired(roll, tree)
    ensures Wellformed(old(roll.tree)) && (roll.tree, outcome) == Step(old(roll.tree), op)
  {
    hide MerkleRoll.Valid, MerkleTree.Valid, Step, Wellformed;
    RollOutline(roll);
    ghost var t := roll.tree;
    var next := roll.rightmostIndex;
    StepKeepsTree(t, op);
    outcome := Perform(roll, op);
    if outcome.Ok? && !op.ProveOp? {
      RepeatWrite(roll, tree, op, next, t);
    }
  }

  ghost function RootAfter(t: Tree, ops: seq<Operation>): Node
    requires Wellformed(t)
  {
    CurrentRoot(Runs.After(t, ops))
  }

  lemma RunStarts(t: Tree, ops: seq<Operation>)
    requires Wellformed(t)
    ensures Runs.After(t, ops[..0]) == t && |t.versions| > 0 && RootAfter(t, ops[..0]) == CurrentRoot(t)
  {
  }

  lemma RunExtends(t: Tree, ops: seq<Operation>, i: nat)
    requires Wellformed(t) && i < |ops|
    ensures Runs.After(t, ops[..i + 1]) == Step(Runs.After(t, ops[..i]), ops[i]).0
  {
    assert ops[..i + 1][..i] == ops[..i];
  }

  lemma RootAfterRun(t: Tree, ops: seq<Operation>)
    requires Wellformed(t)
    ensures |Runs.After(t, ops).versions| > 0 && RootAfter(t, ops) == CurrentRoot(Runs.After(t, ops))
  {
  }

  /** The roots along a run. */
  ghost predicate RootsAlong(t: Tree, ops: seq<Operation>, roots: seq<Node>)
    requires Wellformed(t)
  {
    |roots| == |ops| + 1 && forall i :: 0 <= i <= |ops| ==> roots[i] == RootAfter(t, ops[..i])
  }

  lemma RootsExtend(t: Tree, ops: seq<Operation>, roots: seq<Node>, i: nat, root: Node)
    requires Wellformed(t) && i < |ops| && RootsAlong(t, ops[..i], roots)
    requires root == RootAfter(t, ops[..i + 1])
    ensures RootsAlong(t, ops[..i + 1], roots + [root])
  {
    hide RootAfter;
    forall j | 0 <= j <= i + 1
      ensures (roots + [root])[j] == RootAfter(t, ops[..i + 1][..j])
    {
      assert ops[..i + 1][..j] == ops[..j];
      if j <= i {
        assert ops[..i][..j] == ops[..j];
      }
    }
  }

  method ContinueBoth(roll: MerkleRoll, tree: MerkleTree, ops: seq<Operation>)
    returns (rollRoots: seq<Node>, treeRoots: seq<Node>)
    requires Paired(roll, tree)
    modifies roll, roll.changeLogs, roll.rightmostProof, tree
    ensures Paired(roll, tree) && Wellformed(old(roll.tree))
    ensures rollRoots == treeRoots && RootsAlong(old(roll.tree), ops, treeRoots)
  {
    hide Paired, Step, Wellformed, RootAfter, Runs.After;
    ghost var t := roll.tree;
    PairedTree(roll, tree);
    var rollRoot, treeRoot := BothRoots(roll, tree);
    rollRoots, treeRoots := [rollRoot], [treeRoot];
    RunStarts(t, ops);
    for i := 0 to |ops|
      invariant Paired(roll, tree) && roll.tree == Runs.After(t, ops[..i])
      invariant rollRoots == treeRoots && RootsAlong(t, ops[..i], treeRoots)
    {
      hide RootsAlong;
      RunExtends(t, ops, i);
      RootAfterRun(t, ops[..i + 1]);
      var outcome := PerformBoth(roll, tree, ops[i]);
      rollRoot, treeRoot := BothRoots(roll, tree);
      RootsExtend(t, ops, treeRoots, i, treeRoot);
      rollRoots, treeRoots := rollRoots + [rollRoot], treeRoots + [treeRoot];
    }
    assert ops[..|ops|] == ops;
  }

  /** Over any run from scratch the two roots agree after every operation. */
  method RunBoth(depth: nat, capacity: nat, ops: seq<Operation>) returns (rollRoots: seq<Node>, treeRoots: seq<Node>)
    requires Supported(depth, capacity)
    ensures Wellformed(Initial(depth, capacity))
    ensures rollRoots == treeRoots && RootsAlong(Initial(depth, capacity), ops, treeRoots)
  {
    InitialIsWellformed(depth, capacity);
    hide Paired, Wellformed, RootsAlong;
    var roll, tree := Setup(depth, capacity);
    rollRoots, treeRoots := ContinueBoth(roll, tree, ops);
  }

  /** A replacement with the root, leaf and proof that the reference tree gives is always accepted. */
  method ReplaceWithReferenceProof(roll: MerkleRoll, tree: MerkleTree, newLeaf: Node, idx: nat)
    returns (outcome: Outcome)
    requires Paired(roll, tree)
    requires idx < |tree.leaves| && idx <= roll.tree.next
    modifies roll, roll.changeLogs, roll.rightmostProof, tree
    ensures Paired(roll, tree)
    ensures tree.leaves == old(tree.leaves)[idx := newLeaf] && outcome == Ok(tree.root)
  {
    hide MerkleRoll.Valid, MerkleTree.Valid, Wellformed, VersionedTree.SetLeaf, AuthPath;
    ghost var t := roll.tree;
    SameRoot(tree, t);
    ReferenceProofAccepted(t, tree.leaves, newLeaf, idx);
    var proof := tree.GetProofOfLeaf(idx);
    var leaf := tree.GetLeaf(idx);
    outcome := roll.SetLeaf(tree.root, leaf, newLeaf, proof.value, idx);
    var panicked := tree.AddLeaf(newLeaf, idx);
    SameRoot(tree, roll.tree);
  }

  lemma ReferenceProofAccepted(t: Tree, leaves: seq<Node>, newLeaf: Node, idx: nat)
    requires Mirrors(t, leaves) && idx < |leaves| && idx <= t.next
    ensures |t.versions| > 0
    ensures var r := SetLeaf(t, CurrentRoot(t), leaves[idx], newLeaf, AuthPath(leaves, t.depth, idx), idx);
      Wellformed(r.0) && Leaves(r.0) == leaves[idx := newLeaf] && r.1 == Ok(CurrentRoot(r.0))
  {
    var proof := AuthPath(leaves, t.depth, idx);
    LowSmall(idx, t.depth);
    CompleteProofIsItself(proof);
    CurrentProofAccepted(t, idx, true);
    SetLeafIsSound(t, CurrentRoot(t), leaves[idx], newLeaf, proof, idx);
  }
}
