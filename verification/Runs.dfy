/** Whole runs: any sequence of operations, successful, failed or aborted, on a freshly initialised
    roll is answered as the plain versioned tree answers it. */
module Runs {
  import opened Bits
  import opened Merkle
  import opened VersionedTree
  import opened Guarantees
  import opened MerkleRolls

  datatype Operation =
    | SetLeafOp(root: Node, previousLeaf: Node, newLeaf: Node, proofVec: seq<Node>, index: nat)
    | AppendOp(leaf: Node)
    | FillOp(root: Node, leaf: Node, proofVec: seq<Node>, index: nat)
    | ProveOp(root: Node, leaf: Node, proofVec: seq<Node>, index: nat)

  ghost function Step(t: Tree, op: Operation): (Tree, Outcome)
    requires Wellformed(t)
  {
    match op
    case SetLeafOp(root, previousLeaf, newLeaf, proofVec, index) => SetLeaf(t, root, previousLeaf, newLeaf, proofVec,
      index)
    case AppendOp(leaf) => Append(t, leaf)
    case FillOp(root, leaf, proofVec, index) => FillEmptyOrAppend(t, root, leaf, proofVec, index)
    case ProveOp(root, leaf, proofVec, index) => (t, ProveLeaf(t, root, leaf, proofVec, index))
  }

  /** t' is t with at most one more version, in which one leaf changed. */
  ghost predicate AtMostOneWrite(t: Tree, t': Tree) {
    && t'.depth == t.depth && t'.capacity == t.capacity
    && t.versions <= t'.versions
    && |t'.versions| <= |t.versions| + 1
    && t.next <= t'.next <= t.next + 1
  }

  /** Every operation keeps the tree well formed; only a success changes it, and by one write. */
  lemma StepKeepsTree(t: Tree, op: Operation)
    requires Wellformed(t)
    ensures var r := Step(t, op);
            Wellformed(r.0) && AtMostOneWrite(t, r.0) && (!r.1.Ok? || op.ProveOp? ==> r.0 == t)
  {
    match op
    case SetLeafOp(root, previousLeaf, newLeaf, proofVec, index) =>
      SetLeafIsSound(t, root, previousLeaf, newLeaf, proofVec, index);
    case AppendOp(leaf) =>
      AppendIsSound(t, leaf);
    case FillOp(root, leaf, proofVec, index) =>
      FillNeverOverwrites(t, root, leaf, proofVec, index);
    case ProveOp(_, _, _, _) =>
  }

  ghost function After(t: Tree, ops: seq<Operation>): (t': Tree)
    requires Wellformed(t)
    ensures Wellformed(t')
  {
    if |ops| == 0 then t
    else
      StepKeepsTree(After(t, ops[..|ops| - 1]), ops[|ops| - 1]);
      Step(After(t, ops[..|ops| - 1]), ops[|ops| - 1]).0
  }

  ghost function Answers(t: Tree, ops: seq<Operation>): (answers: seq<Outcome>)
    requires Wellformed(t)
    ensures |answers| == |ops|
  {
    if |ops| == 0 then []
    else Answers(t, ops[..|ops| - 1]) + [Step(After(t, ops[..|ops| - 1]), ops[|ops| - 1]).1]
  }

  /** History is never rewritten: a run only adds versions, one leaf at a time, and never moves the
      first free position back. */
  lemma {:induction false} RunOnlyAddsVersions(t: Tree, ops: seq<Operation>)
    requires Wellformed(t)
    ensures var t' := After(t, ops);
      && t'.depth == t.depth && t'.capacity == t.capacity
      && t.versions <= t'.versions && |t'.versions| <= |t.versions| + |ops|
      && t.next <= t'.next
  {
    hide Wellformed;
    if |ops| > 0 {
      RunOnlyAddsVersions(t, ops[..|ops| - 1]);
      StepKeepsTree(After(t, ops[..|ops| - 1]), ops[|ops| - 1]);
    }
  }

  method Perform(roll: MerkleRoll, op: Operation) returns (outcome: Outcome)
    requires roll.Valid()
    modifies roll, roll.changeLogs, roll.rightmostProof
    ensures roll.Valid()
    ensures (roll.tree, outcome) == Step(old(roll.tree), op)
  {
    roll.Outline();
    hide Wellformed, SetLeaf, Append, FillEmptyOrAppend, ProveLeaf, MerkleRoll.Valid;
    match op
    case SetLeafOp(root, previousLeaf, newLeaf, proofVec, index) =>
      outcome := roll.SetLeaf(root, previousLeaf, newLeaf, proofVec, index);
    case AppendOp(leaf) =>
      outcome := roll.Append(leaf);
    case FillOp(root, leaf, proofVec, index) =>
      outcome := roll.FillEmptyOrAppend(root, leaf, proofVec, index);
    case ProveOp(root, leaf, proofVec, index) =>
      outcome := roll.ProveLeaf(root, leaf, proofVec, index);
  }

  /** The roll refines the versioned tree over every run. */
  method Execute(roll: MerkleRoll, ops: seq<Operation>) returns (outcomes: seq<Outcome>)
    requires roll.Valid()
    modifies roll, roll.changeLogs, roll.rightmostProof
    ensures roll.Valid()
    ensures Wellformed(old(roll.tree))
    ensures roll.tree == After(old(roll.tree), ops)
    ensures outcomes == Answers(old(roll.tree), ops)
  {
    roll.Outline();
    ghost var t := roll.tree;
    outcomes := [];
    hide Wellformed, Step, MerkleRoll.Valid;
    for i := 0 to |ops|
      invariant roll.Valid()
      invariant roll.tree == After(t, ops[..i])
      invariant outcomes == Answers(t, ops[..i])
    {
      assert ops[..i + 1][..i] == ops[..i];
      var outcome := Perform(roll, ops[i]);
      outcomes := outcomes + [outcome];
    }
    assert ops[..|ops|] == ops;
  }

  /** From a zeroed account: after any run the newest stored root is the root of the leaf array that
      the plain tree holds, every leaf from the first free position on is Empty, and while the tree
      is not full the stored rightmost path is that of the last leaf. */
  method RunFromScratch(depth: nat, capacity: nat, ops: seq<Operation>)
    returns (roll: MerkleRoll, outcomes: seq<Outcome>)
    requires Supported(depth, capacity)
    ensures fresh(roll) && roll.Valid()
    ensures Wellformed(Initial(depth, capacity)) && roll.tree == After(Initial(depth, capacity), ops)
    ensures outcomes == Answers(Initial(depth, capacity), ops)
    ensures |roll.tree.versions| > 0 && EmptyFrom(Leaves(roll.tree), roll.rightmostIndex)
    ensures roll.activeIndex < |roll.changeLogs| && roll.changeLogs[roll.activeIndex].root == CurrentRoot(roll.tree)
    ensures 0 < roll.rightmostIndex < Pow2(depth) ==>
      roll.rightmostProof[..] == AuthPath(Leaves(roll.tree), depth, roll.rightmostIndex - 1)
  {
    InitialIsWellformed(depth, capacity);
    hide MerkleRoll.Valid, Wellformed, After, Answers, EmptyFrom;
    roll := new MerkleRoll(depth, capacity);
    var _ := roll.Initialize();
    ghost var t := roll.tree;
    outcomes := Execute(roll, ops);
    RunOnlyAddsVersions(t, ops);
    roll.StoredState();
  }
}
