/** The simple machine the concurrent Merkle tree stands for: every version of a plain array of
    2^depth leaves since creation, of which the last `capacity` are still usable as a caller's
    starting point. No ring buffer, no patched paths: what an operation answers is said in terms of
    the leaves themselves. */
module VersionedTree {
  import opened Bits
  import opened Merkle

  datatype CMTError =
    | LeafIndexOutOfBounds
    | InvalidProof
    | CannotAppendEmptyNode
    | TreeFull
    | TreeAlreadyInitialized
    | RootNotFound
    | LeafContentsModified

  /** `Aborted` is a panic: the call has no effect. */
  datatype Outcome = Ok(root: Node) | Err(error: CMTError) | Aborted

  /** The leaves after one write, and the index that was written to produce them. */
  datatype Version = Version(leaves: seq<Node>, index: nat)

  /** `next` is the first leaf position never written (or 2^depth once all have been). */
  datatype Tree = Tree(depth: nat, capacity: nat, versions: seq<Version>, next: nat)

  function Initial(depth: nat, capacity: nat): Tree {
    Tree(depth, capacity, [Version(EmptyLeaves(depth), 0)], 0)
  }

  /** The sizes the source accepts. Depth 0 leaves no path node to store a leaf in. */
  predicate Supported(depth: nat, capacity: nat) {
    0 < depth < 31 && IsPow2(capacity) && capacity < TWO_64
  }

  function Newest(t: Tree): int {
    |t.versions| - 1
  }

  function Oldest(t: Tree): nat {
    if |t.versions| <= t.capacity then 0 else |t.versions| - t.capacity
  }

  function Leaves(t: Tree): seq<Node>
    requires |t.versions| > 0
  {
    t.versions[Newest(t)].leaves
  }

  function CurrentRoot(t: Tree): Node
    requires |t.versions| > 0
  {
    Root(Leaves(t), t.depth)
  }

  /** The leaf position an index addresses. */
  function Position(t: Tree, index: nat): nat {
    Low(index, t.depth)
  }

  function CurrentLeaf(t: Tree, index: nat): Node
    requires |t.versions| > 0
  {
    LeafAt(Leaves(t), Position(t, index))
  }

  /** Version w was made from its predecessor by writing one leaf. */
  ghost predicate WroteOneLeaf(t: Tree, w: nat)
    requires 0 < w < |t.versions|
  {
    var p := Position(t, t.versions[w].index);
    && |t.versions[w].leaves| == |t.versions[w - 1].leaves| == Pow2(t.depth)
    && t.versions[w].leaves == t.versions[w - 1].leaves[p := t.versions[w].leaves[p]]
  }

  /** What every reachable tree satisfies. */
  ghost predicate Wellformed(t: Tree) {
    && Supported(t.depth, t.capacity)
    && |t.versions| >= 1
    && t.versions[0] == Version(EmptyLeaves(t.depth), 0)
    && (forall w :: 0 <= w < |t.versions| ==> |t.versions[w].leaves| == Pow2(t.depth))
    && (forall w :: 0 < w < |t.versions| ==> WroteOneLeaf(t, w))
    && t.next <= Pow2(t.depth)
    && EmptyFrom(Leaves(t), t.next)
    && (t.next == 0 <==> |t.versions| == 1)
    && (t.next < Pow2(t.depth) ==> NoAliases(t))
  }

  /** Every write so far addressed a leaf by its own position. */
  ghost predicate NoAliases(t: Tree) {
    forall w :: 0 <= w < |t.versions| ==> t.versions[w].index < Pow2(t.depth)
  }

  // ----- what has changed since a version

  /** The paths of the two indices run through sibling nodes at level l. */
  predicate Meets(depth: nat, a: nat, b: nat, l: nat) {
    Shr(Low(a, depth), l) == Sib(Shr(Low(b, depth), l))
  }

  /** Some version in (from, upto] wrote below the sibling of `index` at level l. */
  ghost predicate SiblingTouched(t: Tree, from: int, upto: int, index: nat, l: nat)
    requires upto < |t.versions|
  {
    exists w :: 0 <= w <= upto && from < w && Meets(t.depth, t.versions[w].index, index, l)
  }

  /** Some version in (from, upto] wrote the leaf at `index`. */
  ghost predicate LeafWritten(t: Tree, from: int, upto: int, index: nat)
    requires upto < |t.versions|
  {
    exists w :: 0 <= w <= upto && from < w && Position(t, t.versions[w].index) == Position(t, index)
  }

  /** Two different indices that address the same leaf. */
  predicate Alias(depth: nat, a: nat, b: nat) {
    a != b && Low(a, depth) == Low(b, depth)
  }

  /** Some version in (from, upto] wrote the leaf of `index` under another index. */
  ghost predicate AliasWritten(t: Tree, from: int, upto: int, index: nat)
    requires upto < |t.versions|
  {
    exists w :: 0 <= w <= upto && from < w && Alias(t.depth, t.versions[w].index, index)
  }

  /** The newest version in the window, at or below w, whose root is `root`; -1 if there is none. */
  ghost function MatchUpTo(t: Tree, root: Node, w: int): (m: int)
    requires -1 <= w < |t.versions|
    ensures m == -1 || (Oldest(t) <= m <= w && Root(t.versions[m].leaves, t.depth) == root)
    ensures forall v :: Oldest(t) <= v <= w && m < v ==> Root(t.versions[v].leaves, t.depth) != root
    decreases w + 1
  {
    if w < Oldest(t) then -1
    else if Root(t.versions[w].leaves, t.depth) == root then w
    else MatchUpTo(t, root, w - 1)
  }

  ghost function NewestMatch(t: Tree, root: Node): int {
    MatchUpTo(t, root, Newest(t))
  }

  /** The version whose successors are replayed over a proof. A root outside the window is taken to
      be older than all of it; then everything after the oldest version is replayed, or, if there
      is only one version, that one. */
  ghost function ReplayStart(t: Tree, root: Node): int {
    if NewestMatch(t, root) >= 0 then NewestMatch(t, root)
    else if Oldest(t) < Newest(t) then Oldest(t)
    else Newest(t) - 1
  }

  // ----- the operations

  datatype Verdict = Accept | Reject(error: CMTError) | Panic

  /** The proof is right wherever no later write has brought it up to date. */
  ghost predicate ProofHolds(t: Tree, from: int, proof: seq<Node>, index: nat)
    requires |t.versions| > 0
    requires |proof| == t.depth
  {
    forall l :: 0 <= l < t.depth ==>
      SiblingTouched(t, from, Newest(t), index, l) || proof[l] == SiblingAt(Leaves(t), Position(t, index), l)
  }

  /** What the roll answers to "`leaf` is at `index`, by this proof made against `root`". */
  ghost function Judge(t: Tree, root: Node, leaf: Node, proof: seq<Node>, index: nat, allowInferred: bool): Verdict
    requires |t.versions| > 0
    requires |proof| == t.depth
  {
    var from := ReplayStart(t, root);
    if NewestMatch(t, root) < 0 && !allowInferred then Reject(RootNotFound)
    else if AliasWritten(t, from, Newest(t), index) then Panic
    else if LeafWritten(t, from, Newest(t), index) && leaf != CurrentLeaf(t, index) then Reject(LeafContentsModified)
    else if leaf == CurrentLeaf(t, index) && ProofHolds(t, from, proof, index) then Accept
    else Reject(InvalidProof)
  }

  function LeavesAfter(t: Tree, index: nat, x: Node): seq<Node>
    requires |t.versions| > 0
    requires |Leaves(t)| == Pow2(t.depth)
  {
    Leaves(t)[Position(t, index) := x]
  }

  /** The tree after leaf `index` becomes x. */
  function Write(t: Tree, index: nat, x: Node): Tree
    requires |t.versions| > 0
    requires |Leaves(t)| == Pow2(t.depth)
  {
    t.(versions := t.versions + [Version(LeavesAfter(t, index, x), index)],
       next := if t.next < Pow2(t.depth) && t.next <= index then index + 1 else t.next)
  }

  /** Writes `newLeaf` if the proof is accepted. Nothing bounds `index` here: while the tree is not
      full, an index past `next` trips an assertion after the proof has been accepted. */
  ghost function TryApply(t: Tree, root: Node, leaf: Node, newLeaf: Node, proof: seq<Node>, index: nat,
                          allowInferred: bool): (Tree, Outcome)
    requires Wellformed(t)
    requires |proof| == t.depth
  {
    match Judge(t, root, leaf, proof, index, allowInferred)
    case Reject(e) => (t, Err(e))
    case Panic => (t, Aborted)
    case Accept =>
      if t.next < Pow2(t.depth) && index > t.next then (t, Aborted)
      else (Write(t, index, newLeaf), Ok(CurrentRoot(Write(t, index, newLeaf))))
  }

  ghost function SetLeaf(t: Tree, root: Node, previousLeaf: Node, newLeaf: Node, proofVec: seq<Node>,
                         index: nat): (Tree, Outcome)
    requires Wellformed(t)
  {
    if index > t.next then (t, Err(LeafIndexOutOfBounds))
    else if |proofVec| > t.depth then (t, Aborted)
    else TryApply(t, root, previousLeaf, newLeaf, Completed(proofVec, t.depth), index, true)
  }

  ghost function ProveLeaf(t: Tree, root: Node, leaf: Node, proofVec: seq<Node>, index: nat): Outcome
    requires Wellformed(t)
  {
    if index > t.next then Err(LeafIndexOutOfBounds)
    else if |proofVec| > t.depth then Aborted
    else
      match Judge(t, root, leaf, Completed(proofVec, t.depth), index, true)
      case Reject(e) => Err(e)
      case Panic => Aborted
      case Accept => Ok(Empty)
  }

  ghost function Append(t: Tree, leaf: Node): (Tree, Outcome)
    requires Wellformed(t)
  {
    if leaf == Empty then (t, Err(CannotAppendEmptyNode))
    else if t.next >= Pow2(t.depth) then (t, Err(TreeFull))
    else (Write(t, t.next, leaf), Ok(CurrentRoot(Write(t, t.next, leaf))))
  }

  ghost function FillEmptyOrAppend(t: Tree, root: Node, leaf: Node, proofVec: seq<Node>, index: nat): (Tree, Outcome)
    requires Wellformed(t)
  {
    if |proofVec| > t.depth then (t, Aborted)
    else
      var filled := TryApply(t, root, Empty, leaf, Completed(proofVec, t.depth), index, false);
      if filled.1 == Err(LeafContentsModified) then Append(t, leaf) else filled
  }

  // ----- invariance

  lemma InitialIsWellformed(depth: nat, capacity: nat)
    requires Supported(depth, capacity)
    ensures Wellformed(Initial(depth, capacity))
  {
  }

  /** A write at an admissible index keeps the tree well formed. */
  lemma WriteIsWellformed(t: Tree, index: nat, x: Node)
    requires Wellformed(t)
    requires index <= t.next || t.next == Pow2(t.depth)
    ensures Wellformed(Write(t, index, x))
    ensures Leaves(Write(t, index, x)) == LeavesAfter(t, index, x)
    ensures var t' := Write(t, index, x);
            t'.depth == t.depth && t'.capacity == t.capacity && |t'.versions| == |t.versions| + 1
  {
    var t' := Write(t, index, x);
    forall w | 0 < w < |t'.versions|
      ensures WroteOneLeaf(t', w)
    {
      if w < |t.versions| {
        assert WroteOneLeaf(t, w);
      }
    }
    if index < Pow2(t.depth) {
      LowSmall(index, t.depth);
    }
  }

  /** The current root with the current leaf and path is always accepted. */
  lemma CurrentProofAccepted(t: Tree, index: nat, allowInferred: bool)
    requires Wellformed(t)
    ensures Judge(t, CurrentRoot(t), CurrentLeaf(t, index), AuthPath(Leaves(t), t.depth, Position(t, index)), index,
      allowInferred) == Accept
  {
    assert NewestMatch(t, CurrentRoot(t)) == Newest(t);
  }

  lemma FailureKeepsTree(t: Tree, root: Node, leaf: Node, newLeaf: Node, proof: seq<Node>, index: nat,
                         allowInferred: bool)
    requires Wellformed(t) && |proof| == t.depth
    ensures var r := TryApply(t, root, leaf, newLeaf, proof, index, allowInferred);
            r.1.Ok? || r.0 == t
  {
  }
}
