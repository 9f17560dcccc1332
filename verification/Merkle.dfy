/** Nodes, the collision-free hash, and the ideal Merkle tree over an array of leaves. */
module Merkle {
  import opened Bits

  /** A 32-byte value, as what it is the hash of. `Empty` is the all-zero node, `Raw` any value that
      is not the hash of two nodes (for instance the hash of a leaf schema), `Hash` an inner node. */
  datatype Node = Empty | Raw(preimage: seq<int>) | Hash(left: Node, right: Node)

  /** `hash_to_parent`: the parent of `node` and `sibling`, which is on the right iff `isLeft`. */
  function HashToParent(node: Node, sibling: Node, isLeft: bool): Node {
    if isLeft then Hash(node, sibling) else Hash(sibling, node)
  }

  function EmptyNode(level: nat): Node {
    if level == 0 then Empty else Hash(EmptyNode(level - 1), EmptyNode(level - 1))
  }

  /** The cache is consulted but never written. */
  function EmptyNodeCached(level: nat, cache: seq<Node>): Node {
    if level == 0 then Empty
    else
      var target := level - 1;
      var lower := if target < |cache| && cache[target] != Empty then cache[target] else EmptyNode(target);
      Hash(lower, lower)
  }

  /** A cache holding only unset or correct entries does not change the answer. */
  lemma EmptyNodeCachedIsEmptyNode(level: nat, cache: seq<Node>)
    requires forall i {:trigger cache[i]} :: 0 <= i < |cache| ==> cache[i] == Empty || cache[i] == EmptyNode(i)
    ensures EmptyNodeCached(level, cache) == EmptyNode(level)
  {
    if level > 0 {
      assert EmptyNode(level) == Hash(EmptyNode(level - 1), EmptyNode(level - 1));
    }
  }

  lemma SplitLast<T>(s: seq<T>)
    requires |s| > 0
    ensures s[..|s| - 1] + [s[|s| - 1]] == s
  {
  }

  // ----- the ideal tree

  /** Leaves past the end of the array are Empty. */
  function LeafAt(leaves: seq<Node>, k: nat): Node {
    if k < |leaves| then leaves[k] else Empty
  }

  /** The node at position k of level l, counted from the leaves. */
  function NodeAt(leaves: seq<Node>, l: nat, k: nat): Node
    decreases l
  {
    if l == 0 then LeafAt(leaves, k)
    else Hash(NodeAt(leaves, l - 1, 2 * k), NodeAt(leaves, l - 1, 2 * k + 1))
  }

  function Root(leaves: seq<Node>, depth: nat): Node {
    NodeAt(leaves, depth, 0)
  }

  /** The sibling needed at level l to prove leaf i. */
  function SiblingAt(leaves: seq<Node>, i: nat, l: nat): Node {
    NodeAt(leaves, l, Sib(Shr(i, l)))
  }

  /** The authentication path of leaf i: its siblings from the leaves up. */
  function AuthPath(leaves: seq<Node>, depth: nat, i: nat): (p: seq<Node>)
    ensures |p| == depth
  {
    seq(depth, (l: nat) => SiblingAt(leaves, i, l))
  }

  /** The nodes from leaf i up to, and without, the root. */
  function PathNodes(leaves: seq<Node>, depth: nat, i: nat): (p: seq<Node>)
    ensures |p| == depth
  {
    seq(depth, (l: nat) => NodeAt(leaves, l, Shr(i, l)))
  }

  function EmptyLeaves(depth: nat): (leaves: seq<Node>)
    ensures |leaves| == Pow2(depth)
  {
    seq(Pow2(depth), _ => Empty)
  }

  /** The node reached by hashing `leaf` with the first l nodes of a proof. */
  function Climb(leaf: Node, proof: seq<Node>, index: nat, l: nat): Node
    requires l <= |proof|
  {
    if l == 0 then leaf
    else HashToParent(Climb(leaf, proof, index, l - 1), proof[l - 1], Shr(index, l - 1) % 2 == 0)
  }

  /** `recompute`: the root a leaf and its proof claim. */
  function RootFromProof(leaf: Node, proof: seq<Node>, index: nat): Node {
    Climb(leaf, proof, index, |proof|)
  }

  // ----- facts about the ideal tree

  /** Two sibling positions are the two children of one parent. */
  lemma ParentOfSiblings(leaves: seq<Node>, l: nat, k: nat)
    ensures NodeAt(leaves, l + 1, k / 2)
         == HashToParent(NodeAt(leaves, l, k), NodeAt(leaves, l, Sib(k)), k % 2 == 0)
  {
  }

  /** Writing leaf i changes no node off the path of i. */
  lemma {:induction false} WriteKeepsOtherNodes(leaves: seq<Node>, i: nat, x: Node, l: nat, k: nat)
    requires i < |leaves|
    requires Shr(i, l) != k
    ensures NodeAt(leaves[i := x], l, k) == NodeAt(leaves, l, k)
    decreases l
  {
    if l > 0 {
      WriteKeepsOtherNodes(leaves, i, x, l - 1, 2 * k);
      WriteKeepsOtherNodes(leaves, i, x, l - 1, 2 * k + 1);
    }
  }

  /** Hashing a leaf upwards with the true siblings follows the tree. */
  lemma {:induction false} ClimbFollowsTree(leaves: seq<Node>, leaf: Node, proof: seq<Node>, i: nat, l: nat)
    requires l <= |proof|
    requires leaf == LeafAt(leaves, i)
    requires forall j :: 0 <= j < l ==> proof[j] == SiblingAt(leaves, i, j)
    ensures Climb(leaf, proof, i, l) == NodeAt(leaves, l, Shr(i, l))
  {
    if l > 0 {
      ClimbFollowsTree(leaves, leaf, proof, i, l - 1);
      ParentOfSiblings(leaves, l - 1, Shr(i, l - 1));
    }
  }

  /** Conversely, reaching the tree's node takes the true leaf and the true siblings. */
  lemma {:induction false} ClimbIsInjective(leaves: seq<Node>, leaf: Node, proof: seq<Node>, i: nat, l: nat)
    requires l <= |proof|
    requires Climb(leaf, proof, i, l) == NodeAt(leaves, l, Shr(i, l))
    ensures leaf == LeafAt(leaves, i)
    ensures forall j :: 0 <= j < l ==> proof[j] == SiblingAt(leaves, i, j)
  {
    if l > 0 {
      ParentOfSiblings(leaves, l - 1, Shr(i, l - 1));
      ClimbIsInjective(leaves, leaf, proof, i, l - 1);
    }
  }

  /** Only the low bits of an index steer a proof. */
  lemma {:induction false} ClimbLowBits(leaf: Node, proof: seq<Node>, index: nat, depth: nat, l: nat)
    requires l <= |proof| && l <= depth
    ensures Climb(leaf, proof, index, l) == Climb(leaf, proof, Low(index, depth), l)
  {
    if l > 0 {
      ClimbLowBits(leaf, proof, index, depth, l - 1);
      LowBits(index, depth, l - 1);
    }
  }

  /** A proof of full length recomputes the root exactly when leaf and proof are the true ones. */
  lemma ProofExact(leaves: seq<Node>, depth: nat, leaf: Node, proof: seq<Node>, index: nat)
    requires |proof| == depth
    ensures RootFromProof(leaf, proof, index) == Root(leaves, depth)
       <==> leaf == LeafAt(leaves, Low(index, depth)) && proof == AuthPath(leaves, depth, Low(index, depth))
  {
    var i := Low(index, depth);
    ClimbLowBits(leaf, proof, index, depth, depth);
    ShrBound(i, depth, depth);
    assert Shr(i, depth) == 0;
    if RootFromProof(leaf, proof, index) == Root(leaves, depth) {
      ClimbIsInjective(leaves, leaf, proof, i, depth);
      assert proof == AuthPath(leaves, depth, i);
    }
    if leaf == LeafAt(leaves, i) && proof == AuthPath(leaves, depth, i) {
      ClimbFollowsTree(leaves, leaf, proof, i, depth);
    }
  }

  /** Equal nodes have equal leaves below them. */
  lemma {:induction false} EqualNodesEqualLeaves(a: seq<Node>, b: seq<Node>, l: nat, j: nat)
    requires NodeAt(a, l, Shr(j, l)) == NodeAt(b, l, Shr(j, l))
    ensures LeafAt(a, j) == LeafAt(b, j)
    decreases l
  {
    if l > 0 {
      assert Shr(j, l) == Shr(j, l - 1) / 2;
      ParentOfSiblings(a, l - 1, Shr(j, l - 1));
      ParentOfSiblings(b, l - 1, Shr(j, l - 1));
      EqualNodesEqualLeaves(a, b, l - 1, j);
    }
  }

  /** The root determines the leaves. */
  lemma RootIsInjective(a: seq<Node>, b: seq<Node>, depth: nat)
    requires |a| == Pow2(depth) && |b| == Pow2(depth)
    requires Root(a, depth) == Root(b, depth)
    ensures a == b
  {
    forall j | 0 <= j < Pow2(depth)
      ensures a[j] == b[j]
    {
      ShrBound(j, depth, depth);
      assert Shr(j, depth) == 0;
      EqualNodesEqualLeaves(a, b, depth, j);
      assert LeafAt(a, j) == a[j] && LeafAt(b, j) == b[j];
    }
  }

  ghost predicate EmptyFrom(leaves: seq<Node>, n: nat) {
    forall j :: n <= j < |leaves| ==> leaves[j] == Empty
  }

  /** A subtree lying wholly past the used leaves is the empty node of its level. */
  lemma {:induction false} EmptySubtree(leaves: seq<Node>, n: nat, l: nat, k: nat)
    requires EmptyFrom(leaves, n)
    requires n == 0 || Shr(n - 1, l) < k
    ensures NodeAt(leaves, l, k) == EmptyNode(l)
    decreases l
  {
    if l > 0 {
      EmptySubtree(leaves, n, l - 1, 2 * k);
      EmptySubtree(leaves, n, l - 1, 2 * k + 1);
    }
  }

  lemma EmptyTree(depth: nat, i: nat)
    ensures Root(EmptyLeaves(depth), depth) == EmptyNode(depth)
    ensures AuthPath(EmptyLeaves(depth), depth, i) == seq(depth, (l: nat) => EmptyNode(l))
    ensures PathNodes(EmptyLeaves(depth), depth, i) == seq(depth, (l: nat) => EmptyNode(l))
  {
    EmptySubtree(EmptyLeaves(depth), 0, depth, 0);
    forall l: nat, k: nat
      ensures NodeAt(EmptyLeaves(depth), l, k) == EmptyNode(l)
    {
      EmptySubtree(EmptyLeaves(depth), 0, l, k);
    }
  }

  /** After a write, the new path nodes are what hashing the new leaf with the old siblings gives. */
  lemma ClimbAfterWrite(leaves: seq<Node>, i: nat, x: Node, l: nat)
    requires i < |leaves|
    ensures SiblingAt(leaves[i := x], i, l) == SiblingAt(leaves, i, l)
  {
    WriteKeepsOtherNodes(leaves, i, x, l, Sib(Shr(i, l)));
  }

  /** Positions of one level whose paths meet at level c lie under sibling nodes there. A write at j
      reaches the proof of i at exactly the levels where their paths are siblings. */
  lemma WriteKeepsSibling(leaves: seq<Node>, j: nat, x: Node, i: nat, l: nat)
    requires j < |leaves|
    requires Shr(j, l) != Sib(Shr(i, l))
    ensures SiblingAt(leaves[j := x], i, l) == SiblingAt(leaves, i, l)
  {
    WriteKeepsOtherNodes(leaves, j, x, l, Sib(Shr(i, l)));
  }

  // ----- the loops over a proof

  /** `recompute`: climbs with a loop over the proof. */
  method Recompute(leaf: Node, proof: array<Node>, index: nat) returns (root: Node)
    ensures root == RootFromProof(leaf, proof[..], index)
  {
    root := leaf;
    for depth := 0 to proof.Length
      invariant root == Climb(leaf, proof[..], index, depth)
    {
      root := HashToParent(root, proof[depth], Shr(index, depth) % 2 == 0);
    }
  }

  /** A caller's proof completed with the empty nodes of the missing upper levels. */
  function Completed(proofVec: seq<Node>, depth: nat): (p: seq<Node>)
    requires |proofVec| <= depth
    ensures |p| == depth
  {
    seq(depth, (l: nat) => if l < |proofVec| then proofVec[l] else EmptyNode(l))
  }

  /** `fill_in_proof`; the slice copy panics when the caller's proof is longer than the tree is deep. */
  method FillInProof(proofVec: seq<Node>, fullProof: array<Node>) returns (panicked: bool)
    modifies fullProof
    ensures panicked <==> |proofVec| > fullProof.Length
    ensures !panicked ==> fullProof[..] == Completed(proofVec, fullProof.Length)
  {
    if |proofVec| > fullProof.Length {
      return true;
    }
    for i := 0 to |proofVec|
      invariant forall l :: 0 <= l < i ==> fullProof[l] == proofVec[l]
    {
      fullProof[i] := proofVec[i];
    }
    for i := |proofVec| to fullProof.Length
      invariant forall l :: 0 <= l < i ==> fullProof[l] == Completed(proofVec, fullProof.Length)[l]
    {
      fullProof[i] := EmptyNode(i);
    }
    panicked := false;
  }
}
