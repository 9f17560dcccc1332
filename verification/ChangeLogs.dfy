/** One slot of the ring buffer, updated in place. */
module ChangeLogs {
  import opened Bits
  import opened Merkle
  import opened VersionedTree
  import opened Replay

  class ChangeLog {
    var root: Node
    var path: seq<Node>
    var index: nat

    /** A zeroed slot. */
    constructor (depth: nat)
      ensures Value() == DefaultLog(depth)
    {
      root := Empty;
      path := seq(depth, _ => Empty);
      index := 0;
    }

    function Value(): Log
      reads this
    {
      Log(root, path, index)
    }

    /** Overwrites the slot (`*slot = ChangeLog::new(..)`). */
    method Assign(newRoot: Node, newPath: seq<Node>, newIndex: nat)
      modifies this
      ensures Value() == Log(newRoot, newPath, newIndex)
    {
      root, path, index := newRoot, newPath, newIndex;
    }

    /** Sets the whole log from a leaf and its proof, storing every node on the way up. */
    method ReplaceAndRecomputePath(newIndex: nat, leaf: Node, proof: array<Node>) returns (node: Node)
      requires |path| == proof.Length
      modifies this
      ensures index == newIndex
      ensures node == root == RootFromProof(leaf, proof[..], newIndex)
      ensures |path| == proof.Length && forall l {:trigger path[l]} :: 0 <= l < |path| ==>
        path[l] == Climb(leaf, proof[..], newIndex, l)
    {
      index := newIndex;
      node := leaf;
      for i := 0 to proof.Length
        invariant |path| == proof.Length && index == newIndex
        invariant node == Climb(leaf, proof[..], newIndex, i)
        invariant forall l {:trigger path[l]} :: 0 <= l < i ==> path[l] == Climb(leaf, proof[..], newIndex, l)
      {
        path := path[i := node];
        node := HashToParent(node, proof[i], Shr(index, i) % 2 == 0);
      }
      root := node;
    }

    /** Brings a proof, or the leaf it proves, up to date with this write. The level is found by bit
        arithmetic; indices that differ only above bit `depth` have none, and the array access panics. */
    method UpdateProofOrLeaf(leafIndex: nat, proof: array<Node>, leaf: Node) returns (updated: Node, panicked: bool)
      requires 0 < proof.Length == |path| <= 32
      modifies proof
      ensures panicked <==> Alias(proof.Length, index, leafIndex)
      ensures !panicked ==> updated == PatchedLeaf(Value(), leafIndex, leaf)
      ensures !panicked ==> proof[..] == Patched(Value(), leafIndex, old(proof[..]))
    {
      updated, panicked := leaf, false;
      var depth := proof.Length;
      CritBitExact(index, leafIndex, depth);
      XorSymmetric(leafIndex, index);
      if leafIndex != index {
        var padding := 32 - depth;
        var commonPathLen := LeadingZeros32(Shl32(Xor(leafIndex, index), padding));
        var critbitIndex := depth - 1 - commonPathLen;
        if critbitIndex < 0 {
          return leaf, true;
        }
        proof[critbitIndex] := path[critbitIndex];
      } else {
        updated := path[0];
      }
      assert forall l :: 0 <= l < depth ==>
        proof[l] == if Meets(depth, index, leafIndex, l) then path[l] else old(proof[l]);
    }
  }

  lemma {:induction false} XorSymmetric(a: nat, b: nat)
    ensures Xor(a, b) == Xor(b, a)
  {
    if a != 0 || b != 0 {
      XorSymmetric(a / 2, b / 2);
    }
  }
}
