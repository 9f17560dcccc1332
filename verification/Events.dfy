/** What a set of change-log events determines about the tree's nodes. */
module Events {
  import opened Bits
  import opened Merkle
  import opened VersionedTree
  import opened Canopy

  /** Version w wrote a leaf below the node at position k of level l. */
  predicate Touches(t: Tree, w: nat, l: nat, k: nat)
    requires w < |t.versions|
  {
    Shr(t.versions[w].index, l) == k
  }

  /** The trees that the on-chain program produces: every write addressed a leaf by its position.
      Sequence numbers stay within the signed 64 bits of the tables. */
  ghost predicate Published(t: Tree) {
    Wellformed(t) && NoAliases(t) && |t.versions| <= TWO_64 / 2
  }

  /** m is the newest of the versions in ws that touch a node. */
  ghost predicate Latest(t: Tree, ws: set<nat>, l: nat, k: nat, m: nat) {
    && m in ws && m < |t.versions| && Touches(t, m, l, k)
    && forall w :: w in ws && w < |t.versions| && Touches(t, w, l, k) ==> w <= m
  }

  ghost predicate NoneTouches(t: Tree, ws: set<nat>, l: nat, k: nat) {
    forall w :: w in ws && w < |t.versions| ==> !Touches(t, w, l, k)
  }

  /** A node nobody writes below stays as it is. */
  lemma {:induction false} NodeUntouched(t: Tree, from: nat, upto: nat, l: nat, k: nat)
    requires Published(t)
    requires from <= upto < |t.versions|
    requires forall w :: from < w <= upto ==> !Touches(t, w, l, k)
    ensures NodeAt(t.versions[upto].leaves, l, k) == NodeAt(t.versions[from].leaves, l, k)
  {
    if from < upto {
      NodeUntouched(t, from, upto - 1, l, k);
      assert WroteOneLeaf(t, upto);
      var p := t.versions[upto].index;
      LowSmall(p, t.depth);
      assert !Touches(t, upto, l, k);
      WriteKeepsOtherNodes(t.versions[upto - 1].leaves, p, t.versions[upto].leaves[p], l, k);
    }
  }

  lemma InitialNode(t: Tree, l: nat, k: nat)
    requires Published(t)
    ensures NodeAt(t.versions[0].leaves, l, k) == EmptyNode(l)
  {
    EmptySubtree(EmptyLeaves(t.depth), 0, l, k);
  }

  /** Knowing all events up to n (from 0 or from 1 on), the newest event that touches a node carries
      the node of version n, and a node no event touches is empty. */
  lemma AllEventsDetermineNodes(t: Tree, ws: set<nat>, n: nat, l: nat, k: nat, m: nat)
    requires Published(t) && n < |t.versions|
    requires forall w :: 1 <= w <= n ==> w in ws
    requires forall w :: w in ws ==> w <= n
    ensures Latest(t, ws, l, k, m) ==> NodeAt(t.versions[n].leaves, l, k) == NodeAt(t.versions[m].leaves, l, k)
    ensures NoneTouches(t, ws, l, k) ==> NodeAt(t.versions[n].leaves, l, k) == EmptyNode(l)
  {
    if Latest(t, ws, l, k, m) {
      NodeUntouched(t, m, n, l, k);
    }
    if NoneTouches(t, ws, l, k) {
      NodeUntouched(t, 0, n, l, k);
      InitialNode(t, l, k);
    }
  }

  // ----- the nodes a proof needs

  /** The number of the sibling at level l on the way up from leaf i; the root's own at the top. */
  function NeededNode(depth: nat, i: nat, l: nat): nat
    requires l <= depth
  {
    if l < depth then NodeNumber(depth, l, Sib(Shr(i, l))) else 1
  }

  function NeededNodes(depth: nat, i: nat): (nodes: seq<nat>)
    ensures |nodes| == depth + 1
  {
    seq(depth + 1, l requires 0 <= l <= depth => NeededNode(depth, i, l))
  }

  lemma NeededNodeRange(depth: nat, i: nat, l: nat)
    requires i < Pow2(depth) && l <= depth
    ensures Pow2(depth - l) <= NeededNode(depth, i, l) < 2 * Pow2(depth - l)
    ensures l < depth ==> Sib(Shr(i, l)) < Pow2(depth - l)
  {
    ShrBound(i, depth, l);
    if l < depth {
      SiblingNumber(depth, l, Shr(i, l));
    }
  }

  lemma NeededNodesDescend(depth: nat, i: nat, l: nat, m: nat)
    requires i < Pow2(depth) && l < m <= depth
    ensures NeededNode(depth, i, l) > NeededNode(depth, i, m)
  {
    NeededNodeRange(depth, i, l);
    NeededNodeRange(depth, i, m);
    Pow2Monotone(depth - m + 1, depth - l);
    assert Pow2(depth - m + 1) == 2 * Pow2(depth - m);
  }

  /** The nodes needed for the node at level b above leaf i: those of the leaf, from that level on. */
  function NeededFrom(depth: nat, i: nat, b: nat): (nodes: seq<nat>)
    requires b <= depth
    ensures |nodes| == depth + 1 - b
  {
    NeededNodes(depth, i)[b..]
  }

  /** Every number of the tree is that of a node above some leaf. */
  lemma NumberHasLeaf(depth: nat, n: nat) returns (i: nat, b: nat)
    requires 1 <= n < Pow2(depth + 1)
    ensures i < Pow2(depth) && b <= depth && n == NodeNumber(depth, b, Shr(i, b))
  {
    Log2Bounds(n);
    Log2Below(n, depth);
    b := depth - Log2(n);
    i := LeafBelow(depth, b, n - Pow2(Log2(n)));
  }

  lemma {:induction false} LeafBelow(depth: nat, b: nat, k: nat) returns (i: nat)
    requires b <= depth && k < Pow2(depth - b)
    ensures i < Pow2(depth) && Shr(i, b) == k
    decreases b
  {
    if b == 0 {
      i := k;
    } else {
      assert Pow2(depth - (b - 1)) == 2 * Pow2(depth - b);
      i := LeafBelow(depth, b - 1, 2 * k);
    }
  }

  /** `get_required_nodes_for_proof`: from the number of any node of the tree to the numbers of its
      siblings on the way up, and the root's. */
  method GetRequiredNodesForProof(index: nat, ghost depth: nat, ghost i: nat, ghost b: nat) returns (indexes: seq<nat>)
    requires i < Pow2(depth) && b <= depth && index == NodeNumber(depth, b, Shr(i, b))
    ensures indexes == NeededFrom(depth, i, b)
  {
    indexes := [];
    var idx := index;
    ghost var l := b;
    hide Shr, Sib, Pow2;
    while idx > 1
      invariant b <= l <= depth
      invariant idx == NodeNumber(depth, l, Shr(i, l))
      invariant indexes == NeededNodes(depth, i)[b..l]
      decreases idx
    {
      StepNumber(depth, i, l);
      indexes := indexes + [if idx % 2 == 0 then idx + 1 else idx - 1];
      idx := idx / 2;
      l := l + 1;
    }
    RootIsTop(depth, i, l);
    indexes := indexes + [1];
    assert indexes == NeededFrom(depth, i, b);
  }

  lemma StartNumber(depth: nat, i: nat)
    requires i < Pow2(depth)
    ensures Pow2(depth) + i == NodeNumber(depth, 0, Shr(i, 0))
  {
  }

  lemma StepNumber(depth: nat, i: nat, l: nat)
    requires i < Pow2(depth) && l <= depth && NodeNumber(depth, l, Shr(i, l)) > 1
    ensures l < depth
    ensures var n := NodeNumber(depth, l, Shr(i, l));
      && (if n % 2 == 0 then n + 1 else n - 1) == NeededNode(depth, i, l)
      && n / 2 == NodeNumber(depth, l + 1, Shr(i, l + 1))
  {
    RootIsTop(depth, i, l);
    ShrBound(i, depth, l);
    SiblingNumber(depth, l, Shr(i, l));
    assert Pow2(depth - l) == 2 * Pow2(depth - l - 1);
  }
}
