/** What every operation answers, in every case, said of the leaves. A refusal is as much part of the
    interface as a success: callers act on the error. */
module Answers {
  import opened Bits
  import opened Merkle
  import opened VersionedTree
  import opened Guarantees

  // ----- the three ways a proof can stand

  /** The writes after this version are replayed over a proof made against `root`. */
  ghost function ReplayedFrom(t: Tree, root: Node): int {
    var m := NewestMatch(t, root);
    if m >= 0 then m else if Oldest(t) < Newest(t) then Oldest(t) else Newest(t) - 1
  }

  /** A replayed write has changed the leaf to something else. */
  ghost predicate Outdated(t: Tree, from: int, index: nat, leaf: Node)
    requires |t.versions| > 0
  {
    LeafWritten(t, from, Newest(t), index) && leaf != LeafAt(Leaves(t), Low(index, t.depth))
  }

  /** The leaf is current, and so is the proof wherever no replayed write brings it up to date. */
  ghost predicate UpToDate(t: Tree, from: int, index: nat, leaf: Node, proof: seq<Node>)
    requires |t.versions| > 0 && |proof| == t.depth
  {
    && leaf == LeafAt(Leaves(t), Low(index, t.depth))
    && forall l :: 0 <= l < t.depth && !SiblingTouched(t, from, Newest(t), index, l) ==>
         proof[l] == SiblingAt(Leaves(t), Low(index, t.depth), l)
  }

  /** The tree after a write, and its answer. */
  ghost predicate Wrote(t: Tree, index: nat, x: Node, t': Tree, outcome: Outcome)
    requires |t.versions| > 0 && |Leaves(t)| == Pow2(t.depth)
  {
    var leaves := Leaves(t)[Low(index, t.depth) := x];
    && t' == Tree(t.depth, t.capacity, t.versions + [Version(leaves, index)],
                  if index == t.next < Pow2(t.depth) then t.next + 1 else t.next)
    && outcome == Ok(NodeAt(leaves, t.depth, 0))
  }

  // ----- every answer of every operation

  lemma SetLeafAnswers(t: Tree, root: Node, previousLeaf: Node, newLeaf: Node, proofVec: seq<Node>, index: nat)
    requires Wellformed(t)
    ensures var (t', answer) := SetLeaf(t, root, previousLeaf, newLeaf, proofVec, index);
            var from := ReplayedFrom(t, root);
      && (!answer.Ok? ==> t' == t)
      && if index > t.next then answer == Err(LeafIndexOutOfBounds)
         else if |proofVec| > t.depth then answer == Aborted
         else if AliasWritten(t, from, Newest(t), index) then answer == Aborted
         else if Outdated(t, from, index, previousLeaf) then answer == Err(LeafContentsModified)
         else if UpToDate(t, from, index, previousLeaf, Completed(proofVec, t.depth))
         then Wrote(t, index, newLeaf, t', answer)
         else answer == Err(InvalidProof)
  {
  }

  lemma ProveLeafAnswers(t: Tree, root: Node, leaf: Node, proofVec: seq<Node>, index: nat)
    requires Wellformed(t)
    ensures var answer, from := ProveLeaf(t, root, leaf, proofVec, index), ReplayedFrom(t, root);
      if index > t.next then answer == Err(LeafIndexOutOfBounds)
      else if |proofVec| > t.depth then answer == Aborted
      else if AliasWritten(t, from, Newest(t), index) then answer == Aborted
      else if Outdated(t, from, index, leaf) then answer == Err(LeafContentsModified)
      else if UpToDate(t, from, index, leaf, Completed(proofVec, t.depth)) then answer == Ok(Empty)
      else answer == Err(InvalidProof)
  {
  }

  lemma AppendAnswers(t: Tree, leaf: Node)
    requires Wellformed(t)
    ensures var (t', answer) := Append(t, leaf);
      if leaf == Empty then (t', answer) == (t, Err(CannotAppendEmptyNode))
      else if t.next == Pow2(t.depth) then (t', answer) == (t, Err(TreeFull))
      else Leaves(t)[t.next] == Empty && Wrote(t, t.next, leaf, t', answer)
  {
    AppendIsSound(t, leaf);
  }

  /** Of all refusals, only a leaf that has been taken makes a fill append. */
  lemma FillAnswers(t: Tree, root: Node, leaf: Node, proofVec: seq<Node>, index: nat)
    requires Wellformed(t)
    ensures var (t', answer) := FillEmptyOrAppend(t, root, leaf, proofVec, index);
            var m := NewestMatch(t, root);
      && (!answer.Ok? ==> t' == t)
      && if |proofVec| > t.depth then answer == Aborted
         else if m < 0 then answer == Err(RootNotFound)
         else if AliasWritten(t, m, Newest(t), index) then answer == Aborted
         else if Outdated(t, m, index, Empty) then
           if leaf == Empty then answer == Err(CannotAppendEmptyNode)
           else if t.next == Pow2(t.depth) then answer == Err(TreeFull)
           else Wrote(t, t.next, leaf, t', answer)
         else if !UpToDate(t, m, index, Empty, Completed(proofVec, t.depth)) then answer == Err(InvalidProof)
         else if index > t.next && t.next < Pow2(t.depth) then answer == Aborted
         else Wrote(t, index, leaf, t', answer)
  {
    AppendAnswers(t, leaf);
  }

  // ----- callers who have seen some version in the window

  /** `prove_leaf` with the leaf and proof of any version in the window. */
  lemma StaleProveLeafVerdict(t: Tree, v: nat, index: nat, proof: seq<Node>)
    requires Wellformed(t)
    requires Oldest(t) <= v <= Newest(t)
    requires MixedProof(t, v, index, proof)
    ensures var root, p := Root(t.versions[v].leaves, t.depth), Position(t, index);
            var leaf := LeafAt(t.versions[v].leaves, p);
            var answer := ProveLeaf(t, root, leaf, proof, index);
      if index > t.next then answer == Err(LeafIndexOutOfBounds)
      else if AliasWritten(t, NewestMatch(t, root), Newest(t), index) then answer == Aborted
      else if leaf == LeafAt(Leaves(t), p) then answer == Ok(Empty)
      else answer == Err(LeafContentsModified)
  {
    CompleteProofIsItself(proof);
    StaleProofVerdict(t, v, index, proof, true);
  }

  /** `prove_leaf` with a root that is in no version of the window. */
  lemma InferredProveLeafExact(t: Tree, root: Node, leaf: Node, proof: seq<Node>, index: nat)
    requires Wellformed(t) && NoAliases(t) && |proof| == t.depth
    requires NewestMatch(t, root) < 0 && index < Pow2(t.depth) && index <= t.next
    ensures var from := if Oldest(t) < Newest(t) then Oldest(t) else Newest(t) - 1;
            var answer := ProveLeaf(t, root, leaf, proof, index);
      && (answer == Ok(Empty)
          <==> (&& leaf == Leaves(t)[index]
                && forall l :: 0 <= l < t.depth && !SiblingTouched(t, from, Newest(t), index, l) ==>
                     proof[l] == SiblingAt(Leaves(t), index, l)))
      && (answer != Ok(Empty) ==>
            answer == if LeafWritten(t, from, Newest(t), index) && leaf != Leaves(t)[index]
                      then Err(LeafContentsModified) else Err(InvalidProof))
  {
    LowSmall(index, t.depth);
    CompleteProofIsItself(proof);
    InferredProofExact(t, root, leaf, proof, index);
    ProveLeafAnswers(t, root, leaf, proof, index);
  }

  /** `set_leaf` with such a root: the same condition, and which error it is. */
  lemma InferredSetLeafExact(t: Tree, root: Node, previousLeaf: Node, newLeaf: Node, proof: seq<Node>, index: nat)
    requires Wellformed(t) && NoAliases(t) && |proof| == t.depth
    requires NewestMatch(t, root) < 0 && index < Pow2(t.depth) && index <= t.next
    ensures var from := if Oldest(t) < Newest(t) then Oldest(t) else Newest(t) - 1;
            var (t', answer) := SetLeaf(t, root, previousLeaf, newLeaf, proof, index);
      && (answer.Ok?
          <==> (&& previousLeaf == Leaves(t)[index]
                && forall l :: 0 <= l < t.depth && !SiblingTouched(t, from, Newest(t), index, l) ==>
                     proof[l] == SiblingAt(Leaves(t), index, l)))
      && (answer.Ok? ==> Leaves(t') == Leaves(t)[index := newLeaf])
      && (!answer.Ok? ==>
            && t' == t
            && answer == if LeafWritten(t, from, Newest(t), index) && previousLeaf != Leaves(t)[index]
                         then Err(LeafContentsModified) else Err(InvalidProof))
  {
    LowSmall(index, t.depth);
    CompleteProofIsItself(proof);
    InferredProofExact(t, root, previousLeaf, proof, index);
    SetLeafAnswers(t, root, previousLeaf, newLeaf, proof, index);
  }

  /** A fill with a root that is in no version of the window. */
  lemma UnknownRootIsNotFilled(t: Tree, root: Node, leaf: Node, proofVec: seq<Node>, index: nat)
    requires Wellformed(t)
    requires forall v :: Oldest(t) <= v <= Newest(t) ==> Root(t.versions[v].leaves, t.depth) != root
    ensures FillEmptyOrAppend(t, root, leaf, proofVec, index)
         == (t, if |proofVec| > t.depth then Aborted else Err(RootNotFound))
  {
    FillAnswers(t, root, leaf, proofVec, index);
  }

  /** A leaf that was taken before the caller looked, and not written since: an invalid proof, and no
      append. */
  lemma TakenLeafIsNotFilled(t: Tree, v: nat, leaf: Node, proofVec: seq<Node>, index: nat)
    requires Wellformed(t) && Oldest(t) <= v <= Newest(t) && |proofVec| <= t.depth
    requires LeafAt(t.versions[v].leaves, Position(t, index)) != Empty
    requires !LeafWritten(t, v, Newest(t), index)
    ensures FillEmptyOrAppend(t, Root(t.versions[v].leaves, t.depth), leaf, proofVec, index) == (t, Err(InvalidProof))
  {
    var root := Root(t.versions[v].leaves, t.depth);
    MatchHasSameLeaves(t, v);
    UnwrittenLeaf(t, v, Newest(t), index);
    FillAnswers(t, root, leaf, proofVec, index);
  }

  /** A fill with the proof of any version in the window: filled, appended, aborted or refused. */
  lemma StaleFillVerdict(t: Tree, v: nat, index: nat, proof: seq<Node>, leaf: Node)
    requires Wellformed(t)
    requires Oldest(t) <= v <= Newest(t)
    requires MixedProof(t, v, index, proof)
    ensures var root, p := Root(t.versions[v].leaves, t.depth), Position(t, index);
            var m := NewestMatch(t, root);
            var (t', answer) := FillEmptyOrAppend(t, root, leaf, proof, index);
      if AliasWritten(t, m, Newest(t), index) then (t', answer) == (t, Aborted)
      else if LeafAt(Leaves(t), p) == Empty then
        if index > t.next && t.next < Pow2(t.depth) then (t', answer) == (t, Aborted)
        else Wrote(t, index, leaf, t', answer)
      else if !LeafWritten(t, m, Newest(t), index) then (t', answer) == (t, Err(InvalidProof))
      else if leaf == Empty then (t', answer) == (t, Err(CannotAppendEmptyNode))
      else if t.next == Pow2(t.depth) then (t', answer) == (t, Err(TreeFull))
      else Wrote(t, t.next, leaf, t', answer)
  {
    var root := Root(t.versions[v].leaves, t.depth);
    MatchHasSameLeaves(t, v);
    CompleteProofIsItself(proof);
    StaleProofIsUpToDate(t, v, index, proof);
    FillAnswers(t, root, leaf, proof, index);
  }

  lemma StaleProofIsUpToDate(t: Tree, v: nat, index: nat, proof: seq<Node>)
    requires Wellformed(t)
    requires Oldest(t) <= v <= Newest(t)
    requires MixedProof(t, v, index, proof)
    ensures var m := NewestMatch(t, Root(t.versions[v].leaves, t.depth));
      m >= 0 && UpToDate(t, m, index, LeafAt(Leaves(t), Low(index, t.depth)), proof)
  {
    var m := NewestMatch(t, Root(t.versions[v].leaves, t.depth));
    MatchHasSameLeaves(t, v);
    forall l | 0 <= l < t.depth && !SiblingTouched(t, m, Newest(t), index, l)
      ensures proof[l] == SiblingAt(Leaves(t), Position(t, index), l)
    {
      UntouchedSibling(t, m, Newest(t), index, l);
    }
  }

  // ----- short proofs

  /** Filling a cut proof up restores it exactly if everything cut off was an empty node. */
  lemma CutProofRestored(leaves: seq<Node>, depth: nat, index: nat, k: nat)
    requires k <= depth
    ensures Completed(AuthPath(leaves, depth, index)[..k], depth) == AuthPath(leaves, depth, index)
       <==> forall l :: k <= l < depth ==> SiblingAt(leaves, index, l) == EmptyNode(l)
  {
    var cut, path := Completed(AuthPath(leaves, depth, index)[..k], depth), AuthPath(leaves, depth, index);
    forall l | 0 <= l < depth
      ensures cut[l] == path[l] <==> l < k || SiblingAt(leaves, index, l) == EmptyNode(l)
    {
    }
    if forall l :: k <= l < depth ==> SiblingAt(leaves, index, l) == EmptyNode(l) {
      assert cut == path;
    }
  }

  /** So the first k nodes of a current proof are accepted if and only if the rest are empty nodes. */
  lemma CutProofAccepted(t: Tree, index: nat, k: nat)
    requires Wellformed(t) && index < Pow2(t.depth) && index <= t.next && k <= t.depth
    ensures var cut := AuthPath(Leaves(t), t.depth, index)[..k];
      ProveLeaf(t, CurrentRoot(t), Leaves(t)[index], cut, index)
      == if forall l :: k <= l < t.depth ==> SiblingAt(Leaves(t), index, l) == EmptyNode(l) then Ok(Empty)
         else Err(InvalidProof)
  {
    var cut := AuthPath(Leaves(t), t.depth, index)[..k];
    LowSmall(index, t.depth);
    CutProofRestored(Leaves(t), t.depth, index, k);
    MatchHasSameLeaves(t, Newest(t));
    assert ReplayedFrom(t, CurrentRoot(t)) == Newest(t);
    ProveLeafAnswers(t, CurrentRoot(t), Leaves(t)[index], cut, index);
    UpToDateNow(t, index, Completed(cut, t.depth));
  }

  lemma UpToDateNow(t: Tree, index: nat, proof: seq<Node>)
    requires |t.versions| > 0 && |proof| == t.depth && index < Pow2(t.depth)
    ensures UpToDate(t, Newest(t), index, LeafAt(Leaves(t), index), proof)
       <==> proof == AuthPath(Leaves(t), t.depth, index)
  {
    LowSmall(index, t.depth);
    var path := AuthPath(Leaves(t), t.depth, index);
    assert forall l :: 0 <= l < t.depth ==> !SiblingTouched(t, Newest(t), Newest(t), index, l);
    if UpToDate(t, Newest(t), index, LeafAt(Leaves(t), index), proof) {
      assert forall l :: 0 <= l < t.depth ==> proof[l] == path[l];
    }
  }
}
