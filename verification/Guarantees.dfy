/** What callers of the concurrent tree may rely on, over all roots, proofs and runs. Everything here
    is about the plain versioned tree that the roll implements. */
module Guarantees {
  import opened Bits
  import opened Merkle
  import opened VersionedTree

  // ----- single calls

  /** A write that reports success replaced exactly the leaf it was shown, and returned the new root. */
  lemma SetLeafIsSound(t: Tree, root: Node, previousLeaf: Node, newLeaf: Node, proofVec: seq<Node>, index: nat)
    requires Wellformed(t)
    ensures var r := SetLeaf(t, root, previousLeaf, newLeaf, proofVec, index);
      && Wellformed(r.0)
      && (r.1.Ok? ==>
            && CurrentLeaf(t, index) == previousLeaf
            && Leaves(r.0) == Leaves(t)[Position(t, index) := newLeaf]
            && r.1.root == Root(Leaves(r.0), t.depth))
      && (!r.1.Ok? ==> r.0 == t)
  {
    if index <= t.next {
      WriteIsWellformed(t, index, newLeaf);
    }
  }

  /** A proof that is accepted proves the leaf is there now. */
  lemma ProveLeafIsSound(t: Tree, root: Node, leaf: Node, proofVec: seq<Node>, index: nat)
    requires Wellformed(t)
    ensures ProveLeaf(t, root, leaf, proofVec, index).Ok? ==> CurrentLeaf(t, index) == leaf
  {
  }

  lemma AppendIsSound(t: Tree, leaf: Node)
    requires Wellformed(t)
    ensures var r := Append(t, leaf);
      && Wellformed(r.0)
      && (r.1.Ok? <==> leaf != Empty && t.next < Pow2(t.depth))
      && (r.1.Ok? ==>
            && Leaves(t)[t.next] == Empty
            && Leaves(r.0) == Leaves(t)[t.next := leaf]
            && r.0.next == t.next + 1
            && r.1.root == Root(Leaves(r.0), t.depth))
      && (!r.1.Ok? ==> r.0 == t)
  {
    if t.next < Pow2(t.depth) {
      WriteIsWellformed(t, t.next, leaf);
      LowSmall(t.next, t.depth);
    }
  }

  /** Filling never overwrites: on success one leaf that was Empty, either the one asked for (on a full
      tree perhaps by an alias) or the next free one, holds the new value, and nothing else changed. */
  lemma FillNeverOverwrites(t: Tree, root: Node, leaf: Node, proofVec: seq<Node>, index: nat)
    requires Wellformed(t)
    ensures var r := FillEmptyOrAppend(t, root, leaf, proofVec, index);
      && Wellformed(r.0) && r.0.depth == t.depth
      && (!r.1.Ok? ==> r.0 == t)
      && (r.1.Ok? ==>
            exists p :: 0 <= p < Pow2(t.depth)
              && (p == t.next || (p == index % Pow2(t.depth) && (index < Pow2(t.depth) || t.next == Pow2(t.depth))))
              && Leaves(t)[p] == Empty
              && Leaves(r.0) == Leaves(t)[p := leaf])
  {
    LowIsMod(index, t.depth);
    if |proofVec| <= t.depth {
      var filled := TryApply(t, root, Empty, leaf, Completed(proofVec, t.depth), index, false);
      if filled.1 == Err(LeafContentsModified) {
        AppendIsSound(t, leaf);
      } else if filled.1.Ok? {
        WriteIsWellformed(t, index, leaf);
        assert Leaves(t)[Position(t, index)] == Empty;
      }
    }
  }

  // ----- stale proofs

  /** A sibling no write has touched is the same node in both versions. */
  lemma {:induction false} UntouchedSibling(t: Tree, from: nat, upto: nat, index: nat, l: nat)
    requires Wellformed(t)
    requires from <= upto < |t.versions|
    requires !SiblingTouched(t, from, upto, index, l)
    ensures SiblingAt(t.versions[upto].leaves, Position(t, index), l)
         == SiblingAt(t.versions[from].leaves, Position(t, index), l)
  {
    if from < upto {
      UntouchedSibling(t, from, upto - 1, index, l);
      assert WroteOneLeaf(t, upto);
      var p := Position(t, t.versions[upto].index);
      WriteKeepsSibling(t.versions[upto - 1].leaves, p, t.versions[upto].leaves[p], Position(t, index), l);
    }
  }

  /** A leaf no write has addressed is the same in both versions. */
  lemma {:induction false} UnwrittenLeaf(t: Tree, from: nat, upto: nat, index: nat)
    requires Wellformed(t)
    requires from <= upto < |t.versions|
    requires !LeafWritten(t, from, upto, index)
    ensures LeafAt(t.versions[upto].leaves, Position(t, index)) == LeafAt(t.versions[from].leaves, Position(t, index))
  {
    if from < upto {
      UnwrittenLeaf(t, from, upto - 1, index);
      assert WroteOneLeaf(t, upto);
    }
  }

  /** A root still in the window is found, possibly as a newer version with the same leaves. */
  lemma MatchHasSameLeaves(t: Tree, v: nat)
    requires Wellformed(t)
    requires Oldest(t) <= v <= Newest(t)
    ensures var m := NewestMatch(t, Root(t.versions[v].leaves, t.depth));
            v <= m <= Newest(t) && t.versions[m].leaves == t.versions[v].leaves
  {
    var m := NewestMatch(t, Root(t.versions[v].leaves, t.depth));
    assert Root(t.versions[v].leaves, t.depth) == Root(t.versions[m].leaves, t.depth);
    RootIsInjective(t.versions[v].leaves, t.versions[m].leaves, t.depth);
  }

  /** Every node of the proof is right for version v or right now. */
  ghost predicate MixedProof(t: Tree, v: nat, index: nat, proof: seq<Node>)
    requires v < |t.versions|
  {
    && |proof| == t.depth
    && forall l :: 0 <= l < t.depth ==>
         || proof[l] == SiblingAt(t.versions[v].leaves, Position(t, index), l)
         || proof[l] == SiblingAt(Leaves(t), Position(t, index), l)
  }

  /** The exact answer to a proof made against a version still in the window, even when some of its
      nodes are newer: it is accepted iff the leaf's value is what it was, also when it has changed
      and changed back in between. */
  lemma StaleProofVerdict(t: Tree, v: nat, index: nat, proof: seq<Node>, allowInferred: bool)
    requires Wellformed(t)
    requires Oldest(t) <= v <= Newest(t)
    requires MixedProof(t, v, index, proof)
    ensures var root, leaf := Root(t.versions[v].leaves, t.depth), LeafAt(t.versions[v].leaves, Position(t, index));
            var verdict := Judge(t, root, leaf, proof, index, allowInferred);
            if AliasWritten(t, NewestMatch(t, root), Newest(t), index) then verdict == Panic
            else if leaf == CurrentLeaf(t, index) then verdict == Accept
            else verdict == Reject(LeafContentsModified)
  {
    var root, leaf := Root(t.versions[v].leaves, t.depth), LeafAt(t.versions[v].leaves, Position(t, index));
    var m := NewestMatch(t, root);
    MatchHasSameLeaves(t, v);
    if !LeafWritten(t, m, Newest(t), index) {
      UnwrittenLeaf(t, m, Newest(t), index);
    }
    forall l | 0 <= l < t.depth && !SiblingTouched(t, m, Newest(t), index, l)
      ensures proof[l] == SiblingAt(Leaves(t), Position(t, index), l)
    {
      UntouchedSibling(t, m, Newest(t), index, l);
    }
  }

  lemma NoAliasPanic(t: Tree, from: int, index: nat)
    requires |t.versions| > 0
    requires NoAliases(t) && index < Pow2(t.depth)
    ensures !AliasWritten(t, from, Newest(t), index)
  {
    forall w | 0 <= w <= Newest(t)
      ensures !Alias(t.depth, t.versions[w].index, index)
    {
      LowSmall(t.versions[w].index, t.depth);
      LowSmall(index, t.depth);
    }
  }

  lemma CompleteProofIsItself(proof: seq<Node>)
    ensures Completed(proof, |proof|) == proof
  {
  }

  /** `set_leaf` with the leaf and proof of any version in the window, for every index and every tree. */
  lemma StaleSetLeafVerdict(t: Tree, v: nat, index: nat, proof: seq<Node>, newLeaf: Node)
    requires Wellformed(t)
    requires Oldest(t) <= v <= Newest(t)
    requires MixedProof(t, v, index, proof)
    ensures var root, p := Root(t.versions[v].leaves, t.depth), Position(t, index);
            var leaf := LeafAt(t.versions[v].leaves, p);
            var r := SetLeaf(t, root, leaf, newLeaf, proof, index);
      if index > t.next then r == (t, Err(LeafIndexOutOfBounds))
      else if AliasWritten(t, NewestMatch(t, root), Newest(t), index) then r == (t, Aborted)
      else if leaf == LeafAt(Leaves(t), p) then r.1.Ok? && Leaves(r.0) == Leaves(t)[p := newLeaf]
      else r == (t, Err(LeafContentsModified))
  {
    CompleteProofIsItself(proof);
    StaleProofVerdict(t, v, index, proof, true);
    SetLeafIsSound(t, Root(t.versions[v].leaves, t.depth), LeafAt(t.versions[v].leaves, Position(t, index)), newLeaf,
      proof, index);
  }

  /** The same where no alias has ever been used, as on every tree of the on-chain program. */
  lemma StaleSetLeafExact(t: Tree, v: nat, index: nat, proof: seq<Node>, newLeaf: Node)
    requires Wellformed(t)
    requires Oldest(t) <= v <= Newest(t)
    requires NoAliases(t) && index < Pow2(t.depth) && index <= t.next
    requires MixedProof(t, v, index, proof)
    ensures var root, leaf := Root(t.versions[v].leaves, t.depth), t.versions[v].leaves[index];
      && (leaf == Leaves(t)[index] ==>
            && SetLeaf(t, root, leaf, newLeaf, proof, index).1.Ok?
            && Leaves(SetLeaf(t, root, leaf, newLeaf, proof, index).0) == Leaves(t)[index := newLeaf])
      && (leaf != Leaves(t)[index] ==>
            SetLeaf(t, root, leaf, newLeaf, proof, index) == (t, Err(LeafContentsModified)))
  {
    LowSmall(index, t.depth);
    NoAliasPanic(t, NewestMatch(t, Root(t.versions[v].leaves, t.depth)), index);
    StaleSetLeafVerdict(t, v, index, proof, newLeaf);
  }

  /** A root that has left the window, or never was in it: the window is replayed from its oldest
      version, or, with a single version, that version's own write. The proof is accepted iff the leaf
      is current and the proof is right wherever none of the replayed writes reach. */
  lemma InferredProofExact(t: Tree, root: Node, leaf: Node, proof: seq<Node>, index: nat)
    requires Wellformed(t) && |proof| == t.depth
    requires NewestMatch(t, root) < 0
    ensures var from := if Oldest(t) < Newest(t) then Oldest(t) else Newest(t) - 1;
      && ((Judge(t, root, leaf, proof, index, true) == Accept)
          <==> (&& !AliasWritten(t, from, Newest(t), index)
                && leaf == CurrentLeaf(t, index)
                && forall l :: 0 <= l < t.depth && !SiblingTouched(t, from, Newest(t), index, l) ==>
                     proof[l] == SiblingAt(Leaves(t), Position(t, index), l)))
      && (NoAliases(t) && index < Pow2(t.depth) ==> !AliasWritten(t, from, Newest(t), index))
  {
    if NoAliases(t) && index < Pow2(t.depth) {
      NoAliasPanic(t, if Oldest(t) < Newest(t) then Oldest(t) else Newest(t) - 1, index);
    }
  }

  // ----- one writer too late

  /** The write of version v + 1 left the proof of leaf `index` good enough, or later writes did. */
  ghost predicate EvictedWriteHarmless(t: Tree, v: nat, index: nat)
    requires v + 1 < |t.versions|
  {
    forall c :: 0 <= c < t.depth && Meets(t.depth, t.versions[v + 1].index, index, c) ==>
      || SiblingTouched(t, v + 1, Newest(t), index, c)
      || SiblingAt(t.versions[v].leaves, index, c) == SiblingAt(Leaves(t), index, c)
  }

  /** Version v has just left the window, so that the write of its successor is no longer replayed. A
      proof from v is accepted iff its leaf has the old value and: the root came back within the
      window, or the window is a single slot, which is replayed after all, or the write not replayed
      was at the same leaf, or changed nothing on the proof, or was overtaken there by a later one. */
  lemma JustEvictedProofExact(t: Tree, v: nat, index: nat)
    requires Wellformed(t) && NoAliases(t) && index < Pow2(t.depth)
    requires v + 1 == Oldest(t)
    ensures var was := t.versions[v].leaves;
            var verdict := Judge(t, Root(was, t.depth), was[index], AuthPath(was, t.depth, index), index, true);
      && (verdict == Accept
          <==> (&& was[index] == Leaves(t)[index]
                && (|| NewestMatch(t, Root(was, t.depth)) >= 0
                    || Oldest(t) == Newest(t)
                    || EvictedWriteHarmless(t, v, index))))
      && (was[index] == Leaves(t)[index] && verdict != Accept ==> verdict == Reject(InvalidProof))
  {
    var was := t.versions[v].leaves;
    var root, proof := Root(was, t.depth), AuthPath(was, t.depth, index);
    var m := NewestMatch(t, root);
    LowSmall(index, t.depth);
    if m >= 0 {
      RootIsInjective(t.versions[m].leaves, was, t.depth);
      NoAliasPanic(t, m, index);
      StaleProofVerdict(t, m, index, proof, true);
    } else if was[index] == Leaves(t)[index] {
      NoAliasPanic(t, ReplayStart(t, root), index);
      if Oldest(t) == Newest(t) {
        ReplayedFromVersion(t, v, index);
      } else {
        EvictedProofHolds(t, v, index);
      }
    }
  }

  /** Replaying everything since v brings a proof of v up to date. */
  lemma ReplayedFromVersion(t: Tree, v: nat, index: nat)
    requires Wellformed(t) && v <= Newest(t) && index < Pow2(t.depth)
    ensures ProofHolds(t, v, AuthPath(t.versions[v].leaves, t.depth, index), index)
  {
    LowSmall(index, t.depth);
    forall l | 0 <= l < t.depth && !SiblingTouched(t, v, Newest(t), index, l)
      ensures SiblingAt(t.versions[v].leaves, index, l) == SiblingAt(Leaves(t), index, l)
    {
      UntouchedSibling(t, v, Newest(t), index, l);
    }
  }

  /** Replaying everything since v + 1 does so exactly if the write of v + 1 was harmless. */
  lemma EvictedProofHolds(t: Tree, v: nat, index: nat)
    requires Wellformed(t) && v + 1 <= Newest(t) && index < Pow2(t.depth)
    ensures ProofHolds(t, v + 1, AuthPath(t.versions[v].leaves, t.depth, index), index)
         <==> EvictedWriteHarmless(t, v, index)
  {
    LowSmall(index, t.depth);
    forall l | 0 <= l < t.depth && !Meets(t.depth, t.versions[v + 1].index, index, l)
      && !SiblingTouched(t, v + 1, Newest(t), index, l)
      ensures SiblingAt(t.versions[v].leaves, index, l) == SiblingAt(Leaves(t), index, l)
    {
      assert !SiblingTouched(t, v, Newest(t), index, l);
      UntouchedSibling(t, v, Newest(t), index, l);
    }
  }

  // ----- aliases

  /** On a full tree the bound on the index lets 2^depth through, and a write there replaces leaf 0. */
  lemma IndexPastTheEndWritesLeafZero(t: Tree, newLeaf: Node)
    requires Wellformed(t) && t.next == Pow2(t.depth)
    ensures var index, proof := Pow2(t.depth), AuthPath(Leaves(t), t.depth, 0);
            var r := SetLeaf(t, CurrentRoot(t), Leaves(t)[0], newLeaf, proof, index);
            r.1.Ok? && Leaves(r.0) == Leaves(t)[0 := newLeaf]
  {
    var index := Pow2(t.depth);
    LowIsMod(index, t.depth);
    ModUnique(index, Pow2(t.depth), 1, 0);
    CompleteProofIsItself(AuthPath(Leaves(t), t.depth, 0));
    CurrentProofAccepted(t, index, true);
  }

  /** Where a successful write lands: on the leaf named by its index, except for that one index. */
  lemma WriteLandsExactly(t: Tree, root: Node, previousLeaf: Node, newLeaf: Node, proofVec: seq<Node>, index: nat)
    requires Wellformed(t)
    ensures var r := SetLeaf(t, root, previousLeaf, newLeaf, proofVec, index);
            r.1.Ok? ==>
              if index < Pow2(t.depth) then Leaves(r.0) == Leaves(t)[index := newLeaf]
              else index == t.next == Pow2(t.depth) && Leaves(r.0) == Leaves(t)[0 := newLeaf]
  {
    if index < Pow2(t.depth) {
      LowSmall(index, t.depth);
    } else if index == Pow2(t.depth) {
      LowIsMod(index, t.depth);
      ModUnique(index, Pow2(t.depth), 1, 0);
    }
  }

  /** Where a successful fill lands: on the first free position, or on the leaf named by the index. A fill
      does not bound its index, so on a full tree every alias of an empty leaf fills that leaf. */
  lemma FillLandsExactly(t: Tree, root: Node, leaf: Node, proofVec: seq<Node>, index: nat)
    requires Wellformed(t)
    ensures var r := FillEmptyOrAppend(t, root, leaf, proofVec, index);
      r.1.Ok? ==>
        || (&& t.next < Pow2(t.depth) && r.0 == Write(t, t.next, leaf)
            && Leaves(t)[t.next] == Empty && Leaves(r.0) == Leaves(t)[t.next := leaf])
        || (&& r.0 == Write(t, index, leaf)
            && if index < Pow2(t.depth)
               then index <= t.next && Leaves(t)[index] == Empty && Leaves(r.0) == Leaves(t)[index := leaf]
               else var k := index % Pow2(t.depth);
                 t.next == Pow2(t.depth) && Leaves(t)[k] == Empty && Leaves(r.0) == Leaves(t)[k := leaf])
  {
    LowIsMod(index, t.depth);
    if index < Pow2(t.depth) {
      LowSmall(index, t.depth);
    }
    AppendIsSound(t, leaf);
  }

  /** And every such alias does: on a full tree, any index that stands for an empty leaf. */
  lemma AliasFillsEmptyLeaf(t: Tree, leaf: Node, index: nat)
    requires Wellformed(t) && t.next == Pow2(t.depth)
    requires Leaves(t)[index % Pow2(t.depth)] == Empty
    ensures var k := index % Pow2(t.depth);
            var r := FillEmptyOrAppend(t, CurrentRoot(t), leaf, AuthPath(Leaves(t), t.depth, k), index);
      r.1.Ok? && Leaves(r.0) == Leaves(t)[k := leaf]
  {
    LowIsMod(index, t.depth);
    CompleteProofIsItself(AuthPath(Leaves(t), t.depth, Position(t, index)));
    CurrentProofAccepted(t, index, false);
  }

  /** What a successful proof proves: the leaf named by its index, except for that one index. */
  lemma ProveLandsExactly(t: Tree, root: Node, leaf: Node, proofVec: seq<Node>, index: nat)
    requires Wellformed(t)
    ensures ProveLeaf(t, root, leaf, proofVec, index).Ok? ==>
      if index < Pow2(t.depth) then leaf == Leaves(t)[index]
      else index == t.next == Pow2(t.depth) && leaf == Leaves(t)[0]
  {
    if index < Pow2(t.depth) {
      LowSmall(index, t.depth);
    } else if index == Pow2(t.depth) {
      LowIsMod(index, t.depth);
      ModUnique(index, Pow2(t.depth), 1, 0);
    }
  }
}
