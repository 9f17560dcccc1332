/** The concurrency guarantee: how many writers may start from one root, and why not more. Writers are
    instructions on a tree with `levels` cached levels: they bring only the lower nodes of their proof.
    With no cached level they are the library's own writes. */
module Concurrency {
  import opened Bits
  import opened Merkle
  import opened VersionedTree
  import opened Guarantees
  import opened Gummyrolls

  datatype Replacement = Replacement(index: nat, newLeaf: Node)

  /** `replace_leaf` on t, by a writer who has last seen the tree as t0. */
  ghost function ReplaceSeeing(t0: Tree, levels: nat, t: Tree, r: Replacement): (Tree, Result)
    requires Wellformed(t0) && Wellformed(t) && t.depth == t0.depth && r.index < Pow2(t0.depth) && levels <= t0.depth
  {
    LeafReplaced(t, levels, CurrentRoot(t0), Leaves(t0)[r.index], r.newLeaf,
                 AuthPath(Leaves(t0), t0.depth, r.index)[..t0.depth - levels], r.index)
  }

  /** Without cached levels an instruction is the library's operation. */
  lemma WithoutCanopy(t: Tree, root: Node, previousLeaf: Node, newLeaf: Node, proof: seq<Node>, index: nat)
    requires Wellformed(t) && index < Pow2(t.depth)
    ensures |SetLeaf(t, root, previousLeaf, newLeaf, proof, index).0.versions| > 0
    ensures |FillEmptyOrAppend(t, root, newLeaf, proof, index).0.versions| > 0
    ensures LeafReplaced(t, 0, root, previousLeaf, newLeaf, proof, index)
         == Conclude(t, SetLeaf(t, root, previousLeaf, newLeaf, proof, index))
    ensures LeafInserted(t, 0, root, newLeaf, proof, index)
         == Conclude(t, FillEmptyOrAppend(t, root, newLeaf, proof, index))
  {
    SetLeafIsSound(t, root, previousLeaf, newLeaf, proof, index);
    FillNeverOverwrites(t, root, newLeaf, proof, index);
    assert CompletedFromCanopy(t, 0, proof, index) == proof;
  }

  ghost predicate InRange(t0: Tree, rs: seq<Replacement>) {
    forall k :: 0 <= k < |rs| ==> rs[k].index < Pow2(t0.depth) && rs[k].index <= t0.next
  }

  ghost predicate Distinct(rs: seq<Replacement>) {
    forall j, k :: 0 <= j < k < |rs| ==> rs[j].index != rs[k].index
  }

  /** The tree after the writers have had their turn, in the order of rs. */
  ghost function AfterAll(t0: Tree, levels: nat, rs: seq<Replacement>): (t: Tree)
    requires Wellformed(t0) && InRange(t0, rs) && levels <= t0.depth
    ensures Wellformed(t) && t.depth == t0.depth
  {
    if |rs| == 0 then t0
    else
      var r, t := rs[|rs| - 1], AfterAll(t0, levels, rs[..|rs| - 1]);
      ReplaceKeepsShape(t0, levels, t, r);
      ReplaceSeeing(t0, levels, t, r).0
  }

  lemma ReplaceKeepsShape(t0: Tree, levels: nat, t: Tree, r: Replacement)
    requires Wellformed(t0) && Wellformed(t) && t.depth == t0.depth && r.index < Pow2(t0.depth) && levels <= t0.depth
    ensures var t' := ReplaceSeeing(t0, levels, t, r).0;
      Wellformed(t') && t'.depth == t.depth
  {
    var lower := AuthPath(Leaves(t0), t0.depth, r.index)[..t0.depth - levels];
    SetLeafIsSound(t, CurrentRoot(t0), Leaves(t0)[r.index], r.newLeaf, CompletedFromCanopy(t, levels, lower, r.index),
      r.index);
  }

  /** Every writer succeeds. */
  ghost predicate AllSucceed(t0: Tree, levels: nat, rs: seq<Replacement>)
    requires Wellformed(t0) && InRange(t0, rs) && levels <= t0.depth
  {
    |rs| > 0 ==>
      && AllSucceed(t0, levels, rs[..|rs| - 1])
      && ReplaceSeeing(t0, levels, AfterAll(t0, levels, rs[..|rs| - 1]), rs[|rs| - 1]).1.Success?
  }

  /** `after` is `before` with all the replacements made at once. */
  ghost predicate SimultaneousUpdate(before: seq<Node>, rs: seq<Replacement>, after: seq<Node>) {
    && |after| == |before|
    && (forall k :: 0 <= k < |rs| ==> rs[k].index < |after| && after[rs[k].index] == rs[k].newLeaf)
    && (forall i :: 0 <= i < |after| && (forall k :: 0 <= k < |rs| ==> rs[k].index != i) ==> after[i] == before[i])
  }

  /** The versions since t0 are exactly the replacements. */
  ghost predicate Extends(t0: Tree, rs: seq<Replacement>, t: Tree) {
    && t.depth == t0.depth && t.capacity == t0.capacity && t.next >= t0.next
    && |t.versions| == |t0.versions| + |rs|
    && (forall w :: 0 <= w < |t0.versions| ==> t.versions[w] == t0.versions[w])
    && (forall w :: |t0.versions| <= w < |t.versions| ==> t.versions[w].index == rs[w - |t0.versions|].index)
  }

  /** One more writer with an index of its own, while t0 is still in the window. */
  lemma NextWriterSucceeds(t0: Tree, levels: nat, rs: seq<Replacement>, t: Tree, r: Replacement)
    requires Wellformed(t0) && Wellformed(t) && Extends(t0, rs, t) && levels <= t0.depth
    requires |rs| < t0.capacity
    requires InRange(t0, rs) && r.index < Pow2(t0.depth) && r.index <= t0.next
    requires forall k :: 0 <= k < |rs| ==> rs[k].index != r.index
    requires SimultaneousUpdate(Leaves(t0), rs, Leaves(t))
    ensures var r' := ReplaceSeeing(t0, levels, t, r);
      r'.1.Success? && Extends(t0, rs + [r], r'.0) && SimultaneousUpdate(Leaves(t0), rs + [r], Leaves(r'.0))
  {
    hide CompletedFromCanopy, SetLeaf, SimultaneousUpdate, InRange;
    NextWriterAccepted(t0, levels, rs, t, r);
    LowSmall(r.index, t.depth);
    WriteIsWellformed(t, r.index, r.newLeaf);
    SimultaneousStep(Leaves(t0), rs, Leaves(t), r);
  }

  lemma NextWriterAccepted(t0: Tree, levels: nat, rs: seq<Replacement>, t: Tree, r: Replacement)
    requires Wellformed(t0) && Wellformed(t) && Extends(t0, rs, t) && levels <= t0.depth
    requires |rs| < t0.capacity
    requires InRange(t0, rs) && r.index < Pow2(t0.depth) && r.index <= t0.next
    requires forall k :: 0 <= k < |rs| ==> rs[k].index != r.index
    requires SimultaneousUpdate(Leaves(t0), rs, Leaves(t))
    ensures var t' := Write(t, r.index, r.newLeaf);
            var proof := CompletedFromCanopy(t, levels, AuthPath(Leaves(t0), t0.depth, r.index)[..t0.depth - levels],
                           r.index);
      SetLeaf(t, CurrentRoot(t0), Leaves(t0)[r.index], r.newLeaf, proof, r.index) == (t', Ok(CurrentRoot(t')))
  {
    var v, index := Newest(t0), r.index;
    var proof := CompletedFromCanopy(t, levels, AuthPath(Leaves(t0), t0.depth, index)[..t0.depth - levels], index);
    LowSmall(index, t.depth);
    assert t.versions[v] == t0.versions[v];
    assert Leaves(t)[index] == Leaves(t0)[index];
    assert Oldest(t) <= v <= Newest(t);
    assert index <= t.next;
    var m := NewestMatch(t, CurrentRoot(t0));
    MatchHasSameLeaves(t, v);
    NotAliased(t0, rs, t, m, index);
    hide Extends, InRange, SimultaneousUpdate, CompletedFromCanopy;
    MixtureIsMixed(t, levels, v, index);
    StaleProofVerdict(t, v, index, proof, true);
    CompleteProofIsItself(proof);
  }

  lemma NotAliased(t0: Tree, rs: seq<Replacement>, t: Tree, m: int, index: nat)
    requires |t0.versions| > 0 && Extends(t0, rs, t) && InRange(t0, rs) && index < Pow2(t.depth)
    requires Newest(t0) <= m
    ensures !AliasWritten(t, m, Newest(t), index)
  {
    LowSmall(index, t.depth);
    forall w | 0 <= w <= Newest(t) && m < w
      ensures !Alias(t.depth, t.versions[w].index, index)
    {
      assert t.versions[w].index == rs[w - |t0.versions|].index;
      LowSmall(t.versions[w].index, t.depth);
    }
  }

  lemma SimultaneousStep(before: seq<Node>, rs: seq<Replacement>, now: seq<Node>, r: Replacement)
    requires SimultaneousUpdate(before, rs, now) && r.index < |now|
    requires forall k :: 0 <= k < |rs| ==> rs[k].index != r.index
    ensures SimultaneousUpdate(before, rs + [r], now[r.index := r.newLeaf])
  {
    var rs' := rs + [r];
    assert rs'[|rs|] == r;
    forall i | 0 <= i < |now| && (forall k :: 0 <= k < |rs'| ==> rs'[k].index != i)
      ensures now[r.index := r.newLeaf][i] == before[i]
    {
      assert forall k :: 0 <= k < |rs| ==> rs[k] == rs'[k];
    }
  }

  lemma NobodyWrites(t0: Tree)
    requires Wellformed(t0)
    ensures Extends(t0, [], t0) && SimultaneousUpdate(Leaves(t0), [], Leaves(t0))
  {
  }

  /** Up to `capacity` writers who have all seen the same tree, each writing a leaf of its own, all
      succeed one after the other, and the result is their simultaneous update. */
  lemma {:induction false} WritersFromOneRootAllSucceed(t0: Tree, levels: nat, rs: seq<Replacement>)
    requires Wellformed(t0) && levels <= t0.depth && InRange(t0, rs) && Distinct(rs)
    requires |rs| <= t0.capacity
    ensures AllSucceed(t0, levels, rs)
    ensures Extends(t0, rs, AfterAll(t0, levels, rs))
    ensures SimultaneousUpdate(Leaves(t0), rs, Leaves(AfterAll(t0, levels, rs)))
  {
    hide Wellformed, Extends, SimultaneousUpdate, ReplaceSeeing;
    if |rs| == 0 {
      assert rs == [];
      NobodyWrites(t0);
    } else {
      var front, r := rs[..|rs| - 1], rs[|rs| - 1];
      WritersFromOneRootAllSucceed(t0, levels, front);
      NextWriterSucceeds(t0, levels, front, AfterAll(t0, levels, front), r);
      SplitLast(rs);
    }
  }

  /** The order in which they are served makes no difference to the leaves. */
  lemma OrderOfWritersIsIrrelevant(t0: Tree, levels: nat, rs: seq<Replacement>, rs': seq<Replacement>)
    requires Wellformed(t0) && levels <= t0.depth
    requires InRange(t0, rs) && InRange(t0, rs') && Distinct(rs) && Distinct(rs')
    requires |rs| <= t0.capacity && |rs'| <= t0.capacity
    requires forall r :: r in rs <==> r in rs'
    ensures Leaves(AfterAll(t0, levels, rs)) == Leaves(AfterAll(t0, levels, rs'))
  {
    WritersFromOneRootAllSucceed(t0, levels, rs);
    WritersFromOneRootAllSucceed(t0, levels, rs');
    SameUpdate(Leaves(t0), rs, Leaves(AfterAll(t0, levels, rs)), rs', Leaves(AfterAll(t0, levels, rs')));
  }

  lemma SameUpdate(before: seq<Node>, rs: seq<Replacement>, after: seq<Node>, rs': seq<Replacement>, after': seq<Node>)
    requires SimultaneousUpdate(before, rs, after) && SimultaneousUpdate(before, rs', after')
    requires forall r :: r in rs <==> r in rs'
    ensures after == after'
  {
    forall i | 0 <= i < |after|
      ensures after[i] == after'[i]
    {
      if k :| 0 <= k < |rs| && rs[k].index == i {
        assert rs[k] in rs';
        var k' :| 0 <= k' < |rs'| && rs'[k'] == rs[k];
      } else {
        forall k' | 0 <= k' < |rs'|
          ensures rs'[k'].index != i
        {
          assert rs'[k'] in rs;
        }
      }
    }
  }

  // ----- one writer more

  /** Replacing a leaf with an up-to-date root and proof. */
  ghost function ReplaceNow(t: Tree, r: Replacement): (Tree, Outcome)
    requires Wellformed(t) && r.index < Pow2(t.depth)
  {
    SetLeaf(t, CurrentRoot(t), Leaves(t)[r.index], r.newLeaf, AuthPath(Leaves(t), t.depth, r.index), r.index)
  }

  lemma ReplaceNowSucceeds(t: Tree, r: Replacement)
    requires Wellformed(t) && r.index < Pow2(t.depth) && r.index <= t.next
    ensures ReplaceNow(t, r).0 == Write(t, r.index, r.newLeaf) && ReplaceNow(t, r).1.Ok?
    ensures Wellformed(Write(t, r.index, r.newLeaf))
    ensures Leaves(Write(t, r.index, r.newLeaf)) == Leaves(t)[r.index := r.newLeaf]
  {
    LowSmall(r.index, t.depth);
    CompleteProofIsItself(AuthPath(Leaves(t), t.depth, r.index));
    CurrentProofAccepted(t, r.index, true);
    WriteIsWellformed(t, r.index, r.newLeaf);
  }

  /** The tree after leaf 1 became x and then leaf 2 was replaced k times. */
  ghost function Hammered(t0: Tree, x: Node, y: Node, k: nat): (t: Tree)
    requires Wellformed(t0) && t0.depth >= 2 && t0.next == Pow2(t0.depth) && NoAliases(t0)
    ensures Wellformed(t) && t.depth == t0.depth && t.next == Pow2(t0.depth) && t.capacity == t0.capacity
  {
    assert Pow2(t0.depth) >= 4 by { Pow2Monotone(2, t0.depth); assert Pow2(2) == 4; }
    if k == 0 then
      ReplaceNowSucceeds(t0, Replacement(1, x));
      ReplaceNow(t0, Replacement(1, x)).0
    else
      ReplaceNowSucceeds(Hammered(t0, x, y, k - 1), Replacement(2, y));
      ReplaceNow(Hammered(t0, x, y, k - 1), Replacement(2, y)).0
  }

  /** t is t0 after leaf 1 became x and then leaf 2 was replaced k times. */
  ghost predicate HammeredShape(t0: Tree, x: Node, k: nat, t: Tree)
    requires |t0.versions| > 0
  {
    && t.depth == t0.depth && t.capacity == t0.capacity
    && |t.versions| == |t0.versions| + k + 1
    && |Leaves(t)| == |Leaves(t0)| >= 4
    && NoAliases(t)
    && t.versions[Newest(t0)] == t0.versions[Newest(t0)]
    && t.versions[|t0.versions|].index == 1
    && (forall w :: |t0.versions| < w < |t.versions| ==> t.versions[w].index == 2)
    && (forall w :: |t0.versions| <= w < |t.versions| ==> |t.versions[w].leaves| >= 4 && t.versions[w].leaves[1] == x)
    && Leaves(t)[0] == Leaves(t0)[0]
  }

  lemma AtLeastFourLeaves(t: Tree)
    requires Wellformed(t) && t.depth >= 2
    ensures |Leaves(t)| == Pow2(t.depth) >= 4
  {
    Pow2Monotone(2, t.depth);
    assert Pow2(2) == 4;
  }

  lemma HammeredStart(t0: Tree, x: Node)
    requires Wellformed(t0) && t0.depth >= 2 && NoAliases(t0)
    ensures |Leaves(t0)| >= 4 && HammeredShape(t0, x, 0, Write(t0, 1, x))
  {
    AtLeastFourLeaves(t0);
    LowSmall(1, t0.depth);
  }

  lemma HammeredStep(t0: Tree, x: Node, y: Node, k: nat, t: Tree)
    requires Wellformed(t) && |t0.versions| > 0 && t.depth >= 2 && HammeredShape(t0, x, k, t)
    ensures |Leaves(t)| >= 4 && HammeredShape(t0, x, k + 1, Write(t, 2, y))
  {
    AtLeastFourLeaves(t);
    LowSmall(2, t.depth);
  }

  lemma HammeredUnfolds(t0: Tree, x: Node, y: Node, k: nat)
    requires Wellformed(t0) && t0.depth >= 2 && t0.next == Pow2(t0.depth) && NoAliases(t0)
    ensures k == 0 ==> Hammered(t0, x, y, k) == Write(t0, 1, x)
    ensures k > 0 ==> Hammered(t0, x, y, k) == Write(Hammered(t0, x, y, k - 1), 2, y)
  {
    AtLeastFourLeaves(t0);
    if k == 0 {
      ReplaceNowSucceeds(t0, Replacement(1, x));
    } else {
      ReplaceNowSucceeds(Hammered(t0, x, y, k - 1), Replacement(2, y));
    }
  }

  lemma HammeredZero(t0: Tree, x: Node, y: Node)
    requires Wellformed(t0) && t0.depth >= 2 && t0.next == Pow2(t0.depth) && NoAliases(t0)
    ensures HammeredShape(t0, x, 0, Hammered(t0, x, y, 0))
  {
    HammeredUnfolds(t0, x, y, 0);
    hide HammeredShape;
    HammeredStart(t0, x);
  }

  lemma HammeredMore(t0: Tree, x: Node, y: Node, k: nat)
    requires Wellformed(t0) && t0.depth >= 2 && t0.next == Pow2(t0.depth) && NoAliases(t0)
    requires HammeredShape(t0, x, k, Hammered(t0, x, y, k))
    ensures HammeredShape(t0, x, k + 1, Hammered(t0, x, y, k + 1))
  {
    HammeredUnfolds(t0, x, y, k + 1);
    var t := Hammered(t0, x, y, k);
    hide HammeredShape, Write;
    HammeredStep(t0, x, y, k, t);
  }

  lemma {:induction false} HammeredHasShape(t0: Tree, x: Node, y: Node, k: nat)
    requires Wellformed(t0) && t0.depth >= 2 && t0.next == Pow2(t0.depth) && NoAliases(t0)
    ensures HammeredShape(t0, x, k, Hammered(t0, x, y, k))
  {
    hide HammeredShape, Hammered;
    if k == 0 {
      HammeredZero(t0, x, y);
    } else {
      HammeredHasShape(t0, x, y, k - 1);
      HammeredMore(t0, x, y, k - 1);
    }
  }

  /** The root everybody started from is gone for good once leaf 1 differs. */
  lemma OldRootIsGone(t0: Tree, x: Node, k: nat, t: Tree)
    requires Wellformed(t0) && Wellformed(t) && t0.depth >= 2 && HammeredShape(t0, x, k, t)
    requires x != Leaves(t0)[1] && Oldest(t) == |t0.versions|
    ensures NewestMatch(t, CurrentRoot(t0)) == -1
  {
    var m := NewestMatch(t, CurrentRoot(t0));
    if m >= 0 {
      assert t.versions[m].leaves[1] == x;
      RootIsInjective(t.versions[m].leaves, Leaves(t0), t0.depth);
    }
  }

  /** None of the later writes reaches the proof of leaf 0 at level 0. */
  lemma LevelZeroNotRetouched(t0: Tree, x: Node, k: nat, t: Tree)
    requires Wellformed(t) && |t0.versions| > 0 && t.depth >= 2 && HammeredShape(t0, x, k, t)
    requires Oldest(t) == |t0.versions|
    ensures Meets(t.depth, 1, 0, 0) && !SiblingTouched(t, Oldest(t), Newest(t), 0, 0)
    ensures SiblingAt(Leaves(t), 0, 0) == x
  {
    AtLeastFourLeaves(t);
    LowSmall(0, t.depth);
    LowSmall(1, t.depth);
    LowSmall(2, t.depth);
  }

  lemma EvictedProofRejected(t0: Tree, x: Node, k: nat, t: Tree)
    requires Wellformed(t0) && Wellformed(t) && t0.depth >= 2 && HammeredShape(t0, x, k, t)
    requires x != LeafAt(Leaves(t0), 1)
    requires k + 1 == t.capacity >= 2
    ensures CurrentLeaf(t, 0) == CurrentLeaf(t0, 0)
    ensures Judge(t, CurrentRoot(t0), LeafAt(Leaves(t0), 0), AuthPath(Leaves(t0), t0.depth, 0), 0, true)
         == Reject(InvalidProof)
  {
    AtLeastFourLeaves(t0);
    OldRootIsGone(t0, x, k, t);
    LevelZeroNotRetouched(t0, x, k, t);
    LowSmall(0, t.depth);
    var v := Newest(t0);
    assert v + 1 == Oldest(t) < Newest(t) && t.versions[v].leaves == Leaves(t0);
    assert SiblingAt(Leaves(t0), 0, 0) == LeafAt(Leaves(t0), 1);
    hide Wellformed, Judge, HammeredShape, SiblingAt, SiblingTouched;
    JustEvictedProofExact(t, v, 0);
  }

  /** The guarantee stops there: on any full tree of depth 2 or more with more than one slot there is
      a run of exactly `capacity` replacements that leave leaf 0 alone and after which the proof of
      leaf 0 from before the run is rejected. */
  lemma OneMoreWriterMayFail(t0: Tree, x: Node, y: Node, newLeaf: Node)
    requires Wellformed(t0) && t0.depth >= 2 && t0.next == Pow2(t0.depth) && NoAliases(t0)
    requires t0.capacity >= 2 && x != LeafAt(Leaves(t0), 1)
    ensures var t := Hammered(t0, x, y, t0.capacity - 1);
      && |t.versions| == |t0.versions| + t0.capacity
      && CurrentLeaf(t, 0) == CurrentLeaf(t0, 0)
      && SetLeaf(t, CurrentRoot(t0), CurrentLeaf(t0, 0), newLeaf, AuthPath(Leaves(t0), t0.depth, 0), 0)
           == (t, Err(InvalidProof))
  {
    var t, k := Hammered(t0, x, y, t0.capacity - 1), t0.capacity - 1;
    HammeredHasShape(t0, x, y, k);
    EvictedProofRejected(t0, x, k, t);
    hide Hammered, Judge;
    CompleteProofIsItself(AuthPath(Leaves(t0), t0.depth, 0));
    LowSmall(0, t0.depth);
  }

  // ----- competing fills

  /** `insert_or_append` at the position that was free in t0, by a writer who has last seen t0. */
  ghost function FillSeeing(t0: Tree, levels: nat, t: Tree, leaf: Node): (Tree, Result)
    requires Wellformed(t0) && Wellformed(t) && t.depth == t0.depth && levels <= t0.depth
  {
    LeafInserted(t, levels, CurrentRoot(t0), leaf, AuthPath(Leaves(t0), t0.depth, t0.next)[..t0.depth - levels],
      t0.next)
  }

  ghost function AfterFills(t0: Tree, levels: nat, leaves: seq<Node>): (t: Tree)
    requires Wellformed(t0) && levels <= t0.depth
    ensures Wellformed(t) && t.depth == t0.depth
  {
    if |leaves| == 0 then t0
    else
      var t := AfterFills(t0, levels, leaves[..|leaves| - 1]);
      FillKeepsShape(t0, levels, t, leaves[|leaves| - 1]);
      FillSeeing(t0, levels, t, leaves[|leaves| - 1]).0
  }

  lemma FillKeepsShape(t0: Tree, levels: nat, t: Tree, leaf: Node)
    requires Wellformed(t0) && Wellformed(t) && t.depth == t0.depth && levels <= t0.depth
    ensures var t' := FillSeeing(t0, levels, t, leaf).0;
      Wellformed(t') && t'.depth == t.depth
  {
    hide FillEmptyOrAppend;
    assert |t0.versions| > 0 && |t.versions| > 0;
    hide Wellformed;
    var lower := AuthPath(Leaves(t0), t0.depth, t0.next)[..t0.depth - levels];
    FillNeverOverwrites(t, CurrentRoot(t0), leaf, CompletedFromCanopy(t, levels, lower, t0.next), t0.next);
  }

  ghost predicate AllFill(t0: Tree, levels: nat, leaves: seq<Node>)
    requires Wellformed(t0) && levels <= t0.depth
  {
    |leaves| > 0 ==>
      && AllFill(t0, levels, leaves[..|leaves| - 1])
      && FillSeeing(t0, levels, AfterFills(t0, levels, leaves[..|leaves| - 1]), leaves[|leaves| - 1]).1.Success?
  }

  /** `leaves` stand one after the other from position n on; everything else is as before. */
  ghost predicate Appended(before: seq<Node>, n: nat, leaves: seq<Node>, after: seq<Node>) {
    && |after| == |before| && n + |leaves| <= |after|
    && (forall k :: 0 <= k < |leaves| ==> after[n + k] == leaves[k])
    && (forall i :: 0 <= i < |after| && !(n <= i < n + |leaves|) ==> after[i] == before[i])
  }

  ghost predicate FillState(t0: Tree, leaves: seq<Node>, t: Tree)
    requires |t0.versions| > 0
  {
    && t.depth == t0.depth && t.capacity == t0.capacity && t.next == t0.next + |leaves|
    && |t.versions| == |t0.versions| + |leaves|
    && (forall w :: 0 <= w < |t0.versions| ==> t.versions[w] == t0.versions[w])
    && (|leaves| > 0 ==> t.versions[|t0.versions|].index == t0.next)
    && (forall w :: |t0.versions| <= w < |t.versions| ==> t.versions[w].leaves != Leaves(t0))
    && Appended(Leaves(t0), t0.next, leaves, Leaves(t))
  }

  lemma FirstFill(t0: Tree, levels: nat, leaf: Node)
    requires Wellformed(t0) && levels <= t0.depth && t0.next < Pow2(t0.depth) && leaf != Empty
    ensures FillSeeing(t0, levels, t0, leaf).1.Success? && FillState(t0, [leaf], FillSeeing(t0, levels, t0, leaf).0)
  {
    var v, index := Newest(t0), t0.next;
    var proof := CompletedFromCanopy(t0, levels, AuthPath(Leaves(t0), t0.depth, index)[..t0.depth - levels], index);
    LowSmall(index, t0.depth);
    MixtureIsMixed(t0, levels, v, index);
    assert proof == AuthPath(Leaves(t0), t0.depth, index);
    CompleteProofIsItself(proof);
    CurrentProofAccepted(t0, index, false);
    var t := FillSeeing(t0, levels, t0, leaf).0;
    assert t == Write(t0, index, leaf);
    assert Leaves(t)[index] != Leaves(t0)[index];
  }

  lemma LaterFill(t0: Tree, levels: nat, leaves: seq<Node>, t: Tree, leaf: Node)
    requires Wellformed(t0) && Wellformed(t) && FillState(t0, leaves, t) && levels <= t0.depth
    requires 0 < |leaves| < t0.capacity && t.next < Pow2(t0.depth)
    requires leaves[0] != Empty && leaf != Empty
    ensures FillSeeing(t0, levels, t, leaf).1.Success?
    ensures FillState(t0, leaves + [leaf], FillSeeing(t0, levels, t, leaf).0)
  {
    LaterFillAppends(t0, levels, leaves, t, leaf);
    AppendIsSound(t, leaf);
    LowSmall(t.next, t.depth);
    var t' := Append(t, leaf).0;
    assert Leaves(t')[t0.next] == leaves[0] != Leaves(t0)[t0.next];
    AppendedStep(Leaves(t0), t0.next, leaves, Leaves(t), leaf);
    hide Wellformed, FillSeeing, Conclude;
    AppendExtendsFills(t0, leaves, t, leaf);
  }

  /** The free position has been taken, so the instruction appends. */
  lemma LaterFillAppends(t0: Tree, levels: nat, leaves: seq<Node>, t: Tree, leaf: Node)
    requires Wellformed(t0) && Wellformed(t) && FillState(t0, leaves, t) && levels <= t0.depth
    requires 0 < |leaves| < t0.capacity && t.next < Pow2(t0.depth) && leaves[0] != Empty && leaf != Empty
    ensures FillSeeing(t0, levels, t, leaf).0 == Append(t, leaf).0 && FillSeeing(t0, levels, t, leaf).1.Success?
  {
    var v, index := Newest(t0), t0.next;
    var proof := CompletedFromCanopy(t, levels, AuthPath(Leaves(t0), t0.depth, index)[..t0.depth - levels], index);
    LowSmall(index, t.depth);
    CompleteProofIsItself(proof);
    assert t.versions[v] == t0.versions[v];
    NoAliasPanic(t, NewestMatch(t, CurrentRoot(t0)), index);
    MixtureIsMixed(t, levels, v, index);
    StaleProofVerdict(t, v, index, proof, false);
    assert Leaves(t)[index] == leaves[0];
  }

  lemma AppendExtendsFills(t0: Tree, leaves: seq<Node>, t: Tree, leaf: Node)
    requires Wellformed(t0) && Wellformed(t) && FillState(t0, leaves, t)
    requires |leaves| > 0 && leaf != Empty && t.next < Pow2(t0.depth)
    requires Leaves(Append(t, leaf).0) != Leaves(t0)
    requires Appended(Leaves(t0), t0.next, leaves + [leaf], Leaves(t)[t.next := leaf])
    ensures FillState(t0, leaves + [leaf], Append(t, leaf).0)
  {
    LowSmall(t.next, t.depth);
  }

  lemma AppendedStep(before: seq<Node>, n: nat, leaves: seq<Node>, now: seq<Node>, leaf: Node)
    requires Appended(before, n, leaves, now) && n + |leaves| < |now|
    ensures Appended(before, n, leaves + [leaf], now[n + |leaves| := leaf])
  {
  }

  lemma NobodyFills(t0: Tree, levels: nat, leaves: seq<Node>)
    requires Wellformed(t0) && levels <= t0.depth && |leaves| == 0
    ensures AllFill(t0, levels, leaves) && AfterFills(t0, levels, leaves) == t0 && FillState(t0, leaves, t0)
  {
  }

  lemma FillsUnfold(t0: Tree, levels: nat, front: seq<Node>, leaf: Node)
    requires Wellformed(t0) && levels <= t0.depth
    ensures AfterFills(t0, levels, front + [leaf]) == FillSeeing(t0, levels, AfterFills(t0, levels, front), leaf).0
    ensures AllFill(t0, levels, front + [leaf])
         <==> AllFill(t0, levels, front) && FillSeeing(t0, levels, AfterFills(t0, levels, front), leaf).1.Success?
  {
    assert (front + [leaf])[..|front|] == front;
  }

  lemma FilledNext(t0: Tree, leaves: seq<Node>, t: Tree)
    requires |t0.versions| > 0 && FillState(t0, leaves, t)
    ensures t.next == t0.next + |leaves|
  {
  }

  /** Up to `capacity` fills of one free position, all prepared from the same tree, become appends in
      the order they are served: the first takes the position, each later one the next free one. */
  lemma {:induction false} CompetingFillsBecomeAppends(t0: Tree, levels: nat, leaves: seq<Node>)
    requires Wellformed(t0) && levels <= t0.depth
    requires |leaves| <= t0.capacity && t0.next + |leaves| <= Pow2(t0.depth)
    requires forall k :: 0 <= k < |leaves| ==> leaves[k] != Empty
    ensures AllFill(t0, levels, leaves)
    ensures FillState(t0, leaves, AfterFills(t0, levels, leaves))
  {
    assert |t0.versions| > 0;
    hide Wellformed, FillState, FillSeeing, AfterFills, AllFill;
    if |leaves| == 0 {
      NobodyFills(t0, levels, leaves);
    } else {
      var front, leaf := leaves[..|leaves| - 1], leaves[|leaves| - 1];
      CompetingFillsBecomeAppends(t0, levels, front);
      SplitLast(leaves);
      FillsUnfold(t0, levels, front, leaf);
      if |front| == 0 {
        NobodyFills(t0, levels, front);
        assert leaves == [leaf];
        FirstFill(t0, levels, leaf);
      } else {
        FilledNext(t0, front, AfterFills(t0, levels, front));
        LaterFill(t0, levels, front, AfterFills(t0, levels, front), leaf);
      }
    }
  }
}
