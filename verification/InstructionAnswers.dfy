/** What every instruction of the program answers, in every case, and what its event tells. */
module InstructionAnswers {
  import opened Bits
  import opened Merkle
  import opened VersionedTree
  import opened Guarantees
  import opened Answers
  import opened Canopy
  import opened Gummyrolls

  /** Leaf i became x, and the event says so: which leaf, under which number, and every node on its path. */
  ghost predicate Told(t: Tree, i: nat, x: Node, t': Tree, result: Result)
    requires |t.versions| > 0 && |Leaves(t)| == Pow2(t.depth) && i < Pow2(t.depth)
  {
    && |t'.versions| > 0 && Wrote(t, i, x, t', Ok(CurrentRoot(t'))) && result.Success?
    && Leaves(t') == Leaves(t)[i := x]
    && EventFor(result.event, Leaves(t)[i := x], t.depth, i)
    && result.event.seqNo == if |t.versions| < TWO_64 then |t.versions| else TWO_64 - 1
  }

  lemma WroteIsTold(t: Tree, i: nat, x: Node, t': Tree)
    requires |t.versions| > 0 && |Leaves(t)| == Pow2(t.depth) && i < Pow2(t.depth)
    requires |t'.versions| > 0 && Wrote(t, i, x, t', Ok(CurrentRoot(t')))
    ensures Told(t, i, x, t', Success(EventOf(t', Newest(t'))))
  {
    var w := Newest(t');
    LowSmall(i, t.depth);
    forall l | 0 <= l <= t.depth
      ensures EventOf(t', w).path[l]
           == PathNode(NodeAt(Leaves(t)[i := x], l, Shr(i, l)), NodeNumber(t.depth, l, Shr(i, l)))
    {
      EventNodes(t', w, l);
    }
    EventNodes(t', w, 0);
  }

  /** `replace_leaf`: the library's answer to the completed proof, with the event of a success. */
  lemma LeafReplacedAnswers(t: Tree, levels: nat, root: Node, previousLeaf: Node, newLeaf: Node, lower: seq<Node>,
                            index: nat)
    requires Wellformed(t) && levels <= t.depth
    ensures var (t', result) := LeafReplaced(t, levels, root, previousLeaf, newLeaf, lower, index);
      if index >= Pow2(t.depth) then (t', result) == (t, Result.Aborted)
      else
        var upper := seq(levels, j requires 0 <= j < levels => SiblingAt(Leaves(t), index, t.depth - levels + j));
        match SetLeaf(t, root, previousLeaf, newLeaf, lower + upper, index).1
        case Ok(_) => Told(t, index, newLeaf, t', result)
        case Err(e) => (t', result) == (t, TreeError(e))
        case Aborted => (t', result) == (t, Result.Aborted)
  {
    if index < Pow2(t.depth) {
      var upper := seq(levels, j requires 0 <= j < levels => SiblingAt(Leaves(t), index, t.depth - levels + j));
      assert UpperPath(Leaves(t), t.depth, index, t.depth - levels) == upper;
      SetLeafAnswers(t, root, previousLeaf, newLeaf, lower + upper, index);
      var (t', answer) := SetLeaf(t, root, previousLeaf, newLeaf, lower + upper, index);
      if answer.Ok? {
        WroteIsTold(t, index, newLeaf, t');
      }
    }
  }

  /** `append` */
  lemma LeafAppendedAnswers(t: Tree, leaf: Node)
    requires Wellformed(t)
    ensures var (t', result) := LeafAppended(t, leaf);
      if leaf == Empty then (t', result) == (t, TreeError(CannotAppendEmptyNode))
      else if t.next == Pow2(t.depth) then (t', result) == (t, TreeError(TreeFull))
      else Told(t, t.next, leaf, t', result)
  {
    AppendAnswers(t, leaf);
    if leaf != Empty && t.next < Pow2(t.depth) {
      WroteIsTold(t, t.next, leaf, Append(t, leaf).0);
    }
  }

  /** `insert_or_append`: the library's answer to the completed proof; the event of a success tells which
      of the two places the leaf got. */
  lemma LeafInsertedAnswers(t: Tree, levels: nat, root: Node, leaf: Node, lower: seq<Node>, index: nat)
    requires Wellformed(t) && levels <= t.depth
    ensures var (t', result) := LeafInserted(t, levels, root, leaf, lower, index);
      if index >= Pow2(t.depth) then (t', result) == (t, Result.Aborted)
      else
        var upper := seq(levels, j requires 0 <= j < levels => SiblingAt(Leaves(t), index, t.depth - levels + j));
        match FillEmptyOrAppend(t, root, leaf, lower + upper, index).1
        case Ok(_) =>
          && result.Success? && result.event.index in {index, t.next}
          && result.event.index < Pow2(t.depth)
          && Leaves(t)[result.event.index] == Empty && Told(t, result.event.index, leaf, t', result)
        case Err(e) => (t', result) == (t, TreeError(e))
        case Aborted => (t', result) == (t, Result.Aborted)
  {
    if index < Pow2(t.depth) {
      var upper := seq(levels, j requires 0 <= j < levels => SiblingAt(Leaves(t), index, t.depth - levels + j));
      assert UpperPath(Leaves(t), t.depth, index, t.depth - levels) == upper;
      FillAnswers(t, root, leaf, lower + upper, index);
      FillLandsExactly(t, root, leaf, lower + upper, index);
      var (t', answer) := FillEmptyOrAppend(t, root, leaf, lower + upper, index);
      if answer.Ok? {
        var i := t'.versions[Newest(t')].index;
        WroteIsTold(t, i, leaf, t');
      }
    }
  }

  /** Where a successful instruction has gone, a caller learns from the event alone. */
  lemma EventTellsTheLeaf(t: Tree, levels: nat, root: Node, previousLeaf: Node, leaf: Node, lower: seq<Node>,
                          index: nat)
    requires Wellformed(t) && levels <= t.depth
    ensures |LeafReplaced(t, levels, root, previousLeaf, leaf, lower, index).0.versions| > 0
    ensures |LeafAppended(t, leaf).0.versions| > 0
    ensures |LeafInserted(t, levels, root, leaf, lower, index).0.versions| > 0
    ensures var r := LeafReplaced(t, levels, root, previousLeaf, leaf, lower, index);
      r.1.Success? ==> r.1.event.index == index < |Leaves(t)| && Leaves(r.0) == Leaves(t)[r.1.event.index := leaf]
    ensures var r := LeafAppended(t, leaf);
      r.1.Success? ==> r.1.event.index == t.next < |Leaves(t)| && Leaves(r.0) == Leaves(t)[r.1.event.index := leaf]
    ensures var r := LeafInserted(t, levels, root, leaf, lower, index);
      r.1.Success? ==>
        && r.1.event.index < |Leaves(t)| && Leaves(t)[r.1.event.index] == Empty
        && Leaves(r.0) == Leaves(t)[r.1.event.index := leaf]
  {
    LeafReplacedAnswers(t, levels, root, previousLeaf, leaf, lower, index);
    LeafAppendedAnswers(t, leaf);
    LeafInsertedAnswers(t, levels, root, leaf, lower, index);
    hide LeafReplaced, LeafAppended, LeafInserted, Wrote;
  }

  /** `insert_or_append` by a caller who has seen any version in the window. */
  lemma InsertingOnAnOldView(t: Tree, levels: nat, v: nat, index: nat, leaf: Node)
    requires Wellformed(t) && NoAliases(t) && levels <= t.depth
    requires Oldest(t) <= v <= Newest(t) && index < Pow2(t.depth)
    ensures var was := t.versions[v].leaves;
            var lower := AuthPath(was, t.depth, index)[..t.depth - levels];
            var (t', result) := LeafInserted(t, levels, Root(was, t.depth), leaf, lower, index);
      if Leaves(t)[index] == Empty then
        if index > t.next && t.next < Pow2(t.depth) then (t', result) == (t, Result.Aborted)
        else result.Success? && result.event.index == index && Leaves(t') == Leaves(t)[index := leaf]
      else if !LeafWritten(t, NewestMatch(t, Root(was, t.depth)), Newest(t), index) then
        (t', result) == (t, TreeError(InvalidProof))
      else if leaf == Empty then (t', result) == (t, TreeError(CannotAppendEmptyNode))
      else if t.next == Pow2(t.depth) then (t', result) == (t, TreeError(TreeFull))
      else result.Success? && result.event.index == t.next && Leaves(t') == Leaves(t)[t.next := leaf]
  {
    var was := t.versions[v].leaves;
    var lower := AuthPath(was, t.depth, index)[..t.depth - levels];
    var proof := CompletedFromCanopy(t, levels, lower, index);
    LowSmall(index, t.depth);
    MixtureIsMixed(t, levels, v, index);
    NoAliasPanic(t, NewestMatch(t, Root(was, t.depth)), index);
    StaleFillVerdict(t, v, index, proof, leaf);
    var (t', result) := LeafInserted(t, levels, Root(was, t.depth), leaf, lower, index);
    if t.next < Pow2(t.depth) {
      LowSmall(t.next, t.depth);
    }
    if result.Success? {
      EventNodes(t', Newest(t'), 0);
    }
  }

  /** `verify_leaf` by a caller who has seen any version in the window: it verifies if and only if the leaf
      is what the caller saw. */
  lemma VerifyingOnAnOldView(t: Tree, levels: nat, v: nat, index: nat)
    requires Wellformed(t) && NoAliases(t) && levels <= t.depth
    requires Oldest(t) <= v <= Newest(t) && index < Pow2(t.depth) && index <= t.next
    ensures var was := t.versions[v].leaves;
            var lower := AuthPath(was, t.depth, index)[..t.depth - levels];
      LeafVerified(t, levels, Root(was, t.depth), was[index], lower, index) <==> was[index] == Leaves(t)[index]
  {
    var was := t.versions[v].leaves;
    var proof := CompletedFromCanopy(t, levels, AuthPath(was, t.depth, index)[..t.depth - levels], index);
    LowSmall(index, t.depth);
    MixtureIsMixed(t, levels, v, index);
    NoAliasPanic(t, NewestMatch(t, Root(was, t.depth)), index);
    StaleProveLeafVerdict(t, v, index, proof);
  }
}
