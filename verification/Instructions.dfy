/** Whole runs of the on-chain program: what the indexers may rely on. */
module Instructions {
  import opened Bits
  import opened Merkle
  import opened VersionedTree
  import opened Canopy
  import opened Gummyrolls
  import opened Events
  import opened Backfiller

  datatype Instruction =
    | ReplaceIns(signer: nat, root: Node, previousLeaf: Node, newLeaf: Node, lower: seq<Node>, index: nat)
    | AppendIns(signer: nat, appendSigner: nat, leaf: Node)
    | InsertIns(signer: nat, root: Node, leaf: Node, lower: seq<Node>, index: nat)

  /** What holds of every tree the program has made, besides being well formed: no write used an alias,
      and none skipped a position. */
  ghost predicate Orderly(t: Tree) {
    Wellformed(t) && NoAliases(t) && GrewFromLeft(t)
  }

  lemma InitialIsOrderly(depth: nat, capacity: nat)
    requires Supported(depth, capacity)
    ensures Orderly(Initial(depth, capacity))
  {
    InitialIsWellformed(depth, capacity);
    InitialGrewFromLeft(depth, capacity);
  }

  /** The events of the versions after `from`. */
  ghost function EventsOf(t: Tree, from: nat): (events: seq<ChangeLogEvent>)
    requires from < |t.versions|
    ensures |events| == |t.versions| - 1 - from
  {
    seq(|t.versions| - 1 - from, (i: nat) requires i < |t.versions| - 1 - from => EventOf(t, from + 1 + i))
  }

  /** A run of events from t to t': each success published one, failures none. */
  ghost predicate Publishes(t: Tree, t': Tree, events: seq<ChangeLogEvent>) {
    && t'.depth == t.depth && t'.capacity == t.capacity
    && 0 < |t.versions| && t.versions <= t'.versions
    && events == EventsOf(t', Newest(t))
  }

  lemma WroteIsOrderly(t: Tree, t': Tree, i: nat, x: Node)
    requires Orderly(t) && WroteAt(t, t', i, x) && i <= t.next
    ensures Orderly(t') && Publishes(t, t', [EventOf(t', Newest(t'))])
  {
    WroteKeepsNoAliases(t, t', i, x);
    WriteGrowsFromLeft(t, i, x);
    assert EventsOf(t', Newest(t)) == [EventOf(t', Newest(t'))];
  }

  lemma NothingPublished(t: Tree)
    requires |t.versions| > 0
    ensures Publishes(t, t, [])
  {
  }

  /** The tree and the answer after one instruction. */
  ghost function Step(t: Tree, levels: nat, authority: nat, appendAuthority: nat, ins: Instruction): (Tree, Result)
    requires Wellformed(t) && levels <= t.depth
  {
    match ins
    case ReplaceIns(signer, root, previousLeaf, newLeaf, lower, index) =>
      if signer != authority then (t, Result.Aborted)
        else LeafReplaced(t, levels, root, previousLeaf, newLeaf, lower, index)
    case AppendIns(signer, appendSigner, leaf) =>
      if signer != authority || appendSigner != appendAuthority then (t, Result.Aborted) else LeafAppended(t, leaf)
    case InsertIns(signer, root, leaf, lower, index) =>
      if signer != authority then (t, Result.Aborted) else LeafInserted(t, levels, root, leaf, lower, index)
  }

  function EventsIn(result: Result): seq<ChangeLogEvent> {
    if result.Success? then [result.event] else []
  }

  lemma ReplaceIsOrderly(t: Tree, levels: nat, root: Node, previousLeaf: Node, newLeaf: Node, lower: seq<Node>,
                         index: nat)
    requires Orderly(t) && levels <= t.depth
    ensures var r := LeafReplaced(t, levels, root, previousLeaf, newLeaf, lower, index);
      Orderly(r.0) && Publishes(t, r.0, EventsIn(r.1))
  {
    var r := LeafReplaced(t, levels, root, previousLeaf, newLeaf, lower, index);
    NothingPublished(t);
    if r.1.Success? {
      ReplaceWrites(t, root, previousLeaf, newLeaf, CompletedFromCanopy(t, levels, lower, index), index);
      WroteIsOrderly(t, r.0, index, newLeaf);
    }
  }

  lemma AppendIsOrderly(t: Tree, leaf: Node)
    requires Orderly(t)
    ensures var r := LeafAppended(t, leaf);
      Orderly(r.0) && Publishes(t, r.0, EventsIn(r.1))
  {
    var r := LeafAppended(t, leaf);
    NothingPublished(t);
    if r.1.Success? {
      AppendWrites(t, leaf);
      WroteIsOrderly(t, r.0, t.next, leaf);
    }
  }

  lemma InsertIsOrderly(t: Tree, levels: nat, root: Node, leaf: Node, lower: seq<Node>, index: nat)
    requires Orderly(t) && levels <= t.depth
    ensures var r := LeafInserted(t, levels, root, leaf, lower, index);
      Orderly(r.0) && Publishes(t, r.0, EventsIn(r.1))
  {
    var r := LeafInserted(t, levels, root, leaf, lower, index);
    NothingPublished(t);
    if r.1.Success? {
      var proofVec := CompletedFromCanopy(t, levels, lower, index);
      var i := FillWrites(t, root, leaf, proofVec, index);
      InsertedWithinReach(t, root, leaf, proofVec, index, i);
      WroteIsOrderly(t, r.0, i, leaf);
    }
  }

  /** Neither way of inserting skips a position. */
  lemma InsertedWithinReach(t: Tree, root: Node, leaf: Node, proofVec: seq<Node>, index: nat, i: nat)
    requires Wellformed(t) && index < Pow2(t.depth)
    requires FillEmptyOrAppend(t, root, leaf, proofVec, index).1.Ok?
    requires WroteAt(t, FillEmptyOrAppend(t, root, leaf, proofVec, index).0, i, leaf)
    ensures i <= t.next
  {
    var t' := FillEmptyOrAppend(t, root, leaf, proofVec, index).0;
    assert t'.versions[Newest(t')].index == i;
  }

  /** Every instruction keeps the tree orderly, and publishes exactly one event when it succeeds. */
  lemma StepIsOrderly(t: Tree, levels: nat, authority: nat, appendAuthority: nat, ins: Instruction)
    requires Orderly(t) && levels <= t.depth
    ensures var r := Step(t, levels, authority, appendAuthority, ins);
      Orderly(r.0) && Publishes(t, r.0, EventsIn(r.1))
  {
    NothingPublished(t);
    hide Orderly, Publishes, LeafReplaced, LeafAppended, LeafInserted;
    match ins
    case ReplaceIns(_, root, previousLeaf, newLeaf, lower, index) =>
      ReplaceIsOrderly(t, levels, root, previousLeaf, newLeaf, lower, index);
    case AppendIns(_, _, leaf) =>
      AppendIsOrderly(t, leaf);
    case InsertIns(_, root, leaf, lower, index) =>
      InsertIsOrderly(t, levels, root, leaf, lower, index);
  }

  lemma PublishesFurther(t: Tree, t1: Tree, t2: Tree, events: seq<ChangeLogEvent>, more: seq<ChangeLogEvent>)
    requires Publishes(t, t1, events) && Publishes(t1, t2, more)
    ensures Publishes(t, t2, events + more)
  {
    forall i: nat | i < |t2.versions| - |t.versions|
      ensures (events + more)[i] == EventsOf(t2, Newest(t))[i]
    {
      var w := Newest(t) + 1 + i;
      if i < |events| {
        EventKept(t1, t2, w);
        assert events[i] == EventOf(t1, w);
      } else {
        assert w == Newest(t1) + 1 + (i - |events|);
        assert more[i - |events|] == EventOf(t2, w);
      }
    }
  }

  lemma EventKept(t: Tree, t': Tree, w: nat)
    requires w < |t.versions| && t.versions <= t'.versions && t'.depth == t.depth
    ensures EventOf(t', w) == EventOf(t, w)
  {
    assert t'.versions[w] == t.versions[w];
  }

  method Perform(g: Gummyroll, ins: Instruction) returns (result: Result)
    requires g.Valid()
    modifies g.roll, g.roll.changeLogs, g.roll.rightmostProof, g.canopy
    ensures g.Valid() && Wellformed(old(g.roll.tree)) && g.levels <= old(g.roll.tree).depth
    ensures (g.roll.tree, result) == Step(old(g.roll.tree), g.levels, g.authority, g.appendAuthority, ins)
  {
    hide Gummyroll.Valid, Wellformed, LeafReplaced, LeafAppended, LeafInserted;
    g.Outline();
    match ins
    case ReplaceIns(signer, root, previousLeaf, newLeaf, lower, index) =>
      result := g.ReplaceLeaf(signer, root, previousLeaf, newLeaf, lower, index);
    case AppendIns(signer, appendSigner, leaf) =>
      result := g.Append(signer, appendSigner, leaf);
    case InsertIns(signer, root, leaf, lower, index) =>
      result := g.InsertOrAppend(signer, root, leaf, lower, index);
  }

  /** Over any run from a new tree: the tree stays orderly and the events that were emitted are those of
      its versions from 1 on, each once and in order. The tables of the indexers can be read against it
      as long as the sequence numbers fit their columns. */
  method Run(g: Gummyroll, instructions: seq<Instruction>) returns (events: seq<ChangeLogEvent>)
    requires g.Valid() && Orderly(g.roll.tree)
    modifies g.roll, g.roll.changeLogs, g.roll.rightmostProof, g.canopy
    ensures g.Valid() && Orderly(g.roll.tree)
    ensures Publishes(old(g.roll.tree), g.roll.tree, events)
    ensures |g.roll.tree.versions| <= TWO_64 / 2 ==> Published(g.roll.tree)
  {
    hide Gummyroll.Valid, Orderly, Publishes, Wellformed, Step;
    RunStarts(g);
    ghost var t := g.roll.tree;
    events := [];
    for n := 0 to |instructions|
      invariant g.Valid() && Orderly(g.roll.tree)
      invariant Publishes(t, g.roll.tree, events)
    {
      ghost var before := g.roll.tree;
      g.Outline();
      StepIsOrderly(before, g.levels, g.authority, g.appendAuthority, instructions[n]);
      var result := Perform(g, instructions[n]);
      PublishesFurther(t, before, g.roll.tree, events, EventsIn(result));
      events := events + EventsIn(result);
    }
    OrderlyIsPublished(g.roll.tree);
  }

  lemma RunStarts(g: Gummyroll)
    requires g.Valid()
    ensures Publishes(g.roll.tree, g.roll.tree, [])
  {
    NothingPublished(g.roll.tree);
  }

  lemma OrderlyIsPublished(t: Tree)
    requires Orderly(t)
    ensures |t.versions| <= TWO_64 / 2 ==> Published(t)
  {
  }

  /** The events of all versions of a tree. */
  ghost function AllEvents(t: Tree): (events: seq<ChangeLogEvent>)
    ensures |events| == |t.versions|
  {
    seq(|t.versions|, w requires 0 <= w < |t.versions| => EventOf(t, w))
  }

  lemma FromTheFirst(t: Tree, t': Tree, events: seq<ChangeLogEvent>)
    requires |t.versions| == 1 && Publishes(t, t', events)
    ensures [EventOf(t, 0)] + events == AllEvents(t')
  {
    EventKept(t, t', 0);
    forall w | 0 < w < |t'.versions|
      ensures events[w - 1] == EventOf(t', w)
    {
      assert EventsOf(t', 0)[w - 1] == EventOf(t', 0 + 1 + (w - 1));
    }
  }

  /** A new account and any run: exactly the events of all its versions have been emitted, in order. */
  method RunFromScratch(maxDepth: nat, maxBufferSize: nat, canopyLength: nat, authority: nat, appendAuthority: nat,
                        instructions: seq<Instruction>)
    returns (account: Option<Gummyroll>, events: seq<ChangeLogEvent>)
    ensures account.Some?
       <==> (KnownSize(maxDepth, maxBufferSize) && GetCachedPathLength(canopyLength, maxDepth) != CanopyLengthMismatch)
    ensures account.Some? ==>
      && fresh(account.value) && account.value.Valid() && Orderly(account.value.roll.tree)
      && events == AllEvents(account.value.roll.tree)
  {
    hide Gummyroll.Valid, Orderly, Publishes, KnownSize;
    events := [];
    var first;
    account, first := Gummyroll.InitEmptyGummyroll(maxDepth, maxBufferSize, canopyLength, authority, appendAuthority);
    if account.Some? {
      KnownSizesAreSupported(maxDepth, maxBufferSize);
      InitialIsOrderly(maxDepth, maxBufferSize);
      events := Run(account.value, instructions);
      FromTheFirst(Initial(maxDepth, maxBufferSize), account.value.roll.tree, events);
      events := [first.value] + events;
    }
  }
}
