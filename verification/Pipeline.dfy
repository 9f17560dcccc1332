/** From the emitted events to the next transaction: a proof served from the indexed tables is good for
    the program even though it is out of date by the time it is used. */
module Pipeline {
  import opened Bits
  import opened Merkle
  import opened VersionedTree
  import opened Canopy
  import opened Gummyrolls
  import opened Events
  import opened Ingester
  import opened ProofService
  import opened SdkIndexer
  import opened Backfiller
  import opened Instructions

  /** The first free position never moves back. */
  lemma NextGrows(t: Tree, t': Tree)
    requires Orderly(t) && Orderly(t') && t.versions <= t'.versions
    ensures t.next <= t'.next
  {
    FreeAfterPrefix(t, t', Newest(t));
    FreeGrows(t', Newest(t), Newest(t'));
  }

  /** A later tree still holds the version in its window, as long as fewer writes than the buffer has
      slots came in between. */
  lemma StillInWindow(t: Tree, t': Tree, index: nat)
    requires Orderly(t) && Orderly(t') && t.versions <= t'.versions && t'.depth == t.depth && t'.capacity == t.capacity
    requires |t'.versions| - |t.versions| < t.capacity && index <= t.next
    ensures Oldest(t') <= Newest(t) <= Newest(t') && index <= t'.next
    ensures t'.versions[Newest(t)].leaves == Leaves(t)
  {
    NextGrows(t, t');
    assert t'.versions[Newest(t)] == t.versions[Newest(t)];
  }

  lemma ServedProofOutlivesWrites(t: Tree, t': Tree, levels: nat, index: nat, newLeaf: Node, lower: seq<Node>)
    requires Orderly(t) && Orderly(t') && t.versions <= t'.versions && t'.depth == t.depth && t'.capacity == t.capacity
    requires |t'.versions| - |t.versions| < t.capacity && levels <= t.depth
    requires index < Pow2(t.depth) && index <= t.next && |Leaves(t)| == |Leaves(t')| == Pow2(t.depth)
    requires lower == AuthPath(Leaves(t), t.depth, index)[..t.depth - levels]
    ensures LeafReplaced(t', levels, CurrentRoot(t), Leaves(t)[index], newLeaf, lower, index).1.Success?
       <==> Leaves(t')[index] == Leaves(t)[index]
  {
    hide LeafReplaced;
    StillInWindow(t, t', index);
    CanopyCompletesStaleProof(t', levels, Newest(t), index, newLeaf);
  }

  lemma ReplacedLeafIsWritten(t: Tree, levels: nat, root: Node, previousLeaf: Node, newLeaf: Node, lower: seq<Node>,
                              index: nat)
    requires Orderly(t) && levels <= t.depth && index < Pow2(t.depth)
    ensures |t.versions| > 0 && |Leaves(t)| == Pow2(t.depth)
    ensures var r := LeafReplaced(t, levels, root, previousLeaf, newLeaf, lower, index);
      r.0 == if r.1.Success? then Write(t, index, newLeaf) else t
  {
    ReplaceWrites(t, root, previousLeaf, newLeaf, CompletedFromCanopy(t, levels, lower, index), index);
  }

  /** A client asks the service for a proof and keeps the nodes below the cached levels. */
  method FetchProof(maxDepth: nat, leafIdx: nat, cachedLevels: nat, answer: seq<NodeView>, ghost t: Tree,
                    ghost ws: seq<nat>)
    returns (root: Node, lower: seq<Node>)
    requires Published(t) && AllArrived(t, ws) && t.depth == maxDepth && leafIdx < Pow2(maxDepth)
    requires cachedLevels <= maxDepth
    requires IsAnswer(TableAfter(t, ws), NeededFrom(maxDepth, leafIdx, 0), answer)
    ensures root == CurrentRoot(t) && lower == AuthPath(Leaves(t), maxDepth, leafIdx)[..maxDepth - cachedLevels]
  {
    var reply := ServeAssetProof(maxDepth, leafIdx, answer, t, ws);
    hide Published, AllArrived, TableAfter, AuthPath;
    root := reply.nodes[maxDepth].hash;
    lower := seq(maxDepth - cachedLevels, l requires 0 <= l < maxDepth - cachedLevels => reply.nodes[l].hash);
    ghost var proof := seq(maxDepth, l requires 0 <= l < maxDepth => reply.nodes[l].hash);
    assert lower == proof[..maxDepth - cachedLevels];
  }

  lemma Shape(g: Gummyroll)
    requires g.Valid()
    ensures g.roll.tree.depth == g.maxDepth && g.roll.tree.capacity == g.maxBufferSize && g.levels <= g.maxDepth
    ensures |g.roll.tree.versions| > 0 && |Leaves(g.roll.tree)| == Pow2(g.maxDepth)
  {
    g.roll.Outline();
  }

  lemma PublishesGrows(t: Tree, t': Tree, events: seq<ChangeLogEvent>)
    requires Publishes(t, t', events)
    ensures t.versions <= t'.versions && t'.depth == t.depth && t'.capacity == t.capacity
  {
  }

  /** A proof is served from the tables, any instructions come first, then the leaf is replaced with it. */
  method ServeThenReplace(g: Gummyroll, leafIdx: nat, leaf: Node, newLeaf: Node, cachedLevels: nat,
                          answer: seq<NodeView>,
                          inBetween: seq<Instruction>, ghost ws: seq<nat>)
    returns (result: Result, ghost t: Tree, ghost t': Tree)
    requires g.Valid() && Orderly(g.roll.tree) && Published(g.roll.tree) && AllArrived(g.roll.tree, ws)
    requires leafIdx < |Leaves(g.roll.tree)| && leafIdx <= g.roll.tree.next && leaf == Leaves(g.roll.tree)[leafIdx]
    requires cachedLevels == g.levels
    requires IsAnswer(TableAfter(g.roll.tree, ws), NeededFrom(g.maxDepth, leafIdx, 0), answer)
    modifies g.roll, g.roll.changeLogs, g.roll.rightmostProof, g.canopy
    ensures g.Valid() && t == old(g.roll.tree)
    ensures t.versions <= t'.versions && |t'.versions| > 0 && |Leaves(t')| == Pow2(t'.depth) && leafIdx < |Leaves(t')|
    ensures |t'.versions| - |t.versions| < g.maxBufferSize ==> (result.Success? <==> Leaves(t')[leafIdx] == leaf)
    ensures g.roll.tree == if result.Success? then Write(t', leafIdx, newLeaf) else t'
  {
    hide Gummyroll.Valid, Orderly, Published, LeafReplaced, AuthPath, Publishes, AllArrived, TableAfter, IsAnswer,
      Wellformed;
    t := g.roll.tree;
    Shape(g);
    var root, lower := FetchProof(g.maxDepth, leafIdx, cachedLevels, answer, t, ws);
    var events := Instructions.Run(g, inBetween);
    t' := g.roll.tree;
    Shape(g);
    PublishesGrows(t, t', events);
    if |t'.versions| - |t.versions| < g.maxBufferSize {
      ServedProofOutlivesWrites(t, t', cachedLevels, leafIdx, newLeaf, lower);
    }
    ReplacedLeafIsWritten(t', cachedLevels, root, leaf, newLeaf, lower, leafIdx);
    result := g.ReplaceLeaf(g.authority, root, leaf, newLeaf, lower, leafIdx);
  }

  // ----- feeding the indexers

  lemma TablesStep(t: Tree, order: seq<nat>, n: nat)
    requires Published(t) && n < |order| && forall j :: 0 <= j < |order| ==> order[j] < |t.versions|
    ensures |EventOf(t, order[n]).path| > 0
    ensures TableAfter(t, order[..n + 1])
         == Ingested(TableAfter(t, order[..n]), EventOf(t, order[n]), false, |EventOf(t, order[n]).path|)
    ensures DbAfter(t, order[..n + 1]) == Updated(DbAfter(t, order[..n]), EventOf(t, order[n]))
  {
    assert order[..n + 1][..n] == order[..n];
    EventShape(t, order[n]);
  }

  /** Both indexers, fed with the emitted events in any order and with any repetitions. */
  method IndexAll(events: seq<ChangeLogEvent>, order: seq<nat>, ghost t: Tree) returns (table: ClItems, db: Database)
    requires Published(t) && events == AllEvents(t) && forall j :: 0 <= j < |order| ==> order[j] < |events|
    ensures fresh(table) && fresh(db) && db.CacheRight()
    ensures table.rows == TableAfter(t, order) && db.rows == DbAfter(t, order)
  {
    table := new ClItems();
    db := new Database();
    for n := 0 to |order|
      invariant table.rows == TableAfter(t, order[..n]) && db.rows == DbAfter(t, order[..n])
      invariant fresh(table) && fresh(db) && db.CacheRight()
    {
      hide Published, TableAfter, DbAfter, Ingested, Updated, EventOf;
      TablesStep(t, order, n);
      table.Ingest(events[order[n]], false);
      db.UpdateChangeLogs(events[order[n]]);
    }
    assert order[..|order|] == order;
  }

  /** From instructions to tables: whatever was run, and in whatever order the events arrived, the first
      table holds for every node the newest row known, the second every version known. */
  method RunAndIndex(maxDepth: nat, maxBufferSize: nat, canopyLength: nat, authority: nat, appendAuthority: nat,
                     instructions: seq<Instruction>, order: seq<nat>)
    returns (account: Option<Gummyroll>, table: ClItems, db: Database)
    ensures account.Some?
       <==> (KnownSize(maxDepth, maxBufferSize) && GetCachedPathLength(canopyLength, maxDepth) != CanopyLengthMismatch)
    ensures account.Some? ==>
      && account.value.Valid() && Orderly(account.value.roll.tree)
      && var t, known := account.value.roll.tree, Within(order, |account.value.roll.tree.versions|);
        (|t.versions| <= TWO_64 / 2 ==>
           && Published(t) && Records(t, Arrived(known), table.rows) && Keeps(t, Known(known), db.rows))
  {
    hide Gummyroll.Valid, Orderly, KnownSize;
    var events;
    account, events :=
      Instructions.RunFromScratch(maxDepth, maxBufferSize, canopyLength, authority, appendAuthority, instructions);
    table := new ClItems();
    db := new Database();
    if account.Some? && |events| <= TWO_64 / 2 {
      ghost var t := account.value.roll.tree;
      OrderlyIsPublished(t);
      var known := Within(order, |events|);
      table, db := IndexAll(events, known, t);
      TableRecords(t, known);
      DbKeeps(t, known);
    }
  }

  /** The arrivals that name an event there is. */
  function Within(order: seq<nat>, n: nat): (known: seq<nat>)
    ensures forall j :: 0 <= j < |known| ==> known[j] < n
  {
    if |order| == 0 then []
    else Within(order[..|order| - 1], n) + if order[|order| - 1] < n then [order[|order| - 1]] else []
  }
}
