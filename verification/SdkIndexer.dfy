/** The indexer that keeps every version of every node, and infers proofs in spite of missing events. */
module SdkIndexer {
  import opened Bits
  import opened Merkle
  import opened VersionedTree
  import opened Guarantees
  import opened Canopy
  import opened Events

  /** A row of the `merkle` table of one tree; its key is (seq, node_idx). */
  datatype DbRow = DbRow(hash: Node, level: nat)

  type Rows = map<(nat, nat), DbRow>

  /** The table after the first k nodes of an event. */
  function Stored(rows: Rows, e: ChangeLogEvent, k: nat): Rows
    requires k <= |e.path|
  {
    if k == 0 then rows
    else Stored(rows, e, k - 1)[(e.seqNo, e.path[k - 1].index) := DbRow(e.path[k - 1].node, k - 1)]
  }

  /** The event of sequence number 0 is skipped. */
  function Updated(rows: Rows, e: ChangeLogEvent): Rows {
    if e.seqNo == 0 then rows else Stored(rows, e, |e.path|)
  }

  ghost function DbAfter(t: Tree, ws: seq<nat>): Rows
    requires forall i :: 0 <= i < |ws| ==> ws[i] < |t.versions|
  {
    if |ws| == 0 then map[] else Updated(DbAfter(t, ws[..|ws| - 1]), EventOf(t, ws[|ws| - 1]))
  }

  /** What the table says about one node in one version. */
  ghost predicate VersionRecorded(t: Tree, ws: set<nat>, rows: Rows, w: nat, l: nat, k: nat)
    requires l <= t.depth && w < |t.versions|
  {
    var key := (w, NodeNumber(t.depth, l, k));
    && (key in rows <==> w in ws && w > 0 && Touches(t, w, l, k))
    && (key in rows ==> rows[key] == DbRow(NodeAt(t.versions[w].leaves, l, k), l))
  }

  /** The table holds exactly the nodes that the known events, except event 0, carry. */
  ghost predicate Keeps(t: Tree, ws: set<nat>, rows: Rows) {
    && (forall w, l, k :: 0 <= w < |t.versions| && 0 <= l <= t.depth && 0 <= k < Pow2(t.depth - l) ==>
          VersionRecorded(t, ws, rows, w, l, k))
    && (forall w, n :: (w, n) in rows ==> w in ws && 0 < w < |t.versions| && 1 <= n < Pow2(t.depth + 1))
  }

  ghost predicate Storable(t: Tree, w: nat) {
    Published(t) && w < |t.versions| && |EventOf(t, w).path| == t.depth + 1 && EventOf(t, w).seqNo == w
  }

  lemma EventsAreStorable(t: Tree, w: nat)
    requires Published(t) && w < |t.versions|
    ensures Storable(t, w)
  {
    EventNodes(t, w, 0);
  }

  /** The table after the first j nodes of event w. */
  ghost function StoredUpTo(t: Tree, w: nat, rows: Rows, j: nat): Rows
    requires Storable(t, w) && j <= t.depth + 1
  {
    Stored(rows, EventOf(t, w), j)
  }

  /** The table with the level-l node of version w put in. */
  ghost function Put(t: Tree, w: nat, l: nat, rows: Rows): Rows
    requires w < |t.versions| && l <= t.depth
  {
    var k := Shr(t.versions[w].index, l);
    rows[(w, NodeNumber(t.depth, l, k)) := DbRow(NodeAt(t.versions[w].leaves, l, k), l)]
  }

  lemma StoredStep(t: Tree, w: nat, rows: Rows, l: nat, next: nat)
    requires Storable(t, w) && l <= t.depth && next == l + 1
    ensures Shr(t.versions[w].index, l) < Pow2(t.depth - l)
    ensures StoredUpTo(t, w, rows, next) == Put(t, w, l, StoredUpTo(t, w, rows, l))
  {
    EventNodes(t, w, l);
    hide NodeAt, Shr, Published, EventOf;
  }

  /** A key after the first j nodes of event w: the event's own node, or what was there before. */
  ghost predicate LooksUp(t: Tree, w: nat, rows: Rows, after: Rows, j: nat, v: nat, l: nat, k: nat)
    requires w < |t.versions| && l <= t.depth
  {
    var key := (v, NodeNumber(t.depth, l, k));
    if v == w && l < j && Touches(t, w, l, k)
    then key in after && after[key] == DbRow(NodeAt(t.versions[w].leaves, l, k), l)
    else (key in after <==> key in rows) && (key in rows ==> after[key] == rows[key])
  }

  lemma LooksUpAfterPut(t: Tree, w: nat, rows: Rows, before: Rows, l0: nat, next: nat, v: nat, l: nat, k: nat)
    requires w < |t.versions| && l0 <= t.depth && next == l0 + 1
    requires l <= t.depth && k < Pow2(t.depth - l)
    requires Shr(t.versions[w].index, l0) < Pow2(t.depth - l0)
    requires LooksUp(t, w, rows, before, l0, v, l, k)
    ensures LooksUp(t, w, rows, Put(t, w, l0, before), next, v, l, k)
  {
    NumbersAreDistinct(t.depth, l0, Shr(t.versions[w].index, l0), l, k);
  }

  /** Every key after the first j nodes. */
  ghost predicate AllLookUp(t: Tree, w: nat, rows: Rows, after: Rows, j: nat)
    requires w < |t.versions|
  {
    && (forall v, l, k :: 0 <= v < |t.versions| && 0 <= l <= t.depth && 0 <= k < Pow2(t.depth - l) ==>
          LooksUp(t, w, rows, after, j, v, l, k))
    && (forall v, n :: (v, n) in after ==> (v, n) in rows || (v == w && 1 <= n < Pow2(t.depth + 1)))
  }

  lemma AllLookUpAfterPut(t: Tree, w: nat, rows: Rows, before: Rows, l0: nat, next: nat)
    requires w < |t.versions| && l0 <= t.depth && next == l0 + 1
    requires Shr(t.versions[w].index, l0) < Pow2(t.depth - l0)
    requires AllLookUp(t, w, rows, before, l0)
    ensures AllLookUp(t, w, rows, Put(t, w, l0, before), next)
  {
    var after := Put(t, w, l0, before);
    NumberedNode([], t.depth, l0, Shr(t.versions[w].index, l0));
    assert forall v, n :: (v, n) in after ==> (v, n) in rows || (v == w && 1 <= n < Pow2(t.depth + 1));
    hide Put, LooksUp, Pow2, Shr;
    forall v, l, k | 0 <= v < |t.versions| && 0 <= l <= t.depth && 0 <= k < Pow2(t.depth - l)
      ensures LooksUp(t, w, rows, after, next, v, l, k)
    {
      LooksUpAfterPut(t, w, rows, before, l0, next, v, l, k);
    }
  }

  lemma NothingStored(t: Tree, w: nat, rows: Rows)
    requires Storable(t, w)
    ensures AllLookUp(t, w, rows, StoredUpTo(t, w, rows, 0), 0)
  {
  }

  /** Storing an event keeps every other key, and puts in exactly its own nodes. */
  lemma {:induction false} StoredLookup(t: Tree, w: nat, rows: Rows, j: nat)
    requires Storable(t, w) && j <= t.depth + 1
    ensures w < |t.versions| && AllLookUp(t, w, rows, StoredUpTo(t, w, rows, j), j)
  {
    hide Published, StoredUpTo, AllLookUp, EventOf, Put;
    if j == 0 {
      NothingStored(t, w, rows);
    } else {
      StoredLookup(t, w, rows, j - 1);
      StoredStep(t, w, rows, j - 1, j);
      AllLookUpAfterPut(t, w, rows, StoredUpTo(t, w, rows, j - 1), j - 1, j);
    }
  }

  lemma EventKept(t: Tree, ws: set<nat>, w: nat, rows: Rows)
    requires Published(t) && w < |t.versions| && Keeps(t, ws, rows)
    ensures Keeps(t, ws + {w}, Updated(rows, EventOf(t, w)))
  {
    EventsAreStorable(t, w);
    var rows' := Updated(rows, EventOf(t, w));
    hide Published, EventOf, Stored, NodeAt;
    if w == 0 {
      EventZeroKept(t, ws, rows);
    } else {
      StoredLookup(t, w, rows, t.depth + 1);
      KeptAfterLookup(t, ws, w, rows, rows');
    }
  }

  lemma EventZeroKept(t: Tree, ws: set<nat>, rows: Rows)
    requires Keeps(t, ws, rows)
    ensures Keeps(t, ws + {0}, rows)
  {
    forall v, l, k | 0 <= v < |t.versions| && 0 <= l <= t.depth && 0 <= k < Pow2(t.depth - l)
      ensures VersionRecorded(t, ws + {0}, rows, v, l, k)
    {
      assert VersionRecorded(t, ws, rows, v, l, k);
    }
  }

  lemma KeptAfterLookup(t: Tree, ws: set<nat>, w: nat, rows: Rows, rows': Rows)
    requires 0 < w < |t.versions| && Keeps(t, ws, rows) && AllLookUp(t, w, rows, rows', t.depth + 1)
    ensures Keeps(t, ws + {w}, rows')
  {
    forall v, l, k | 0 <= v < |t.versions| && 0 <= l <= t.depth && 0 <= k < Pow2(t.depth - l)
      ensures VersionRecorded(t, ws + {w}, rows', v, l, k)
    {
      assert VersionRecorded(t, ws, rows, v, l, k);
      assert LooksUp(t, w, rows, rows', t.depth + 1, v, l, k);
    }
  }

  ghost function Known(ws: seq<nat>): set<nat> {
    set w | w in ws
  }

  lemma KnownMore(ws: seq<nat>, w: nat)
    ensures Known(ws + [w]) == Known(ws) + {w}
  {
  }

  lemma NothingKept(t: Tree, ws: seq<nat>)
    requires |ws| == 0
    ensures Keeps(t, Known(ws), map[])
  {
  }

  lemma {:induction false} DbKeeps(t: Tree, ws: seq<nat>)
    requires Published(t)
    requires forall i :: 0 <= i < |ws| ==> ws[i] < |t.versions|
    ensures Keeps(t, Known(ws), DbAfter(t, ws))
  {
    hide Published, Keeps, Updated, EventOf;
    if |ws| == 0 {
      NothingKept(t, ws);
    } else {
      var front, w := ws[..|ws| - 1], ws[|ws| - 1];
      DbKeeps(t, front);
      EventKept(t, Known(front), w, DbAfter(t, front));
      KnownMore(front, w);
      SplitLast(ws);
    }
  }

  // ----- queries

  ghost predicate HasSeq(rows: Rows, s: nat) {
    exists n :: (s, n) in rows
  }

  /** The smallest stored sequence number without a successor. */
  ghost predicate IsFirstGap(rows: Rows, g: nat) {
    && HasSeq(rows, g) && !HasSeq(rows, g + 1)
    && forall s: nat, next: nat :: HasSeq(rows, s) && !HasSeq(rows, next) && next == s + 1 ==> g <= s
  }

  ghost predicate IsMaxSeq(rows: Rows, m: nat) {
    HasSeq(rows, m) && forall s: nat :: HasSeq(rows, s) ==> s <= m
  }

  datatype DbNode = DbNode(index: nat, hash: Node, level: nat, seqNo: nat)

  /** s is the newest stored version of node n that is no newer than `upto`. */
  ghost predicate NewestUpTo(rows: Rows, n: nat, upto: nat, s: nat) {
    (s, n) in rows && s <= upto && forall v :: (v, n) in rows && v <= upto ==> v <= s
  }

  /** The database's answer to: for each of `nodes`, its newest row up to `upto`, by level. */
  ghost predicate IsDbAnswer(rows: Rows, nodes: seq<nat>, upto: nat, answer: seq<DbNode>) {
    && (forall j :: 0 <= j < |answer| ==> AnswersWith(rows, nodes, upto, answer[j]))
    && (forall i, j :: 0 <= i < j < |answer| ==> answer[i].level <= answer[j].level)
    && (forall i, j :: 0 <= i < j < |answer| ==> answer[i].index != answer[j].index)
    && (forall n, s :: n in nodes && NewestUpTo(rows, n, upto, s) ==>
        exists j :: 0 <= j < |answer| && answer[j].index == n)
  }

  ghost predicate AnswersWith(rows: Rows, nodes: seq<nat>, upto: nat, a: DbNode) {
    && a.index in nodes && NewestUpTo(rows, a.index, upto, a.seqNo)
    && rows[(a.seqNo, a.index)] == DbRow(a.hash, a.level)
  }

  /** Storing 1 .. g but not g + 1, g is the first gap, whatever else is stored beyond it. */
  lemma FirstGapIsG(t: Tree, ws: set<nat>, rows: Rows, g: nat, gap: nat)
    requires Published(t) && Keeps(t, ws, rows)
    requires 1 <= g < |t.versions| && (forall w :: 1 <= w <= g ==> w in ws) && g + 1 !in ws
    requires IsFirstGap(rows, gap)
    ensures gap == g
  {
    forall w | 1 <= w <= g
      ensures HasSeq(rows, w)
    {
      ShrBound(t.versions[w].index, t.depth, t.depth);
      assert VersionRecorded(t, ws, rows, w, t.depth, 0);
    }
    assert HasSeq(rows, g) && !HasSeq(rows, g + 1);
    var next := g + 1;
    assert !HasSeq(rows, next);
    assert HasSeq(rows, gap) && gap >= 1;
  }

  // ----- inferring a proof

  datatype Proof = Proof(root: Node, leaf: Node, proofNodes: seq<Node>, index: nat)

  class Database {
    var rows: Rows
    var emptyNodeCache: map<nat, Node>

    ghost predicate CacheRight()
      reads this
    {
      forall l :: l in emptyNodeCache ==> emptyNodeCache[l] == EmptyNode(l)
    }

    constructor ()
      ensures rows == map[] && CacheRight()
    {
      rows := map[];
      emptyNodeCache := map[];
    }

    method UpdateChangeLogs(e: ChangeLogEvent)
      modifies this`rows
      ensures rows == Updated(old(rows), e)
    {
      if e.seqNo == 0 {
        return;
      }
      for i := 0 to |e.path|
        invariant rows == Stored(old(rows), e, i)
      {
        rows := rows[(e.seqNo, e.path[i].index) := DbRow(e.path[i].node, i)];
      }
    }

    /** Memoised. */
    method EmptyNodeAt(level: nat) returns (node: Node)
      requires CacheRight()
      modifies this`emptyNodeCache
      ensures CacheRight() && node == EmptyNode(level)
      decreases level
    {
      if level in emptyNodeCache {
        return emptyNodeCache[level];
      }
      if level == 0 {
        return Empty;
      }
      var left := EmptyNodeAt(level - 1);
      var right := EmptyNodeAt(level - 1);
      node := Hash(left, right);
      emptyNodeCache := emptyNodeCache[level := node];
    }

    /** Empty nodes for the levels below the root, overwritten by the rows there are. */
    method ProofNodes(res: seq<DbNode>, depth: nat) returns (proof: seq<Node>)
      requires CacheRight()
      requires forall j :: 0 <= j < |res| ==> res[j].level < depth
      modifies this`emptyNodeCache
      ensures CacheRight() && |proof| == depth
      ensures forall l :: 0 <= l < depth ==> PlacedNode(res, |res|, l, proof[l])
    {
      proof := [];
      for i := 0 to depth
        invariant CacheRight() && |proof| == i
        invariant forall l {:trigger proof[l]} :: 0 <= l < i ==> proof[l] == EmptyNode(l)
      {
        var e := EmptyNodeAt(i);
        proof := proof + [e];
      }
      for j := 0 to |res|
        invariant |proof| == depth
        invariant forall l :: 0 <= l < depth ==> PlacedNode(res, j, l, proof[l])
      {
        proof := proof[res[j].level := res[j].hash];
      }
    }

    /** `generateRoot` */
    method GenerateRoot(leaf: Node, proofNodes: seq<Node>, index: nat) returns (node: Node)
      ensures node == RootFromProof(leaf, proofNodes, index)
    {
      node := leaf;
      for i := 0 to |proofNodes|
        invariant node == Climb(leaf, proofNodes, index, i)
      {
        node := HashToParent(node, proofNodes[i], Shr(index, i) % 2 == 0);
      }
    }

    /** `generateProof`. `answer` is the database's reply; `inferRoot` says that a maximal sequence
        number was given, in which case the root is recomputed instead of read. */
    method GenerateProof(nodeIdx: nat, hash: Node, answer: seq<DbNode>, inferRoot: bool, check: bool,
                         ghost t: Tree, ghost ws: set<nat>, ghost g: nat, ghost i: nat) returns (proof: Option<Proof>)
      requires CacheRight() && Published(t) && Keeps(t, ws, rows)
      requires i < Pow2(t.depth) && nodeIdx == Pow2(t.depth) + i
      requires 1 <= g < |t.versions| && forall w :: 1 <= w <= g ==> w in ws
      requires IsDbAnswer(rows, NeededNodes(t.depth, i), g, answer)
      modifies this`emptyNodeCache
      ensures CacheRight()
      ensures proof.Some? <==> inferRoot || !check || hash == t.versions[g].leaves[i]
      ensures proof.Some? ==>
        && proof.value.leaf == hash && proof.value.index == i
        && proof.value.proofNodes == AuthPath(t.versions[g].leaves, t.depth, i)
        && proof.value.root
             == (if inferRoot then RootFromProof(hash, proof.value.proofNodes, i)
             else Root(t.versions[g].leaves, t.depth))
    {
      StartNumber(t.depth, i);
      var nodes := GetRequiredNodesForProof(nodeIdx, t.depth, i, 0);
      RootAnsweredLast(t, ws, rows, g, i, answer);
      if |answer| < 1 {
        return None;
      }
      var res, top := answer[..|answer| - 1], answer[|answer| - 1];
      if top.index != 1 {
        return None;
      }
      var proofNodes := ProofNodes(res, top.level);
      AnsweredProof(t, ws, rows, g, i, answer, proofNodes);
      var leafIdx := nodeIdx - Pow2(top.level);
      var rehashed := GenerateRoot(hash, proofNodes, leafIdx);
      var root := if inferRoot then rehashed else top.hash;
      LowSmall(i, t.depth);
      ProofExact(t.versions[g].leaves, t.depth, hash, proofNodes, i);
      if check && rehashed != root {
        return None;
      }
      proof := Some(Proof(root, hash, proofNodes, leafIdx));
    }

    /** `getInferredProof`, from the answers of its queries: the newest sequence number, the first
        gap, the depth, and the position of the leaf. Up to the gap the proof is inferred, without a gap read. */
    method GetInferredProof(depth: nat, hash: Node, latestSeq: nat, gapSeq: nat, nonce: nat, answer: seq<DbNode>,
                            check: bool,
                            ghost t: Tree, ghost ws: set<nat>, ghost g: nat) returns (proof: Option<Proof>)
      requires CacheRight() && Published(t) && Keeps(t, ws, rows)
      requires 1 <= g < |t.versions| && (forall w :: 1 <= w <= g ==> w in ws) && g + 1 !in ws
      requires depth == t.depth && nonce < Pow2(depth)
      requires IsMaxSeq(rows, latestSeq) && IsFirstGap(rows, gapSeq)
      requires IsDbAnswer(rows, NeededNodes(t.depth, nonce), gapSeq, answer)
      modifies this`emptyNodeCache
      ensures CacheRight()
      ensures proof.Some? <==> gapSeq < latestSeq || !check || hash == t.versions[g].leaves[nonce]
      ensures proof.Some? ==>
        && proof.value.leaf == hash && proof.value.index == nonce
        && proof.value.proofNodes == AuthPath(t.versions[g].leaves, t.depth, nonce)
      ensures hash == t.versions[g].leaves[nonce] ==>
        proof.Some? && proof.value.root == Root(t.versions[g].leaves, t.depth)
      ensures proof.Some? && gapSeq < latestSeq ==>
        && proof.value.root == RootFromProof(hash, proof.value.proofNodes, nonce)
        && (proof.value.root == Root(t.versions[g].leaves, t.depth) <==> hash == t.versions[g].leaves[nonce])
      ensures proof.Some? ==> Served(t, g, proof.value)
    {
      FirstGapIsG(t, ws, rows, g, gapSeq);
      proof := GenerateProof(Pow2(depth) + nonce, hash, answer, gapSeq < latestSeq, check, t, ws, g, nonce);
      LowSmall(nonce, t.depth);
      ProofExact(t.versions[g].leaves, t.depth, hash, AuthPath(t.versions[g].leaves, t.depth, nonce), nonce);
    }
  }

  /** After the first j rows are placed: the last row of the level, or still the empty node. */
  ghost predicate PlacedNode(res: seq<DbNode>, j: nat, l: nat, node: Node)
    requires j <= |res|
  {
    || (node == EmptyNode(l) && forall m :: 0 <= m < j ==> res[m].level != l)
    || exists m :: 0 <= m < j && res[m].level == l && res[m].hash == node
  }

  /** The newest row of a node up to g is the node of version g; without a row it is empty. */
  lemma NodeUpTo(t: Tree, ws: set<nat>, rows: Rows, g: nat, l: nat, k: nat, s: nat)
    requires Published(t) && Keeps(t, ws, rows) && l <= t.depth && k < Pow2(t.depth - l)
    requires 1 <= g < |t.versions| && forall w :: 1 <= w <= g ==> w in ws
    ensures var n, node := NodeNumber(t.depth, l, k), NodeAt(t.versions[g].leaves, l, k);
      && (NewestUpTo(rows, n, g, s) ==> rows[(s, n)] == DbRow(node, l))
      && ((forall v :: v <= g ==> (v, n) !in rows) ==> node == EmptyNode(l))
  {
    var n := NodeNumber(t.depth, l, k);
    var upTo := set w | w in ws && 1 <= w <= g;
    forall w | w in upTo
      ensures (w, n) in rows <==> Touches(t, w, l, k)
    {
      assert VersionRecorded(t, ws, rows, w, l, k);
    }
    if NewestUpTo(rows, n, g, s) {
      assert VersionRecorded(t, ws, rows, s, l, k);
      assert Latest(t, upTo, l, k, s);
      AllEventsDetermineNodes(t, upTo, g, l, k, s);
    }
    if forall v :: v <= g ==> (v, n) !in rows {
      assert NoneTouches(t, upTo, l, k);
      AllEventsDetermineNodes(t, upTo, g, l, k, 0);
    }
  }

  lemma NeededUpTo(t: Tree, ws: set<nat>, rows: Rows, g: nat, i: nat, l: nat, s: nat)
    requires Published(t) && Keeps(t, ws, rows) && i < Pow2(t.depth) && l <= t.depth
    requires 1 <= g < |t.versions| && forall w :: 1 <= w <= g ==> w in ws
    ensures var n, leaves := NeededNode(t.depth, i, l), t.versions[g].leaves;
            var node := if l < t.depth then SiblingAt(leaves, i, l) else Root(leaves, t.depth);
      && (NewestUpTo(rows, n, g, s) ==> rows[(s, n)] == DbRow(node, l))
      && ((forall v :: v <= g ==> (v, n) !in rows) ==> node == EmptyNode(l))
  {
    NeededNodeRange(t.depth, i, l);
    assert Pow2(0) == 1;
    NodeUpTo(t, ws, rows, g, l, if l < t.depth then Sib(Shr(i, l)) else 0, s);
  }

  lemma {:induction false} NewestExists(rows: Rows, n: nat, upto: nat, v: nat) returns (s: nat)
    requires (v, n) in rows && v <= upto
    ensures NewestUpTo(rows, n, upto, s)
  {
    if (upto, n) in rows {
      s := upto;
    } else {
      s := NewestExists(rows, n, upto - 1, v);
    }
  }

  /** What the tables know up to g, as one condition. */
  ghost predicate KnowsUpTo(t: Tree, ws: set<nat>, rows: Rows, g: nat, i: nat, answer: seq<DbNode>) {
    && Published(t) && Keeps(t, ws, rows) && i < Pow2(t.depth)
    && 1 <= g < |t.versions| && (forall w :: 1 <= w <= g ==> w in ws)
    && IsDbAnswer(rows, NeededNodes(t.depth, i), g, answer)
  }

  /** Each answered row is the version-g node at the level it says, which is its place on the way up. */
  lemma AnsweredNode(t: Tree, ws: set<nat>, rows: Rows, g: nat, i: nat, answer: seq<DbNode>, j: nat)
    requires KnowsUpTo(t, ws, rows, g, i, answer) && j < |answer|
    ensures var a := answer[j];
      && a.level <= t.depth && a.index == NeededNode(t.depth, i, a.level)
      && a.hash == if a.level < t.depth then SiblingAt(t.versions[g].leaves, i, a.level)
          else Root(t.versions[g].leaves, t.depth)
  {
    var a := answer[j];
    assert AnswersWith(rows, NeededNodes(t.depth, i), g, a);
    var l :| 0 <= l <= t.depth && NeededNodes(t.depth, i)[l] == a.index;
    NeededUpTo(t, ws, rows, g, i, l, a.seqNo);
  }

  /** A needed node without an answer is empty in version g. */
  lemma UnansweredNode(t: Tree, ws: set<nat>, rows: Rows, g: nat, i: nat, answer: seq<DbNode>, l: nat)
    requires KnowsUpTo(t, ws, rows, g, i, answer) && l < t.depth
    requires forall j :: 0 <= j < |answer| ==> answer[j].level != l
    ensures SiblingAt(t.versions[g].leaves, i, l) == EmptyNode(l)
  {
    var n := NeededNode(t.depth, i, l);
    assert NeededNodes(t.depth, i)[l] == n;
    forall v | v <= g
      ensures (v, n) !in rows
    {
      if (v, n) in rows {
        var s := NewestExists(rows, n, g, v);
        var j :| 0 <= j < |answer| && answer[j].index == n;
        AnsweredNode(t, ws, rows, g, i, answer, j);
        SameLevel(t.depth, i, l, answer[j].level);
      }
    }
    NeededUpTo(t, ws, rows, g, i, l, 0);
  }

  lemma SameLevel(depth: nat, i: nat, l: nat, m: nat)
    requires i < Pow2(depth) && l <= depth && m <= depth
    requires NeededNode(depth, i, l) == NeededNode(depth, i, m)
    ensures l == m
  {
    if l < m {
      NeededNodesDescend(depth, i, l, m);
    } else if m < l {
      NeededNodesDescend(depth, i, m, l);
    }
  }

  /** The root is answered, and last; all other rows are of lower levels. */
  lemma RootAnsweredLast(t: Tree, ws: set<nat>, rows: Rows, g: nat, i: nat, answer: seq<DbNode>)
    requires KnowsUpTo(t, ws, rows, g, i, answer)
    ensures |answer| >= 1
    ensures var top := answer[|answer| - 1];
      top.index == 1 && top.level == t.depth && top.hash == Root(t.versions[g].leaves, t.depth)
    ensures forall j :: 0 <= j < |answer| - 1 ==> answer[j].level < t.depth
  {
    ShrBound(t.versions[g].index, t.depth, t.depth);
    assert Pow2(0) == 1 && NodeNumber(t.depth, t.depth, 0) == 1;
    assert VersionRecorded(t, ws, rows, g, t.depth, 0);
    assert (g, 1) in rows;
    var s := NewestExists(rows, 1, g, g);
    assert NeededNodes(t.depth, i)[t.depth] == 1;
    var r :| 0 <= r < |answer| && answer[r].index == 1;
    AnsweredNode(t, ws, rows, g, i, answer, r);
    SameLevel(t.depth, i, t.depth, answer[r].level);
    var last := |answer| - 1;
    AnsweredNode(t, ws, rows, g, i, answer, last);
    assert answer[r].level <= answer[last].level;
    forall j | 0 <= j < last
      ensures answer[j].level < t.depth
    {
      AnsweredNode(t, ws, rows, g, i, answer, j);
      assert answer[j].index != answer[last].index;
    }
  }

  /** The rows placed by level over the empty nodes make the authentication path of version g. */
  lemma AnsweredProof(t: Tree, ws: set<nat>, rows: Rows, g: nat, i: nat, answer: seq<DbNode>, proofNodes: seq<Node>)
    requires KnowsUpTo(t, ws, rows, g, i, answer)
    requires |answer| >= 1 && answer[|answer| - 1].level == t.depth && |proofNodes| == t.depth
    requires forall l :: 0 <= l < t.depth ==> PlacedNode(answer[..|answer| - 1], |answer| - 1, l, proofNodes[l])
    ensures proofNodes == AuthPath(t.versions[g].leaves, t.depth, i)
  {
    var res := answer[..|answer| - 1];
    forall l | 0 <= l < t.depth
      ensures proofNodes[l] == SiblingAt(t.versions[g].leaves, i, l)
    {
      assert PlacedNode(res, |res|, l, proofNodes[l]);
      if m :| 0 <= m < |res| && res[m].level == l && res[m].hash == proofNodes[l] {
        AnsweredNode(t, ws, rows, g, i, answer, m);
      } else {
        assert forall j :: 0 <= j < |res| ==> res[j] == answer[j];
        UnansweredNode(t, ws, rows, g, i, answer, l);
      }
    }
  }

  // ----- on chain

  /** The kind of proof that the indexer serves when it knows version g: the path of that version, for
      any leaf hash, with the root of that version or the one that hash and path lead to. */
  ghost predicate Served(t: Tree, g: nat, proof: Proof)
    requires g < |t.versions|
  {
    && proof.index < Pow2(t.depth)
    && proof.proofNodes == AuthPath(t.versions[g].leaves, t.depth, proof.index)
    && (|| proof.root == RootFromProof(proof.leaf, proof.proofNodes, proof.index)
        || proof.root == Root(t.versions[g].leaves, t.depth))
  }

  /** A proof inferred up to a gap is accepted by the roll while version g is in the window if and only
      if its leaf hash is the current leaf: also when the asset was written after the gap, so that the
      inferred root was never the root of any version. */
  lemma GappedProofAcceptedOnChain(t: Tree, g: nat, proof: Proof, newLeaf: Node)
    requires Published(t) && Oldest(t) <= g <= Newest(t)
    requires Served(t, g, proof) && proof.index <= t.next
    ensures var r := SetLeaf(t, proof.root, proof.leaf, newLeaf, proof.proofNodes, proof.index);
      if Leaves(t)[proof.index] == proof.leaf then r.1.Ok? && Leaves(r.0) == Leaves(t)[proof.index := newLeaf]
      else r.0 == t && r.1 in {Err(LeafContentsModified), Err(InvalidProof)}
  {
    LowSmall(proof.index, t.depth);
    NoAliasPanic(t, ReplayStart(t, proof.root), proof.index);
    ServedProofHolds(t, g, proof);
    hide Published, Served, ReplayStart, SetLeaf, AliasWritten, ProofHolds;
    HoldingProofVerdict(t, proof.root, proof.leaf, newLeaf, proof.proofNodes, proof.index);
  }

  /** A proof that is right after the replay is accepted if and only if its leaf is current. */
  lemma HoldingProofVerdict(t: Tree, root: Node, leaf: Node, newLeaf: Node, proof: seq<Node>, index: nat)
    requires Wellformed(t) && index < Pow2(t.depth) && index <= t.next && |proof| == t.depth
    requires !AliasWritten(t, ReplayStart(t, root), Newest(t), index)
    requires ProofHolds(t, ReplayStart(t, root), proof, index)
    ensures var r := SetLeaf(t, root, leaf, newLeaf, proof, index);
      if Leaves(t)[index] == leaf then r.1.Ok? && Leaves(r.0) == Leaves(t)[index := newLeaf]
      else r.0 == t && r.1 in {Err(LeafContentsModified), Err(InvalidProof)}
  {
    hide ProofHolds, AliasWritten, ReplayStart, LeafWritten, NewestMatch;
    LowSmall(index, t.depth);
    CompleteProofIsItself(proof);
  }

  lemma ServedProofHolds(t: Tree, g: nat, proof: Proof)
    requires Published(t) && Oldest(t) <= g <= Newest(t) && Served(t, g, proof)
    ensures ProofHolds(t, ReplayStart(t, proof.root), proof.proofNodes, proof.index)
  {
    hide ProofHolds, Published, Served;
    if NewestMatch(t, proof.root) >= 0 {
      MatchedProofHolds(t, g, proof);
    } else {
      OlderProofHolds(t, g, ReplayStart(t, proof.root), proof);
    }
  }

  /** Replaying the writes after version m <= g, or after any version with the leaves of g, brings the
      path of g up to date. */
  lemma OlderProofHolds(t: Tree, g: nat, m: int, proof: Proof)
    requires Published(t) && m <= g <= Newest(t) && Served(t, g, proof)
    ensures ProofHolds(t, m, proof.proofNodes, proof.index)
  {
    LowSmall(proof.index, t.depth);
    forall l | 0 <= l < t.depth && !SiblingTouched(t, m, Newest(t), proof.index, l)
      ensures proof.proofNodes[l] == SiblingAt(Leaves(t), proof.index, l)
    {
      UntouchedSibling(t, g, Newest(t), proof.index, l);
    }
  }

  /** If the proof's root is that of a version in the window, the path of g is the path of that version. */
  lemma MatchedProofHolds(t: Tree, g: nat, proof: Proof)
    requires Published(t) && Oldest(t) <= g <= Newest(t) && Served(t, g, proof)
    requires NewestMatch(t, proof.root) >= 0
    ensures ProofHolds(t, NewestMatch(t, proof.root), proof.proofNodes, proof.index)
  {
    var m := NewestMatch(t, proof.root);
    LowSmall(proof.index, t.depth);
    if proof.root == Root(t.versions[g].leaves, t.depth) {
      RootIsInjective(t.versions[g].leaves, t.versions[m].leaves, t.depth);
    } else {
      ProofExact(t.versions[m].leaves, t.depth, proof.leaf, proof.proofNodes, proof.index);
    }
    forall l | 0 <= l < t.depth && !SiblingTouched(t, m, Newest(t), proof.index, l)
      ensures proof.proofNodes[l] == SiblingAt(Leaves(t), proof.index, l)
    {
      UntouchedSibling(t, m, Newest(t), proof.index, l);
    }
  }

  // ----- an asset written after the gap

  lemma WriteInPlace(t: Tree, i: nat, x: Node)
    requires Wellformed(t) && NoAliases(t) && i < Pow2(t.depth) && i <= t.next
    ensures |t.versions| > 0 && |Leaves(t)| == Pow2(t.depth)
    ensures var t' := Write(t, i, x);
      && Wellformed(t') && NoAliases(t') && t'.depth == t.depth && t'.capacity == t.capacity
      && t'.versions == t.versions + [Version(Leaves(t)[i := x], i)]
      && t'.next == if t.next == i then i + 1 else t.next
  {
    LowSmall(i, t.depth);
    WriteIsWellformed(t, i, x);
  }

  lemma AtLeastTwoLeaves(depth: nat)
    requires depth > 0
    ensures Pow2(depth) >= 2
  {
  }

  /** The tree after three writes: leaf 0 becomes a, leaf 1 becomes b, leaf 0 becomes c. */
  ghost function WrittenTwice(depth: nat, capacity: nat, a: Node, b: Node, c: Node): (t: Tree)
    requires Supported(depth, capacity)
    ensures Published(t) && t.depth == depth && t.capacity == capacity && t.next == 2
    ensures |t.versions| == 4 && t.versions[3].index == 0
    ensures forall v :: 0 <= v < 4 ==> |t.versions[v].leaves| == Pow2(depth) >= 2
    ensures t.versions[0].leaves[0] == Empty && t.versions[1].leaves[..2] == [a, Empty]
    ensures t.versions[2].leaves[1] == b && t.versions[3].leaves[..2] == [c, b]
  {
    AtLeastTwoLeaves(depth);
    InitialIsWellformed(depth, capacity);
    var t0 := Initial(depth, capacity);
    WriteInPlace(t0, 0, a);
    var t1 := Write(t0, 0, a);
    WriteInPlace(t1, 1, b);
    var t2 := Write(t1, 1, b);
    WriteInPlace(t2, 0, c);
    Write(t2, 0, c)
  }

  /** Events 1 and 3 are known, 2 is the gap, and the asset is looked up by the hash c that event 3
      wrote. The root inferred for it is not that of version 1, nor of any other version, and the roll
      accepts the proof all the same. */
  lemma LeafAfterGapAccepted(depth: nat, capacity: nat, a: Node, b: Node, c: Node, newLeaf: Node)
    requires Supported(depth, capacity) && capacity >= 4
    requires a != c && b != Empty && c != Empty
    ensures var t, ws, g := WrittenTwice(depth, capacity, a, b, c), {1, 3}, 1;
            var path := AuthPath(t.versions[g].leaves, depth, 0);
            var root := RootFromProof(c, path, 0);
      && Published(t) && t.depth == depth
      && g in ws && g + 1 !in ws && 3 in ws && t.versions[3].index == 0
      && (forall v :: 0 <= v < |t.versions| ==> Root(t.versions[v].leaves, depth) != root)
      && SetLeaf(t, root, c, newLeaf, path, 0).1.Ok?
  {
    var t := WrittenTwice(depth, capacity, a, b, c);
    hide WrittenTwice;
    assert t.versions[1].leaves[1] == t.versions[1].leaves[..2][1]
      && t.versions[3].leaves[1] == t.versions[3].leaves[..2][1];
    assert t.versions[1].leaves[0] == t.versions[1].leaves[..2][0]
      && t.versions[3].leaves[0] == t.versions[3].leaves[..2][0];
    var path := AuthPath(t.versions[1].leaves, depth, 0);
    var root := RootFromProof(c, path, 0);
    LowSmall(0, depth);
    forall v | 0 <= v < 4
      ensures Root(t.versions[v].leaves, depth) != root
    {
      ProofExact(t.versions[v].leaves, depth, c, path, 0);
      assert path[0] == SiblingAt(t.versions[1].leaves, 0, 0) == Empty;
      assert SiblingAt(t.versions[v].leaves, 0, 0) == t.versions[v].leaves[1];
    }
    GappedProofAcceptedOnChain(t, 1, Proof(root, c, path, 0), newLeaf);
  }
}
