/** Serving proofs from the table of latest hashes. */
module ProofService {
  import opened Bits
  import opened Merkle
  import opened VersionedTree
  import opened Canopy
  import opened Events
  import opened Ingester

  /** A row as the query returns it, and as it is served. */
  datatype NodeView = NodeView(hash: Node, level: nat, index: nat, seqNo: nat)

  /** The answer of the database to the query for `nodes`: the rows of those nodes that are no newer
      than the root's row, by descending number. */
  ghost predicate IsAnswer(rows: Table, nodes: seq<nat>, answer: seq<NodeView>) {
    && (forall j :: 0 <= j < |answer| ==>
        Selected(rows, nodes, answer[j].index) && answer[j] == ViewOf(rows, answer[j].index))
    && (forall i, j :: 0 <= i < j < |answer| ==> answer[i].index > answer[j].index)
    && (forall n :: Selected(rows, nodes, n) ==> exists j :: 0 <= j < |answer| && answer[j].index == n)
  }

  ghost predicate Selected(rows: Table, nodes: seq<nat>, n: nat) {
    n in nodes && n in rows && 1 in rows && rows[n].seqNo <= rows[1].seqNo
  }

  function ViewOf(rows: Table, n: nat): NodeView
    requires n in rows
  {
    NodeView(rows[n].hash, rows[n].level, n, rows[n].seqNo)
  }

  /** `make_empty_node` */
  function MakeEmptyNode(level: nat, nodeIndex: nat): NodeView {
    NodeView(EmptyNode(level), level, nodeIndex, 0)
  }

  datatype Reply = Found(nodes: seq<NodeView>) | TreeCorrupted

  /** What should be served for the node at level l on the way: its row, or an empty node. */
  ghost function Expected(rows: Table, depth: nat, i: nat, l: nat): NodeView
    requires l <= depth
  {
    var n := NeededNode(depth, i, l);
    if Selected(rows, NeededNodes(depth, i), n) then ViewOf(rows, n) else MakeEmptyNode(l, n)
  }

  // ----- descending lists

  ghost predicate Descending(s: seq<nat>) {
    forall i, j :: 0 <= i < j < |s| ==> s[i] > s[j]
  }

  /** An element of a descending list that is followed by as many elements as another list has left
      cannot stand further to the right than its place. */
  lemma {:induction false} NotBefore(a: seq<nat>, b: seq<nat>, j: nat, f: nat)
    requires Descending(a) && Descending(b)
    requires forall x :: x in a ==> x in b
    requires j < |a| && f < |b| && a[j] == b[f]
    ensures f >= j
  {
    if j > 0 {
      assert a[j - 1] in b;
      var g :| 0 <= g < |b| && b[g] == a[j - 1];
      NotBefore(a, b, j - 1, g);
      assert a[j - 1] > a[j];
    }
  }

  lemma {:induction false} NotAfter(a: seq<nat>, b: seq<nat>, j: nat, f: nat)
    requires Descending(a) && Descending(b) && |a| == |b|
    requires forall x :: x in a ==> x in b
    requires j < |a| && f < |b| && a[j] == b[f]
    ensures f <= j
    decreases |a| - j
  {
    if j < |a| - 1 {
      assert a[j + 1] in b;
      var g :| 0 <= g < |b| && b[g] == a[j + 1];
      NotAfter(a, b, j + 1, g);
      assert a[j + 1] < a[j];
    }
  }

  /** Two descending lists of one length, the one's elements among the other's, are the same list. */
  lemma SameDescendingList(a: seq<nat>, b: seq<nat>)
    requires Descending(a) && Descending(b) && |a| == |b|
    requires forall x :: x in a ==> x in b
    ensures a == b
  {
    forall j | 0 <= j < |a|
      ensures a[j] == b[j]
    {
      assert a[j] in b;
      var f :| 0 <= f < |b| && b[f] == a[j];
      NotBefore(a, b, j, f);
      NotAfter(a, b, j, f);
    }
  }

  /** A descending list among the elements of another is no longer than it. */
  lemma NoLonger(a: seq<nat>, b: seq<nat>)
    requires Descending(a) && Descending(b)
    requires forall x :: x in a ==> x in b
    ensures |a| <= |b|
  {
    if |a| > 0 {
      assert a[|a| - 1] in b;
      var f :| 0 <= f < |b| && b[f] == a[|a| - 1];
      NotBefore(a, b, |a| - 1, f);
    }
  }

  ghost function Indices(answer: seq<NodeView>): seq<nat> {
    seq(|answer|, j requires 0 <= j < |answer| => answer[j].index)
  }

  lemma NeededDescending(depth: nat, i: nat, b: nat)
    requires i < Pow2(depth) && b <= depth
    ensures Descending(NeededFrom(depth, i, b))
  {
    forall l, m | 0 <= l < m < depth + 1
      ensures NeededNodes(depth, i)[l] > NeededNodes(depth, i)[m]
    {
      NeededNodesDescend(depth, i, l, m);
    }
  }

  /** An answer has no more rows than were asked for, and with as many it is the list asked for, place
      by place: the database's order is the order of the levels. */
  lemma AnswerFits(rows: Table, depth: nat, i: nat, b: nat, answer: seq<NodeView>)
    requires i < Pow2(depth) && b <= depth && IsAnswer(rows, NeededFrom(depth, i, b), answer)
    ensures |answer| <= depth + 1 - b
    ensures |answer| == depth + 1 - b ==> Indices(answer) == NeededFrom(depth, i, b)
  {
    NeededDescending(depth, i, b);
    forall x | x in Indices(answer)
      ensures x in NeededFrom(depth, i, b)
    {
    }
    NoLonger(Indices(answer), NeededFrom(depth, i, b));
    if |answer| == depth + 1 - b {
      SameDescendingList(Indices(answer), NeededFrom(depth, i, b));
    }
  }

  /** The rows of needed nodes stand at their own levels. */
  ghost predicate LevelsRight(rows: Table, depth: nat, i: nat) {
    forall l :: 0 <= l <= depth && NeededNode(depth, i, l) in rows ==> rows[NeededNode(depth, i, l)].level == l
  }

  /** With every row present, the answer is already the list to serve. */
  lemma FullAnswerIsExpected(rows: Table, depth: nat, i: nat, b: nat, answer: seq<NodeView>, j: nat)
    requires i < Pow2(depth) && b <= depth && IsAnswer(rows, NeededFrom(depth, i, b), answer)
    requires |answer| == depth + 1 - b && j < |answer|
    ensures answer[j] == Expected(rows, depth, i, b + j)
  {
    AnswerFits(rows, depth, i, b, answer);
    assert Indices(answer)[j] == NeededFrom(depth, i, b)[j] == NeededNodes(depth, i)[b + j];
    assert Selected(rows, NeededFrom(depth, i, b), answer[j].index);
  }

  /** The list that should be served for the node at level b above leaf i. */
  ghost predicate IsExpected(rows: Table, depth: nat, i: nat, b: nat, nodes: seq<NodeView>)
    requires b <= depth
  {
    |nodes| == depth + 1 - b && forall j :: 0 <= j < |nodes| ==> nodes[j] == Expected(rows, depth, i, b + j)
  }

  /** `get_proof_and_root`, for the number of any node of the tree: the nodes of its proof by level and
      the root. A list with missing rows is filled up by absolute level, as if the node were a leaf; so
      the reply is right if and only if no row is missing or the node is a leaf. */
  method GetProofAndRoot(index: nat, answer: seq<NodeView>, ghost rows: Table, ghost depth: nat, ghost i: nat,
                         ghost b: nat)
    returns (reply: Reply)
    requires i < Pow2(depth) && b <= depth && index == NodeNumber(depth, b, Shr(i, b))
    requires IsAnswer(rows, NeededFrom(depth, i, b), answer)
    requires LevelsRight(rows, depth, i)
    ensures reply.Found? && |reply.nodes| == depth + 1 - b
    ensures IsExpected(rows, depth, i, b, reply.nodes) <==> |answer| == depth + 1 - b || b == 0
  {
    var nodes := GetRequiredNodesForProof(index, depth, i, b);
    var expectedProofSize := |nodes|;
    AnswerFits(rows, depth, i, b, answer);
    hide IsAnswer, LevelsRight, NeededFrom, Shr, Expected, IsPlaced;
    if |answer| > expectedProofSize {
      return TreeCorrupted;
    }
    if |answer| != expectedProofSize {
      var placed := PlaceByLevel(answer, expectedProofSize);
      var final: seq<NodeView> := [];
      for l := 0 to expectedProofSize
        invariant |final| == l
        invariant forall m :: 0 <= m < l ==>
          final[m] == (if placed[m].None? then MakeEmptyNode(m, nodes[m]) else placed[m].value)
      {
        final := final + [if placed[l].None? then MakeEmptyNode(l, nodes[l]) else placed[l].value];
      }
      FilledUpByLevel(rows, depth, i, b, answer, placed, nodes, final);
      reply := Found(final);
    } else {
      forall j | 0 <= j < |answer|
        ensures answer[j] == Expected(rows, depth, i, b + j)
      {
        FullAnswerIsExpected(rows, depth, i, b, answer, j);
      }
      reply := Found(answer);
    }
  }

  /** Every row of the answer is put at its level, if there is such a place. */
  method PlaceByLevel(answer: seq<NodeView>, size: nat) returns (placed: seq<Option<NodeView>>)
    requires forall i, j :: 0 <= i < j < |answer| ==> answer[i].index != answer[j].index
    ensures |placed| == size
    ensures forall l :: 0 <= l < size ==> IsPlaced(answer, |answer|, l, placed[l])
  {
    placed := seq(size, _ => None);
    for j := 0 to |answer|
      invariant |placed| == size
      invariant forall l :: 0 <= l < size ==> IsPlaced(answer, j, l, placed[l])
    {
      if answer[j].level < size {
        placed := placed[answer[j].level := Some(answer[j])];
      }
    }
  }

  /** Among the first j rows, the last one of level l. */
  ghost predicate IsPlaced(answer: seq<NodeView>, j: nat, l: nat, place: Option<NodeView>)
    requires j <= |answer|
  {
    match place
    case None => forall g :: 0 <= g < j ==> answer[g].level != l
    case Some(view) => exists g :: 0 <= g < j && answer[g] == view && view.level == l
  }

  /** For a leaf, the row placed at a level, or an empty node, is what should be served there. */
  lemma PlacedIsExpected(rows: Table, depth: nat, i: nat, answer: seq<NodeView>, placed: seq<Option<NodeView>>, l: nat)
    requires i < Pow2(depth) && IsAnswer(rows, NeededFrom(depth, i, 0), answer)
    requires LevelsRight(rows, depth, i)
    requires l <= depth && |placed| == depth + 1 && IsPlaced(answer, |answer|, l, placed[l])
    ensures (if placed[l].None? then MakeEmptyNode(l, NeededNode(depth, i, l)) else placed[l].value)
         == Expected(rows, depth, i, l)
  {
    var nodes, n := NeededNodes(depth, i), NeededNode(depth, i, l);
    assert NeededFrom(depth, i, 0) == nodes;
    if placed[l].Some? {
      var g :| 0 <= g < |answer| && answer[g] == placed[l].value;
      assert answer[g].index in nodes;
      var m :| 0 <= m <= depth && nodes[m] == answer[g].index;
      assert rows[NeededNode(depth, i, m)].level == m;
    } else {
      assert forall g :: 0 <= g < |answer| ==> answer[g].index != n;
    }
  }

  /** For an inner node, nothing fits the first place: every needed node stands higher up. */
  lemma FirstPlaceIsWrong(rows: Table, depth: nat, i: nat, b: nat, answer: seq<NodeView>, place: Option<NodeView>)
    requires i < Pow2(depth) && 0 < b <= depth && IsAnswer(rows, NeededFrom(depth, i, b), answer)
    requires LevelsRight(rows, depth, i) && IsPlaced(answer, |answer|, 0, place)
    ensures place.None? && Expected(rows, depth, i, b).level == b
  {
    forall g | 0 <= g < |answer|
      ensures answer[g].level != 0
    {
      assert Selected(rows, NeededFrom(depth, i, b), answer[g].index);
      var j :| 0 <= j < |NeededFrom(depth, i, b)| && NeededFrom(depth, i, b)[j] == answer[g].index;
      assert NeededNodes(depth, i)[b + j] == NeededNode(depth, i, b + j);
    }
  }

  lemma FilledUpByLevel(rows: Table, depth: nat, i: nat, b: nat, answer: seq<NodeView>, placed: seq<Option<NodeView>>,
                        nodes: seq<nat>, final: seq<NodeView>)
    requires i < Pow2(depth) && b <= depth && IsAnswer(rows, NeededFrom(depth, i, b), answer)
    requires LevelsRight(rows, depth, i)
    requires nodes == NeededFrom(depth, i, b) && |placed| == |final| == |nodes|
    requires forall l :: 0 <= l < |placed| ==> IsPlaced(answer, |answer|, l, placed[l])
    requires forall m :: 0 <= m < |final| ==>
      final[m] == if placed[m].None? then MakeEmptyNode(m, nodes[m]) else placed[m].value
    ensures IsExpected(rows, depth, i, b, final) <==> b == 0
  {
    if b == 0 {
      forall l | 0 <= l < |final|
        ensures final[l] == Expected(rows, depth, i, b + l)
      {
        PlacedIsExpected(rows, depth, i, answer, placed, l);
      }
    } else {
      FirstPlaceIsWrong(rows, depth, i, b, answer, placed[0]);
      assert final[0].level != Expected(rows, depth, i, b + 0).level;
    }
  }

  // ----- what the service promises

  /** The events of all versions have arrived, in some order and with any repetitions. */
  ghost predicate AllArrived(t: Tree, ws: seq<nat>) {
    && (forall j :: 0 <= j < |ws| ==> ws[j] < |t.versions|)
    && (forall w: nat :: w < |t.versions| ==> w in ws)
  }

  /** Then the table is the current tree: every row holds the current node, every missing one is empty. */
  lemma CompleteTableIsTheTree(t: Tree, ws: seq<nat>, l: nat, k: nat)
    requires Published(t) && AllArrived(t, ws)
    requires l <= t.depth && k < Pow2(t.depth - l)
    ensures var rows, n := TableAfter(t, ws), NodeNumber(t.depth, l, k);
      if n in rows then rows[n].hash == NodeAt(Leaves(t), l, k) && rows[n].level == l
      else NodeAt(Leaves(t), l, k) == EmptyNode(l)
  {
    var rows, n := TableAfter(t, ws), NodeNumber(t.depth, l, k);
    TableRecords(t, ws);
    assert NodeRecorded(t, Arrived(ws), rows, l, k);
    hide Records, Published, TableAfter, EmptyNode, NodeAt;
    AllEventsDetermineNodes(t, Arrived(ws), Newest(t), l, k, if n in rows then rows[n].seqNo else 0);
  }

  /** What is served for leaf i is then its current authentication path and root, every node with its level
      and its number. */
  lemma ServedNodesAreCurrent(t: Tree, ws: seq<nat>, i: nat, l: nat)
    requires Published(t) && AllArrived(t, ws) && i < Pow2(t.depth) && l <= t.depth
    ensures var view := Expected(TableAfter(t, ws), t.depth, i, l);
      && view.hash == (if l < t.depth then SiblingAt(Leaves(t), i, l) else CurrentRoot(t))
      && view.level == l && view.index == NodeNumber(t.depth, l, if l < t.depth then Sib(Shr(i, l)) else 0)
  {
    var rows := TableAfter(t, ws);
    var k := if l < t.depth then Sib(Shr(i, l)) else 0;
    NeededNodeRange(t.depth, i, l);
    NeededAsNumber(t.depth, i, l);
    CompleteTableIsTheTree(t, ws, l, k);
    RootRowIsNewest(t, ws);
    assert NeededNodes(t.depth, i)[l] == NeededNode(t.depth, i, l);
  }

  lemma NeededAsNumber(depth: nat, i: nat, l: nat)
    requires i < Pow2(depth) && l <= depth
    ensures NeededNode(depth, i, l) == NodeNumber(depth, l, if l < depth then Sib(Shr(i, l)) else 0)
  {
    assert Pow2(0) == 1;
  }

  lemma NeededLevels(t: Tree, ws: set<nat>, rows: Table, i: nat)
    requires Records(t, ws, rows) && i < Pow2(t.depth)
    ensures LevelsRight(rows, t.depth, i)
  {
    forall l | 0 <= l <= t.depth && NeededNode(t.depth, i, l) in rows
      ensures rows[NeededNode(t.depth, i, l)].level == l
    {
      NeededNodeRange(t.depth, i, l);
      NeededAsNumber(t.depth, i, l);
      assert NodeRecorded(t, ws, rows, l, if l < t.depth then Sib(Shr(i, l)) else 0);
    }
  }

  /** Every event touches the root, so its row is as new as any. */
  lemma RootRowIsNewest(t: Tree, ws: seq<nat>)
    requires Published(t) && AllArrived(t, ws)
    ensures var rows := TableAfter(t, ws);
      && 1 in rows
      && forall l, k | 0 <= l <= t.depth && 0 <= k < Pow2(t.depth - l) && NodeNumber(t.depth, l, k) in rows ::
           rows[NodeNumber(t.depth, l, k)].seqNo <= rows[1].seqNo
  {
    var rows := TableAfter(t, ws);
    TableRecords(t, ws);
    assert Pow2(0) == 1 && NodeNumber(t.depth, t.depth, 0) == 1;
    assert NodeRecorded(t, Arrived(ws), rows, t.depth, 0);
    forall w | w in Arrived(ws)
      ensures Touches(t, w, t.depth, 0)
    {
      ShrBound(t.versions[w].index, t.depth, t.depth);
    }
    assert Newest(t) in Arrived(ws);
    forall l, k | 0 <= l <= t.depth && 0 <= k < Pow2(t.depth - l) && NodeNumber(t.depth, l, k) in rows
      ensures rows[NodeNumber(t.depth, l, k)].seqNo <= rows[1].seqNo
    {
      assert NodeRecorded(t, Arrived(ws), rows, l, k);
    }
  }

  lemma ArrivedLevels(t: Tree, ws: seq<nat>, i: nat)
    requires Published(t) && AllArrived(t, ws) && i < Pow2(t.depth)
    ensures LevelsRight(TableAfter(t, ws), t.depth, i)
  {
    TableRecords(t, ws);
    NeededLevels(t, Arrived(ws), TableAfter(t, ws), i);
  }

  /** `handle_get_asset_proof`, once all events have arrived: the reply is the leaf's authentication
      path and the root, and hashing the current leaf with it gives that root. */
  method ServeAssetProof(treeHeight: nat, leafIdx: nat, answer: seq<NodeView>, ghost t: Tree, ghost ws: seq<nat>)
    returns (reply: Reply)
    requires Published(t) && AllArrived(t, ws) && treeHeight == t.depth && leafIdx < Pow2(treeHeight)
    requires IsAnswer(TableAfter(t, ws), NeededFrom(treeHeight, leafIdx, 0), answer)
    ensures reply.Found? && |reply.nodes| == treeHeight + 1
    ensures reply.nodes[treeHeight].hash == CurrentRoot(t)
    ensures forall l :: 0 <= l < treeHeight ==>
      reply.nodes[l].level == l && reply.nodes[l].index == NodeNumber(treeHeight, l, Sib(Shr(leafIdx, l)))
    ensures var proof := seq(treeHeight, l requires 0 <= l < treeHeight => reply.nodes[l].hash);
      proof == AuthPath(Leaves(t), treeHeight, leafIdx)
        && RootFromProof(Leaves(t)[leafIdx], proof, leafIdx) == CurrentRoot(t)
  {
    ArrivedLevels(t, ws, leafIdx);
    StartNumber(treeHeight, leafIdx);
    reply := GetProofAndRoot(Pow2(treeHeight) + leafIdx, answer, TableAfter(t, ws), treeHeight, leafIdx, 0);
    forall l | 0 <= l <= treeHeight
      ensures reply.nodes[l].hash == if l < treeHeight then SiblingAt(Leaves(t), leafIdx, l) else CurrentRoot(t)
      ensures reply.nodes[l].level == l
      ensures reply.nodes[l].index == NodeNumber(treeHeight, l, if l < treeHeight then Sib(Shr(leafIdx, l)) else 0)
    {
      ServedNodesAreCurrent(t, ws, leafIdx, l);
    }
    ghost var proof := seq(treeHeight, l requires 0 <= l < treeHeight => reply.nodes[l].hash);
    assert proof == AuthPath(Leaves(t), treeHeight, leafIdx);
    LowSmall(leafIdx, treeHeight);
    ProofExact(Leaves(t), treeHeight, Leaves(t)[leafIdx], proof, leafIdx);
  }
}
