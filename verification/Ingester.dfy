/** The table that keeps the latest known hash of every node, filled from change-log events. */
module Ingester {
  import opened Bits
  import opened Merkle
  import opened VersionedTree
  import opened Canopy
  import opened Events

  /** A row of `cl_items`, for one tree. */
  datatype Row = Row(hash: Node, seqNo: nat, level: nat, leafIdx: Option<int>)

  type Table = map<nat, Row>

  function NodeIdxToLeafIdx(index: int, treeHeight: nat): int {
    index - Pow2(treeHeight)
  }

  /** Insert, or on conflict update hash and sequence number; unless filling, only if newer. */
  function Upsert(rows: Table, node: PathNode, level: nat, depth: nat, seqNo: nat, filling: bool): Table {
    if node.index !in rows then
      rows[node.index :=
        Row(node.node, seqNo, level, if level == 0 then Some(NodeIdxToLeafIdx(node.index, depth)) else None)]
    else if filling || seqNo > rows[node.index].seqNo then
      rows[node.index := rows[node.index].(hash := node.node, seqNo := seqNo)]
    else rows
  }

  /** The table after the first k nodes of an event. */
  function Ingested(rows: Table, e: ChangeLogEvent, filling: bool, k: nat): Table
    requires k <= |e.path| && |e.path| > 0
  {
    if k == 0 then rows
    else Upsert(Ingested(rows, e, filling, k - 1), e.path[k - 1], k - 1, |e.path| - 1, e.seqNo, filling)
  }

  class ClItems {
    var rows: Table

    constructor ()
      ensures rows == map[]
    {
      rows := map[];
    }

    /** `gummyroll_change_log_event_to_database` */
    method Ingest(e: ChangeLogEvent, filling: bool)
      requires |e.path| > 0
      modifies this
      ensures rows == Ingested(old(rows), e, filling, |e.path|)
    {
      var depth := |e.path| - 1;
      for i := 0 to |e.path|
        invariant rows == Ingested(old(rows), e, filling, i)
      {
        rows := Upsert(rows, e.path[i], i, depth, e.seqNo, filling);
      }
    }
  }

  ghost function NumbersOf(e: ChangeLogEvent, k: nat): set<nat>
    requires k <= |e.path|
  {
    set j | 0 <= j < k :: e.path[j].index
  }

  /** Filling ignores what is known: the rows of the event's nodes get its hashes and its number, known ones
      keep level and leaf, and no other row changes. */
  lemma {:induction false} FillingOverwrites(rows: Table, e: ChangeLogEvent, k: nat)
    requires 0 < |e.path| && k <= |e.path|
    requires forall i, j :: 0 <= i < j < |e.path| ==> e.path[i].index != e.path[j].index
    ensures var rows' := Ingested(rows, e, true, k);
      && (forall j :: 0 <= j < k ==> FilledRow(rows, rows', e, j))
      && (forall n :: n !in NumbersOf(e, k) ==> (n in rows' <==> n in rows) && (n in rows ==> rows'[n] == rows[n]))
  {
    if k > 0 {
      FillingOverwrites(rows, e, k - 1);
      var n := e.path[k - 1].index;
      assert n !in NumbersOf(e, k - 1);
      assert NumbersOf(e, k) == NumbersOf(e, k - 1) + {n};
      forall j | 0 <= j < k
        ensures FilledRow(rows, Ingested(rows, e, true, k), e, j)
      {
        if j < k - 1 {
          assert FilledRow(rows, Ingested(rows, e, true, k - 1), e, j);
          assert e.path[j].index != n;
        }
      }
    }
  }

  ghost predicate FilledRow(rows: Table, rows': Table, e: ChangeLogEvent, j: nat)
    requires j < |e.path|
  {
    var n := e.path[j].index;
    && n in rows' && rows'[n].hash == e.path[j].node && rows'[n].seqNo == e.seqNo
    && rows'[n].level == (if n in rows then rows[n].level else j)
    && rows'[n].leafIdx == if n in rows then rows[n].leafIdx
                           else if j == 0 then Some(n - Pow2(|e.path| - 1)) else None
  }

  /** The table after the events of the versions in `ws` have arrived in that order. */
  ghost function TableAfter(t: Tree, ws: seq<nat>): Table
    requires forall i :: 0 <= i < |ws| ==> ws[i] < |t.versions|
  {
    if |ws| == 0 then map[]
    else
      var e := EventOf(t, ws[|ws| - 1]);
      Ingested(TableAfter(t, ws[..|ws| - 1]), e, false, |e.path|)
  }

  ghost function Arrived(ws: seq<nat>): set<nat> {
    set w | w in ws
  }

  /** The row a node has once the version m is the newest known to touch it. */
  ghost function RowOf(t: Tree, m: nat, l: nat, k: nat): Row
    requires m < |t.versions| && l <= t.depth
  {
    Row(NodeAt(t.versions[m].leaves, l, k), m, l, if l == 0 then Some(k) else None)
  }

  /** What the table says of one node. */
  ghost predicate NodeRecorded(t: Tree, ws: set<nat>, rows: Table, l: nat, k: nat)
    requires l <= t.depth
  {
    var n := NodeNumber(t.depth, l, k);
    if n in rows then Latest(t, ws, l, k, rows[n].seqNo) && rows[n] == RowOf(t, rows[n].seqNo, l, k)
    else NoneTouches(t, ws, l, k)
  }

  /** The table holds exactly the newest known hash of every node that some known event touches. */
  ghost predicate Records(t: Tree, ws: set<nat>, rows: Table) {
    && (forall l, k :: 0 <= l <= t.depth && 0 <= k < Pow2(t.depth - l) ==> NodeRecorded(t, ws, rows, l, k))
    && (forall n :: n in rows ==> 1 <= n < Pow2(t.depth + 1))
  }

  /** After the first j nodes of event w: the levels below j know w, the others do not yet. */
  ghost predicate PartlyRecorded(t: Tree, ws: set<nat>, w: nat, rows: Table, j: nat) {
    && (forall l, k :: 0 <= l <= t.depth && 0 <= k < Pow2(t.depth - l) ==> NodePartlyRecorded(t, ws, w, rows, j, l, k))
    && (forall n :: n in rows ==> 1 <= n < Pow2(t.depth + 1))
  }

  ghost predicate NodePartlyRecorded(t: Tree, ws: set<nat>, w: nat, rows: Table, j: nat, l: nat, k: nat)
    requires l <= t.depth
  {
    NodeRecorded(t, if l < j then ws + {w} else ws, rows, l, k)
  }

  /** One upsert makes the row of its node right, whatever the order in which events arrive. */
  lemma UpsertedNode(t: Tree, ws: set<nat>, w: nat, rows: Table, l: nat)
    requires Published(t) && w < |t.versions| && l <= t.depth
    requires NodeRecorded(t, ws, rows, l, Shr(t.versions[w].index, l))
    ensures |EventOf(t, w).path| == t.depth + 1
    ensures NodeRecorded(t, ws + {w}, Upsert(rows, EventOf(t, w).path[l], l, t.depth, w, false), l,
      Shr(t.versions[w].index, l))
  {
    EventNodes(t, w, l);
    var k := Shr(t.versions[w].index, l);
    var n := NodeNumber(t.depth, l, k);
    var rows' := Upsert(rows, EventOf(t, w).path[l], l, t.depth, w, false);
    hide NodeAt, Shr, Published, EventOf;
    assert EventOf(t, w).path[l] == PathNode(NodeAt(t.versions[w].leaves, l, k), n);
    if n in rows && w <= rows[n].seqNo {
      assert rows' == rows;
    }
  }

  /** A node the event does not touch keeps its row. */
  lemma OtherNode(t: Tree, ws: set<nat>, w: nat, rows: Table, rows': Table, l: nat, k: nat)
    requires w < |t.versions| && l <= t.depth && !Touches(t, w, l, k)
    requires NodeRecorded(t, ws, rows, l, k)
    requires var n := NodeNumber(t.depth, l, k); (n in rows' <==> n in rows) && (n in rows ==> rows'[n] == rows[n])
    ensures NodeRecorded(t, ws + {w}, rows', l, k)
  {
  }

  lemma UpsertElsewhere(rows: Table, node: PathNode, level: nat, depth: nat, seqNo: nat, n: nat)
    requires n != node.index
    ensures var rows' := Upsert(rows, node, level, depth, seqNo, false);
            (n in rows' <==> n in rows) && (n in rows ==> rows'[n] == rows[n])
  {
  }

  /** Every other node's record survives the upsert at level l. */
  lemma OtherRecord(t: Tree, ws: set<nat>, w: nat, rows: Table, node: PathNode, l: nat, m: nat, k: nat)
    requires w < |t.versions| && l <= t.depth && m <= t.depth && k < Pow2(t.depth - m)
    requires Shr(t.versions[w].index, l) < Pow2(t.depth - l)
    requires node.index == NodeNumber(t.depth, l, Shr(t.versions[w].index, l))
    requires m != l || k != Shr(t.versions[w].index, l)
    requires NodePartlyRecorded(t, ws, w, rows, l, m, k)
    ensures NodePartlyRecorded(t, ws, w, Upsert(rows, node, l, t.depth, w, false), l + 1, m, k)
  {
    var at := Shr(t.versions[w].index, l);
    var rows' := Upsert(rows, node, l, t.depth, w, false);
    NumbersAreDistinct(t.depth, m, k, l, at);
    UpsertElsewhere(rows, node, l, t.depth, w, NodeNumber(t.depth, m, k));
    hide Upsert, NodeRecorded, Shr, NodeNumber, Pow2;
    if m == l {
      OtherNode(t, ws, w, rows, rows', m, k);
    } else {
      SameRowSameRecord(t, if m < l then ws + {w} else ws, rows, rows', m, k);
    }
  }

  /** rows' is the table after the node of level l of event w. */
  ghost predicate StepOf(t: Tree, ws: set<nat>, w: nat, rows: Table, l: nat, rows': Table, next: nat) {
    && Published(t) && w < |t.versions| && l <= t.depth && next == l + 1
    && PartlyRecorded(t, ws, w, rows, l)
    && |EventOf(t, w).path| == t.depth + 1 && rows' == Upsert(rows, EventOf(t, w).path[l], l, t.depth, w, false)
  }

  lemma NodeAfterStep(t: Tree, ws: set<nat>, w: nat, rows: Table, l: nat, rows': Table, next: nat, m: nat, k: nat)
    requires StepOf(t, ws, w, rows, l, rows', next)
    requires m <= t.depth && k < Pow2(t.depth - m)
    ensures NodePartlyRecorded(t, ws, w, rows', next, m, k)
  {
    hide Upsert, EventOf, Shr, NodeNumber, NodeAt, NodeRecorded, Pow2;
    EventNodes(t, w, l);
    var node, at := EventOf(t, w).path[l], Shr(t.versions[w].index, l);
    assert NodePartlyRecorded(t, ws, w, rows, l, m, k);
    hide PartlyRecorded, Published;
    if m == l && k == at {
      UpsertedNode(t, ws, w, rows, l);
    } else {
      OtherRecord(t, ws, w, rows, node, l, m, k);
    }
  }

  lemma KeysAfterStep(t: Tree, ws: set<nat>, w: nat, rows: Table, l: nat, rows': Table, next: nat)
    requires StepOf(t, ws, w, rows, l, rows', next)
    ensures forall n :: n in rows' ==> 1 <= n < Pow2(t.depth + 1)
  {
    EventNodes(t, w, l);
    NumberedNode([], t.depth, l, Shr(t.versions[w].index, l));
    UpsertKeys(rows, EventOf(t, w).path[l], l, t.depth, w);
  }

  lemma PartlyStep(t: Tree, ws: set<nat>, w: nat, rows: Table, l: nat, rows': Table, next: nat)
    requires StepOf(t, ws, w, rows, l, rows', next)
    ensures PartlyRecorded(t, ws, w, rows', next)
  {
    hide StepOf, NodePartlyRecorded;
    KeysAfterStep(t, ws, w, rows, l, rows', next);
    forall m, k | 0 <= m <= t.depth && 0 <= k < Pow2(t.depth - m)
      ensures NodePartlyRecorded(t, ws, w, rows', next, m, k)
    {
      NodeAfterStep(t, ws, w, rows, l, rows', next, m, k);
    }
  }

  lemma UpsertKeys(rows: Table, node: PathNode, level: nat, depth: nat, seqNo: nat)
    ensures forall n :: n in Upsert(rows, node, level, depth, seqNo, false) ==> n in rows || n == node.index
  {
  }

  lemma SameRowSameRecord(t: Tree, ws: set<nat>, rows: Table, rows': Table, l: nat, k: nat)
    requires l <= t.depth && NodeRecorded(t, ws, rows, l, k)
    requires var n := NodeNumber(t.depth, l, k); (n in rows' <==> n in rows) && (n in rows ==> rows'[n] == rows[n])
    ensures NodeRecorded(t, ws, rows', l, k)
  {
  }

  lemma NothingIngested(t: Tree, ws: set<nat>, w: nat, rows: Table)
    requires Records(t, ws, rows)
    ensures PartlyRecorded(t, ws, w, rows, 0)
  {
    forall l, k | 0 <= l <= t.depth && 0 <= k < Pow2(t.depth - l)
      ensures NodePartlyRecorded(t, ws, w, rows, 0, l, k)
    {
      assert NodeRecorded(t, ws, rows, l, k);
    }
  }

  lemma AllIngested(t: Tree, ws: set<nat>, w: nat, rows: Table)
    requires PartlyRecorded(t, ws, w, rows, t.depth + 1)
    ensures Records(t, ws + {w}, rows)
  {
    forall l, k | 0 <= l <= t.depth && 0 <= k < Pow2(t.depth - l)
      ensures NodeRecorded(t, ws + {w}, rows, l, k)
    {
      assert NodePartlyRecorded(t, ws, w, rows, t.depth + 1, l, k);
    }
  }

  lemma IngestedUnfold(rows: Table, e: ChangeLogEvent, k: nat)
    requires 0 < k <= |e.path|
    ensures Ingested(rows, e, false, k)
         == Upsert(Ingested(rows, e, false, k - 1), e.path[k - 1], k - 1, |e.path| - 1, e.seqNo, false)
  {
  }

  lemma EventShape(t: Tree, w: nat)
    requires Published(t) && w < |t.versions|
    ensures |EventOf(t, w).path| == t.depth + 1 && EventOf(t, w).seqNo == w
  {
    EventNodes(t, w, 0);
  }

  /** An event arrives at a table that is right. */
  ghost predicate Arriving(t: Tree, ws: set<nat>, w: nat, rows: Table) {
    Published(t) && w < |t.versions| && Records(t, ws, rows) && |EventOf(t, w).path| == t.depth + 1
  }

  lemma FirstNode(t: Tree, ws: set<nat>, w: nat, rows: Table)
    requires Arriving(t, ws, w, rows)
    ensures PartlyRecorded(t, ws, w, Ingested(rows, EventOf(t, w), false, 0), 0)
  {
    hide Published, Records, PartlyRecorded;
    NothingIngested(t, ws, w, rows);
  }

  lemma NextNode(t: Tree, ws: set<nat>, w: nat, rows: Table, j: nat)
    requires Arriving(t, ws, w, rows) && 0 < j <= t.depth + 1
    requires PartlyRecorded(t, ws, w, Ingested(rows, EventOf(t, w), false, j - 1), j - 1)
    ensures PartlyRecorded(t, ws, w, Ingested(rows, EventOf(t, w), false, j), j)
  {
    EventShape(t, w);
    IngestedUnfold(rows, EventOf(t, w), j);
    hide Published, Records, PartlyRecorded, EventOf, Upsert, Ingested;
    PartlyStep(t, ws, w, Ingested(rows, EventOf(t, w), false, j - 1), j - 1, Ingested(rows, EventOf(t, w), false, j),
      j);
  }

  lemma {:induction false} PartlyIngested(t: Tree, ws: set<nat>, w: nat, rows: Table, j: nat)
    requires Arriving(t, ws, w, rows) && j <= t.depth + 1
    ensures PartlyRecorded(t, ws, w, Ingested(rows, EventOf(t, w), false, j), j)
  {
    hide PartlyRecorded, Ingested, Published, Records;
    if j == 0 {
      FirstNode(t, ws, w, rows);
    } else {
      PartlyIngested(t, ws, w, rows, j - 1);
      NextNode(t, ws, w, rows, j);
    }
  }

  /** Ingesting one more event, old or new, seen before or not, keeps the table right. */
  lemma EventRecorded(t: Tree, ws: set<nat>, w: nat, rows: Table)
    requires Published(t) && w < |t.versions|
    requires Records(t, ws, rows)
    ensures |EventOf(t, w).path| == t.depth + 1
    ensures Records(t, ws + {w}, Ingested(rows, EventOf(t, w), false, t.depth + 1))
  {
    EventShape(t, w);
    hide Published, Records, PartlyRecorded, Ingested, EventOf;
    PartlyIngested(t, ws, w, rows, t.depth + 1);
    AllIngested(t, ws, w, Ingested(rows, EventOf(t, w), false, t.depth + 1));
  }

  lemma EmptyTableRecords(t: Tree, ws: seq<nat>)
    requires |ws| == 0
    ensures Records(t, Arrived(ws), map[])
  {
  }

  lemma ArrivedMore(ws: seq<nat>, w: nat)
    ensures Arrived(ws + [w]) == Arrived(ws) + {w}
  {
  }

  lemma {:induction false} TableRecords(t: Tree, ws: seq<nat>)
    requires Published(t)
    requires forall i :: 0 <= i < |ws| ==> ws[i] < |t.versions|
    ensures Records(t, Arrived(ws), TableAfter(t, ws))
  {
    hide Published, Records, Ingested, EventOf;
    if |ws| == 0 {
      EmptyTableRecords(t, ws);
    } else {
      var front, w := ws[..|ws| - 1], ws[|ws| - 1];
      TableRecords(t, front);
      EventRecorded(t, Arrived(front), w, TableAfter(t, front));
      ArrivedMore(front, w);
      SplitLast(ws);
    }
  }

  /** Convergence: whatever the order and the repetitions, the same events give the same table. */
  lemma TablesConverge(t: Tree, ws: seq<nat>, ws': seq<nat>)
    requires Published(t)
    requires forall i :: 0 <= i < |ws| ==> ws[i] < |t.versions|
    requires forall i :: 0 <= i < |ws'| ==> ws'[i] < |t.versions|
    requires Arrived(ws) == Arrived(ws')
    ensures TableAfter(t, ws) == TableAfter(t, ws')
  {
    TableRecords(t, ws);
    TableRecords(t, ws');
    SameRecords(t, Arrived(ws), TableAfter(t, ws), TableAfter(t, ws'));
  }

  lemma SameRecords(t: Tree, ws: set<nat>, rows: Table, rows': Table)
    requires Records(t, ws, rows) && Records(t, ws, rows')
    ensures rows == rows'
  {
    forall n: nat | 1 <= n < Pow2(t.depth + 1)
      ensures (n in rows <==> n in rows') && (n in rows ==> rows[n] == rows'[n])
    {
      var l := DepthOf(t.depth, n);
      var k := n - Pow2(Log2(n));
      Log2Bounds(n);
      assert n == NodeNumber(t.depth, l, k);
      assert NodeRecorded(t, ws, rows, l, k) && NodeRecorded(t, ws, rows', l, k);
    }
    assert rows.Keys == rows'.Keys;
  }
}
