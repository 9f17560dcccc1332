/** Replaying change logs over a proof: what the patched proof and leaf amount to. */
module Replay {
  import opened Bits
  import opened Merkle
  import opened VersionedTree

  /** The stored form of one write: the root it produced and the nodes from its leaf upwards. */
  datatype Log = Log(root: Node, path: seq<Node>, index: nat)

  function LogOf(depth: nat, v: Version): Log {
    Log(Root(v.leaves, depth), PathNodes(v.leaves, depth, Low(v.index, depth)), v.index)
  }

  function DefaultLog(depth: nat): Log {
    Log(Empty, seq(depth, _ => Empty), 0)
  }

  /** A proof with the nodes of a log put where the log's path is the proof's sibling. */
  function Patched(log: Log, leafIndex: nat, proof: seq<Node>): (p: seq<Node>)
    requires |log.path| == |proof|
    ensures |p| == |proof|
  {
    seq(|proof|, l requires 0 <= l < |proof| =>
      if Meets(|proof|, log.index, leafIndex, l) then log.path[l] else proof[l])
  }

  function PatchedLeaf(log: Log, leafIndex: nat, leaf: Node): Node
    requires |log.path| > 0
  {
    if log.index == leafIndex then log.path[0] else leaf
  }

  /** The number of the j-th slot after `start`, going round a ring of n. */
  function After(start: nat, j: nat, n: nat): (slot: nat)
    requires n > 0
    ensures slot < n
  {
    (start + j) % n
  }

  function Slot(logs: seq<Log>, start: nat, j: nat): Log
    requires |logs| > 0
  {
    logs[After(start, j, |logs|)]
  }

  /** Leaf and proof after the k slots following `start` have been applied, in ring order. */
  function Replayed(logs: seq<Log>, start: nat, k: nat, leafIndex: nat, leaf: Node, proof: seq<Node>): (r: (Node,
                    seq<Node>))
    requires |logs| > 0 && |proof| > 0
    requires forall i :: 0 <= i < |logs| ==> |logs[i].path| == |proof|
    ensures |r.1| == |proof|
  {
    if k == 0 then (leaf, proof)
    else
      var r := Replayed(logs, start, k - 1, leafIndex, leaf, proof);
      var log := Slot(logs, start, k);
      (PatchedLeaf(log, leafIndex, r.0), Patched(log, leafIndex, r.1))
  }

  /** Some of the k slots following `start` was written under an alias of `leafIndex`. */
  ghost predicate AliasAmong(logs: seq<Log>, start: nat, k: nat, depth: nat, leafIndex: nat)
    requires |logs| > 0
  {
    k > 0 && (AliasAmong(logs, start, k - 1, depth, leafIndex) || Alias(depth, Slot(logs, start, k).index, leafIndex))
  }

  lemma {:induction false} AliasAmongMore(logs: seq<Log>, start: nat, j: nat, k: nat, depth: nat, leafIndex: nat)
    requires |logs| > 0 && j <= k
    requires AliasAmong(logs, start, j, depth, leafIndex)
    ensures AliasAmong(logs, start, k, depth, leafIndex)
  {
    if j < k {
      AliasAmongMore(logs, start, j, k - 1, depth, leafIndex);
    }
  }

  /** The k slots following `start` hold the logs of the k versions following `from`. */
  ghost predicate HoldsVersions(logs: seq<Log>, start: nat, k: nat, t: Tree, from: int)
    requires |logs| > 0
    requires -1 <= from && from + k < |t.versions|
  {
    forall j :: 0 < j <= k ==> Slot(logs, start, j) == LogOf(t.depth, t.versions[from + j])
  }

  lemma {:induction false} AliasAmongVersions(logs: seq<Log>, start: nat, k: nat, t: Tree, from: int, index: nat)
    requires |logs| > 0
    requires -1 <= from && from + k < |t.versions|
    requires HoldsVersions(logs, start, k, t, from)
    ensures AliasAmong(logs, start, k, t.depth, index) <==> AliasWritten(t, from, from + k, index)
  {
    if k > 0 {
      AliasAmongVersions(logs, start, k - 1, t, from, index);
      assert Slot(logs, start, k) == LogOf(t.depth, t.versions[from + k]);
      AliasStep(t, from, from + k - 1, index);
    }
  }

  /** The effect of a replay, in terms of the leaves: every level touched since `from` carries the
      node of version `upto`, every other level the caller's; likewise the leaf. */
  ghost predicate BroughtUpTo(t: Tree, from: int, upto: nat, index: nat, leaf: Node, proof: seq<Node>, leaf': Node,
                              proof': seq<Node>)
    requires upto < |t.versions|
  {
    var now := t.versions[upto].leaves;
    && |proof| == |proof'| == t.depth
    && leaf' == (if LeafWritten(t, from, upto, index) then LeafAt(now, Position(t, index)) else leaf)
    && forall l :: 0 <= l < t.depth ==>
         proof'[l] == if SiblingTouched(t, from, upto, index, l) then SiblingAt(now, Position(t, index), l)
           else proof[l]
  }

  /** One more log brings a proof from version w to version w + 1. */
  lemma PatchAdvances(t: Tree, from: int, w: nat, index: nat, leaf: Node, proof: seq<Node>, leaf': Node,
                      proof': seq<Node>)
    requires Wellformed(t)
    requires w + 1 < |t.versions| && from <= w
    requires !Alias(t.depth, t.versions[w + 1].index, index)
    requires BroughtUpTo(t, from, w, index, leaf, proof, leaf', proof')
    ensures var log := LogOf(t.depth, t.versions[w + 1]);
            BroughtUpTo(t, from, w + 1, index, leaf, proof, PatchedLeaf(log, index, leaf'), Patched(log, index, proof'))
  {
    var log := LogOf(t.depth, t.versions[w + 1]);
    var p, q := Position(t, t.versions[w + 1].index), Position(t, index);
    var before, now := t.versions[w].leaves, t.versions[w + 1].leaves;
    assert WroteOneLeaf(t, w + 1);
    assert now == before[p := now[p]];
    assert LeafWritten(t, from, w + 1, index) <==> LeafWritten(t, from, w, index) || p == q;
    assert log.path[0] == NodeAt(now, 0, Shr(p, 0)) == LeafAt(now, p);
    forall l | 0 <= l < t.depth
      ensures Patched(log, index, proof')[l]
           == if SiblingTouched(t, from, w + 1, index, l) then SiblingAt(now, q, l) else proof[l]
    {
      SiblingStep(t, from, w, index, l);
      if Meets(t.depth, t.versions[w + 1].index, index, l) {
        assert log.path[l] == NodeAt(now, l, Shr(p, l)) == SiblingAt(now, q, l);
      } else {
        WriteKeepsSibling(before, p, now[p], q, l);
      }
    }
  }

  lemma SiblingStep(t: Tree, from: int, w: nat, index: nat, l: nat)
    requires w + 1 < |t.versions| && from <= w
    ensures SiblingTouched(t, from, w + 1, index, l)
       <==> SiblingTouched(t, from, w, index, l) || Meets(t.depth, t.versions[w + 1].index, index, l)
  {
    if SiblingTouched(t, from, w + 1, index, l) {
      var v :| 0 <= v <= w + 1 && from < v && Meets(t.depth, t.versions[v].index, index, l);
      assert v == w + 1 || v <= w;
    }
  }

  lemma NothingReplayed(t: Tree, from: nat, index: nat, leaf: Node, proof: seq<Node>)
    requires |proof| == t.depth && from < |t.versions|
    ensures BroughtUpTo(t, from, from, index, leaf, proof, leaf, proof)
  {
    assert !LeafWritten(t, from, from, index);
    forall l | 0 <= l < t.depth
      ensures !SiblingTouched(t, from, from, index, l)
    {
    }
  }

  lemma AliasStep(t: Tree, from: int, w: int, index: nat)
    requires -1 <= from <= w && w + 1 < |t.versions|
    ensures AliasWritten(t, from, w + 1, index)
       <==> AliasWritten(t, from, w, index) || Alias(t.depth, t.versions[w + 1].index, index)
  {
    if AliasWritten(t, from, w + 1, index) {
      var v :| 0 <= v <= w + 1 && from < v && Alias(t.depth, t.versions[v].index, index);
      assert v == w + 1 || v <= w;
    }
  }

  /** Replaying the logs of versions from+1 .. from+k turns a proof for version `from` into one for
      version from+k, level by level. */
  lemma {:induction false} ReplayBringsUpTo(logs: seq<Log>, start: nat, k: nat, t: Tree, from: nat, index: nat,
                                            leaf: Node, proof: seq<Node>)
    requires Wellformed(t) && |proof| == t.depth > 0
    requires |logs| > 0 && forall i :: 0 <= i < |logs| ==> |logs[i].path| == |proof|
    requires from + k < |t.versions|
    requires HoldsVersions(logs, start, k, t, from)
    requires !AliasWritten(t, from, from + k, index)
    ensures var r := Replayed(logs, start, k, index, leaf, proof);
            BroughtUpTo(t, from, from + k, index, leaf, proof, r.0, r.1)
  {
    if k == 0 {
      NothingReplayed(t, from, index, leaf, proof);
    } else {
      var w := from + k - 1;
      AliasStep(t, from, w, index);
      ReplayBringsUpTo(logs, start, k - 1, t, from, index, leaf, proof);
      var r := Replayed(logs, start, k - 1, index, leaf, proof);
      PatchAdvances(t, from, w, index, leaf, proof, r.0, r.1);
      assert Slot(logs, start, k) == LogOf(t.depth, t.versions[w + 1]);
    }
  }

  /** A single replayed log, without knowing the version before it. */
  lemma OneLogBringsUpTo(t: Tree, w: nat, index: nat, leaf: Node, proof: seq<Node>)
    requires |proof| == t.depth > 0
    requires w < |t.versions|
    requires !Alias(t.depth, t.versions[w].index, index)
    ensures var log := LogOf(t.depth, t.versions[w]);
            BroughtUpTo(t, w - 1, w, index, leaf, proof, PatchedLeaf(log, index, leaf), Patched(log, index, proof))
  {
    var log := LogOf(t.depth, t.versions[w]);
    assert log.path[0] == NodeAt(t.versions[w].leaves, 0, Shr(Position(t, log.index), 0));
    assert LeafWritten(t, w - 1, w, index) <==> Position(t, log.index) == Position(t, index);
    forall l | 0 <= l < t.depth
      ensures SiblingTouched(t, w - 1, w, index, l) <==> Meets(t.depth, log.index, index, l)
    {
    }
  }

  /** The verdict on a replayed proof is the verdict on the leaves. */
  lemma VerdictOfReplay(t: Tree, from: int, index: nat, leaf: Node, proof: seq<Node>, leaf': Node, proof': seq<Node>)
    requires Wellformed(t) && |proof| == t.depth
    requires BroughtUpTo(t, from, Newest(t), index, leaf, proof, leaf', proof')
    ensures leaf' != leaf <==> LeafWritten(t, from, Newest(t), index) && leaf != CurrentLeaf(t, index)
    ensures leaf' == leaf ==>
      (RootFromProof(leaf', proof', index) == CurrentRoot(t)
       <==> leaf == CurrentLeaf(t, index) && ProofHolds(t, from, proof, index))
    ensures leaf' == leaf && RootFromProof(leaf', proof', index) == CurrentRoot(t)
       ==> proof' == AuthPath(Leaves(t), t.depth, Position(t, index))
  {
    ProofExact(Leaves(t), t.depth, leaf', proof', index);
    var path := AuthPath(Leaves(t), t.depth, Position(t, index));
    assert ProofHolds(t, from, proof, index) <==> forall l :: 0 <= l < t.depth ==> proof'[l] == path[l] by {
      forall l | 0 <= l < t.depth
        ensures (SiblingTouched(t, from, Newest(t), index, l)
          || proof[l] == SiblingAt(Leaves(t), Position(t, index), l))
           <==> proof'[l] == path[l]
      {
      }
    }
  }
}
