/** The ring buffer of change logs as a window onto the versions of a tree. */
module Ring {
  import opened Bits
  import opened Merkle
  import opened VersionedTree
  import opened Replay

  // ----- arithmetic of the ring

  /** `a.wrapping_sub(b)` on u64 */
  function WrappingSub64(a: nat, b: nat): nat {
    (a - b) % TWO_64
  }

  lemma SumOfParts(q: nat, r: nat, j: nat, n: nat)
    requires r < n
    ensures (r + j) % n == (q * n + r + j) % n
  {
    var q', r' := (r + j) / n, (r + j) % n;
    assert (q + q') * n == q * n + q' * n;
    ModUnique(q * n + r + j, n, q + q', r');
  }

  lemma RingSum(w: nat, j: nat, n: nat)
    requires n > 0
    ensures (w % n + j) % n == (w + j) % n
  {
    var q, r := DivMod(w, n);
    SumOfParts(q, r, j, n);
  }

  /** Within one turn of the ring, slots do not repeat. */
  lemma RingEqual(a: nat, b: nat, n: nat)
    requires n > 0
    requires a <= b < a + n
    ensures a % n == b % n <==> a == b
  {
    if a % n == b % n && a < b {
      var q, q' := a / n, b / n;
      assert (q' - q) * n == b - a;
      if q' - q >= 1 {
        AtLeastOneMultiple(q' - q, n);
      } else {
        AtLeastOneMultiple(q - q' + 1, n);
      }
    }
  }

  lemma RingSmall(a: nat, n: nat)
    requires a < n
    ensures a % n == a
  {
    ModUnique(a, n, 0, a);
  }

  /** A supported capacity is a power of two dividing 2^64, so its mask reduces modulo it. */
  lemma MaskIsMod(x: nat, n: nat)
    requires IsPow2(n)
    ensures And(x, n - 1) == x % n
  {
    IsPow2Exact(n);
    AndMask(x, Log2(n));
  }

  lemma CapacityDivides(n: nat) returns (m: nat)
    requires IsPow2(n) && n < TWO_64
    ensures m > 0 && n * m == TWO_64
  {
    IsPow2Exact(n);
    Pow2Known();
    assert Pow2(64) == TWO_64 by { Pow2Add(32, 32); }
    if Log2(n) > 64 {
      Pow2Monotone(64, Log2(n));
    }
    Pow2Add(Log2(n), 64 - Log2(n));
    m := Pow2(64 - Log2(n));
  }

  lemma BackInside(q: nat, r: nat, i: nat, n: nat)
    requires i <= r < n
    ensures (q * n + r - i) % n == r - i
  {
    ModUnique(q * n + r - i, n, q, r - i);
  }

  lemma BackAround(q: nat, r: nat, i: nat, n: nat)
    requires r < i < n && i <= q * n + r
    ensures (q * n + r - i) % n == r - i + n
  {
    assert q * n > 0;
    assert (q - 1) * n == q * n - n;
    ModUnique(q * n + r - i, n, q - 1, r - i + n);
  }

  lemma WrapAround(a: nat, i: nat, n: nat)
    requires IsPow2(n) && n < TWO_64
    requires a < i < n
    ensures WrappingSub64(a, i) % n == a - i + n
  {
    var m := CapacityDivides(n);
    assert WrappingSub64(a, i) == TWO_64 + a - i;
    assert (m - 1) * n == TWO_64 - n;
    ModUnique(TWO_64 + a - i, n, m - 1, a - i + n);
  }

  /** Counting back from the active slot with a wrapping subtraction and the mask finds the slot of
      the version that many steps earlier, also across the start of the buffer. */
  lemma RingBack(newest: nat, i: nat, n: nat)
    requires IsPow2(n) && n < TWO_64
    requires i <= newest && i < n
    ensures And(WrappingSub64(newest % n, i), n - 1) == (newest - i) % n
  {
    var q, a := DivMod(newest, n);
    MaskIsMod(WrappingSub64(a, i), n);
    if i <= a {
      assert WrappingSub64(a, i) == a - i;
      RingSmall(a - i, n);
      BackInside(q, a, i, n);
    } else {
      WrapAround(a, i, n);
      BackAround(q, a, i, n);
    }
  }

  // ----- the window

  function SlotOf(logs: seq<Log>, w: nat): Log
    requires |logs| > 0
  {
    logs[w % |logs|]
  }

  /** The counters of a roll whose tree has n versions. */
  predicate CountersFor(sequenceNumber: nat, activeIndex: nat, bufferSize: nat, capacity: nat, n: nat)
    requires n > 0 && capacity > 0
  {
    && sequenceNumber == (if n - 1 < TWO_64 then n - 1 else TWO_64 - 1)
    && activeIndex == (n - 1) % capacity
    && bufferSize == if n < capacity then n else capacity
  }

  /** The slots hold the last `capacity` versions; slots never used are zero. */
  ghost predicate HoldsWindow(logs: seq<Log>, t: Tree) {
    && |logs| == t.capacity > 0
    && (forall w :: Oldest(t) <= w < |t.versions| ==> SlotOf(logs, w) == LogOf(t.depth, t.versions[w]))
    && (forall i :: |t.versions| <= i < t.capacity ==> logs[i] == DefaultLog(t.depth))
    && (forall i :: 0 <= i < |logs| ==> |logs[i].path| == t.depth)
  }

  /** While the tree is not full, the rightmost path is the path of the last leaf written. */
  ghost predicate HoldsRightmost(proof: seq<Node>, leaf: Node, index: nat, t: Tree)
    requires |t.versions| > 0
  {
    && index == t.next
    && |proof| == t.depth
    && (t.next == 0 ==> proof == AuthPath(Leaves(t), t.depth, 0))
    && (0 < t.next < Pow2(t.depth) ==>
          proof == AuthPath(Leaves(t), t.depth, t.next - 1) && leaf == LeafAt(Leaves(t), t.next - 1))
  }

  /** Storing the log of a write in the slot after the active one keeps the window. */
  lemma StoreKeepsWindow(logs: seq<Log>, t: Tree, index: nat, x: Node, logs': seq<Log>)
    requires Wellformed(t) && HoldsWindow(logs, t)
    requires |logs'| == |logs|
    requires var slot := |t.versions| % t.capacity;
      && logs'[slot] == LogOf(t.depth, Version(LeavesAfter(t, index, x), index))
      && forall i :: 0 <= i < |logs| && i != slot ==> logs'[i] == logs[i]
    ensures HoldsWindow(logs', Write(t, index, x))
  {
    var t' := Write(t, index, x);
    var n := |t.versions|;
    forall w | Oldest(t') <= w < |t'.versions|
      ensures SlotOf(logs', w) == LogOf(t'.depth, t'.versions[w])
    {
      if w < n {
        RingEqual(w, n, t.capacity);
        assert SlotOf(logs', w) == SlotOf(logs, w);
      }
    }
    forall i | |t'.versions| <= i < t'.capacity
      ensures logs'[i] == DefaultLog(t'.depth)
    {
      RingSmall(n, t.capacity);
    }
  }

  /** Climbing from the new leaf with the old siblings runs through the new tree. */
  lemma ClimbInNewTree(leaves: seq<Node>, depth: nat, index: nat, x: Node, proof: seq<Node>, l: nat)
    requires |leaves| == Pow2(depth) && l <= depth
    requires proof == AuthPath(leaves, depth, Low(index, depth))
    ensures Climb(x, proof, index, l) == NodeAt(leaves[Low(index, depth) := x], l, Shr(Low(index, depth), l))
  {
    var p := Low(index, depth);
    var now := leaves[p := x];
    forall j | 0 <= j < l
      ensures proof[j] == SiblingAt(now, p, j)
    {
      ClimbAfterWrite(leaves, p, x, j);
    }
    ClimbLowBits(x, proof, index, depth, l);
    ClimbFollowsTree(now, x, proof, p, l);
  }

  /** The log computed from a proof of the written leaf is the log of the new version. */
  lemma LogOfWrite(leaves: seq<Node>, depth: nat, index: nat, x: Node, proof: seq<Node>, log: Log)
    requires |leaves| == Pow2(depth)
    requires proof == AuthPath(leaves, depth, Low(index, depth))
    requires log.index == index && log.root == RootFromProof(x, proof, index)
    requires |log.path| == depth && forall l {:trigger log.path[l]} :: 0 <= l < depth ==>
      log.path[l] == Climb(x, proof, index, l)
    ensures log == LogOf(depth, Version(leaves[Low(index, depth) := x], index))
  {
    var p := Low(index, depth);
    forall l | 0 <= l < depth
      ensures log.path[l] == NodeAt(leaves[p := x], l, Shr(p, l))
    {
      ClimbInNewTree(leaves, depth, index, x, proof, l);
    }
    assert log.path == PathNodes(leaves[p := x], depth, p);
    ClimbInNewTree(leaves, depth, index, x, proof, depth);
    ShrBound(p, depth, depth);
    assert Shr(p, depth) == 0;
  }

  /** Patching the path of leaf i with the log of a write at j gives the path of i after it. */
  lemma PatchKeepsPath(t: Tree, index: nat, x: Node, i: nat)
    requires Wellformed(t) && i < Pow2(t.depth)
    requires Alias(t.depth, index, i) == false
    ensures var log := LogOf(t.depth, Version(LeavesAfter(t, index, x), index));
            && Patched(log, i, AuthPath(Leaves(t), t.depth, i)) == AuthPath(LeavesAfter(t, index, x), t.depth, i)
            && PatchedLeaf(log, i, LeafAt(Leaves(t), i)) == LeafAt(LeavesAfter(t, index, x), i)
  {
    var p := Position(t, index);
    var now := LeavesAfter(t, index, x);
    var log := LogOf(t.depth, Version(now, index));
    LowSmall(i, t.depth);
    assert log.path[0] == NodeAt(now, 0, Shr(p, 0)) == x;
    forall l | 0 <= l < t.depth
      ensures Patched(log, i, AuthPath(Leaves(t), t.depth, i))[l] == SiblingAt(now, i, l)
    {
      if Meets(t.depth, index, i, l) {
        assert log.path[l] == NodeAt(now, l, Shr(p, l));
      } else {
        WriteKeepsSibling(Leaves(t), p, x, i, l);
      }
    }
  }

  /** A write left of the rightmost leaf, or at it: patching brings the rightmost path along. */
  lemma RightmostPatched(t: Tree, index: nat, x: Node, proof: seq<Node>, leaf: Node)
    requires Wellformed(t) && index < t.next < Pow2(t.depth)
    requires HoldsRightmost(proof, leaf, t.next, t)
    ensures var log := LogOf(t.depth, Version(LeavesAfter(t, index, x), index));
            && !Alias(t.depth, index, t.next - 1)
            && HoldsRightmost(Patched(log, t.next - 1, proof), PatchedLeaf(log, t.next - 1, leaf), t.next,
                Write(t, index, x))
  {
    LowSmall(index, t.depth);
    LowSmall(t.next - 1, t.depth);
    PatchKeepsPath(t, index, x, t.next - 1);
  }

  /** A write at the next free position: its own path becomes the rightmost one. */
  lemma RightmostReplaced(t: Tree, x: Node, proof: seq<Node>)
    requires Wellformed(t) && t.next < Pow2(t.depth)
    requires proof == AuthPath(Leaves(t), t.depth, Position(t, t.next))
    ensures HoldsRightmost(proof, x, t.next + 1, Write(t, t.next, x))
    ensures LogOf(t.depth, Version(LeavesAfter(t, t.next, x), t.next)).path[0] == x
  {
    LowSmall(t.next, t.depth);
    var now := LeavesAfter(t, t.next, x);
    forall l | 0 <= l < t.depth
      ensures proof[l] == SiblingAt(now, t.next, l)
    {
      ClimbAfterWrite(Leaves(t), t.next, x, l);
    }
    assert proof == AuthPath(now, t.depth, t.next);
    assert NodeAt(now, 0, Shr(t.next, 0)) == x;
  }

  /** The sibling of the appended leaf's path at each level, from the rightmost path alone: below
      the lowest set bit of its position an empty node, at that bit the node the old rightmost path
      has reached, above it the sibling the old path already had. */
  lemma AppendedSibling(t: Tree, x: Node, l: nat)
    requires Wellformed(t) && 0 < t.next < Pow2(t.depth) && l < t.depth
    ensures var now, n, meet := LeavesAfter(t, t.next, x), t.next, TrailingZeros32(t.next);
      && (l < meet ==> SiblingAt(now, n, l) == EmptyNode(l))
      && (l == meet ==> SiblingAt(now, n, l) == NodeAt(Leaves(t), l, Shr(n - 1, l)))
      && (l > meet ==> SiblingAt(now, n, l) == SiblingAt(Leaves(t), n - 1, l))
  {
    var now, n := LeavesAfter(t, t.next, x), t.next;
    LowSmall(n, t.depth);
    PredecessorPath(n, l);
    if l < TrailingZeros32(n) {
      EmptySubtree(now, n + 1, l, Shr(n, l) + 1);
    } else if l == TrailingZeros32(n) {
      WriteKeepsOtherNodes(Leaves(t), n, x, l, Shr(n - 1, l));
    } else {
      ClimbAfterWrite(Leaves(t), n, x, l);
    }
  }

  /** One step of the append loop: how the next node of the new path, and below the meeting level
      of the old one, is hashed. */
  lemma AppendStep(t: Tree, x: Node, l: nat)
    requires Wellformed(t) && 0 < t.next < Pow2(t.depth) && l < t.depth
    ensures var now, was, n, meet := LeavesAfter(t, t.next, x), Leaves(t), t.next, TrailingZeros32(t.next);
            var node, next := NodeAt(now, l, Shr(n, l)), NodeAt(now, l + 1, Shr(n, l + 1));
            var prior, right := NodeAt(was, l, Shr(n - 1, l)), Shr(n - 1, l) % 2 == 0;
      && (l < meet ==>
            && SiblingAt(now, n, l) == EmptyNode(l)
            && next == HashToParent(node, EmptyNode(l), true)
            && NodeAt(was, l + 1, Shr(n - 1, l + 1)) == HashToParent(prior, SiblingAt(was, n - 1, l), right))
      && (l == meet ==> SiblingAt(now, n, l) == prior && next == HashToParent(node, prior, false))
      && (l > meet ==>
            && SiblingAt(now, n, l) == SiblingAt(was, n - 1, l)
            && next == HashToParent(node, SiblingAt(was, n - 1, l), right))
  {
    AppendedSibling(t, x, l);
    PredecessorPath(t.next, l);
    ParentOfSiblings(LeavesAfter(t, t.next, x), l, Shr(t.next, l));
    ParentOfSiblings(Leaves(t), l, Shr(t.next - 1, l));
  }

  /** The window of a tree nobody has written to yet. */
  lemma InitialWindow(logs: seq<Log>, proof: seq<Node>, leaf: Node, depth: nat, capacity: nat)
    requires Supported(depth, capacity) && |logs| == capacity > 0
    requires |logs[0].path| == |proof| == depth
    requires forall l {:trigger proof[l]} {:trigger logs[0].path[l]} :: 0 <= l < depth ==>
      logs[0].path[l] == proof[l] == EmptyNode(l)
    requires logs[0].root == EmptyNode(depth) && logs[0].index == 0
    requires forall i :: 0 < i < capacity ==> logs[i] == DefaultLog(depth)
    ensures HoldsWindow(logs, Initial(depth, capacity))
    ensures HoldsRightmost(proof, leaf, 0, Initial(depth, capacity))
    ensures CurrentRoot(Initial(depth, capacity)) == EmptyNode(depth)
  {
    EmptyTree(depth, 0);
    LowSmall(0, depth);
    RingSmall(0, capacity);
    assert logs[0].path == PathNodes(EmptyLeaves(depth), depth, 0);
    assert proof == AuthPath(EmptyLeaves(depth), depth, 0);
  }

  // ----- walking the ring

  /** How many slots a replay visits. */
  ghost function ReplaySteps(t: Tree, from: int, useFullBuffer: bool): nat
    requires -1 <= from <= Newest(t)
  {
    if useFullBuffer && Oldest(t) == Newest(t) then t.capacity else Newest(t) - from
  }

  /** Where a replay may start: at the slot of a version in the window; or, for a full pass, at the
      oldest slot, which with a single version is the active one. */
  ghost predicate StartsAt(t: Tree, from: int, start: nat, useFullBuffer: bool)
    requires t.capacity > 0 && |t.versions| > 0
  {
    if useFullBuffer && Oldest(t) == Newest(t) then from == Newest(t) - 1 && start == Newest(t) % t.capacity
    else Oldest(t) <= from <= Newest(t) && start == from % t.capacity && (useFullBuffer ==> from == Oldest(t))
  }

  lemma OnceRound(newest: nat, j: nat, n: nat)
    requires 0 < n && j <= n
    ensures After(newest % n, j, n) == newest % n <==> j == 0 || j == n
  {
    RingSum(newest, j, n);
    if j < n {
      RingEqual(newest, newest + j, n);
    } else {
      ModUnique(newest + n, n, newest / n + 1, newest % n);
    }
  }

  lemma WithinWindow(newest: nat, from: nat, j: nat, n: nat)
    requires from + j <= newest < from + n
    ensures After(from % n, j, n) == newest % n <==> from + j == newest
  {
    RingSum(from, j, n);
    RingEqual(from + j, newest, n);
  }

  /** A walk from `start` meets the active slot exactly after `steps` steps, not counting, on a full
      pass, its starting point. */
  ghost predicate WalkEnds(start: nat, steps: nat, active: nat, n: nat, useFullBuffer: bool)
    requires n > 0
  {
    && start < n
    && (useFullBuffer ==> steps > 0)
    && forall j {:trigger After(start, j, n)} :: 0 <= j <= steps && (useFullBuffer ==> j > 0) ==>
         (After(start, j, n) == active <==> j == steps)
  }

  lemma WalkEndsAtActive(t: Tree, from: int, start: nat, useFullBuffer: bool)
    requires t.capacity > 0 && |t.versions| > 0
    requires StartsAt(t, from, start, useFullBuffer)
    ensures WalkEnds(start, ReplaySteps(t, from, useFullBuffer), Newest(t) % t.capacity, t.capacity, useFullBuffer)
  {
    var steps := ReplaySteps(t, from, useFullBuffer);
    forall j | 0 <= j <= steps && (useFullBuffer ==> j > 0)
      ensures After(start, j, t.capacity) == Newest(t) % t.capacity <==> j == steps
    {
      if useFullBuffer && Oldest(t) == Newest(t) {
        OnceRound(Newest(t), j, t.capacity);
      } else {
        WithinWindow(Newest(t), from, j, t.capacity);
      }
    }
  }

  lemma AfterNone(start: nat, n: nat)
    requires start < n
    ensures After(start, 0, n) == start
  {
    RingSmall(start, n);
  }

  /** One masked increment moves to the next slot. */
  lemma AfterNext(start: nat, j: nat, n: nat)
    requires IsPow2(n)
    ensures And(After(start, j, n) + 1, n - 1) == After(start, j + 1, n)
  {
    MaskIsMod(After(start, j, n) + 1, n);
    RingSum(start + j, 1, n);
  }

  lemma WindowHoldsVersions(logs: seq<Log>, t: Tree, from: nat, start: nat)
    requires HoldsWindow(logs, t) && |t.versions| > 0
    requires Oldest(t) <= from <= Newest(t) && start == from % t.capacity
    ensures HoldsVersions(logs, start, Newest(t) - from, t, from)
  {
    forall j | 0 < j <= Newest(t) - from
      ensures Slot(logs, start, j) == LogOf(t.depth, t.versions[from + j])
    {
      RingSum(from, j, t.capacity);
      assert SlotOf(logs, from + j) == LogOf(t.depth, t.versions[from + j]);
    }
  }

  /** On a tree nobody has written to, the unused slots leave a proof for index 0 alone. */
  lemma {:induction false} UnusedSlotsKeepProof(logs: seq<Log>, t: Tree, k: nat, leaf: Node, proof: seq<Node>)
    requires HoldsWindow(logs, t) && |t.versions| == 1
    requires |proof| == t.depth > 0 && k < t.capacity
    ensures Replayed(logs, 0, k, 0, leaf, proof).1 == proof
    ensures !AliasAmong(logs, 0, k, t.depth, 0)
  {
    if k > 0 {
      UnusedSlotsKeepProof(logs, t, k - 1, leaf, proof);
      RingSmall(k, t.capacity);
      assert Slot(logs, 0, k) == DefaultLog(t.depth);
      assert Patched(DefaultLog(t.depth), 0, proof) == proof;
    }
  }

  /** A full pass over a single version has the effect of that version's own log. */
  lemma FullPassOverOneVersion(logs: seq<Log>, t: Tree, index: nat, leaf: Node, proof: seq<Node>)
    requires Wellformed(t) && HoldsWindow(logs, t) && |proof| == t.depth
    requires Oldest(t) == Newest(t) && index <= t.next
    ensures var start, n := Newest(t) % t.capacity, t.capacity;
      && (AliasAmong(logs, start, n, t.depth, index) <==> AliasWritten(t, Newest(t) - 1, Newest(t), index))
      && (!AliasAmong(logs, start, n, t.depth, index) ==>
            var r := Replayed(logs, start, n, index, leaf, proof);
            BroughtUpTo(t, Newest(t) - 1, Newest(t), index, leaf, proof, r.0, r.1))
  {
    var w, n := Newest(t), t.capacity;
    var start := w % n;
    RingSum(w, n, n);
    ModUnique(w + n, n, w / n + 1, start);
    assert Slot(logs, start, n) == SlotOf(logs, w) == LogOf(t.depth, t.versions[w]);
    assert AliasWritten(t, w - 1, w, index) <==> Alias(t.depth, t.versions[w].index, index);
    if n == 1 {
      assert AliasAmong(logs, start, n, t.depth, index) <==> Alias(t.depth, t.versions[w].index, index);
      assert Replayed(logs, start, 0, index, leaf, proof) == (leaf, proof);
    } else {
      assert |t.versions| == 1;
      RingSmall(0, n);
      UnusedSlotsKeepProof(logs, t, n - 1, leaf, proof);
    }
    if !Alias(t.depth, t.versions[w].index, index) {
      OneLogBringsUpTo(t, w, index, leaf, proof);
    }
  }

  /** The effect of a whole replay on a proof, in terms of the tree's versions. */
  lemma ReplayEffect(logs: seq<Log>, t: Tree, from: int, start: nat, useFullBuffer: bool, index: nat, leaf: Node,
                     proof: seq<Node>)
    requires Wellformed(t) && HoldsWindow(logs, t) && |proof| == t.depth
    requires StartsAt(t, from, start, useFullBuffer)
    requires useFullBuffer ==> index <= t.next
    ensures var steps := ReplaySteps(t, from, useFullBuffer);
      && (AliasAmong(logs, start, steps, t.depth, index) <==> AliasWritten(t, from, Newest(t), index))
      && (!AliasAmong(logs, start, steps, t.depth, index) ==>
            var r := Replayed(logs, start, steps, index, leaf, proof);
            BroughtUpTo(t, from, Newest(t), index, leaf, proof, r.0, r.1))
  {
    if useFullBuffer && Oldest(t) == Newest(t) {
      FullPassOverOneVersion(logs, t, index, leaf, proof);
    } else {
      var steps := Newest(t) - from;
      WindowHoldsVersions(logs, t, from, start);
      AliasAmongVersions(logs, start, steps, t, from, index);
      if !AliasAmong(logs, start, steps, t.depth, index) {
        ReplayBringsUpTo(logs, start, steps, t, from, index, leaf, proof);
      }
    }
  }
}
