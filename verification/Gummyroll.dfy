/** The on-chain program around the roll: instructions that complete a short proof from the canopy,
    run the roll, emit the change-log event and keep the canopy up to date. */
module Gummyrolls {
  import opened Bits
  import opened Merkle
  import opened VersionedTree
  import opened Guarantees
  import opened MerkleRolls
  import opened Canopy

  /** A failed instruction is rolled back as a whole. */
  datatype Result = Success(event: ChangeLogEvent) | TreeError(error: CMTError) | Aborted

  /** The sizes the program is compiled for. */
  predicate KnownSize(maxDepth: nat, maxBufferSize: nat) {
    (maxDepth, maxBufferSize) in {
      (3, 8), (5, 8),
      (14, 64), (14, 256), (14, 1024), (14, 2048),
      (20, 64), (20, 256), (20, 1024), (20, 2048),
      (24, 64), (24, 256), (24, 512), (24, 1024), (24, 2048),
      (26, 512), (26, 1024), (26, 2048),
      (30, 512), (30, 1024), (30, 2048)
    }
  }

  lemma KnownSizesAreSupported(maxDepth: nat, maxBufferSize: nat)
    requires KnownSize(maxDepth, maxBufferSize)
    ensures Supported(maxDepth, maxBufferSize)
  {
    hide IsPow2;
    Pow2Small();
    IsPow2OfPow2(3);
    IsPow2OfPow2(6);
    IsPow2OfPow2(8);
    IsPow2OfPow2(9);
    IsPow2OfPow2(10);
    IsPow2OfPow2(11);
  }

  lemma Pow2Small()
    ensures Pow2(3) == 8 && Pow2(6) == 64 && Pow2(8) == 256 && Pow2(9) == 512 && Pow2(10) == 1024 && Pow2(11) == 2048
  {
  }

  /** The caller's lower nodes, completed with the current nodes of the cached levels. */
  ghost function CompletedFromCanopy(t: Tree, levels: nat, lower: seq<Node>, index: nat): seq<Node>
    requires |t.versions| > 0 && levels <= t.depth
  {
    lower + UpperPath(Leaves(t), t.depth, index, t.depth - levels)
  }

  /** How the outcome of a tree operation becomes the result of an instruction. */
  ghost function Conclude(t: Tree, r: (Tree, Outcome)): (Tree, Result)
    requires |r.0.versions| > 0
  {
    match r.1
    case Ok(_) => (r.0, Success(EventOf(r.0, Newest(r.0))))
    case Err(e) => (t, TreeError(e))
    case Aborted => (t, Result.Aborted)
  }

  ghost function LeafReplaced(t: Tree, levels: nat, root: Node, previousLeaf: Node, newLeaf: Node, lower: seq<Node>,
                              index: nat): (Tree, Result)
    requires Wellformed(t) && levels <= t.depth
  {
    if index >= Pow2(t.depth) then (t, Result.Aborted)
    else
      SetLeafIsSound(t, root, previousLeaf, newLeaf, CompletedFromCanopy(t, levels, lower, index), index);
      Conclude(t, SetLeaf(t, root, previousLeaf, newLeaf, CompletedFromCanopy(t, levels, lower, index), index))
  }

  ghost function LeafInserted(t: Tree, levels: nat, root: Node, leaf: Node, lower: seq<Node>, index: nat): (Tree,
                              Result)
    requires Wellformed(t) && levels <= t.depth
  {
    if index >= Pow2(t.depth) then (t, Result.Aborted)
    else
      FillNeverOverwrites(t, root, leaf, CompletedFromCanopy(t, levels, lower, index), index);
      Conclude(t, FillEmptyOrAppend(t, root, leaf, CompletedFromCanopy(t, levels, lower, index), index))
  }

  ghost predicate LeafVerified(t: Tree, levels: nat, root: Node, leaf: Node, lower: seq<Node>, index: nat)
    requires Wellformed(t) && levels <= t.depth
  {
    index < Pow2(t.depth) && ProveLeaf(t, root, leaf, CompletedFromCanopy(t, levels, lower, index), index).Ok?
  }

  ghost function LeafAppended(t: Tree, leaf: Node): (Tree, Result)
    requires Wellformed(t)
  {
    AppendIsSound(t, leaf);
    Conclude(t, Append(t, leaf))
  }

  /** What a successful operation below 2^depth did: one write at its own position. */
  ghost predicate WroteAt(t: Tree, t': Tree, i: nat, x: Node)
    requires |t.versions| > 0
  {
    && |Leaves(t)| == Pow2(t.depth) && i < Pow2(t.depth)
    && t' == Write(t, i, x)
    && Wellformed(t')
  }

  lemma ReplaceWrites(t: Tree, root: Node, previousLeaf: Node, newLeaf: Node, proofVec: seq<Node>, index: nat)
    requires Wellformed(t) && index < Pow2(t.depth)
    ensures SetLeaf(t, root, previousLeaf, newLeaf, proofVec, index).1.Ok? ==>
      WroteAt(t, SetLeaf(t, root, previousLeaf, newLeaf, proofVec, index).0, index, newLeaf)
  {
    SetLeafIsSound(t, root, previousLeaf, newLeaf, proofVec, index);
  }

  lemma AppendWrites(t: Tree, leaf: Node)
    requires Wellformed(t)
    ensures Append(t, leaf).1.Ok? ==> WroteAt(t, Append(t, leaf).0, t.next, leaf)
  {
    AppendIsSound(t, leaf);
  }

  lemma FillWrites(t: Tree, root: Node, leaf: Node, proofVec: seq<Node>, index: nat) returns (i: nat)
    requires Wellformed(t) && index < Pow2(t.depth)
    ensures FillEmptyOrAppend(t, root, leaf, proofVec, index).1.Ok? ==>
      WroteAt(t, FillEmptyOrAppend(t, root, leaf, proofVec, index).0, i, leaf)
  {
    FillNeverOverwrites(t, root, leaf, proofVec, index);
    AppendWrites(t, leaf);
    i := if |proofVec| <= t.depth
            && TryApply(t, root, Empty, leaf, Completed(proofVec, t.depth), index, false).1 == Err(LeafContentsModified)
         then t.next else index;
  }

  lemma WroteKeepsNoAliases(t: Tree, t': Tree, i: nat, x: Node)
    requires |t.versions| > 0 && NoAliases(t) && WroteAt(t, t', i, x)
    ensures NoAliases(t') && t'.depth == t.depth && t'.capacity == t.capacity
    ensures Leaves(t') == Leaves(t)[i := x]
    ensures Newest(t') == Newest(t) + 1 && t'.versions[Newest(t')] == Version(Leaves(t)[i := x], i)
  {
    LowSmall(i, t.depth);
  }

  /** The event of a new version carries the nodes of the new leaves. */
  lemma EventOfWrite(t: Tree, t': Tree, i: nat, x: Node)
    requires |t.versions| > 0 && NoAliases(t) && WroteAt(t, t', i, x)
    ensures EventFor(EventOf(t', Newest(t')), Leaves(t)[i := x], t'.depth, i)
  {
    WroteKeepsNoAliases(t, t', i, x);
    forall l | 0 <= l <= t'.depth
      ensures EventOf(t', Newest(t')).path[l]
           == PathNode(NodeAt(Leaves(t)[i := x], l, Shr(i, l)), NodeNumber(t'.depth, l, Shr(i, l)))
    {
      EventNodes(t', Newest(t'), l);
    }
    EventNodes(t', Newest(t'), 0);
  }

  class Gummyroll {
    const maxDepth: nat
    const maxBufferSize: nat
    const roll: MerkleRoll
    const canopy: array<Node>
    var authority: nat
    var appendAuthority: nat
    ghost const levels: nat

    ghost predicate Valid()
      reads this, roll, roll.changeLogs, roll.rightmostProof, canopy
    {
      && roll.Valid()
      && roll.maxDepth == maxDepth && roll.maxBufferSize == maxBufferSize
      && canopy != roll.rightmostProof
      && |roll.tree.versions| > 0
      && NoAliases(roll.tree)
      && Agrees(canopy[..], Leaves(roll.tree), maxDepth, levels)
    }

    lemma Outline()
      requires Valid()
      ensures Assembled() && roll.Valid() && Wellformed(roll.tree) && NoAliases(roll.tree)
      ensures roll.tree.depth == maxDepth && |roll.tree.versions| > 0
      ensures Agrees(canopy[..], Leaves(roll.tree), maxDepth, levels)
    {
      roll.Outline();
    }

    /** A zeroed account of the right size, set up as an empty tree, and its first event: fails for sizes
        the program does not know and for canopies that are not whole levels of the tree. */
    static method InitEmptyGummyroll(maxDepth: nat, maxBufferSize: nat, canopyLength: nat, authority: nat,
                                     appendAuthority: nat)
      returns (account: Option<Gummyroll>, event: Option<ChangeLogEvent>)
      ensures account.Some?
         <==> (KnownSize(maxDepth, maxBufferSize)
           && GetCachedPathLength(canopyLength, maxDepth) != CanopyLengthMismatch)
      ensures account.Some? ==>
        && fresh(account.value) && fresh(account.value.roll) && fresh(account.value.roll.changeLogs)
        && fresh(account.value.roll.rightmostProof) && fresh(account.value.canopy) && account.value.Valid()
        && account.value.roll.tree == Initial(maxDepth, maxBufferSize)
        && account.value.authority == authority && account.value.appendAuthority == appendAuthority
        && event == Some(EventOf(Initial(maxDepth, maxBufferSize), 0))
    {
      if !KnownSize(maxDepth, maxBufferSize) || GetCachedPathLength(canopyLength, maxDepth) == CanopyLengthMismatch {
        return None, None;
      }
      KnownSizesAreSupported(maxDepth, maxBufferSize);
      var g := new Gummyroll(maxDepth, maxBufferSize, canopyLength, authority, appendAuthority);
      var first := g.NewestEvent();
      account, event := Some(g), Some(first);
    }

    /** The event of the newest version. */
    method NewestEvent() returns (event: ChangeLogEvent)
      requires roll.Valid()
      ensures |roll.tree.versions| > 0 && event == EventOf(roll.tree, Newest(roll.tree))
    {
      roll.Outline();
      SequenceNumberOf(roll);
      hide MerkleRoll.Valid, ToEvent;
      var log := roll.GetChangeLog();
      event := ToEvent(log, roll.sequenceNumber);
    }

    constructor (depth: nat, capacity: nat, canopyLength: nat, auth: nat, appendAuth: nat)
      requires Supported(depth, capacity) && GetCachedPathLength(canopyLength, depth) != CanopyLengthMismatch
      ensures fresh(roll) && fresh(roll.changeLogs) && fresh(roll.rightmostProof) && fresh(canopy)
      ensures Valid() && roll.tree == Initial(depth, capacity)
      ensures maxDepth == depth && maxBufferSize == capacity && authority == auth && appendAuthority == appendAuth
    {
      hide GetCachedPathLength, Agrees, MerkleRoll.Valid;
      var r := new MerkleRoll(depth, capacity);
      var _ := r.Initialize();
      var slots := new Node[canopyLength](_ => Empty);
      LevelsNonNegative(canopyLength, depth);
      ghost var p: nat := GetCachedPathLength(canopyLength, depth).count;
      CachedPathLengthExact(canopyLength, depth, p);
      ZeroedCanopyAgrees(slots[..], depth, p);
      maxDepth, maxBufferSize := depth, capacity;
      roll, canopy := r, slots;
      authority, appendAuthority := auth, appendAuth;
      levels := p;
    }

    /** The fixed layout of the account. */
    ghost predicate Assembled() {
      && 0 < maxDepth < 31 && levels <= maxDepth
      && roll.maxDepth == maxDepth && roll.maxBufferSize == maxBufferSize
      && canopy != roll.rightmostProof
    }

    /** After a write to the roll: its event, and the canopy brought up to date from it. */
    method EmitAndCache(ghost t: Tree, ghost i: nat, ghost x: Node) returns (event: ChangeLogEvent)
      requires Assembled() && roll.Valid() && t.depth == maxDepth
      requires |t.versions| > 0 && NoAliases(t) && WroteAt(t, roll.tree, i, x)
      requires Agrees(canopy[..], Leaves(t), maxDepth, levels)
      modifies canopy
      ensures Valid()
      ensures |roll.tree.versions| > 0 && event == EventOf(roll.tree, Newest(roll.tree))
    {
      roll.Outline();
      WroteKeepsNoAliases(t, roll.tree, i, x);
      EventOfWrite(t, roll.tree, i, x);
      CachedPathLengthExact(canopy.Length, maxDepth, levels);
      assert |canopy[..]| == canopy.Length;
      event := NewestEvent();
      AgreesForLevelsOnly(canopy[..], Leaves(t), maxDepth, levels);
      hide MerkleRoll.Valid, EventFor, EventOf, Agrees, WroteAt, NoAliases, Wellformed, ToEvent;
      var mismatch := UpdateCanopy(canopy, maxDepth, Some(event), Leaves(t), i, x);
    }

    /** Undoes what a failed instruction did to the canopy. */
    method Rollback(saved: seq<Node>)
      requires |saved| == canopy.Length
      modifies canopy
      ensures canopy[..] == saved
    {
      forall j | 0 <= j < canopy.Length {
        canopy[j] := saved[j];
      }
    }

    /** The end of every writing instruction: event and canopy update, or rollback. */
    method Finish(outcome: Outcome, saved: seq<Node>, ghost t: Tree, ghost i: nat, ghost x: Node)
      returns (result: Result)
      requires Assembled() && roll.Valid() && t.depth == maxDepth
      requires |t.versions| > 0 && NoAliases(t) && |saved| == canopy.Length
      requires Agrees(canopy[..], Leaves(t), maxDepth, levels) && Agrees(saved, Leaves(t), maxDepth, levels)
      requires if outcome.Ok? then WroteAt(t, roll.tree, i, x) else roll.tree == t
      modifies canopy
      ensures Valid() && |roll.tree.versions| > 0
      ensures (roll.tree, result) == Conclude(t, (roll.tree, outcome))
      ensures !result.Success? ==> canopy[..] == saved
    {
      hide MerkleRoll.Valid, NoAliases, Agrees, WroteAt, EventOf;
      if outcome.Ok? {
        var event := EmitAndCache(t, i, x);
        result := Success(event);
      } else {
        Rollback(saved);
        result := if outcome.Err? then TreeError(outcome.error) else Result.Aborted;
      }
    }

    /** The start of every instruction that takes a proof: the lower nodes from the caller, the upper
        ones from the canopy. */
    method CompleteProof(lower: seq<Node>, index: nat) returns (proofVec: seq<Node>, panicked: bool)
      requires Valid()
      modifies canopy
      ensures Valid() && |roll.tree.versions| > 0 && levels <= roll.tree.depth == maxDepth
      ensures panicked <==> index >= Pow2(maxDepth)
      ensures !panicked ==> proofVec == CompletedFromCanopy(roll.tree, levels, lower, index)
    {
      Outline();
      hide MerkleRoll.Valid, NoAliases, Agrees, Wellformed;
      var upper;
      upper, panicked := FillInProofFromCanopy(canopy, maxDepth, index, Leaves(roll.tree), levels);
      proofVec := lower + upper;
    }

    /** Overwrites a leaf. */
    method ReplaceLeaf(signer: nat, root: Node, previousLeaf: Node, newLeaf: Node, lower: seq<Node>, index: nat)
      returns (result: Result)
      requires Valid()
      modifies roll, roll.changeLogs, roll.rightmostProof, canopy
      ensures Valid() && Wellformed(old(roll.tree)) && levels <= old(roll.tree).depth
      ensures (roll.tree, result)
           == if signer != authority then (old(roll.tree), Result.Aborted)
              else LeafReplaced(old(roll.tree), levels, root, previousLeaf, newLeaf, lower, index)
      ensures !result.Success? ==> canopy[..] == old(canopy[..])
    {
      hide MerkleRoll.Valid, Wellformed, NoAliases, Agrees, SetLeaf, Conclude, WroteAt;
      Outline();
      if signer != authority {
        return Result.Aborted;
      }
      ghost var t := roll.tree;
      var saved := canopy[..];
      var proofVec, panicked := CompleteProof(lower, index);
      if panicked {
        Rollback(saved);
        return Result.Aborted;
      }
      ReplaceWrites(t, root, previousLeaf, newLeaf, proofVec, index);
      SetLeafIsSound(t, root, previousLeaf, newLeaf, proofVec, index);
      var outcome := roll.SetLeaf(root, previousLeaf, newLeaf, proofVec, index);
      result := Finish(outcome, saved, t, index, newLeaf);
    }

    /** Writes to an empty leaf, or appends if it has been taken meanwhile. */
    method InsertOrAppend(signer: nat, root: Node, leaf: Node, lower: seq<Node>, index: nat) returns (result: Result)
      requires Valid()
      modifies roll, roll.changeLogs, roll.rightmostProof, canopy
      ensures Valid() && Wellformed(old(roll.tree)) && levels <= old(roll.tree).depth
      ensures (roll.tree, result) == if signer != authority then (old(roll.tree), Result.Aborted)
                                     else LeafInserted(old(roll.tree), levels, root, leaf, lower, index)
      ensures !result.Success? ==> canopy[..] == old(canopy[..])
    {
      hide MerkleRoll.Valid, Wellformed, NoAliases, Agrees, FillEmptyOrAppend, Conclude, WroteAt;
      Outline();
      if signer != authority {
        return Result.Aborted;
      }
      ghost var t := roll.tree;
      var saved := canopy[..];
      var proofVec, panicked := CompleteProof(lower, index);
      if panicked {
        Rollback(saved);
        return Result.Aborted;
      }
      ghost var i := FillWrites(t, root, leaf, proofVec, index);
      FillNeverOverwrites(t, root, leaf, proofVec, index);
      var outcome := roll.FillEmptyOrAppend(root, leaf, proofVec, index);
      result := Finish(outcome, saved, t, i, leaf);
    }

    method Append(signer: nat, appendSigner: nat, leaf: Node) returns (result: Result)
      requires Valid()
      modifies roll, roll.changeLogs, roll.rightmostProof, canopy
      ensures Valid() && Wellformed(old(roll.tree))
      ensures (roll.tree, result)
           == if signer != authority || appendSigner != appendAuthority then (old(roll.tree), Result.Aborted)
              else LeafAppended(old(roll.tree), leaf)
      ensures !result.Success? ==> canopy[..] == old(canopy[..])
    {
      Outline();
      if signer != authority || appendSigner != appendAuthority {
        return Result.Aborted;
      }
      ghost var t := roll.tree;
      var saved := canopy[..];
      hide MerkleRoll.Valid, Wellformed, NoAliases, Agrees, VersionedTree.Append, Conclude, WroteAt;
      AppendWrites(t, leaf);
      AppendIsSound(t, leaf);
      var outcome := roll.Append(leaf);
      result := Finish(outcome, saved, t, t.next, leaf);
    }

    /** New authorities, named by the old one. */
    method TransferAuthority(signer: nat, newAuthority: Option<nat>, newAppendAuthority: Option<nat>)
      returns (transferred: bool)
      modifies this`authority, this`appendAuthority
      ensures transferred <==> signer == old(authority)
      ensures authority
           == if signer == old(authority) && newAuthority.Some? then newAuthority.value else old(authority)
      ensures appendAuthority
           == if signer == old(authority) && newAppendAuthority.Some?
              then newAppendAuthority.value
              else old(appendAuthority)
    {
      if signer != authority {
        return false;
      }
      if newAuthority.Some? {
        authority := newAuthority.value;
      }
      if newAppendAuthority.Some? {
        appendAuthority := newAppendAuthority.value;
      }
      transferred := true;
    }

    /** Checks a leaf; the canopy may gain empty nodes it did not hold before. */
    method VerifyLeaf(root: Node, leaf: Node, lower: seq<Node>, index: nat) returns (verified: bool)
      requires Valid()
      modifies canopy
      ensures Valid() && Wellformed(roll.tree) && levels <= roll.tree.depth
      ensures verified <==> LeafVerified(roll.tree, levels, root, leaf, lower, index)
      ensures !verified ==> canopy[..] == old(canopy[..])
    {
      Outline();
      var saved := canopy[..];
      hide MerkleRoll.Valid, Wellformed, NoAliases, Agrees, ProveLeaf;
      var proofVec, panicked := CompleteProof(lower, index);
      if panicked {
        Rollback(saved);
        return false;
      }
      var outcome := roll.ProveLeaf(root, leaf, proofVec, index);
      verified := outcome.Ok?;
      if !verified {
        Rollback(saved);
      }
    }
  }

  // ----- completing stale proofs

  /** The lower nodes from any version still in the window, the upper ones from the current canopy:
      the mixture is as good as a proof of that version. Replacing succeeds exactly when the leaf's
      current value is the one the caller saw. */
  lemma CanopyCompletesStaleProof(t: Tree, levels: nat, v: nat, index: nat, newLeaf: Node)
    requires Wellformed(t) && NoAliases(t) && levels <= t.depth
    requires Oldest(t) <= v <= Newest(t)
    requires index < Pow2(t.depth) && index <= t.next
    ensures var was := t.versions[v].leaves;
            var lower := AuthPath(was, t.depth, index)[..t.depth - levels];
            var r := LeafReplaced(t, levels, Root(was, t.depth), was[index], newLeaf, lower, index);
      if was[index] == Leaves(t)[index]
      then r.1.Success? && Leaves(r.0) == Leaves(t)[index := newLeaf]
      else r == (t, TreeError(LeafContentsModified))
  {
    var was := t.versions[v].leaves;
    var proof := CompletedFromCanopy(t, levels, AuthPath(was, t.depth, index)[..t.depth - levels], index);
    LowSmall(index, t.depth);
    MixtureIsMixed(t, levels, v, index);
    StaleSetLeafExact(t, v, index, proof, newLeaf);
  }

  lemma MixtureIsMixed(t: Tree, levels: nat, v: nat, index: nat)
    requires |t.versions| > 0 && levels <= t.depth && v < |t.versions| && index < Pow2(t.depth)
    ensures MixedProof(t, v, index,
      CompletedFromCanopy(t, levels, AuthPath(t.versions[v].leaves, t.depth, index)[..t.depth - levels], index))
  {
    LowSmall(index, t.depth);
  }

  lemma SequenceNumberOf(roll: MerkleRoll)
    requires roll.Valid()
    ensures |roll.tree.versions| > 0
    ensures roll.sequenceNumber == if Newest(roll.tree) < TWO_64 then Newest(roll.tree) else TWO_64 - 1
  {
  }

  lemma AgreesForLevelsOnly(canopy: seq<Node>, leaves: seq<Node>, depth: nat, p: nat)
    requires Agrees(canopy, leaves, depth, p)
    ensures forall q: nat :: q <= depth && |canopy| == Pow2(q + 1) - 2 ==> Agrees(canopy, leaves, depth, q)
  {
    forall q: nat | q <= depth && |canopy| == Pow2(q + 1) - 2
      ensures Agrees(canopy, leaves, depth, q)
    {
      Log2Pow2(q + 1);
      Log2Pow2(p + 1);
    }
  }
}
