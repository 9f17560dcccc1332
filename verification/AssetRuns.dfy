/** A tree of assets in the open: anybody may call the tree program directly, but only the asset program
    signs for the tree. */
module AssetRuns {
  import opened Merkle
  import opened VersionedTree
  import opened Canopy
  import opened Gummyrolls
  import opened Bubblegums
  import Instructions

  datatype Transaction =
    | OnAsset(ins: Instruction)
    | OnTree(call: Instructions.Instruction)
    | Verify(root: Node, leaf: Node, lower: seq<Node>, index: nat)
    | Handover(signer: nat, newAuthority: Option<nat>, newAppendAuthority: Option<nat>)

  /** A direct call is signed by somebody else than the tree's authority. */
  predicate ByOthers(authority: nat, tx: Transaction) {
    && (tx.OnTree? ==> tx.call.signer != authority)
    && (tx.Handover? ==> tx.signer != authority)
  }

  /** The asset instructions among the transactions. */
  function OnAssets(txs: seq<Transaction>): seq<Instruction> {
    if |txs| == 0 then []
    else
      var front, tx := OnAssets(txs[..|txs| - 1]), txs[|txs| - 1];
      if tx.OnAsset? then front + [tx.ins] else front
  }

  lemma OnAssetsOneMore(txs: seq<Transaction>, n: nat)
    requires n < |txs|
    ensures OnAssets(txs[..n + 1]) == if txs[n].OnAsset? then OnAssets(txs[..n]) + [txs[n].ins] else OnAssets(txs[..n])
  {
    assert txs[..n + 1][..n] == txs[..n];
  }

  /** A direct call by others changes nothing. */
  method CallDirectly(b: Bubblegum, tx: Transaction)
    requires b.Valid() && !tx.OnAsset? && ByOthers(b.authority, tx)
    modifies b.gummyroll, b.gummyroll.roll, b.gummyroll.roll.changeLogs, b.gummyroll.roll.rightmostProof,
      b.gummyroll.canopy
    ensures b.Valid() && b.Now() == old(b.Now()) && b.Fixed() == old(b.Fixed())
  {
    hide Gummyroll.Valid, Accounted, Vouched, Recorded, LeafReplaced, LeafInserted, LeafAppended;
    b.Outline();
    match tx
    case OnTree(call) =>
      var result := Instructions.Perform(b.gummyroll, call);
    case Verify(root, leaf, lower, index) =>
      var verified := b.gummyroll.VerifyLeaf(root, leaf, lower, index);
    case Handover(signer, newAuthority, newAppendAuthority) =>
      var transferred := b.gummyroll.TransferAuthority(signer, newAuthority, newAppendAuthority);
  }

  /** Over any mixture of asset instructions and direct calls by others, the ledger is what the asset
      instructions alone make of it. */
  method Process(b: Bubblegum, txs: seq<Transaction>)
    requires b.Valid() && forall k :: 0 <= k < |txs| ==> ByOthers(b.authority, txs[k])
    modifies b, b.gummyroll, b.gummyroll.roll, b.gummyroll.roll.changeLogs, b.gummyroll.roll.rightmostProof,
      b.gummyroll.canopy
    ensures b.Valid() && b.Fixed() == old(b.Fixed())
    ensures b.Now() == SettledAll(b.Fixed(), old(b.Now()), OnAssets(txs)).0
    ensures Evolves(old(b.assets), OnAssets(txs), b.assets)
  {
    hide Bubblegum.Valid, Settled, Bubblegum.Now, Bubblegum.Fixed;
    ghost var start, terms, was := b.Now(), b.Fixed(), b.assets;
    AssetsOf(b);
    for n := 0 to |txs|
      invariant b.Valid() && b.Fixed() == terms
      invariant b.Now() == SettledAll(terms, start, OnAssets(txs[..n])).0
      invariant b.assets == b.Now().assets
      invariant Evolves(was, OnAssets(txs[..n]), b.assets)
    {
      hide Evolves, SettledAll, OnAssets, ByOthers;
      OnAssetsOneMore(txs, n);
      ghost var before := b.assets;
      if txs[n].OnAsset? {
        SettledOneMore(terms, start, OnAssets(txs[..n]), txs[n].ins);
        FixedStays(b);
        var answer := Perform(b, txs[n].ins);
        FixedStays(b);
        EvolvesFurther(was, OnAssets(txs[..n]), before, txs[n].ins, b.assets);
      } else {
        CallDirectly(b, txs[n]);
      }
      AssetsOf(b);
    }
    assert txs[..|txs|] == txs;
  }

  lemma AssetsOf(b: Bubblegum)
    ensures b.assets == b.Now().assets
  {
  }

  lemma FixedStays(b: Bubblegum)
    ensures b.Fixed() == Terms(b.gummyroll.levels, b.gummyroll.maxDepth, b.treeId, b.gummyroll.appendAuthority)
  {
  }

  /** From the creation of the tree on. */
  method CreateAndProcess(maxDepth: nat, maxBufferSize: nat, canopyLength: nat, treeId: nat, treeAuthority: nat,
                          treeCreator: nat, txs: seq<Transaction>)
    returns (created: Option<Bubblegum>)
    requires forall k :: 0 <= k < |txs| ==> ByOthers(treeAuthority, txs[k])
    ensures created.Some? ==>
      && created.value.Valid() && created.value.gummyroll.authority == treeAuthority
      && created.value.Now()
            == SettledAll(created.value.Fixed(), Ledger(Initial(maxDepth, maxBufferSize), [], map[], []),
                OnAssets(txs)).0
      && created.value.Fixed().creator == treeCreator && created.value.Fixed().treeId == treeId
  {
    hide Bubblegum.Valid, SettledAll;
    created := Bubblegum.CreateTree(maxDepth, maxBufferSize, canopyLength, treeId, treeAuthority, treeCreator);
    if created.Some? {
      Process(created.value, txs);
      AuthorityIs(created.value);
    }
  }

  lemma AuthorityIs(b: Bubblegum)
    requires b.Valid()
    ensures b.gummyroll.authority == b.authority
  {
  }
}
