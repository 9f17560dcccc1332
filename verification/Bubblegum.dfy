/** The asset program on top of the tree: minted assets are leaves, leave the tree against a voucher,
    and end as tokens or burnt. */
module Bubblegums {
  import opened Bits
  import opened Merkle
  import opened VersionedTree
  import opened Guarantees
  import opened Canopy
  import opened Gummyrolls

  /** The program-derived address of an asset, as what it is derived from. */
  datatype AssetId = AssetId(tree: nat, nonce: nat)

  /** Owner and delegate are wallets; the hashes are those of the metadata and of the creators. */
  datatype LeafSchema = LeafSchema(id: AssetId, owner: nat, delegate: nat, nonce: nat, dataHash: nat, creatorHash: nat)

  function ToNode(schema: LeafSchema): Node {
    Raw([1, schema.id.tree, schema.id.nonce, schema.owner, schema.delegate, schema.nonce, schema.dataHash,
      schema.creatorHash])
  }

  /** Nodes determine schemas, and no schema hashes to an empty leaf. */
  lemma ToNodeIsInjective(a: LeafSchema, b: LeafSchema)
    ensures ToNode(a) == ToNode(b) ==> a == b
    ensures ToNode(a) != Empty
  {
    var x, y := ToNode(a), ToNode(b);
    if x == y {
      assert x.preimage[1] == y.preimage[1] && x.preimage[2] == y.preimage[2] && x.preimage[3] == y.preimage[3];
      assert x.preimage[4] == y.preimage[4] && x.preimage[5] == y.preimage[5] && x.preimage[6] == y.preimage[6];
      assert x.preimage[7] == y.preimage[7];
    }
  }

  datatype Voucher = Voucher(schema: LeafSchema, index: nat, tree: nat)

  // ----- what has become of the assets

  datatype Status = InTree | Redeemed | Decompressed | Burnt

  datatype Asset = Asset(schema: LeafSchema, status: Status)

  predicate Final(a: Asset) {
    a.status == Decompressed || a.status == Burnt
  }

  function LeafOf(a: Asset): Node {
    if a.status == InTree then ToNode(a.schema) else Empty
  }

  /** Asset i carries its own number, and leaf i is the hash of its schema while it is in the tree and
      Empty otherwise. */
  ghost predicate Accounted(t: Tree, treeId: nat, assets: seq<Asset>) {
    && |t.versions| > 0 && |assets| == t.next <= |Leaves(t)| == Pow2(t.depth)
    && forall i :: 0 <= i < |assets| ==>
         && assets[i].schema.nonce == i && assets[i].schema.id == AssetId(treeId, i)
         && Leaves(t)[i] == LeafOf(assets[i])
  }

  /** The open vouchers are those of the redeemed assets. */
  ghost predicate Vouched(vouchers: map<nat, Voucher>, treeId: nat, assets: seq<Asset>) {
    && (forall i :: i in vouchers <==> 0 <= i < |assets| && assets[i].status == Redeemed)
    && (forall i :: i in vouchers ==> i < |assets| && vouchers[i] == Voucher(assets[i].schema, i, treeId))
  }

  /** The decompression events: each decompressed asset once. */
  ghost predicate Recorded(decompressions: seq<nat>, assets: seq<Asset>) {
    && (forall i :: i in decompressions <==> 0 <= i < |assets| && assets[i].status == Decompressed)
    && (forall j, k :: 0 <= j < k < |decompressions| ==> decompressions[j] != decompressions[k])
  }

  /** What a leaf that replaces another makes of the assets. */
  lemma ReplacedAsset(t: Tree, levels: nat, root: Node, previous: LeafSchema, newLeaf: Node, lower: seq<Node>,
                      index: nat,
                      treeId: nat, assets: seq<Asset>, asset: Asset)
    requires Wellformed(t) && levels <= t.depth && Accounted(t, treeId, assets)
    requires asset.schema.nonce == previous.nonce && asset.schema.id == previous.id && LeafOf(asset) == newLeaf
    ensures var r := LeafReplaced(t, levels, root, ToNode(previous), newLeaf, lower, index);
      if r.1.Success? then
        && index == previous.nonce < |assets| && previous.id == AssetId(treeId, index)
        && assets[index] == Asset(previous, InTree)
        && Accounted(r.0, treeId, assets[index := asset])
      else r.0 == t
  {
    var proof := CompletedFromCanopy(t, levels, lower, index);
    if LeafReplaced(t, levels, root, ToNode(previous), newLeaf, lower, index).1.Success? {
      SetLeafIsSound(t, root, ToNode(previous), newLeaf, proof, index);
      LowSmall(index, t.depth);
      assert Leaves(t)[index] == ToNode(previous);
      assert index < t.next;
      ToNodeIsInjective(previous, assets[index].schema);
      ReplaceWrites(t, root, ToNode(previous), newLeaf, proof, index);
    }
  }

  /** Putting a redeemed asset back. */
  lemma RestoredAsset(t: Tree, levels: nat, root: Node, lower: seq<Node>, index: nat, treeId: nat, assets: seq<Asset>,
                      asset: Asset)
    requires Wellformed(t) && levels <= t.depth && Accounted(t, treeId, assets)
    requires index < |assets| && asset == Asset(assets[index].schema, InTree)
    ensures var r := LeafReplaced(t, levels, root, Empty, ToNode(asset.schema), lower, index);
      if r.1.Success? then Accounted(r.0, treeId, assets[index := asset]) else r.0 == t
  {
    if LeafReplaced(t, levels, root, Empty, ToNode(asset.schema), lower, index).1.Success? {
      LowSmall(index, t.depth);
      ReplaceWrites(t, root, Empty, ToNode(asset.schema), CompletedFromCanopy(t, levels, lower, index), index);
    }
  }

  lemma MintedAsset(t: Tree, treeId: nat, assets: seq<Asset>, schema: LeafSchema)
    requires Wellformed(t) && Accounted(t, treeId, assets)
    requires schema.nonce == |assets| && schema.id == AssetId(treeId, |assets|)
    ensures var r := LeafAppended(t, ToNode(schema));
      r.1.Success? <==> |assets| < Pow2(t.depth)
    ensures var r := LeafAppended(t, ToNode(schema));
      if r.1.Success? then Accounted(r.0, treeId, assets + [Asset(schema, InTree)]) else r.0 == t
  {
    AppendWrites(t, ToNode(schema));
    if |assets| < Pow2(t.depth) {
      LowSmall(|assets|, t.depth);
    }
  }

  /** A holder who saw an asset in any version still in the buffer, and brings root and proof from it, can
      act on it exactly when the asset is still in the tree and the same. */
  lemma ActingOnAnOldView(t: Tree, levels: nat, treeId: nat, assets: seq<Asset>, v: nat, seen: LeafSchema,
                          newLeaf: Node, i: nat)
    requires Wellformed(t) && NoAliases(t) && levels <= t.depth && Accounted(t, treeId, assets)
    requires Oldest(t) <= v <= Newest(t) && i < |assets|
    requires t.versions[v].leaves[i] == ToNode(seen)
    ensures var was := t.versions[v].leaves;
            var lower := AuthPath(was, t.depth, i)[..t.depth - levels];
            var r := LeafReplaced(t, levels, Root(was, t.depth), ToNode(seen), newLeaf, lower, i);
      r.1.Success? <==> assets[i] == Asset(seen, InTree)
  {
    CanopyCompletesStaleProof(t, levels, v, i, newLeaf);
    ToNodeIsInjective(seen, assets[i].schema);
    hide Wellformed, NoAliases, LeafReplaced;
  }

  lemma VoucherOpened(vouchers: map<nat, Voucher>, decompressions: seq<nat>, treeId: nat, assets: seq<Asset>, i: nat)
    requires Vouched(vouchers, treeId, assets) && Recorded(decompressions, assets)
    requires i < |assets| && assets[i].status == InTree
    ensures var assets' := assets[i := Asset(assets[i].schema, Redeemed)];
      && Vouched(vouchers[i := Voucher(assets[i].schema, i, treeId)], treeId, assets')
      && Recorded(decompressions, assets')
  {
  }

  /** A voucher is closed when its asset returns or is decompressed. */
  lemma VoucherClosed(vouchers: map<nat, Voucher>, decompressions: seq<nat>, treeId: nat, assets: seq<Asset>, i: nat)
    requires Vouched(vouchers, treeId, assets) && Recorded(decompressions, assets) && i in vouchers
    ensures i < |assets| && vouchers[i] == Voucher(assets[i].schema, i, treeId) && assets[i].status == Redeemed
    ensures Vouched(vouchers - {i}, treeId, assets[i := Asset(assets[i].schema, InTree)])
    ensures Recorded(decompressions, assets[i := Asset(assets[i].schema, InTree)])
    ensures Vouched(vouchers - {i}, treeId, assets[i := Asset(assets[i].schema, Decompressed)])
    ensures Recorded(decompressions + [i], assets[i := Asset(assets[i].schema, Decompressed)])
  {
    assert i !in decompressions;
    var all, assets' := decompressions + [i], assets[i := Asset(assets[i].schema, Decompressed)];
    forall j
      ensures j in all <==> 0 <= j < |assets'| && assets'[j].status == Decompressed
    {
      if j == i {
        assert all[|decompressions|] == i;
      }
    }
  }

  /** A new asset, or one that stays in the tree or is burnt, concerns no voucher. */
  lemma VouchersKept(vouchers: map<nat, Voucher>, decompressions: seq<nat>, treeId: nat, assets: seq<Asset>, i: nat,
                     asset: Asset)
    requires Vouched(vouchers, treeId, assets) && Recorded(decompressions, assets)
    requires asset.status == InTree || asset.status == Burnt
    ensures i == |assets| ==> Vouched(vouchers, treeId, assets + [asset]) && Recorded(decompressions, assets + [asset])
    ensures i < |assets| && assets[i].status == InTree ==>
      Vouched(vouchers, treeId, assets[i := asset]) && Recorded(decompressions, assets[i := asset])
  {
  }

  lemma DecompressedAccounted(t: Tree, treeId: nat, assets: seq<Asset>, i: nat)
    requires Accounted(t, treeId, assets) && i < |assets| && assets[i].status == Redeemed
    ensures Accounted(t, treeId, assets[i := Asset(assets[i].schema, Decompressed)]) && assets[i].schema.nonce == i
  {
  }

  /** `saturating_add(1)` on u64 */
  function SaturatingIncrement(x: nat): nat {
    if x < TWO_64 - 1 then x + 1 else TWO_64 - 1
  }

  /** Whether the tree accepts a replacement. */
  ghost predicate Accepts(t: Tree, levels: nat, root: Node, previousLeaf: Node, newLeaf: Node, lower: seq<Node>,
                          index: nat) {
    Wellformed(t) && levels <= t.depth && LeafReplaced(t, levels, root, previousLeaf, newLeaf, lower, index).1.Success?
  }

  /** The tree after a replacement, accepted or not. */
  ghost function TreeReplaced(t: Tree, levels: nat, root: Node, previousLeaf: Node, newLeaf: Node, lower: seq<Node>,
                              index: nat): Tree {
    if Wellformed(t) && levels <= t.depth
    then LeafReplaced(t, levels, root, previousLeaf, newLeaf, lower, index).0
    else t
  }

  ghost function TreeAppended(t: Tree, leaf: Node): Tree {
    if Wellformed(t) then LeafAppended(t, leaf).0 else t
  }

  /** How an instruction ends; everything but Done is rolled back. */
  datatype Answer = Done | AssetOwnerMismatch | HashingMismatch | Failed

  class Bubblegum {
    const gummyroll: Gummyroll
    const treeId: nat
    /** The signer derived from the tree's address: the only authority the tree accepts. */
    const authority: nat
    /** The nonce account. */
    var count: nat
    var vouchers: map<nat, Voucher>
    var decompressions: seq<nat>
    ghost var assets: seq<Asset>

    ghost predicate Valid()
      reads this, gummyroll, gummyroll.roll, gummyroll.roll.changeLogs, gummyroll.roll.rightmostProof, gummyroll.canopy
    {
      && gummyroll.Valid() && gummyroll.authority == authority
      && Accounted(gummyroll.roll.tree, treeId, assets)
      && Vouched(vouchers, treeId, assets) && Recorded(decompressions, assets)
      && count == |assets|
    }

    /** The leaves, the nonce count, the vouchers and the decompressions, in terms of the assets. */
    lemma EveryAssetIsAccountedFor(i: nat)
      requires Valid()
      ensures Wellformed(gummyroll.roll.tree) && count == gummyroll.roll.tree.next == |assets|
      ensures i >= count && i < |Leaves(gummyroll.roll.tree)| ==> Leaves(gummyroll.roll.tree)[i] == Empty
      ensures i < count ==>
        && assets[i].schema.nonce == i && assets[i].schema.id == AssetId(treeId, i)
        && i < |Leaves(gummyroll.roll.tree)|
        && (assets[i].status == InTree ==> Leaves(gummyroll.roll.tree)[i] == ToNode(assets[i].schema))
        && (assets[i].status != InTree ==> Leaves(gummyroll.roll.tree)[i] == Empty)
        && (assets[i].status == Redeemed <==> i in vouchers)
        && (i in vouchers ==> vouchers[i].index == i && vouchers[i].schema == assets[i].schema)
        && (assets[i].status == Decompressed <==> multiset(decompressions)[i] == 1)
        && multiset(decompressions)[i] <= 1
    {
      gummyroll.Outline();
      CountOnce(decompressions, i);
    }

    lemma VoucherOf(nonce: nat)
      requires Valid()
      ensures nonce in vouchers ==> nonce < |assets| && vouchers[nonce].schema == assets[nonce].schema
    {
    }

    /** A new tree whose only authority is the program's own signer for it. */
    static method CreateTree(maxDepth: nat, maxBufferSize: nat, canopyLength: nat, treeId: nat, treeAuthority: nat,
                             treeCreator: nat)
      returns (created: Option<Bubblegum>)
      ensures created.Some?
         <==> (KnownSize(maxDepth, maxBufferSize)
           && GetCachedPathLength(canopyLength, maxDepth) != CanopyLengthMismatch)
      ensures created.Some? ==>
        && fresh(created.value) && fresh(created.value.gummyroll.roll) && fresh(created.value.gummyroll.roll.changeLogs)
        && fresh(created.value.gummyroll.roll.rightmostProof) && fresh(created.value.gummyroll.canopy)
           && created.value.Valid()
        && created.value.treeId == treeId && created.value.assets == [] && created.value.decompressions == []
        && created.value.gummyroll.authority == created.value.authority == treeAuthority
        && created.value.gummyroll.appendAuthority == treeCreator
        && created.value.gummyroll.roll.tree == Initial(maxDepth, maxBufferSize) && created.value.vouchers == map[]
    {
      hide Gummyroll.Valid, Bubblegum.Valid, KnownSize;
      var gummyroll, event :=
        Gummyroll.InitEmptyGummyroll(maxDepth, maxBufferSize, canopyLength, treeAuthority, treeCreator);
      if gummyroll.None? {
        return None;
      }
      KnownSizesAreSupported(maxDepth, maxBufferSize);
      var b := new Bubblegum(gummyroll.value, treeId, maxDepth, maxBufferSize);
      created := Some(b);
    }

    constructor (gummyroll: Gummyroll, treeId: nat, ghost depth: nat, ghost capacity: nat)
      requires gummyroll.Valid() && Supported(depth, capacity) && gummyroll.roll.tree == Initial(depth, capacity)
      ensures Valid() && this.gummyroll == gummyroll && this.treeId == treeId && authority == gummyroll.authority
      ensures count == 0 && vouchers == map[] && decompressions == [] && assets == []
    {
      this.gummyroll, this.treeId, this.authority := gummyroll, treeId, gummyroll.authority;
      count, vouchers, decompressions, assets := 0, map[], [], [];
    }

    lemma Outline()
      requires Valid()
      ensures gummyroll.Valid() && Wellformed(gummyroll.roll.tree)
      ensures gummyroll.levels <= gummyroll.roll.tree.depth == gummyroll.maxDepth
      ensures count == |assets| <= Pow2(gummyroll.maxDepth) < TWO_64 - 1
    {
      gummyroll.Outline();
      Pow2Known();
      Pow2Monotone(gummyroll.maxDepth, 31);
    }

    /** Appends a leaf for the next asset. */
    method AppendLeaf(mintAuthority: nat, schema: LeafSchema) returns (ok: bool)
      requires gummyroll.Valid() && gummyroll.authority == authority
      requires Accounted(gummyroll.roll.tree, treeId, assets)
      requires schema.nonce == |assets| && schema.id == AssetId(treeId, |assets|)
      modifies gummyroll.roll, gummyroll.roll.changeLogs, gummyroll.roll.rightmostProof, gummyroll.canopy
      ensures gummyroll.Valid()
      ensures ok <==> mintAuthority == gummyroll.appendAuthority && |assets| < Pow2(gummyroll.maxDepth)
      ensures ok ==> Accounted(gummyroll.roll.tree, treeId, assets + [Asset(schema, InTree)])
      ensures ok ==> gummyroll.roll.tree == TreeAppended(old(gummyroll.roll.tree), ToNode(schema))
      ensures !ok ==> gummyroll.roll.tree == old(gummyroll.roll.tree)
    {
      hide Gummyroll.Valid, Accounted, LeafAppended;
      gummyroll.Outline();
      MintedAsset(gummyroll.roll.tree, treeId, assets, schema);
      var result := gummyroll.Append(authority, mintAuthority, ToNode(schema));
      ok := result.Success?;
    }

    method MintV1(mintAuthority: nat, owner: nat, delegate: nat, dataHash: nat, creatorHash: nat)
      returns (answer: Answer)
      requires Valid()
      modifies this`count, this`assets, gummyroll.roll, gummyroll.roll.changeLogs, gummyroll.roll.rightmostProof,
        gummyroll.canopy
      ensures Valid()
      ensures answer == Done <==> mintAuthority == gummyroll.appendAuthority && |old(assets)| < Pow2(gummyroll.maxDepth)
      ensures answer == Done ==>
        var n := |old(assets)|;
        var schema := LeafSchema(AssetId(treeId, n), owner, delegate, n, dataHash, creatorHash);
        && assets == old(assets) + [Asset(schema, InTree)]
        && gummyroll.roll.tree == TreeAppended(old(gummyroll.roll.tree), ToNode(schema))
      ensures answer == Done || answer == Failed
      ensures answer != Done ==> Unchanged(old(gummyroll.roll.tree), old(assets), old(vouchers), old(decompressions))
    {
      hide Gummyroll.Valid, Accounted, Vouched, Recorded;
      Outline();
      var saved := count;
      var schema := LeafSchema(AssetId(treeId, count), owner, delegate, count, dataHash, creatorHash);
      VouchersKept(vouchers, decompressions, treeId, assets, |assets|, Asset(schema, InTree));
      count := SaturatingIncrement(count);
      var ok := AppendLeaf(mintAuthority, schema);
      if ok {
        assets := assets + [Asset(schema, InTree)];
        answer := Done;
      } else {
        count := saved;
        answer := Failed;
      }
    }

    /** Replaces the leaf of an asset that is in the tree. */
    method ReplaceLeaf(root: Node, previous: LeafSchema, asset: Asset, lower: seq<Node>, index: nat) returns (ok: bool)
      requires gummyroll.Valid() && gummyroll.authority == authority
      requires Accounted(gummyroll.roll.tree, treeId, assets)
      requires asset.schema.nonce == previous.nonce && asset.schema.id == previous.id
      modifies gummyroll.roll, gummyroll.roll.changeLogs, gummyroll.roll.rightmostProof, gummyroll.canopy
      ensures gummyroll.Valid()
      ensures ok <==> Accepts(old(gummyroll.roll.tree), gummyroll.levels, root, ToNode(previous), LeafOf(asset), lower,
        index)
      ensures ok ==> index == previous.nonce < |assets| && assets[index] == Asset(previous, InTree)
      ensures ok ==> Accounted(gummyroll.roll.tree, treeId, assets[index := asset])
      ensures gummyroll.roll.tree
           == TreeReplaced(old(gummyroll.roll.tree), gummyroll.levels, root, ToNode(previous), LeafOf(asset), lower,
                index)
      ensures !ok ==> gummyroll.roll.tree == old(gummyroll.roll.tree)
    {
      hide Gummyroll.Valid, Accounted, Wellformed, LeafReplaced;
      gummyroll.Outline();
      ReplacedAsset(gummyroll.roll.tree, gummyroll.levels, root, previous, LeafOf(asset), lower, index, treeId, assets,
        asset);
      var result := gummyroll.ReplaceLeaf(authority, root, ToNode(previous), LeafOf(asset), lower, index);
      ok := result.Success?;
    }

    /** Changes an asset in the tree, or burns it. */
    method ChangeAsset(root: Node, previous: LeafSchema, asset: Asset, lower: seq<Node>, index: nat)
      returns (answer: Answer)
      requires Valid()
      requires asset.schema.nonce == previous.nonce && asset.schema.id == previous.id
      requires asset.status == InTree || asset.status == Burnt
      modifies this`assets, gummyroll.roll, gummyroll.roll.changeLogs, gummyroll.roll.rightmostProof, gummyroll.canopy
      ensures Valid()
      ensures answer == Done
           <==> Accepts(old(gummyroll.roll.tree), gummyroll.levels, root, ToNode(previous), LeafOf(asset), lower, index)
      ensures answer == Done ==>
        index == previous.nonce < |old(assets)| && old(assets)[index] == Asset(previous, InTree)
      ensures answer == Done ==> assets == old(assets)[index := asset]
      ensures gummyroll.roll.tree
           == TreeReplaced(old(gummyroll.roll.tree), gummyroll.levels, root, ToNode(previous), LeafOf(asset), lower,
                index)
      ensures answer == Done || answer == Failed
      ensures answer != Done ==> Unchanged(old(gummyroll.roll.tree), old(assets), old(vouchers), old(decompressions))
    {
      hide Gummyroll.Valid, Accounted, Vouched, Recorded, Accepts;
      VouchersKept(vouchers, decompressions, treeId, assets, index, asset);
      var ok := ReplaceLeaf(root, previous, asset, lower, index);
      if ok {
        assets := assets[index := asset];
      }
      answer := if ok then Done else Failed;
    }

    /** A new owner, who is also the new delegate; either the owner or the delegate must have signed. */
    method Transfer(owner: nat, ownerSigned: bool, delegate: nat, delegateSigned: bool, newOwner: nat,
                    root: Node, dataHash: nat, creatorHash: nat, nonce: nat, index: nat, lower: seq<Node>)
      returns (answer: Answer)
      requires Valid()
      modifies this`assets, gummyroll.roll, gummyroll.roll.changeLogs, gummyroll.roll.rightmostProof, gummyroll.canopy
      ensures Valid()
      ensures var was := LeafSchema(AssetId(treeId, nonce), owner, delegate, nonce, dataHash, creatorHash);
              var becomes := LeafSchema(AssetId(treeId, nonce), newOwner, newOwner, nonce, dataHash, creatorHash);
        && (answer == Done <==>
              && (ownerSigned || delegateSigned)
              && Accepts(old(gummyroll.roll.tree), gummyroll.levels, root, ToNode(was), ToNode(becomes), lower, index))
        && (answer == Done ==>
              && nonce < |old(assets)| && old(assets)[nonce] == Asset(was, InTree)
              && assets == old(assets)[nonce := Asset(becomes, InTree)]
              && gummyroll.roll.tree
                   == TreeReplaced(old(gummyroll.roll.tree), gummyroll.levels, root, ToNode(was), ToNode(becomes),
                        lower, index))
        && (answer == Done || answer == Failed)
      ensures answer != Done ==> Unchanged(old(gummyroll.roll.tree), old(assets), old(vouchers), old(decompressions))
    {
      hide Bubblegum.Valid, Accepts;
      if !(ownerSigned || delegateSigned) {
        return Failed;
      }
      var previous := LeafSchema(AssetId(treeId, nonce), owner, delegate, nonce, dataHash, creatorHash);
      var next := LeafSchema(AssetId(treeId, nonce), newOwner, newOwner, nonce, dataHash, creatorHash);
      answer := ChangeAsset(root, previous, Asset(next, InTree), lower, index);
    }

    /** A new delegate, named by the owner. */
    method Delegate(owner: nat, ownerSigned: bool, previousDelegate: nat, newDelegate: nat,
                    root: Node, dataHash: nat, creatorHash: nat, nonce: nat, index: nat, lower: seq<Node>)
      returns (answer: Answer)
      requires Valid()
      modifies this`assets, gummyroll.roll, gummyroll.roll.changeLogs, gummyroll.roll.rightmostProof, gummyroll.canopy
      ensures Valid()
      ensures var was := LeafSchema(AssetId(treeId, nonce), owner, previousDelegate, nonce, dataHash, creatorHash);
              var becomes := LeafSchema(AssetId(treeId, nonce), owner, newDelegate, nonce, dataHash, creatorHash);
        && (answer == Done <==>
              ownerSigned && Accepts(old(gummyroll.roll.tree), gummyroll.levels, root, ToNode(was), ToNode(becomes),
                lower, index))
        && (answer == Done ==>
              && nonce < |old(assets)| && old(assets)[nonce] == Asset(was, InTree)
              && assets == old(assets)[nonce := Asset(becomes, InTree)]
              && gummyroll.roll.tree
                   == TreeReplaced(old(gummyroll.roll.tree), gummyroll.levels, root, ToNode(was), ToNode(becomes),
                        lower, index))
        && (answer == Done || answer == Failed)
      ensures answer != Done ==> Unchanged(old(gummyroll.roll.tree), old(assets), old(vouchers), old(decompressions))
    {
      hide Bubblegum.Valid, Accepts;
      if !ownerSigned {
        return Failed;
      }
      var previous := LeafSchema(AssetId(treeId, nonce), owner, previousDelegate, nonce, dataHash, creatorHash);
      var next := LeafSchema(AssetId(treeId, nonce), owner, newDelegate, nonce, dataHash, creatorHash);
      answer := ChangeAsset(root, previous, Asset(next, InTree), lower, index);
    }

    /** The asset's leaf is emptied for good. */
    method Burn(owner: nat, ownerSigned: bool, delegate: nat, delegateSigned: bool,
                root: Node, dataHash: nat, creatorHash: nat, nonce: nat, index: nat, lower: seq<Node>)
      returns (answer: Answer)
      requires Valid()
      modifies this`assets, gummyroll.roll, gummyroll.roll.changeLogs, gummyroll.roll.rightmostProof, gummyroll.canopy
      ensures Valid()
      ensures var was := LeafSchema(AssetId(treeId, nonce), owner, delegate, nonce, dataHash, creatorHash);
        && (answer == Done <==>
              && (ownerSigned || delegateSigned)
              && Accepts(old(gummyroll.roll.tree), gummyroll.levels, root, ToNode(was), Empty, lower, index))
        && (answer == Done ==>
              && nonce < |old(assets)| && old(assets)[nonce] == Asset(was, InTree)
              && assets == old(assets)[nonce := Asset(was, Burnt)]
              && gummyroll.roll.tree
                   == TreeReplaced(old(gummyroll.roll.tree), gummyroll.levels, root, ToNode(was), Empty, lower,
                        index))
        && (answer == Done || answer == Failed)
      ensures answer != Done ==> Unchanged(old(gummyroll.roll.tree), old(assets), old(vouchers), old(decompressions))
    {
      hide Bubblegum.Valid, Accepts;
      if !(ownerSigned || delegateSigned) {
        return Failed;
      }
      var previous := LeafSchema(AssetId(treeId, nonce), owner, delegate, nonce, dataHash, creatorHash);
      answer := ChangeAsset(root, previous, Asset(previous, Burnt), lower, index);
    }

    /** The asset leaves the tree; its owner gets a voucher. The voucher account must not exist yet. */
    method Redeem(owner: nat, ownerSigned: bool, delegate: nat,
                  root: Node, dataHash: nat, creatorHash: nat, nonce: nat, index: nat, lower: seq<Node>)
      returns (answer: Answer)
      requires Valid()
      modifies this`vouchers, this`assets, gummyroll.roll, gummyroll.roll.changeLogs, gummyroll.roll.rightmostProof,
        gummyroll.canopy
      ensures Valid()
      ensures var was := LeafSchema(AssetId(treeId, nonce), owner, delegate, nonce, dataHash, creatorHash);
        && (answer == Done <==>
              ownerSigned && Accepts(old(gummyroll.roll.tree), gummyroll.levels, root, ToNode(was), Empty, lower,
                index))
        && (answer == Done ==>
              && nonce < |old(assets)| && old(assets)[nonce] == Asset(was, InTree)
              && assets == old(assets)[nonce := Asset(was, Redeemed)]
              && vouchers == old(vouchers)[nonce := Voucher(was, nonce, treeId)]
              && gummyroll.roll.tree
                   == TreeReplaced(old(gummyroll.roll.tree), gummyroll.levels, root, ToNode(was), Empty, lower,
                        index))
        && (answer == Done || answer == Failed)
      ensures answer != Done ==> Unchanged(old(gummyroll.roll.tree), old(assets), old(vouchers), old(decompressions))
    {
      hide Gummyroll.Valid, Accounted, Vouched, Recorded, Accepts;
      var previous := LeafSchema(AssetId(treeId, nonce), owner, delegate, nonce, dataHash, creatorHash);
      NoVoucherInTree(root, previous, lower, index);
      if !ownerSigned || nonce in vouchers {
        return Failed;
      }
      var ok := ReplaceLeaf(root, previous, Asset(previous, Redeemed), lower, index);
      if !ok {
        return Failed;
      }
      VoucherOpened(vouchers, decompressions, treeId, assets, index);
      vouchers := vouchers[nonce := Voucher(previous, index, treeId)];
      assets := assets[index := Asset(previous, Redeemed)];
      answer := Done;
    }

    /** While the tree accepts an asset's leaf, there is no voucher for it. */
    lemma NoVoucherInTree(root: Node, previous: LeafSchema, lower: seq<Node>, index: nat)
      requires Valid() && previous.id == AssetId(treeId, previous.nonce)
      ensures Accepts(gummyroll.roll.tree, gummyroll.levels, root, ToNode(previous), Empty, lower, index) ==>
        previous.nonce !in vouchers
    {
      gummyroll.Outline();
      ReplacedAsset(gummyroll.roll.tree, gummyroll.levels, root, previous, Empty, lower, index, treeId, assets,
        Asset(previous, Redeemed));
    }

    /** The holder of a voucher puts the asset back where it was; the voucher account is closed. */
    method CancelRedeem(nonce: nat, owner: nat, ownerSigned: bool, root: Node, lower: seq<Node>)
      returns (answer: Answer)
      requires Valid()
      modifies this`vouchers, this`assets, gummyroll.roll, gummyroll.roll.changeLogs, gummyroll.roll.rightmostProof,
        gummyroll.canopy
      ensures Valid()
      ensures answer == Done <==>
        && ownerSigned && nonce in old(vouchers) && owner == old(vouchers)[nonce].schema.owner
        && Accepts(old(gummyroll.roll.tree), gummyroll.levels, root, Empty, ToNode(old(vouchers)[nonce].schema), lower,
            nonce)
      ensures answer == AssetOwnerMismatch
           <==> ownerSigned && nonce in old(vouchers) && owner != old(vouchers)[nonce].schema.owner
      ensures answer == Done ==>
        && nonce < |old(assets)| && old(assets)[nonce].status == Redeemed
        && assets == old(assets)[nonce := Asset(old(assets)[nonce].schema, InTree)]
        && vouchers == old(vouchers) - {nonce}
        && gummyroll.roll.tree
             == TreeReplaced(old(gummyroll.roll.tree), gummyroll.levels, root, Empty, ToNode(old(assets)[nonce].schema),
                  lower, nonce)
      ensures answer in {Done, AssetOwnerMismatch, Failed}
      ensures answer != Done ==> Unchanged(old(gummyroll.roll.tree), old(assets), old(vouchers), old(decompressions))
    {
      hide Gummyroll.Valid, Accounted, Vouched, Recorded, Accepts;
      if !ownerSigned || nonce !in vouchers {
        return Failed;
      }
      var voucher := vouchers[nonce];
      if owner != voucher.schema.owner {
        return AssetOwnerMismatch;
      }
      VoucherClosed(vouchers, decompressions, treeId, assets, nonce);
      var ok := RestoreLeaf(root, voucher, lower);
      if !ok {
        return Failed;
      }
      vouchers := vouchers - {nonce};
      assets := assets[nonce := Asset(voucher.schema, InTree)];
      answer := Done;
    }

    method RestoreLeaf(root: Node, voucher: Voucher, lower: seq<Node>) returns (ok: bool)
      requires gummyroll.Valid() && gummyroll.authority == authority
      requires Accounted(gummyroll.roll.tree, treeId, assets)
      requires voucher.index < |assets| && voucher.schema == assets[voucher.index].schema
      modifies gummyroll.roll, gummyroll.roll.changeLogs, gummyroll.roll.rightmostProof, gummyroll.canopy
      ensures gummyroll.Valid()
      ensures ok <==> Accepts(old(gummyroll.roll.tree), gummyroll.levels, root, Empty, ToNode(voucher.schema), lower,
        voucher.index)
      ensures ok ==> Accounted(gummyroll.roll.tree, treeId, assets[voucher.index := Asset(voucher.schema, InTree)])
      ensures gummyroll.roll.tree
           == TreeReplaced(old(gummyroll.roll.tree), gummyroll.levels, root, Empty, ToNode(voucher.schema), lower,
                voucher.index)
      ensures !ok ==> gummyroll.roll.tree == old(gummyroll.roll.tree)
    {
      hide Gummyroll.Valid, Accounted, Wellformed, LeafReplaced;
      gummyroll.Outline();
      RestoredAsset(gummyroll.roll.tree, gummyroll.levels, root, lower, voucher.index, treeId, assets,
        Asset(voucher.schema, InTree));
      var result := gummyroll.ReplaceLeaf(authority, root, Empty, ToNode(voucher.schema), lower, voucher.index);
      ok := result.Success?;
    }

    /** The holder of a voucher turns the asset into a token; the voucher account is closed. Of the token
        programs only the original one is supported, and their steps may fail. */
    method DecompressV1(nonce: nat, owner: nat, ownerSigned: bool, metadataHash: nat, originalTokenProgram: bool,
                        tokenStepsSucceed: bool)
      returns (answer: Answer)
      requires Valid()
      modifies this`vouchers, this`decompressions, this`assets
      ensures Valid()
      ensures answer == Done <==>
        && ownerSigned && nonce in old(vouchers)
        && metadataHash == old(vouchers)[nonce].schema.dataHash && owner == old(vouchers)[nonce].schema.owner
        && originalTokenProgram && tokenStepsSucceed
      ensures answer == HashingMismatch
           <==> ownerSigned && nonce in old(vouchers) && metadataHash != old(vouchers)[nonce].schema.dataHash
      ensures answer == AssetOwnerMismatch <==>
        && ownerSigned && nonce in old(vouchers)
        && metadataHash == old(vouchers)[nonce].schema.dataHash && owner != old(vouchers)[nonce].schema.owner
      ensures answer == Done ==>
        && nonce < |old(assets)| && old(assets)[nonce].status == Redeemed
        && assets == old(assets)[nonce := Asset(old(assets)[nonce].schema, Decompressed)]
        && vouchers == old(vouchers) - {nonce}
        && decompressions == old(decompressions) + [nonce]
      ensures answer != Done ==> Unchanged(old(gummyroll.roll.tree), old(assets), old(vouchers), old(decompressions))
    {
      hide Gummyroll.Valid, Accounted, Vouched, Recorded;
      if !ownerSigned || nonce !in vouchers {
        return Failed;
      }
      VoucherClosed(vouchers, decompressions, treeId, assets, nonce);
      DecompressedAccounted(gummyroll.roll.tree, treeId, assets, nonce);
      var voucher := vouchers[nonce];
      if voucher.schema.dataHash != metadataHash {
        return HashingMismatch;
      }
      if voucher.schema.owner != owner {
        return AssetOwnerMismatch;
      }
      if !originalTokenProgram || !tokenStepsSucceed {
        return Failed;
      }
      decompressions := decompressions + [voucher.schema.nonce];
      vouchers := vouchers - {nonce};
      assets := assets[nonce := Asset(voucher.schema, Decompressed)];
      answer := Done;
    }

    ghost function Now(): Ledger
      reads this, gummyroll.roll
    {
      Ledger(gummyroll.roll.tree, assets, vouchers, decompressions)
    }

    ghost function Fixed(): Terms
      reads gummyroll
    {
      Terms(gummyroll.levels, gummyroll.maxDepth, treeId, gummyroll.appendAuthority)
    }

    ghost predicate Unchanged(tree: Tree, oldAssets: seq<Asset>, oldVouchers: map<nat, Voucher>,
                              oldDecompressions: seq<nat>)
      reads this, gummyroll.roll
    {
      gummyroll.roll.tree == tree && assets == oldAssets && vouchers == oldVouchers
        && decompressions == oldDecompressions
    }
  }

  // ----- runs

  datatype Instruction =
    | MintIns(mintAuthority: nat, owner: nat, delegate: nat, dataHash: nat, creatorHash: nat)
    | TransferIns(owner: nat, ownerSigned: bool, delegate: nat, delegateSigned: bool, newOwner: nat,
                  root: Node, dataHash: nat, creatorHash: nat, nonce: nat, index: nat, lower: seq<Node>)
    | DelegateIns(owner: nat, ownerSigned: bool, previousDelegate: nat, newDelegate: nat,
                  root: Node, dataHash: nat, creatorHash: nat, nonce: nat, index: nat, lower: seq<Node>)
    | BurnIns(owner: nat, ownerSigned: bool, delegate: nat, delegateSigned: bool,
              root: Node, dataHash: nat, creatorHash: nat, nonce: nat, index: nat, lower: seq<Node>)
    | RedeemIns(owner: nat, ownerSigned: bool, delegate: nat,
                root: Node, dataHash: nat, creatorHash: nat, nonce: nat, index: nat, lower: seq<Node>)
    | CancelRedeemIns(nonce: nat, owner: nat, ownerSigned: bool, root: Node, lower: seq<Node>)
    | DecompressIns(nonce: nat, owner: nat, ownerSigned: bool, metadataHash: nat, originalTokenProgram: bool,
      tokenStepsSucceed: bool)

  // ----- what each instruction does, as a whole

  /** Everything an instruction can change, and what it cannot. */
  datatype Ledger = Ledger(tree: Tree, assets: seq<Asset>, vouchers: map<nat, Voucher>, decompressions: seq<nat>)

  datatype Terms = Terms(levels: nat, maxDepth: nat, treeId: nat, creator: nat)

  function Put(assets: seq<Asset>, i: nat, asset: Asset): seq<Asset> {
    if i < |assets| then assets[i := asset] else assets
  }

  /** Asset `was` becomes `asset`, if the tree accepts its leaf. */
  ghost function Changed(terms: Terms, l: Ledger, root: Node, was: LeafSchema, asset: Asset, lower: seq<Node>,
                         index: nat): (Ledger, Answer) {
    if Accepts(l.tree, terms.levels, root, ToNode(was), LeafOf(asset), lower, index) then
      (l.(tree := TreeReplaced(l.tree, terms.levels, root, ToNode(was), LeafOf(asset), lower, index),
          assets := Put(l.assets, was.nonce, asset)), Done)
    else (l, Failed)
  }

  ghost function Settled(terms: Terms, l: Ledger, ins: Instruction): (Ledger, Answer) {
    match ins
    case MintIns(mintAuthority, owner, delegate, dataHash, creatorHash) =>
      var n := |l.assets|;
      var schema := LeafSchema(AssetId(terms.treeId, n), owner, delegate, n, dataHash, creatorHash);
      if mintAuthority != terms.creator || n >= Pow2(terms.maxDepth) then (l, Failed)
      else (l.(tree := TreeAppended(l.tree, ToNode(schema)), assets := l.assets + [Asset(schema, InTree)]), Done)
    case TransferIns(owner, ownerSigned, delegate, delegateSigned, newOwner, root, dataHash, creatorHash, nonce, index,
      lower) =>
      var was := LeafSchema(AssetId(terms.treeId, nonce), owner, delegate, nonce, dataHash, creatorHash);
      if !(ownerSigned || delegateSigned) then (l, Failed)
      else Changed(terms, l, root, was, Asset(was.(owner := newOwner, delegate := newOwner), InTree), lower, index)
    case DelegateIns(owner, ownerSigned, previousDelegate, newDelegate, root, dataHash, creatorHash, nonce, index,
      lower) =>
      var was := LeafSchema(AssetId(terms.treeId, nonce), owner, previousDelegate, nonce, dataHash, creatorHash);
      if !ownerSigned then (l, Failed)
      else Changed(terms, l, root, was, Asset(was.(delegate := newDelegate), InTree), lower, index)
    case BurnIns(owner, ownerSigned, delegate, delegateSigned, root, dataHash, creatorHash, nonce, index, lower) =>
      var was := LeafSchema(AssetId(terms.treeId, nonce), owner, delegate, nonce, dataHash, creatorHash);
      if !(ownerSigned || delegateSigned) then (l, Failed)
      else Changed(terms, l, root, was, Asset(was, Burnt), lower, index)
    case RedeemIns(owner, ownerSigned, delegate, root, dataHash, creatorHash, nonce, index, lower) =>
      var was := LeafSchema(AssetId(terms.treeId, nonce), owner, delegate, nonce, dataHash, creatorHash);
      if !ownerSigned then (l, Failed)
      else
        var (l', answer) := Changed(terms, l, root, was, Asset(was, Redeemed), lower, index);
        (if answer == Done then l'.(vouchers := l.vouchers[nonce := Voucher(was, nonce, terms.treeId)]) else l', answer)
    case CancelRedeemIns(nonce, owner, ownerSigned, root, lower) =>
      if !ownerSigned || nonce !in l.vouchers then (l, Failed)
      else
        var schema := l.vouchers[nonce].schema;
        if owner != schema.owner then (l, AssetOwnerMismatch)
        else if !Accepts(l.tree, terms.levels, root, Empty, ToNode(schema), lower, nonce) then (l, Failed)
        else (l.(tree := TreeReplaced(l.tree, terms.levels, root, Empty, ToNode(schema), lower, nonce),
                 assets := Put(l.assets, nonce, Asset(schema, InTree)), vouchers := l.vouchers - {nonce}), Done)
    case DecompressIns(nonce, owner, ownerSigned, metadataHash, originalTokenProgram, tokenStepsSucceed) =>
      if !ownerSigned || nonce !in l.vouchers then (l, Failed)
      else
        var schema := l.vouchers[nonce].schema;
        if metadataHash != schema.dataHash then (l, HashingMismatch)
        else if owner != schema.owner then (l, AssetOwnerMismatch)
        else if !originalTokenProgram || !tokenStepsSucceed then (l, Failed)
        else (l.(assets := Put(l.assets, nonce, Asset(schema, Decompressed)), vouchers := l.vouchers - {nonce},
                 decompressions := l.decompressions + [nonce]), Done)
  }

  /** The wallets that signed an instruction on an asset. */
  function Signers(ins: Instruction): set<nat> {
    if ins.MintIns? then {}
    else (if ins.ownerSigned then {ins.owner} else {})
         + (if (ins.TransferIns? || ins.BurnIns?) && ins.delegateSigned then {ins.delegate} else {})
  }

  predicate SignedFor(a: Asset, ins: Instruction) {
    a.schema.owner in Signers(ins) || a.schema.delegate in Signers(ins)
  }

  /** An asset keeps its number and what was hashed into it, and does not come back from its end. */
  predicate Continues(a: Asset, a': Asset) {
    && a'.schema.id == a.schema.id && a'.schema.nonce == a.schema.nonce
    && a'.schema.dataHash == a.schema.dataHash && a'.schema.creatorHash == a.schema.creatorHash
    && (Final(a) ==> a' == a)
  }

  /** What instructions do to the assets that exist: nothing without a signature of a holder. */
  ghost predicate Evolves(assets: seq<Asset>, instructions: seq<Instruction>, assets': seq<Asset>) {
    && |assets| <= |assets'|
    && forall i :: 0 <= i < |assets| ==>
         && Continues(assets[i], assets'[i])
         && (assets'[i] == assets[i] || exists ins :: ins in instructions && SignedFor(assets[i], ins))
  }

  method Perform(b: Bubblegum, ins: Instruction) returns (answer: Answer)
    requires b.Valid()
    modifies b, b.gummyroll.roll, b.gummyroll.roll.changeLogs, b.gummyroll.roll.rightmostProof, b.gummyroll.canopy
    ensures b.Valid()
    ensures (b.Now(), answer) == Settled(b.Fixed(), old(b.Now()), ins)
    ensures Evolves(old(b.assets), [ins], b.assets)
    ensures old(b.decompressions) <= b.decompressions
  {
    hide Bubblegum.Valid, Settled, Evolves;
    match ins
    case MintIns(_, _, _, _, _) =>
      answer := PerformMint(b, ins);
    case TransferIns(_, _, _, _, _, _, _, _, _, _, _) =>
      answer := PerformOnLeaf(b, ins);
    case DelegateIns(_, _, _, _, _, _, _, _, _, _) =>
      answer := PerformOnLeaf(b, ins);
    case BurnIns(_, _, _, _, _, _, _, _, _, _) =>
      answer := PerformOnLeaf(b, ins);
    case RedeemIns(_, _, _, _, _, _, _, _, _) =>
      answer := PerformOnLeaf(b, ins);
    case CancelRedeemIns(_, _, _, _, _) =>
      answer := PerformOnVoucher(b, ins);
    case DecompressIns(_, _, _, _, _, _) =>
      answer := PerformOnVoucher(b, ins);
  }

  method PerformMint(b: Bubblegum, ins: Instruction) returns (answer: Answer)
    requires b.Valid() && ins.MintIns?
    modifies b, b.gummyroll.roll, b.gummyroll.roll.changeLogs, b.gummyroll.roll.rightmostProof, b.gummyroll.canopy
    ensures b.Valid()
    ensures (b.Now(), answer) == Settled(b.Fixed(), old(b.Now()), ins)
    ensures Evolves(old(b.assets), [ins], b.assets) && b.decompressions == old(b.decompressions)
  {
    hide Bubblegum.Valid, TreeAppended;
    answer := b.MintV1(ins.mintAuthority, ins.owner, ins.delegate, ins.dataHash, ins.creatorHash);
  }

  method PerformOnLeaf(b: Bubblegum, ins: Instruction) returns (answer: Answer)
    requires b.Valid() && (ins.TransferIns? || ins.DelegateIns? || ins.BurnIns? || ins.RedeemIns?)
    modifies b, b.gummyroll.roll, b.gummyroll.roll.changeLogs, b.gummyroll.roll.rightmostProof, b.gummyroll.canopy
    ensures b.Valid()
    ensures (b.Now(), answer) == Settled(b.Fixed(), old(b.Now()), ins)
    ensures Evolves(old(b.assets), [ins], b.assets) && b.decompressions == old(b.decompressions)
  {
    hide Bubblegum.Valid, Accepts, TreeReplaced;
    assert ins in [ins];
    match ins
    case TransferIns(owner, ownerSigned, delegate, delegateSigned, newOwner, root, dataHash, creatorHash, nonce, index,
      lower) =>
      answer := b.Transfer(owner, ownerSigned, delegate, delegateSigned, newOwner, root, dataHash, creatorHash, nonce,
        index, lower);
    case DelegateIns(owner, ownerSigned, previousDelegate, newDelegate, root, dataHash, creatorHash, nonce, index,
      lower) =>
      answer := b.Delegate(owner, ownerSigned, previousDelegate, newDelegate, root, dataHash, creatorHash, nonce, index,
        lower);
    case BurnIns(owner, ownerSigned, delegate, delegateSigned, root, dataHash, creatorHash, nonce, index, lower) =>
      answer := b.Burn(owner, ownerSigned, delegate, delegateSigned, root, dataHash, creatorHash, nonce, index, lower);
    case RedeemIns(owner, ownerSigned, delegate, root, dataHash, creatorHash, nonce, index, lower) =>
      answer := b.Redeem(owner, ownerSigned, delegate, root, dataHash, creatorHash, nonce, index, lower);
  }

  method PerformOnVoucher(b: Bubblegum, ins: Instruction) returns (answer: Answer)
    requires b.Valid() && (ins.CancelRedeemIns? || ins.DecompressIns?)
    modifies b, b.gummyroll.roll, b.gummyroll.roll.changeLogs, b.gummyroll.roll.rightmostProof, b.gummyroll.canopy
    ensures b.Valid()
    ensures (b.Now(), answer) == Settled(b.Fixed(), old(b.Now()), ins)
    ensures Evolves(old(b.assets), [ins], b.assets)
    ensures old(b.decompressions) <= b.decompressions
  {
    hide Bubblegum.Valid, Accepts, TreeReplaced;
    assert ins in [ins];
    b.VoucherOf(ins.nonce);
    match ins
    case CancelRedeemIns(nonce, owner, ownerSigned, root, lower) =>
      answer := b.CancelRedeem(nonce, owner, ownerSigned, root, lower);
    case DecompressIns(nonce, owner, ownerSigned, metadataHash, originalTokenProgram, tokenStepsSucceed) =>
      answer := b.DecompressV1(nonce, owner, ownerSigned, metadataHash, originalTokenProgram, tokenStepsSucceed);
  }

  lemma EvolvesFurther(assets: seq<Asset>, before: seq<Instruction>, assets': seq<Asset>, ins: Instruction,
                       assets'': seq<Asset>)
    requires Evolves(assets, before, assets') && Evolves(assets', [ins], assets'')
    ensures Evolves(assets, before + [ins], assets'')
  {
    forall i | 0 <= i < |assets| && assets''[i] != assets[i]
      ensures exists jns :: jns in before + [ins] && SignedFor(assets[i], jns)
    {
      if assets'[i] != assets[i] {
        var jns :| jns in before && SignedFor(assets[i], jns);
        assert jns in before + [ins];
      } else {
        assert ins in before + [ins];
      }
    }
  }

  /** The ledger and the answers after a run. */
  ghost function SettledAll(terms: Terms, l: Ledger, instructions: seq<Instruction>): (Ledger, seq<Answer>) {
    if |instructions| == 0 then (l, [])
    else
      var n := |instructions| - 1;
      var (before, answers) := SettledAll(terms, l, instructions[..n]);
      var (after, answer) := Settled(terms, before, instructions[n]);
      (after, answers + [answer])
  }

  lemma SettledOneMore(terms: Terms, l: Ledger, before: seq<Instruction>, ins: Instruction)
    ensures var (l1, answers) := SettledAll(terms, l, before);
            var (l2, answer) := Settled(terms, l1, ins);
      SettledAll(terms, l, before + [ins]) == (l2, answers + [answer])
  {
    assert (before + [ins])[..|before|] == before;
  }

  /** Over any run: every asset minted so far is accounted for, keeps its identity, never returns once it
      is a token or burnt, and never changes unless one of the wallets holding it signed. */
  method Execute(b: Bubblegum, instructions: seq<Instruction>) returns (answers: seq<Answer>)
    requires b.Valid()
    modifies b, b.gummyroll.roll, b.gummyroll.roll.changeLogs, b.gummyroll.roll.rightmostProof, b.gummyroll.canopy
    ensures b.Valid()
    ensures (b.Now(), answers) == SettledAll(b.Fixed(), old(b.Now()), instructions)
    ensures Evolves(old(b.assets), instructions, b.assets)
    ensures old(b.decompressions) <= b.decompressions
  {
    hide Bubblegum.Valid, Settled, Bubblegum.Now;
    ghost var start, was, done := b.Now(), b.assets, b.decompressions;
    answers := [];
    for n := 0 to |instructions|
      invariant b.Valid()
      invariant (b.Now(), answers) == SettledAll(b.Fixed(), start, instructions[..n])
      invariant Evolves(was, instructions[..n], b.assets)
      invariant done <= b.decompressions
    {
      hide Evolves, SettledAll;
      ghost var before := b.assets;
      SettledOneMore(b.Fixed(), start, instructions[..n], instructions[n]);
      var answer := Perform(b, instructions[n]);
      answers := answers + [answer];
      EvolvesFurther(was, instructions[..n], before, instructions[n], b.assets);
      assert instructions[..n + 1] == instructions[..n] + [instructions[n]];
    }
    assert instructions[..|instructions|] == instructions;
  }

  lemma {:induction false} CountOnce(s: seq<nat>, x: nat)
    requires forall j, k :: 0 <= j < k < |s| ==> s[j] != s[k]
    ensures multiset(s)[x] == if x in s then 1 else 0
  {
    if |s| > 0 {
      SplitLast(s);
      CountOnce(s[..|s| - 1], x);
      assert multiset(s) == multiset(s[..|s| - 1]) + multiset{s[|s| - 1]};
    }
  }
}
