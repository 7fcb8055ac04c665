/** Concrete runs and blocks in which readers do what one would not expect. */
module FetchExamples {
  import opened Bytes
  import opened Block
  import opened DagCodec
  import opened DagTree
  import opened DagFetch
  import opened ParallelFetch
  import opened ParallelErrors
  import opened Samples

  /** For every size there is a manifest over a childless node that verification accepts and that is fetched as
      zeros. */
  lemma AcceptedZeros(n: nat) returns (view: View, m: CID)
    requires n < TWO63
    ensures RootOf(SampleEnv(), view, m).Some? && DecodeManifest(SampleEnv(), view[m].payload).value.size == n
    ensures Accepts(SampleEnv(), view, RootOf(SampleEnv(), view, m).value, n, 1)
    ensures BoundedFile(SampleEnv(), view, m, 1) && FetchFile(SampleEnv(), view, m, 1) == Ok(Zeros(n))
    ensures forall c :: c in view ==> Consistent(SampleEnv(), view[c]) && view[c].cid == c && view[c].header.typ != DATA
  {
    var root := NodeBlock(n, [], []);
    var manifest := ManifestBlock(n, root.cid);
    view, m := map[root.cid := root, manifest.cid := manifest], manifest.cid;
    ZerosBlocks(n);
    hide EncodeNode, EncodeManifest, DecodeNode, DecodeManifest, Consistent, SampleEnv, FetchFile, Accepts, Bounded;
    hide NodeBlock, ManifestBlock, BoundedFile;
    ChildlessNodeAccepted(SampleEnv(), view, m, n);
  }

  lemma ZerosBlocks(n: nat)
    requires n < TWO63
    ensures var root := NodeBlock(n, [], []);
            var manifest := ManifestBlock(n, root.cid);
            && root.cid != manifest.cid && Consistent(SampleEnv(), root) && Consistent(SampleEnv(), manifest)
            && root.header.typ == NODE && manifest.header.typ == MANIFEST
            && DecodeNode(SampleEnv(), root.payload) == Ok(NodePayload(1, n, 2, [], []))
            && DecodeManifest(SampleEnv(), manifest.payload) == Ok(ManifestPayloadOf(n, root.cid))
            && CidFromBytes(CidToBytes(root.cid)) == Ok(root.cid)
  {
    var root := NodeBlock(n, [], []);
    NodePayloadFits(n, [], []);
    ManifestPayloadFits(n, root.cid);
    var node, mp := EncodeNode(NodePayloadOf(n, [], [])), EncodeManifest(ManifestPayloadOf(n, root.cid));
    assert NodePayloadOf(n, [], []) == NodePayload(1, n, 2, [], []);
    hide EncodeNode, EncodeManifest, DecodeNode, DecodeManifest, Consistent, SampleEnv;
    TypesDiffer(NODE, CBOR, node, MANIFEST, CBOR, mp);
    BuiltConsistent(SampleEnv(), NODE, CBOR, node);
    BuiltConsistent(SampleEnv(), MANIFEST, CBOR, mp);
    CidRoundTrip(root.cid);
  }

  // ---------------------------------------------------------------- an error that can leave a goroutine behind

  function BigLeaf(): Block {
    MakeBlock(SampleEnv(), DATA, RAW, Zeros(65537))
  }

  /** A node over two leaves of 65537 bytes. */
  function Fork(): Block {
    NodeBlock(131074, [BigLeaf().cid, BigLeaf().cid], [65537, 65537])
  }

  /** So there are trees whose fetch can return an error while a goroutine below it has yet to run. */
  lemma ForkExists() returns (view: View, c: CID)
    ensures WellSpanned(SampleEnv(), view, c, 131074, 1) && !AlwaysQuiet(SampleEnv(), view, c, 131074)
  {
    view, c := map[BigLeaf().cid := BigLeaf(), Fork().cid := Fork()], Fork().cid;
    ForkBlocks();
    ForkPayload();
    hide SampleEnv, Links, DecodeNode, BigLeaf, Fork, CidsFromBytes, CidBytesOf;
    TwoLeaves(SampleEnv(), view, BigLeaf(), Fork(), [65537, 65537]);
    QuietExactly(SampleEnv(), view, c, 131074, 1);
  }

  lemma ForkBlocks()
    ensures BigLeaf().cid != Fork().cid && BigLeaf().header.typ == DATA && Fork().header.typ == NODE
    ensures |BigLeaf().payload| == 65537
  {
    hide EncodeNode, DecodeNode, SampleEnv, Zeros, NodeBlock;
    LeafIsNoNode(Zeros(65537), 131074, [BigLeaf().cid, BigLeaf().cid], [65537, 65537]);
  }

  lemma LeafIsNoNode(payload: bytes, size: nat, kids: seq<CID>, spans: seq<nat>)
    requires |payload| < TWO63 && size < TWO64 && |kids| == |spans| <= 16 && Are64(spans)
    ensures MakeBlock(SampleEnv(), DATA, RAW, payload).cid != NodeBlock(size, kids, spans).cid
    ensures NodeBlock(size, kids, spans).header.typ == NODE
  {
    hide EncodeNode, DecodeNode, SampleEnv;
    NodePayloadFits(size, kids, spans);
    TypesDiffer(DATA, RAW, payload, NODE, CBOR, EncodeNode(NodePayloadOf(size, kids, spans)));
  }

  lemma ForkPayload()
    ensures Links(SampleEnv(), Fork()) == [BigLeaf().cid, BigLeaf().cid]
    ensures DecodeNode(SampleEnv(), Fork().payload)
         == Ok(NodePayload(1, 131074, 2, CidBytesOf([BigLeaf().cid, BigLeaf().cid]), [65537, 65537]))
  {
    var kids, spans := [BigLeaf().cid, BigLeaf().cid], [65537, 65537];
    assert Fork() == NodeBlock(131074, kids, spans);
    NodeBlockLinks(131074, kids, spans);
    hide BigLeaf, Fork, NodeBlock, DecodeNode, SampleEnv, Links, CidBytesOf;
  }

  lemma TwoLeaves(env: Env, view: View, leaf: Block, node: Block, spans: seq<nat>)
    requires view == map[leaf.cid := leaf, node.cid := node] && leaf.cid != node.cid
    requires leaf.header.typ == DATA && node.header.typ == NODE && |leaf.payload| == 65537 && spans == [65537, 65537]
    requires Links(env, node) == [leaf.cid, leaf.cid]
    requires DecodeNode(env, node.payload) == Ok(NodePayload(1, 131074, 2, CidBytesOf([leaf.cid, leaf.cid]), spans))
    ensures WellSpanned(env, view, node.cid, 131074, 1) && !TailOnly(env, view, node.cid, 1)
  {
    CidsRoundTrip([leaf.cid, leaf.cid]);
    hide DecodeNode, Links, CidsFromBytes, CidBytesOf;
    assert spans[1..] == [65537] && spans[1..][1..] == [];
    assert Sum([]) == 0 && Sum([65537]) == 65537 + Sum([65537][1..]);
    assert Sum(spans) == 65537 + Sum(spans[1..]);
    assert WellSpanned(env, view, leaf.cid, 65537, 0);
    assert spans[0] > INLINE;
  }
}
