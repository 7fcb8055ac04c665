/** A small concrete store: a manifest over a node over an empty leaf, for a hash that keeps the first bytes. */
module Samples {
  import opened Bytes
  import opened Block
  import opened DagCodec
  import opened StoreSpec
  import Cbor

  /** The digest is the start of the bytes, filled up with zeros. */
  function Prefix(s: bytes): Digest {
    seq(32, i requires 0 <= i < 32 => if i < |s| then s[i] else 0)
  }

  function SampleEnv(): Env {
    Env(Prefix, 16)
  }

  /** The third byte of a block is its type, so blocks of different types have different CIDs. */
  lemma TypeByte(h: Header)
    requires HeaderFits(h) && h.v < 24 && h.typ < 24
    ensures |EncodeHeader(h)| >= 3 && EncodeHeader(h)[2] == h.typ
  {
    var v, typ, size, codec := Cbor.UInt(h.v), Cbor.UInt(h.typ), Cbor.UInt(h.size), Cbor.Text(h.codec);
    Cbor.EncodeAllStep(typ, [size, codec]);
    Cbor.EncodeAllStep(v, [typ, size, codec]);
    assert [typ] + [size, codec] == [typ, size, codec] && [v] + [typ, size, codec] == [v, typ, size, codec];
    assert Cbor.EncodeHead(4, 4) == [132];
    var rest := Cbor.EncodeAll([size, codec]);
    assert EncodeHeader(h) == [132] + ([h.v] + ([h.typ] + rest));
  }

  lemma TypesDiffer(typ: byte, codec: bytes, payload: bytes, typ': byte, codec': bytes, payload': bytes)
    requires |payload| < TWO64 && |codec| < TWO64 && |payload'| < TWO64 && |codec'| < TWO64
    requires typ < 24 && typ' < 24 && typ != typ'
    ensures MakeBlock(SampleEnv(), typ, codec, payload).cid != MakeBlock(SampleEnv(), typ', codec', payload').cid
  {
    TypeByte(Header(1, typ, |payload|, codec));
    TypeByte(Header(1, typ', |payload'|, codec'));
    var a, b := MakeBlock(SampleEnv(), typ, codec, payload), MakeBlock(SampleEnv(), typ', codec', payload');
    assert a.cid.digest[2] == typ && b.cid.digest[2] == typ';
  }

  // ---------------------------------------------------------------- three blocks

  function Leaf(): Block {
    MakeBlock(SampleEnv(), DATA, RAW, [])
  }

  /** A node of this size over the given children. */
  function NodePayloadOf(size: nat, kids: seq<CID>, spans: seq<nat>): NodePayload {
    NodePayload(1, size, 2, CidBytesOf(kids), spans)
  }

  lemma NodePayloadFits(size: nat, kids: seq<CID>, spans: seq<nat>)
    requires size < TWO64 && |kids| == |spans| <= 16 && Are64(spans)
    ensures var np := NodePayloadOf(size, kids, spans);
            NodeFits(np) && |EncodeNode(np)| < TWO63 && DecodeNode(SampleEnv(), EncodeNode(np)) == Ok(np)
  {
    var np := NodePayloadOf(size, kids, spans);
    forall c | c in np.cids
      ensures |c| == CID_LENGTH
    {
      var i :| 0 <= i < |np.cids| && np.cids[i] == c;
    }
    NodeSize(np);
    NodeRoundTrip(SampleEnv(), np);
  }

  function NodeBlock(size: nat, kids: seq<CID>, spans: seq<nat>): Block
    requires size < TWO64 && |kids| == |spans| <= 16 && Are64(spans)
  {
    NodePayloadFits(size, kids, spans);
    MakeBlock(SampleEnv(), NODE, CBOR, EncodeNode(NodePayloadOf(size, kids, spans)))
  }

  function ManifestPayloadOf(size: nat, root: CID): ManifestPayload {
    ManifestPayload(1, size, 1, 2, CidToBytes(root), [], [])
  }

  lemma ManifestPayloadFits(size: nat, root: CID)
    requires size < TWO64
    ensures var mp := ManifestPayloadOf(size, root);
            && ManifestFits(mp) && |EncodeManifest(mp)| < TWO63
            && DecodeManifest(SampleEnv(), EncodeManifest(mp)) == Ok(mp)
  {
    ManifestSize(ManifestPayloadOf(size, root));
    ManifestRoundTrip(SampleEnv(), ManifestPayloadOf(size, root));
  }

  function ManifestBlock(size: nat, root: CID): Block
    requires size < TWO64
  {
    ManifestPayloadFits(size, root);
    MakeBlock(SampleEnv(), MANIFEST, CBOR, EncodeManifest(ManifestPayloadOf(size, root)))
  }

  function Middle(): Block {
    NodeBlock(0, [Leaf().cid], [0])
  }

  function Top(): Block {
    ManifestBlock(0, Middle().cid)
  }

  function SampleStore(): map<CID, bytes> {
    map[Leaf().cid := Leaf().bytes, Middle().cid := Middle().bytes, Top().cid := Top().bytes]
  }

  /** What there is to know about the three blocks. */
  lemma SampleBlocks()
    ensures Leaf().cid != Middle().cid && Leaf().cid != Top().cid && Middle().cid != Top().cid
    ensures Consistent(SampleEnv(), Leaf()) && Consistent(SampleEnv(), Middle()) && Consistent(SampleEnv(), Top())
    ensures Links(SampleEnv(), Leaf()) == [] && Links(SampleEnv(), Middle()) == [Leaf().cid]
    ensures Links(SampleEnv(), Top()) == [Middle().cid]
  {
    SampleCids();
    hide Consistent, SampleEnv, Leaf, Middle, Top, Links;
    SampleLinks();
  }

  lemma SampleCids()
    ensures Leaf().cid != Middle().cid && Leaf().cid != Top().cid && Middle().cid != Top().cid
    ensures Consistent(SampleEnv(), Leaf()) && Consistent(SampleEnv(), Middle()) && Consistent(SampleEnv(), Top())
  {
    var node, manifest := NodePayloadOf(0, [Leaf().cid], [0]), ManifestPayloadOf(0, Middle().cid);
    NodePayloadFits(0, [Leaf().cid], [0]);
    ManifestPayloadFits(0, Middle().cid);
    hide EncodeNode, DecodeNode, EncodeManifest, DecodeManifest, Consistent, SampleEnv;
    TypesDiffer(DATA, RAW, [], NODE, CBOR, EncodeNode(node));
    TypesDiffer(DATA, RAW, [], MANIFEST, CBOR, EncodeManifest(manifest));
    TypesDiffer(NODE, CBOR, EncodeNode(node), MANIFEST, CBOR, EncodeManifest(manifest));
    BuiltConsistent(SampleEnv(), DATA, RAW, []);
    BuiltConsistent(SampleEnv(), NODE, CBOR, EncodeNode(node));
    BuiltConsistent(SampleEnv(), MANIFEST, CBOR, EncodeManifest(manifest));
  }

  lemma SampleLinks()
    ensures Links(SampleEnv(), Leaf()) == [] && Links(SampleEnv(), Middle()) == [Leaf().cid]
    ensures Links(SampleEnv(), Top()) == [Middle().cid]
  {
    NodeBlockLinks(0, [Leaf().cid], [0]);
    ManifestPayloadFits(0, Middle().cid);
    hide EncodeManifest, DecodeManifest, SampleEnv;
    CidRoundTrip(Middle().cid);
  }

  lemma NodeBlockLinks(size: nat, kids: seq<CID>, spans: seq<nat>)
    requires size < TWO64 && |kids| == |spans| <= 16 && Are64(spans)
    ensures Links(SampleEnv(), NodeBlock(size, kids, spans)) == kids
    ensures DecodeNode(SampleEnv(), NodeBlock(size, kids, spans).payload) == Ok(NodePayloadOf(size, kids, spans))
  {
    NodePayloadFits(size, kids, spans);
    CidsRoundTrip(kids);
  }

  /** The store answers with exactly these blocks. */
  lemma SampleView()
    ensures ViewOf(SampleEnv(), SampleStore())
         == map[Leaf().cid := Leaf(), Middle().cid := Middle(), Top().cid := Top()]
  {
    SampleBlocks();
    hide Leaf, Middle, Top, DecodeBlock;
  }
}
