/** Payloads of DAG nodes and manifests, and the child links that garbage collection follows. */
module DagCodec {
  import opened Bytes
  import opened Block
  import Cbor

  datatype NodePayload = NodePayload(v: byte, size: nat, fanout: nat, cids: seq<bytes>, spans: seq<nat>)

  datatype ManifestPayload = ManifestPayload(
    v: byte, size: nat, chunk: nat, fanout: nat, root: bytes, name: bytes, mime: bytes)

  // ---------------------------------------------------------------- nodes

  predicate NodeFits(np: NodePayload) {
    && np.size < TWO64 && np.fanout < TWO16
    && |np.cids| < TWO64 && |np.spans| < TWO64
    && (forall c | c in np.cids :: |c| < TWO64)
    && Are64(np.spans)
  }

  predicate Are64(spans: seq<nat>) {
    forall i :: 0 <= i < |spans| ==> spans[i] < TWO64
  }

  function Blobs(cids: seq<bytes>): seq<Cbor.Item> {
    seq(|cids|, i requires 0 <= i < |cids| => Cbor.Blob(cids[i]))
  }

  function UInts(spans: seq<nat>): seq<Cbor.Item> {
    seq(|spans|, i requires 0 <= i < |spans| => Cbor.UInt(spans[i]))
  }

  function NodeItem(np: NodePayload): (item: Cbor.Item)
    ensures NodeFits(np) ==> Cbor.Encodable(item)
  {
    var cs, ss := Cbor.Array(Blobs(np.cids)), Cbor.Array(UInts(np.spans));
    var item := Cbor.Array([Cbor.UInt(np.v), Cbor.UInt(np.size), Cbor.UInt(np.fanout), cs, ss]);
    assert NodeFits(np) ==> Cbor.Encodable(item) by {
      assert forall x | x in cs.items :: exists c :: c in np.cids && x == Cbor.Blob(c);
      assert forall x | x in ss.items :: exists i :: 0 <= i < |np.spans| && x == Cbor.UInt(np.spans[i]);
    }
    item
  }

  function BlobsOf(items: seq<Cbor.Item>): Option<seq<bytes>> {
    if items == [] then Some([])
    else if items[0].Blob? then
      var rest :- BlobsOf(items[1..]);
      Some([items[0].b] + rest)
    else None
  }

  lemma {:induction false} BlobsRoundTrip(cids: seq<bytes>)
    ensures BlobsOf(Blobs(cids)) == Some(cids)
  {
    if cids != [] {
      BlobsRoundTrip(cids[1..]);
      assert Blobs(cids)[1..] == Blobs(cids[1..]);
      assert cids == [cids[0]] + cids[1..];
    }
  }

  function UIntsOf(items: seq<Cbor.Item>): Option<seq<nat>> {
    if items == [] then Some([])
    else if items[0].UInt? then
      var rest :- UIntsOf(items[1..]);
      Some([items[0].n] + rest)
    else None
  }

  lemma {:induction false} UIntsRoundTrip(spans: seq<nat>)
    ensures UIntsOf(UInts(spans)) == Some(spans)
  {
    if spans != [] {
      UIntsRoundTrip(spans[1..]);
      assert UInts(spans)[1..] == UInts(spans[1..]);
      assert spans == [spans[0]] + spans[1..];
    }
  }

  function NodeOf(item: Cbor.Item): Option<NodePayload> {
    if item.Array? && |item.items| == 5 then
      var x := item.items;
      if x[0].UInt? && x[0].n < TWO8 && x[1].UInt? && x[2].UInt? && x[2].n < TWO16 && x[3].Array? && x[4].Array? then
        var cids :- BlobsOf(x[3].items);
        var spans :- UIntsOf(x[4].items);
        Some(NodePayload(x[0].n, x[1].n, x[2].n, cids, spans))
      else None
    else None
  }

  function EncodeNode(np: NodePayload): bytes
    requires NodeFits(np)
  {
    Cbor.Encode(NodeItem(np))
  }

  /** A node takes at most 46 bytes a child, and some bytes more. */
  lemma NodeSize(np: NodePayload)
    requires NodeFits(np) && |np.spans| == |np.cids| && forall c | c in np.cids :: |c| == CID_LENGTH
    ensures |EncodeNode(np)| <= 63 + 46 * |np.cids|
  {
    BlobsSize(np.cids);
    UIntsSize(np.spans);
    hide Cbor.Encode, Cbor.Encodable, Blobs, UInts;
    Cbor.UIntSize(np.v);
    Cbor.UIntSize(np.size);
    Cbor.UIntSize(np.fanout);
    Cbor.FiveItems(Cbor.UInt(np.v), Cbor.UInt(np.size), Cbor.UInt(np.fanout),
                   Cbor.Array(Blobs(np.cids)), Cbor.Array(UInts(np.spans)));
  }

  lemma BlobsSize(cids: seq<bytes>)
    requires |cids| < TWO64 && forall c | c in cids :: |c| == CID_LENGTH
    ensures Cbor.Encodable(Cbor.Array(Blobs(cids))) && |Cbor.Encode(Cbor.Array(Blobs(cids)))| <= 9 + 37 * |cids|
  {
    forall x | x in Blobs(cids)
      ensures Cbor.Encodable(x) && |Cbor.Encode(x)| <= 37
    {
      var i :| 0 <= i < |cids| && x == Cbor.Blob(cids[i]);
      assert cids[i] in cids;
    }
    Cbor.EncodeAllAtMost(Blobs(cids), 37);
  }

  lemma UIntsSize(spans: seq<nat>)
    requires |spans| < TWO64 && Are64(spans)
    ensures Cbor.Encodable(Cbor.Array(UInts(spans))) && |Cbor.Encode(Cbor.Array(UInts(spans)))| <= 9 + 9 * |spans|
  {
    forall x | x in UInts(spans)
      ensures Cbor.Encodable(x) && |Cbor.Encode(x)| <= 9
    {
      var i :| 0 <= i < |spans| && x == Cbor.UInt(spans[i]);
    }
    Cbor.EncodeAllAtMost(UInts(spans), 9);
  }

  /** Unmarshals a whole node payload; trailing bytes are an error. */
  function DecodeNode(env: Env, raw: bytes): Result<NodePayload, Error> {
    var d := Cbor.Decode(raw, env.maxElems);
    if d.None? || d.value.1 != [] || NodeOf(d.value.0).None? then Err(BadNode)
    else Ok(NodeOf(d.value.0).value)
  }

  /** A node survives encoding exactly when its arrays are within the decoder's limit. */
  lemma NodeRoundTrip(env: Env, np: NodePayload)
    requires NodeFits(np)
    ensures DecodeNode(env, EncodeNode(np))
         == if |np.cids| <= env.maxElems && |np.spans| <= env.maxElems then Ok(np) else Err(BadNode)
  {
    var item := NodeItem(np);
    Cbor.RoundTrip(item, env.maxElems, []);
    assert EncodeNode(np) + [] == EncodeNode(np);
    var cs, ss := Cbor.Array(Blobs(np.cids)), Cbor.Array(UInts(np.spans));
    assert cs in item.items && ss in item.items;
    assert Cbor.Accepted(cs, env.maxElems) <==> |np.cids| <= env.maxElems;
    assert Cbor.Accepted(ss, env.maxElems) <==> |np.spans| <= env.maxElems;
    assert Cbor.Accepted(item, env.maxElems) <==> Cbor.Accepted(cs, env.maxElems) && Cbor.Accepted(ss, env.maxElems);
    BlobsRoundTrip(np.cids);
    UIntsRoundTrip(np.spans);
  }

  lemma DecodedNodeFits(env: Env, raw: bytes)
    requires DecodeNode(env, raw).Ok?
    ensures NodeFits(DecodeNode(env, raw).value)
  {
    Cbor.DecodedFits(raw, env.maxElems);
    var x := Cbor.Decode(raw, env.maxElems).value.0.items;
    assert forall i :: 0 <= i < 5 ==> x[i] in x && Cbor.Encodable(x[i]);
    BlobsFit(x[3].items);
    UIntsFit(x[4].items);
  }

  lemma {:induction false} BlobsFit(items: seq<Cbor.Item>)
    requires BlobsOf(items).Some? && forall x | x in items :: Cbor.Encodable(x)
    ensures |BlobsOf(items).value| == |items| && forall c | c in BlobsOf(items).value :: |c| < TWO64
  {
    if items != [] {
      assert items[0] in items && Cbor.Encodable(items[0]);
      BlobsFit(items[1..]);
    }
  }

  lemma {:induction false} UIntsFit(items: seq<Cbor.Item>)
    requires UIntsOf(items).Some? && forall x | x in items :: Cbor.Encodable(x)
    ensures |UIntsOf(items).value| == |items| && Are64(UIntsOf(items).value)
  {
    if items != [] {
      assert items[0] in items && Cbor.Encodable(items[0]);
      UIntsFit(items[1..]);
    }
  }

  // ---------------------------------------------------------------- manifests

  predicate ManifestFits(mp: ManifestPayload) {
    && mp.size < TWO64 && mp.chunk < TWO32 && mp.fanout < TWO16
    && |mp.root| < TWO64 && |mp.name| < TWO64 && |mp.mime| < TWO64
  }

  function ManifestItem(mp: ManifestPayload): (item: Cbor.Item)
    ensures ManifestFits(mp) ==> Cbor.Encodable(item)
  {
    Cbor.Array([Cbor.UInt(mp.v), Cbor.UInt(mp.size), Cbor.UInt(mp.chunk), Cbor.UInt(mp.fanout),
                Cbor.Blob(mp.root), Cbor.Text(mp.name), Cbor.Text(mp.mime)])
  }

  function ManifestOf(item: Cbor.Item): Option<ManifestPayload> {
    if item.Array? && |item.items| == 7 then
      var x := item.items;
      if && x[0].UInt? && x[0].n < TWO8 && x[1].UInt? && x[2].UInt? && x[2].n < TWO32 && x[3].UInt? && x[3].n < TWO16
         && x[4].Blob? && x[5].Text? && x[6].Text?
      then Some(ManifestPayload(x[0].n, x[1].n, x[2].n, x[3].n, x[4].b, x[5].t, x[6].t))
      else None
    else None
  }

  function EncodeManifest(mp: ManifestPayload): bytes
    requires ManifestFits(mp)
  {
    Cbor.Encode(ManifestItem(mp))
  }

  /** A manifest takes its name and MIME type, and less than 128 bytes more. */
  lemma ManifestSize(mp: ManifestPayload)
    requires ManifestFits(mp) && |mp.root| == CID_LENGTH
    ensures |EncodeManifest(mp)| < 128 + |mp.name| + |mp.mime|
  {
    var items := ManifestItem(mp).items;
    assert forall x | x in items :: Cbor.Encodable(x);
    assert forall i :: 0 <= i < 7 ==> items[i..] == [items[i]] + items[i + 1..];
    hide Cbor.EncodeHead;
    Cbor.EncodeAllStep(items[6], items[7..]);
    Cbor.EncodeAllStep(items[5], items[6..]);
    Cbor.EncodeAllStep(items[4], items[5..]);
    Cbor.EncodeAllStep(items[3], items[4..]);
    Cbor.EncodeAllStep(items[2], items[3..]);
    Cbor.EncodeAllStep(items[1], items[2..]);
    Cbor.EncodeAllStep(items[0], items[1..]);
    assert items[0..] == items && items[7..] == [];
  }

  function DecodeManifest(env: Env, raw: bytes): Result<ManifestPayload, Error> {
    var d := Cbor.Decode(raw, env.maxElems);
    if d.None? || d.value.1 != [] || ManifestOf(d.value.0).None? then Err(BadManifest)
    else Ok(ManifestOf(d.value.0).value)
  }

  /** A manifest survives encoding exactly when its name and MIME type are well-formed UTF-8. */
  lemma ManifestRoundTrip(env: Env, mp: ManifestPayload)
    requires ManifestFits(mp)
    ensures DecodeManifest(env, EncodeManifest(mp))
         == if Cbor.ValidUtf8(mp.name) && Cbor.ValidUtf8(mp.mime) then Ok(mp) else Err(BadManifest)
  {
    var item := ManifestItem(mp);
    Cbor.RoundTrip(item, env.maxElems, []);
    assert EncodeManifest(mp) + [] == EncodeManifest(mp);
    assert Cbor.Text(mp.name) in item.items && Cbor.Text(mp.mime) in item.items;
    assert Cbor.Accepted(item, env.maxElems) <==> Cbor.ValidUtf8(mp.name) && Cbor.ValidUtf8(mp.mime);
  }

  // ---------------------------------------------------------------- links

  /** Reads every CID of a list, or fails at the first malformed one. */
  function CidsFromBytes(raws: seq<bytes>): (r: Result<seq<CID>, Error>)
    ensures r.Ok? ==> |r.value| == |raws|
  {
    if raws == [] then Ok([])
    else
      var first :- CidFromBytes(raws[0]);
      var rest :- CidsFromBytes(raws[1..]);
      Ok([first] + rest)
  }

  lemma {:induction false} CidsPointwise(raws: seq<bytes>)
    ensures CidsFromBytes(raws).Ok? <==> forall i :: 0 <= i < |raws| ==> CidFromBytes(raws[i]).Ok?
    ensures CidsFromBytes(raws).Ok? ==>
      forall i :: 0 <= i < |raws| ==> CidFromBytes(raws[i]) == Ok(CidsFromBytes(raws).value[i])
  {
    if raws != [] {
      CidsPointwise(raws[1..]);
      assert forall i :: 0 < i < |raws| ==> raws[i] == raws[1..][i - 1];
    }
  }

  lemma TailCids(raws: seq<bytes>)
    requires raws != [] && CidsFromBytes(raws).Ok?
    ensures CidFromBytes(raws[0]) == Ok(CidsFromBytes(raws).value[0])
    ensures CidsFromBytes(raws[1..]) == Ok(CidsFromBytes(raws).value[1..])
  {
  }

  function ChildCIDs(env: Env, b: Block): Result<seq<CID>, Error> {
    if b.header.typ == DATA then Ok([])
    else if b.header.typ == NODE then
      var np :- DecodeNode(env, b.payload);
      CidsFromBytes(np.cids)
    else if b.header.typ == MANIFEST then
      var mp :- DecodeManifest(env, b.payload);
      var c :- CidFromBytes(mp.root);
      Ok([c])
    else Err(UnexpectedType)
  }

  /** The children garbage collection follows: none when the links cannot be read. */
  function Links(env: Env, b: Block): seq<CID> {
    var r := ChildCIDs(env, b);
    if r.Ok? then r.value else []
  }

  function CidBytesOf(cids: seq<CID>): (raws: seq<bytes>)
    ensures |raws| == |cids|
    ensures forall i :: 0 <= i < |cids| ==> raws[i] == CidToBytes(cids[i])
  {
    seq(|cids|, i requires 0 <= i < |cids| => CidToBytes(cids[i]))
  }

  lemma {:induction false} CidsRoundTrip(cids: seq<CID>)
    ensures CidsFromBytes(CidBytesOf(cids)) == Ok(cids)
  {
    if cids != [] {
      var raws := CidBytesOf(cids);
      CidRoundTrip(cids[0]);
      CidsRoundTrip(cids[1..]);
      assert raws[1..] == CidBytesOf(cids[1..]);
      assert cids == [cids[0]] + cids[1..];
    }
  }
}
