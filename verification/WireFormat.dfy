/** Bytes on the wire: examples of RFC 7049, the order of the fields, and that heads are the shortest there are. */
module WireFormat {
  import opened Bytes
  import opened Block
  import opened DagCodec
  import Cbor

  /** Unsigned integers of appendix A of RFC 7049. */
  lemma Integers()
    ensures Cbor.Encode(Cbor.UInt(0)) == [0x00] && Cbor.Encode(Cbor.UInt(23)) == [0x17]
    ensures Cbor.Encode(Cbor.UInt(24)) == [0x18, 0x18] && Cbor.Encode(Cbor.UInt(100)) == [0x18, 0x64]
    ensures Cbor.Encode(Cbor.UInt(1000)) == [0x19, 0x03, 0xE8]
    ensures Cbor.Encode(Cbor.UInt(1000000)) == [0x1A, 0x00, 0x0F, 0x42, 0x40]
    ensures Cbor.Encode(Cbor.UInt(1000000000000)) == [0x1B, 0x00, 0x00, 0x00, 0xE8, 0xD4, 0xA5, 0x10, 0x00]
  {
  }

  /** Strings and an array of the same appendix. */
  lemma StringsAndArray()
    ensures Cbor.Encode(Cbor.Blob([1, 2, 3, 4])) == [0x44, 0x01, 0x02, 0x03, 0x04]
    ensures Cbor.Encode(Cbor.Text([0x49, 0x45, 0x54, 0x46])) == [0x64, 0x49, 0x45, 0x54, 0x46]
    ensures Cbor.Encode(Cbor.Array([Cbor.UInt(1), Cbor.UInt(2), Cbor.UInt(3)])) == [0x83, 0x01, 0x02, 0x03]
  {
  }

  /** A header is an array of version, type, size and codec, in this order. */
  lemma HeaderLayout(h: Header)
    requires HeaderFits(h)
    ensures var fields := [Cbor.UInt(h.v), Cbor.UInt(h.typ), Cbor.UInt(h.size), Cbor.Text(h.codec)];
            (forall x | x in fields :: Cbor.Encodable(x)) && EncodeHeader(h) == [0x84] + Cbor.EncodeAll(fields)
  {
    ShortArray(HeaderItem(h).items);
    hide Cbor.Encode, Cbor.EncodeAll;
  }

  /** The bytes of an array of less than 24 items. */
  lemma ShortArray(items: seq<Cbor.Item>)
    requires |items| < 24 && forall x | x in items :: Cbor.Encodable(x)
    ensures Cbor.Encodable(Cbor.Array(items))
    ensures Cbor.Encode(Cbor.Array(items)) == [0x80 + |items|] + Cbor.EncodeAll(items)
  {
  }

  /** A node is an array of version, size, fanout, CIDs and spans, in this order. */
  lemma NodeLayout(np: NodePayload)
    requires NodeFits(np)
    ensures var fields := [Cbor.UInt(np.v), Cbor.UInt(np.size), Cbor.UInt(np.fanout),
                           Cbor.Array(Blobs(np.cids)), Cbor.Array(UInts(np.spans))];
            (forall x | x in fields :: Cbor.Encodable(x)) && EncodeNode(np) == [0x85] + Cbor.EncodeAll(fields)
  {
    assert forall x | x in NodeItem(np).items :: Cbor.Encodable(x);
    ShortArray(NodeItem(np).items);
    hide Cbor.Encode, Cbor.EncodeAll, Cbor.Encodable, Blobs, UInts;
  }

  /** A manifest is an array of version, size, chunk, fanout, root, name and MIME type, in this order. */
  lemma ManifestLayout(mp: ManifestPayload)
    requires ManifestFits(mp)
    ensures var fields := [Cbor.UInt(mp.v), Cbor.UInt(mp.size), Cbor.UInt(mp.chunk), Cbor.UInt(mp.fanout),
                           Cbor.Blob(mp.root), Cbor.Text(mp.name), Cbor.Text(mp.mime)];
            (forall x | x in fields :: Cbor.Encodable(x)) && EncodeManifest(mp) == [0x87] + Cbor.EncodeAll(fields)
  {
    assert forall x | x in ManifestItem(mp).items :: Cbor.Encodable(x);
    ShortArray(ManifestItem(mp).items);
    hide Cbor.Encode, Cbor.EncodeAll, Cbor.Encodable;
  }

  /** No head that reads as the same type and number takes fewer bytes. */
  lemma ShortestHead(raw: bytes)
    requires Cbor.DecodeHead(raw).Some?
    ensures Cbor.DecodeHead(raw).value.arg < TWO64
    ensures var h := Cbor.DecodeHead(raw).value;
            |Cbor.EncodeHead(h.major, h.arg)| + |h.rest| <= |raw|
  {
    Cbor.HeadFits(raw);
    Pow256Values();
    var k := Cbor.ArgBytes(raw[0] % 32).value;
    if k > 0 {
      ToFromBE(raw[1..1 + k]);
    }
    SizesOf(Cbor.DecodeHead(raw).value.major, Cbor.DecodeHead(raw).value.arg);
  }

  lemma SizesOf(major: nat, n: nat)
    requires major < 8 && n < TWO64
    ensures |Cbor.EncodeHead(major, n)|
         == if n < 24 then 1 else if n < TWO8 then 2 else if n < TWO16 then 3 else if n < TWO32 then 5 else 9
  {
  }

  /** Bytes behind a node are an error, and so they are behind a manifest. */
  lemma NothingTrails(env: Env, raw: bytes, tail: bytes)
    requires tail != []
    ensures DecodeNode(env, raw).Ok? ==> DecodeNode(env, raw + tail).Err?
    ensures DecodeManifest(env, raw).Ok? ==> DecodeManifest(env, raw + tail).Err?
  {
    var d := Cbor.Decode(raw, env.maxElems);
    if d.Some? && d.value.1 == [] {
      var p := Cbor.Local(raw, env.maxElems, tail);
      assert p + [] == p;
    }
  }

  /** Every number in a decoded manifest, forged or not, is within its field's width. */
  lemma DecodedManifestFits(env: Env, raw: bytes)
    requires DecodeManifest(env, raw).Ok?
    ensures ManifestFits(DecodeManifest(env, raw).value)
  {
    Cbor.DecodedFits(raw, env.maxElems);
    var x := Cbor.Decode(raw, env.maxElems).value.0.items;
    assert forall i :: 0 <= i < 7 ==> x[i] in x && Cbor.Encodable(x[i]);
  }
}
