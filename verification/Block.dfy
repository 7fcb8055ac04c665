/** Content identifiers and blocks: header, payload, serialized bytes and the CID over those bytes. */
module Block {
  import opened Bytes
  import Cbor

  type Digest = d: bytes | |d| == 32 witness seq(32, i => 0)

  datatype CID = CID(version: byte, digest: Digest)

  const CID_VERSION: byte := 1
  const CID_LENGTH: nat := 34

  function ZeroCID(): CID {
    CID(0, seq(32, i => 0))
  }

  /** What the code is built on: a hash function, and the most elements the CBOR decoder takes in one array. */
  datatype RawEnv = Env(hash: bytes -> Digest, maxElems: nat)

  // The library refuses a configured limit below 16.
  type Env = e: RawEnv | e.maxElems >= 16 witness Env(s => seq(32, i => 0), 16)

  datatype Error =
    | SerializeFirst | BadHeader | Truncated | NotFound | CidMismatch | NilBlock
    | BadParams | ReadFailed | AnnounceFailed | TooLarge
    | NotManifest | BadManifest | BadCid | BadNode | SizeMismatch | ShortLeaf | LengthMismatch
    | UnexpectedType | Panic

  // ---------------------------------------------------------------- CIDs

  function NewCID(env: Env, s: bytes): CID {
    CID(CID_VERSION, env.hash(s))
  }

  function CidToBytes(c: CID): (s: bytes)
    ensures |s| == CID_LENGTH
  {
    [c.version, 0] + c.digest
  }

  function CidFromBytes(s: bytes): Result<CID, Error> {
    if |s| != CID_LENGTH then Err(BadCid) else Ok(CID(s[0], s[2..]))
  }

  lemma CidRoundTrip(c: CID)
    ensures CidFromBytes(CidToBytes(c)) == Ok(c)
  {
    assert CidToBytes(c)[2..] == c.digest;
  }

  // ---------------------------------------------------------------- headers

  const DATA: byte := 1
  const NODE: byte := 2
  const MANIFEST: byte := 3

  const RAW: bytes := [0x72, 0x61, 0x77]
  const CBOR: bytes := [0x63, 0x62, 0x6F, 0x72]

  datatype Header = Header(v: byte, typ: byte, size: nat, codec: bytes)

  function HeaderItem(h: Header): Cbor.Item {
    Cbor.Array([Cbor.UInt(h.v), Cbor.UInt(h.typ), Cbor.UInt(h.size), Cbor.Text(h.codec)])
  }

  /** Unmarshals a header: a four-element array with each number in the range of its field. */
  function HeaderOf(item: Cbor.Item): Option<Header> {
    if item.Array? && |item.items| == 4 then
      var x := item.items;
      if x[0].UInt? && x[0].n < TWO8 && x[1].UInt? && x[1].n < TWO8 && x[2].UInt? && x[3].Text?
      then Some(Header(x[0].n, x[1].n, x[2].n, x[3].t))
      else None
    else None
  }

  predicate HeaderFits(h: Header) {
    h.size < TWO64 && |h.codec| < TWO64
  }

  function EncodeHeader(h: Header): (s: bytes)
    requires HeaderFits(h)
    ensures s != []
  {
    Cbor.Encode(HeaderItem(h))
  }

  function DecodeHeader(env: Env, raw: bytes): (r: Option<(Header, bytes)>)
    ensures r.Some? ==> |r.value.1| < |raw|
  {
    var (item, rest) :- Cbor.Decode(raw, env.maxElems);
    var h :- HeaderOf(item);
    Some((h, rest))
  }

  lemma HeaderRoundTrip(env: Env, h: Header, tail: bytes)
    requires HeaderFits(h)
    ensures DecodeHeader(env, EncodeHeader(h) + tail)
         == if Cbor.ValidUtf8(h.codec) then Some((h, tail)) else None
  {
    var item := HeaderItem(h);
    Cbor.RoundTrip(item, env.maxElems, tail);
    assert Cbor.Accepted(item, env.maxElems) <==> Cbor.ValidUtf8(h.codec) by {
      assert Cbor.Text(h.codec) in item.items;
    }
  }

  // ---------------------------------------------------------------- blocks

  datatype Block = Block(cid: CID, header: Header, payload: bytes, bytes: bytes)

  /** The block that BuildBlock seals for a payload. */
  function MakeBlock(env: Env, typ: byte, codec: bytes, payload: bytes): Block
    requires |payload| < TWO64 && |codec| < TWO64
  {
    var h := Header(1, typ, |payload|, codec);
    var s := EncodeHeader(h) + payload;
    Block(NewCID(env, s), h, payload, s)
  }

  /** Splits raw bytes into header and payload; whatever follows the payload is dropped. */
  function DecodeBlock(env: Env, raw: bytes): (r: Result<Block, Error>)
    ensures r.Ok? ==> r.value.cid == NewCID(env, r.value.bytes) && |r.value.payload| == r.value.header.size
  {
    var d := DecodeHeader(env, raw);
    if d.None? then Err(BadHeader)
    else
      var (h, rest) := d.value;
      if |rest| < h.size then Err(Truncated)
      else
        var used := raw[..|raw| - |rest| + h.size];
        Ok(Block(NewCID(env, used), h, rest[..h.size], used))
  }

  /** A block equal to what its own bytes decode to. */
  predicate Consistent(env: Env, b: Block) {
    DecodeBlock(env, b.bytes) == Ok(b)
  }

  /** Decoding is insensitive to a tail: a decoded block is found again in front of anything. */
  lemma DecodeStable(env: Env, raw: bytes, tail: bytes)
    requires DecodeBlock(env, raw).Ok?
    ensures var b := DecodeBlock(env, raw).value;
            Consistent(env, b) && DecodeBlock(env, b.bytes + tail) == Ok(b)
  {
    DecodeStableOne(env, raw, tail);
    DecodeStableOne(env, raw, []);
    var b := DecodeBlock(env, raw).value;
    assert b.bytes + [] == b.bytes;
  }

  lemma DecodeStableOne(env: Env, raw: bytes, tail: bytes)
    requires DecodeBlock(env, raw).Ok?
    ensures var b := DecodeBlock(env, raw).value;
            DecodeBlock(env, b.bytes + tail) == Ok(b)
  {
    var b := DecodeBlock(env, raw).value;
    var (h, rest) := DecodeHeader(env, raw).value;
    var head := Cbor.Local(raw, env.maxElems, b.payload + tail);
    assert b.bytes == head + b.payload;
    DecodeSplit(env, head, h, b.payload, tail);
  }

  /** Header bytes, a payload of the announced size, and a tail decode to that header and payload. */
  lemma DecodeSplit(env: Env, head: bytes, h: Header, payload: bytes, tail: bytes)
    requires |payload| == h.size
    requires DecodeHeader(env, head + (payload + tail)) == Some((h, payload + tail))
    ensures DecodeBlock(env, head + payload + tail)
         == Ok(Block(NewCID(env, head + payload), h, payload, head + payload))
  {
    Slices(head, payload, tail);
  }

  lemma Slices(head: bytes, payload: bytes, tail: bytes)
    ensures head + (payload + tail) == head + payload + tail
    ensures (payload + tail)[..|payload|] == payload
    ensures (head + payload + tail)[..|head| + |payload|] == head + payload
  {
  }

  /** What BuildBlock seals decodes to itself in front of any tail; only an ill-formed codec name fails. */
  lemma BuiltRoundTrip(env: Env, typ: byte, codec: bytes, payload: bytes, tail: bytes)
    requires |payload| < TWO64 && |codec| < TWO64
    ensures var b := MakeBlock(env, typ, codec, payload);
            DecodeBlock(env, b.bytes + tail) == if Cbor.ValidUtf8(codec) then Ok(b) else Err(BadHeader)
  {
    SealedRoundTrip(env, Header(1, typ, |payload|, codec), payload, tail);
  }

  lemma SealedRoundTrip(env: Env, h: Header, payload: bytes, tail: bytes)
    requires HeaderFits(h) && |payload| == h.size
    ensures var s := EncodeHeader(h) + payload;
            DecodeBlock(env, s + tail) ==
            if Cbor.ValidUtf8(h.codec) then Ok(Block(NewCID(env, s), h, payload, s)) else Err(BadHeader)
  {
    var head := EncodeHeader(h);
    HeaderRoundTrip(env, h, payload + tail);
    Slices(head, payload, tail);
  }

  lemma BuiltConsistent(env: Env, typ: byte, codec: bytes, payload: bytes)
    requires |payload| < TWO64 && codec in {RAW, CBOR}
    ensures Consistent(env, MakeBlock(env, typ, codec, payload))
  {
    Cbor.AsciiIsUtf8(codec);
    BuiltRoundTrip(env, typ, codec, payload, []);
    var b := MakeBlock(env, typ, codec, payload);
    assert b.bytes + [] == b.bytes;
  }

  /** Header bytes of a decoded block, as they stand in front of its payload. */
  lemma HeaderBytes(env: Env, raw: bytes) returns (head: bytes)
    requires DecodeBlock(env, raw).Ok?
    ensures var b := DecodeBlock(env, raw).value;
            b.bytes == head + b.payload && b.bytes <= raw && DecodeHeader(env, head) == Some((b.header, []))
  {
    head := Cbor.Local(raw, env.maxElems, []);
    assert head + [] == head;
  }

  lemma DecodedHeaderFits(env: Env, raw: bytes)
    requires DecodeHeader(env, raw).Some?
    ensures HeaderFits(DecodeHeader(env, raw).value.0)
  {
    Cbor.DecodedFits(raw, env.maxElems);
    var items := Cbor.Decode(raw, env.maxElems).value.0.items;
    assert items[2] in items && items[3] in items;
  }

  /** Re-serializing a decoded block gives its bytes back exactly when its header was canonical. */
  lemma Reserialized(env: Env, raw: bytes)
    requires DecodeBlock(env, raw).Ok?
    ensures HeaderFits(DecodeBlock(env, raw).value.header)
    ensures var b := DecodeBlock(env, raw).value;
            EncodeHeader(b.header) + b.payload == b.bytes <==> EncodeHeader(b.header) <= raw
  {
    var b := DecodeBlock(env, raw).value;
    var head := HeaderBytes(env, raw);
    DecodedHeaderFits(env, raw);
    var e := EncodeHeader(b.header);
    if e <= raw {
      // Both headers start raw, so both decode to the same header and leave the same rest.
      assert raw == e + raw[|e|..];
      Cbor.DecodedAccepted(raw, env.maxElems);
      assert Cbor.Text(b.header.codec) in Cbor.Decode(raw, env.maxElems).value.0.items;
      HeaderRoundTrip(env, b.header, raw[|e|..]);
    }
  }

  // ---------------------------------------------------------------- the mutable block

  /** A block while it is put together: Serialize and ComputeCID fill fields in. */
  class BlockBuilder {
    var cid: CID
    var header: Header
    var payload: bytes
    var data: bytes

    constructor (h: Header, p: bytes)
      ensures cid == ZeroCID() && header == h && payload == p && data == []
    {
      cid, header, payload, data := ZeroCID(), h, p, [];
    }

    /** Sets the header size, then the bytes: the canonical header in front of the payload. */
    method Serialize()
      requires |payload| < TWO64 && |header.codec| < TWO64
      modifies this`header, this`data
      ensures header == old(header).(size := |payload|)
      ensures data == EncodeHeader(header) + payload
    {
      header := header.(size := |payload|);
      data := EncodeHeader(header) + payload;
    }

    method ComputeCID(env: Env) returns (r: Result<(), Error>)
      modifies this`cid
      ensures r == if data == [] then Err(SerializeFirst) else Ok(())
      ensures cid == if data == [] then old(cid) else NewCID(env, data)
    {
      if |data| == 0 {
        return Err(SerializeFirst);
      }
      cid := NewCID(env, data);
      return Ok(());
    }

    function Value(): Block
      reads this
    {
      Block(cid, header, payload, data)
    }
  }

  /** Fails only when the payload is longer than a Go slice can be. */
  method BuildBlock(env: Env, typ: byte, codec: bytes, payload: bytes) returns (r: Result<Block, Error>)
    requires codec in {RAW, CBOR}
    ensures |payload| < TWO63 ==> r == Ok(MakeBlock(env, typ, codec, payload)) && Consistent(env, r.value)
    ensures |payload| < TWO63 ==>
      && r.value.header == Header(1, typ, |payload|, codec) && r.value.payload == payload
      && payload == r.value.bytes[|r.value.bytes| - |payload|..]
      && CidToBytes(r.value.cid) == [1, 0] + env.hash(r.value.bytes)
    ensures |payload| >= TWO63 ==> r == Err(TooLarge)
  {
    if |payload| >= TWO63 {
      return Err(TooLarge);
    }
    var b := new BlockBuilder(Header(1, typ, |payload|, codec), payload);
    b.Serialize();
    var sealed := b.ComputeCID(env);
    BuiltConsistent(env, typ, codec, payload);
    return Ok(b.Value());
  }
}
