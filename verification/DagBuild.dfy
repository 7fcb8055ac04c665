/** Building a file DAG from a stream: chunks, then levels of nodes, then the manifest. */
module DagBuild {
  import opened Bytes
  import opened Block
  import opened DagCodec
  import opened DagTree
  import opened DagFetch
  import opened DagShape
  import opened StoreSpec
  import opened MemStore
  import opened DistStore
  import Bucket
  import Cbor

  // ---------------------------------------------------------------- input

  datatype ReadEnd = Full | UnexpectedEOF | EOF | Failed

  /** A stream of bytes that ends in EOF, or in another error. */
  class Reader {
    const data: bytes
    const fails: bool
    var pos: nat

    constructor (data: bytes, fails: bool)
      ensures this.data == data && this.fails == fails && pos == 0
    {
      this.data, this.fails, pos := data, fails, 0;
    }

    /** io.ReadFull: n bytes if there are that many, else all that are left and why it stopped. */
    method ReadFull(n: nat) returns (chunk: bytes, end: ReadEnd)
      requires pos <= |data| && n > 0
      modifies this`pos
      ensures pos == Min(old(pos) + n, |data|) && chunk == data[old(pos)..pos]
      ensures end == if |chunk| == n then Full else if fails then Failed
                     else if |chunk| == 0 then EOF else UnexpectedEOF
    {
      var stop := Min(pos + n, |data|);
      chunk := data[pos..stop];
      end := if |chunk| == n then Full else if fails then Failed else if |chunk| == 0 then EOF else UnexpectedEOF;
      pos := stop;
    }
  }

  /** One leaf a chunk, and one for an empty file. */
  function LeafCount(size: nat, chunk: nat): nat
    requires chunk > 0
  {
    if size == 0 then 1 else CeilDiv(size, chunk)
  }

  // ---------------------------------------------------------------- what the store holds

  function PutAll(store: map<CID, bytes>, puts: seq<Block>): map<CID, bytes> {
    if puts == [] then store
    else
      var last := puts[|puts| - 1];
      PutAll(store, puts[..|puts| - 1])[last.cid := last.bytes]
  }

  lemma PutOneMore(store: map<CID, bytes>, puts: seq<Block>, b: Block)
    ensures PutAll(store, puts + [b]) == PutAll(store, puts)[b.cid := b.bytes]
  {
    assert (puts + [b])[..|puts|] == puts;
  }

  lemma {:induction false} PutAllHolds(store: map<CID, bytes>, puts: seq<Block>)
    ensures forall c :: c in BuiltView(puts) ==>
              c in PutAll(store, puts) && PutAll(store, puts)[c] == BuiltView(puts)[c].bytes
  {
    if puts != [] {
      PutAllHolds(store, puts[..|puts| - 1]);
    }
  }

  /** A getter that answers with the blocks that were put, and with anything else besides. */
  ghost predicate Answers(view: View, puts: seq<Block>) {
    forall c :: c in BuiltView(puts) ==> c in view && view[c] == BuiltView(puts)[c]
  }

  /** Local reads find every block of the build. */
  lemma BuiltReadable(env: Env, store: map<CID, bytes>, puts: seq<Block>)
    requires NoClash(puts) && forall b :: b in puts ==> Consistent(env, b)
    ensures Answers(ViewOf(env, PutAll(store, puts)), puts)
  {
    PutAllHolds(store, puts);
    BuiltViewHolds(puts);
    var after := PutAll(store, puts);
    forall c | c in BuiltView(puts)
      ensures Readable(env, after, c) && DecodeBlock(env, after[c]).value == BuiltView(puts)[c]
    {
      assert Consistent(env, BuiltView(puts)[c]);
    }
  }

  // ---------------------------------------------------------------- levels over the blocks put

  /** The level the entries form over the blocks put so far; past the decoder's limit, a level that is broken. */
  ghost predicate Formed(env: Env, puts: seq<Block>, es: seq<Entry>, h: nat, data: bytes, wide: bool) {
    NoClash(puts) ==>
      if wide then Level(env, BuiltView(puts), es, h, data)
      else h > 0 && es != [] ==> Broken(env, BuiltView(puts), es[0].cid, h)
  }

  /** Everything below the entries has been put, and lies at most h levels down. */
  ghost predicate Grounded(env: Env, puts: seq<Block>, es: seq<Entry>, h: nat) {
    NoClash(puts) ==> forall i :: 0 <= i < |es| ==> Settled(env, BuiltView(puts), es[i].cid, h)
  }

  lemma GroundedGrows(env: Env, puts: seq<Block>, b: Block, es: seq<Entry>, h: nat)
    requires Grounded(env, puts, es, h)
    ensures Grounded(env, puts + [b], es, h)
  {
    hide Settled;
    if NoClash(puts + [b]) {
      BuiltViewGrows(puts, b);
      forall i | 0 <= i < |es|
        ensures Settled(env, BuiltView(puts + [b]), es[i].cid, h)
      {
        SettledBounded(env, BuiltView(puts), BuiltView(puts + [b]), es[i].cid, h);
      }
    }
  }

  lemma GroundedSplit(env: Env, puts: seq<Block>, a: seq<Entry>, b: seq<Entry>, h: nat)
    ensures Grounded(env, puts, a + b, h) <==> Grounded(env, puts, a, h) && Grounded(env, puts, b, h)
  {
    hide Settled;
    if NoClash(puts) && Grounded(env, puts, a + b, h) {
      assert forall i :: 0 <= i < |a| ==> (a + b)[i] == a[i];
      assert forall i :: 0 <= i < |b| ==> (a + b)[|a| + i] == b[i];
    }
  }

  lemma GroundedLeaf(env: Env, puts: seq<Block>, b: Block)
    requires b.header.typ == DATA
    ensures Grounded(env, puts + [b], [Entry(b.cid, |b.payload|)], 0)
  {
    if NoClash(puts + [b]) {
      BuiltViewGrows(puts, b);
    }
  }

  lemma GroundedNode(env: Env, puts: seq<Block>, grp: seq<Entry>, h: nat, fanout: nat, b: Block)
    requires Grounded(env, puts, grp, h) && |grp| < TWO64 && Sum(SpansOf(grp)) < TWO64
    requires NodeFits(NodeOver(grp, fanout)) && b.header.typ == NODE && b.payload == EncodeNode(NodeOver(grp, fanout))
    ensures Grounded(env, puts + [b], [Entry(b.cid, Sum(SpansOf(grp)))], h + 1)
  {
    hide EncodeNode, DecodeNode, Sum, NodeFits;
    GroundedGrows(env, puts, b, grp, h);
    if NoClash(puts + [b]) {
      BuiltViewGrows(puts, b);
      NodeRoundTrip(env, NodeOver(grp, fanout));
      forall i | 0 <= i < |grp|
        ensures CidFromBytes(NodeOver(grp, fanout).cids[i]) == Ok(grp[i].cid)
      {
        CidRoundTrip(grp[i].cid);
      }
    }
  }

  /** The entries have even sizes below them, all full but the last, which may be. */
  ghost predicate Ranked(
      env: Env, puts: seq<Block>, es: seq<Entry>, h: nat, chunk: int, fanout: int, wide: bool, full: bool) {
    NoClash(puts) && wide ==>
      forall i :: 0 <= i < |es| ==>
        Even(env, BuiltView(puts), es[i].cid, h, chunk, fanout, full || i < |es| - 1)
  }

  lemma RankedGrows(
      env: Env, puts: seq<Block>, b: Block, es: seq<Entry>, h: nat, chunk: int, fanout: int, wide: bool, full: bool)
    requires Ranked(env, puts, es, h, chunk, fanout, wide, full)
    ensures Ranked(env, puts + [b], es, h, chunk, fanout, wide, full)
  {
    hide Even;
    if NoClash(puts + [b]) && wide {
      BuiltViewGrows(puts, b);
      forall i | 0 <= i < |es|
        ensures Even(env, BuiltView(puts + [b]), es[i].cid, h, chunk, fanout, full || i < |es| - 1)
      {
        var f := full || i < |es| - 1;
        EvenGrows(env, BuiltView(puts), BuiltView(puts + [b]), es[i].cid, h, chunk, fanout, f, f);
      }
    }
  }

  lemma RankedLess(env: Env, puts: seq<Block>, es: seq<Entry>, h: nat, chunk: int, fanout: int, wide: bool)
    requires Ranked(env, puts, es, h, chunk, fanout, wide, true)
    ensures Ranked(env, puts, es, h, chunk, fanout, wide, false)
  {
    hide Even;
    if NoClash(puts) && wide {
      forall i | 0 <= i < |es|
        ensures Even(env, BuiltView(puts), es[i].cid, h, chunk, fanout, false || i < |es| - 1)
      {
        EvenGrows(env, BuiltView(puts), BuiltView(puts), es[i].cid, h, chunk, fanout, true, i < |es| - 1);
      }
    }
  }

  /** Entries are full when others follow them, and full entries can be followed by others. */
  lemma RankedSplit(
      env: Env, puts: seq<Block>, a: seq<Entry>, b: seq<Entry>, h: nat, chunk: int, fanout: int, wide: bool,
      full: bool)
    requires b != []
    ensures Ranked(env, puts, a + b, h, chunk, fanout, wide, full)
       <==> Ranked(env, puts, a, h, chunk, fanout, wide, true) && Ranked(env, puts, b, h, chunk, fanout, wide, full)
  {
    hide Even;
    var all := a + b;
    if NoClash(puts) && wide {
      var view := BuiltView(puts);
      if Ranked(env, puts, all, h, chunk, fanout, wide, full) {
        forall i | 0 <= i < |a|
          ensures Even(env, view, a[i].cid, h, chunk, fanout, true || i < |a| - 1)
        {
          assert all[i] == a[i];
        }
        forall i | 0 <= i < |b|
          ensures Even(env, view, b[i].cid, h, chunk, fanout, full || i < |b| - 1)
        {
          assert all[|a| + i] == b[i];
        }
      }
      if Ranked(env, puts, a, h, chunk, fanout, wide, true) && Ranked(env, puts, b, h, chunk, fanout, wide, full) {
        forall i | 0 <= i < |all|
          ensures Even(env, view, all[i].cid, h, chunk, fanout, full || i < |all| - 1)
        {
          assert all[i] == if i < |a| then a[i] else b[i - |a|];
        }
      }
    }
  }

  lemma RankedLeaf(env: Env, puts: seq<Block>, b: Block, chunk: int, fanout: int, wide: bool)
    requires |b.payload| <= chunk && b.header == Header(1, DATA, |b.payload|, RAW)
    ensures Ranked(env, puts + [b], [Entry(b.cid, |b.payload|)], 0, chunk, fanout, wide, |b.payload| == chunk)
  {
    if NoClash(puts + [b]) {
      BuiltViewGrows(puts, b);
    }
  }

  /** The node over one group, a full one unless it is the last of its level. */
  lemma RankedNode(
      env: Env, puts: seq<Block>, grp: seq<Entry>, h: nat, chunk: int, fanout: nat, wide: bool, full: bool, b: Block)
    requires Ranked(env, puts, grp, h, chunk, fanout, wide, full)
    requires 1 <= |grp| <= fanout && (full ==> |grp| == fanout) && (wide ==> |grp| <= env.maxElems)
    requires NodeFits(NodeOver(grp, fanout)) && b.payload == EncodeNode(NodeOver(grp, fanout))
    requires b.header == Header(1, NODE, |b.payload|, CBOR)
    ensures Ranked(env, puts + [b], [Entry(b.cid, Sum(SpansOf(grp)))], h + 1, chunk, fanout, wide, full)
  {
    hide EncodeNode, DecodeNode, Sum, NodeFits, Even;
    RankedGrows(env, puts, b, grp, h, chunk, fanout, wide, full);
    if NoClash(puts + [b]) && wide {
      BuiltViewGrows(puts, b);
      NodeRoundTrip(env, NodeOver(grp, fanout));
      CidsRoundTrip(CidsOf(grp));
      var view := BuiltView(puts + [b]);
      assert Links(env, view[b.cid]) == CidsOf(grp);
      EvenNode(env, view, b.cid, grp, h, chunk, fanout, full);
    }
  }

  lemma EvenNode(
      env: Env, view: View, c: CID, grp: seq<Entry>, h: nat, chunk: int, fanout: nat, full: bool)
    requires c in view && Links(env, view[c]) == CidsOf(grp)
    requires view[c].header == Header(1, NODE, |view[c].payload|, CBOR)
    requires var d := DecodeNode(env, view[c].payload); d.Ok? && d.value.v == 1 && d.value.fanout == fanout % TWO16
    requires 1 <= |grp| <= fanout && (full ==> |grp| == fanout)
    requires forall i :: 0 <= i < |grp| ==> Even(env, view, grp[i].cid, h, chunk, fanout, full || i < |grp| - 1)
    ensures Even(env, view, c, h + 1, chunk, fanout, full)
  {
    hide Links, DecodeNode;
    assert forall i :: 0 <= i < |grp| ==> CidsOf(grp)[i] == grp[i].cid;
  }

  lemma RankedEmpty(env: Env, puts: seq<Block>, h: nat, chunk: int, fanout: int, wide: bool)
    ensures Ranked(env, puts, [], h, chunk, fanout, wide, true)
  {
  }

  lemma FormedGrows(env: Env, puts: seq<Block>, b: Block, es: seq<Entry>, h: nat, data: bytes, wide: bool)
    requires Formed(env, puts, es, h, data, wide)
    ensures Formed(env, puts + [b], es, h, data, wide)
  {
    if NoClash(puts + [b]) {
      BuiltViewGrows(puts, b);
      if wide {
        LevelGrows(env, BuiltView(puts), BuiltView(puts + [b]), es, h, data);
      } else if h > 0 && es != [] {
        BrokenGrows(env, BuiltView(puts), BuiltView(puts + [b]), es[0].cid, h);
      }
    }
  }

  lemma FormedLeaf(env: Env, puts: seq<Block>, es: seq<Entry>, data: bytes, b: Block)
    requires Formed(env, puts, es, 0, data, true) && b.header.typ == DATA
    ensures Formed(env, puts + [b], es + [Entry(b.cid, |b.payload|)], 0, data + b.payload, true)
  {
    FormedGrows(env, puts, b, es, 0, data, true);
    if NoClash(puts + [b]) {
      var view := BuiltView(puts + [b]);
      BuiltViewGrows(puts, b);
      LeafLevel(env, view, b);
      LevelAppend(env, view, es, [Entry(b.cid, |b.payload|)], 0, data, b.payload);
    }
  }

  /** The payload of the node over a group of entries. */
  function NodeOver(es: seq<Entry>, fanout: nat): NodePayload {
    NodePayload(1, Sum(SpansOf(es)), fanout % TWO16, CidBytesOf(CidsOf(es)), SpansOf(es))
  }

  lemma NodeOverFits(es: seq<Entry>, fanout: nat)
    requires |es| < TWO64 && Sum(SpansOf(es)) < TWO64
    ensures NodeFits(NodeOver(es, fanout))
  {
    SpanAtMostSum(SpansOf(es));
  }

  lemma {:induction false} SpanAtMostSum(spans: seq<nat>)
    ensures forall i :: 0 <= i < |spans| ==> spans[i] <= Sum(spans)
  {
    if spans != [] {
      SpanAtMostSum(spans[1..]);
      assert forall i :: 0 < i < |spans| ==> spans[i] == spans[1..][i - 1];
    }
  }

  /** Putting the node over one group turns the group into one entry of the level above. */
  lemma FormedNode(
      env: Env, puts: seq<Block>, grp: seq<Entry>, h: nat, data: bytes, wide: bool, fanout: nat, b: Block)
    requires grp != [] && |grp| < TWO64 && Sum(SpansOf(grp)) < TWO64
    requires Formed(env, puts, grp, h, data, wide)
    requires wide ==> |grp| <= env.maxElems
    requires !wide && h == 0 ==> |grp| > env.maxElems
    requires NodeFits(NodeOver(grp, fanout)) && b.header.typ == NODE && b.payload == EncodeNode(NodeOver(grp, fanout))
    ensures Formed(env, puts + [b], [Entry(b.cid, Sum(SpansOf(grp)))], h + 1, data, wide)
  {
    FormedGrows(env, puts, b, grp, h, data, wide);
    if NoClash(puts + [b]) {
      var view := BuiltView(puts + [b]);
      BuiltViewGrows(puts, b);
      NodeRoundTrip(env, NodeOver(grp, fanout));
      if wide {
        NodeLevel(env, view, grp, h, data, NodeOver(grp, fanout), b);
      } else {
        CidRoundTrip(grp[0].cid);
      }
    }
  }

  lemma FormedAppend(
      env: Env, puts: seq<Block>, a: seq<Entry>, b: seq<Entry>, h: nat, da: bytes, db: bytes, wide: bool)
    requires Formed(env, puts, a, h, da, wide)
    requires wide || a == [] ==> Formed(env, puts, b, h, db, wide)
    ensures Formed(env, puts, a + b, h, da + db, wide)
  {
    if NoClash(puts) && wide {
      LevelAppend(env, BuiltView(puts), a, b, h, da, db);
    } else if a == [] {
      assert a + b == b;
    }
  }

  lemma FormedSplit(
      env: Env, puts: seq<Block>, a: seq<Entry>, b: seq<Entry>, h: nat, data: bytes, wide: bool)
    requires Formed(env, puts, a + b, h, data, wide) && Sum(SpansOf(a)) <= |data|
    ensures a != [] ==> Formed(env, puts, a, h, data[..Sum(SpansOf(a))], wide)
    ensures wide ==> Formed(env, puts, b, h, data[Sum(SpansOf(a))..], wide)
  {
    if NoClash(puts) && wide {
      LevelSplit(env, BuiltView(puts), a, b, h, data);
    }
  }

  // ---------------------------------------------------------------- the builder

  /** Whether the file can be read back at all: the decoder refuses ill-formed text and over-long arrays. */
  predicate Retrievable(env: Env, size: nat, chunk: nat, fanout: nat, name: bytes, mime: bytes)
    requires chunk > 0
  {
    && Min(fanout, LeafCount(size, chunk)) <= env.maxElems
    && Cbor.ValidUtf8(name) && Cbor.ValidUtf8(mime)
  }

  const TWO57: int := 0x200_0000_0000_0000

  /** No node and no manifest of the build is longer than a Go slice can be. */
  predicate Writable(size: nat, chunk: nat, fanout: nat, name: bytes, mime: bytes)
    requires chunk > 0
  {
    Min(fanout, LeafCount(size, chunk)) <= TWO57 && |name| + |mime| + 128 <= TWO63
  }

  lemma NodeIsWritable(grp: seq<Entry>, fanout: nat)
    requires NodeFits(NodeOver(grp, fanout)) && |grp| <= TWO57
    ensures |EncodeNode(NodeOver(grp, fanout))| < TWO63
  {
    hide EncodeNode, NodeFits;
    NodeSize(NodeOver(grp, fanout));
  }

  /** The manifest the builder writes over a root. */
  function ManifestOver(size: nat, chunk: nat, fanout: nat, root: CID, name: bytes, mime: bytes): ManifestPayload {
    ManifestPayload(1, size, chunk % TWO32, fanout % TWO16, CidToBytes(root), name, mime)
  }

  /** The payload decodes to a manifest that says this of the file, or not at all when a text is ill-formed. */
  predicate Describes(env: Env, payload: bytes, size: nat, chunk: int, fanout: int, name: bytes, mime: bytes) {
    var d := DecodeManifest(env, payload);
    && (d.Ok? <==> Cbor.ValidUtf8(name) && Cbor.ValidUtf8(mime))
    && (d.Ok? ==>
          && d.value.v == 1 && d.value.size == size && d.value.name == name && d.value.mime == mime
          && d.value.chunk == chunk % TWO32 && d.value.fanout == fanout % TWO16)
  }

  lemma ManifestDescribes(
      env: Env, size: nat, chunk: nat, fanout: nat, root: CID, name: bytes, mime: bytes)
    requires size < TWO64 && |name| < TWO64 && |mime| < TWO64
    ensures var mp := ManifestOver(size, chunk, fanout, root, name, mime);
            ManifestFits(mp) && Describes(env, EncodeManifest(mp), size, chunk, fanout, name, mime)
  {
    hide EncodeManifest, DecodeManifest;
    ManifestRoundTrip(env, ManifestOver(size, chunk, fanout, root, name, mime));
  }

  /** With the manifest put on top, the finished file is in the store, or cannot be fetched at all. */
  lemma Finished(
      env: Env, puts: seq<Block>, root: Entry, h: nat, data: bytes, wide: bool, mp: ManifestPayload, b: Block)
    requires |data| < TWO63 && root.span == |data| && (wide || h > 0)
    requires Formed(env, puts, [root], h, data, wide)
    requires mp == ManifestOver(|data|, mp.chunk, mp.fanout, root.cid, mp.name, mp.mime)
    requires ManifestFits(mp) && b.header.typ == MANIFEST && b.payload == EncodeManifest(mp)
    requires NoClash(puts + [b])
    ensures var view := BuiltView(puts + [b]);
            if wide && Cbor.ValidUtf8(mp.name) && Cbor.ValidUtf8(mp.mime)
            then FileAt(env, view, b.cid, data, h) && RootOf(env, view, b.cid) == Some(root.cid)
                 && Balanced(env, view, root.cid, h)
            else b.cid in view && view[b.cid] == b &&
                 (DecodeManifest(env, b.payload).Err? ||
                  (RootOf(env, view, b.cid) == Some(root.cid) && Broken(env, view, root.cid, h)))
  {
    FormedGrows(env, puts, b, [root], h, data, wide);
    BuiltViewGrows(puts, b);
    ManifestRoundTrip(env, mp);
    CidRoundTrip(root.cid);
    if wide {
      var view := BuiltView(puts + [b]);
      assert CidsOf([root]) == [root.cid] && SpansOf([root]) == [|data|];
      assert WellSpanned(env, view, CidsOf([root])[0], SpansOf([root])[0], h);
      ContentOne(env, view, root.cid, h);
    }
  }

  /** A manifest that does not decode, or whose root is broken, is never fetched. */
  lemma NeverFetched(env: Env, view: View, m: CID, h: nat, k: nat)
    requires m in view && view[m].header.typ == MANIFEST
    requires DecodeManifest(env, view[m].payload).Err? ||
             (RootOf(env, view, m).Some? && Broken(env, view, RootOf(env, view, m).value, k))
    requires BoundedFile(env, view, m, h)
    ensures FetchFile(env, view, m, h).Err?
  {
    var d := DecodeManifest(env, view[m].payload);
    if d.Ok? && d.value.size < TWO63 {
      BrokenFails(env, view, RootOf(env, view, m).value, k, 0, d.value.size, Zeros(d.value.size), h);
    }
  }

  /** What is known of a finished build: the file is fetched byte for byte exactly when it is retrievable. */
  ghost predicate BuiltFile(
      env: Env, view: View, m: CID, data: bytes, chunk: nat, fanout: nat, name: bytes, mime: bytes, h: nat)
    requires chunk > 0 && fanout > 1
  {
    var leaves := LeafCount(|data|, chunk);
    BoundedFile(env, view, m, h) &&
    if Retrievable(env, |data|, chunk, fanout, name, mime) then
      && FileAt(env, view, m, data, h)
      && Balanced(env, view, RootOf(env, view, m).value, h)
      && Even(env, view, RootOf(env, view, m).value, h, chunk, fanout, false)
      && leaves <= Pow(fanout, h) && (h > 0 ==> Pow(fanout, h - 1) < leaves)
    else forall k :: BoundedFile(env, view, m, k) ==> FetchFile(env, view, m, k).Err?
  }

  lemma RootIsBounded(env: Env, puts: seq<Block>, view: View, root: Entry, h: nat)
    requires Grounded(env, puts, [root], h) && NoClash(puts) && Answers(view, puts)
    ensures Bounded(env, view, root.cid, h)
  {
    SettledBounded(env, BuiltView(puts), view, [root][0].cid, h);
  }

  /** What holds over the blocks put holds in every larger view. */
  lemma BuiltFileInStore(
      env: Env, puts: seq<Block>, b: Block, view: View, root: Entry, data: bytes, chunk: nat, fanout: nat,
      name: bytes, mime: bytes, h: nat)
    requires chunk > 0 && fanout > 1 && |data| < TWO63 && root.span == |data| && |name| < TWO63 && |mime| < TWO63
    requires var leaves := LeafCount(|data|, chunk);
             var wide := Min(fanout, leaves) <= env.maxElems;
             && Formed(env, puts, [root], h, data, wide) && (wide || h > 0)
             && Ranked(env, puts + [b], [root], h, chunk, fanout, wide, false)
             && leaves <= Pow(fanout, h) && (h > 0 ==> Pow(fanout, h - 1) < leaves)
    requires Grounded(env, puts + [b], [root], h)
    requires var mp := ManifestOver(|data|, chunk, fanout, root.cid, name, mime);
             ManifestFits(mp) && b.header.typ == MANIFEST && b.payload == EncodeManifest(mp)
    requires NoClash(puts + [b])
    requires Answers(view, puts + [b])
    ensures BuiltFile(env, view, b.cid, data, chunk, fanout, name, mime, h)
  {
    var built := BuiltView(puts + [b]);
    var wide := Min(fanout, LeafCount(|data|, chunk)) <= env.maxElems;
    hide Grounded, Formed, Settled, EncodeManifest, DecodeManifest, ManifestFits, FetchFile, Bounded, Even;
    hide Broken, Balanced, FileAt, BuiltView, Links;
    RootIsBounded(env, puts + [b], view, root, h);
    Finished(env, puts, root, h, data, wide, ManifestOver(|data|, chunk, fanout, root.cid, name, mime), b);
    if Retrievable(env, |data|, chunk, fanout, name, mime) {
      FileKept(env, built, view, (iset c: CID | c.version >= 0), b.cid, data, h);
      BalancedGrows(env, built, view, root.cid, h);
      assert [root][0] == root;
      EvenGrows(env, built, view, root.cid, h, chunk, fanout, false, false);
    } else {
      if DecodeManifest(env, b.payload).Ok? {
        BrokenGrows(env, built, view, root.cid, h);
      }
      NeverFetchedAtAll(env, view, b.cid, h);
    }
  }

  lemma NeverFetchedAtAll(env: Env, view: View, m: CID, k: nat)
    requires m in view && view[m].header.typ == MANIFEST
    requires DecodeManifest(env, view[m].payload).Err? ||
             (RootOf(env, view, m).Some? && Broken(env, view, RootOf(env, view, m).value, k))
    ensures forall h :: BoundedFile(env, view, m, h) ==> FetchFile(env, view, m, h).Err?
  {
    hide DecodeManifest, Broken, FetchFile, BoundedFile, RootOf;
    forall h | BoundedFile(env, view, m, h)
      ensures FetchFile(env, view, m, h).Err?
    {
      NeverFetched(env, view, m, h, k);
    }
  }

  class DagBuilder {
    const chunkSize: int
    const fanout: int
    const store: MemStore
    const peers: Option<DistStore> // where blocks are offered first, in a distributed build
    const refused: set<CID> // the CIDs whose announcement fails
    ghost const start: State
    ghost var puts: seq<Block> // the blocks put so far
    ghost var acked: seq<seq<Bucket.Contact>> // and which peers acknowledged them

    constructor (chunkSize: int, fanout: int, store: MemStore, peers: Option<DistStore>, refused: set<CID>)
      requires peers.Some? ==> peers.value.local == store
      ensures this.chunkSize == chunkSize && this.fanout == fanout && this.store == store
      ensures this.peers == peers && this.refused == refused
      ensures puts == [] && start == store.Value() && Tracks() && Smooth()
    {
      this.chunkSize, this.fanout, this.store, this.peers, this.refused := chunkSize, fanout, store, peers, refused;
      start, puts, acked := store.Value(), [], [];
    }

    /** Where the blocks are. A local build leaves them all in the store, and its pins alone. In a distributed one
        each is held by peers that acknowledged it or by the store, with a direct pin. */
    ghost predicate Tracks()
      reads this, store
    {
      && |acked| <= |puts|
      && (forall b :: b in puts ==> Consistent(store.env, b))
      && if peers.None? then store.Value() == start.(store := PutAll(start.store, puts))
         else peers.value.local == store && (NoClash(puts) ==> PlacedAll())
    }

    ghost predicate PlacedAll()
      requires peers.Some? && |acked| <= |puts|
      reads this, store
    {
      forall i :: 0 <= i < |acked| ==>
        Placed(puts[i], acked[i], store.Value()) && peers.value.Acknowledged(puts[i].cid, acked[i])
    }

    /** Every put has succeeded. */
    ghost predicate Smooth()
      reads this
    {
      |acked| == |puts| && (peers.None? ==> forall b :: b in puts ==> b.cid !in refused)
    }

    ghost predicate SomeRefused()
      reads this
    {
      exists b :: b in puts && b.cid in refused
    }

    /** Builds one block and puts it. */
    method Emit(typ: byte, codec: bytes, payload: bytes) returns (r: Result<Block, Error>)
      requires codec in {RAW, CBOR} && Tracks() && Smooth()
      modifies this`puts, this`acked, store
      ensures Tracks()
      ensures r.Ok? ==>
        && |payload| < TWO63 && r.value == MakeBlock(store.env, typ, codec, payload)
        && puts == old(puts) + [r.value] && Smooth()
      ensures r.Err? ==>
        (r.error == TooLarge && |payload| >= TWO63 && puts == old(puts)) || (r.error == AnnounceFailed && SomeRefused())
    {
      var b :- BuildBlock(store.env, typ, codec, payload);
      assert Seal(store.env, b) == b;
      hide Seal;
      r := Send(b);
    }

    /** Puts a block to where the builder was told to. */
    method Send(b: Block) returns (r: Result<Block, Error>)
      requires Consistent(store.env, b) && Sealable(b) && Seal(store.env, b) == b && Tracks() && Smooth()
      modifies this`puts, this`acked, store
      ensures Tracks()
      ensures r.Ok? ==> r.value == b && puts == old(puts) + [b] && Smooth()
      ensures r.Err? ==> r.error == AnnounceFailed && SomeRefused()
    {
      if peers.None? {
        r := SendToStore(b);
      } else {
        r := SendToPeers(b);
      }
    }

    method SendToStore(b: Block) returns (r: Result<Block, Error>)
      requires Consistent(store.env, b) && Sealable(b) && Seal(store.env, b) == b && Tracks() && Smooth() && peers.None?
      modifies this`puts, this`acked, store
      ensures Tracks()
      ensures r.Ok? ==> r.value == b && puts == old(puts) + [b] && Smooth()
      ensures r.Err? ==> r.error == AnnounceFailed && SomeRefused()
    {
      hide Seal, Consistent, PutAll, NoClash;
      PutOneMore(start.store, puts, b);
      puts := puts + [b];
      assert puts[|puts| - 1] == b;
      var stored :- store.PutBlock(Some(b), b.cid !in refused);
      acked := acked + [[]];
      return Ok(b);
    }

    method SendToPeers(b: Block) returns (r: Result<Block, Error>)
      requires Consistent(store.env, b) && Sealable(b) && Seal(store.env, b) == b && Tracks() && Smooth() && peers.Some?
      modifies this`puts, this`acked, store
      ensures Tracks()
      ensures r.Ok? ==> r.value == b && puts == old(puts) + [b] && Smooth()
      ensures r.Err? ==> r.error == AnnounceFailed && SomeRefused()
    {
      hide Seal, Consistent, PutAll, Willing, NoClash;
      ghost var was, before := store.Value(), puts;
      puts := puts + [b];
      assert puts[|puts| - 1] == b;
      var done, who := peers.value.PutBlock(Some(b), b.cid !in refused);
      if NoClash(puts) {
        FewerClash(before, b);
        StillPlaced(before, acked, b, was, store.Value(), peers.value);
      }
      if done.Err? {
        return Err(done.error);
      }
      acked := acked + [who];
      return Ok(b);
    }

    /** Puts one leaf behind those put so far. */
    method EmitLeaf(payload: bytes, ghost leaves: seq<Entry>, ghost data: bytes) returns (r: Result<Entry, Error>)
      requires Tracks() && Smooth() && |payload| < TWO63 && |payload| <= chunkSize
      requires Formed(store.env, puts, leaves, 0, data, true) && Grounded(store.env, puts, leaves, 0)
      requires Ranked(store.env, puts, leaves, 0, chunkSize, fanout, true, true)
      modifies this`puts, this`acked, store
      ensures Tracks()
      ensures r.Ok? ==>
        && r.value.span == |payload| && Smooth()
        && Formed(store.env, puts, leaves + [r.value], 0, data + payload, true)
        && Grounded(store.env, puts, leaves + [r.value], 0)
        && Ranked(store.env, puts, leaves + [r.value], 0, chunkSize, fanout, true, |payload| == chunkSize)
        && Sum(SpansOf(leaves + [r.value])) == Sum(SpansOf(leaves)) + |payload|
      ensures r.Err? ==> r.error == AnnounceFailed && SomeRefused()
    {
      hide Formed, Grounded, Ranked, Sum, SpansOf, Tracks, Smooth, SomeRefused;
      ghost var was := puts;
      var leaf :- Emit(DATA, RAW, payload);
      FormedLeaf(store.env, was, leaves, data, leaf);
      GroundedGrows(store.env, was, leaf, leaves, 0);
      GroundedLeaf(store.env, was, leaf);
      RankedGrows(store.env, was, leaf, leaves, 0, chunkSize, fanout, true, true);
      RankedLeaf(store.env, was, leaf, chunkSize, fanout, true);
      ghost var last := [Entry(leaf.cid, |payload|)];
      RankedSplit(store.env, puts, leaves, last, 0, chunkSize, fanout, true, |payload| == chunkSize);
      GroundedSplit(store.env, puts, leaves, [Entry(leaf.cid, |payload|)], 0);
      SpansAppend(leaves, Entry(leaf.cid, |payload|));
      return Ok(Entry(leaf.cid, |payload|));
    }

    /** Chunks the stream into leaves. */
    method ReadLeaves(r: Reader) returns (res: Result<(seq<Entry>, nat), Error>)
      requires chunkSize > 0 && Tracks() && Smooth() && puts == [] && r.pos == 0 && |r.data| < TWO63
      modifies this`puts, this`acked, store, r`pos
      ensures Tracks()
      ensures res.Ok? ==>
        var (leaves, total) := res.value;
        && !r.fails && total == |r.data| && |leaves| == LeafCount(|r.data|, chunkSize) && Smooth()
        && Sum(SpansOf(leaves)) == |r.data| && Formed(store.env, puts, leaves, 0, r.data, true)
        && Grounded(store.env, puts, leaves, 0) && Ranked(store.env, puts, leaves, 0, chunkSize, fanout, true, false)
      ensures res.Err? ==> (res.error == ReadFailed && r.fails) || (res.error == AnnounceFailed && SomeRefused())
    {
      hide Formed, Grounded, Ranked, Sum, SpansOf, Tracks, Smooth, SomeRefused;
      var leaves: seq<Entry> := [];
      var total := 0;
      var done := false;
      FormedEmpty(store.env, puts, 0, r.data, true);
      GroundedEmpty(store.env, puts, 0);
      RankedEmpty(store.env, puts, 0, chunkSize, fanout, true);
      while !done
        invariant Tracks() && Smooth() && total == r.pos <= |r.data|
        invariant done ==> r.pos == |r.data| && !r.fails
        invariant |leaves| + CeilDiv(|r.data| - r.pos, chunkSize) == CeilDiv(|r.data|, chunkSize)
        invariant Sum(SpansOf(leaves)) == r.pos && (leaves == [] <==> r.pos == 0)
        invariant Formed(store.env, puts, leaves, 0, r.data[..r.pos], true) && Grounded(store.env, puts, leaves, 0)
        invariant !done || leaves == [] ==> Ranked(store.env, puts, leaves, 0, chunkSize, fanout, true, true)
        invariant done ==> Ranked(store.env, puts, leaves, 0, chunkSize, fanout, true, false)
        decreases !done, |r.data| - r.pos
      {
        ghost var before := r.data[..r.pos];
        var payload, end := r.ReadFull(chunkSize);
        if end == Failed {
          return Err(ReadFailed);
        }
        if end == EOF {
          RankedLess(store.env, puts, leaves, 0, chunkSize, fanout, true);
          done := true;
        } else {
          var leaf :- EmitLeaf(payload, leaves, before);
          assert before + payload == r.data[..r.pos];
          leaves := leaves + [leaf];
          total := total + |payload|;
          done := |payload| < chunkSize;
        }
      }
      assert r.data[..r.pos] == r.data;
      if |leaves| == 0 {
        var empty :- EmitLeaf([], leaves, []);
        assert [] + [] == r.data;
        leaves := leaves + [empty];
      }
      return Ok((leaves, total));
    }

    /** The CIDs, the spans and the size of the node over a group. */
    method GroupPayload(grp: seq<Entry>) returns (np: NodePayload)
      requires fanout > 0
      ensures np == NodeOver(grp, fanout)
    {
      var size := 0;
      var cids: seq<bytes> := [];
      var spans: seq<nat> := [];
      for i := 0 to |grp|
        invariant cids == CidBytesOf(CidsOf(grp[..i])) && spans == SpansOf(grp[..i]) && size == Sum(spans)
      {
        assert grp[..i + 1] == grp[..i] + [grp[i]];
        SumAppend(spans, [grp[i].span]);
        cids := cids + [CidToBytes(grp[i].cid)];
        spans := spans + [grp[i].span];
        size := size + grp[i].span;
      }
      assert grp[..|grp|] == grp;
      return NodePayload(1, size, fanout % TWO16, cids, spans);
    }

    /** Puts the node over one group. */
    method EmitNode(
        grp: seq<Entry>, ghost h: nat, ghost data: bytes, ghost wide: bool, ghost claim: bool, ghost full: bool)
      returns (r: Result<Entry, Error>)
      requires fanout > 1 && Tracks() && Smooth() && grp != [] && |grp| < TWO63 && Sum(SpansOf(grp)) < TWO63
      requires Grounded(store.env, puts, grp, h) && (claim ==> Formed(store.env, puts, grp, h, data, wide))
      requires Ranked(store.env, puts, grp, h, chunkSize, fanout, wide, full)
      requires |grp| <= fanout && (full ==> |grp| == fanout) && (wide ==> |grp| <= store.env.maxElems)
      requires claim && !wide && h == 0 ==> |grp| > store.env.maxElems
      modifies this`puts, this`acked, store
      ensures Tracks()
      ensures r.Ok? ==>
        && r.value.span == Sum(SpansOf(grp)) && (exists b :: puts == old(puts) + [b]) && Smooth()
        && Grounded(store.env, puts, [r.value], h + 1)
        && Ranked(store.env, puts, [r.value], h + 1, chunkSize, fanout, wide, full)
        && (claim ==> Formed(store.env, puts, [r.value], h + 1, data, wide))
      ensures r.Err? ==> (r.error == TooLarge && |grp| > TWO57) || (r.error == AnnounceFailed && SomeRefused())
    {
      hide Formed, Grounded, Ranked, Sum, CidsFromBytes, Tracks, Smooth, SomeRefused;
      NodeOverFits(grp, fanout);
      var np := GroupPayload(grp);
      ghost var was := puts;
      if |grp| <= TWO57 {
        NodeIsWritable(grp, fanout);
      }
      var node :- Emit(NODE, CBOR, EncodeNode(np));
      GroundedNode(store.env, was, grp, h, fanout, node);
      RankedNode(store.env, was, grp, h, chunkSize, fanout, wide, full, node);
      if claim {
        FormedNode(store.env, was, grp, h, data, wide, fanout, node);
      }
      return Ok(Entry(node.cid, np.size));
    }

    /** Puts the nodes of one level, a group of at most fanout entries each. */
    method FoldOne(cur: seq<Entry>, ghost h: nat, ghost data: bytes, ghost wide: bool)
      returns (r: Result<seq<Entry>, Error>)
      requires fanout > 1 && Tracks() && Smooth() && 1 < |cur| < TWO63 && Sum(SpansOf(cur)) == |data| < TWO63
      requires Formed(store.env, puts, cur, h, data, wide) && Grounded(store.env, puts, cur, h)
      requires Ranked(store.env, puts, cur, h, chunkSize, fanout, wide, false)
      requires wide ==> Min(fanout, |cur|) <= store.env.maxElems
      requires !wide && h == 0 ==> Min(fanout, |cur|) > store.env.maxElems
      modifies this`puts, this`acked, store
      ensures Tracks()
      ensures r.Ok? ==>
        && |r.value| == CeilDiv(|cur|, fanout) && Sum(SpansOf(r.value)) == |data| && Smooth()
        && Formed(store.env, puts, r.value, h + 1, data, wide) && Grounded(store.env, puts, r.value, h + 1)
        && Ranked(store.env, puts, r.value, h + 1, chunkSize, fanout, wide, false)
      ensures r.Err? ==>
        (r.error == TooLarge && Min(fanout, |cur|) > TWO57) || (r.error == AnnounceFailed && SomeRefused())
    {
      hide Formed, Grounded, Ranked, Sum, SpansOf, Tracks, Smooth, SomeRefused;
      var next: seq<Entry> := [];
      var i := 0;
      ghost var k := 0;
      FormedEmpty(store.env, puts, h + 1, data, wide);
      GroundedEmpty(store.env, puts, h + 1);
      RankedEmpty(store.env, puts, h + 1, chunkSize, fanout, wide);
      assert cur[0..] == cur && data[0..] == data;
      while i < |cur|
        invariant i <= |cur| && Tracks() && Smooth() && (next == [] <==> i == 0)
        invariant |next| + CeilDiv(|cur| - i, fanout) == CeilDiv(|cur|, fanout)
        invariant k == Sum(SpansOf(next)) <= |data| && Sum(SpansOf(cur[i..])) == |data| - k
        invariant Formed(store.env, puts, next, h + 1, data[..k], wide)
        invariant wide || i == 0 ==> Formed(store.env, puts, cur[i..], h, data[k..], wide)
        invariant Grounded(store.env, puts, next, h + 1) && Grounded(store.env, puts, cur[i..], h)
        invariant Ranked(store.env, puts, next, h + 1, chunkSize, fanout, wide, i < |cur|)
        invariant i < |cur| ==> Ranked(store.env, puts, cur[i..], h, chunkSize, fanout, wide, false)
      {
        var j := Min(i + fanout, |cur|);
        var grp := cur[i..j];
        ghost var rest, s := cur[j..], Sum(SpansOf(grp));
        assert cur[i..] == grp + rest;
        SpansConcat(grp, rest);
        GroundedSplit(store.env, puts, grp, rest, h);
        ghost var more := j < |cur|;
        if more {
          RankedSplit(store.env, puts, grp, rest, h, chunkSize, fanout, wide, false);
        } else {
          assert grp == cur[i..];
        }
        if wide || i == 0 {
          FormedSplit(store.env, puts, grp, rest, h, data[k..], wide);
        }
        ghost var was := puts;
        var e :- EmitNode(grp, h, data[k..][..s], wide, wide || i == 0, more);
        ghost var b :| puts == was + [b];
        FormedGrows(store.env, was, b, next, h + 1, data[..k], wide);
        if wide {
          FormedGrows(store.env, was, b, rest, h, data[k..][s..], wide);
        }
        GroundedGrows(store.env, was, b, next, h + 1);
        GroundedGrows(store.env, was, b, rest, h);
        GroundedSplit(store.env, puts, next, [e], h + 1);
        RankedGrows(store.env, was, b, next, h + 1, chunkSize, fanout, wide, true);
        RankedSplit(store.env, puts, next, [e], h + 1, chunkSize, fanout, wide, more);
        if more {
          RankedGrows(store.env, was, b, rest, h, chunkSize, fanout, wide, false);
        }
        FormedAppend(store.env, puts, next, [e], h + 1, data[..k], data[k..][..s], wide);
        SpansAppend(next, e);
        assert data[..k] + data[k..][..s] == data[..k + s] && data[k..][s..] == data[k + s..];
        next := next + [e];
        i := j;
        k := k + s;
      }
      assert cur[i..] == [];
      FormedEmpty(store.env, puts, h, data, wide);
      assert data[..k] == data;
      return Ok(next);
    }

    /** Folds levels until one entry is left. */
    method FoldLevels(leaves: seq<Entry>, ghost data: bytes) returns (r: Result<Entry, Error>, ghost h: nat)
      requires fanout > 1 && Tracks() && Smooth() && 1 <= |leaves| < TWO63 && Sum(SpansOf(leaves)) == |data| < TWO63
      requires Formed(store.env, puts, leaves, 0, data, true) && Grounded(store.env, puts, leaves, 0)
      requires Ranked(store.env, puts, leaves, 0, chunkSize, fanout, true, false)
      modifies this`puts, this`acked, store
      ensures Tracks()
      ensures r.Ok? ==>
        && r.value.span == |data|
        && var wide := Min(fanout, |leaves|) <= store.env.maxElems;
        && Formed(store.env, puts, [r.value], h, data, wide) && (wide || h > 0)
        && Grounded(store.env, puts, [r.value], h) && Smooth()
        && Ranked(store.env, puts, [r.value], h, chunkSize, fanout, wide, false)
        && |leaves| <= Pow(fanout, h) && (h > 0 ==> Pow(fanout, h - 1) < |leaves|)
      ensures r.Err? ==>
        (r.error == TooLarge && Min(fanout, |leaves|) > TWO57) || (r.error == AnnounceFailed && SomeRefused())
    {
      hide Grounded, Sum, SpansOf, Tracks, Smooth, SomeRefused, Even;
      var cur := leaves;
      ghost var wide := Min(fanout, |leaves|) <= store.env.maxElems;
      h := 0;
      assert Formed(store.env, puts, leaves, 0, data, wide);
      while |cur| > 1
        invariant 1 <= |cur| <= |leaves| && Tracks() && Smooth() && Sum(SpansOf(cur)) == |data|
        invariant |cur| == LevelSize(|leaves|, fanout, h) && (h > 0 ==> LevelSize(|leaves|, fanout, h - 1) > 1)
        invariant h == 0 ==> cur == leaves
        invariant Formed(store.env, puts, cur, h, data, wide) && Grounded(store.env, puts, cur, h)
        invariant Ranked(store.env, puts, cur, h, chunkSize, fanout, wide, false)
        decreases |cur|
      {
        CeilDivShrinks(|cur|, fanout);
        cur :- FoldOne(cur, h, data, wide);
        h := h + 1;
      }
      LeastHeight(|leaves|, fanout, h);
      SpanOfOne(cur[0]);
      assert cur == [cur[0]];
      return Ok(cur[0]), h;
    }

    /** Builds the whole DAG. It fails for bad parameters, a failing reader, a refused announcement, or a node or
        manifest too long to write, and for nothing else. On success every getter that has the blocks has the file. */
    method BuildFromReader(name: bytes, mime: bytes, r: Reader) returns (res: Result<Block, Error>, ghost h: nat)
      requires Tracks() && Smooth() && puts == [] && r.pos == 0
      requires |r.data| < TWO63 && |name| < TWO63 && |mime| < TWO63 // the lengths Go slices and strings can have
      modifies this`puts, this`acked, store, r`pos
      ensures Tracks()
      ensures chunkSize <= 0 || fanout <= 1 <==> res == Err(BadParams)
      ensures res == Err(BadParams) ==> puts == []
      ensures res.Ok? ==>
        && !r.fails && puts != [] && puts[|puts| - 1] == res.value && Smooth()
        && res.value.header == Header(1, MANIFEST, |res.value.payload|, CBOR)
        && Describes(store.env, res.value.payload, |r.data|, chunkSize, fanout, name, mime)
        && (NoClash(puts) ==>
              && (peers.None? ==> Answers(ViewOf(store.env, store.store), puts))
              && (peers.Some? ==> PlacedAll())
              && forall view :: Answers(view, puts) ==>
                   BuiltFile(store.env, view, res.value.cid, r.data, chunkSize, fanout, name, mime, h))
      ensures res.Err? ==>
        || res.error == BadParams
        || (res.error == ReadFailed && r.fails)
        || (res.error == AnnounceFailed && SomeRefused())
        || (res.error == TooLarge && !Writable(|r.data|, chunkSize, fanout, name, mime))
    {
      hide Sum, SpansOf, Formed, Grounded, Ranked, BuiltFile, ViewOf, CeilDiv, Answers;
      hide Tracks, Smooth, SomeRefused, PlacedAll, Describes;
      if chunkSize <= 0 || fanout <= 1 {
        return Err(BadParams), 0;
      }
      var read := ReadLeaves(r);
      if read.Err? {
        return Err(read.error), 0;
      }
      var (leaves, total) := read.value;
      LeafCountFits(|r.data|, chunkSize);
      var folded;
      folded, h := FoldLevels(leaves, r.data);
      if folded.Err? {
        return Err(folded.error), 0;
      }
      var root := folded.value;
      ghost var was := puts;
      var mp := ManifestOver(total, chunkSize, fanout, root.cid, name, mime);
      ManifestSize(mp);
      ManifestDescribes(store.env, total, chunkSize, fanout, root.cid, name, mime);
      var emitted := Emit(MANIFEST, CBOR, EncodeManifest(mp));
      if emitted.Err? {
        return Err(emitted.error), 0;
      }
      var m := emitted.value;
      if NoClash(puts) {
        Delivered();
        GroundedGrows(store.env, was, m, [root], h);
        ghost var wide := Min(fanout, |leaves|) <= store.env.maxElems;
        RankedGrows(store.env, was, m, [root], h, chunkSize, fanout, wide, false);
        forall view | Answers(view, puts)
          ensures BuiltFile(store.env, view, m.cid, r.data, chunkSize, fanout, name, mime, h)
        {
          BuiltFileInStore(store.env, was, m, view, root, r.data, chunkSize, fanout, name, mime, h);
        }
      }
      return Ok(m), h;
    }

    /** Where the blocks of a finished build are. */
    lemma Delivered()
      requires Tracks() && NoClash(puts)
      ensures peers.None? ==> Answers(ViewOf(store.env, store.store), puts)
      ensures peers.Some? ==> PlacedAll()
    {
      hide Consistent, Answers, PlacedAll;
      if peers.None? {
        BuiltReadable(store.env, start.store, puts);
      }
    }
  }

  /** Placing one more block leaves the others placed. */
  lemma StillPlaced(
      before: seq<Block>, acked: seq<seq<Bucket.Contact>>, b: Block, s: State, s': State, peers: DistStore)
    requires NoClash(before + [b]) && |acked| <= |before|
    requires NoClash(before) ==> forall i :: 0 <= i < |acked| ==> Placed(before[i], acked[i], s)
    requires s' in {s, Put(s, b), StoreSpec.PinDirect(Put(s, b), b.cid)}
    ensures forall i :: 0 <= i < |acked| ==> Placed((before + [b])[i], acked[i], s')
  {
    hide Placed;
    var all := before + [b];
    assert forall i :: 0 <= i < |before| ==> all[i] == before[i];
    forall i | 0 <= i < |acked|
      ensures Placed(all[i], acked[i], s')
    {
      assert all[|before|] == b;
      PlacedKept(before[i], acked[i], s, b);
    }
  }

  lemma FewerClash(puts: seq<Block>, b: Block)
    requires NoClash(puts + [b])
    ensures NoClash(puts)
  {
    BuiltViewGrows(puts, b);
  }

  lemma GroundedEmpty(env: Env, puts: seq<Block>, h: nat)
    ensures Grounded(env, puts, [], h)
  {
  }

  lemma FormedEmpty(env: Env, puts: seq<Block>, h: nat, data: bytes, wide: bool)
    ensures Formed(env, puts, [], h, data[..0], wide)
    ensures Sum(SpansOf([])) == 0
  {
  }

  lemma SpanOfOne(e: Entry)
    ensures Sum(SpansOf([e])) == e.span
  {
    assert SpansOf([e])[1..] == [];
  }

  lemma Multiple(k: nat, n: nat)
    requires k > 0
    ensures k * n >= n
  {
    assert k * n == n + (k - 1) * n;
  }

  lemma LeafCountFits(size: nat, chunk: nat)
    requires chunk > 0 && size < TWO63
    ensures 1 <= LeafCount(size, chunk) < TWO63
  {
    if size > 0 {
      CeilDivGalois(size, chunk, size);
      Multiple(chunk, size);
    }
  }

  lemma SpansConcat(a: seq<Entry>, b: seq<Entry>)
    ensures Sum(SpansOf(a + b)) == Sum(SpansOf(a)) + Sum(SpansOf(b))
  {
    assert SpansOf(a + b) == SpansOf(a) + SpansOf(b);
    SumAppend(SpansOf(a), SpansOf(b));
  }

  lemma SpansAppend(es: seq<Entry>, e: Entry)
    ensures Sum(SpansOf(es + [e])) == Sum(SpansOf(es)) + e.span
  {
    assert SpansOf(es + [e]) == SpansOf(es) + [e.span];
    SumAppend(SpansOf(es), [e.span]);
  }
}
