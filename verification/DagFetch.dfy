/** Reading a file back: the sequential fetch into a shared buffer, and the verifier. */
module DagFetch {
  import opened Bytes
  import opened Block
  import opened DagCodec
  import opened DagTree

  /** Node links unfold to at most h levels below c: without such a bound the readers would not return. */
  ghost predicate Bounded(env: Env, view: View, c: CID, h: nat)
    decreases h
  {
    c in view && view[c].header.typ == NODE && DecodeNode(env, view[c].payload).Ok? ==>
      h > 0 &&
      var raws := DecodeNode(env, view[c].payload).value.cids;
      forall i :: 0 <= i < |raws| && CidFromBytes(raws[i]).Ok? ==>
        Bounded(env, view, CidFromBytes(raws[i]).value, h - 1)
  }

  ghost predicate AllBounded(env: Env, view: View, raws: seq<bytes>, h: nat) {
    forall i :: 0 <= i < |raws| && CidFromBytes(raws[i]).Ok? ==>
      Bounded(env, view, CidFromBytes(raws[i]).value, h)
  }

  lemma TailBounded(env: Env, view: View, raws: seq<bytes>, h: nat)
    requires AllBounded(env, view, raws, h) && raws != []
    ensures AllBounded(env, view, raws[1..], h)
    ensures CidFromBytes(raws[0]).Ok? ==> Bounded(env, view, CidFromBytes(raws[0]).value, h)
  {
    assert forall i :: 0 <= i < |raws[1..]| ==> raws[1..][i] == raws[i + 1];
  }

  lemma {:induction false} WellSpannedBounded(env: Env, view: View, c: CID, span: nat, h: nat)
    requires WellSpanned(env, view, c, span, h)
    ensures Bounded(env, view, c, h)
    decreases h
  {
    if view[c].header.typ == NODE && DecodeNode(env, view[c].payload).Ok? {
      var np := DecodeNode(env, view[c].payload).value;
      CidsPointwise(np.cids);
      forall i | 0 <= i < |np.cids| && CidFromBytes(np.cids[i]).Ok?
        ensures Bounded(env, view, CidFromBytes(np.cids[i]).value, h - 1)
      {
        assert Links(env, view[c])[i] == CidFromBytes(np.cids[i]).value;
        WellSpannedBounded(env, view, CidFromBytes(np.cids[i]).value, np.spans[i], h - 1);
      }
    }
  }

  // ---------------------------------------------------------------- sequential fetch

  /** The buffer after copying src over out[base : base+span]; slicing out of range panics. */
  function CopyInto(out: bytes, base: nat, span: nat, src: bytes): (r: Result<bytes, Error>)
    requires |src| == span && base < TWO64 && span < TWO64
    ensures r.Ok? ==> |r.value| == |out|
  {
    var end := (base + span) % TWO64;
    if base <= end <= |out| then Ok(out[..base] + src + out[base + span..])
    else Err(Panic)
  }

  /** The buffer after fetching the subtree c into out[base : base+span], or the first error met. */
  ghost function FetchInto(env: Env, view: View, c: CID, base: nat, span: nat, out: bytes, h: nat)
    : (r: Result<bytes, Error>)
    requires Bounded(env, view, c, h) && base < TWO64 && span < TWO64
    ensures r.Ok? ==> |r.value| == |out|
    decreases h, 0
  {
    if c !in view then Err(NotFound)
    else if view[c].cid != c then Err(CidMismatch)
    else
      var b := view[c];
      if b.header.typ == DATA then
        if |b.payload| < span then Err(ShortLeaf) else CopyInto(out, base, span, b.payload[..span])
      else if b.header.typ == NODE then
        var np :- DecodeNode(env, b.payload);
        DecodedNodeFits(env, b.payload);
        if np.size != span then Err(SizeMismatch)
        else if |np.cids| != |np.spans| then Err(LengthMismatch)
        else FetchKids(env, view, np.cids, np.spans, base, out, h - 1)
      else Err(UnexpectedType)
  }

  ghost function FetchKids(
      env: Env, view: View, raws: seq<bytes>, spans: seq<nat>, offset: nat, out: bytes, h: nat)
    : (r: Result<bytes, Error>)
    requires |raws| == |spans| && offset < TWO64 && Are64(spans)
    requires AllBounded(env, view, raws, h)
    ensures r.Ok? ==> |r.value| == |out|
    decreases h, |raws| + 1
  {
    if raws == [] then Ok(out)
    else
      TailBounded(env, view, raws, h);
      var c :- CidFromBytes(raws[0]);
      var out' :- FetchInto(env, view, c, offset, spans[0], out, h);
      FetchKids(env, view, raws[1..], spans[1..], (offset + spans[0]) % TWO64, out', h)
  }

  /** The buffer with the bytes of a subtree in place. */
  function Splice(out: bytes, base: nat, src: bytes): (r: bytes)
    requires base + |src| <= |out|
    ensures |r| == |out|
  {
    out[..base] + src + out[base + |src|..]
  }

  lemma SpliceNothing(out: bytes, base: nat)
    requires base <= |out|
    ensures Splice(out, base, []) == out
  {
  }

  lemma SpliceTwice(out: bytes, base: nat, a: bytes, b: bytes)
    requires base + |a| + |b| <= |out|
    ensures Splice(Splice(out, base, a), base + |a|, b) == Splice(out, base, a + b)
  {
  }

  lemma FetchLeaf(env: Env, view: View, c: CID, base: nat, out: bytes, h: nat)
    requires c in view && view[c].cid == c && view[c].header.typ == DATA
    requires base + |view[c].payload| <= |out| < TWO63
    ensures FetchInto(env, view, c, base, |view[c].payload|, out, h) == Ok(Splice(out, base, view[c].payload))
  {
    var p := view[c].payload;
    assert p[..|p|] == p;
  }

  lemma FetchNode(env: Env, view: View, c: CID, base: nat, span: nat, out: bytes, h: nat)
    requires WellSpanned(env, view, c, span, h) && Bounded(env, view, c, h) && base < TWO64 && span < TWO64
    requires view[c].header.typ == NODE
    ensures var np := DecodeNode(env, view[c].payload).value;
            && Are64(np.spans) && AllBounded(env, view, np.cids, h - 1)
            && FetchInto(env, view, c, base, span, out, h) == FetchKids(env, view, np.cids, np.spans, base, out, h - 1)
  {
    DecodedNodeFits(env, view[c].payload);
  }

  /** On a well-spanned DAG the sequential fetch succeeds and writes exactly its content, nothing else. */
  lemma {:induction false} FetchWritesContent(
      env: Env, view: View, c: CID, base: nat, span: nat, out: bytes, h: nat)
    requires WellSpanned(env, view, c, span, h) && Bounded(env, view, c, h)
    requires base + span <= |out| < TWO63
    ensures |Content(env, view, c, h)| == span
    ensures FetchInto(env, view, c, base, span, out, h) == Ok(Splice(out, base, Content(env, view, c, h)))
    decreases h, 0
  {
    ContentLength(env, view, c, span, h);
    if view[c].header.typ == DATA {
      FetchLeaf(env, view, c, base, out, h);
    } else {
      var np := DecodeNode(env, view[c].payload).value;
      FetchNode(env, view, c, base, span, out, h);
      FetchKidsWrites(env, view, np.cids, np.spans, base, out, h - 1);
    }
  }

  lemma {:induction false} FetchKidsWrites(
      env: Env, view: View, raws: seq<bytes>, spans: seq<nat>, offset: nat, out: bytes, h: nat)
    requires |raws| == |spans| && Are64(spans) && AllBounded(env, view, raws, h)
    requires CidsFromBytes(raws).Ok? && AllWellSpanned(env, view, CidsFromBytes(raws).value, spans, h)
    requires offset + Sum(spans) <= |out| < TWO63
    ensures |ContentAll(env, view, CidsFromBytes(raws).value, h)| == Sum(spans)
    ensures FetchKids(env, view, raws, spans, offset, out, h)
         == Ok(Splice(out, offset, ContentAll(env, view, CidsFromBytes(raws).value, h)))
    decreases h, |raws| + 1
  {
    hide Content, WellSpanned, FetchInto, Splice, AllWellSpanned, AllBounded;
    var cids := CidsFromBytes(raws).value;
    ContentLengthAll(env, view, cids, spans, h);
    if raws == [] {
      SpliceNothing(out, offset);
    } else {
      TailBounded(env, view, raws, h);
      TailCids(raws);
      TailWellSpanned(env, view, cids, spans, h);
      FetchWritesContent(env, view, cids[0], offset, spans[0], out, h);
      var first, rest := Content(env, view, cids[0], h), ContentAll(env, view, cids[1..], h);
      var out' := Splice(out, offset, first);
      FetchKidsWrites(env, view, raws[1..], spans[1..], offset + spans[0], out', h);
      SpliceTwice(out, offset, first, rest);
    }
  }

  // ---------------------------------------------------------------- what can be fetched

  /** Where child i of a node at base starts, in 64-bit arithmetic. */
  function Offset(base: nat, spans: seq<nat>, i: nat): nat
    requires i <= |spans|
  {
    (base + Sum(spans[..i])) % TWO64
  }

  /** All blocks below c are what a fetch needs of them: under their own CIDs, leaves long enough and inside the buffer,
      nodes with the size that is asked for and a span for each child. */
  ghost predicate Fetchable(env: Env, view: View, c: CID, base: nat, span: nat, len: nat, h: nat)
    decreases h
  {
    && c in view && view[c].cid == c
    && if view[c].header.typ == DATA then span <= |view[c].payload| && base + span <= len
       else
         && h > 0 && view[c].header.typ == NODE
         && var d := DecodeNode(env, view[c].payload);
         && d.Ok? && d.value.size == span && |d.value.cids| == |d.value.spans|
         && forall i :: 0 <= i < |d.value.cids| ==>
              && CidFromBytes(d.value.cids[i]).Ok?
              && Fetchable(env, view, CidFromBytes(d.value.cids[i]).value,
                           Offset(base, d.value.spans, i), d.value.spans[i], len, h - 1)
  }

  /** Bytes that are to lie at an offset of the buffer. */
  datatype Part = Part(at: nat, src: bytes)

  /** The leaves below c from left to right, each at the offset that the spans before it give. */
  ghost function Parts(env: Env, view: View, c: CID, base: nat, span: nat, h: nat): seq<Part>
    decreases h, 0
  {
    if c !in view then []
    else if view[c].header.typ == DATA then
      if span <= |view[c].payload| then [Part(base, view[c].payload[..span])] else []
    else if h == 0 || DecodeNode(env, view[c].payload).Err? then []
    else
      var np := DecodeNode(env, view[c].payload).value;
      AllParts(env, view, np.cids, np.spans, base, h - 1)
  }

  ghost function AllParts(
      env: Env, view: View, raws: seq<bytes>, spans: seq<nat>, offset: nat, h: nat): seq<Part>
    decreases h, |raws| + 1
  {
    if raws == [] || spans == [] || CidFromBytes(raws[0]).Err? then []
    else
      Parts(env, view, CidFromBytes(raws[0]).value, offset, spans[0], h)
      + AllParts(env, view, raws[1..], spans[1..], (offset + spans[0]) % TWO64, h)
  }

  /** Byte i of a buffer after the parts were written one after the other: the last part that covers i has it. */
  function ByteAt(ps: seq<Part>, out: bytes, i: nat): byte
    requires i < |out|
  {
    if ps == [] then out[i]
    else
      var last := ps[|ps| - 1];
      if last.at <= i < last.at + |last.src| then last.src[i - last.at] else ByteAt(ps[..|ps| - 1], out, i)
  }

  lemma {:induction false} ByteAtAppend(a: seq<Part>, b: seq<Part>, out: bytes, mid: bytes, i: nat)
    requires i < |out| == |mid| && mid[i] == ByteAt(a, out, i)
    ensures ByteAt(a + b, out, i) == ByteAt(b, mid, i)
    decreases |b|
  {
    if b == [] {
      assert a + b == a;
    } else {
      ByteAtAppend(a, b[..|b| - 1], out, mid, i);
      assert (a + b)[..|a + b| - 1] == a + b[..|b| - 1];
    }
  }

  ghost predicate AllFetchable(
      env: Env, view: View, raws: seq<bytes>, spans: seq<nat>, offset: nat, len: nat, h: nat)
    requires |raws| == |spans|
  {
    forall i :: 0 <= i < |raws| ==>
      && CidFromBytes(raws[i]).Ok?
      && Fetchable(env, view, CidFromBytes(raws[i]).value, Offset(offset, spans, i), spans[i], len, h)
  }

  lemma OffsetAfter(offset: nat, spans: seq<nat>, i: nat)
    requires i < |spans|
    ensures Offset(offset, spans, i + 1) == Offset((offset + spans[0]) % TWO64, spans[1..], i)
  {
    assert spans[..i + 1][1..] == spans[1..][..i];
  }

  lemma AllFetchableStep(
      env: Env, view: View, raws: seq<bytes>, spans: seq<nat>, offset: nat, len: nat, h: nat)
    requires |raws| == |spans| > 0 && offset < TWO64
    ensures AllFetchable(env, view, raws, spans, offset, len, h) <==>
            && CidFromBytes(raws[0]).Ok?
            && Fetchable(env, view, CidFromBytes(raws[0]).value, offset, spans[0], len, h)
            && AllFetchable(env, view, raws[1..], spans[1..], (offset + spans[0]) % TWO64, len, h)
  {
    assert Offset(offset, spans, 0) == offset;
    hide Fetchable, CidFromBytes, Sum, Offset;
    var rest, spans', next := raws[1..], spans[1..], (offset + spans[0]) % TWO64;
    forall i | 0 <= i < |rest|
      ensures rest[i] == raws[i + 1] && spans'[i] == spans[i + 1]
      ensures Offset(offset, spans, i + 1) == Offset(next, spans', i)
    {
      OffsetAfter(offset, spans, i);
    }
    if CidFromBytes(raws[0]).Ok? && Fetchable(env, view, CidFromBytes(raws[0]).value, offset, spans[0], len, h)
       && AllFetchable(env, view, rest, spans', next, len, h) {
      forall i | 0 <= i < |raws|
        ensures CidFromBytes(raws[i]).Ok?
        ensures Fetchable(env, view, CidFromBytes(raws[i]).value, Offset(offset, spans, i), spans[i], len, h)
      {
        if i > 0 {
          assert rest[i - 1] == raws[i] && spans'[i - 1] == spans[i];
        }
      }
    }
  }

  /** Over any getter a fetch succeeds if and only if the blocks are what it needs, and then leaves the leaves in the
      buffer, later ones over earlier ones, and the other bytes as they were. */
  lemma {:induction false} FetchExactly(
      env: Env, view: View, c: CID, base: nat, span: nat, out: bytes, h: nat)
    requires Bounded(env, view, c, h) && base < TWO64 && span < TWO64 && |out| < TWO63
    ensures var r := FetchInto(env, view, c, base, span, out, h);
            && (r.Ok? <==> Fetchable(env, view, c, base, span, |out|, h))
            && (r.Ok? ==> forall i :: 0 <= i < |out| ==>
                  r.value[i] == ByteAt(Parts(env, view, c, base, span, h), out, i))
    decreases h, 0
  {
    hide DecodeNode, CidFromBytes;
    if c in view && view[c].cid == c {
      if view[c].header.typ == DATA {
        LeafExactly(env, view, c, base, span, out, h);
      } else if view[c].header.typ == NODE && DecodeNode(env, view[c].payload).Ok? {
        var np := DecodeNode(env, view[c].payload).value;
        DecodedNodeFits(env, view[c].payload);
        if |np.cids| == |np.spans| {
          FetchKidsExactly(env, view, np.cids, np.spans, base, out, h - 1);
        }
      }
    }
  }

  lemma LeafExactly(env: Env, view: View, c: CID, base: nat, span: nat, out: bytes, h: nat)
    requires Bounded(env, view, c, h) && base < TWO64 && span < TWO64 && |out| < TWO63
    requires c in view && view[c].cid == c && view[c].header.typ == DATA
    ensures var r := FetchInto(env, view, c, base, span, out, h);
            && (r.Ok? <==> Fetchable(env, view, c, base, span, |out|, h))
            && (r.Ok? ==> forall i :: 0 <= i < |out| ==>
                  r.value[i] == ByteAt(Parts(env, view, c, base, span, h), out, i))
  {
    var p := view[c].payload;
    if span <= |p| && base + span <= |out| {
      var ps := [Part(base, p[..span])];
      assert Parts(env, view, c, base, span, h) == ps;
      forall i | 0 <= i < |out|
        ensures CopyInto(out, base, span, p[..span]).value[i] == ByteAt(ps, out, i)
      {
        assert ps[..0] == [];
      }
    }
  }

  lemma {:induction false} FetchKidsExactly(
      env: Env, view: View, raws: seq<bytes>, spans: seq<nat>, offset: nat, out: bytes, h: nat)
    requires |raws| == |spans| && offset < TWO64 && Are64(spans) && AllBounded(env, view, raws, h) && |out| < TWO63
    ensures var r := FetchKids(env, view, raws, spans, offset, out, h);
            && (r.Ok? <==> AllFetchable(env, view, raws, spans, offset, |out|, h))
            && (r.Ok? ==> forall i :: 0 <= i < |out| ==>
                  r.value[i] == ByteAt(AllParts(env, view, raws, spans, offset, h), out, i))
    decreases h, |raws| + 1
  {
    hide FetchInto, Fetchable, Parts, CidFromBytes, AllFetchable, ByteAt;
    if raws == [] {
      NothingToFetch(env, view, offset, out, h);
    } else {
      TailBounded(env, view, raws, h);
      AllFetchableStep(env, view, raws, spans, offset, |out|, h);
      if CidFromBytes(raws[0]).Ok? {
        var c, next := CidFromBytes(raws[0]).value, (offset + spans[0]) % TWO64;
        FetchExactly(env, view, c, offset, spans[0], out, h);
        var first := FetchInto(env, view, c, offset, spans[0], out, h);
        if first.Ok? {
          FetchKidsExactly(env, view, raws[1..], spans[1..], next, first.value, h);
          var a, b := Parts(env, view, c, offset, spans[0], h), AllParts(env, view, raws[1..], spans[1..], next, h);
          forall i | 0 <= i < |out|
            ensures ByteAt(a + b, out, i) == ByteAt(b, first.value, i)
          {
            ByteAtAppend(a, b, out, first.value, i);
          }
        }
      }
    }
  }

  lemma NothingToFetch(env: Env, view: View, offset: nat, out: bytes, h: nat)
    ensures AllFetchable(env, view, [], [], offset, |out|, h) && AllParts(env, view, [], [], offset, h) == []
    ensures forall i :: 0 <= i < |out| ==> ByteAt([], out, i) == out[i]
  {
  }

  // ---------------------------------------------------------------- whole files

  /** The root a readable manifest names. */
  function RootOf(env: Env, view: View, m: CID): (r: Option<CID>)
    ensures r.Some? ==> m in view && view[m].header.typ == MANIFEST && DecodeManifest(env, view[m].payload).Ok?
    ensures r.Some? ==> CidFromBytes(DecodeManifest(env, view[m].payload).value.root) == Ok(r.value)
  {
    if m in view && view[m].header.typ == MANIFEST && DecodeManifest(env, view[m].payload).Ok? then
      var root := CidFromBytes(DecodeManifest(env, view[m].payload).value.root);
      if root.Ok? then Some(root.value) else None
    else None
  }

  ghost predicate BoundedFile(env: Env, view: View, m: CID, h: nat) {
    RootOf(env, view, m).Some? ==> Bounded(env, view, RootOf(env, view, m).value, h)
  }

  function Zeros(n: nat): (s: bytes)
    ensures |s| == n
  {
    seq(n, i => 0)
  }

  /** What Fetch returns; a size no slice can have makes the allocation panic. */
  ghost function FetchFile(env: Env, view: View, m: CID, h: nat): Result<bytes, Error>
    requires BoundedFile(env, view, m, h)
  {
    if m !in view then Err(NotFound)
    else if view[m].header.typ != MANIFEST then Err(NotManifest)
    else
      var mp :- DecodeManifest(env, view[m].payload);
      var root :- CidFromBytes(mp.root);
      if mp.size >= TWO63 then Err(Panic)
      else FetchInto(env, view, root, 0, mp.size, Zeros(mp.size), h)
  }

  /** A stored file is fetched byte for byte. */
  lemma FetchReturnsFile(env: Env, view: View, m: CID, data: bytes, h: nat)
    requires FileAt(env, view, m, data, h) && |data| < TWO63
    ensures BoundedFile(env, view, m, h)
    ensures FetchFile(env, view, m, h) == Ok(data)
  {
    var root := RootOf(env, view, m).value;
    WellSpannedBounded(env, view, root, |data|, h);
    FetchWritesContent(env, view, root, 0, |data|, Zeros(|data|), h);
    assert Splice(Zeros(|data|), 0, data) == data;
  }

  /** Succeeds if and only if there is a manifest and everything below its root is what a fetch needs. */
  method Fetch(env: Env, view: View, m: CID, ghost h: nat) returns (r: Result<bytes, Error>)
    requires BoundedFile(env, view, m, h)
    ensures r == FetchFile(env, view, m, h)
    ensures r.Ok? <==>
      && m in view && view[m].header.typ == MANIFEST
      && var d := DecodeManifest(env, view[m].payload);
      && d.Ok? && d.value.size < TWO63
      && var root := CidFromBytes(d.value.root);
      && root.Ok? && Fetchable(env, view, root.value, 0, d.value.size, d.value.size, h)
    ensures r.Ok? ==>
      var mp := DecodeManifest(env, view[m].payload).value;
      var parts := Parts(env, view, CidFromBytes(mp.root).value, 0, mp.size, h);
      |r.value| == mp.size && forall i :: 0 <= i < mp.size ==> r.value[i] == ByteAt(parts, Zeros(mp.size), i)
  {
    hide FetchInto, Fetchable, Parts, DecodeManifest, CidFromBytes;
    if m !in view {
      return Err(NotFound);
    }
    var mblk := view[m];
    if mblk.header.typ != MANIFEST {
      return Err(NotManifest);
    }
    var mp :- DecodeManifest(env, mblk.payload);
    var root :- CidFromBytes(mp.root);
    if mp.size >= TWO63 {
      return Err(Panic);
    }
    FetchExactly(env, view, root, 0, mp.size, Zeros(mp.size), h);
    var out := new byte[mp.size](_ => 0);
    assert out[..] == Zeros(mp.size);
    var done :- FetchRangeSeq(env, view, root, 0, mp.size, out, h);
    return Ok(out[..]);
  }

  method FetchRangeSeq(env: Env, view: View, c: CID, base: nat, span: nat, out: array<byte>, ghost h: nat)
    returns (r: Result<(), Error>)
    requires Bounded(env, view, c, h) && base < TWO64 && span < TWO64
    modifies out
    ensures var spec := FetchInto(env, view, c, base, span, old(out[..]), h);
            if spec.Ok? then r == Ok(()) && out[..] == spec.value else r == Err(spec.error)
    decreases h, 0
  {
    if c !in view {
      return Err(NotFound);
    }
    var b := view[c];
    if b.cid != c {
      return Err(CidMismatch);
    }
    if b.header.typ == DATA {
      if |b.payload| < span {
        return Err(ShortLeaf);
      }
      var end := (base + span) % TWO64;
      if !(base <= end <= out.Length) {
        return Err(Panic);
      }
      forall k | 0 <= k < span {
        out[base + k] := b.payload[k];
      }
      assert out[..] == CopyInto(old(out[..]), base, span, b.payload[..span]).value;
      return Ok(());
    } else if b.header.typ == NODE {
      var np :- DecodeNode(env, b.payload);
      DecodedNodeFits(env, b.payload);
      if np.size != span {
        return Err(SizeMismatch);
      }
      if |np.cids| != |np.spans| {
        return Err(LengthMismatch);
      }
      r := FetchChildren(env, view, np.cids, np.spans, base, out, h - 1);
    } else {
      return Err(UnexpectedType);
    }
  }

  /** The loop over the children of a node, advancing the offset by each child's span. */
  method FetchChildren(
      env: Env, view: View, raws: seq<bytes>, spans: seq<nat>, base: nat, out: array<byte>, ghost h: nat)
    returns (r: Result<(), Error>)
    requires |raws| == |spans| && base < TWO64 && Are64(spans) && AllBounded(env, view, raws, h)
    modifies out
    ensures var spec := FetchKids(env, view, raws, spans, base, old(out[..]), h);
            if spec.Ok? then r == Ok(()) && out[..] == spec.value else r == Err(spec.error)
    decreases h, 1
  {
    var offset: nat := base;
    ghost var goal := FetchKids(env, view, raws, spans, base, out[..], h);
    assert raws[0..] == raws && spans[0..] == spans;
    for i := 0 to |raws|
      invariant offset < TWO64 && AllBounded(env, view, raws[i..], h)
      invariant goal == FetchKids(env, view, raws[i..], spans[i..], offset, out[..], h)
    {
      TailBounded(env, view, raws[i..], h);
      assert raws[i..][1..] == raws[i + 1..] && spans[i..][1..] == spans[i + 1..];
      var c :- CidFromBytes(raws[i]);
      var done :- FetchRangeSeq(env, view, c, offset, spans[i], out, h);
      offset := (offset + spans[i]) % TWO64;
    }
    return Ok(());
  }

  // ---------------------------------------------------------------- verification

  /** Everything the verifier looks at below c. */
  ghost predicate Accepts(env: Env, view: View, c: CID, span: nat, h: nat)
    decreases h
  {
    && c in view && view[c].cid == c
    && if view[c].header.typ == DATA then |view[c].payload| == span
       else
         && h > 0 && view[c].header.typ == NODE
         && var d := DecodeNode(env, view[c].payload);
         && d.Ok? && d.value.size == span && |d.value.cids| == |d.value.spans|
         && forall i :: 0 <= i < |d.value.cids| ==>
              && CidFromBytes(d.value.cids[i]).Ok?
              && Accepts(env, view, CidFromBytes(d.value.cids[i]).value, d.value.spans[i], h - 1)
  }

  /** What the verifier does not look at: whether the spans of each node add up to its size. */
  ghost predicate SpansAddUp(env: Env, view: View, c: CID, h: nat)
    decreases h
  {
    c in view && view[c].header.typ == NODE && DecodeNode(env, view[c].payload).Ok? ==>
      var np := DecodeNode(env, view[c].payload).value;
      && Sum(np.spans) == np.size
      && h > 0
      && forall i :: 0 <= i < |np.cids| && CidFromBytes(np.cids[i]).Ok? ==>
           SpansAddUp(env, view, CidFromBytes(np.cids[i]).value, h - 1)
  }

  /** The verifier's checks and the sums together are exactly what makes a DAG well-spanned. */
  lemma {:induction false} AcceptsExactly(env: Env, view: View, c: CID, span: nat, h: nat)
    ensures WellSpanned(env, view, c, span, h)
       <==> Accepts(env, view, c, span, h) && SpansAddUp(env, view, c, h)
    decreases h
  {
    if c in view && h > 0 && view[c].header.typ == NODE && DecodeNode(env, view[c].payload).Ok? {
      var np := DecodeNode(env, view[c].payload).value;
      var cids := CidsFromBytes(np.cids);
      CidsPointwise(np.cids);
      if |np.cids| == |np.spans| && cids.Ok? {
        forall i | 0 <= i < |np.cids|
          ensures WellSpanned(env, view, cids.value[i], np.spans[i], h - 1)
             <==> Accepts(env, view, cids.value[i], np.spans[i], h - 1) && SpansAddUp(env, view, cids.value[i], h - 1)
        {
          AcceptsExactly(env, view, cids.value[i], np.spans[i], h - 1);
        }
      }
    }
  }

  /** Every stored file, and so every file the builder stores, passes verification and has spans that add up. */
  lemma StoredFileVerifies(env: Env, view: View, m: CID, data: bytes, h: nat)
    requires FileAt(env, view, m, data, h)
    ensures RootOf(env, view, m).Some? && DecodeManifest(env, view[m].payload).value.size == |data|
    ensures Accepts(env, view, RootOf(env, view, m).value, |data|, h)
    ensures SpansAddUp(env, view, RootOf(env, view, m).value, h)
  {
    AcceptsExactly(env, view, RootOf(env, view, m).value, |data|, h);
  }

  /** When Verify accepts and the spans add up, Fetch returns the leaf payloads from left to right. */
  lemma VerifiedFileFetches(env: Env, view: View, m: CID, h: nat)
    requires RootOf(env, view, m).Some?
    requires var mp := DecodeManifest(env, view[m].payload).value;
             var root := RootOf(env, view, m).value;
             mp.size < TWO63 && Accepts(env, view, root, mp.size, h) && SpansAddUp(env, view, root, h)
    ensures BoundedFile(env, view, m, h)
    ensures var data := Content(env, view, RootOf(env, view, m).value, h);
            FetchFile(env, view, m, h) == Ok(data) && |data| == DecodeManifest(env, view[m].payload).value.size
  {
    var mp := DecodeManifest(env, view[m].payload).value;
    var root := RootOf(env, view, m).value;
    AcceptsExactly(env, view, root, mp.size, h);
    ContentLength(env, view, root, mp.size, h);
    FetchReturnsFile(env, view, m, Content(env, view, root, h), h);
  }

  /** Without the sums the claim fails: a childless node of any size is accepted, and zeros are fetched. */
  lemma ChildlessNodeAccepted(env: Env, view: View, m: CID, n: nat)
    requires RootOf(env, view, m).Some? && n < TWO63
    requires DecodeManifest(env, view[m].payload).value.size == n
    requires var root := RootOf(env, view, m).value;
             && root in view && view[root].cid == root && view[root].header.typ == NODE
             && var d := DecodeNode(env, view[root].payload);
             d.Ok? && d.value.size == n && d.value.cids == [] && d.value.spans == []
    ensures Accepts(env, view, RootOf(env, view, m).value, n, 1)
    ensures BoundedFile(env, view, m, 1) && FetchFile(env, view, m, 1) == Ok(Zeros(n))
    ensures n > 0 ==> !SpansAddUp(env, view, RootOf(env, view, m).value, 1)
  {
  }

  method Verify(env: Env, view: View, m: CID, ghost h: nat) returns (r: Result<(), Error>)
    requires BoundedFile(env, view, m, h)
    ensures r.Ok? <==>
      && m in view && view[m].header.typ == MANIFEST
      && var d := DecodeManifest(env, view[m].payload);
      && d.Ok?
      && var root := CidFromBytes(d.value.root);
      && root.Ok? && Accepts(env, view, root.value, d.value.size, h)
  {
    if m !in view {
      return Err(NotFound);
    }
    if view[m].header.typ != MANIFEST {
      return Err(NotManifest);
    }
    var mp :- DecodeManifest(env, view[m].payload);
    var root :- CidFromBytes(mp.root);
    r := VerifySubtree(env, view, root, mp.size, h);
  }

  method VerifySubtree(env: Env, view: View, c: CID, span: nat, ghost h: nat) returns (r: Result<(), Error>)
    requires Bounded(env, view, c, h)
    ensures r.Ok? <==> Accepts(env, view, c, span, h)
    decreases h
  {
    if c !in view {
      return Err(NotFound);
    }
    var b := view[c];
    if b.cid != c {
      return Err(CidMismatch);
    }
    if b.header.typ == DATA {
      return if |b.payload| != span then Err(SizeMismatch) else Ok(());
    } else if b.header.typ == NODE {
      var np :- DecodeNode(env, b.payload);
      if np.size != span {
        return Err(SizeMismatch);
      }
      if |np.cids| != |np.spans| {
        return Err(LengthMismatch);
      }
      for i := 0 to |np.cids|
        invariant forall j :: 0 <= j < i ==>
          && CidFromBytes(np.cids[j]).Ok?
          && Accepts(env, view, CidFromBytes(np.cids[j]).value, np.spans[j], h - 1)
      {
        var child :- CidFromBytes(np.cids[i]);
        var done :- VerifySubtree(env, view, child, np.spans[i], h - 1);
      }
      return Ok(());
    } else {
      return Err(UnexpectedType);
    }
  }

  // ---------------------------------------------------------------- integrity

  /** Two getters never give different blocks for one CID that both blocks really have. */
  ghost predicate NoConflict(v1: View, v2: View) {
    forall x :: x in v1 && x in v2 && v1[x].cid == x && v2[x].cid == x ==> v1[x] == v2[x]
  }

  /** Content addressing: two getters that both let a fetch succeed give the same bytes. */
  lemma {:induction false} FetchAgrees(
      env: Env, v1: View, v2: View, c: CID, base: nat, span: nat, out: bytes, h: nat)
    requires NoConflict(v1, v2) && base < TWO64 && span < TWO64
    requires Bounded(env, v1, c, h) && Bounded(env, v2, c, h)
    requires FetchInto(env, v1, c, base, span, out, h).Ok? && FetchInto(env, v2, c, base, span, out, h).Ok?
    ensures FetchInto(env, v1, c, base, span, out, h) == FetchInto(env, v2, c, base, span, out, h)
    decreases h, 0
  {
    var b := v1[c];
    assert v2[c] == b;
    if b.header.typ == NODE {
      var np := DecodeNode(env, b.payload).value;
      DecodedNodeFits(env, b.payload);
      FetchKidsAgree(env, v1, v2, np.cids, np.spans, base, out, h - 1);
    }
  }

  lemma {:induction false} FetchKidsAgree(
      env: Env, v1: View, v2: View, raws: seq<bytes>, spans: seq<nat>, offset: nat, out: bytes, h: nat)
    requires NoConflict(v1, v2) && |raws| == |spans| && offset < TWO64 && Are64(spans)
    requires AllBounded(env, v1, raws, h) && AllBounded(env, v2, raws, h)
    requires FetchKids(env, v1, raws, spans, offset, out, h).Ok? && FetchKids(env, v2, raws, spans, offset, out, h).Ok?
    ensures FetchKids(env, v1, raws, spans, offset, out, h) == FetchKids(env, v2, raws, spans, offset, out, h)
    decreases h, |raws| + 1
  {
    if raws != [] {
      TailBounded(env, v1, raws, h);
      TailBounded(env, v2, raws, h);
      var c := CidFromBytes(raws[0]).value;
      FetchAgrees(env, v1, v2, c, offset, spans[0], out, h);
      var out' := FetchInto(env, v1, c, offset, spans[0], out, h).value;
      FetchKidsAgree(env, v1, v2, raws[1..], spans[1..], (offset + spans[0]) % TWO64, out', h);
    }
  }

  /** Whatever peers answer: once the manifest is the right one, a fetch fails or returns exactly the file. */
  lemma FetchIntegrity(env: Env, stored: View, peers: View, m: CID, data: bytes, h: nat)
    requires FileAt(env, stored, m, data, h) && |data| < TWO63
    requires m in peers && peers[m] == stored[m] && NoConflict(stored, peers)
    requires BoundedFile(env, peers, m, h)
    ensures FetchFile(env, peers, m, h).Ok? ==> FetchFile(env, peers, m, h) == Ok(data)
  {
    FetchReturnsFile(env, stored, m, data, h);
    if FetchFile(env, peers, m, h).Ok? {
      var root := RootOf(env, stored, m).value;
      FetchAgrees(env, stored, peers, root, 0, |data|, Zeros(|data|), h);
    }
  }

  /** Getters that return decoded blocks can only conflict through a collision of the hash. */
  lemma ConflictIsCollision(env: Env, v1: View, v2: View, x: CID)
    requires x in v1 && x in v2 && v1[x].cid == x && v2[x].cid == x && v1[x] != v2[x]
    requires Consistent(env, v1[x]) && Consistent(env, v2[x])
    ensures v1[x].bytes != v2[x].bytes && env.hash(v1[x].bytes) == env.hash(v2[x].bytes)
  {
  }
}
