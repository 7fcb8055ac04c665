/** The levels of a file DAG while it is built, and how many of them there are. */
module DagShape {
  import opened Bytes
  import opened Block
  import opened DagCodec
  import opened DagTree
  import opened DagFetch

  // ---------------------------------------------------------------- counting

  /** How many groups of k cover n items. */
  function CeilDiv(n: nat, k: nat): nat
    requires k > 0
  {
    if n == 0 then 0 else 1 + CeilDiv(if n >= k then n - k else 0, k)
  }

  function Pow(b: nat, e: nat): nat {
    if e == 0 then 1 else b * Pow(b, e - 1)
  }

  /** How many entries level h has above n leaves. */
  function LevelSize(n: nat, fanout: nat, h: nat): nat
    requires fanout > 0
  {
    if h == 0 then n else CeilDiv(LevelSize(n, fanout, h - 1), fanout)
  }

  lemma {:induction false} CeilDivGalois(n: nat, k: nat, m: nat)
    requires k > 0
    ensures CeilDiv(n, k) <= m <==> n <= k * m
  {
    if n > 0 {
      if m == 0 {
        assert k * m == 0;
      } else {
        CeilDivGalois(if n >= k then n - k else 0, k, m - 1);
        assert k * m == k * (m - 1) + k;
        assert k * (m - 1) >= 0;
      }
    }
  }

  lemma CeilDivShrinks(n: nat, k: nat)
    requires k > 1 && n > 1
    ensures 1 <= CeilDiv(n, k) < n
  {
    CeilDivGalois(n, k, n - 1);
    Doubles(k, n - 1);
  }

  lemma Doubles(k: nat, m: nat)
    requires k >= 2
    ensures k * m >= m + m
  {
    assert k * m == 2 * m + (k - 2) * m;
  }

  lemma Products(a: nat, b: nat, c: nat)
    ensures a * (b * c) == b * a * c
  {
    assert a * (b * c) == a * b * c;
  }

  lemma {:induction false} LevelSizeAtMost(n: nat, fanout: nat, h: nat, m: nat)
    requires fanout > 0
    ensures LevelSize(n, fanout, h) <= m <==> n <= Pow(fanout, h) * m
  {
    if h == 0 {
      assert Pow(fanout, 0) * m == m;
    } else {
      var p := Pow(fanout, h - 1);
      CeilDivGalois(LevelSize(n, fanout, h - 1), fanout, m);
      LevelSizeAtMost(n, fanout, h - 1, fanout * m);
      Products(p, fanout, m);
    }
  }

  /** Folding until one entry is left takes the least number of levels whose powers of the fanout cover n. */
  lemma LeastHeight(n: nat, fanout: nat, h: nat)
    requires fanout > 1 && n >= 1
    requires LevelSize(n, fanout, h) == 1 && (h > 0 ==> LevelSize(n, fanout, h - 1) > 1)
    ensures n <= Pow(fanout, h) && (h > 0 ==> Pow(fanout, h - 1) < n)
  {
    LevelSizeAtMost(n, fanout, h, 1);
    if h > 0 {
      LevelSizeAtMost(n, fanout, h - 1, 1);
    }
  }

  // ---------------------------------------------------------------- the blocks put so far

  /** The blocks that were put, under their CIDs. */
  function BuiltView(puts: seq<Block>): View {
    if puts == [] then map[]
    else
      var last := puts[|puts| - 1];
      BuiltView(puts[..|puts| - 1])[last.cid := last]
  }

  /** No two puts collide: blocks with one CID are one block. */
  predicate NoClash(puts: seq<Block>) {
    forall i, j :: 0 <= i < |puts| && 0 <= j < |puts| && puts[i].cid == puts[j].cid ==> puts[i] == puts[j]
  }

  lemma {:induction false} BuiltViewHolds(puts: seq<Block>)
    requires NoClash(puts)
    ensures forall i :: 0 <= i < |puts| ==> puts[i].cid in BuiltView(puts) && BuiltView(puts)[puts[i].cid] == puts[i]
    ensures forall c :: c in BuiltView(puts) ==> BuiltView(puts)[c] in puts && BuiltView(puts)[c].cid == c
  {
    if puts != [] {
      BuiltViewHolds(puts[..|puts| - 1]);
    }
  }

  lemma BuiltViewGrows(puts: seq<Block>, b: Block)
    requires NoClash(puts + [b])
    ensures NoClash(puts)
    ensures BuiltView(puts + [b]) == BuiltView(puts)[b.cid := b]
    ensures forall c :: c in BuiltView(puts) ==>
              c in BuiltView(puts + [b]) && BuiltView(puts + [b])[c] == BuiltView(puts)[c]
  {
    var all := puts + [b];
    assert all[..|all| - 1] == puts;
    assert forall i :: 0 <= i < |puts| ==> puts[i] == all[i];
    BuiltViewHolds(puts);
    if b.cid in BuiltView(puts) {
      var i :| 0 <= i < |puts| && puts[i] == BuiltView(puts)[b.cid];
      assert all[i].cid == all[|puts|].cid;
    }
  }

  // ---------------------------------------------------------------- levels

  datatype Entry = Entry(cid: CID, span: nat)

  function CidsOf(es: seq<Entry>): (r: seq<CID>)
    ensures |r| == |es|
  {
    seq(|es|, i requires 0 <= i < |es| => es[i].cid)
  }

  function SpansOf(es: seq<Entry>): (r: seq<nat>)
    ensures |r| == |es|
  {
    seq(|es|, i requires 0 <= i < |es| => es[i].span)
  }

  /** All leaves below c sit at depth exactly h. */
  ghost predicate Balanced(env: Env, view: View, c: CID, h: nat)
    decreases h
  {
    && c in view
    && if h == 0 then view[c].header.typ == DATA
       else
         && view[c].header.typ == NODE
         && var kids := Links(env, view[c]);
            forall i :: 0 <= i < |kids| ==> Balanced(env, view, kids[i], h - 1)
  }

  /** The blocks below c: no leaf has more than a chunk, no node more children than the fanout, and all are full but the
      last of each level, which is full only if c is to be. Headers and nodes carry version 1, nodes also the low 16
      bits of the fanout. */
  ghost predicate Even(env: Env, view: View, c: CID, h: nat, chunk: int, fanout: int, full: bool)
    decreases h
  {
    && c in view
    && if h == 0 then
         && view[c].header == Header(1, DATA, |view[c].payload|, RAW)
         && |view[c].payload| <= chunk && (full ==> |view[c].payload| == chunk)
       else
         var d, kids := DecodeNode(env, view[c].payload), Links(env, view[c]);
         && view[c].header == Header(1, NODE, |view[c].payload|, CBOR)
         && d.Ok? && d.value.v == 1 && d.value.fanout == fanout % TWO16
         && 1 <= |kids| <= fanout && (full ==> |kids| == fanout)
         && forall i :: 0 <= i < |kids| ==>
              Even(env, view, kids[i], h - 1, chunk, fanout, full || i < |kids| - 1)
  }

  lemma {:induction false} EvenGrows(
      env: Env, view: View, view': View, c: CID, h: nat, chunk: int, fanout: int, full: bool, less: bool)
    requires forall x :: x in view ==> x in view' && view'[x] == view[x]
    requires Even(env, view, c, h, chunk, fanout, full) && (less ==> full)
    ensures Even(env, view', c, h, chunk, fanout, less)
    decreases h
  {
    hide Links;
    if h > 0 {
      var kids := Links(env, view[c]);
      forall i | 0 <= i < |kids|
        ensures Even(env, view', kids[i], h - 1, chunk, fanout, less || i < |kids| - 1)
      {
        EvenGrows(env, view, view', kids[i], h - 1, chunk, fanout, full || i < |kids| - 1, less || i < |kids| - 1);
      }
    }
  }

  /** The leftmost path below c ends in a node that does not decode. */
  ghost predicate Broken(env: Env, view: View, c: CID, h: nat)
    decreases h
  {
    && c in view && view[c].header.typ == NODE
    && var d := DecodeNode(env, view[c].payload);
       d.Ok? ==>
         && h > 0 && d.value.cids != []
         && CidFromBytes(d.value.cids[0]).Ok? && Broken(env, view, CidFromBytes(d.value.cids[0]).value, h - 1)
  }

  /** Everything below c is present, and links unfold to at most h levels. */
  ghost predicate Settled(env: Env, view: View, c: CID, h: nat)
    decreases h
  {
    && c in view
    && (view[c].header.typ == NODE && DecodeNode(env, view[c].payload).Ok? ==>
          && h > 0
          && var raws := DecodeNode(env, view[c].payload).value.cids;
             forall i :: 0 <= i < |raws| && CidFromBytes(raws[i]).Ok? ==>
               Settled(env, view, CidFromBytes(raws[i]).value, h - 1))
  }

  /** So readers come to an end there, over every getter that has at least these blocks. */
  lemma {:induction false} SettledBounded(env: Env, view: View, view': View, c: CID, h: nat)
    requires forall x :: x in view ==> x in view' && view'[x] == view[x]
    requires Settled(env, view, c, h)
    ensures Settled(env, view', c, h) && Bounded(env, view', c, h)
    decreases h
  {
    if view[c].header.typ == NODE && DecodeNode(env, view[c].payload).Ok? {
      var raws := DecodeNode(env, view[c].payload).value.cids;
      forall i | 0 <= i < |raws| && CidFromBytes(raws[i]).Ok?
        ensures Settled(env, view', CidFromBytes(raws[i]).value, h - 1)
        ensures Bounded(env, view', CidFromBytes(raws[i]).value, h - 1)
      {
        SettledBounded(env, view, view', CidFromBytes(raws[i]).value, h - 1);
      }
    }
  }

  /** A complete level: balanced, exactly spanned subtrees that carry the data between them. */
  ghost predicate Level(env: Env, view: View, es: seq<Entry>, h: nat, data: bytes) {
    && AllWellSpanned(env, view, CidsOf(es), SpansOf(es), h)
    && ContentAll(env, view, CidsOf(es), h) == data
    && forall i :: 0 <= i < |es| ==> Balanced(env, view, es[i].cid, h)
  }

  lemma {:induction false} BalancedGrows(env: Env, view: View, view': View, c: CID, h: nat)
    requires forall x :: x in view ==> x in view' && view'[x] == view[x]
    requires Balanced(env, view, c, h)
    ensures Balanced(env, view', c, h)
    decreases h
  {
    if h > 0 {
      var kids := Links(env, view[c]);
      forall i | 0 <= i < |kids|
        ensures Balanced(env, view', kids[i], h - 1)
      {
        BalancedGrows(env, view, view', kids[i], h - 1);
      }
    }
  }

  lemma {:induction false} BrokenGrows(env: Env, view: View, view': View, c: CID, h: nat)
    requires forall x :: x in view ==> x in view' && view'[x] == view[x]
    requires Broken(env, view, c, h)
    ensures Broken(env, view', c, h)
    decreases h
  {
    var d := DecodeNode(env, view[c].payload);
    if d.Ok? {
      BrokenGrows(env, view, view', CidFromBytes(d.value.cids[0]).value, h - 1);
    }
  }

  lemma LevelGrows(env: Env, view: View, view': View, es: seq<Entry>, h: nat, data: bytes)
    requires forall x :: x in view ==> x in view' && view'[x] == view[x]
    requires Level(env, view, es, h, data)
    ensures Level(env, view', es, h, data)
  {
    GrowKeepsAll(env, view, view', CidsOf(es), SpansOf(es), h);
    forall i | 0 <= i < |es|
      ensures Balanced(env, view', es[i].cid, h)
    {
      BalancedGrows(env, view, view', es[i].cid, h);
    }
  }

  lemma LevelAppend(env: Env, view: View, a: seq<Entry>, b: seq<Entry>, h: nat, da: bytes, db: bytes)
    requires Level(env, view, a, h, da) && Level(env, view, b, h, db)
    ensures Level(env, view, a + b, h, da + db)
  {
    hide WellSpanned, Balanced, Content;
    assert CidsOf(a + b) == CidsOf(a) + CidsOf(b);
    assert SpansOf(a + b) == SpansOf(a) + SpansOf(b);
    ContentAllAppend(env, view, CidsOf(a), CidsOf(b), h);
    forall i | 0 <= i < |a + b|
      ensures WellSpanned(env, view, CidsOf(a + b)[i], SpansOf(a + b)[i], h) && Balanced(env, view, (a + b)[i].cid, h)
    {
      if i < |a| {
        assert WellSpanned(env, view, CidsOf(a)[i], SpansOf(a)[i], h);
      } else {
        assert WellSpanned(env, view, CidsOf(b)[i - |a|], SpansOf(b)[i - |a|], h);
      }
    }
  }

  lemma LevelSplit(env: Env, view: View, a: seq<Entry>, b: seq<Entry>, h: nat, data: bytes)
    requires Level(env, view, a + b, h, data)
    ensures Sum(SpansOf(a)) <= |data|
    ensures Level(env, view, a, h, data[..Sum(SpansOf(a))]) && Level(env, view, b, h, data[Sum(SpansOf(a))..])
  {
    var all := a + b;
    assert CidsOf(all) == CidsOf(a) + CidsOf(b);
    ContentAllAppend(env, view, CidsOf(a), CidsOf(b), h);
    forall i | 0 <= i < |a|
      ensures WellSpanned(env, view, CidsOf(a)[i], SpansOf(a)[i], h) && Balanced(env, view, a[i].cid, h)
    {
      assert WellSpanned(env, view, CidsOf(all)[i], SpansOf(all)[i], h) && all[i] == a[i];
    }
    forall i | 0 <= i < |b|
      ensures WellSpanned(env, view, CidsOf(b)[i], SpansOf(b)[i], h) && Balanced(env, view, b[i].cid, h)
    {
      assert WellSpanned(env, view, CidsOf(all)[|a| + i], SpansOf(all)[|a| + i], h) && all[|a| + i] == b[i];
    }
    ContentLengthAll(env, view, CidsOf(a), SpansOf(a), h);
  }

  /** One leaf is a level of its own. */
  lemma LeafLevel(env: Env, view: View, b: Block)
    requires b.cid in view && view[b.cid] == b && b.header.typ == DATA
    ensures Level(env, view, [Entry(b.cid, |b.payload|)], 0, b.payload)
  {
    var es := [Entry(b.cid, |b.payload|)];
    assert CidsOf(es)[1..] == [];
    assert ContentAll(env, view, CidsOf(es), 0) == b.payload;
  }

  /** A node over a level carries what the level carries, when the decoder takes that many children. */
  lemma NodeLevel(env: Env, view: View, es: seq<Entry>, h: nat, data: bytes, np: NodePayload, b: Block)
    requires Level(env, view, es, h, data)
    requires np.cids == CidBytesOf(CidsOf(es)) && np.spans == SpansOf(es) && np.size == Sum(np.spans)
    requires b.cid in view && view[b.cid] == b && b.header.typ == NODE && DecodeNode(env, b.payload) == Ok(np)
    ensures Level(env, view, [Entry(b.cid, np.size)], h + 1, data)
  {
    CidsRoundTrip(CidsOf(es));
    assert Links(env, b) == CidsOf(es);
    var up := [Entry(b.cid, np.size)];
    assert CidsOf(up)[1..] == [];
    assert ContentAll(env, view, CidsOf(up), h + 1) == data;
    forall i | 0 <= i < |es|
      ensures Balanced(env, view, Links(env, b)[i], h)
    {
      assert Balanced(env, view, es[i].cid, h);
    }
  }

  /** Fetching below a broken node fails. */
  lemma {:induction false} BrokenFails(env: Env, view: View, c: CID, k: nat, base: nat, span: nat, out: bytes, h: nat)
    requires Broken(env, view, c, k) && Bounded(env, view, c, h) && base < TWO64 && span < TWO64
    ensures FetchInto(env, view, c, base, span, out, h).Err?
    decreases k
  {
    var d := DecodeNode(env, view[c].payload);
    if d.Ok? {
      DecodedNodeFits(env, view[c].payload);
      var first := CidFromBytes(d.value.cids[0]).value;
      assert Bounded(env, view, first, h - 1);
      if |d.value.spans| == |d.value.cids| {
        BrokenFails(env, view, first, k - 1, base, d.value.spans[0], out, h - 1);
      }
    }
  }
}
