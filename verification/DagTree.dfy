/** File DAGs over whatever a block getter answers: shape, content, and what they depend on. */
module DagTree {
  import opened Bytes
  import opened Block
  import opened DagCodec

  /** The answers of a BlockGetter: the block returned for each CID; a CID outside the map is an error. */
  type View = map<CID, Block>

  function Sum(spans: seq<nat>): nat {
    if spans == [] then 0 else spans[0] + Sum(spans[1..])
  }

  lemma {:induction false} SumAppend(a: seq<nat>, b: seq<nat>)
    ensures Sum(a + b) == Sum(a) + Sum(b)
  {
    if a == [] {
      assert a + b == b;
    } else {
      SumAppend(a[1..], b);
      assert (a + b)[1..] == a[1..] + b;
    }
  }

  function Kids(env: Env, view: View, c: CID): seq<CID> {
    if c in view then Links(env, view[c]) else []
  }

  /** The bytes a subtree stands for: its leaf payloads from left to right, down to depth h. */
  function Content(env: Env, view: View, c: CID, h: nat): bytes
    decreases h, 0
  {
    if c !in view then []
    else if view[c].header.typ == DATA then view[c].payload
    else if h == 0 then []
    else ContentAll(env, view, Links(env, view[c]), h - 1)
  }

  function ContentAll(env: Env, view: View, cids: seq<CID>, h: nat): bytes
    decreases h, |cids| + 1
  {
    if cids == [] then [] else Content(env, view, cids[0], h) + ContentAll(env, view, cids[1..], h)
  }

  lemma {:induction false} ContentAllAppend(env: Env, view: View, a: seq<CID>, b: seq<CID>, h: nat)
    ensures ContentAll(env, view, a + b, h) == ContentAll(env, view, a, h) + ContentAll(env, view, b, h)
  {
    if a == [] {
      assert a + b == b;
    } else {
      ContentAllAppend(env, view, a[1..], b, h);
      assert (a + b)[1..] == a[1..] + b;
    }
  }

  lemma ContentOne(env: Env, view: View, c: CID, h: nat)
    ensures ContentAll(env, view, [c], h) == Content(env, view, c, h)
  {
    assert [c][1..] == [];
    assert ContentAll(env, view, [], h) == [];
  }

  /** A node payload whose lists match, whose CIDs are readable, and whose spans add up to its size. */
  predicate NodeAddsUp(np: NodePayload) {
    && |np.cids| == |np.spans|
    && CidsFromBytes(np.cids).Ok?
    && Sum(np.spans) == np.size
  }

  /** Every block below c is present under its own CID, and all spans are exact, within h levels. */
  ghost predicate WellSpanned(env: Env, view: View, c: CID, span: nat, h: nat)
    decreases h
  {
    && c in view && view[c].cid == c
    && if view[c].header.typ == DATA then |view[c].payload| == span
       else
         && h > 0 && view[c].header.typ == NODE
         && var d := DecodeNode(env, view[c].payload);
         && d.Ok? && NodeAddsUp(d.value) && d.value.size == span
         && var kids := Links(env, view[c]);
            forall i :: 0 <= i < |kids| ==> WellSpanned(env, view, kids[i], d.value.spans[i], h - 1)
  }

  /** A list of sibling subtrees with their spans. */
  ghost predicate AllWellSpanned(env: Env, view: View, cids: seq<CID>, spans: seq<nat>, h: nat) {
    && |cids| == |spans|
    && forall i :: 0 <= i < |cids| ==> WellSpanned(env, view, cids[i], spans[i], h)
  }

  lemma TailWellSpanned(env: Env, view: View, cids: seq<CID>, spans: seq<nat>, h: nat)
    requires AllWellSpanned(env, view, cids, spans, h) && cids != []
    ensures WellSpanned(env, view, cids[0], spans[0], h)
    ensures AllWellSpanned(env, view, cids[1..], spans[1..], h)
  {
    assert forall i :: 0 <= i < |cids[1..]| ==> cids[1..][i] == cids[i + 1] && spans[1..][i] == spans[i + 1];
  }

  lemma NodeLinks(env: Env, b: Block)
    requires b.header.typ == NODE && DecodeNode(env, b.payload).Ok?
    requires CidsFromBytes(DecodeNode(env, b.payload).value.cids).Ok?
    ensures Links(env, b) == CidsFromBytes(DecodeNode(env, b.payload).value.cids).value
  {
  }

  /** A well-spanned subtree carries exactly as many bytes as its span says. */
  lemma {:induction false} ContentLength(env: Env, view: View, c: CID, span: nat, h: nat)
    requires WellSpanned(env, view, c, span, h)
    ensures |Content(env, view, c, h)| == span
    decreases h, 0
  {
    if view[c].header.typ != DATA {
      var np := DecodeNode(env, view[c].payload).value;
      ContentLengthAll(env, view, Links(env, view[c]), np.spans, h - 1);
    }
  }

  lemma {:induction false} ContentLengthAll(env: Env, view: View, cids: seq<CID>, spans: seq<nat>, h: nat)
    requires AllWellSpanned(env, view, cids, spans, h)
    ensures |ContentAll(env, view, cids, h)| == Sum(spans)
    decreases h, |cids| + 1
  {
    if cids != [] {
      ContentLength(env, view, cids[0], spans[0], h);
      ContentLengthAll(env, view, cids[1..], spans[1..], h);
    }
  }

  /** On the blocks of S, view' answers as view does, and links do not lead out of S. */
  ghost predicate Agree(env: Env, view: View, view': View, S: iset<CID>) {
    forall x :: x in S && x in view ==>
      x in view' && view'[x] == view[x] && forall k :: k in Kids(env, view, x) ==> k in S
  }

  /** Shape and content of a subtree depend only on its own blocks. */
  lemma {:induction false} AgreeKeeps(env: Env, view: View, view': View, S: iset<CID>, c: CID, span: nat, h: nat)
    requires Agree(env, view, view', S) && c in S
    requires WellSpanned(env, view, c, span, h)
    ensures WellSpanned(env, view', c, span, h)
    ensures Content(env, view', c, h) == Content(env, view, c, h)
    decreases h, 0
  {
    if view[c].header.typ != DATA {
      var np := DecodeNode(env, view[c].payload).value;
      assert forall k :: k in Kids(env, view, c) ==> k in S;
      AgreeKeepsAll(env, view, view', S, Links(env, view[c]), np.spans, h - 1);
    }
  }

  lemma {:induction false} AgreeKeepsAll(
      env: Env, view: View, view': View, S: iset<CID>, cids: seq<CID>, spans: seq<nat>, h: nat)
    requires Agree(env, view, view', S) && forall c :: c in cids ==> c in S
    requires AllWellSpanned(env, view, cids, spans, h)
    ensures AllWellSpanned(env, view', cids, spans, h)
    ensures ContentAll(env, view', cids, h) == ContentAll(env, view, cids, h)
    decreases h, |cids| + 1
  {
    if cids != [] {
      AgreeKeeps(env, view, view', S, cids[0], spans[0], h);
      AgreeKeepsAll(env, view, view', S, cids[1..], spans[1..], h);
      assert forall i :: 1 <= i < |cids| ==> cids[i] == cids[1..][i - 1] && spans[i] == spans[1..][i - 1];
    }
  }

  /** Blocks that are added later change nothing. */
  lemma GrowKeepsAll(env: Env, view: View, view': View, cids: seq<CID>, spans: seq<nat>, h: nat)
    requires forall x :: x in view ==> x in view' && view'[x] == view[x]
    requires AllWellSpanned(env, view, cids, spans, h)
    ensures AllWellSpanned(env, view', cids, spans, h)
    ensures ContentAll(env, view', cids, h) == ContentAll(env, view, cids, h)
  {
    AgreeKeepsAll(env, view, view', (iset x: CID | x.version >= 0), cids, spans, h);
  }

  // ---------------------------------------------------------------- files

  /** The manifest under m is readable and its root is a well-spanned DAG for exactly these bytes. */
  ghost predicate FileAt(env: Env, view: View, m: CID, data: bytes, h: nat) {
    && m in view && view[m].header.typ == MANIFEST
    && var d := DecodeManifest(env, view[m].payload);
    && d.Ok? && d.value.size == |data|
    && var root := CidFromBytes(d.value.root);
    && root.Ok?
    && WellSpanned(env, view, root.value, |data|, h)
    && Content(env, view, root.value, h) == data
  }

  lemma FileKept(env: Env, view: View, view': View, S: iset<CID>, m: CID, data: bytes, h: nat)
    requires FileAt(env, view, m, data, h)
    requires Agree(env, view, view', S) && m in S
    ensures FileAt(env, view', m, data, h)
  {
    var root := CidFromBytes(DecodeManifest(env, view[m].payload).value.root).value;
    assert root in Kids(env, view, m);
    AgreeKeeps(env, view, view', S, root, |data|, h);
  }
}
