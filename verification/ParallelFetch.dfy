/** The parallel fetch: one call a subtree, started inline or as a goroutine, over one shared buffer.
    Every schedule of these calls gives what the sequential fetch gives. */
module ParallelFetch {
  import opened Bytes
  import opened Block
  import opened DagCodec
  import opened DagTree
  import opened DagFetch

  /** Subtrees up to this span are fetched inline, by the call for their parent. */
  const INLINE: nat := 65536

  /** Where a call of fetchRange stands. Collecting holds the spawned children whose results were received. */
  datatype Pc =
    | Waiting
    | Reading
    | Looping
    | Collecting(got: set<nat>)
    | Returned(ok: bool)
    | Crashed

  /** A call of fetchRange with the calls it has started. */
  datatype Task = Task(c: CID, base: nat, span: nat, pc: Pc, kids: seq<Task>)

  /** The whole program state: the call for the root and the output buffer. */
  datatype Snap = Snap(t: Task, out: bytes)

  function Slots(parallel: int): (n: nat)
    ensures n >= 1
  {
    if parallel <= 0 then 16 else parallel
  }

  function Start(c: CID, base: nat, span: nat): Task {
    Task(c, base, span, Waiting, [])
  }

  predicate Inline(t: Task) {
    t.span <= INLINE
  }

  // ---------------------------------------------------------------- steps

  function NodeAt(env: Env, view: View, c: CID): Result<NodePayload, Error> {
    if c in view then DecodeNode(env, view[c].payload) else Err(NotFound)
  }

  /** What a task does with the block it has read. */
  function HaveRead(env: Env, view: View, t: Task, out: bytes): Snap {
    if t.c !in view || view[t.c].cid != t.c then Snap(t.(pc := Returned(false)), out)
    else
      var b := view[t.c];
      if b.header.typ == DATA then
        if t.span <= |b.payload| && t.base + t.span <= |out|
        then Snap(t.(pc := Returned(true)), Splice(out, t.base, b.payload[..t.span]))
        else Snap(t.(pc := Crashed), out)
      else if b.header.typ == NODE && NodeAt(env, view, t.c).Ok? && NodeAt(env, view, t.c).value.size == t.span
      then Snap(t.(pc := Looping), out)
      else Snap(t.(pc := Returned(false)), out)
  }

  /** The loop over the children stands still while the last child runs inline. */
  predicate CanTurn(t: Task) {
    |t.kids| > 0 && Inline(t.kids[|t.kids| - 1]) ==> t.kids[|t.kids| - 1].pc.Returned?
  }

  /** One turn of the loop over the children. */
  function Turn(t: Task, np: NodePayload): Task {
    var i := |t.kids|;
    if i > 0 && Inline(t.kids[i - 1]) && t.kids[i - 1].pc == Returned(false) then t.(pc := Returned(false))
    else if i >= |np.cids| then t.(pc := Collecting({}))
    else if CidFromBytes(np.cids[i]).Err? then t.(pc := Returned(false))
    else if i >= |np.spans| then t.(pc := Crashed)
    else
      var kid := Start(CidFromBytes(np.cids[i]).value, (t.base + Sum(np.spans[..i])) % TWO64, np.spans[i]);
      t.(kids := t.kids + [kid])
  }

  /** Child k was spawned, has returned, and its result has not been received. */
  predicate Receivable(t: Task, got: set<nat>, k: nat) {
    k < |t.kids| && !Inline(t.kids[k]) && k !in got && t.kids[k].pc.Returned?
  }

  function Receive(t: Task, got: set<nat>, k: nat): Task
    requires Receivable(t, got, k)
  {
    t.(pc := if t.kids[k].pc.ok then Collecting(got + {k}) else Returned(false))
  }

  predicate AllReceived(t: Task, got: set<nat>) {
    forall k :: 0 <= k < |t.kids| && !Inline(t.kids[k]) ==> k in got
  }

  /** A step of the call itself. A block read needs a free slot to start, and can fail when reads are lossy. */
  ghost predicate Local(env: Env, view: View, free: bool, lossy: bool, s: Snap, s': Snap) {
    var t := s.t;
    match t.pc
    case Waiting => free && s' == Snap(t.(pc := Reading), s.out)
    case Reading =>
      || s' == HaveRead(env, view, t, s.out)
      || (lossy && s' == Snap(t.(pc := Returned(false)), s.out))
    case Looping =>
      && CanTurn(t) && NodeAt(env, view, t.c).Ok?
      && s' == Snap(Turn(t, NodeAt(env, view, t.c).value), s.out)
    case Collecting(got) =>
      || (AllReceived(t, got) && s' == Snap(t.(pc := Returned(true)), s.out))
      || exists k: nat :: Receivable(t, got, k) && s' == Snap(Receive(t, got, k), s.out)
    case _ => false
  }

  /** A step of the call or of any call below it; those of a call that has returned run on. */
  ghost predicate Step(env: Env, view: View, free: bool, lossy: bool, s: Snap, s': Snap)
    decreases s.t
  {
    || Local(env, view, free, lossy, s, s')
    || exists k: nat :: KidStep(env, view, free, lossy, s, s', k)
  }

  ghost predicate KidStep(env: Env, view: View, free: bool, lossy: bool, s: Snap, s': Snap, k: nat)
    decreases s.t, 0
  {
    && k < |s.t.kids| == |s'.t.kids|
    && s'.t == s.t.(kids := s.t.kids[k := s'.t.kids[k]])
    && Step(env, view, free, lossy, Snap(s.t.kids[k], s.out), Snap(s'.t.kids[k], s'.out))
  }

  /** The block reads in flight. */
  function Readers(t: Task): nat {
    (if t.pc.Reading? then 1 else 0) + Sum(KidReaders(t))
  }

  function KidReaders(t: Task): (s: seq<nat>)
    decreases t, 0
  {
    seq(|t.kids|, i requires 0 <= i < |t.kids| => Readers(t.kids[i]))
  }

  ghost predicate Next(env: Env, view: View, slots: nat, lossy: bool, s: Snap, s': Snap) {
    Step(env, view, Readers(s.t) < slots, lossy, s, s')
  }

  ghost predicate Run(env: Env, view: View, slots: nat, lossy: bool, root: CID, size: nat, ss: seq<Snap>) {
    && ss != [] && ss[0] == Snap(Start(root, 0, size), Zeros(size))
    && forall i :: 0 < i < |ss| ==> Next(env, view, slots, lossy, ss[i - 1], ss[i])
  }

  /** No call is running, neither this one nor any below it. */
  predicate Quiet(t: Task) {
    t.pc.Returned? && forall k :: 0 <= k < |t.kids| ==> Quiet(t.kids[k])
  }

  // ---------------------------------------------------------------- the invariant

  /** What a call knows about the calls it has started. */
  predicate Control(t: Task, n: nat) {
    && |t.kids| <= n
    && match t.pc
       case Waiting => t.kids == []
       case Reading => t.kids == []
       case Looping =>
         forall k :: 0 <= k < |t.kids| - 1 && Inline(t.kids[k]) ==> t.kids[k].pc == Returned(true)
       case Collecting(got) =>
         && |t.kids| == n
         && (forall k :: 0 <= k < n && Inline(t.kids[k]) ==> t.kids[k].pc == Returned(true))
         && forall k :: k in got ==> k < n && t.kids[k].pc == Returned(true)
       case Returned(ok) =>
         ok ==> |t.kids| == n && forall k :: 0 <= k < n ==> t.kids[k].pc == Returned(true)
       case Crashed => false
  }

  /** Started children are the calls for the first children of the node, each on its own part of the buffer. */
  predicate Laid(t: Task, cids: seq<CID>, spans: seq<nat>) {
    && |t.kids| <= |cids| == |spans|
    && forall k :: 0 <= k < |t.kids| ==>
         && t.kids[k].c == cids[k] && t.kids[k].span == spans[k]
         && t.kids[k].base == t.base + Sum(spans[..k])
  }

  ghost predicate Inv(env: Env, view: View, lossy: bool, t: Task, out: bytes, h: nat)
    decreases h
  {
    && WellSpanned(env, view, t.c, t.span, h)
    && t.base + t.span <= |out| < TWO63
    && (lossy || t.pc != Returned(false))
    && if view[t.c].header.typ == DATA then
         && Control(t, 0) && !t.pc.Looping? && !t.pc.Collecting?
         && (t.pc == Returned(true) ==> out[t.base..t.base + t.span] == view[t.c].payload)
       else
         var np := DecodeNode(env, view[t.c].payload).value;
         && Control(t, |np.spans|)
         && Laid(t, Links(env, view[t.c]), np.spans)
         && forall k :: 0 <= k < |t.kids| ==> Inv(env, view, lossy, t.kids[k], out, h - 1)
  }

  // ---------------------------------------------------------------- sums

  lemma {:induction false} SumUpdate(s: seq<nat>, k: nat, v: nat)
    requires k < |s|
    ensures Sum(s[k := v]) + s[k] == Sum(s) + v
  {
    if k > 0 {
      SumUpdate(s[1..], k - 1, v);
      assert s[k := v][1..] == s[1..][k - 1 := v];
    } else {
      assert s[k := v][1..] == s[1..];
    }
  }

  lemma {:induction false} SumPositive(s: seq<nat>) returns (k: nat)
    requires Sum(s) > 0
    ensures k < |s| && s[k] > 0
  {
    if s[0] > 0 {
      k := 0;
    } else {
      k := SumPositive(s[1..]);
      k := k + 1;
    }
  }

  /** Parts that follow each other do not overlap, and lie inside the whole. */
  lemma {:induction false} PrefixSums(spans: seq<nat>, j: nat, k: nat)
    requires j < k <= |spans|
    ensures Sum(spans[..j]) + spans[j] <= Sum(spans[..k]) <= Sum(spans)
  {
    assert spans[..j + 1] == spans[..j] + [spans[j]];
    SumAppend(spans[..j], [spans[j]]);
    assert spans[..k] == spans[..j + 1] + spans[j + 1..k];
    SumAppend(spans[..j + 1], spans[j + 1..k]);
    assert spans == spans[..k] + spans[k..];
    SumAppend(spans[..k], spans[k..]);
  }

  // ---------------------------------------------------------------- what a step keeps

  predicate SameRegion(out: bytes, out': bytes, base: nat, span: nat) {
    && base + span <= |out| == |out'|
    && forall i :: base <= i < base + span ==> out'[i] == out[i]
  }

  /** A step changed nothing outside out[base : base+span]. */
  predicate OnlyIn(out: bytes, out': bytes, base: nat, span: nat) {
    && base + span <= |out| == |out'|
    && forall i :: 0 <= i < |out| && !(base <= i < base + span) ==> out'[i] == out[i]
  }

  /** The links of a well-spanned node and the buffer parts of its children. */
  lemma NodeFacts(env: Env, view: View, c: CID, span: nat, h: nat)
    requires WellSpanned(env, view, c, span, h) && view[c].header.typ != DATA
    ensures h > 0 && view[c].header.typ == NODE && NodeAt(env, view, c).Ok?
    ensures var np := NodeAt(env, view, c).value;
            var cids := Links(env, view[c]);
            && np.size == span && |cids| == |np.cids| == |np.spans| && Sum(np.spans) == span
            && forall i :: 0 <= i < |cids| ==>
                 CidFromBytes(np.cids[i]) == Ok(cids[i]) && WellSpanned(env, view, cids[i], np.spans[i], h - 1)
  {
    var np := NodeAt(env, view, c).value;
    CidsPointwise(np.cids);
    NodeLinks(env, view[c]);
  }

  /** The part of child k lies inside the part of its parent, behind those of the children before it. */
  lemma KidInside(t: Task, cids: seq<CID>, spans: seq<nat>, k: nat)
    requires Laid(t, cids, spans) && k < |t.kids| && Sum(spans) == t.span
    ensures t.base <= t.kids[k].base && t.kids[k].base + t.kids[k].span <= t.base + t.span
    ensures forall j :: 0 <= j < k ==> t.kids[j].base + t.kids[j].span <= t.kids[k].base
  {
    forall j | 0 <= j < k
      ensures t.kids[j].base + t.kids[j].span <= t.kids[k].base
    {
      PrefixSums(spans, j, k);
    }
    PrefixSums(spans, k, k + 1);
  }

  /** Two children never share a byte of the buffer. */
  lemma KidsApart(t: Task, cids: seq<CID>, spans: seq<nat>, j: nat, k: nat)
    requires Laid(t, cids, spans) && Sum(spans) == t.span && j < |t.kids| && k < |t.kids| && j != k
    ensures t.kids[j].base + t.kids[j].span <= t.kids[k].base || t.kids[k].base + t.kids[k].span <= t.kids[j].base
  {
    KidInside(t, cids, spans, if j < k then k else j);
  }

  /** A call depends only on its own part of the buffer. */
  lemma {:induction false} InvFrame(env: Env, view: View, lossy: bool, t: Task, out: bytes, out': bytes, h: nat)
    requires Inv(env, view, lossy, t, out, h) && SameRegion(out, out', t.base, t.span)
    ensures Inv(env, view, lossy, t, out', h)
    decreases h
  {
    hide Control, WellSpanned, Links, DecodeNode;
    LeafFacts(env, view, t.c, t.span, h);
    if view[t.c].header.typ != DATA {
      NodeFacts(env, view, t.c, t.span, h);
      forall k | 0 <= k < |t.kids|
        ensures Inv(env, view, lossy, t.kids[k], out', h - 1)
      {
        KidInside(t, Links(env, view[t.c]), NodeAt(env, view, t.c).value.spans, k);
        InvFrame(env, view, lossy, t.kids[k], out, out', h - 1);
      }
    }
  }

  predicate SameCall(t: Task, t': Task) {
    t'.c == t.c && t'.base == t.base && t'.span == t.span
  }

  lemma SpliceOnlyIn(out: bytes, base: nat, src: bytes)
    requires base + |src| <= |out|
    ensures OnlyIn(out, Splice(out, base, src), base, |src|)
    ensures Splice(out, base, src)[base..base + |src|] == src
  {
  }

  lemma ReadKeeps(env: Env, view: View, lossy: bool, t: Task, out: bytes, h: nat)
    requires Inv(env, view, lossy, t, out, h) && t.pc.Reading?
    ensures var s' := HaveRead(env, view, t, out);
            && Inv(env, view, lossy, s'.t, s'.out, h) && SameCall(t, s'.t) && OnlyIn(out, s'.out, t.base, t.span)
            && s'.t.pc != Returned(false)
  {
    hide DecodeNode, Links, WellSpanned, Splice;
    LeafFacts(env, view, t.c, t.span, h);
    var b := view[t.c];
    if b.header.typ == DATA {
      assert b.payload[..t.span] == b.payload;
      SpliceOnlyIn(out, t.base, b.payload);
    } else {
      NodeFacts(env, view, t.c, t.span, h);
    }
  }

  lemma LeafFacts(env: Env, view: View, c: CID, span: nat, h: nat)
    requires WellSpanned(env, view, c, span, h)
    ensures c in view && view[c].cid == c && (view[c].header.typ == DATA ==> |view[c].payload| == span)
  {
  }

  lemma StartKeeps(env: Env, view: View, lossy: bool, c: CID, base: nat, span: nat, out: bytes, h: nat)
    requires WellSpanned(env, view, c, span, h) && base + span <= |out| < TWO63
    ensures Inv(env, view, lossy, Start(c, base, span), out, h)
  {
    hide DecodeNode, Links, WellSpanned;
    LeafFacts(env, view, c, span, h);
    if view[c].header.typ != DATA {
      NodeFacts(env, view, c, span, h);
    }
  }

  /** A turn of the loop, given that every CID of the node is readable. */
  lemma TurnShape(t: Task, np: NodePayload, cids: seq<CID>)
    requires Control(t, |np.spans|) && t.pc.Looping? && CanTurn(t)
    requires |cids| == |np.cids| == |np.spans|
    requires forall i :: 0 <= i < |cids| ==> CidFromBytes(np.cids[i]) == Ok(cids[i])
    requires Laid(t, cids, np.spans) && t.base + Sum(np.spans) < TWO64
    ensures var t' := Turn(t, np);
            && SameCall(t, t') && Control(t', |np.spans|) && Laid(t', cids, np.spans)
            && (t'.pc.Looping? || t'.pc.Collecting? || t'.pc == Returned(false))
            && var i := |t.kids|;
               if t'.pc.Looping?
               then i < |cids| && t'.kids == t.kids + [Start(cids[i], t.base + Sum(np.spans[..i]), np.spans[i])]
               else t'.kids == t.kids
                    && (t'.pc.Collecting? ==> t'.pc.got == {} && i == |cids|)
                    && (t'.pc == Returned(false) ==> i > 0 && t.kids[i - 1].pc == Returned(false))
  {
    TurnControl(t, np, cids);
    var i := |t.kids|;
    assert i <= |cids|;
    hide CidFromBytes, Control, CanTurn, Sum, Laid;
    if i < |cids| {
      PrefixSums(np.spans, i, |np.spans|);
      assert (t.base + Sum(np.spans[..i])) % TWO64 == t.base + Sum(np.spans[..i]);
      LaidOneMore(t, cids, np.spans);
    }
    if Turn(t, np).kids == t.kids {
      LaidSame(t, Turn(t, np), cids, np.spans);
    }
  }

  lemma LaidSame(t: Task, t': Task, cids: seq<CID>, spans: seq<nat>)
    requires Laid(t, cids, spans) && t'.kids == t.kids && t'.base == t.base
    ensures Laid(t', cids, spans)
  {
  }

  lemma LaidOneMore(t: Task, cids: seq<CID>, spans: seq<nat>)
    requires Laid(t, cids, spans) && |t.kids| < |cids|
    ensures var i := |t.kids|;
            Laid(t.(kids := t.kids + [Start(cids[i], t.base + Sum(spans[..i]), spans[i])]), cids, spans)
  {
  }

  lemma TurnControl(t: Task, np: NodePayload, cids: seq<CID>)
    requires Control(t, |np.spans|) && t.pc.Looping? && CanTurn(t)
    requires |cids| == |np.cids| == |np.spans|
    requires forall i :: 0 <= i < |cids| ==> CidFromBytes(np.cids[i]) == Ok(cids[i])
    ensures Control(Turn(t, np), |np.spans|)
  {
    hide CidFromBytes, Sum;
  }

  lemma TurnKeeps(env: Env, view: View, lossy: bool, t: Task, out: bytes, h: nat)
    requires Inv(env, view, lossy, t, out, h) && t.pc.Looping? && CanTurn(t) && NodeAt(env, view, t.c).Ok?
    ensures Inv(env, view, lossy, Turn(t, NodeAt(env, view, t.c).value), out, h)
    ensures SameCall(t, Turn(t, NodeAt(env, view, t.c).value))
  {
    hide DecodeNode, Links, WellSpanned, CidFromBytes, Turn, Control, Laid, Sum, CanTurn;
    LeafFacts(env, view, t.c, t.span, h);
    NodeFacts(env, view, t.c, t.span, h);
    var np := NodeAt(env, view, t.c).value;
    var cids := Links(env, view[t.c]);
    TurnShape(t, np, cids);
    var i := |t.kids|;
    if i < |cids| {
      PrefixSums(np.spans, i, |np.spans|);
      StartKeeps(env, view, lossy, cids[i], t.base + Sum(np.spans[..i]), np.spans[i], out, h - 1);
    }
  }

  lemma LocalKeeps(env: Env, view: View, free: bool, lossy: bool, s: Snap, s': Snap, h: nat)
    requires Inv(env, view, lossy, s.t, s.out, h) && Local(env, view, free, lossy, s, s')
    ensures Inv(env, view, lossy, s'.t, s'.out, h) && SameCall(s.t, s'.t) && OnlyIn(s.out, s'.out, s.t.base, s.t.span)
    ensures !s.t.pc.Returned?
  {
    hide DecodeNode, Links, WellSpanned, Turn, HaveRead;
    var t := s.t;
    match t.pc
    case Reading => ReadKeeps(env, view, lossy, t, s.out, h);
    case Looping =>
      TurnKeeps(env, view, lossy, t, s.out, h);
    case Collecting(got) => CollectKeeps(env, view, lossy, t, got, s'.t, s.out, h);
    case Waiting =>
  }

  lemma CollectKeeps(
      env: Env, view: View, lossy: bool, t: Task, got: set<nat>, t': Task, out: bytes, h: nat)
    requires Inv(env, view, lossy, t, out, h) && t.pc == Collecting(got)
    requires || (AllReceived(t, got) && t' == t.(pc := Returned(true)))
             || exists k: nat :: Receivable(t, got, k) && t' == Receive(t, got, k)
    ensures Inv(env, view, lossy, t', out, h) && SameCall(t, t')
  {
    hide DecodeNode, Links, WellSpanned, Control, AllReceived, Receive;
    LeafFacts(env, view, t.c, t.span, h);
    if view[t.c].header.typ != DATA {
      NodeFacts(env, view, t.c, t.span, h);
      var n := |NodeAt(env, view, t.c).value.spans|;
      if k: nat :| Receivable(t, got, k) && t' == Receive(t, got, k) {
        assert lossy || t.kids[k].pc != Returned(false);
        ReceiveControl(t, got, k, n);
      } else {
        AllControl(t, got, n);
      }
    }
  }

  lemma ReceiveControl(t: Task, got: set<nat>, k: nat, n: nat)
    requires Control(t, n) && t.pc == Collecting(got) && Receivable(t, got, k)
    ensures Control(Receive(t, got, k), n) && Receive(t, got, k).kids == t.kids && SameCall(t, Receive(t, got, k))
    ensures Receive(t, got, k).pc == Returned(false) ==> t.kids[k].pc == Returned(false)
    ensures Receive(t, got, k).pc != Returned(true)
  {
  }

  lemma AllControl(t: Task, got: set<nat>, n: nat)
    requires Control(t, n) && t.pc == Collecting(got) && AllReceived(t, got)
    ensures Control(t.(pc := Returned(true)), n)
  {
  }

  lemma KidKept(t: Task, t': Task, k: nat, n: nat)
    requires Control(t, n) && k < |t.kids| == |t'.kids| && t' == t.(kids := t.kids[k := t'.kids[k]])
    requires t.kids[k].pc.Returned? ==> t'.kids[k].pc == t.kids[k].pc
    requires SameCall(t.kids[k], t'.kids[k])
    ensures Control(t', n)
  {
  }

  lemma {:induction false} StepKeeps(env: Env, view: View, free: bool, lossy: bool, s: Snap, s': Snap, h: nat)
    requires Inv(env, view, lossy, s.t, s.out, h) && Step(env, view, free, lossy, s, s')
    ensures Inv(env, view, lossy, s'.t, s'.out, h)
    ensures SameCall(s.t, s'.t) && OnlyIn(s.out, s'.out, s.t.base, s.t.span)
    ensures s.t.pc.Returned? ==> s'.t.pc == s.t.pc
    decreases h
  {
    hide DecodeNode, Links, WellSpanned, Local, Control;
    if Local(env, view, free, lossy, s, s') {
      LocalKeeps(env, view, free, lossy, s, s', h);
    } else {
      var k: nat :| KidStep(env, view, free, lossy, s, s', k);
      KidStepKeeps(env, view, free, lossy, s, s', k, h);
    }
  }

  lemma {:induction false} KidStepKeeps(
      env: Env, view: View, free: bool, lossy: bool, s: Snap, s': Snap, k: nat, h: nat)
    requires Inv(env, view, lossy, s.t, s.out, h) && KidStep(env, view, free, lossy, s, s', k)
    ensures Inv(env, view, lossy, s'.t, s'.out, h)
    ensures SameCall(s.t, s'.t) && OnlyIn(s.out, s'.out, s.t.base, s.t.span) && s'.t.pc == s.t.pc
    decreases h, 0
  {
    hide DecodeNode, Links, WellSpanned, Local, Control, Step, Sum;
    var t, t' := s.t, s'.t;
    LeafFacts(env, view, t.c, t.span, h);
    if view[t.c].header.typ == DATA {
      NoKids(t);
    } else {
      NodeFacts(env, view, t.c, t.span, h);
      var np := NodeAt(env, view, t.c).value;
      StepKeeps(env, view, free, lossy, Snap(t.kids[k], s.out), Snap(t'.kids[k], s'.out), h - 1);
      KidInside(t, Links(env, view[t.c]), np.spans, k);
      KidKept(t, t', k, |np.spans|);
      forall j | 0 <= j < |t.kids| && j != k
        ensures Inv(env, view, lossy, t.kids[j], s'.out, h - 1)
      {
        KidsApart(t, Links(env, view[t.c]), np.spans, j, k);
        KidInside(t, Links(env, view[t.c]), np.spans, j);
        InvFrame(env, view, lossy, t.kids[j], s.out, s'.out, h - 1);
      }
    }
  }

  lemma NoKids(t: Task)
    requires Control(t, 0)
    ensures t.kids == []
  {
  }

  // ---------------------------------------------------------------- what a finished call has done

  /** A call that returned without error has put its content in place, and nothing below it is running. */
  lemma {:induction false} Finished(env: Env, view: View, lossy: bool, t: Task, out: bytes, h: nat)
    requires Inv(env, view, lossy, t, out, h) && t.pc == Returned(true)
    ensures out[t.base..t.base + t.span] == Content(env, view, t.c, h)
    ensures Quiet(t)
    decreases h
  {
    hide DecodeNode, Links, WellSpanned, Content, ContentAll, Sum;
    LeafFacts(env, view, t.c, t.span, h);
    if view[t.c].header.typ == DATA {
      LeafContent(env, view, t.c, h);
    } else {
      NodeFacts(env, view, t.c, t.span, h);
      var cids, spans := Links(env, view[t.c]), NodeAt(env, view, t.c).value.spans;
      forall k | 0 <= k < |t.kids|
        ensures InPlace(env, view, t.kids[k], cids[k], out, h - 1) && Quiet(t.kids[k])
      {
        Finished(env, view, lossy, t.kids[k], out, h - 1);
      }
      PartsJoin(env, view, t, out, cids, spans, h - 1, |cids|);
      assert cids[..|cids|] == cids && spans[..|cids|] == spans;
      NodeContent(env, view, t.c, h);
    }
  }

  lemma LeafContent(env: Env, view: View, c: CID, h: nat)
    requires c in view && view[c].header.typ == DATA
    ensures Content(env, view, c, h) == view[c].payload
  {
  }

  lemma NodeContent(env: Env, view: View, c: CID, h: nat)
    requires c in view && view[c].header.typ != DATA && h > 0
    ensures Content(env, view, c, h) == ContentAll(env, view, Links(env, view[c]), h - 1)
  {
  }

  lemma {:induction false} PartsJoin(
      env: Env, view: View, t: Task, out: bytes, cids: seq<CID>, spans: seq<nat>, h: nat, n: nat)
    requires Laid(t, cids, spans) && |t.kids| == |cids| && n <= |cids| && t.base + Sum(spans) <= |out|
    requires forall k :: 0 <= k < |cids| ==> InPlace(env, view, t.kids[k], cids[k], out, h)
    ensures t.base + Sum(spans[..n]) <= |out|
    ensures out[t.base..t.base + Sum(spans[..n])] == ContentAll(env, view, cids[..n], h)
  {
    hide Content, ContentAll, InPlace, Sum;
    if n == 0 {
      NoContent(env, view, h);
      assert cids[..0] == [] && spans[..0] == [];
    } else {
      PartsJoin(env, view, t, out, cids, spans, h, n - 1);
      assert spans[..n] == spans[..n - 1] + [spans[n - 1]];
      PrefixSum(spans, n);
      assert cids[..n] == cids[..n - 1] + [cids[n - 1]];
      ContentAllAppend(env, view, cids[..n - 1], [cids[n - 1]], h);
      ContentOne(env, view, cids[n - 1], h);
      SliceJoin(env, view, t.kids[n - 1], cids[n - 1], out, h, t.base);
    }
  }

  /** The buffer holds the content of a subtree in the part of its call. */
  predicate InPlace(env: Env, view: View, t: Task, c: CID, out: bytes, h: nat) {
    t.base + t.span <= |out| && out[t.base..t.base + t.span] == Content(env, view, c, h)
  }

  lemma SliceJoin(env: Env, view: View, t: Task, c: CID, out: bytes, h: nat, base: nat)
    requires InPlace(env, view, t, c, out, h) && base <= t.base
    ensures t.base + t.span <= |out|
    ensures out[base..t.base] + Content(env, view, c, h) == out[base..t.base + t.span]
  {
  }

  lemma NoContent(env: Env, view: View, h: nat)
    ensures ContentAll(env, view, [], h) == [] && Sum([]) == 0
  {
  }

  lemma PrefixSum(spans: seq<nat>, n: nat)
    requires 0 < n <= |spans|
    ensures Sum(spans[..n]) == Sum(spans[..n - 1]) + spans[n - 1]
  {
    assert spans[..n] == spans[..n - 1] + [spans[n - 1]];
    SumAppend(spans[..n - 1], [spans[n - 1]]);
  }

  // ---------------------------------------------------------------- reads in flight

  /** A step starts at most one block read, and only with a free slot. */
  lemma {:induction false} StepReaders(env: Env, view: View, free: bool, lossy: bool, s: Snap, s': Snap)
    requires Step(env, view, free, lossy, s, s')
    ensures Readers(s'.t) <= Readers(s.t) + if free then 1 else 0
    decreases s.t
  {
    hide DecodeNode, Sum, Local;
    if Local(env, view, free, lossy, s, s') {
      LocalReaders(env, view, free, lossy, s, s');
    } else {
      var k: nat :| KidStep(env, view, free, lossy, s, s', k);
      var t, t' := s.t, s'.t;
      StepReaders(env, view, free, lossy, Snap(t.kids[k], s.out), Snap(t'.kids[k], s'.out));
      assert KidReaders(t') == KidReaders(t)[k := Readers(t'.kids[k])];
      SumUpdate(KidReaders(t), k, Readers(t'.kids[k]));
    }
  }

  lemma LocalReaders(env: Env, view: View, free: bool, lossy: bool, s: Snap, s': Snap)
    requires Local(env, view, free, lossy, s, s')
    ensures Readers(s'.t) <= Readers(s.t) + if free then 1 else 0
  {
    hide DecodeNode, Sum, HaveRead, Turn;
    var t := s.t;
    match t.pc
    case Reading =>
      ReadSameKids(env, view, t, s.out);
      assert KidReaders(s'.t) == KidReaders(t);
    case Looping => TurnReaders(t, NodeAt(env, view, t.c).value);
    case Waiting =>
      assert KidReaders(s'.t) == KidReaders(t);
    case Collecting(got) =>
      assert KidReaders(s'.t) == KidReaders(t);
  }

  lemma ReadSameKids(env: Env, view: View, t: Task, out: bytes)
    ensures HaveRead(env, view, t, out).t.kids == t.kids
    ensures !HaveRead(env, view, t, out).t.pc.Reading?
  {
  }

  lemma TurnReaders(t: Task, np: NodePayload)
    requires t.pc.Looping?
    ensures Readers(Turn(t, np)) == Readers(t)
  {
    hide Sum;
    var t' := Turn(t, np);
    if t'.kids == t.kids {
      assert KidReaders(t') == KidReaders(t);
    } else {
      var kid := t'.kids[|t.kids|];
      NoReaders(kid);
      assert KidReaders(t') == KidReaders(t) + [0];
      SumAppend(KidReaders(t), [0]);
      SumZero();
    }
  }

  lemma NoReaders(t: Task)
    requires t.kids == [] && !t.pc.Reading?
    ensures Readers(t) == 0
  {
  }

  lemma SumZero()
    ensures Sum([0]) == 0
  {
  }

  // ---------------------------------------------------------------- no deadlock

  ghost predicate CanStep(env: Env, view: View, free: bool, lossy: bool, t: Task, out: bytes) {
    exists s' :: Step(env, view, free, lossy, Snap(t, out), s')
  }

  lemma LocalCanStep(env: Env, view: View, free: bool, lossy: bool, t: Task, out: bytes, s': Snap)
    requires Local(env, view, free, lossy, Snap(t, out), s')
    ensures CanStep(env, view, free, lossy, t, out)
  {
    hide Local;
    assert Step(env, view, free, lossy, Snap(t, out), s');
  }

  lemma KidCanStep(env: Env, view: View, free: bool, lossy: bool, t: Task, out: bytes, k: nat)
    requires k < |t.kids| && CanStep(env, view, free, lossy, t.kids[k], out)
    ensures CanStep(env, view, free, lossy, t, out)
  {
    hide Local;
    var s' :| Step(env, view, free, lossy, Snap(t.kids[k], out), s');
    var s'' := Snap(t.(kids := t.kids[k := s'.t]), s'.out);
    assert t.kids[k := s'.t][k] == s'.t;
    assert KidStep(env, view, free, lossy, Snap(t, out), s'', k);
    assert Step(env, view, free, lossy, Snap(t, out), s'');
  }

  /** While any call has not returned, some call can take a step, as long as a slot is free or a read is in flight. */
  lemma {:induction false} NoDeadlock(
      env: Env, view: View, free: bool, lossy: bool, t: Task, out: bytes, h: nat)
    requires Inv(env, view, lossy, t, out, h) && !Quiet(t)
    requires free || Readers(t) > 0
    ensures CanStep(env, view, free, lossy, t, out)
    decreases h
  {
    hide DecodeNode, Links, WellSpanned, Control, Laid, Local, Step, CanStep, HaveRead;
    LeafFacts(env, view, t.c, t.span, h);
    if t.pc.Reading? {
      ReadCanStep(env, view, free, lossy, t, out);
    } else if Readers(t) > 0 {
      var k := BusyKid(t);
      BelowCanStep(env, view, free, lossy, t, out, h, k);
    } else if exists k: nat :: k < |t.kids| && !Quiet(t.kids[k]) {
      var k: nat :| k < |t.kids| && !Quiet(t.kids[k]);
      BelowCanStep(env, view, free, lossy, t, out, h, k);
    } else {
      QuietKidsStep(env, view, lossy, t, out, h);
    }
  }

  lemma {:induction false} BelowCanStep(
      env: Env, view: View, free: bool, lossy: bool, t: Task, out: bytes, h: nat, k: nat)
    requires Inv(env, view, lossy, t, out, h) && k < |t.kids| && !Quiet(t.kids[k])
    requires free || Readers(t.kids[k]) > 0
    ensures CanStep(env, view, free, lossy, t, out)
    decreases h, 0
  {
    hide DecodeNode, Links, WellSpanned, Laid, CanStep;
    LeafFacts(env, view, t.c, t.span, h);
    if view[t.c].header.typ != DATA {
      NodeFacts(env, view, t.c, t.span, h);
      NoDeadlock(env, view, free, lossy, t.kids[k], out, h - 1);
      KidCanStep(env, view, free, lossy, t, out, k);
    }
  }

  lemma BusyKid(t: Task) returns (k: nat)
    requires Readers(t) > 0 && !t.pc.Reading?
    ensures k < |t.kids| && Readers(t.kids[k]) > 0 && !Quiet(t.kids[k])
  {
    k := SumPositive(KidReaders(t));
    if Quiet(t.kids[k]) {
      QuietReaders(t.kids[k]);
    }
  }

  /** Calls that have returned read nothing. */
  lemma {:induction false} QuietReaders(t: Task)
    requires Quiet(t)
    ensures Readers(t) == 0
    decreases t
  {
    if Readers(t) > 0 {
      var k := SumPositive(KidReaders(t));
      QuietReaders(t.kids[k]);
    }
  }

  lemma ReadCanStep(env: Env, view: View, free: bool, lossy: bool, t: Task, out: bytes)
    requires t.pc.Reading?
    ensures CanStep(env, view, free, lossy, t, out)
  {
    hide HaveRead;
    LocalCanStep(env, view, free, lossy, t, out, HaveRead(env, view, t, out));
  }

  lemma QuietKidsStep(env: Env, view: View, lossy: bool, t: Task, out: bytes, h: nat)
    requires Inv(env, view, lossy, t, out, h) && !Quiet(t) && !t.pc.Reading?
    requires forall k :: 0 <= k < |t.kids| ==> Quiet(t.kids[k])
    ensures CanStep(env, view, true, lossy, t, out)
  {
    hide DecodeNode, Links, WellSpanned, Laid, CanStep, Turn;
    LeafFacts(env, view, t.c, t.span, h);
    match t.pc
    case Waiting =>
      LocalCanStep(env, view, true, lossy, t, out, Snap(t.(pc := Reading), out));
    case Looping =>
      NodeFacts(env, view, t.c, t.span, h);
      LocalCanStep(env, view, true, lossy, t, out, Snap(Turn(t, NodeAt(env, view, t.c).value), out));
    case Collecting(got) =>
      if AllReceived(t, got) {
        LocalCanStep(env, view, true, lossy, t, out, Snap(t.(pc := Returned(true)), out));
      } else {
        var k: nat :| k < |t.kids| && !Inline(t.kids[k]) && k !in got;
        assert Receivable(t, got, k);
        LocalCanStep(env, view, true, lossy, t, out, Snap(Receive(t, got, k), out));
      }
    case _ =>
  }

  // ---------------------------------------------------------------- how long a run can be

  /** The number of steps that fetching the subtree c takes at most. */
  ghost function Work(env: Env, view: View, c: CID, h: nat): (n: nat)
    ensures n >= 2
    decreases h, 0
  {
    if c !in view || view[c].header.typ == DATA || h == 0 then 2
    else 4 + 2 * |Links(env, view[c])| + WorkAll(env, view, Links(env, view[c]), h - 1)
  }

  ghost function WorkAll(env: Env, view: View, cids: seq<CID>, h: nat): nat
    decreases h, |cids| + 1
  {
    if cids == [] then 0 else Work(env, view, cids[0], h) + WorkAll(env, view, cids[1..], h)
  }

  function Lower(h: nat): nat {
    if h == 0 then 0 else h - 1
  }

  function LinkCount(env: Env, view: View, c: CID): nat {
    if c in view then |Links(env, view[c])| else 0
  }

  /** The children of c from the n-th on, which are still to be started. */
  function LinksFrom(env: Env, view: View, c: CID, n: nat): seq<CID> {
    if c in view && n <= |Links(env, view[c])| then Links(env, view[c])[n..] else []
  }

  /** The steps a call itself still takes at most, with those of the calls it has still to start. */
  ghost function Own(env: Env, view: View, t: Task, h: nat): nat {
    match t.pc
    case Waiting => Work(env, view, t.c, h)
    case Reading => Work(env, view, t.c, h) - 1
    case Looping =>
      2 + 2 * LinkCount(env, view, t.c) - Min(|t.kids|, LinkCount(env, view, t.c))
      + WorkAll(env, view, LinksFrom(env, view, t.c, |t.kids|), Lower(h))
    case Collecting(got) => 1 + |Unreceived(|t.kids|, got)|
    case _ => 0
  }

  /** The steps a call and those below it still take at most. */
  ghost function Left(env: Env, view: View, t: Task, h: nat): nat
    decreases t
  {
    Own(env, view, t, h) + Sum(KidsLeft(env, view, t, h))
  }

  ghost function KidsLeft(env: Env, view: View, t: Task, h: nat): (s: seq<nat>)
    decreases t, 0
  {
    seq(|t.kids|, i requires 0 <= i < |t.kids| => Left(env, view, t.kids[i], Lower(h)))
  }

  function Unreceived(n: nat, got: set<nat>): set<nat> {
    set k: nat | k < n && k !in got
  }

  lemma {:induction false} StepLeft(env: Env, view: View, free: bool, lossy: bool, s: Snap, s': Snap, h: nat)
    requires Inv(env, view, lossy, s.t, s.out, h) && Step(env, view, free, lossy, s, s')
    ensures Left(env, view, s'.t, h) < Left(env, view, s.t, h)
    decreases h
  {
    hide DecodeNode, Links, WellSpanned, Local, Control, Left, Laid;
    if Local(env, view, free, lossy, s, s') {
      LocalLeft(env, view, free, lossy, s, s', h);
    } else {
      var k: nat :| KidStep(env, view, free, lossy, s, s', k);
      LeafFacts(env, view, s.t.c, s.t.span, h);
      if view[s.t.c].header.typ == DATA {
        NoKids(s.t);
      } else {
        NodeFacts(env, view, s.t.c, s.t.span, h);
        StepLeft(env, view, free, lossy, Snap(s.t.kids[k], s.out), Snap(s'.t.kids[k], s'.out), h - 1);
        KidLeft(env, view, s.t, s'.t, k, h);
      }
    }
  }

  lemma KidLeft(env: Env, view: View, t: Task, t': Task, k: nat, h: nat)
    requires k < |t.kids| == |t'.kids| && t' == t.(kids := t.kids[k := t'.kids[k]])
    requires Left(env, view, t'.kids[k], Lower(h)) < Left(env, view, t.kids[k], Lower(h))
    ensures Left(env, view, t', h) < Left(env, view, t, h)
  {
    hide Sum, Own;
    OwnSame(env, view, t, t', h);
    assert KidsLeft(env, view, t', h) == KidsLeft(env, view, t, h)[k := Left(env, view, t'.kids[k], Lower(h))];
    SumUpdate(KidsLeft(env, view, t, h), k, Left(env, view, t'.kids[k], Lower(h)));
  }

  lemma OwnSame(env: Env, view: View, t: Task, t': Task, h: nat)
    requires t'.pc == t.pc && t'.c == t.c && |t'.kids| == |t.kids|
    ensures Own(env, view, t', h) == Own(env, view, t, h)
  {
  }

  lemma SameKidsLeft(env: Env, view: View, t: Task, t': Task, h: nat)
    requires t'.kids == t.kids && Own(env, view, t', h) < Own(env, view, t, h)
    ensures Left(env, view, t', h) < Left(env, view, t, h)
  {
    hide Sum, Own;
    assert KidsLeft(env, view, t', h) == KidsLeft(env, view, t, h);
  }

  lemma LocalLeft(env: Env, view: View, free: bool, lossy: bool, s: Snap, s': Snap, h: nat)
    requires Inv(env, view, lossy, s.t, s.out, h) && Local(env, view, free, lossy, s, s')
    ensures Left(env, view, s'.t, h) < Left(env, view, s.t, h)
  {
    hide Inv, DecodeNode, Links, WellSpanned, Work, WorkAll, Turn, HaveRead, Laid, Sum, Left;
    var t := s.t;
    match t.pc
    case Waiting => SameKidsLeft(env, view, t, s'.t, h);
    case Reading => ReadLeft(env, view, lossy, t, s.out, h);
    case Looping => TurnLeft(env, view, lossy, t, s.out, h);
    case Collecting(got) =>
      if k: nat :| Receivable(t, got, k) && s'.t == Receive(t, got, k) {
        OneReceived(|t.kids|, got, k);
      }
      SameKidsLeft(env, view, t, s'.t, h);
  }

  lemma OneReceived(n: nat, got: set<nat>, k: nat)
    requires k < n && k !in got
    ensures |Unreceived(n, got + {k})| < |Unreceived(n, got)|
  {
    assert Unreceived(n, got) == Unreceived(n, got + {k}) + {k};
  }

  lemma NodeWork(env: Env, view: View, c: CID, h: nat)
    requires c in view && view[c].header.typ != DATA && h > 0
    ensures Work(env, view, c, h)
         == 4 + 2 * LinkCount(env, view, c) + WorkAll(env, view, LinksFrom(env, view, c, 0), h - 1)
  {
  }

  lemma ReadLeft(env: Env, view: View, lossy: bool, t: Task, out: bytes, h: nat)
    requires Inv(env, view, lossy, t, out, h) && t.pc.Reading?
    ensures Left(env, view, HaveRead(env, view, t, out).t, h) < Left(env, view, t, h)
    ensures Left(env, view, t.(pc := Returned(false)), h) < Left(env, view, t, h)
  {
    hide DecodeNode, Links, WellSpanned, Work, WorkAll, Laid, Sum, Splice, Left;
    LeafFacts(env, view, t.c, t.span, h);
    if view[t.c].header.typ != DATA {
      NodeFacts(env, view, t.c, t.span, h);
      NodeWork(env, view, t.c, h);
    }
    SameKidsLeft(env, view, t, HaveRead(env, view, t, out).t, h);
    SameKidsLeft(env, view, t, t.(pc := Returned(false)), h);
  }

  lemma TurnLeft(env: Env, view: View, lossy: bool, t: Task, out: bytes, h: nat)
    requires Inv(env, view, lossy, t, out, h) && t.pc.Looping? && CanTurn(t) && NodeAt(env, view, t.c).Ok?
    ensures Left(env, view, Turn(t, NodeAt(env, view, t.c).value), h) < Left(env, view, t, h)
  {
    hide DecodeNode, Links, WellSpanned, Work, WorkAll, Laid, Sum, Turn, CidFromBytes, CanTurn, Control, Left;
    LeafFacts(env, view, t.c, t.span, h);
    NodeFacts(env, view, t.c, t.span, h);
    var np := NodeAt(env, view, t.c).value;
    var cids := Links(env, view[t.c]);
    LaidCount(t, cids, np.spans);
    TurnShape(t, np, cids);
    var t', i := Turn(t, np), |t.kids|;
    if t'.pc.Looping? {
      WorkSplit(env, view, t.c, i, h - 1);
      KidAdded(env, view, t, t', Start(cids[i], t.base + Sum(np.spans[..i]), np.spans[i]), h);
    } else {
      if t'.pc.Collecting? {
        NothingReceived(i);
      }
      SameKidsLeft(env, view, t, t', h);
    }
  }

  lemma KidAdded(env: Env, view: View, t: Task, t': Task, kid: Task, h: nat)
    requires t'.kids == t.kids + [kid] && kid.pc.Waiting? && kid.kids == [] && h > 0
    requires Own(env, view, t', h) + Work(env, view, kid.c, h - 1) < Own(env, view, t, h)
    ensures Left(env, view, t', h) < Left(env, view, t, h)
  {
    hide Work, Sum;
    NoKidsLeft(env, view, kid, h - 1);
    assert KidsLeft(env, view, t', h) == KidsLeft(env, view, t, h) + [Left(env, view, kid, h - 1)];
    SumAppend(KidsLeft(env, view, t, h), [Left(env, view, kid, h - 1)]);
    SumOne(Left(env, view, kid, h - 1));
  }

  lemma NoKidsLeft(env: Env, view: View, t: Task, h: nat)
    requires t.kids == []
    ensures Sum(KidsLeft(env, view, t, h)) == 0
  {
  }

  lemma LaidCount(t: Task, cids: seq<CID>, spans: seq<nat>)
    requires Laid(t, cids, spans)
    ensures |t.kids| <= |cids|
  {
  }

  lemma SumOne(n: nat)
    ensures Sum([n]) == n
  {
    assert [n][1..] == [];
  }

  lemma WorkSplit(env: Env, view: View, c: CID, i: nat, h: nat)
    requires c in view && i < |Links(env, view[c])|
    ensures WorkAll(env, view, LinksFrom(env, view, c, i), h)
         == Work(env, view, Links(env, view[c])[i], h) + WorkAll(env, view, LinksFrom(env, view, c, i + 1), h)
  {
    hide Links, Work;
    var rest := LinksFrom(env, view, c, i);
    assert rest[1..] == LinksFrom(env, view, c, i + 1) && rest[0] == Links(env, view[c])[i];
  }

  lemma {:induction false} NothingReceived(n: nat)
    ensures |Unreceived(n, {})| == n
  {
    if n > 0 {
      NothingReceived(n - 1);
      assert Unreceived(n, {}) == Unreceived(n - 1, {}) + {n - 1};
    }
  }

  // ---------------------------------------------------------------- every schedule

  /** Everything that holds of a state that a run has reached. */
  ghost predicate Reached(
      env: Env, view: View, slots: nat, lossy: bool, root: CID, data: bytes, h: nat, s: Snap) {
    && Inv(env, view, lossy, s.t, s.out, h) && SameCall(s.t, Start(root, 0, |data|)) && |s.out| == |data|
    && Readers(s.t) <= slots
  }

  lemma NextKeeps(
      env: Env, view: View, slots: nat, lossy: bool, root: CID, data: bytes, h: nat, s: Snap, s': Snap)
    requires Reached(env, view, slots, lossy, root, data, h, s) && Next(env, view, slots, lossy, s, s')
    ensures Reached(env, view, slots, lossy, root, data, h, s')
    ensures Left(env, view, s'.t, h) < Left(env, view, s.t, h)
  {
    hide Inv, Step, Readers, Left;
    var free := Readers(s.t) < slots;
    StepKeeps(env, view, free, lossy, s, s', h);
    StepReaders(env, view, free, lossy, s, s');
    StepLeft(env, view, free, lossy, s, s', h);
    if !free {
      SlotsHold(env, view, lossy, s, s', slots);
    }
  }

  lemma SlotsHold(env: Env, view: View, lossy: bool, s: Snap, s': Snap, slots: nat)
    requires Step(env, view, false, lossy, s, s') && Readers(s.t) <= slots
    ensures Readers(s'.t) <= slots
  {
    StepReaders(env, view, false, lossy, s, s');
  }

  lemma {:induction false} RunReaches(
      env: Env, view: View, m: CID, slots: nat, lossy: bool, data: bytes, h: nat, ss: seq<Snap>, i: nat)
    requires FileAt(env, view, m, data, h) && |data| < TWO63 && slots >= 1 && i < |ss|
    requires RootOf(env, view, m).Some? && Run(env, view, slots, lossy, RootOf(env, view, m).value, |data|, ss)
    ensures Reached(env, view, slots, lossy, RootOf(env, view, m).value, data, h, ss[i])
    ensures i + Left(env, view, ss[i].t, h) <= Work(env, view, RootOf(env, view, m).value, h)
  {
    hide Inv, Next, Left, Work, Readers, Content;
    var root := RootOf(env, view, m).value;
    if i == 0 {
      StartKeeps(env, view, lossy, root, 0, |data|, Zeros(|data|), h);
      StartCosts(env, view, root, |data|, h);
    } else {
      RunReaches(env, view, m, slots, lossy, data, h, ss, i - 1);
      NextKeeps(env, view, slots, lossy, root, data, h, ss[i - 1], ss[i]);
    }
  }

  lemma StartCosts(env: Env, view: View, root: CID, size: nat, h: nat)
    ensures Left(env, view, Start(root, 0, size), h) == Work(env, view, root, h)
    ensures Readers(Start(root, 0, size)) == 0
  {
  }

  /** Neither this call nor any below it has panicked. */
  predicate NoPanic(t: Task) {
    !t.pc.Crashed? && forall k :: 0 <= k < |t.kids| ==> NoPanic(t.kids[k])
  }

  lemma {:induction false} NeverPanics(env: Env, view: View, lossy: bool, t: Task, out: bytes, h: nat)
    requires Inv(env, view, lossy, t, out, h)
    ensures NoPanic(t)
    decreases h
  {
    hide DecodeNode, Links, WellSpanned, Laid;
    LeafFacts(env, view, t.c, t.span, h);
    if view[t.c].header.typ != DATA {
      NodeFacts(env, view, t.c, t.span, h);
      forall k | 0 <= k < |t.kids|
        ensures NoPanic(t.kids[k])
      {
        NeverPanics(env, view, lossy, t.kids[k], out, h - 1);
      }
    }
  }

  /** Every schedule over a stored file, reads failing or not when lossy: no panic, at most slots
      reads in flight, a bounded number of steps, no deadlock; a success has the bytes of the file, which are those
      the sequential fetch returns, and leaves nothing running; and without failing reads it ends in success. */
  lemma EverySchedule(
      env: Env, view: View, m: CID, parallel: int, lossy: bool, data: bytes, h: nat, ss: seq<Snap>)
    requires FileAt(env, view, m, data, h) && |data| < TWO63 && RootOf(env, view, m).Some?
    requires Run(env, view, Slots(parallel), lossy, RootOf(env, view, m).value, |data|, ss)
    ensures var s := ss[|ss| - 1];
            && Readers(s.t) <= (if parallel > 0 then parallel else 16) && NoPanic(s.t)
            && |ss| <= 1 + Work(env, view, RootOf(env, view, m).value, h)
            && (!Quiet(s.t) ==> exists s' :: Next(env, view, Slots(parallel), lossy, s, s'))
            && (s.t.pc == Returned(true) ==> s.out == data && Quiet(s.t))
            && (Quiet(s.t) && !lossy ==> s.t.pc == Returned(true))
    ensures BoundedFile(env, view, m, h) && FetchFile(env, view, m, h) == Ok(data)
  {
    hide Step, Left, Work, Content, FetchFile, WellSpanned, Links, DecodeNode, Control, Laid, Sum;
    var root, s, slots := RootOf(env, view, m).value, ss[|ss| - 1], Slots(parallel);
    FetchReturnsFile(env, view, m, data, h);
    RunReaches(env, view, m, slots, lossy, data, h, ss, |ss| - 1);
    NeverPanics(env, view, lossy, s.t, s.out, h);
    if !Quiet(s.t) {
      NoDeadlock(env, view, Readers(s.t) < slots, lossy, s.t, s.out, h);
      var s' :| Step(env, view, Readers(s.t) < slots, lossy, s, s');
      assert Next(env, view, slots, lossy, s, s');
    }
    if s.t.pc == Returned(true) {
      Finished(env, view, lossy, s.t, s.out, h);
      assert s.out[0..|data|] == s.out;
    }
  }
}
