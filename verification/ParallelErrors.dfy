/** When the parallel fetch returns an error: exactly which trees make sure that nothing is left running then. */
module ParallelErrors {
  import opened Bytes
  import opened Block
  import opened DagCodec
  import opened DagTree
  import opened DagFetch
  import opened ParallelFetch

  /** At every node only the last child can be fetched by a goroutine. */
  ghost predicate TailOnly(env: Env, view: View, c: CID, h: nat)
    decreases h
  {
    c in view && view[c].header.typ == NODE && NodeAt(env, view, c).Ok? && h > 0 ==>
      var np := NodeAt(env, view, c).value;
      && (forall i :: 0 <= i < |np.spans| - 1 ==> np.spans[i] <= INLINE)
      && forall k :: k in Links(env, view[c]) ==> TailOnly(env, view, k, h - 1)
  }

  /** A run of a call for c that may start anywhere in any buffer; block reads may fail. */
  ghost predicate Chain(env: Env, view: View, slots: nat, lossy: bool, ss: seq<Snap>) {
    ss != [] && forall i :: 0 < i < |ss| ==> Next(env, view, slots, lossy, ss[i - 1], ss[i])
  }

  ghost predicate CallRun(env: Env, view: View, slots: nat, c: CID, base: nat, span: nat, out: bytes, ss: seq<Snap>) {
    Chain(env, view, slots, true, ss) && ss[0] == Snap(Start(c, base, span), out)
  }

  function Last(ss: seq<Snap>): Snap
    requires ss != []
  {
    ss[|ss| - 1]
  }

  /** Whenever the call has returned, with or without an error, nothing below it is running. */
  ghost predicate AlwaysQuiet(env: Env, view: View, c: CID, span: nat) {
    forall slots: nat, base: nat, out: bytes, ss: seq<Snap> ::
      slots >= 1 && base + span <= |out| < TWO63 && CallRun(env, view, slots, c, base, span, out, ss)
      && Last(ss).t.pc.Returned? ==>
        Quiet(Last(ss).t)
  }

  // ---------------------------------------------------------------- such trees are quiet

  /** No call has returned before all calls it started. */
  predicate Calm(t: Task) {
    && (t.pc.Returned? ==> forall k :: 0 <= k < |t.kids| ==> t.kids[k].pc.Returned?)
    && forall k :: 0 <= k < |t.kids| ==> Calm(t.kids[k])
  }

  lemma {:induction false} CalmQuiet(t: Task)
    requires Calm(t) && t.pc.Returned?
    ensures Quiet(t)
    decreases t
  {
    forall k | 0 <= k < |t.kids|
      ensures Quiet(t.kids[k])
    {
      CalmQuiet(t.kids[k]);
    }
  }

  lemma CalmTurn(t: Task, np: NodePayload, cids: seq<CID>)
    requires Calm(t) && Control(t, |np.spans|) && t.pc.Looping? && CanTurn(t)
    requires |cids| == |np.cids| == |np.spans| && Laid(t, cids, np.spans) && t.base + Sum(np.spans) < TWO64
    requires forall i :: 0 <= i < |cids| ==> CidFromBytes(np.cids[i]) == Ok(cids[i])
    requires forall i :: 0 <= i < |np.spans| - 1 ==> np.spans[i] <= INLINE
    ensures Calm(Turn(t, np))
  {
    hide Turn, Sum, CanTurn, Calm;
    InlineReturned(t, cids, np.spans);
    TurnShape(t, np, cids);
    hide Control, Laid, CidFromBytes;
    var i := |t.kids|;
    if Turn(t, np).pc.Looping? {
      CalmMore(t, Start(cids[i], t.base + Sum(np.spans[..i]), np.spans[i]), Turn(t, np));
    } else {
      CalmSame(t, Turn(t, np));
    }
  }

  lemma CalmMore(t: Task, kid: Task, t': Task)
    requires Calm(t) && kid.pc.Waiting? && kid.kids == [] && t'.kids == t.kids + [kid] && !t'.pc.Returned?
    ensures Calm(t')
  {
  }

  lemma CalmSame(t: Task, t': Task)
    requires Calm(t) && t'.kids == t.kids
    requires t'.pc.Returned? ==> forall k :: 0 <= k < |t.kids| ==> t.kids[k].pc.Returned?
    ensures Calm(t')
  {
  }

  lemma InlineReturned(t: Task, cids: seq<CID>, spans: seq<nat>)
    requires Control(t, |spans|) && t.pc.Looping? && Laid(t, cids, spans)
    requires forall i :: 0 <= i < |spans| - 1 ==> spans[i] <= INLINE
    ensures forall k :: 0 <= k < |t.kids| - 1 ==> t.kids[k].pc.Returned?
  {
    hide Sum;
    forall k | 0 <= k < |t.kids| - 1
      ensures Inline(t.kids[k])
    {
    }
  }

  lemma CalmCollect(t: Task, got: set<nat>, t': Task, spans: seq<nat>)
    requires Calm(t) && Control(t, |spans|) && t.pc == Collecting(got)
    requires forall k :: 0 <= k < |t.kids| ==> t.kids[k].span == spans[k]
    requires forall i :: 0 <= i < |spans| - 1 ==> spans[i] <= INLINE
    requires || (AllReceived(t, got) && t' == t.(pc := Returned(true)))
             || exists k: nat :: Receivable(t, got, k) && t' == Receive(t, got, k)
    ensures Calm(t')
  {
    if k: nat :| Receivable(t, got, k) && t' == Receive(t, got, k) {
      assert k == |spans| - 1;
    } else {
      AllControl(t, got, |spans|);
    }
  }

  lemma CalmLocal(env: Env, view: View, free: bool, lossy: bool, s: Snap, s': Snap, h: nat)
    requires Inv(env, view, lossy, s.t, s.out, h) && Local(env, view, free, lossy, s, s')
    requires TailOnly(env, view, s.t.c, h) && Calm(s.t)
    ensures Calm(s'.t)
  {
    hide DecodeNode, Links, WellSpanned, Turn, HaveRead, Receive, AllReceived;
    var t := s.t;
    LeafFacts(env, view, t.c, t.span, h);
    if view[t.c].header.typ != DATA {
      NodeFacts(env, view, t.c, t.span, h);
    }
    match t.pc
    case Waiting =>
    case Reading => ReadSameKids(env, view, t, s.out);
    case Looping => CalmTurn(t, NodeAt(env, view, t.c).value, Links(env, view[t.c]));
    case Collecting(got) => CalmCollect(t, got, s'.t, NodeAt(env, view, t.c).value.spans);
    case _ =>
  }

  lemma {:induction false} CalmStep(env: Env, view: View, free: bool, lossy: bool, s: Snap, s': Snap, h: nat)
    requires Inv(env, view, lossy, s.t, s.out, h) && Step(env, view, free, lossy, s, s')
    requires TailOnly(env, view, s.t.c, h) && Calm(s.t)
    ensures Calm(s'.t)
    decreases h
  {
    hide DecodeNode, Links, WellSpanned, Local, Control, Laid;
    if Local(env, view, free, lossy, s, s') {
      CalmLocal(env, view, free, lossy, s, s', h);
    } else {
      var k: nat :| KidStep(env, view, free, lossy, s, s', k);
      LeafFacts(env, view, s.t.c, s.t.span, h);
      if view[s.t.c].header.typ == DATA {
        NoKids(s.t);
      } else {
        NodeFacts(env, view, s.t.c, s.t.span, h);
        KidIsLink(env, view, s.t, k);
        StepKeeps(env, view, free, lossy, Snap(s.t.kids[k], s.out), Snap(s'.t.kids[k], s'.out), h - 1);
        CalmStep(env, view, free, lossy, Snap(s.t.kids[k], s.out), Snap(s'.t.kids[k], s'.out), h - 1);
      }
    }
  }

  lemma KidIsLink(env: Env, view: View, t: Task, k: nat)
    requires t.c in view && NodeAt(env, view, t.c).Ok? && k < |t.kids|
    requires Laid(t, Links(env, view[t.c]), NodeAt(env, view, t.c).value.spans)
    ensures t.kids[k].c in Links(env, view[t.c])
  {
  }

  lemma {:induction false} CalmRun(
      env: Env, view: View, slots: nat, c: CID, base: nat, span: nat, out: bytes, h: nat, ss: seq<Snap>, i: nat)
    requires WellSpanned(env, view, c, span, h) && TailOnly(env, view, c, h) && base + span <= |out| < TWO63
    requires CallRun(env, view, slots, c, base, span, out, ss) && i < |ss|
    ensures Inv(env, view, true, ss[i].t, ss[i].out, h) && ss[i].t.c == c && Calm(ss[i].t)
  {
    hide Inv, Step, WellSpanned, TailOnly, Readers;
    if i == 0 {
      StartKeeps(env, view, true, c, base, span, out, h);
    } else {
      CalmRun(env, view, slots, c, base, span, out, h, ss, i - 1);
      assert Next(env, view, slots, true, ss[i - 1], ss[i]);
      hide Calm;
      StepKeeps(env, view, Readers(ss[i - 1].t) < slots, true, ss[i - 1], ss[i], h);
      CalmStep(env, view, Readers(ss[i - 1].t) < slots, true, ss[i - 1], ss[i], h);
    }
  }

  // ---------------------------------------------------------------- chains

  lemma Extended(env: Env, view: View, slots: nat, lossy: bool, ss: seq<Snap>, s: Snap)
    requires Chain(env, view, slots, lossy, ss) && Next(env, view, slots, lossy, Last(ss), s)
    ensures Chain(env, view, slots, lossy, ss + [s])
  {
    hide Next;
    var more := ss + [s];
    forall i | 0 < i < |more|
      ensures Next(env, view, slots, lossy, more[i - 1], more[i])
    {
      if i < |ss| {
        assert more[i - 1] == ss[i - 1] && more[i] == ss[i];
      }
    }
  }

  lemma Joined(env: Env, view: View, slots: nat, lossy: bool, a: seq<Snap>, b: seq<Snap>)
    requires Chain(env, view, slots, lossy, a) && Chain(env, view, slots, lossy, b) && Last(a) == b[0]
    ensures Chain(env, view, slots, lossy, a + b[1..])
    ensures Last(a + b[1..]) == Last(b)
  {
    hide Next;
    var all := a + b[1..];
    forall i | 0 < i < |all|
      ensures Next(env, view, slots, lossy, all[i - 1], all[i])
    {
      if i < |a| {
        assert all[i - 1] == a[i - 1] && all[i] == a[i];
      } else {
        var j := i - |a| + 1;
        assert all[i] == b[j] && all[i - 1] == b[j - 1];
      }
    }
  }

  lemma {:induction false} Lossier(env: Env, view: View, free: bool, s: Snap, s': Snap)
    requires Step(env, view, free, false, s, s')
    ensures Step(env, view, free, true, s, s')
    decreases s.t
  {
    hide HaveRead, Turn, Receive, AllReceived;
    if !Local(env, view, free, false, s, s') {
      var k: nat :| KidStep(env, view, free, false, s, s', k);
      Lossier(env, view, free, Snap(s.t.kids[k], s.out), Snap(s'.t.kids[k], s'.out));
      assert KidStep(env, view, free, true, s, s', k);
    }
  }

  lemma LossierChain(env: Env, view: View, slots: nat, ss: seq<Snap>)
    requires Chain(env, view, slots, false, ss)
    ensures Chain(env, view, slots, true, ss)
  {
    hide Step, Readers;
    forall i | 0 < i < |ss|
      ensures Next(env, view, slots, true, ss[i - 1], ss[i])
    {
      assert Next(env, view, slots, false, ss[i - 1], ss[i]);
      Lossier(env, view, Readers(ss[i - 1].t) < slots, ss[i - 1], ss[i]);
    }
  }

  /** Without failing reads every call can be run to its end. */
  lemma {:induction false} RunToEnd(env: Env, view: View, slots: nat, t: Task, out: bytes, h: nat)
    returns (ss: seq<Snap>)
    requires Inv(env, view, false, t, out, h) && slots >= 1
    ensures Chain(env, view, slots, false, ss) && ss[0] == Snap(t, out)
    ensures Quiet(Last(ss).t) && Last(ss).t.pc == Returned(true)
    ensures SameCall(t, Last(ss).t) && |Last(ss).out| == |out|
    decreases Left(env, view, t, h)
  {
    if Quiet(t) {
      ss := [Snap(t, out)];
    } else {
      hide Inv, Step, Left, Readers;
      var free := Readers(t) < slots;
      NoDeadlock(env, view, free, false, t, out, h);
      var s' :| Step(env, view, free, false, Snap(t, out), s');
      StepKeeps(env, view, free, false, Snap(t, out), s', h);
      StepLeft(env, view, free, false, Snap(t, out), s', h);
      var rest := RunToEnd(env, view, slots, s'.t, s'.out, h);
      var first := [Snap(t, out), s'];
      assert Next(env, view, slots, false, first[0], first[1]);
      Joined(env, view, slots, false, first, rest);
      ss := first + rest[1..];
    }
  }

  // ---------------------------------------------------------------- running one child

  lemma {:induction false} SumSingle(s: seq<nat>, k: nat)
    requires k < |s| && forall j :: 0 <= j < |s| && j != k ==> s[j] == 0
    ensures Sum(s) == s[k]
  {
    if k > 0 {
      assert forall j :: 0 <= j < |s[1..]| ==> s[1..][j] == s[j + 1];
      SumSingle(s[1..], k - 1);
    } else {
      SumNothing(s[1..]);
    }
  }

  lemma {:induction false} SumNothing(s: seq<nat>)
    requires forall j :: 0 <= j < |s| ==> s[j] == 0
    ensures Sum(s) == 0
  {
    if s != [] {
      SumNothing(s[1..]);
    }
  }

  /** Only child k may read. */
  predicate OnlyReads(t: Task, k: nat) {
    k < |t.kids| && !t.pc.Reading? && forall j :: 0 <= j < |t.kids| && j != k ==> Readers(t.kids[j]) == 0
  }

  function With(t: Task, k: nat, kid: Task): Task
    requires k < |t.kids|
  {
    t.(kids := t.kids[k := kid])
  }

  lemma KidReads(t: Task, k: nat, kid: Task)
    requires OnlyReads(t, k)
    ensures Readers(With(t, k, kid)) == Readers(kid)
  {
    var t' := With(t, k, kid);
    SumSingle(KidReaders(t'), k);
  }

  /** A step of the only child that reads is a step of the whole. */
  lemma KidNext(env: Env, view: View, slots: nat, lossy: bool, t: Task, k: nat, s: Snap, s': Snap)
    requires OnlyReads(t, k) && Next(env, view, slots, lossy, s, s')
    ensures Next(env, view, slots, lossy, Snap(With(t, k, s.t), s.out), Snap(With(t, k, s'.t), s'.out))
  {
    KidReads(t, k, s.t);
    hide Readers, Local;
    var a, b := Snap(With(t, k, s.t), s.out), Snap(With(t, k, s'.t), s'.out);
    assert a.t.kids[k] == s.t && b.t.kids[k] == s'.t;
    assert b.t == a.t.(kids := a.t.kids[k := s'.t]);
    assert KidStep(env, view, Readers(a.t) < slots, lossy, a, b, k);
  }

  function Lift(t: Task, k: nat, sub: seq<Snap>): (ss: seq<Snap>)
    requires k < |t.kids|
    ensures |ss| == |sub|
  {
    seq(|sub|, i requires 0 <= i < |sub| => Snap(With(t, k, sub[i].t), sub[i].out))
  }

  lemma LiftChain(env: Env, view: View, slots: nat, lossy: bool, t: Task, k: nat, sub: seq<Snap>)
    requires OnlyReads(t, k) && Chain(env, view, slots, lossy, sub) && sub[0].t == t.kids[k]
    ensures Chain(env, view, slots, lossy, Lift(t, k, sub))
    ensures Lift(t, k, sub)[0] == Snap(t, sub[0].out)
  {
    assert With(t, k, t.kids[k]) == t;
    hide Next, OnlyReads;
    var ss := Lift(t, k, sub);
    forall i | 0 < i < |ss|
      ensures Next(env, view, slots, lossy, ss[i - 1], ss[i])
    {
      KidNext(env, view, slots, lossy, t, k, sub[i - 1], sub[i]);
    }
  }

  // ---------------------------------------------------------------- reaching a child

  function KidCall(np: NodePayload, cids: seq<CID>, base: nat, k: nat): Task
    requires k < |cids| == |np.spans|
  {
    Start(cids[k], base + Sum(np.spans[..k]), np.spans[k])
  }

  /** The loop has started i children: the inline ones have returned, the goroutines have yet to run. */
  predicate Arrived(np: NodePayload, cids: seq<CID>, c: CID, base: nat, span: nat, i: nat, t: Task) {
    && |t.kids| == i <= |cids| == |np.spans| && SameCall(t, Start(c, base, span)) && t.pc.Looping?
    && forall k :: 0 <= k < i ==> KidArrived(t.kids[k], KidCall(np, cids, base, k))
  }

  predicate KidArrived(kid: Task, call: Task) {
    SameCall(kid, call) && if Inline(call) then Quiet(kid) && kid.pc == Returned(true) else kid == call
  }

  lemma ArrivedReads(np: NodePayload, cids: seq<CID>, c: CID, base: nat, span: nat, i: nat, t: Task)
    requires Arrived(np, cids, c, base, span, i, t)
    ensures forall k :: 0 <= k < i ==> Readers(t.kids[k]) == 0
    ensures i > 0 && Inline(t.kids[i - 1]) ==> t.kids[i - 1].pc == Returned(true)
    ensures CanTurn(t)
  {
    forall k | 0 <= k < i
      ensures Readers(t.kids[k]) == 0
    {
      if Inline(KidCall(np, cids, base, k)) {
        QuietReaders(t.kids[k]);
      } else {
        NoReaders(t.kids[k]);
      }
    }
  }

  ghost predicate IsNode(env: Env, view: View, c: CID, span: nat, h: nat) {
    WellSpanned(env, view, c, span, h) && view[c].header.typ != DATA
  }

  lemma LocalNext(env: Env, view: View, slots: nat, s: Snap, s': Snap)
    requires Local(env, view, Readers(s.t) < slots, true, s, s')
    ensures Next(env, view, slots, true, s, s')
  {
    hide Local, Readers;
  }

  /** A turn of the loop starts the next child. */
  lemma TurnStarts(np: NodePayload, cids: seq<CID>, c: CID, base: nat, span: nat, i: nat, t: Task)
    requires Arrived(np, cids, c, base, span, i, t) && i < |cids| == |np.cids|
    requires Sum(np.spans) == span && base + span < TWO63 && CidFromBytes(np.cids[i]) == Ok(cids[i])
    ensures CanTurn(t) && Turn(t, np) == t.(kids := t.kids + [KidCall(np, cids, base, i)])
    ensures base + Sum(np.spans[..i]) + np.spans[i] <= base + span
  {
    ArrivedReads(np, cids, c, base, span, i, t);
    hide CidFromBytes, Sum, CanTurn;
    PrefixSums(np.spans, i, |np.spans|);
  }

  lemma StartChild(
      env: Env, view: View, slots: nat, c: CID, base: nat, span: nat, h: nat, i: nat, t: Task, out: bytes)
    requires IsNode(env, view, c, span, h) && base + span < TWO63 && i < |Links(env, view[c])|
    requires |Links(env, view[c])| == |NodeAt(env, view, c).value.spans|
    requires Arrived(NodeAt(env, view, c).value, Links(env, view[c]), c, base, span, i, t)
    ensures var kid := KidCall(NodeAt(env, view, c).value, Links(env, view[c]), base, i);
            && Next(env, view, slots, true, Snap(t, out), Snap(t.(kids := t.kids + [kid]), out))
            && kid.base + kid.span <= base + span && WellSpanned(env, view, kid.c, kid.span, h - 1)
            && OnlyReads(t.(kids := t.kids + [kid]), i)
  {
    NodeFacts(env, view, c, span, h);
    var np, cids := NodeAt(env, view, c).value, Links(env, view[c]);
    hide WellSpanned, Links, DecodeNode, CidFromBytes, Turn, Readers, Sum, CanTurn;
    TurnStarts(np, cids, c, base, span, i, t);
    ArrivedReads(np, cids, c, base, span, i, t);
    LocalNext(env, view, slots, Snap(t, out), Snap(Turn(t, np), out));
  }

  /** The run that reaches child i. */
  lemma {:induction false} ReachChild(
      env: Env, view: View, slots: nat, c: CID, base: nat, span: nat, out: bytes, h: nat, i: nat)
    returns (ss: seq<Snap>)
    requires IsNode(env, view, c, span, h) && base + span <= |out| < TWO63 && slots >= 1
    requires |Links(env, view[c])| == |NodeAt(env, view, c).value.spans| && i <= |Links(env, view[c])|
    ensures CallRun(env, view, slots, c, base, span, out, ss) && |Last(ss).out| == |out|
    ensures Arrived(NodeAt(env, view, c).value, Links(env, view[c]), c, base, span, i, Last(ss).t)
    decreases i
  {
    var np, cids := NodeAt(env, view, c).value, Links(env, view[c]);
    if i == 0 {
      ss := ReadNode(env, view, slots, c, base, span, out, h);
    } else {
      hide IsNode, Links, DecodeNode, Chain, Next, NodeAt, Readers, Sum, WellSpanned, OnlyReads, Quiet;
      ss := ReachChild(env, view, slots, c, base, span, out, h, i - 1);
      var t := Last(ss).t;
      var kid := KidCall(np, cids, base, i - 1);
      StartChild(env, view, slots, c, base, span, h, i - 1, t, Last(ss).out);
      var started := t.(kids := t.kids + [kid]);
      Extended(env, view, slots, true, ss, Snap(started, Last(ss).out));
      ss := ss + [Snap(started, Last(ss).out)];
      if Inline(kid) {
        ss := FinishChild(env, view, slots, ss, started, i - 1, h);
        ArrivedMore(np, cids, c, base, span, i - 1, t, Last(ss).t);
      }
    }
  }

  lemma ArrivedMore(np: NodePayload, cids: seq<CID>, c: CID, base: nat, span: nat, i: nat, t: Task, t': Task)
    requires Arrived(np, cids, c, base, span, i, t) && i < |cids|
    requires |t'.kids| == i + 1 && t' == t.(kids := t.kids + [t'.kids[i]])
    requires KidArrived(t'.kids[i], KidCall(np, cids, base, i))
    ensures Arrived(np, cids, c, base, span, i + 1, t')
  {
    hide KidArrived, KidCall;
  }

  lemma ReadNode(env: Env, view: View, slots: nat, c: CID, base: nat, span: nat, out: bytes, h: nat)
    returns (ss: seq<Snap>)
    requires IsNode(env, view, c, span, h) && base + span <= |out| < TWO63 && slots >= 1
    requires |Links(env, view[c])| == |NodeAt(env, view, c).value.spans|
    ensures CallRun(env, view, slots, c, base, span, out, ss) && Last(ss).out == out
    ensures Arrived(NodeAt(env, view, c).value, Links(env, view[c]), c, base, span, 0, Last(ss).t)
  {
    NodeFacts(env, view, c, span, h);
    LeafFacts(env, view, c, span, h);
    hide DecodeNode, Links, WellSpanned;
    var s0 := Snap(Start(c, base, span), out);
    var s1, s2 := Snap(s0.t.(pc := Reading), out), Snap(s0.t.(pc := Looping), out);
    NoReaders(s0.t);
    LocalNext(env, view, slots, s0, s1);
    LocalNext(env, view, slots, s1, s2);
    ss := [s0, s1, s2];
  }

  /** The child just started runs to its end. */
  lemma FinishChild(env: Env, view: View, slots: nat, before: seq<Snap>, t: Task, k: nat, h: nat)
    returns (ss: seq<Snap>)
    requires Chain(env, view, slots, true, before) && Last(before).t == t && OnlyReads(t, k) && slots >= 1 && h > 0
    requires t.kids[k] == Start(t.kids[k].c, t.kids[k].base, t.kids[k].span)
    requires WellSpanned(env, view, t.kids[k].c, t.kids[k].span, h - 1)
    requires t.kids[k].base + t.kids[k].span <= |Last(before).out| < TWO63
    ensures Chain(env, view, slots, true, ss) && ss[0] == before[0] && |Last(ss).out| == |Last(before).out|
    ensures k < |Last(ss).t.kids| && Last(ss).t == With(t, k, Last(ss).t.kids[k])
    ensures var kid := Last(ss).t.kids[k];
            SameCall(kid, t.kids[k]) && Quiet(kid) && kid.pc == Returned(true)
  {
    var kid, out := t.kids[k], Last(before).out;
    StartKeeps(env, view, false, kid.c, kid.base, kid.span, out, h - 1);
    hide Inv, WellSpanned, Next, Readers;
    var sub := RunToEnd(env, view, slots, kid, out, h - 1);
    LossierChain(env, view, slots, sub);
    LiftChain(env, view, slots, true, t, k, sub);
    var lifted := Lift(t, k, sub);
    Joined(env, view, slots, true, before, lifted);
    ss := before + lifted[1..];
  }

  // ---------------------------------------------------------------- an error that leaves a goroutine behind

  /** A child whose error the node returns without waiting for the others: it is inline or the last. */
  ghost predicate Returns(np: NodePayload, i: nat) {
    i < |np.spans| && (np.spans[i] <= INLINE || i == |np.spans| - 1)
  }

  /** The read of a block fails. */
  lemma ReadFails(env: Env, view: View, slots: nat, t: Task, out: bytes) returns (ss: seq<Snap>)
    requires t == Start(t.c, t.base, t.span) && slots >= 1
    ensures Chain(env, view, slots, true, ss) && ss[0] == Snap(t, out)
    ensures Last(ss) == Snap(t.(pc := Returned(false)), out)
  {
    hide HaveRead;
    var s0, s1, s2 := Snap(t, out), Snap(t.(pc := Reading), out), Snap(t.(pc := Returned(false)), out);
    NoReaders(t);
    LocalNext(env, view, slots, s0, s1);
    LocalNext(env, view, slots, s1, s2);
    ss := [s0, s1, s2];
  }

  /** The node returns the error of child i, the last one it has started. */
  lemma PassError(
      env: Env, view: View, slots: nat, before: seq<Snap>, np: NodePayload, i: nat)
    returns (ss: seq<Snap>)
    requires Chain(env, view, slots, true, before)
    requires var t := Last(before).t;
             && NodeAt(env, view, t.c) == Ok(np) && t.pc.Looping? && |t.kids| == i + 1 <= |np.spans| == |np.cids|
             && t.kids[i].pc == Returned(false) && t.kids[i].span == np.spans[i] && Returns(np, i)
    ensures Chain(env, view, slots, true, ss) && ss[0] == before[0]
    ensures Last(ss).t == Last(before).t.(pc := Returned(false))
  {
    hide DecodeNode, Readers, Next, CidFromBytes, Sum;
    var s := Last(before);
    var s1 := Snap(Turn(s.t, np), s.out);
    LocalNext(env, view, slots, s, s1);
    Extended(env, view, slots, true, before, s1);
    ss := before + [s1];
    if !Inline(s.t.kids[i]) {
      assert Receivable(s1.t, {}, i);
      var s2 := Snap(Receive(s1.t, {}, i), s.out);
      LocalNext(env, view, slots, s1, s2);
      Extended(env, view, slots, true, ss, s2);
      ss := ss + [s2];
    }
  }

  /** A node, and the child whose error it is to return. */
  lemma FailingChild(env: Env, view: View, c: CID, span: nat, h: nat) returns (i: nat, deep: bool, j: nat)
    requires WellSpanned(env, view, c, span, h) && !TailOnly(env, view, c, h)
    ensures IsNode(env, view, c, span, h) && NodeAt(env, view, c).Ok? && h > 0
    ensures var np, cids := NodeAt(env, view, c).value, Links(env, view[c]);
            && |cids| == |np.cids| == |np.spans| && Returns(np, i)
            && if deep then !TailOnly(env, view, cids[i], h - 1) else j < i && np.spans[j] > INLINE
  {
    NodeFacts(env, view, c, span, h);
    var np, cids := NodeAt(env, view, c).value, Links(env, view[c]);
    hide WellSpanned, Links, DecodeNode, CidFromBytes;
    if j': nat :| j' < |np.spans| - 1 && np.spans[j'] > INLINE {
      i, deep, j := |np.spans| - 1, false, j';
    } else {
      var k :| k in cids && !TailOnly(env, view, k, h - 1);
      var i': nat :| i' < |cids| && cids[i'] == k;
      i, deep, j := i', true, 0;
    }
  }

  /** Over every other tree there is a run in which a read fails and the call returns that error, while a goroutine
      below it has yet to run. */
  lemma {:induction false} ErrorChain(
      env: Env, view: View, slots: nat, c: CID, base: nat, span: nat, out: bytes, h: nat)
    returns (ss: seq<Snap>)
    requires WellSpanned(env, view, c, span, h) && !TailOnly(env, view, c, h)
    requires base + span <= |out| < TWO63 && slots >= 1
    ensures CallRun(env, view, slots, c, base, span, out, ss)
    ensures Last(ss).t.pc == Returned(false) && !Quiet(Last(ss).t) && SameCall(Start(c, base, span), Last(ss).t)
    decreases h
  {
    var i, deep, j := FailingChild(env, view, c, span, h);
    var np, cids := NodeAt(env, view, c).value, Links(env, view[c]);
    hide IsNode, Links, DecodeNode, Next, NodeAt, Readers, Sum, WellSpanned, TailOnly, Arrived, OnlyReads;
    ss := ReachChild(env, view, slots, c, base, span, out, h, i);
    var t, here := Last(ss).t, Last(ss).out;
    StartChild(env, view, slots, c, base, span, h, i, t, here);
    var kid := KidCall(np, cids, base, i);
    var started := t.(kids := t.kids + [kid]);
    Extended(env, view, slots, true, ss, Snap(started, here));
    var sub: seq<Snap>;
    if deep {
      sub := ErrorChain(env, view, slots, kid.c, kid.base, kid.span, here, h - 1);
    } else {
      sub := ReadFails(env, view, slots, kid, here);
    }
    ArrivedIs(np, cids, c, base, span, i, t);
    ss := ChildError(env, view, slots, ss + [Snap(started, here)], np, i, sub);
    LeftRunning(np, cids, base, c, span, i, j, t, Last(sub).t, deep, Last(ss).t);
  }

  lemma ArrivedIs(np: NodePayload, cids: seq<CID>, c: CID, base: nat, span: nat, i: nat, t: Task)
    requires Arrived(np, cids, c, base, span, i, t)
    ensures |t.kids| == i && SameCall(t, Start(c, base, span)) && t.pc.Looping?
  {
  }

  /** The child just started runs to an error, which the node returns. */
  lemma ChildError(
      env: Env, view: View, slots: nat, before: seq<Snap>, np: NodePayload, i: nat, sub: seq<Snap>)
    returns (ss: seq<Snap>)
    requires Chain(env, view, slots, true, before) && Chain(env, view, slots, true, sub)
    requires var t := Last(before).t;
             && NodeAt(env, view, t.c) == Ok(np) && t.pc.Looping? && |t.kids| == i + 1 <= |np.spans| == |np.cids|
             && OnlyReads(t, i) && sub[0] == Snap(t.kids[i], Last(before).out)
             && Last(sub).t.pc == Returned(false) && Last(sub).t.span == np.spans[i] && Returns(np, i)
    ensures Chain(env, view, slots, true, ss) && ss[0] == before[0]
    ensures Last(ss).t == Last(before).t.(pc := Returned(false), kids := Last(before).t.kids[..i] + [Last(sub).t])
  {
    hide Next, NodeAt, OnlyReads, Returns;
    var t := Last(before).t;
    LiftChain(env, view, slots, true, t, i, sub);
    var lifted := Lift(t, i, sub);
    Joined(env, view, slots, true, before, lifted);
    ss := PassError(env, view, slots, before + lifted[1..], np, i);
  }

  lemma LeftRunning(
      np: NodePayload, cids: seq<CID>, base: nat, c: CID, span: nat, i: nat, j: nat, t: Task, kid: Task, deep: bool,
      t': Task)
    requires Arrived(np, cids, c, base, span, i, t) && t'.kids == t.kids + [kid]
    requires if deep then !Quiet(kid) else j < i && np.spans[j] > INLINE
    ensures !Quiet(t')
  {
    if deep {
      assert t'.kids[i] == kid;
    } else {
      assert t'.kids[j] == t.kids[j] && t.kids[j].pc.Waiting?;
    }
  }

  /** A return leaves nothing running, whatever the schedule, the slots, the buffer and the reads that fail, exactly
      when at every node of the tree only the last child is above the inline limit. */
  lemma QuietExactly(env: Env, view: View, c: CID, span: nat, h: nat)
    requires WellSpanned(env, view, c, span, h) && span < TWO63
    ensures AlwaysQuiet(env, view, c, span) <==> TailOnly(env, view, c, h)
  {
    hide WellSpanned, TailOnly, Chain;
    if TailOnly(env, view, c, h) {
      forall slots: nat, base: nat, out: bytes, ss: seq<Snap>
        | slots >= 1 && base + span <= |out| < TWO63 && Chain(env, view, slots, true, ss) && ss != []
          && CallRun(env, view, slots, c, base, span, out, ss) && Last(ss).t.pc.Returned?
        ensures Quiet(Last(ss).t)
      {
        CalmRun(env, view, slots, c, base, span, out, h, ss, |ss| - 1);
        CalmQuiet(Last(ss).t);
      }
      assert forall slots: nat, ss: seq<Snap> :: Chain(env, view, slots, true, ss) ==> ss != [] by {
        ChainNotEmpty(env, view);
      }
    } else {
      var ss := ErrorChain(env, view, 1, c, 0, span, Zeros(span), h);
    }
  }

  lemma ChainNotEmpty(env: Env, view: View)
    ensures forall slots: nat, ss: seq<Snap> :: Chain(env, view, slots, true, ss) ==> ss != []
  {
  }
}
