/** The parallel fetch over any getter: exactly when it succeeds, and how that differs from the sequential one. */
module ParallelExact {
  import opened Bytes
  import opened Block
  import opened DagCodec
  import opened DagTree
  import opened DagFetch
  import opened ParallelFetch

  /** All blocks below c are what a parallel fetch needs of them. A node may have more spans than children. */
  ghost predicate Usable(env: Env, view: View, c: CID, base: nat, span: nat, len: nat, h: nat)
    decreases h
  {
    && c in view && view[c].cid == c
    && if view[c].header.typ == DATA then span <= |view[c].payload| && base + span <= len
       else
         && h > 0 && view[c].header.typ == NODE
         && var d := DecodeNode(env, view[c].payload);
         && d.Ok? && d.value.size == span && |d.value.cids| <= |d.value.spans|
         && forall i :: 0 <= i < |d.value.cids| ==>
              && CidFromBytes(d.value.cids[i]).Ok?
              && Usable(env, view, CidFromBytes(d.value.cids[i]).value,
                        Offset(base, d.value.spans, i), d.value.spans[i], len, h - 1)
  }

  /** Every node below c has as many spans as children. */
  ghost predicate LengthsMatch(env: Env, view: View, c: CID, h: nat)
    decreases h
  {
    c in view && view[c].header.typ == NODE && DecodeNode(env, view[c].payload).Ok? && h > 0 ==>
      var np := DecodeNode(env, view[c].payload).value;
      && |np.cids| == |np.spans|
      && forall i :: 0 <= i < |np.cids| && CidFromBytes(np.cids[i]).Ok? ==>
           LengthsMatch(env, view, CidFromBytes(np.cids[i]).value, h - 1)
  }

  ghost predicate KidAgrees(env: Env, view: View, np: NodePayload, base: nat, len: nat, h: nat, i: nat)
    requires i < |np.cids| == |np.spans| && CidFromBytes(np.cids[i]).Ok?
  {
    var k, at, span := CidFromBytes(np.cids[i]).value, Offset(base, np.spans, i), np.spans[i];
    Fetchable(env, view, k, at, span, len, h) <==>
      Usable(env, view, k, at, span, len, h) && LengthsMatch(env, view, k, h)
  }

  /** What the sequential fetch needs is what the parallel one needs, and lists of equal length. */
  lemma {:induction false} FetchableIsUsable(
      env: Env, view: View, c: CID, base: nat, span: nat, len: nat, h: nat)
    ensures Fetchable(env, view, c, base, span, len, h)
       <==> Usable(env, view, c, base, span, len, h) && LengthsMatch(env, view, c, h)
    decreases h
  {
    hide DecodeNode, CidFromBytes, Offset;
    if c in view && view[c].header.typ == NODE && DecodeNode(env, view[c].payload).Ok? && h > 0 {
      var np := DecodeNode(env, view[c].payload).value;
      if |np.cids| == |np.spans| {
        forall i | 0 <= i < |np.cids| && CidFromBytes(np.cids[i]).Ok?
          ensures KidAgrees(env, view, np, base, len, h - 1, i)
        {
          FetchableIsUsable(
            env, view, CidFromBytes(np.cids[i]).value, Offset(base, np.spans, i), np.spans[i], len, h - 1);
        }
      }
    }
  }

  // ---------------------------------------------------------------- what calls know

  predicate HasLeaf(view: View, t: Task, len: nat) {
    && t.c in view && view[t.c].cid == t.c && view[t.c].header.typ == DATA
    && t.span <= |view[t.c].payload| && t.base + t.span <= len
  }

  predicate HasNode(env: Env, view: View, t: Task) {
    && t.c in view && view[t.c].cid == t.c && view[t.c].header.typ == NODE
    && NodeAt(env, view, t.c).Ok? && NodeAt(env, view, t.c).value.size == t.span
  }

  /** kid is the call for child k of t. */
  predicate ChildOf(env: Env, view: View, t: Task, k: nat, kid: Task) {
    HasNode(env, view, t)
    && var np := NodeAt(env, view, t.c).value;
    && k < |np.cids| && k < |np.spans| && CidFromBytes(np.cids[k]) == Ok(kid.c)
    && kid.base == Offset(t.base, np.spans, k) && kid.span == np.spans[k]
  }

  /** What a call has found out by the time it stands where it does. */
  predicate Knows(env: Env, view: View, t: Task, len: nat) {
    match t.pc
    case Waiting => t.kids == []
    case Reading => t.kids == []
    case Looping =>
      && HasNode(env, view, t)
      && forall k :: 0 <= k < |t.kids| - 1 && Inline(t.kids[k]) ==> t.kids[k].pc == Returned(true)
    case Collecting(got) =>
      && HasNode(env, view, t) && |t.kids| == |NodeAt(env, view, t.c).value.cids|
      && (forall k :: 0 <= k < |t.kids| && Inline(t.kids[k]) ==> t.kids[k].pc == Returned(true))
      && forall k :: k in got ==> k < |t.kids| && t.kids[k].pc == Returned(true)
    case Returned(ok) =>
      ok ==>
        || HasLeaf(view, t, len)
        || (&& HasNode(env, view, t) && |t.kids| == |NodeAt(env, view, t.c).value.cids|
            && forall k :: 0 <= k < |t.kids| ==> t.kids[k].pc == Returned(true))
    case Crashed => true
  }

  predicate Sound(env: Env, view: View, t: Task, len: nat) {
    && Knows(env, view, t, len)
    && forall k :: 0 <= k < |t.kids| ==> ChildOf(env, view, t, k, t.kids[k]) && Sound(env, view, t.kids[k], len)
  }

  lemma ReadSound(env: Env, view: View, t: Task, out: bytes)
    requires Sound(env, view, t, |out|) && t.pc.Reading?
    ensures var s' := HaveRead(env, view, t, out);
            Sound(env, view, s'.t, |out|) && SameCall(t, s'.t) && |s'.out| == |out|
  {
    hide DecodeNode, Splice;
  }

  lemma TurnSound(env: Env, view: View, t: Task, len: nat)
    requires Sound(env, view, t, len) && t.pc.Looping? && CanTurn(t)
    ensures Sound(env, view, Turn(t, NodeAt(env, view, t.c).value), len)
    ensures SameCall(t, Turn(t, NodeAt(env, view, t.c).value))
  {
    var np := NodeAt(env, view, t.c).value;
    var t', i := Turn(t, np), |t.kids|;
    hide DecodeNode, CidFromBytes, Sum;
    if t'.pc.Looping? {
      assert ChildOf(env, view, t, i, t'.kids[i]) && t' == t.(kids := t.kids + [t'.kids[i]]);
      hide Turn;
      KidStarted(env, view, t, t'.kids[i], len);
    } else {
      assert t'.kids == t.kids && SameCall(t, t');
      assert t'.pc.Collecting? ==> i == |np.cids| && t'.pc.got == {};
      hide Turn, Sound;
      LoopLeft(env, view, t, t', len);
    }
  }

  lemma KidStarted(env: Env, view: View, t: Task, kid: Task, len: nat)
    requires Sound(env, view, t, len) && t.pc.Looping? && CanTurn(t)
    requires |t.kids| > 0 && Inline(t.kids[|t.kids| - 1]) ==> t.kids[|t.kids| - 1].pc == Returned(true)
    requires ChildOf(env, view, t, |t.kids|, kid) && kid.pc.Waiting? && kid.kids == []
    ensures Sound(env, view, t.(kids := t.kids + [kid]), len)
  {
    hide NodeAt, Offset, CidFromBytes;
    var t' := t.(kids := t.kids + [kid]);
    assert Sound(env, view, kid, len);
    forall k | 0 <= k < |t'.kids|
      ensures ChildOf(env, view, t', k, t'.kids[k]) && Sound(env, view, t'.kids[k], len)
    {
      if k < |t.kids| {
        assert t'.kids[k] == t.kids[k];
      }
    }
  }

  /** The loop ends after the last child, or with an error. */
  lemma LoopLeft(env: Env, view: View, t: Task, t': Task, len: nat)
    requires Sound(env, view, t, len) && t.pc.Looping? && CanTurn(t) && t'.kids == t.kids && SameCall(t, t')
    requires t'.pc in {Returned(false), Crashed, Collecting({})}
    requires t'.pc.Collecting? ==> |t.kids| == |NodeAt(env, view, t.c).value.cids|
    requires t'.pc.Collecting? && |t.kids| > 0 && Inline(t.kids[|t.kids| - 1]) ==>
      t.kids[|t.kids| - 1].pc == Returned(true)
    ensures Sound(env, view, t', len)
  {
    hide NodeAt, Offset, CidFromBytes;
  }

  lemma CollectSound(env: Env, view: View, t: Task, got: set<nat>, t': Task, len: nat)
    requires Sound(env, view, t, len) && t.pc == Collecting(got)
    requires || (AllReceived(t, got) && t' == t.(pc := Returned(true)))
             || exists k: nat :: Receivable(t, got, k) && t' == Receive(t, got, k)
    ensures Sound(env, view, t', len) && SameCall(t, t')
  {
    hide NodeAt, Offset, CidFromBytes;
  }

  lemma LocalSound(env: Env, view: View, free: bool, lossy: bool, s: Snap, s': Snap)
    requires Sound(env, view, s.t, |s.out|) && Local(env, view, free, lossy, s, s')
    ensures Sound(env, view, s'.t, |s'.out|) && SameCall(s.t, s'.t) && |s'.out| == |s.out|
  {
    hide Sound, HaveRead, Turn, Receive, AllReceived, NodeAt;
    match s.t.pc
    case Waiting => StartsReading(env, view, s.t, |s.out|);
    case Reading =>
      ReadSound(env, view, s.t, s.out);
      ReadFails(env, view, s.t, |s.out|);
    case Looping => TurnSound(env, view, s.t, |s.out|);
    case Collecting(got) => CollectSound(env, view, s.t, got, s'.t, |s.out|);
    case _ =>
  }

  lemma StartsReading(env: Env, view: View, t: Task, len: nat)
    requires Sound(env, view, t, len) && t.pc.Waiting?
    ensures Sound(env, view, t.(pc := Reading), len)
  {
  }

  lemma ReadFails(env: Env, view: View, t: Task, len: nat)
    requires Sound(env, view, t, len) && t.pc.Reading?
    ensures Sound(env, view, t.(pc := Returned(false)), len)
  {
  }

  /** A call that has returned stays returned, while those below it go on. */
  lemma ReturnedStays(env: Env, view: View, free: bool, lossy: bool, s: Snap, s': Snap)
    requires Step(env, view, free, lossy, s, s') && s.t.pc.Returned?
    ensures s'.t.pc == s.t.pc
  {
  }

  lemma {:induction false} StepSound(env: Env, view: View, free: bool, lossy: bool, s: Snap, s': Snap)
    requires Sound(env, view, s.t, |s.out|) && Step(env, view, free, lossy, s, s')
    ensures Sound(env, view, s'.t, |s'.out|) && SameCall(s.t, s'.t) && |s'.out| == |s.out|
    decreases s.t
  {
    hide Local, Knows, NodeAt;
    if Local(env, view, free, lossy, s, s') {
      LocalSound(env, view, free, lossy, s, s');
    } else {
      var k: nat :| KidStep(env, view, free, lossy, s, s', k);
      var a, b := Snap(s.t.kids[k], s.out), Snap(s'.t.kids[k], s'.out);
      StepSound(env, view, free, lossy, a, b);
      if a.t.pc.Returned? {
        ReturnedStays(env, view, free, lossy, a, b);
      }
      KidSound(env, view, s.t, k, b.t, |s.out|);
    }
  }

  lemma KidSound(env: Env, view: View, t: Task, k: nat, kid: Task, len: nat)
    requires Sound(env, view, t, len) && k < |t.kids| && SameCall(t.kids[k], kid) && Sound(env, view, kid, len)
    requires t.kids[k].pc.Returned? ==> kid.pc == t.kids[k].pc
    ensures Sound(env, view, t.(kids := t.kids[k := kid]), len)
  {
    hide NodeAt, Offset, CidFromBytes;
    var t' := t.(kids := t.kids[k := kid]);
    assert Knows(env, view, t', len);
    forall i | 0 <= i < |t'.kids|
      ensures ChildOf(env, view, t', i, t'.kids[i]) && Sound(env, view, t'.kids[i], len)
    {
      assert ChildOf(env, view, t, i, t.kids[i]) && Sound(env, view, t.kids[i], len);
    }
  }

  /** A call returns without error only when all below it is usable. */
  lemma {:induction false} SuccessIsUsable(env: Env, view: View, t: Task, len: nat, h: nat)
    requires Sound(env, view, t, len) && t.pc == Returned(true) && Bounded(env, view, t.c, h)
    ensures Usable(env, view, t.c, t.base, t.span, len, h)
    decreases h
  {
    hide DecodeNode, Offset, CidFromBytes;
    if !HasLeaf(view, t, len) {
      var np := NodeAt(env, view, t.c).value;
      if np.cids != [] {
        assert ChildOf(env, view, t, |np.cids| - 1, t.kids[|np.cids| - 1]);
      }
      forall i | 0 <= i < |np.cids|
        ensures CidFromBytes(np.cids[i]).Ok?
        ensures Usable(env, view, CidFromBytes(np.cids[i]).value, Offset(t.base, np.spans, i), np.spans[i], len, h - 1)
      {
        assert ChildOf(env, view, t, i, t.kids[i]) && Sound(env, view, t.kids[i], len);
        SuccessIsUsable(env, view, t.kids[i], len, h - 1);
      }
    }
  }

  // ---------------------------------------------------------------- usable blocks make it succeed

  /** No call has failed. */
  predicate Fine(t: Task) {
    && !t.pc.Crashed? && t.pc != Returned(false)
    && forall k :: 0 <= k < |t.kids| ==> Fine(t.kids[k])
  }

  lemma ReadFine(env: Env, view: View, t: Task, out: bytes, h: nat)
    requires Fine(t) && Usable(env, view, t.c, t.base, t.span, |out|, h)
    ensures Fine(HaveRead(env, view, t, out).t)
  {
    hide DecodeNode, Splice, Offset, CidFromBytes;
    var t' := HaveRead(env, view, t, out).t;
    assert !t'.pc.Crashed? && t'.pc != Returned(false) && t'.kids == t.kids;
    hide HaveRead, Usable;
  }

  lemma TurnFine(env: Env, view: View, t: Task, len: nat, h: nat)
    requires Sound(env, view, t, len) && t.pc.Looping? && CanTurn(t)
    requires Fine(t) && Usable(env, view, t.c, t.base, t.span, len, h)
    ensures Fine(Turn(t, NodeAt(env, view, t.c).value))
  {
    hide DecodeNode, CidFromBytes, Sum, Sound, Offset;
    KidsCounted(env, view, t, len);
    var t', i := Turn(t, NodeAt(env, view, t.c).value), |t.kids|;
    assert !t'.pc.Crashed? && t'.pc != Returned(false);
    assert t'.kids == t.kids || (t'.kids == t.kids + [t'.kids[i]] && Fine(t'.kids[i]));
    hide Turn, Usable;
  }

  predicate CountsKids(env: Env, view: View, t: Task) {
    NodeAt(env, view, t.c).Ok? && |t.kids| <= |NodeAt(env, view, t.c).value.cids|
  }

  lemma KidsCounted(env: Env, view: View, t: Task, len: nat)
    requires Sound(env, view, t, len) && t.pc.Looping?
    ensures Knows(env, view, t, len) && CountsKids(env, view, t)
  {
    if t.kids != [] {
      assert ChildOf(env, view, t, |t.kids| - 1, t.kids[|t.kids| - 1]);
    }
  }

  lemma LocalFine(env: Env, view: View, free: bool, s: Snap, s': Snap, h: nat)
    requires Sound(env, view, s.t, |s.out|) && Local(env, view, free, false, s, s')
    requires Fine(s.t) && Usable(env, view, s.t.c, s.t.base, s.t.span, |s.out|, h)
    ensures Fine(s'.t)
  {
    hide Sound, HaveRead, Turn, AllReceived, NodeAt, Usable;
    match s.t.pc
    case Waiting =>
    case Reading => ReadFine(env, view, s.t, s.out, h);
    case Looping => TurnFine(env, view, s.t, |s.out|, h);
    case Collecting(got) =>
      if k: nat :| Receivable(s.t, got, k) && s'.t == Receive(s.t, got, k) {
        assert Fine(s.t.kids[k]) && s.t.kids[k].pc.ok;
      }
    case _ =>
  }

  /** The calls below a call for usable blocks are for usable blocks. */
  lemma KidUsable(env: Env, view: View, t: Task, k: nat, len: nat, h: nat)
    requires Sound(env, view, t, len) && k < |t.kids| && Usable(env, view, t.c, t.base, t.span, len, h)
    ensures h > 0
    ensures Usable(env, view, t.kids[k].c, t.kids[k].base, t.kids[k].span, len, h - 1)
  {
    hide DecodeNode, CidFromBytes, Offset;
    assert ChildOf(env, view, t, k, t.kids[k]);
  }

  lemma {:induction false} StepFine(env: Env, view: View, free: bool, s: Snap, s': Snap, h: nat)
    requires Sound(env, view, s.t, |s.out|) && Step(env, view, free, false, s, s')
    requires Fine(s.t) && Usable(env, view, s.t.c, s.t.base, s.t.span, |s.out|, h)
    ensures Fine(s'.t)
    decreases s.t
  {
    hide Local, Knows, NodeAt, Usable;
    if Local(env, view, free, false, s, s') {
      LocalFine(env, view, free, s, s', h);
    } else {
      var k: nat :| KidStep(env, view, free, false, s, s', k);
      var a, b := Snap(s.t.kids[k], s.out), Snap(s'.t.kids[k], s'.out);
      KidUsable(env, view, s.t, k, |s.out|, h);
      StepFine(env, view, free, a, b, h - 1);
    }
  }

  lemma {:induction false} FineNeverPanics(t: Task)
    requires Fine(t)
    ensures NoPanic(t)
    decreases t
  {
    forall k | 0 <= k < |t.kids|
      ensures NoPanic(t.kids[k])
    {
      FineNeverPanics(t.kids[k]);
    }
  }

  // ---------------------------------------------------------------- no deadlock

  /** While any call has not returned, and none has panicked, some call can take a step. */
  lemma {:induction false} GoesOn(env: Env, view: View, free: bool, lossy: bool, t: Task, out: bytes)
    requires Sound(env, view, t, |out|) && NoPanic(t) && !Quiet(t) && (free || Readers(t) > 0)
    ensures CanStep(env, view, free, lossy, t, out)
    decreases t
  {
    hide CanStep, Knows, ChildOf, Readers;
    if t.pc.Reading? {
      ReadCanStep(env, view, free, lossy, t, out);
    } else if Readers(t) > 0 {
      var k := BusyKid(t);
      GoesOn(env, view, free, lossy, t.kids[k], out);
      KidCanStep(env, view, free, lossy, t, out, k);
    } else if k: nat :| k < |t.kids| && !Quiet(t.kids[k]) {
      GoesOn(env, view, free, lossy, t.kids[k], out);
      KidCanStep(env, view, free, lossy, t, out, k);
    } else {
      QuietGoesOn(env, view, lossy, t, out);
    }
  }

  lemma QuietGoesOn(env: Env, view: View, lossy: bool, t: Task, out: bytes)
    requires Sound(env, view, t, |out|) && NoPanic(t) && !Quiet(t) && !t.pc.Reading?
    requires forall k :: 0 <= k < |t.kids| ==> Quiet(t.kids[k])
    ensures CanStep(env, view, true, lossy, t, out)
  {
    hide CanStep, Turn, DecodeNode;
    match t.pc
    case Waiting =>
      LocalCanStep(env, view, true, lossy, t, out, Snap(t.(pc := Reading), out));
    case Looping =>
      LocalCanStep(env, view, true, lossy, t, out, Snap(Turn(t, NodeAt(env, view, t.c).value), out));
    case Collecting(got) =>
      if AllReceived(t, got) {
        LocalCanStep(env, view, true, lossy, t, out, Snap(t.(pc := Returned(true)), out));
      } else {
        var k: nat :| k < |t.kids| && !Inline(t.kids[k]) && k !in got;
        assert Receivable(t, got, k);
        LocalCanStep(env, view, true, lossy, t, out, Snap(Receive(t, got, k), out));
      }
    case _ =>
  }

  // ---------------------------------------------------------------- every run

  lemma {:induction false} RunSound(
      env: Env, view: View, slots: nat, lossy: bool, root: CID, size: nat, ss: seq<Snap>, h: nat, i: nat)
    requires Run(env, view, slots, lossy, root, size, ss) && i < |ss|
    ensures var s := ss[i];
            Sound(env, view, s.t, size) && SameCall(Start(root, 0, size), s.t) && |s.out| == size
    ensures !lossy && Usable(env, view, root, 0, size, size, h) ==> Fine(ss[i].t)
  {
    hide Step, Readers, Usable;
    if i > 0 {
      RunSound(env, view, slots, lossy, root, size, ss, h, i - 1);
      assert Next(env, view, slots, lossy, ss[i - 1], ss[i]);
      hide Sound, Fine;
      var free := Readers(ss[i - 1].t) < slots;
      StepSound(env, view, free, lossy, ss[i - 1], ss[i]);
      if !lossy && Usable(env, view, root, 0, size, size, h) {
        StepFine(env, view, free, ss[i - 1], ss[i], h);
      }
    }
  }

  /** Over any getter, in every schedule: a success means that everything below the root is usable; when it is and no
      read fails, no call panics, and a return is a success; and no schedule gets stuck but by a panic. */
  lemma SucceedsExactly(
      env: Env, view: View, m: CID, parallel: int, lossy: bool, size: nat, h: nat, ss: seq<Snap>)
    requires RootOf(env, view, m).Some? && BoundedFile(env, view, m, h)
    requires DecodeManifest(env, view[m].payload).value.size == size
    requires Run(env, view, Slots(parallel), lossy, RootOf(env, view, m).value, size, ss)
    ensures var s, usable := ss[|ss| - 1], Usable(env, view, RootOf(env, view, m).value, 0, size, size, h);
            && |s.out| == size
            && (s.t.pc == Returned(true) ==> usable)
            && (usable && !lossy ==> NoPanic(s.t) && s.t.pc != Returned(false))
            && (s.t.pc.Returned? && !lossy ==> (s.t.pc.ok <==> usable))
            && (NoPanic(s.t) && !Quiet(s.t) ==> exists s' :: Next(env, view, Slots(parallel), lossy, s, s'))
  {
    hide Step, Readers, Usable, Sound, Fine, NoPanic, Quiet;
    var root, s := RootOf(env, view, m).value, ss[|ss| - 1];
    RunSound(env, view, Slots(parallel), lossy, root, size, ss, h, |ss| - 1);
    if s.t.pc == Returned(true) {
      SuccessIsUsable(env, view, s.t, size, h);
    }
    if !lossy && Usable(env, view, root, 0, size, size, h) {
      FineNeverPanics(s.t);
      FineMeans(s.t);
    }
    if NoPanic(s.t) && !Quiet(s.t) {
      var free := Readers(s.t) < Slots(parallel);
      GoesOn(env, view, free, lossy, s.t, s.out);
      var s' :| Step(env, view, free, lossy, s, s');
      assert Next(env, view, Slots(parallel), lossy, s, s');
    }
  }

  lemma FineMeans(t: Task)
    requires Fine(t)
    ensures t.pc != Returned(false)
  {
  }
}
