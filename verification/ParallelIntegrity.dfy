/** The parallel fetch from peers that nobody trusts: whatever they answer, it returns the file or an error. */
module ParallelIntegrity {
  import opened Bytes
  import opened Block
  import opened DagCodec
  import opened DagTree
  import opened DagFetch
  import opened ParallelFetch

  /** Each call that loops over its children has read the block that is stored. */
  predicate Known(stored: View, peers: View, t: Task) {
    && (t.pc.Looping? ==> t.c in stored && t.c in peers && peers[t.c] == stored[t.c])
    && forall k :: 0 <= k < |t.kids| ==> Known(stored, peers, t.kids[k])
  }

  /** A peer's answer is the stored block, or the read fails. */
  lemma HonestRead(env: Env, stored: View, peers: View, t: Task, out: bytes, h: nat)
    requires NoConflict(stored, peers) && Inv(env, stored, true, t, out, h) && t.pc.Reading?
    requires Known(stored, peers, t)
    ensures var s' := HaveRead(env, peers, t, out);
            && (s' == HaveRead(env, stored, t, out) || s' == Snap(t.(pc := Returned(false)), out))
            && Known(stored, peers, s'.t)
  {
    LeafFacts(env, stored, t.c, t.span, h);
    hide Inv, DecodeNode, Splice;
  }

  lemma HonestLocal(
      env: Env, stored: View, peers: View, free: bool, lossy: bool, s: Snap, s': Snap, h: nat)
    requires NoConflict(stored, peers) && Inv(env, stored, true, s.t, s.out, h) && Known(stored, peers, s.t)
    requires Local(env, peers, free, lossy, s, s')
    ensures Local(env, stored, free, true, s, s') && Known(stored, peers, s'.t)
  {
    hide Inv, NoConflict, DecodeNode, HaveRead, CidFromBytes, Sum, CanTurn;
    if s.t.pc.Reading? {
      HonestRead(env, stored, peers, s.t, s.out, h);
    }
  }

  lemma {:induction false} HonestStep(
      env: Env, stored: View, peers: View, free: bool, lossy: bool, s: Snap, s': Snap, h: nat)
    requires NoConflict(stored, peers) && Inv(env, stored, true, s.t, s.out, h) && Known(stored, peers, s.t)
    requires Step(env, peers, free, lossy, s, s')
    ensures Step(env, stored, free, true, s, s') && Known(stored, peers, s'.t)
    decreases h
  {
    hide Local, Control, Laid, NoConflict, DecodeNode, Links, WellSpanned;
    if Local(env, peers, free, lossy, s, s') {
      HonestLocal(env, stored, peers, free, lossy, s, s', h);
    } else {
      var k: nat :| KidStep(env, peers, free, lossy, s, s', k);
      KidInv(env, stored, s.t, s.out, h, k);
      hide Inv;
      HonestStep(env, stored, peers, free, lossy, Snap(s.t.kids[k], s.out), Snap(s'.t.kids[k], s'.out), h - 1);
      assert KidStep(env, stored, free, true, s, s', k);
    }
  }

  lemma KidInv(env: Env, view: View, t: Task, out: bytes, h: nat, k: nat)
    requires Inv(env, view, true, t, out, h) && k < |t.kids|
    ensures h > 0 && Inv(env, view, true, t.kids[k], out, h - 1)
  {
    hide DecodeNode, Links, WellSpanned, Laid;
    LeafFacts(env, view, t.c, t.span, h);
    if view[t.c].header.typ == DATA {
      NoKids(t);
    } else {
      NodeFacts(env, view, t.c, t.span, h);
    }
  }

  /** Where the stored blocks allow a step, so do the peers. */
  lemma {:induction false} PeersStep(
      env: Env, stored: View, peers: View, free: bool, lossy: bool, s: Snap, s': Snap, h: nat)
    requires Inv(env, stored, true, s.t, s.out, h) && Known(stored, peers, s.t)
    requires Step(env, stored, free, true, s, s')
    ensures exists s'' :: Step(env, peers, free, lossy, s, s'')
    decreases h
  {
    hide Inv, DecodeNode, HaveRead, Turn, CanTurn, Receive;
    if Local(env, stored, free, true, s, s') {
      var s'' := if s.t.pc.Reading? then HaveRead(env, peers, s.t, s.out) else s';
      assert Local(env, peers, free, lossy, s, s'');
      assert Step(env, peers, free, lossy, s, s'');
    } else {
      hide Local;
      var k: nat :| KidStep(env, stored, free, true, s, s', k);
      KidInv(env, stored, s.t, s.out, h, k);
      PeersStep(env, stored, peers, free, lossy, Snap(s.t.kids[k], s.out), Snap(s'.t.kids[k], s'.out), h - 1);
      var kid :| Step(env, peers, free, lossy, Snap(s.t.kids[k], s.out), kid);
      var s'' := Snap(s.t.(kids := s.t.kids[k := kid.t]), kid.out);
      assert s''.t.kids[k] == kid.t && Snap(s''.t.kids[k], s''.out) == kid;
      assert KidStep(env, peers, free, lossy, s, s'', k);
      assert Step(env, peers, free, lossy, s, s'');
    }
  }

  /** Every run over the peers is a run over the stored blocks in which reads may fail. */
  lemma {:induction false} HonestRun(
      env: Env, stored: View, peers: View, slots: nat, lossy: bool, root: CID, data: bytes, h: nat, ss: seq<Snap>,
      i: nat)
    requires NoConflict(stored, peers) && WellSpanned(env, stored, root, |data|, h) && |data| < TWO63 && slots >= 1
    requires Run(env, peers, slots, lossy, root, |data|, ss) && i < |ss|
    ensures Reached(env, stored, slots, true, root, data, h, ss[i]) && Known(stored, peers, ss[i].t)
    ensures Run(env, stored, slots, true, root, |data|, ss[..i + 1])
  {
    hide Inv, Step, Readers, WellSpanned, NoConflict;
    if i == 0 {
      StartKeeps(env, stored, true, root, 0, |data|, Zeros(|data|), h);
      StartCosts(env, stored, root, |data|, h);
    } else {
      HonestRun(env, stored, peers, slots, lossy, root, data, h, ss, i - 1);
      assert Next(env, peers, slots, lossy, ss[i - 1], ss[i]);
      hide Known;
      HonestStep(env, stored, peers, Readers(ss[i - 1].t) < slots, lossy, ss[i - 1], ss[i], h);
      assert Next(env, stored, slots, true, ss[i - 1], ss[i]);
      NextKeeps(env, stored, slots, true, root, data, h, ss[i - 1], ss[i]);
      OneMore(env, stored, slots, root, |data|, ss, i);
    }
  }

  lemma OneMore(env: Env, view: View, slots: nat, root: CID, size: nat, ss: seq<Snap>, i: nat)
    requires 0 < i < |ss| && Run(env, view, slots, true, root, size, ss[..i])
    requires Next(env, view, slots, true, ss[i - 1], ss[i])
    ensures Run(env, view, slots, true, root, size, ss[..i + 1])
  {
    hide Next;
    var less, more := ss[..i], ss[..i + 1];
    forall j | 0 < j < |more|
      ensures Next(env, view, slots, true, more[j - 1], more[j])
    {
      if j < i {
        assert more[j - 1] == less[j - 1] && more[j] == less[j];
      }
    }
  }

  /** Once the manifest is the right one, every schedule over whatever peers answer, reads failing or not: no panic, at
      most slots reads in flight, a bounded number of steps, no deadlock; and a success has the bytes of the file and
      leaves nothing running. */
  lemma IntegrityInParallel(
      env: Env, stored: View, peers: View, m: CID, parallel: int, lossy: bool, data: bytes, h: nat, ss: seq<Snap>)
    requires FileAt(env, stored, m, data, h) && |data| < TWO63 && RootOf(env, stored, m).Some?
    requires m in peers && peers[m] == stored[m] && NoConflict(stored, peers)
    requires Run(env, peers, Slots(parallel), lossy, RootOf(env, peers, m).value, |data|, ss)
    ensures var s := ss[|ss| - 1];
            && Readers(s.t) <= (if parallel > 0 then parallel else 16) && NoPanic(s.t)
            && |ss| <= 1 + Work(env, stored, RootOf(env, stored, m).value, h)
            && (!Quiet(s.t) ==> exists s' :: Next(env, peers, Slots(parallel), lossy, s, s'))
            && (s.t.pc == Returned(true) ==> s.out == data && Quiet(s.t))
  {
    hide Work, Content, FetchFile, WellSpanned, Inv, NoConflict, Readers, Quiet, NoPanic, BoundedFile, Step;
    var root, slots := RootOf(env, stored, m).value, Slots(parallel);
    HonestRun(env, stored, peers, slots, lossy, root, data, h, ss, |ss| - 1);
    assert ss[..|ss|] == ss;
    EverySchedule(env, stored, m, parallel, true, data, h, ss);
    var s := ss[|ss| - 1];
    if !Quiet(s.t) {
      var s' :| Next(env, stored, slots, true, s, s');
      PeersStep(env, stored, peers, Readers(s.t) < slots, lossy, s, s', h);
      var s'' :| Step(env, peers, Readers(s.t) < slots, lossy, s, s'');
      assert Next(env, peers, slots, lossy, s, s'');
    }
  }
}
