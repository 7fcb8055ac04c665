/** From a stream to durable bytes: building a file, pinning it, and every run of the store after that. */
module EndToEnd {
  import opened Bytes
  import opened Block
  import opened DagTree
  import opened DagFetch
  import opened DagShape
  import opened DagBuild
  import opened StoreSpec
  import GcProtocol
  import GcExact
  import PinLaws
  import ParallelFetch

  /** No direct or soft pin sits on a block of the DAG that has links. */
  ghost predicate Unblocked(env: Env, m: CID, s: State) {
    forall c :: GcProtocol.Interior(env, ViewOf(env, s.store), m, c) ==>
      (c in s.hard ==> s.hard[c].Recursive?) && c !in s.soft
  }

  /** A run from s whose steps never collide, unpin m, or block a link with a direct or soft pin. It may begin while a
      collection is marking, if that one cannot free a block of the file any more. */
  ghost predicate HarmlessRun(env: Env, s: State, m: CID, ws: seq<GcProtocol.World>, steps: seq<GcProtocol.Step>) {
    && GcProtocol.Run(env, ws, steps)
    && ws[0].s == s && (ws[0].phase.Marking? ==> GcProtocol.Secure(env, ViewOf(env, s.store), m, ws[0]))
    && forall j :: 0 <= j < |steps| ==> GcProtocol.Harmless(env, ViewOf(env, s.store), m, steps[j])
  }

  /** Over these answers the manifest stands for the data, and is fetched as such. */
  ghost predicate ReadsBack(env: Env, answers: View, m: CID, data: bytes, h: nat) {
    FileAt(env, answers, m, data, h) && BoundedFile(env, answers, m, h) && FetchFile(env, answers, m, h) == Ok(data)
  }

  /** This read of c was answered by the store as it was at point i of the run. */
  ghost predicate AnsweredAt(env: Env, ws: seq<GcProtocol.World>, i: nat, answers: View, c: CID)
    requires i < |ws|
  {
    var view := ViewOf(env, ws[i].s.store);
    (c in answers <==> c in view) && (c in answers ==> answers[c] == view[c])
  }

  /** Each block of the DAG was read at some point of the run, each one at a point of its own. */
  ghost predicate AnsweredDuring(env: Env, ws: seq<GcProtocol.World>, answers: View, dag: set<CID>) {
    forall c :: c in dag ==> exists i: nat :: i < |ws| && AnsweredAt(env, ws, i, answers, c)
  }

  /** Whatever harmless run goes on while it is read, the file is read back byte for byte. */
  ghost predicate Durable(env: Env, s: State, m: CID, data: bytes, h: nat) {
    forall ws: seq<GcProtocol.World>, steps: seq<GcProtocol.Step>, answers: View ::
      HarmlessRun(env, s, m, ws, steps)
      && AnsweredDuring(env, ws, answers, GcProtocol.DagOf(env, ViewOf(env, s.store), m)) ==>
        ReadsBack(env, answers, m, data, h)
  }

  lemma PinnedIsDurable(env: Env, s: State, m: CID, data: bytes, h: nat)
    requires FileAt(env, ViewOf(env, s.store), m, data, h) && |data| < TWO63
    requires m in s.hard && s.hard[m].Recursive? && Unblocked(env, m, s)
    ensures Durable(env, s, m, data, h)
  {
    hide FileAt, BoundedFile, FetchFile, ViewOf, AnsweredDuring;
    hide GcProtocol.Harmless, GcProtocol.Interior, GcProtocol.Next, GcProtocol.Secure;
    forall ws: seq<GcProtocol.World>, steps: seq<GcProtocol.Step>, answers: View
      | HarmlessRun(env, s, m, ws, steps)
        && AnsweredDuring(env, ws, answers, GcProtocol.DagOf(env, ViewOf(env, s.store), m))
      ensures ReadsBack(env, answers, m, data, h)
    {
      ReadDuringRun(env, s, m, data, h, ws, steps, answers);
    }
  }

  /** Pinning the manifest makes a stored file durable when no other block of it has a direct or soft pin on links,
      whatever pin the manifest had before. */
  lemma PinMakesDurable(env: Env, s: State, m: CID, data: bytes, h: nat)
    requires FileAt(env, ViewOf(env, s.store), m, data, h) && |data| < TWO63
    requires PinLaws.OthersUnblocked(env, ViewOf(env, s.store), m, s)
    ensures Durable(env, PinRecursive(s, m), m, data, h)
  {
    hide FileAt, Durable, ViewOf, GcProtocol.Interior;
    PinLaws.PinGuards(env, ViewOf(env, s.store), m, s);
    PinnedIsDurable(env, PinRecursive(s, m), m, data, h);
  }

  lemma ReadDuringRun(
      env: Env, s: State, m: CID, data: bytes, h: nat, ws: seq<GcProtocol.World>, steps: seq<GcProtocol.Step>,
      answers: View)
    requires FileAt(env, ViewOf(env, s.store), m, data, h) && |data| < TWO63
    requires m in s.hard && s.hard[m].Recursive? && Unblocked(env, m, s)
    requires HarmlessRun(env, s, m, ws, steps)
    requires AnsweredDuring(env, ws, answers, GcProtocol.DagOf(env, ViewOf(env, s.store), m))
    ensures ReadsBack(env, answers, m, data, h)
  {
    hide FileAt, BoundedFile, FetchFile, ViewOf, Kids;
    hide GcProtocol.Harmless, GcProtocol.Interior, GcProtocol.Next, GcProtocol.DagOf, GcProtocol.Secure;
    var view := ViewOf(env, s.store);
    var S := iset c | c in GcProtocol.DagOf(env, view, m);
    if ws[0].phase.Idle? {
      GcProtocol.GuardedIsSecure(env, m, ws[0]);
    }
    forall c | c in S && c in view
      ensures c in answers && answers[c] == view[c] && forall k :: k in Kids(env, view, c) ==> k in S
    {
      var i: nat :| i < |ws| && AnsweredAt(env, ws, i, answers, c);
      GcProtocol.SecureRun(env, view, m, ws, steps, i);
      GcProtocol.SecureAnswers(env, view, m, ws[i], c);
    }
    GcProtocol.RootInDag(env, view, m);
    FileKept(env, view, answers, S, m, data, h);
    FetchReturnsFile(env, answers, m, data, h);
  }

  /** Adds a file and pins its manifest. It fails as the builder does and then leaves all pins alone; so a file is
      added, pinned and durable whenever the parameters are good, the reader does not fail, every announcement goes
      through, and nothing is too long to write. */
  method AddAndPin(builder: DagBuilder, name: bytes, mime: bytes, r: Reader)
    returns (res: Result<Block, Error>, ghost h: nat)
    requires builder.peers.None? && builder.Tracks() && builder.Smooth() && builder.puts == [] && r.pos == 0
    requires |r.data| < TWO63 && |name| < TWO63 && |mime| < TWO63
    modifies builder`puts, builder`acked, builder.store, r`pos
    ensures res.Ok? ==>
      var store, m := builder.store, res.value.cid;
      && builder.chunkSize > 0 && builder.fanout > 1
      && (NoClash(builder.puts)
          && Retrievable(store.env, |r.data|, builder.chunkSize, builder.fanout, name, mime)
          && PinLaws.OthersUnblocked(store.env, ViewOf(store.env, store.store), m, old(store.Value())) ==>
            Durable(store.env, store.Value(), m, r.data, h))
      && (forall now :: m !in SinglePins(store.Value(), now))
      && Describes(store.env, res.value.payload, |r.data|, builder.chunkSize, builder.fanout, name, mime)
      && res.value.header.typ == MANIFEST
      && m in store.hardPins && store.hardPins == old(store.hardPins)[m := Pin.Recursive]
    ensures res.Err? ==>
      && builder.store.hardPins == old(builder.store.hardPins) && builder.store.softPins == old(builder.store.softPins)
      && (|| (res.error == BadParams && (builder.chunkSize <= 0 || builder.fanout <= 1))
          || (res.error == ReadFailed && r.fails)
          || (res.error == AnnounceFailed && exists b :: b in builder.puts && b.cid in builder.refused)
          || (res.error == TooLarge && builder.chunkSize > 0 && builder.fanout > 1
              && !Writable(|r.data|, builder.chunkSize, builder.fanout, name, mime)))
  {
    hide BuiltFile, FileAt, PinLaws.OthersUnblocked, Durable, ViewOf, Retrievable, NoClash, Answers, PutAll, Writable;
    hide Describes;
    ghost var before := builder.store.Value();
    res, h := builder.BuildFromReader(name, mime, r);
    if res.Err? {
      return;
    }
    var env, m := builder.store.env, res.value.cid;
    ghost var view := ViewOf(env, builder.store.store);
    ghost var built := builder.store.Value();
    builder.store.Pin(m);
    if NoClash(builder.puts) && Retrievable(env, |r.data|, builder.chunkSize, builder.fanout, name, mime) {
      BuiltIsFile(env, view, m, r.data, builder.chunkSize, builder.fanout, name, mime, h);
      if PinLaws.OthersUnblocked(env, view, m, before) {
        SameOthers(env, view, m, before, built);
        PinMakesDurable(env, built, m, r.data, h);
      }
    }
  }

  lemma SameOthers(env: Env, view: View, m: CID, s: State, s': State)
    requires PinLaws.OthersUnblocked(env, view, m, s) && s'.hard == s.hard && s'.soft == s.soft
    ensures PinLaws.OthersUnblocked(env, view, m, s')
  {
    hide GcProtocol.Interior;
  }

  lemma BuiltIsFile(
      env: Env, view: View, m: CID, data: bytes, chunk: nat, fanout: nat, name: bytes, mime: bytes, h: nat)
    requires chunk > 0 && fanout > 1 && BuiltFile(env, view, m, data, chunk, fanout, name, mime, h)
    requires Retrievable(env, |data|, chunk, fanout, name, mime)
    ensures FileAt(env, view, m, data, h)
  {
  }

  /** Building and pinning are many steps, and a collection may run meanwhile. Seen from any point of its mark phase:
      when the sweep has come, all blocks that were put are still there if and only if each one was missing in the
      snapshot, or was due to be marked; and then the file, pinned in the meantime, is durable. */
  lemma AddedDuringCollection(
      env: Env, ws: seq<GcProtocol.World>, steps: seq<GcProtocol.Step>, puts: seq<Block>, m: CID, data: bytes, h: nat)
    requires steps != [] && |ws| == |steps| + 1 && puts != []
    requires forall b :: b in puts ==> Consistent(env, b) && GcExact.RestOfCollection(env, ws, steps, b.cid)
    requires var last := ws[|steps| - 1].s;
             && (forall b :: b in puts ==> b.cid in last.store && last.store[b.cid] == b.bytes)
             && m in last.hard && last.hard[m].Recursive?
    requires NoClash(puts) && |data| < TWO63 && forall view :: Answers(view, puts) ==> FileAt(env, view, m, data, h)
    requires Unblocked(env, m, ws[|steps|].s)
    ensures var after := ws[|steps|].s;
            var spared := forall b :: b in puts ==>
                            ws[0].phase.Marking? && (b.cid !in ws[0].phase.keys || GcExact.Due(env, ws[0], b.cid));
            && (spared <==> forall b :: b in puts ==> b.cid in after.store)
            && (spared ==> Durable(env, after, m, data, h))
  {
    hide FileAt, Unblocked, Durable, Answers, Consistent, GcExact.Due, GcExact.Aside, NoClash;
    var n := |steps| - 1;
    assert puts[0] in puts;
    assert GcProtocol.Next(env, ws[n], steps[n], ws[n + 1]);
    forall b | b in puts
      ensures b.cid in ws[|steps|].s.store <==> b.cid !in ws[0].phase.keys || GcExact.Due(env, ws[0], b.cid)
    {
      GcExact.FreedExactly(env, ws, steps, b.cid);
    }
    if forall b :: b in puts ==> b.cid in ws[|steps|].s.store {
      AllAnswered(env, ws[|steps|].s.store, puts);
      PinnedIsDurable(env, ws[|steps|].s, m, data, h);
    }
  }

  lemma AllAnswered(env: Env, store: map<CID, bytes>, puts: seq<Block>)
    requires forall b :: b in puts ==> Consistent(env, b) && b.cid in store && store[b.cid] == b.bytes
    requires NoClash(puts)
    ensures Answers(ViewOf(env, store), puts)
  {
    hide DecodeBlock;
    BuiltViewHolds(puts);
  }

  /** So does the parallel fetch, in any schedule, when no read fails: it goes on, or has finished with these bytes. */
  lemma DurableInParallel(
      env: Env, s: State, m: CID, data: bytes, h: nat, ws: seq<GcProtocol.World>, steps: seq<GcProtocol.Step>,
      answers: View, parallel: int, ss: seq<ParallelFetch.Snap>)
    requires Durable(env, s, m, data, h) && HarmlessRun(env, s, m, ws, steps) && |data| < TWO63
    requires AnsweredDuring(env, ws, answers, GcProtocol.DagOf(env, ViewOf(env, s.store), m))
    requires RootOf(env, answers, m).Some?
    requires ParallelFetch.Run(
               env, answers, ParallelFetch.Slots(parallel), false, RootOf(env, answers, m).value, |data|, ss)
    ensures var last := ss[|ss| - 1];
            if ParallelFetch.Quiet(last.t) then last.t.pc == ParallelFetch.Returned(true) && last.out == data
            else exists next :: ParallelFetch.Next(env, answers, ParallelFetch.Slots(parallel), false, last, next)
  {
    hide FileAt, BoundedFile, FetchFile, ViewOf, RootOf, HarmlessRun, AnsweredDuring;
    assert ReadsBack(env, answers, m, data, h);
    ParallelFetch.EverySchedule(env, answers, m, parallel, false, data, h, ss);
  }
}
