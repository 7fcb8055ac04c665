/** Store operations interleaved with a collector that snapshots, marks and sweeps in separately locked
    steps, and what pinned data survives over whole runs. */
module GcProtocol {
  import opened Bytes
  import opened Block
  import opened DagCodec
  import opened DagTree
  import opened DagFetch
  import opened StoreSpec

  datatype Phase =
    | Idle
    | Marking(keys: set<CID>, single: set<CID>, live: set<CID>, stack: seq<CID>)

  datatype World = World(s: State, phase: Phase)

  datatype Step =
    | DoPut(b: Block)
    | DoRead(c: CID, expiry: Instant)
    | DoFetch(c: CID, reply: Option<bytes>, expiry: Instant)
    | DoPin(c: CID)
    | DoPinDirect(c: CID)
    | DoPinSoft(c: CID, expiry: Instant)
    | DoUnpin(c: CID)
    | Snapshot(now: Instant)
    | MarkOne(expiry: Instant)
    | Sweep
    | Collect(now: Instant, expiry: Instant) // a whole collection that nothing interleaves with

  function UnseenOf(children: seq<CID>, live: set<CID>): (r: seq<CID>)
    ensures forall k :: k in r <==> k in children && k !in live
  {
    if children == [] then []
    else if children[0] in live then UnseenOf(children[1..], live)
    else [children[0]] + UnseenOf(children[1..], live)
  }

  ghost predicate Next(env: Env, w: World, step: Step, w': World) {
    match step
    case DoPut(b) => w' == w.(s := Put(w.s, b))
    case DoRead(c, expiry) => w' == w.(s := AfterRead(env, w.s, c, expiry))
    case DoFetch(c, reply, expiry) => w' == w.(s := AfterReadOrFetch(env, w.s, c, reply, expiry))
    case DoPin(c) => w' == w.(s := PinRecursive(w.s, c))
    case DoPinDirect(c) => w' == w.(s := PinDirect(w.s, c))
    case DoPinSoft(c, expiry) => w' == w.(s := PinSoft(w.s, c, expiry))
    case DoUnpin(c) => w' == w.(s := Unpin(w.s, c))
    case Snapshot(now) =>
      && w.phase.Idle? && w'.s == w.s && w'.phase.Marking?
      && w'.phase.keys == w.s.store.Keys
      && w'.phase.single == w'.phase.live == SinglePins(w.s, now)
      && forall c :: c in w'.phase.stack <==> c in RecursivePins(w.s)
    case MarkOne(expiry) =>
      && w.phase.Marking? && w.phase.stack != []
      && var c := w.phase.stack[|w.phase.stack| - 1];
         var rest := w.phase.stack[..|w.phase.stack| - 1];
         if c in w.phase.live then w' == w.(phase := w.phase.(stack := rest))
         else
           var live := w.phase.live + {c};
           var pushed := UnseenOf(Kids(env, ViewOf(env, w.s.store), c), live);
           w' == World(AfterRead(env, w.s, c, expiry), w.phase.(live := live, stack := rest + pushed))
    case Sweep =>
      && w.phase.Marking? && w.phase.stack == []
      && w' == World(w.s.(store := w.s.store - (w.phase.keys - w.phase.live)), Idle)
    case Collect(now, expiry) =>
      w.phase.Idle? && w' == w.(s := AfterGC(env, w.s, now, expiry))
  }

  ghost predicate Run(env: Env, ws: seq<World>, steps: seq<Step>) {
    && |ws| == |steps| + 1
    && forall i :: 0 <= i < |steps| ==> Next(env, ws[i], steps[i], ws[i + 1])
  }

  // ---------------------------------------------------------------- blocks that stay what they are

  /** The blocks of snap are readable in the store, as they are in snap. */
  ghost predicate Holds(env: Env, snap: View, store: map<CID, bytes>) {
    forall c :: c in snap ==> c in ViewOf(env, store) && ViewOf(env, store)[c] == snap[c]
  }

  /** A put never replaces a block of snap by another one: CIDs do not collide. */
  predicate Respects(snap: View, step: Step) {
    step.DoPut? && step.b.cid in snap ==> step.b == snap[step.b.cid]
  }

  lemma PutHolds(env: Env, snap: View, s: State, b: Block)
    requires Holds(env, snap, s.store) && Respects(snap, DoPut(b))
    ensures Holds(env, snap, Put(s, b).store)
  {
    hide DecodeBlock;
    if b.cid in snap {
      DecodeStable(env, s.store[b.cid], []);
    }
    forall c | c in snap
      ensures c in ViewOf(env, Put(s, b).store) && ViewOf(env, Put(s, b).store)[c] == snap[c]
    {
      assert c in ViewOf(env, s.store);
    }
  }

  lemma FetchHolds(env: Env, snap: View, s: State, c: CID, reply: Option<bytes>, expiry: Instant)
    requires Holds(env, snap, s.store)
    ensures Holds(env, snap, AfterReadOrFetch(env, s, c, reply, expiry).store)
  {
    hide DecodeBlock;
    ReadMatchesView(env, s, c);
    if c in snap {
      assert Read(env, s, c).Ok?;
    }
  }

  /** Every step but a sweep keeps the blocks of snap. */
  lemma StepHolds(env: Env, snap: View, w: World, step: Step, w': World)
    requires Next(env, w, step, w') && Holds(env, snap, w.s.store) && Respects(snap, step)
    requires !step.Sweep? && !step.Collect?
    ensures Holds(env, snap, w'.s.store)
  {
    hide Holds, Kids, DecodeBlock, ViewOf, UnseenOf;
    match step
    case DoPut(b) => PutHolds(env, snap, w.s, b);
    case DoFetch(c, reply, expiry) => FetchHolds(env, snap, w.s, c, reply, expiry);
    case _ =>
  }

  // ---------------------------------------------------------------- the mark phase under interference

  /** What the running mark phase still guarantees for the blocks of snap. */
  ghost predicate Covers(env: Env, snap: View, roots: set<CID>, w: World) {
    && Holds(env, snap, w.s.store)
    && (w.phase.Marking? ==>
          && w.phase.single <= w.phase.live
          && (forall c :: c in roots ==> c in w.phase.live || c in w.phase.stack)
          && (forall c, k :: c in w.phase.live && c !in w.phase.single && k in Kids(env, snap, c) ==>
                k in w.phase.live || k in w.phase.stack))
  }

  lemma CoversStep(env: Env, snap: View, roots: set<CID>, w: World, step: Step, w': World)
    requires Covers(env, snap, roots, w) && Next(env, w, step, w') && Respects(snap, step)
    requires !step.Sweep? && !step.Collect?
    requires step.Snapshot? ==> roots <= RecursivePins(w.s)
    ensures Covers(env, snap, roots, w')
  {
    StepHolds(env, snap, w, step, w');
    if step.MarkOne? {
      MarkCovers(env, snap, roots, w, step, w');
    }
  }

  lemma MarkCovers(env: Env, snap: View, roots: set<CID>, w: World, step: Step, w': World)
    requires Covers(env, snap, roots, w) && step.MarkOne? && Next(env, w, step, w')
    requires Holds(env, snap, w'.s.store)
    ensures Covers(env, snap, roots, w')
  {
    hide Links, DecodeBlock, AfterRead, UnseenOf;
    var stack := w.phase.stack;
    var c := stack[|stack| - 1];
    assert stack == stack[..|stack| - 1] + [c];
    if c !in w.phase.live {
      forall k | k in Kids(env, snap, c)
        ensures k in w'.phase.live || k in w'.phase.stack
      {
        assert Kids(env, ViewOf(env, w.s.store), c) == Kids(env, snap, c);
      }
    }
  }

  /** When the stack is empty, everything walks reach around the single pins is marked. */
  lemma {:induction false} CoveredWalk(env: Env, snap: View, roots: set<CID>, w: World, p: seq<CID>, i: nat)
    requires Covers(env, snap, roots, w) && w.phase.Marking? && w.phase.stack == []
    requires Walk(env, snap, w.phase.single, p) && p[0] in roots && i < |p|
    ensures p[i] in w.phase.live
  {
    hide Kids, Holds;
    if i > 0 {
      CoveredWalk(env, snap, roots, w, p, i - 1);
    }
  }

  lemma CoveredReached(env: Env, snap: View, roots: set<CID>, w: World, c: CID)
    requires Covers(env, snap, roots, w) && w.phase.Marking? && w.phase.stack == []
    requires c in w.phase.single || Reached(env, snap, roots, w.phase.single, c)
    ensures c in w.phase.live
  {
    if c !in w.phase.single {
      var p :| WalkTo(env, snap, roots, w.phase.single, p, c);
      CoveredWalk(env, snap, roots, w, p, |p| - 1);
    }
  }

  /** During one collection the snapshot's key set and single pins do not change. */
  ghost predicate OneCollection(steps: seq<Step>, now: Instant) {
    && |steps| >= 2 && steps[0] == Snapshot(now) && steps[|steps| - 1] == Sweep
    && forall i :: 0 < i < |steps| - 1 ==> !steps[i].Sweep?
  }

  lemma {:induction false} CollectionCovers(env: Env, ws: seq<World>, steps: seq<Step>, now: Instant, i: nat)
    requires Run(env, ws, steps) && OneCollection(steps, now) && 0 < i < |steps|
    requires forall j :: 0 <= j < |steps| ==> Respects(ViewOf(env, ws[0].s.store), steps[j])
    ensures Covers(env, ViewOf(env, ws[0].s.store), RecursivePins(ws[0].s), ws[i])
    ensures ws[i].phase.Marking? && ws[i].phase.keys == ws[0].s.store.Keys
         && ws[i].phase.single == SinglePins(ws[0].s, now)
  {
    var snap, roots := ViewOf(env, ws[0].s.store), RecursivePins(ws[0].s);
    assert Next(env, ws[i - 1], steps[i - 1], ws[i]);
    if i > 1 {
      CollectionCovers(env, ws, steps, now, i - 1);
      CoversStep(env, snap, roots, ws[i - 1], steps[i - 1], ws[i]);
    } else {
      CoversStep(env, snap, roots, ws[0], steps[0], ws[1]);
    }
  }

  /** A collection interleaved with any puts, reads, pins and unpins frees only what its snapshot held,
      and nothing that its snapshot's recursive pins reached around the single pins. */
  lemma CollectionSpares(env: Env, ws: seq<World>, steps: seq<Step>, now: Instant, c: CID)
    requires Run(env, ws, steps) && OneCollection(steps, now)
    requires forall j :: 0 <= j < |steps| ==> Respects(ViewOf(env, ws[0].s.store), steps[j])
    ensures var before, after := ws[|steps| - 1].s.store, ws[|steps|].s.store;
            var snap, single := ViewOf(env, ws[0].s.store), SinglePins(ws[0].s, now);
            && (c in after ==> c in before && after[c] == before[c])
            && (c in before && c !in after ==>
                  c in ws[0].s.store && c !in single && !Reached(env, snap, RecursivePins(ws[0].s), single, c))
  {
    var n := |steps| - 1;
    CollectionCovers(env, ws, steps, now, n);
    assert Next(env, ws[n], steps[n], ws[n + 1]);
    var snap, roots := ViewOf(env, ws[0].s.store), RecursivePins(ws[0].s);
    if c in ws[n].phase.single || Reached(env, snap, roots, ws[n].phase.single, c) {
      CoveredReached(env, snap, roots, ws[n], c);
    }
  }

  // ---------------------------------------------------------------- durability of a pinned file

  /** The blocks of the DAG under m, m included. */
  ghost function DagOf(env: Env, view: View, m: CID): set<CID> {
    Live(env, view, {m}, {})
  }

  /** The part of a view that is the DAG under m. */
  ghost function DagView(env: Env, view: View, m: CID): View {
    map c | c in view && c in DagOf(env, view, m) :: view[c]
  }

  /** A block of the DAG under m with links of its own. */
  ghost predicate Interior(env: Env, view: View, m: CID, c: CID) {
    c in DagOf(env, view, m) && Kids(env, view, c) != []
  }

  /** m is pinned recursively, and no block with links is pinned directly or softly. */
  ghost predicate Guarded(env: Env, view: View, m: CID, s: State) {
    && m in s.hard && s.hard[m].Recursive?
    && forall c :: Interior(env, view, m, c) ==> (c in s.hard ==> s.hard[c].Recursive?) && c !in s.soft
  }

  /** What a caller must not do: collide, unpin m, or put a direct or soft pin on a block with links. */
  ghost predicate Harmless(env: Env, view: View, m: CID, step: Step) {
    && Respects(DagView(env, view, m), step)
    && (step.DoUnpin? ==> step.c != m)
    && (step.DoPinDirect? ==> step.c != m && !Interior(env, view, m, step.c))
    && (step.DoPinSoft? ==> step.c == m || !Interior(env, view, m, step.c))
  }

  /** What every harmless step keeps. */
  ghost predicate Safe(env: Env, view: View, m: CID, w: World) {
    && Guarded(env, view, m, w.s)
    && Covers(env, DagView(env, view, m), {m}, w)
    && (w.phase.Marking? ==> forall c :: Interior(env, view, m, c) ==> c !in w.phase.single)
  }

  lemma DagClosed(env: Env, view: View, m: CID, c: CID, k: CID)
    requires c in DagOf(env, view, m) && k in Kids(env, view, c)
    ensures k in DagOf(env, view, m)
  {
    LiveExactly(env, view, {m}, {}, c);
    KidReached(env, view, {m}, {}, c, k);
    LiveExactly(env, view, {m}, {}, k);
  }

  lemma RootInDag(env: Env, view: View, m: CID)
    ensures m in DagOf(env, view, m)
  {
    RootReached(env, view, {m}, {}, m);
    LiveExactly(env, view, {m}, {}, m);
  }

  /** Pins that spare the blocks with links do not stand in the way of any walk inside the DAG. */
  lemma DagReachedAround(env: Env, view: View, m: CID, single: set<CID>, c: CID)
    requires c in DagOf(env, view, m)
    requires forall x :: Interior(env, view, m, x) ==> x !in single
    ensures c in single || Reached(env, DagView(env, view, m), {m}, single, c)
  {
    hide Links;
    LiveExactly(env, view, {m}, {}, c);
    var p :| WalkTo(env, view, {m}, {}, p, c);
    forall i | 0 <= i < |p| - 1
      ensures p[i] !in single && p[i + 1] in Kids(env, DagView(env, view, m), p[i])
    {
      WalkInDag(env, view, m, p, i);
      assert p[i + 1] in Kids(env, view, p[i]);
      assert Interior(env, view, m, p[i]);
    }
    if c !in single {
      assert forall i :: 0 < i < |p| ==> p[i] == p[(i - 1) + 1];
      assert WalkTo(env, DagView(env, view, m), {m}, single, p, c);
    }
  }

  lemma {:induction false} WalkInDag(env: Env, view: View, m: CID, p: seq<CID>, i: nat)
    requires Walk(env, view, {}, p) && p[0] == m && i < |p|
    ensures p[i] in DagOf(env, view, m)
  {
    if i == 0 {
      RootInDag(env, view, m);
    } else {
      WalkInDag(env, view, m, p, i - 1);
      DagClosed(env, view, m, p[i - 1], p[i]);
    }
  }

  lemma GuardedStep(env: Env, view: View, m: CID, w: World, step: Step, w': World)
    requires Guarded(env, view, m, w.s) && Next(env, w, step, w') && Harmless(env, view, m, step)
    ensures Guarded(env, view, m, w'.s)
  {
    hide Interior, LiveIn, ViewOf, Read, ReadOrFetch, UnseenOf, Kids;
  }

  /** Removing blocks outside snap keeps the blocks of snap. */
  lemma RemovalHolds(env: Env, snap: View, store: map<CID, bytes>, store': map<CID, bytes>)
    requires Holds(env, snap, store)
    requires forall c :: c in snap ==> c in store' && (c in store ==> store'[c] == store[c])
    ensures Holds(env, snap, store')
  {
    hide DecodeBlock;
    forall c | c in snap
      ensures c in ViewOf(env, store') && ViewOf(env, store')[c] == snap[c]
    {
      assert c in ViewOf(env, store);
    }
  }

  /** Walks inside snap are walks in every store that holds snap. */
  lemma ReachedInStore(
      env: Env, snap: View, store: map<CID, bytes>, roots: set<CID>, roots': set<CID>, avoid: set<CID>, c: CID)
    requires Holds(env, snap, store) && roots <= roots' && Reached(env, snap, roots, avoid, c)
    ensures Reached(env, ViewOf(env, store), roots', avoid, c)
  {
    hide Links, ViewOf;
    var p :| WalkTo(env, snap, roots, avoid, p, c);
    forall i | 0 < i < |p|
      ensures p[i] in Kids(env, ViewOf(env, store), p[i - 1])
    {
      assert p[i] in Kids(env, snap, p[i - 1]);
    }
    assert WalkTo(env, ViewOf(env, store), roots', avoid, p, c);
  }

  lemma SweepSafe(env: Env, view: View, m: CID, w: World, w': World)
    requires Safe(env, view, m, w) && Next(env, w, Sweep, w')
    ensures Covers(env, DagView(env, view, m), {m}, w')
  {
    var snap := DagView(env, view, m);
    forall c | c in snap
      ensures c in w'.s.store
    {
      DagReachedAround(env, view, m, w.phase.single, c);
      CoveredReached(env, snap, {m}, w, c);
      assert c in ViewOf(env, w.s.store);
    }
    RemovalHolds(env, snap, w.s.store, w'.s.store);
  }

  lemma CollectSafe(env: Env, view: View, m: CID, w: World, now: Instant, expiry: Instant, w': World)
    requires Safe(env, view, m, w) && Next(env, w, Collect(now, expiry), w')
    ensures Covers(env, DagView(env, view, m), {m}, w')
  {
    hide LiveIn, WalkedIn, DagView, Holds, Guarded, RenewAll, Interior;
    var snap := DagView(env, view, m);
    forall c | c in snap
      ensures c in w'.s.store
    {
      CollectMarks(env, view, m, w, now, c);
    }
    RemovalHolds(env, snap, w.s.store, w'.s.store);
  }

  lemma CollectMarks(env: Env, view: View, m: CID, w: World, now: Instant, c: CID)
    requires Safe(env, view, m, w) && c in DagView(env, view, m)
    ensures c in w.s.store && c in LiveIn(env, w.s, now)
  {
    var snap, single := DagView(env, view, m), SinglePins(w.s, now);
    assert forall x :: Interior(env, view, m, x) ==> x !in single;
    assert c in ViewOf(env, w.s.store);
    hide Links, DecodeBlock, SinglePins, Live, DagView;
    DagReachedAround(env, view, m, single, c);
    if c !in single {
      ReachedInStore(env, snap, w.s.store, {m}, RecursivePins(w.s), single, c);
    }
    LiveExactly(env, ViewOf(env, w.s.store), RecursivePins(w.s), single, c);
  }

  lemma SafeStep(env: Env, view: View, m: CID, w: World, step: Step, w': World)
    requires Safe(env, view, m, w) && Next(env, w, step, w') && Harmless(env, view, m, step)
    ensures Safe(env, view, m, w')
  {
    hide Interior, DagView, Holds, LiveIn, ViewOf, Read, ReadOrFetch, UnseenOf, Kids;
    GuardedStep(env, view, m, w, step, w');
    match step
    case Sweep => SweepSafe(env, view, m, w, w');
    case Collect(now, expiry) => CollectSafe(env, view, m, w, now, expiry, w');
    case _ => CoversStep(env, DagView(env, view, m), {m}, w, step, w');
  }

  /** A collection is marking, but of the blocks of the DAG its snapshot holds only ones that are marked already. */
  ghost predicate Fresh(env: Env, view: View, m: CID, w: World) {
    && w.phase.Marking? && Guarded(env, view, m, w.s) && Holds(env, DagView(env, view, m), w.s.store)
    && forall c :: c in DagView(env, view, m) && c in w.phase.keys ==> c in w.phase.live
  }

  /** The file is out of danger: no running collection can free a block of it. */
  ghost predicate Secure(env: Env, view: View, m: CID, w: World) {
    Safe(env, view, m, w) || Fresh(env, view, m, w)
  }

  /** With no collection running, or one whose snapshot has none of its blocks, a guarded file is secure. */
  lemma GuardedIsSecure(env: Env, m: CID, w: World)
    requires var view := ViewOf(env, w.s.store);
             && Guarded(env, view, m, w.s)
             && (w.phase.Marking? ==> DagView(env, view, m).Keys !! w.phase.keys)
    ensures Secure(env, ViewOf(env, w.s.store), m, w)
  {
    hide DecodeBlock, Interior, DagOf;
  }

  lemma FreshStep(env: Env, view: View, m: CID, w: World, step: Step, w': World)
    requires Fresh(env, view, m, w) && Next(env, w, step, w') && Harmless(env, view, m, step)
    ensures Secure(env, view, m, w')
  {
    hide Interior, DagView, Holds, LiveIn, ViewOf, Read, ReadOrFetch, UnseenOf, Kids;
    GuardedStep(env, view, m, w, step, w');
    var snap := DagView(env, view, m);
    if step.Sweep? {
      HoldsMeans(env, snap, w.s.store);
      RemovalHolds(env, snap, w.s.store, w'.s.store);
    } else {
      StepHolds(env, snap, w, step, w');
    }
  }

  lemma HoldsMeans(env: Env, snap: View, store: map<CID, bytes>)
    requires Holds(env, snap, store)
    ensures forall c :: c in snap ==> c in store
  {
    hide DecodeBlock;
    forall c | c in snap
      ensures c in store
    {
      assert c in ViewOf(env, store);
    }
  }

  lemma SecureStep(env: Env, view: View, m: CID, w: World, step: Step, w': World)
    requires Secure(env, view, m, w) && Next(env, w, step, w') && Harmless(env, view, m, step)
    ensures Secure(env, view, m, w')
  {
    hide Safe, Fresh, Harmless, Next;
    if Safe(env, view, m, w) {
      SafeStep(env, view, m, w, step, w');
    } else {
      FreshStep(env, view, m, w, step, w');
    }
  }

  lemma {:induction false} SecureRun(env: Env, view: View, m: CID, ws: seq<World>, steps: seq<Step>, i: nat)
    requires Run(env, ws, steps) && Secure(env, view, m, ws[0]) && i <= |steps|
    requires forall j :: 0 <= j < |steps| ==> Harmless(env, view, m, steps[j])
    ensures Secure(env, view, m, ws[i])
  {
    hide Secure, Harmless, Next;
    if i > 0 {
      SecureRun(env, view, m, ws, steps, i - 1);
      assert Next(env, ws[i - 1], steps[i - 1], ws[(i - 1) + 1]);
      SecureStep(env, view, m, ws[i - 1], steps[i - 1], ws[i]);
    }
  }

  /** A store that keeps the file secure answers for the blocks of the DAG as the view does, and their links stay in
      the DAG. */
  lemma SecureAnswers(env: Env, view: View, m: CID, w: World, c: CID)
    requires Secure(env, view, m, w) && c in DagOf(env, view, m) && c in view
    ensures c in ViewOf(env, w.s.store) && ViewOf(env, w.s.store)[c] == view[c]
    ensures forall k :: k in Kids(env, view, c) ==> k in DagOf(env, view, m)
  {
    hide ViewOf, DagOf, Kids, Guarded, Interior;
    assert c in DagView(env, view, m);
    forall k | k in Kids(env, view, c)
      ensures k in DagOf(env, view, m)
    {
      DagClosed(env, view, m, c, k);
    }
  }

  lemma SecureFile(env: Env, view: View, m: CID, w: World, data: bytes, h: nat)
    requires Secure(env, view, m, w) && FileAt(env, view, m, data, h) && |data| < TWO63
    ensures var now := ViewOf(env, w.s.store);
            FileAt(env, now, m, data, h) && BoundedFile(env, now, m, h) && FetchFile(env, now, m, h) == Ok(data)
  {
    hide Secure, DagOf, Kids, ViewOf, FileAt, BoundedFile, FetchFile;
    var now := ViewOf(env, w.s.store);
    var S := iset c | c in DagOf(env, view, m);
    forall c | c in S && c in view
      ensures c in now && now[c] == view[c] && forall k :: k in Kids(env, view, c) ==> k in S
    {
      SecureAnswers(env, view, m, w, c);
    }
    RootInDag(env, view, m);
    FileKept(env, view, now, S, m, data, h);
    FetchReturnsFile(env, now, m, data, h);
  }

  /** A file whose manifest is pinned recursively is fetched byte for byte at every point of every harmless run, also of
      one that begins while a collection is marking, if that one's snapshot has none of its blocks unmarked. */
  lemma Durability(env: Env, ws: seq<World>, steps: seq<Step>, m: CID, data: bytes, h: nat, i: nat)
    requires Run(env, ws, steps) && i <= |steps|
    requires var view := ViewOf(env, ws[0].s.store);
             && FileAt(env, view, m, data, h) && |data| < TWO63
             && Secure(env, view, m, ws[0])
             && forall j :: 0 <= j < |steps| ==> Harmless(env, view, m, steps[j])
    ensures var now := ViewOf(env, ws[i].s.store);
            FileAt(env, now, m, data, h) && BoundedFile(env, now, m, h) && FetchFile(env, now, m, h) == Ok(data)
  {
    var view := ViewOf(env, ws[0].s.store);
    SecureRun(env, view, m, ws, steps, i);
    SecureFile(env, view, m, ws[i], data, h);
  }

  // ---------------------------------------------------------------- why the hypotheses are needed

  /** Every walk from a recursive pin to k goes through c. */
  ghost predicate Gate(env: Env, s: State, c: CID, k: CID) {
    c != k && forall p :: WalkTo(env, ViewOf(env, s.store), RecursivePins(s), {}, p, k) ==> c in p
  }

  lemma AvoidingWalk(env: Env, view: View, roots: set<CID>, avoid: set<CID>, p: seq<CID>, c: CID, k: CID)
    requires WalkTo(env, view, roots, avoid, p, k) && c in avoid
    ensures WalkTo(env, view, roots, {}, p, k) && c !in p
  {
  }

  /** A single pin on c hides from a collection what recursive pins reach only through c. */
  lemma GateFreed(env: Env, s: State, now: Instant, c: CID, k: CID)
    requires Gate(env, s, c, k) && c in SinglePins(s, now) && k !in SinglePins(s, now)
    ensures k !in LiveIn(env, s, now)
  {
    hide Kids, ViewOf, RecursivePins, SinglePins, WalkTo;
    var view, roots, single := ViewOf(env, s.store), RecursivePins(s), SinglePins(s, now);
    forall p | WalkTo(env, view, roots, single, p, k)
      ensures WalkTo(env, view, roots, {}, p, k) && c !in p
    {
      AvoidingWalk(env, view, roots, single, p, c, k);
    }
    LiveExactly(env, view, roots, single, k);
  }

  /** A collection renews the expired soft pin of every block it reads: the next one takes it for a root. */
  lemma ExpiredPinRevived(env: Env, s: State, c: CID, now: Instant, expiry: Instant, later: Instant)
    requires c in s.soft && s.soft[c] <= now && c in WalkedIn(env, s, now) && later < expiry
    requires c !in s.hard
    ensures c !in SinglePins(s, now) && c in SinglePins(AfterGC(env, s, now, expiry), later)
  {
    hide LiveIn, ViewOf;
  }

  /** So two collections in a row can free a block that a recursive pin reaches all along. */
  lemma SecondCollectionFrees(env: Env, s: State, c: CID, k: CID, now: Instant, expiry: Instant, later: Instant)
    requires c in s.soft && s.soft[c] <= now && c !in s.hard && c in WalkedIn(env, s, now) && later < expiry
    requires k in Kids(env, ViewOf(env, s.store), c) && k !in s.hard && k !in s.soft
    requires Gate(env, s, c, k)
    ensures k in LiveIn(env, s, now)
    ensures k !in LiveIn(env, AfterGC(env, s, now, expiry), later)
  {
    var view, roots, single := ViewOf(env, s.store), RecursivePins(s), SinglePins(s, now);
    var s' := AfterGC(env, s, now, expiry);
    ExpiredPinRevived(env, s, c, now, expiry, later);
    LiveExactly(env, view, roots, single, c);
    KidReached(env, view, roots, single, c, k);
    LiveExactly(env, view, roots, single, k);
    assert Gate(env, s', c, k) by {
      forall p | WalkTo(env, ViewOf(env, s'.store), RecursivePins(s'), {}, p, k)
        ensures c in p
      {
        ShrunkWalk(env, s, s', p, k);
      }
    }
    GateFreed(env, s', later, c, k);
  }

  /** Walks over what a collection left were walks before it. */
  lemma ShrunkWalk(env: Env, s: State, s': State, p: seq<CID>, k: CID)
    requires s'.hard == s.hard && forall c :: c in s'.store ==> c in s.store && s'.store[c] == s.store[c]
    requires WalkTo(env, ViewOf(env, s'.store), RecursivePins(s'), {}, p, k)
    ensures WalkTo(env, ViewOf(env, s.store), RecursivePins(s), {}, p, k)
  {
    hide DecodeBlock, Links;
    var view, view' := ViewOf(env, s.store), ViewOf(env, s'.store);
    forall i | 0 < i < |p|
      ensures p[i] in Kids(env, view, p[i - 1])
    {
      assert p[i] in Kids(env, view', p[i - 1]);
      assert p[i - 1] in view' && view[p[i - 1]] == view'[p[i - 1]];
    }
  }

  // ---------------------------------------------------------------- when the next collection spares a block again

  /** The single pins the next collection will see: pins of blocks read now last until expiry, the others as before. */
  ghost function LaterPins(env: Env, s: State, now: Instant, expiry: Instant, later: Instant): set<CID> {
    (set c | c in s.hard && s.hard[c].Direct?)
    + set c | c in s.soft && later < if c in WalkedIn(env, s, now) then expiry else s.soft[c]
  }

  /** The part of a view in a set of blocks. */
  ghost function Within(view: View, keep: set<CID>): View {
    map c | c in view && c in keep :: view[c]
  }

  /** A block kept by one collection is kept by the next one, with no change in between, if and only if it has a single
      pin by then, or recursive pins reach it around those pins along blocks that the first collection kept. */
  lemma SparedAgain(
      env: Env, s: State, now: Instant, expiry: Instant, later: Instant, expiry': Instant, c: CID)
    requires c in AfterGC(env, s, now, expiry).store
    ensures var kept := Within(ViewOf(env, s.store), LiveIn(env, s, now));
            var pins := LaterPins(env, s, now, expiry, later);
            c in AfterGC(env, AfterGC(env, s, now, expiry), later, expiry').store <==>
              c in pins || Reached(env, kept, RecursivePins(s), pins, c)
  {
    var s' := AfterGC(env, s, now, expiry);
    KeptView(env, s.store, LiveIn(env, s, now));
    hide ViewOf, LiveIn, WalkedIn, Reached, Live;
    assert RecursivePins(s') == RecursivePins(s);
    assert SinglePins(s', later) == LaterPins(env, s, now, expiry, later);
    LiveExactly(env, ViewOf(env, s'.store), RecursivePins(s'), SinglePins(s', later), c);
    LiveInMeans(env, s', later);
  }

  lemma LiveInMeans(env: Env, s: State, now: Instant)
    ensures LiveIn(env, s, now) == Live(env, ViewOf(env, s.store), RecursivePins(s), SinglePins(s, now))
  {
  }

  lemma KeptView(env: Env, store: map<CID, bytes>, keep: set<CID>)
    ensures ViewOf(env, Keep(store, keep)) == Within(ViewOf(env, store), keep)
  {
    hide DecodeBlock;
  }
}
