/** Exactly which blocks a running collection frees, seen from any point of its mark phase. */
module GcExact {
  import opened Bytes
  import opened Block
  import opened DagTree
  import opened StoreSpec
  import opened GcProtocol

  function Elems(s: seq<CID>): set<CID> {
    set k | k in s
  }

  /** x is marked, or the stack reaches it around the marked blocks. */
  ghost predicate Due(env: Env, w: World, x: CID)
    requires w.phase.Marking?
  {
    x in w.phase.live || Reached(env, ViewOf(env, w.s.store), Elems(w.phase.stack), w.phase.live, x)
  }

  /** A step of anybody while w's collection goes on. Stored blocks are not replaced by others, and nobody stores a
      block, other than c, that was missing although it is due. */
  ghost predicate Aside(env: Env, w: World, c: CID, step: Step)
    requires w.phase.Marking?
  {
    && !step.Sweep? && !step.Collect? && Respects(ViewOf(env, w.s.store), step)
    && (step.DoPut? ==> MayStore(env, w, c, step.b.cid))
    && (step.DoFetch? ==> MayStore(env, w, c, step.c))
  }

  ghost predicate MayStore(env: Env, w: World, c: CID, x: CID)
    requires w.phase.Marking?
  {
    x in ViewOf(env, w.s.store) || x == c || !Due(env, w, x)
  }

  /** The rest of a collection: steps of anybody, and at last the sweep. */
  ghost predicate RestOfCollection(env: Env, ws: seq<World>, steps: seq<Step>, c: CID) {
    && Run(env, ws, steps) && ws[0].phase.Marking? && steps != [] && steps[|steps| - 1].Sweep?
    && forall i :: 0 <= i < |steps| - 1 ==> Aside(env, ws[0], c, steps[i])
  }

  // ---------------------------------------------------------------- what is due is marked

  /** c is marked, or the stack reaches it within snap. */
  ghost predicate Coming(env: Env, snap: View, w: World, c: CID) {
    && w.phase.Marking? && Holds(env, snap, w.s.store)
    && (c in w.phase.live || Reached(env, snap, Elems(w.phase.stack), w.phase.live, c))
  }

  lemma ComingStep(env: Env, snap: View, w: World, step: Step, w': World, c: CID)
    requires Coming(env, snap, w, c) && Next(env, w, step, w') && Respects(snap, step)
    requires !step.Sweep? && !step.Collect?
    ensures Coming(env, snap, w', c)
  {
    StepHolds(env, snap, w, step, w');
    if step.MarkOne? && c !in w.phase.live {
      ComingMark(env, snap, w, step, w', c);
    }
  }

  lemma ComingMark(env: Env, snap: View, w: World, step: Step, w': World, c: CID)
    requires Coming(env, snap, w, c) && Next(env, w, step, w') && step.MarkOne? && c !in w.phase.live
    requires Holds(env, snap, w'.s.store)
    ensures Coming(env, snap, w', c)
  {
    hide DecodeBlock, AfterRead, Kids, ViewOf, Holds;
    var stack := w.phase.stack;
    var x, rest := stack[|stack| - 1], stack[..|stack| - 1];
    assert stack == rest + [x];
    var p :| WalkTo(env, snap, Elems(stack), w.phase.live, p, c);
    if x in w.phase.live {
      assert WalkTo(env, snap, Elems(rest), w.phase.live, p, c);
    } else if c != x {
      var q := AfterLast(env, snap, w, p, c, x);
      KidsInSnap(env, snap, w.s.store, x);
      assert WalkTo(env, snap, Elems(w'.phase.stack), w'.phase.live, q, c);
    }
  }

  /** The part of a walk behind its last visit to x, which starts at an element of the stack or at a child of x. */
  lemma AfterLast(env: Env, snap: View, w: World, p: seq<CID>, c: CID, x: CID) returns (q: seq<CID>)
    requires w.phase.Marking? && w.phase.stack != [] && x == w.phase.stack[|w.phase.stack| - 1] && c != x
    requires WalkTo(env, snap, Elems(w.phase.stack), w.phase.live, p, c)
    ensures Walk(env, snap, w.phase.live + {x}, q) && q[|q| - 1] == c
    ensures q[0] in w.phase.stack[..|w.phase.stack| - 1] || q[0] in Kids(env, snap, x)
  {
    hide Kids;
    if x !in p {
      q := p;
      assert w.phase.stack == w.phase.stack[..|w.phase.stack| - 1] + [x];
    } else {
      var i := LastIndex(p, x);
      assert p[i + 1] in Kids(env, snap, p[(i + 1) - 1]);
      q := p[i + 1..];
      forall j | 0 < j < |q|
        ensures q[j] in Kids(env, snap, q[j - 1])
      {
        assert q[j] == p[i + 1 + j] && q[j - 1] == p[(i + 1 + j) - 1];
      }
    }
  }

  lemma LastIndex(p: seq<CID>, x: CID) returns (i: nat)
    requires x in p
    ensures i < |p| && p[i] == x && x !in p[i + 1..]
  {
    var n := |p| - 1;
    if p[n] == x {
      i := n;
    } else {
      i := LastIndex(p[..n], x);
      assert p[i + 1..] == p[..n][i + 1..] + [p[n]];
    }
  }

  lemma KidsInSnap(env: Env, snap: View, store: map<CID, bytes>, x: CID)
    requires Holds(env, snap, store)
    ensures forall k :: k in Kids(env, snap, x) ==> k in Kids(env, ViewOf(env, store), x)
  {
    hide DecodeBlock;
  }

  lemma {:induction false} ComingRun(env: Env, ws: seq<World>, steps: seq<Step>, c: CID, i: nat)
    requires RestOfCollection(env, ws, steps, c) && i < |steps| && Due(env, ws[0], c)
    ensures Coming(env, ViewOf(env, ws[0].s.store), ws[i], c)
  {
    hide Coming, Next, Respects, MayStore;
    if i == 0 {
      StartComing(env, ws[0], c);
    } else {
      ComingRun(env, ws, steps, c, i - 1);
      assert Next(env, ws[i - 1], steps[i - 1], ws[(i - 1) + 1]) && Aside(env, ws[0], c, steps[i - 1]);
      ComingStep(env, ViewOf(env, ws[0].s.store), ws[i - 1], steps[i - 1], ws[i], c);
    }
  }

  lemma StartComing(env: Env, w: World, c: CID)
    requires w.phase.Marking? && Due(env, w, c)
    ensures Coming(env, ViewOf(env, w.s.store), w, c)
  {
  }

  // ---------------------------------------------------------------- what is not due is not marked

  /** Nothing is marked or on the stack but what was due at the start. */
  ghost predicate Confined(env: Env, w: World, now: World)
    requires w.phase.Marking?
  {
    && now.phase.Marking? && now.phase.keys == w.phase.keys && w.phase.live <= now.phase.live
    && (forall x :: x in now.phase.live || x in now.phase.stack ==> Due(env, w, x))
  }

  /** The due blocks in the store are those of the start. */
  ghost predicate Familiar(env: Env, w: World, c: CID, now: World)
    requires w.phase.Marking?
  {
    forall x :: Due(env, w, x) && x != c && x in ViewOf(env, now.s.store) ==>
      x in ViewOf(env, w.s.store) && ViewOf(env, now.s.store)[x] == ViewOf(env, w.s.store)[x]
  }

  /** What is due has due children. */
  lemma DueKid(env: Env, w: World, x: CID, k: CID)
    requires w.phase.Marking? && Due(env, w, x) && x !in w.phase.live && k in Kids(env, ViewOf(env, w.s.store), x)
    ensures Due(env, w, k)
  {
    hide Kids, Reached;
    if k !in w.phase.live {
      KidReached(env, ViewOf(env, w.s.store), Elems(w.phase.stack), w.phase.live, x, k);
    }
  }

  lemma ConfinedStep(env: Env, w: World, c: CID, now: World, step: Step, next: World)
    requires w.phase.Marking? && !Due(env, w, c) && Confined(env, w, now) && Familiar(env, w, c, now)
    requires Next(env, now, step, next) && Aside(env, w, c, step)
    ensures Confined(env, w, next)
  {
    hide Due, ViewOf, Kids, AfterRead, Respects;
    if step.MarkOne? {
      ConfinedMark(env, w, c, now, step, next);
    }
  }

  lemma ConfinedMark(env: Env, w: World, c: CID, now: World, step: Step, next: World)
    requires w.phase.Marking? && !Due(env, w, c) && Confined(env, w, now) && Familiar(env, w, c, now)
    requires Next(env, now, step, next) && step.MarkOne?
    ensures Confined(env, w, next)
  {
    hide Due, ViewOf, AfterRead, DecodeBlock;
    var stack := now.phase.stack;
    var x := stack[|stack| - 1];
    assert x in stack && stack == stack[..|stack| - 1] + [x];
    if x !in now.phase.live {
      forall k | k in Kids(env, ViewOf(env, now.s.store), x)
        ensures Due(env, w, k)
      {
        assert x in ViewOf(env, now.s.store);
        DueKid(env, w, x, k);
      }
    }
  }

  /** Steps aside of the collection store nothing unfamiliar. */
  lemma FamiliarStep(env: Env, w: World, c: CID, now: World, step: Step, next: World)
    requires w.phase.Marking? && !Due(env, w, c) && Familiar(env, w, c, now)
    requires Holds(env, ViewOf(env, w.s.store), now.s.store)
    requires Next(env, now, step, next) && Aside(env, w, c, step)
    ensures Familiar(env, w, c, next)
  {
    hide Due, Holds, Familiar, MayStore, Kids, UnseenOf, Reached, Readable, DecodeBlock;
    StepHolds(env, ViewOf(env, w.s.store), now, step, next);
    forall x | Due(env, w, x) && x != c && x in ViewOf(env, next.s.store)
      ensures x in ViewOf(env, w.s.store) && ViewOf(env, next.s.store)[x] == ViewOf(env, w.s.store)[x]
    {
      FamiliarAt(env, w, c, now, step, next, x);
    }
    assert Familiar(env, w, c, next) by {
      IsFamiliar(env, w, c, next);
    }
  }

  lemma IsFamiliar(env: Env, w: World, c: CID, now: World)
    requires w.phase.Marking?
    requires forall x :: Due(env, w, x) && x != c && x in ViewOf(env, now.s.store) ==>
               x in ViewOf(env, w.s.store) && ViewOf(env, now.s.store)[x] == ViewOf(env, w.s.store)[x]
    ensures Familiar(env, w, c, now)
  {
  }

  lemma FamiliarAt(env: Env, w: World, c: CID, now: World, step: Step, next: World, x: CID)
    requires w.phase.Marking? && Familiar(env, w, c, now) && Next(env, now, step, next) && Aside(env, w, c, step)
    requires Holds(env, ViewOf(env, w.s.store), next.s.store)
    requires Due(env, w, x) && x != c && x in ViewOf(env, next.s.store)
    ensures x in ViewOf(env, w.s.store) && ViewOf(env, next.s.store)[x] == ViewOf(env, w.s.store)[x]
  {
    hide Due, Kids, UnseenOf, DecodeBlock;
    if x !in ViewOf(env, w.s.store) {
      OnlyMayStore(env, w, c, now, step, next, x);
    }
  }

  /** A block that becomes readable in a step was put or fetched in it. */
  lemma OnlyMayStore(env: Env, w: World, c: CID, now: World, step: Step, next: World, x: CID)
    requires w.phase.Marking? && Next(env, now, step, next) && Aside(env, w, c, step)
    requires Due(env, w, x) && x != c && x !in ViewOf(env, w.s.store) && x in ViewOf(env, next.s.store)
    ensures x in ViewOf(env, now.s.store)
  {
    hide Due, Kids, UnseenOf, DecodeBlock, Respects;
  }

  lemma {:induction false} ConfinedRun(env: Env, ws: seq<World>, steps: seq<Step>, c: CID, i: nat)
    requires RestOfCollection(env, ws, steps, c) && i < |steps| && !Due(env, ws[0], c)
    ensures Confined(env, ws[0], ws[i]) && Familiar(env, ws[0], c, ws[i])
    ensures Holds(env, ViewOf(env, ws[0].s.store), ws[i].s.store)
  {
    hide Next, MayStore, Confined, Familiar, Holds, ViewOf;
    if i == 0 {
      StartConfined(env, ws[0], c);
    } else {
      ConfinedRun(env, ws, steps, c, i - 1);
      assert Next(env, ws[i - 1], steps[i - 1], ws[(i - 1) + 1]) && Aside(env, ws[0], c, steps[i - 1]);
      hide Respects;
      ConfinedStep(env, ws[0], c, ws[i - 1], steps[i - 1], ws[i]);
      FamiliarStep(env, ws[0], c, ws[i - 1], steps[i - 1], ws[i]);
      StepHolds(env, ViewOf(env, ws[0].s.store), ws[i - 1], steps[i - 1], ws[i]);
    }
  }

  lemma StartConfined(env: Env, w: World, c: CID)
    requires w.phase.Marking?
    ensures Confined(env, w, w) && Familiar(env, w, c, w) && Holds(env, ViewOf(env, w.s.store), w.s.store)
  {
    hide Kids, DecodeBlock;
    var view, stack, live := ViewOf(env, w.s.store), Elems(w.phase.stack), w.phase.live;
    forall x | x in w.phase.stack && x !in live
      ensures Due(env, w, x)
    {
      RootReached(env, view, stack, live, x);
    }
  }

  // ---------------------------------------------------------------- the exact condition

  /** Whatever is put, read, pinned or unpinned while the collection goes on: a block that is stored when the sweep
      comes is spared if and only if the snapshot had no such key, or it was due. */
  lemma FreedExactly(env: Env, ws: seq<World>, steps: seq<Step>, c: CID)
    requires RestOfCollection(env, ws, steps, c) && c in ws[|steps| - 1].s.store
    ensures c in ws[|steps|].s.store <==> c !in ws[0].phase.keys || Due(env, ws[0], c)
  {
    var n := |steps| - 1;
    KeysStay(env, ws, steps, c, n);
    assert Next(env, ws[n], steps[n], ws[n + 1]);
    if Due(env, ws[0], c) {
      ComingRun(env, ws, steps, c, n);
      NothingComing(env, ViewOf(env, ws[0].s.store), ws[n], c);
    } else {
      ConfinedRun(env, ws, steps, c, n);
    }
  }

  lemma NothingComing(env: Env, snap: View, w: World, c: CID)
    requires Coming(env, snap, w, c) && w.phase.stack == []
    ensures c in w.phase.live
  {
    hide Kids, Holds;
  }

  lemma {:induction false} KeysStay(env: Env, ws: seq<World>, steps: seq<Step>, c: CID, i: nat)
    requires RestOfCollection(env, ws, steps, c) && i < |steps|
    ensures ws[i].phase.Marking? && ws[i].phase.keys == ws[0].phase.keys
  {
    hide MayStore, Respects, ViewOf, Kids, AfterRead, UnseenOf;
    if i > 0 {
      KeysStay(env, ws, steps, c, i - 1);
      assert Next(env, ws[i - 1], steps[i - 1], ws[(i - 1) + 1]) && Aside(env, ws[0], c, steps[i - 1]);
    }
  }

  /** Right after the snapshot, what is due is what a collection on its own would keep. */
  lemma DueAtSnapshot(env: Env, w: World, now: Instant, w': World, x: CID)
    requires Next(env, w, Snapshot(now), w')
    ensures w'.phase.Marking? && (Due(env, w', x) <==> x in LiveIn(env, w.s, now))
  {
    hide Kids, ViewOf, Reached;
    assert Elems(w'.phase.stack) == RecursivePins(w.s);
    LiveExactly(env, ViewOf(env, w.s.store), RecursivePins(w.s), SinglePins(w.s, now), x);
  }

  /** Seen from its snapshot: the collection spares the block if and only if it was stored after the snapshot only, or
      was live at the snapshot; pins that come later do not matter. */
  lemma CollectionExactly(env: Env, ws: seq<World>, steps: seq<Step>, now: Instant, c: CID)
    requires Run(env, ws, steps) && |steps| >= 2 && steps[0] == Snapshot(now)
    requires RestOfCollection(env, ws[1..], steps[1..], c) && c in ws[|steps| - 1].s.store
    ensures c in ws[|steps|].s.store <==> c !in ws[0].s.store || c in LiveIn(env, ws[0].s, now)
  {
    hide RestOfCollection, Due, LiveIn, ViewOf;
    assert Next(env, ws[0], steps[0], ws[0 + 1]);
    DueAtSnapshot(env, ws[0], now, ws[1], c);
    FreedExactly(env, ws[1..], steps[1..], c);
  }
}
