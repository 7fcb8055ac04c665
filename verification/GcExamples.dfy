/** Concrete states in which a collection frees what a recursive pin reaches. */
module GcExamples {
  import opened Block
  import opened DagCodec
  import opened DagTree
  import opened StoreSpec
  import opened Samples
  import GcProtocol

  /** What the sample store answers, and its links. */
  function SampleAnswers(): View {
    ViewOf(SampleEnv(), SampleStore())
  }

  lemma SampleKids()
    ensures Leaf().cid in SampleAnswers() && Middle().cid in SampleAnswers() && Top().cid in SampleAnswers()
    ensures Kids(SampleEnv(), SampleAnswers(), Top().cid) == [Middle().cid]
    ensures Kids(SampleEnv(), SampleAnswers(), Middle().cid) == [Leaf().cid]
    ensures forall c :: Leaf().cid in Kids(SampleEnv(), SampleAnswers(), c) ==> c == Middle().cid
    ensures Leaf().cid != Middle().cid && Leaf().cid != Top().cid && Middle().cid != Top().cid
  {
    SampleBlocks();
    SampleView();
    hide Leaf, Middle, Top, Links, SampleEnv, SampleStore, ViewOf;
  }

  /** Every walk from the manifest to the leaf goes through the node. */
  lemma OnlyThroughMiddle(avoid: set<CID>, p: seq<CID>)
    requires WalkTo(SampleEnv(), SampleAnswers(), {Top().cid}, avoid, p, Leaf().cid)
    ensures Middle().cid in p
  {
    SampleKids();
    hide Leaf, Middle, Top, Kids, SampleEnv, SampleAnswers;
    var n := |p| - 1;
    assert n > 0 && p[n] in Kids(SampleEnv(), SampleAnswers(), p[n - 1]);
  }

  /** And there is one. */
  lemma WalksDown()
    ensures Reached(SampleEnv(), SampleAnswers(), {Top().cid}, {}, Middle().cid)
    ensures Reached(SampleEnv(), SampleAnswers(), {Top().cid}, {}, Leaf().cid)
  {
    SampleKids();
    hide Leaf, Middle, Top, Kids, SampleEnv, SampleAnswers, Reached;
    RootReached(SampleEnv(), SampleAnswers(), {Top().cid}, {}, Top().cid);
    KidReached(SampleEnv(), SampleAnswers(), {Top().cid}, {}, Top().cid, Middle().cid);
    KidReached(SampleEnv(), SampleAnswers(), {Top().cid}, {}, Middle().cid, Leaf().cid);
  }

  lemma MiddleIsGate(s: State)
    requires s.store == SampleStore() && RecursivePins(s) == {Top().cid}
    ensures GcProtocol.Gate(SampleEnv(), s, Middle().cid, Leaf().cid)
  {
    SampleKids();
    hide Leaf, Middle, Top, ViewOf, SampleEnv, SampleStore, WalkTo;
    forall p | WalkTo(SampleEnv(), ViewOf(SampleEnv(), s.store), RecursivePins(s), {}, p, Leaf().cid)
      ensures Middle().cid in p
    {
      OnlyThroughMiddle({}, p);
    }
  }

  /** With a direct pin on the node, a collection frees the leaf, which the recursive pin on the manifest reaches. */
  lemma DirectPinFrees(now: Instant, expiry: Instant) returns (s: State)
    ensures s == State(SampleStore(), map[Top().cid := Pin.Recursive, Middle().cid := Pin.Direct], map[])
    ensures Reached(SampleEnv(), ViewOf(SampleEnv(), s.store), RecursivePins(s), {}, Leaf().cid)
    ensures Leaf().cid in s.store && Leaf().cid !in AfterGC(SampleEnv(), s, now, expiry).store
  {
    SampleKids();
    s := State(SampleStore(), map[Top().cid := Pin.Recursive, Middle().cid := Pin.Direct], map[]);
    WalksDown();
    hide Leaf, Middle, Top, ViewOf, SampleEnv, Kids, Reached;
    assert RecursivePins(s) == {Top().cid} && SinglePins(s, now) == {Middle().cid};
    MiddleIsGate(s);
    hide SampleAnswers, LiveIn;
    GcProtocol.GateFreed(SampleEnv(), s, now, Middle().cid, Leaf().cid);
  }

  /** With an expired soft pin on the node, a first collection spares the leaf and renews the pin; a second one,
      while that lasts, frees the leaf. Nobody has changed a pin in between. */
  lemma ExpiredPinFrees(now: Instant, expiry: Instant, later: Instant, expiry': Instant) returns (s: State)
    requires later < expiry
    ensures s == State(SampleStore(), map[Top().cid := Pin.Recursive], map[Middle().cid := now])
    ensures var once := AfterGC(SampleEnv(), s, now, expiry);
            var twice := AfterGC(SampleEnv(), once, later, expiry');
            && Leaf().cid in s.store && Leaf().cid in once.store && Leaf().cid !in twice.store
            && twice.hard == once.hard == s.hard
  {
    s := State(SampleStore(), map[Top().cid := Pin.Recursive], map[Middle().cid := now]);
    SampleKids();
    WalksDown();
    hide Leaf, Middle, Top, SampleEnv, ViewOf, Kids, Reached;
    assert RecursivePins(s) == {Top().cid} && SinglePins(s, now) == {};
    MiddleIsGate(s);
    LiveExactly(SampleEnv(), SampleAnswers(), {Top().cid}, {}, Middle().cid);
    assert Middle().cid in WalkedIn(SampleEnv(), s, now);
    hide SampleAnswers, LiveIn, WalkedIn, SampleStore;
    GcProtocol.SecondCollectionFrees(SampleEnv(), s, Middle().cid, Leaf().cid, now, expiry, later);
  }
}
