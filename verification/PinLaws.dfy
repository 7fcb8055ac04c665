/** What each pin operation does to the roots of a collection, and to the blocks a collection keeps. */
module PinLaws {
  import opened Block
  import opened DagTree
  import opened StoreSpec
  import GcProtocol

  /** Which CIDs are roots to be walked, and which are kept alone, at any time after each operation. */
  lemma HardPinSets(s: State, c: CID, now: Instant)
    ensures RecursivePins(PinRecursive(s, c)) == RecursivePins(s) + {c}
    ensures SinglePins(PinRecursive(s, c), now) == SinglePins(s, now) - {c}
    ensures RecursivePins(PinDirect(s, c)) == RecursivePins(s) - {c}
    ensures SinglePins(PinDirect(s, c), now) == SinglePins(s, now) + {c}
  {
  }

  lemma SoftPinSets(s: State, c: CID, expiry: Instant, now: Instant)
    ensures RecursivePins(PinSoft(s, c, expiry)) == RecursivePins(s)
    ensures SinglePins(PinSoft(s, c, expiry), now)
         == if c in s.hard then SinglePins(s, now) else SinglePins(s, now) - {c} + if now < expiry then {c} else {}
  {
  }

  lemma UnpinSets(s: State, c: CID, now: Instant)
    ensures RecursivePins(Unpin(s, c)) == RecursivePins(s) - {c}
    ensures SinglePins(Unpin(s, c), now) == SinglePins(s, now) - {c}
  {
  }

  /** No operation on pins touches a block. */
  lemma PinsLeaveBlocks(s: State, c: CID, expiry: Instant)
    ensures PinRecursive(s, c).store == PinDirect(s, c).store == PinSoft(s, c, expiry).store == Unpin(s, c).store
         == s.store
  {
  }

  /** A block below m with links of its own, other than m, has no pin that would stop a walk. */
  ghost predicate OthersUnblocked(env: Env, view: View, m: CID, s: State) {
    forall c :: c != m && GcProtocol.Interior(env, view, m, c) ==>
      (c in s.hard ==> s.hard[c].Recursive?) && c !in s.soft
  }

  /** Pinning m guards its DAG if and only if no other block with links has a direct or soft pin, whatever pin m
      had itself. */
  lemma PinGuards(env: Env, view: View, m: CID, s: State)
    ensures GcProtocol.Guarded(env, view, m, PinRecursive(s, m)) <==> OthersUnblocked(env, view, m, s)
  {
    hide GcProtocol.Interior;
    var s' := PinRecursive(s, m);
    assert m !in s'.soft && forall c :: c != m ==> (c in s'.soft <==> c in s.soft);
  }

  /** What a collection keeps of a block: it is kept alone, or walks from the roots reach it. */
  lemma KeptExactly(env: Env, s: State, now: Instant, expiry: Instant, c: CID)
    ensures c in AfterGC(env, s, now, expiry).store
       <==> c in s.store && (c in SinglePins(s, now)
                             || Reached(env, ViewOf(env, s.store), RecursivePins(s), SinglePins(s, now), c))
    ensures c in AfterGC(env, s, now, expiry).store ==> AfterGC(env, s, now, expiry).store[c] == s.store[c]
  {
    hide SinglePins, RecursivePins, Reached, ViewOf;
    LiveExactly(env, ViewOf(env, s.store), RecursivePins(s), SinglePins(s, now), c);
  }

  /** What it does to the pins: a soft pin is renewed if and only if its block is readable, has no pin that counts for
      itself alone at that time, and is reached around those pins; every other pin stays as it is. */
  lemma RenewedExactly(env: Env, s: State, now: Instant, expiry: Instant, c: CID)
    ensures var s', view, single := AfterGC(env, s, now, expiry), ViewOf(env, s.store), SinglePins(s, now);
            && s'.hard == s.hard && s'.soft.Keys == s.soft.Keys
            && (c in s.soft ==>
                  s'.soft[c] == if c in view && c !in single && Reached(env, view, RecursivePins(s), single, c)
                                then expiry else s.soft[c])
  {
    hide SinglePins, RecursivePins, Reached, ViewOf;
    LiveExactly(env, ViewOf(env, s.store), RecursivePins(s), SinglePins(s, now), c);
  }

  /** A hard pin keeps a stored block through every collection. */
  lemma HardPinKeeps(env: Env, s: State, now: Instant, expiry: Instant, c: CID)
    requires c in s.store
    ensures c in AfterGC(env, PinRecursive(s, c), now, expiry).store
    ensures c in AfterGC(env, PinDirect(s, c), now, expiry).store
  {
    HardPinSets(s, c, now);
    KeptExactly(env, PinRecursive(s, c), now, expiry, c);
    KeptExactly(env, PinDirect(s, c), now, expiry, c);
    hide SinglePins, RecursivePins, ViewOf, Reached;
    RootReached(env, ViewOf(env, s.store), RecursivePins(PinRecursive(s, c)), SinglePins(PinRecursive(s, c), now), c);
  }

  /** Without a hard pin, a softly pinned block is kept until its expiry, and from then on if and only if a recursive
      pin reaches it. */
  lemma SoftPinExactly(env: Env, s: State, c: CID, until: Instant, now: Instant, expiry: Instant)
    requires c !in s.hard
    ensures c in AfterGC(env, PinSoft(s, c, until), now, expiry).store
       <==> c in s.store && (now < until || Reached(env, ViewOf(env, s.store), RecursivePins(s),
                                                    SinglePins(s, now) - {c}, c))
  {
    SoftPinSets(s, c, until, now);
    KeptExactly(env, PinSoft(s, c, until), now, expiry, c);
    hide SinglePins, RecursivePins, ViewOf, Reached;
    if now >= until {
      assert SinglePins(PinSoft(s, c, until), now) == SinglePins(s, now) - {c};
    }
  }

  /** A block that was unpinned is kept if and only if a recursive pin of another one reaches it. */
  lemma UnpinExactly(env: Env, s: State, c: CID, now: Instant, expiry: Instant)
    ensures c in AfterGC(env, Unpin(s, c), now, expiry).store
       <==> c in s.store && Reached(env, ViewOf(env, s.store), RecursivePins(s) - {c}, SinglePins(s, now) - {c}, c)
  {
    UnpinSets(s, c, now);
    KeptExactly(env, Unpin(s, c), now, expiry, c);
    hide SinglePins, RecursivePins, ViewOf, Reached;
  }
}
