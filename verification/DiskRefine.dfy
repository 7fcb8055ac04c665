/** How a disk store and a memory store stay in step: a disk remembers expiries in whole seconds. */
module DiskRefine {
  import opened Bytes
  import opened Block
  import opened DagTree
  import opened StoreSpec
  import opened DiskKeys
  import opened Samples

  /** A state as the disk remembers it: expiries in whole seconds. */
  function Floored(s: State): State {
    State(s.store, s.hard, FloorAll(s.soft))
  }

  /** No soft pin is in its last, incomplete second. */
  predicate NoneInLastSecond(s: State, now: Instant) {
    forall c :: c in s.soft && now < s.soft[c] ==> now < Floor(s.soft[c])
  }

  function FloorAll(soft: map<CID, Instant>): map<CID, Instant> {
    map c | c in soft :: Floor(soft[c])
  }

  lemma FloorAllUpdates(soft: map<CID, Instant>, c: CID, expiry: Instant)
    ensures FloorAll(soft[c := expiry]) == FloorAll(soft)[c := Floor(expiry)]
    ensures FloorAll(soft - {c}) == FloorAll(soft) - {c}
  {
    hide Floor;
  }

  /** Storing and pinning commute with rounding expiries down to seconds. */
  lemma FlooredCommutes(env: Env, s: State, b: Block, c: CID, expiry: Instant)
    ensures Floored(Put(s, b)) == Put(Floored(s), b)
    ensures Floored(AfterRead(env, s, c, expiry)) == AfterRead(env, Floored(s), c, Floor(expiry))
    ensures Floored(PinRecursive(s, c)) == PinRecursive(Floored(s), c)
    ensures Floored(StoreSpec.PinDirect(s, c)) == StoreSpec.PinDirect(Floored(s), c)
    ensures Floored(StoreSpec.PinSoft(s, c, expiry)) == StoreSpec.PinSoft(Floored(s), c, Floor(expiry))
    ensures Floored(StoreSpec.Unpin(s, c)) == StoreSpec.Unpin(Floored(s), c)
  {
    assert Read(env, Floored(s), c) == Read(env, s, c);
    FloorAllUpdates(s.soft, c, expiry);
    assert c in FloorAll(s.soft) <==> c in s.soft;
    hide Read, FloorAll, Floor;
  }

  /** What a read that may fall back on a peer's reply does to a store on disk: the block it keeps from a peer does
      not renew a soft pin. */
  function AfterDiskFetch(env: Env, s: State, c: CID, reply: Option<bytes>, expiry: Instant): State {
    if Read(env, s, c).Ok? then Renew(s, c, expiry)
    else
      var r := ReadOrFetch(env, s, c, reply);
      if r.Ok? && r.value.cid == c then Put(s, r.value) else s
  }

  lemma DiskAnswerIs(env: Env, s: State, c: CID, reply: Option<bytes>, expiry: Instant)
    ensures var view, r := ViewOf(env, s.store), ReadOrFetch(env, s, c, reply);
            var s' := AfterDiskFetch(env, s, c, reply, expiry);
            && Answer(env, view, c, reply, r) && ViewOf(env, s'.store) == ViewAfter(env, view, c, reply)
            && (r.Ok? && r.value.cid == c ==> c in ViewOf(env, s'.store) && ViewOf(env, s'.store)[c] == r.value)
            && s'.hard == s.hard
            && s'.soft == if c in view && c in s.soft then s.soft[c := expiry] else s.soft
  {
    hide Read, ViewOf, DecodeBlock;
    AnswerIs(env, s, c, reply, expiry);
    ReadMatchesView(env, s, c);
  }

  /** Reads that may fall back on a peer commute with the rounding if and only if the block is read locally, or does
      not come from the peer, or has no soft pin, or has one that a renewal would leave in the same second. */
  lemma FlooredFetch(env: Env, s: State, c: CID, reply: Option<bytes>, expiry: Instant)
    ensures Floored(AfterReadOrFetch(env, s, c, reply, expiry))
         == AfterDiskFetch(env, Floored(s), c, reply, Floor(expiry))
       <==> || Read(env, s, c).Ok? || !BlockArrives(env, c, reply)
            || c !in s.soft || Floor(s.soft[c]) == Floor(expiry)
  {
    var f := Floored(s);
    assert Read(env, f, c) == Read(env, s, c);
    FloorAllUpdates(s.soft, c, expiry);
    assert c in f.soft <==> c in s.soft;
    assert c in s.soft ==> f.soft[c] == Floor(s.soft[c]);
    hide Read, FloorAll, Floor, DecodeBlock;
    if c in s.soft {
      assert f.soft[c := Floor(expiry)] == f.soft <==> f.soft[c] == Floor(expiry);
    }
  }

  /** The roots agree exactly when no soft pin would be kept for a fraction of a second only. */
  lemma FlooredRoots(s: State, now: Instant)
    requires forall c :: c in s.hard ==> c !in s.soft
    ensures SinglePins(Floored(s), now) == SinglePins(s, now) <==> NoneInLastSecond(s, now)
  {
    forall c | c in s.soft
      ensures c in SinglePins(s, now) <==> now < s.soft[c]
      ensures c in SinglePins(Floored(s), now) <==> now < Floor(s.soft[c])
      ensures Floor(s.soft[c]) <= s.soft[c]
    {
    }
  }

  /** A soft pin of a stored block in its last, incomplete second: in memory it still counts, on disk no more. */
  predicate LastSecond(s: State, now: Instant, c: CID) {
    c in s.soft && c in s.store && Floor(s.soft[c]) <= now < s.soft[c]
  }

  /** Whole collections commute with the rounding if and only if no stored block is in such a second. Every stored
      block is readable, and a renewed pin outlasts the collection by a whole second. */
  lemma FlooredGC(env: Env, s: State, now: Instant, expiry: Instant)
    requires forall c :: c in s.hard ==> c !in s.soft
    requires forall c :: c in s.store ==> Readable(env, s.store, c)
    requires now < Floor(expiry)
    ensures Floored(AfterGC(env, s, now, expiry)) == AfterGC(env, Floored(s), now, Floor(expiry))
       <==> forall c :: !LastSecond(s, now, c)
  {
    if c :| LastSecond(s, now, c) {
      LastSecondDiffers(env, s, now, expiry, c);
    } else {
      NoLastSecond(env, s, now, expiry);
    }
  }

  /** One such pin makes the stores differ: the memory store keeps the block and its expiry, the disk store drops the
      block, or reads and renews it. */
  lemma LastSecondDiffers(env: Env, s: State, now: Instant, expiry: Instant, c: CID)
    requires forall x :: x in s.hard ==> x !in s.soft
    requires Readable(env, s.store, c) && now < Floor(expiry) && LastSecond(s, now, c)
    ensures Floored(AfterGC(env, s, now, expiry)) != AfterGC(env, Floored(s), now, Floor(expiry))
  {
    hide Live, Floor, DecodeBlock;
    var f := Floored(s);
    assert c in SinglePins(s, now) && c !in SinglePins(f, now) && c in ViewOf(env, f.store);
    InLive(env, s, now, c);
    if c in LiveIn(env, f, now) {
      assert AfterGC(env, f, now, Floor(expiry)).soft[c] == Floor(expiry);
      assert Floored(AfterGC(env, s, now, expiry)).soft[c] == Floor(s.soft[c]);
    } else {
      assert c in Floored(AfterGC(env, s, now, expiry)).store;
      assert c !in AfterGC(env, f, now, Floor(expiry)).store;
    }
  }

  lemma InLive(env: Env, s: State, now: Instant, c: CID)
    requires c in SinglePins(s, now)
    ensures c in LiveIn(env, s, now)
  {
  }

  /** Pins of blocks that are not stored change no walk, so both collections mark the same stored blocks. */
  lemma NoLastSecond(env: Env, s: State, now: Instant, expiry: Instant)
    requires forall c :: c in s.hard ==> c !in s.soft
    requires forall c :: !LastSecond(s, now, c)
    ensures Floored(AfterGC(env, s, now, expiry)) == AfterGC(env, Floored(s), now, Floor(expiry))
  {
    var f := Floored(s);
    var view, roots := ViewOf(env, s.store), RecursivePins(s);
    var more, fewer := SinglePins(s, now), SinglePins(f, now);
    assert RecursivePins(f) == roots;
    PinsFloor(s, now);
    forall c | c in s.store
      ensures c in more <==> c in fewer
      ensures c in LiveIn(env, s, now) <==> c in LiveIn(env, f, now)
    {
      SameStoredLive(env, s.store, roots, more, fewer, c);
    }
    SameCollection(env, s, now, expiry);
  }

  lemma PinsFloor(s: State, now: Instant)
    requires forall c :: c in s.hard ==> c !in s.soft
    requires forall c :: !LastSecond(s, now, c)
    ensures SinglePins(Floored(s), now) <= SinglePins(s, now)
    ensures forall c :: c in s.store && c in SinglePins(s, now) ==> c in SinglePins(Floored(s), now)
  {
    forall c | c in s.soft
      ensures Floor(s.soft[c]) <= s.soft[c]
      ensures c in s.store && now < s.soft[c] ==> now < Floor(s.soft[c])
    {
      assert !LastSecond(s, now, c);
    }
    hide Floor;
  }

  /** More pins outside the store stop no walk before its end. */
  lemma SameStoredLive(
      env: Env, store: map<CID, bytes>, roots: set<CID>, more: set<CID>, fewer: set<CID>, c: CID)
    requires fewer <= more && c in store && forall x :: x in store && x in more ==> x in fewer
    ensures c in Live(env, ViewOf(env, store), roots, more) <==> c in Live(env, ViewOf(env, store), roots, fewer)
  {
    var view := ViewOf(env, store);
    LiveExactly(env, view, roots, more, c);
    LiveExactly(env, view, roots, fewer, c);
    hide Live, DecodeBlock;
    if Reached(env, view, roots, more, c) {
      var p :| WalkTo(env, view, roots, more, p, c);
      assert WalkTo(env, view, roots, fewer, p, c);
    }
    if Reached(env, view, roots, fewer, c) {
      var p :| WalkTo(env, view, roots, fewer, p, c);
      forall i | 0 <= i < |p|
        ensures p[i] !in more
      {
        if i + 1 < |p| {
          assert p[i + 1] in Kids(env, view, p[(i + 1) - 1]);
        }
      }
      assert WalkTo(env, view, roots, more, p, c);
    }
  }

  lemma SameCollection(env: Env, s: State, now: Instant, expiry: Instant)
    requires forall c :: c in s.store ==> (c in SinglePins(s, now) <==> c in SinglePins(Floored(s), now))
    requires forall c :: c in s.store ==> (c in LiveIn(env, s, now) <==> c in LiveIn(env, Floored(s), now))
    ensures Floored(AfterGC(env, s, now, expiry)) == AfterGC(env, Floored(s), now, Floor(expiry))
  {
    hide LiveIn, SinglePins, Floor, DecodeBlock;
    assert WalkedIn(env, s, now) == WalkedIn(env, Floored(s), now);
  }

  /** A state where they differ: a block whose only pin is a soft one in its last second is kept in memory only. */
  lemma StoresDiffer(expiry: Instant) returns (s: State, now: Instant)
    ensures now == SECOND && s == State(SampleStore(), map[], map[Leaf().cid := now + 1])
    ensures Leaf().cid in AfterGC(SampleEnv(), s, now, expiry).store
    ensures Leaf().cid !in AfterGC(SampleEnv(), Floored(s), now, Floor(expiry)).store
  {
    now := SECOND;
    s := State(SampleStore(), map[], map[Leaf().cid := now + 1]);
    OnlyInMemory(SampleEnv(), s, now, Leaf().cid);
  }

  lemma OnlyInMemory(env: Env, s: State, now: Instant, c: CID)
    requires now == SECOND && s.hard == map[] && s.soft == map[c := now + 1] && c in s.store
    ensures c in LiveIn(env, s, now) && c !in LiveIn(env, Floored(s), now)
  {
    assert Floor(now + 1) == now;
    assert SinglePins(Floored(s), now) == {} && RecursivePins(Floored(s)) == {};
    assert c in SinglePins(s, now);
    hide ViewOf, Live, Floor, SinglePins, RecursivePins;
    InLive(env, s, now, c);
    LiveExactly(env, ViewOf(env, s.store), {}, {}, c);
  }
}
