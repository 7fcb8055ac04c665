/** Placing blocks on peers: replicas, the local fallback, and what happens to what is kept locally. */
module DistStore {
  import opened Bytes
  import opened Block
  import opened Bucket
  import opened NodeId
  import opened DagTree
  import opened StoreSpec
  import opened MemStore
  import GcProtocol

  /** Whether a peer accepts a block when it is asked to. */
  type Acks = (Contact, CID) -> bool

  /** The peers of the list, other than self, that accept the block. */
  function Willing(cands: seq<Contact>, self: NodeID, acks: Acks, c: CID): seq<Contact> {
    if cands == [] then []
    else
      var p := cands[|cands| - 1];
      Willing(cands[..|cands| - 1], self, acks, c) + if p.id != self && acks(p, c) then [p] else []
  }

  lemma WillingMore(cands: seq<Contact>, p: Contact, self: NodeID, acks: Acks, c: CID)
    ensures Willing(cands + [p], self, acks, c)
         == Willing(cands, self, acks, c) + if p.id != self && acks(p, c) then [p] else []
  {
    assert (cands + [p])[..|cands|] == cands;
  }

  lemma {:induction false} WillingGrows(cands: seq<Contact>, n: nat, self: NodeID, acks: Acks, c: CID)
    requires n <= |cands|
    ensures Willing(cands[..n], self, acks, c) <= Willing(cands, self, acks, c)
    decreases |cands| - n
  {
    if n == |cands| {
      assert cands[..n] == cands;
    } else {
      WillingGrows(cands, n + 1, self, acks, c);
      assert cands[..n + 1] == cands[..n] + [cands[n]];
      WillingMore(cands[..n], cands[n], self, acks, c);
    }
  }

  lemma {:induction false} WillingIs(cands: seq<Contact>, self: NodeID, acks: Acks, c: CID)
    ensures forall p :: p in Willing(cands, self, acks, c) <==> p in cands && p.id != self && acks(p, c)
  {
    if cands != [] {
      WillingIs(cands[..|cands| - 1], self, acks, c);
      assert cands == cands[..|cands| - 1] + [cands[|cands| - 1]];
    }
  }

  /** These are the acknowledgements: the peers at the given places of the list, in order, each one other than self and
      willing; every other willing peer stands behind them, and is missing only because there are enough. */
  ghost predicate InTurn(
      cands: seq<Contact>, self: NodeID, acks: Acks, c: CID, n: nat, acked: seq<Contact>, places: seq<nat>) {
    && |acked| == |places| <= n
    && (forall i :: 0 <= i < |places| ==> places[i] < |cands| && acked[i] == cands[places[i]])
    && (forall i, j :: 0 <= i < j < |places| ==> places[i] < places[j])
    && (forall k :: 0 <= k < |cands| && k in places ==> cands[k].id != self && acks(cands[k], c))
    && forall k :: 0 <= k < |cands| && cands[k].id != self && acks(cands[k], c) && k !in places ==>
         |acked| == n && forall i :: 0 <= i < |places| ==> places[i] < k
  }

  lemma {:induction false} WillingInTurn(cands: seq<Contact>, self: NodeID, acks: Acks, c: CID, n: nat)
    ensures exists places: seq<nat> ::
              InTurn(cands, self, acks, c, n, FirstOf(Willing(cands, self, acks, c), n), places)
  {
    var willing := Willing(cands, self, acks, c);
    if cands == [] {
      var places: seq<nat> := [];
      assert FirstOf(willing, n) == [] && InTurn(cands, self, acks, c, n, [], places);
    } else {
      var front, last := cands[..|cands| - 1], cands[|cands| - 1];
      WillingInTurn(front, self, acks, c, n);
      var before := FirstOf(Willing(front, self, acks, c), n);
      var places: seq<nat> :| InTurn(front, self, acks, c, n, before, places);
      hide InTurn;
      if last.id != self && acks(last, c) && |before| < n {
        assert FirstOf(willing, n) == before + [last];
        MoreInTurn(cands, self, acks, c, n, before, places);
      } else {
        assert FirstOf(willing, n) == before;
        SameInTurn(cands, self, acks, c, n, before, places);
      }
    }
  }

  lemma SameInTurn(
      cands: seq<Contact>, self: NodeID, acks: Acks, c: CID, n: nat, before: seq<Contact>, places: seq<nat>)
    requires cands != [] && InTurn(cands[..|cands| - 1], self, acks, c, n, before, places)
    requires var last := cands[|cands| - 1]; last.id == self || !acks(last, c) || |before| == n
    ensures InTurn(cands, self, acks, c, n, before, places)
  {
    var front := cands[..|cands| - 1];
    assert forall k :: 0 <= k < |front| ==> front[k] == cands[k];
  }

  lemma MoreInTurn(
      cands: seq<Contact>, self: NodeID, acks: Acks, c: CID, n: nat, before: seq<Contact>, places: seq<nat>)
    requires cands != [] && InTurn(cands[..|cands| - 1], self, acks, c, n, before, places) && |before| < n
    requires var last := cands[|cands| - 1]; last.id != self && acks(last, c)
    ensures InTurn(cands, self, acks, c, n, before + [cands[|cands| - 1]], places + [|cands| - 1])
  {
    var front := cands[..|cands| - 1];
    assert forall k :: 0 <= k < |front| ==> front[k] == cands[k];
  }

  function FirstOf(s: seq<Contact>, n: nat): seq<Contact> {
    if |s| > n then s[..n] else s
  }

  lemma SealTwice(env: Env, b: Block)
    requires Sealable(b)
    ensures Sealable(Seal(env, b)) && Seal(env, Seal(env, b)) == Seal(env, b)
  {
  }

  /** Remote peers that acknowledged the block, or the local store with a direct pin. */
  ghost predicate Placed(b: Block, acked: seq<Contact>, s: State) {
    acked != [] || (b.cid in s.store && s.store[b.cid] == b.bytes && b.cid in s.hard && s.hard[b.cid].Direct?)
  }

  /** What remains true of a placed block while others are put, unless they collide with it. */
  lemma PlacedKept(b: Block, acked: seq<Contact>, s: State, c: Block)
    requires Placed(b, acked, s) && (b.cid == c.cid ==> b == c)
    ensures Placed(b, acked, Put(s, c)) && Placed(b, acked, StoreSpec.PinDirect(Put(s, c), c.cid))
  {
  }

  class DistStore {
    const self: NodeID
    const local: MemStore
    const replicas: nat
    const keepLocal: Block -> bool
    const find: CID -> seq<Contact> // what the lookup finds for a block
    const acks: Acks

    constructor (
        self: NodeID, local: MemStore, replicas: int, keepLocal: Block -> bool, find: CID -> seq<Contact>, acks: Acks)
      ensures this.self == self && this.local == local && this.keepLocal == keepLocal
      ensures this.find == find && this.acks == acks
      ensures this.replicas == if replicas <= 0 then 1 else replicas
    {
      this.self, this.local, this.keepLocal, this.find, this.acks := self, local, keepLocal, find, acks;
      this.replicas := if replicas <= 0 then 1 else replicas;
    }

    /** Peers other than self that were found for the block and acknowledged it, no more than asked for. */
    ghost predicate Acknowledged(c: CID, acked: seq<Contact>) {
      |acked| <= replicas && forall p :: p in acked ==> p.id != self && acks(p, c) && p in find(c)
    }

    /** Offers the block to the candidates one after the other until enough have acknowledged it. */
    method Replicate(cands: seq<Contact>, c: CID) returns (acked: seq<Contact>)
      ensures acked == FirstOf(Willing(cands, self, acks, c), replicas)
      ensures exists places: seq<nat> :: InTurn(cands, self, acks, c, replicas, acked, places)
    {
      hide Willing, InTurn;
      WillingInTurn(cands, self, acks, c, replicas);
      acked := [];
      WillingNone(self, acks, c);
      for i := 0 to |cands|
        invariant acked == Willing(cands[..i], self, acks, c) && |acked| <= replicas
      {
        assert cands[..i + 1] == cands[..i] + [cands[i]];
        WillingMore(cands[..i], cands[i], self, acks, c);
        if cands[i].id == self {
          continue;
        }
        if |acked| >= replicas {
          WillingGrows(cands, i, self, acks, c);
          return;
        }
        if acks(cands[i], c) {
          acked := acked + [cands[i]];
        }
      }
      assert cands[..|cands|] == cands;
    }

    /** Places one block. Only local failures are reported; a kept block is pinned directly. */
    method PutBlock(b: Option<Block>, announced: bool)
      returns (r: Result<(), Error>, acked: seq<Contact>)
      requires b.Some? ==> Sealable(b.value)
      modifies local`store, local`hardPins, local`softPins
      ensures b.None? ==> r == Ok(()) && acked == [] && local.Value() == old(local.Value())
      ensures b.Some? ==>
        var sealed := Seal(local.env, b.value);
        var s := old(local.Value());
        var kept := keepLocal(sealed) || acked == [];
        && (exists places: seq<nat> :: InTurn(find(sealed.cid), self, acks, sealed.cid, replicas, acked, places))
        && Acknowledged(sealed.cid, acked)
        && r == (if kept && !announced then Err(AnnounceFailed) else Ok(()))
        && local.Value() == if !kept then s
                            else if announced then PinDirect(Put(s, sealed), sealed.cid)
                            else Put(s, sealed)
    {
      hide Seal, Willing, InTurn;
      acked := [];
      if b.None? {
        return Ok(()), acked;
      }
      SealTwice(local.env, b.value);
      var sealed := Seal(local.env, b.value);
      acked := Replicate(find(sealed.cid), sealed.cid);
      WillingIs(find(sealed.cid), self, acks, sealed.cid);
      assert forall p :: p in acked ==> p in Willing(find(sealed.cid), self, acks, sealed.cid);
      if keepLocal(sealed) || |acked| == 0 {
        var stored := local.PutBlock(Some(sealed), announced);
        if stored.Err? {
          return Err(stored.error), acked;
        }
        local.PinDirect(sealed.cid);
      }
      return Ok(()), acked;
    }
  }

  lemma WillingNone(self: NodeID, acks: Acks, c: CID)
    ensures Willing([], self, acks, c) == []
  {
  }

  // ---------------------------------------------------------------- what is pinned stays

  /** A step that leaves the pin of c in place and does not overwrite its bytes by others. */
  predicate Spares(step: GcProtocol.Step, c: CID, raw: bytes) {
    && (step.DoUnpin? ==> step.c != c)
    && (step.DoPut? && step.b.cid == c ==> step.b.bytes == raw)
  }

  /** c is stored, pinned, and known to a running collection, or was not there for its snapshot. */
  ghost predicate Held(env: Env, w: GcProtocol.World, c: CID, raw: bytes) {
    && c in w.s.store && w.s.store[c] == raw && Readable(env, w.s.store, c) && c in w.s.hard
    && (w.phase.Marking? ==> c in w.phase.live || c in w.phase.stack || c !in w.phase.keys)
  }

  lemma HeldStep(env: Env, w: GcProtocol.World, step: GcProtocol.Step, w': GcProtocol.World, c: CID, raw: bytes)
    requires Held(env, w, c, raw) && GcProtocol.Next(env, w, step, w') && Spares(step, c, raw)
    ensures Held(env, w', c, raw)
  {
    hide DecodeBlock, Kids, ViewOf, GcProtocol.UnseenOf, RenewAll, LiveIn, WalkedIn;
    match step
    case Collect(now, expiry) => HeldIsLive(env, w.s, now, c);
    case MarkOne(expiry) =>
      var stack := w.phase.stack;
      assert stack == stack[..|stack| - 1] + [stack[|stack| - 1]];
    case Snapshot(now) =>
      PinIsRoot(w.s, now, c);
    case _ =>
  }

  lemma PinIsRoot(s: State, now: Instant, c: CID)
    requires c in s.hard
    ensures c in SinglePins(s, now) || c in RecursivePins(s)
  {
  }

  lemma HeldIsLive(env: Env, s: State, now: Instant, c: CID)
    requires c in s.hard
    ensures c in LiveIn(env, s, now)
  {
    hide ViewOf, SinglePins, RecursivePins;
    PinIsRoot(s, now, c);
    var view, roots, single := ViewOf(env, s.store), RecursivePins(s), SinglePins(s, now);
    LiveExactly(env, view, roots, single, c);
    if c !in single {
      RootReached(env, view, roots, single, c);
    }
  }

  /** A block stored and pinned is there at every point of a run, whatever collections do, while it stays pinned. The
      run may begin while a collection is marking that has the block in sight, or not in its snapshot. */
  lemma {:induction false} PinnedStays(
      env: Env, ws: seq<GcProtocol.World>, steps: seq<GcProtocol.Step>, c: CID, raw: bytes, i: nat)
    requires GcProtocol.Run(env, ws, steps) && i <= |steps| && Held(env, ws[0], c, raw)
    requires forall j :: 0 <= j < |steps| ==> Spares(steps[j], c, raw)
    ensures Held(env, ws[i], c, raw)
  {
    hide Held, GcProtocol.Next, Spares;
    if i > 0 {
      PinnedStays(env, ws, steps, c, raw, i - 1);
      assert GcProtocol.Next(env, ws[i - 1], steps[i - 1], ws[i]);
      HeldStep(env, ws[i - 1], steps[i - 1], ws[i], c, raw);
    }
  }

  /** So the local copy of a placed block can be read throughout. */
  lemma LocalCopyStays(
      env: Env, ws: seq<GcProtocol.World>, steps: seq<GcProtocol.Step>, b: Block, i: nat)
    requires GcProtocol.Run(env, ws, steps) && i <= |steps|
    requires Placed(b, [], ws[0].s) && Consistent(env, b)
    requires ws[0].phase.Marking? ==>
      b.cid !in ws[0].phase.keys || b.cid in ws[0].phase.live || b.cid in ws[0].phase.stack
    requires forall j :: 0 <= j < |steps| ==> Spares(steps[j], b.cid, b.bytes)
    ensures var view := ViewOf(env, ws[i].s.store);
            b.cid in view && view[b.cid] == b
  {
    hide DecodeBlock, GcProtocol.Next, Spares;
    PinnedStays(env, ws, steps, b.cid, b.bytes, i);
  }

  /** Putting and pinning are two steps: a collection whose snapshot falls between them frees the block just placed. */
  lemma SnapshotBetweenFrees(env: Env, s: State, b: Block, now: Instant) returns (ws: seq<GcProtocol.World>)
    requires RecursivePins(s) == {} && b.cid !in SinglePins(s, now)
    ensures GcProtocol.Run(env, ws, [GcProtocol.DoPut(b), GcProtocol.Snapshot(now), GcProtocol.DoPinDirect(b.cid),
                                     GcProtocol.Sweep])
    ensures ws[0] == GcProtocol.World(s, GcProtocol.Idle)
    ensures b.cid !in ws[4].s.store && b.cid in ws[4].s.hard
  {
    hide Kids, ViewOf, Read, ReadOrFetch;
    var put := Put(s, b);
    var single := SinglePins(s, now);
    var marking := GcProtocol.Marking(put.store.Keys, single, single, []);
    var pinned := PinDirect(put, b.cid);
    var swept := pinned.(store := pinned.store - (put.store.Keys - single));
    assert RecursivePins(put) == {} && SinglePins(put, now) == single;
    ws := [GcProtocol.World(s, GcProtocol.Idle), GcProtocol.World(put, GcProtocol.Idle), GcProtocol.World(put, marking),
           GcProtocol.World(pinned, marking), GcProtocol.World(swept, GcProtocol.Idle)];
  }
}
