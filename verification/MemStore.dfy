/** The in-memory block store: three maps, and a mark-and-sweep collector over them. */
module MemStore {
  import opened Bytes
  import opened Block
  import opened DagCodec
  import opened DagTree
  import opened StoreSpec

  const DEFAULT_SOFT_TTL: Instant := 6 * 3600 * 1_000_000_000

  class MemStore {
    const env: Env
    const softTTL: Instant
    var store: map<CID, bytes>
    var hardPins: map<CID, Pin>
    var softPins: map<CID, Instant>

    constructor (env: Env, ttl: Instant)
      ensures this.env == env && softTTL == (if ttl <= 0 then DEFAULT_SOFT_TTL else ttl)
      ensures Value() == State(map[], map[], map[])
    {
      this.env := env;
      softTTL := if ttl <= 0 then DEFAULT_SOFT_TTL else ttl;
      store, hardPins, softPins := map[], map[], map[];
    }

    function Value(): State
      reads this
    {
      State(store, hardPins, softPins)
    }

    /** Stores under the block's CID. The announcement that follows can fail; the block stays stored. */
    method PutBlock(b: Option<Block>, announced: bool) returns (r: Result<Block, Error>)
      requires b.Some? ==> Sealable(b.value)
      modifies this`store
      ensures b.None? ==> r == Err(NilBlock) && Value() == old(Value())
      ensures b.Some? ==> Value() == Put(old(Value()), Seal(env, b.value))
      ensures b.Some? ==> r == if announced then Ok(Seal(env, b.value)) else Err(AnnounceFailed)
    {
      var sealed :- PutBlockLocally(b);
      if !announced {
        return Err(AnnounceFailed);
      }
      return Ok(sealed);
    }

    method PutBlockLocally(b: Option<Block>) returns (r: Result<Block, Error>)
      requires b.Some? ==> Sealable(b.value)
      modifies this`store
      ensures b.None? ==> r == Err(NilBlock) && Value() == old(Value())
      ensures b.Some? ==> r == Ok(Seal(env, b.value)) && Value() == Put(old(Value()), r.value)
    {
      if b.None? {
        return Err(NilBlock);
      }
      var blk := b.value;
      if |blk.bytes| == 0 {
        blk := Serialized(blk);
      }
      if blk.cid == ZeroCID() {
        blk := WithCID(env, blk);
      }
      store := store[blk.cid := blk.bytes];
      return Ok(blk);
    }

    method GetBlockLocal(c: CID, now: Instant) returns (r: Result<Block, Error>)
      modifies this`softPins
      ensures r == Read(env, old(Value()), c)
      ensures Value() == AfterRead(env, old(Value()), c, now + softTTL)
    {
      if c !in store {
        return Err(NotFound);
      }
      var blk :- DecodeBlock(env, store[c]);
      if blk.cid != c {
        return Err(CidMismatch);
      }
      if c in softPins {
        softPins := softPins[c := now + softTTL];
      }
      return Ok(blk);
    }

    /** Reads locally, or else takes what a peer replied. */
    method GetBlock(c: CID, reply: Option<bytes>, now: Instant) returns (r: Result<Block, Error>)
      modifies this`store, this`softPins
      ensures r == ReadOrFetch(env, old(Value()), c, reply)
      ensures Value() == AfterReadOrFetch(env, old(Value()), c, reply, now + softTTL)
      ensures Answer(env, ViewOf(env, old(store)), c, reply, r)
      ensures ViewOf(env, store) == ViewAfter(env, ViewOf(env, old(store)), c, reply)
      ensures r.Ok? && r.value.cid == c ==> c in ViewOf(env, store) && ViewOf(env, store)[c] == r.value
      ensures softPins == if r.Ok? && r.value.cid == c && c in old(softPins)
                          then old(softPins)[c := now + softTTL] else old(softPins)
    {
      AnswerIs(env, Value(), c, reply, now + softTTL);
      hide ViewOf, Answer, ViewAfter;
      r := GetBlockLocal(c, now);
      if r.Ok? {
        return;
      }
      if reply.None? || |reply.value| == 0 {
        return Err(NotFound);
      }
      var blk :- DecodeBlock(env, reply.value);
      if blk.cid == c {
        DecodedIsSealed(env, reply.value);
        var stored := PutBlockLocally(Some(blk));
        if c in softPins {
          softPins := softPins[c := now + softTTL];
        }
      }
      return Ok(blk);
    }

    method Pin(c: CID)
      modifies this`hardPins, this`softPins
      ensures Value() == PinRecursive(old(Value()), c)
    {
      hardPins := hardPins[c := Recursive];
      softPins := softPins - {c};
    }

    method PinDirect(c: CID)
      modifies this`hardPins, this`softPins
      ensures Value() == StoreSpec.PinDirect(old(Value()), c)
    {
      hardPins := hardPins[c := Direct];
      softPins := softPins - {c};
    }

    method PinSoft(c: CID, now: Instant)
      modifies this`softPins
      ensures Value() == StoreSpec.PinSoft(old(Value()), c, now + softTTL)
    {
      if c !in hardPins {
        softPins := softPins[c := now + softTTL];
      }
    }

    method Unpin(c: CID)
      modifies this`hardPins, this`softPins
      ensures Value() == StoreSpec.Unpin(old(Value()), c)
    {
      hardPins := hardPins - {c};
      softPins := softPins - {c};
    }

    /** The hard pins, each once. */
    method ListPins() returns (out: seq<CID>)
      ensures forall c :: c in out <==> c in hardPins
      ensures |out| == |hardPins|
    {
      out := Elements(hardPins.Keys);
    }

    /** Marks from the pins, then removes every other stored block and counts the removals. */
    method GC(now: Instant) returns (freed: nat)
      modifies this`store, this`softPins
      ensures Value() == AfterGC(env, old(Value()), now, now + softTTL)
      ensures freed == |old(store).Keys - LiveIn(env, old(Value()), now)|
    {
      hide ViewOf, Live, RenewAll, Keep, RecursivePins, SinglePins;
      ghost var s := Value();
      var recPins, dirPins := Roots(now);
      var keysSnap := store.Keys;
      var live := Mark(recPins, dirPins, now);
      assert live == LiveIn(env, s, now);
      freed := Sweep(keysSnap - live);
      KeepIsSweep(s.store, live);
    }

    /** The pins to walk from, and those that keep one block only. */
    method Roots(now: Instant) returns (recPins: set<CID>, dirPins: set<CID>)
      ensures recPins == RecursivePins(Value()) && dirPins == SinglePins(Value(), now)
    {
      recPins := set c | c in hardPins && hardPins[c].Recursive?;
      dirPins := (set c | c in hardPins && hardPins[c].Direct?) + (set c | c in softPins && now < softPins[c]);
    }

    /** The mark phase: an explicit stack, and reads that renew soft pins on the way. */
    method Mark(recPins: set<CID>, dirPins: set<CID>, now: Instant) returns (live: set<CID>)
      modifies this`softPins
      ensures live == Live(env, ViewOf(env, store), recPins, dirPins)
      ensures softPins == RenewAll(old(softPins), (live - dirPins) * ViewOf(env, store).Keys, now + softTTL)
    {
      hide ViewOf, Kids, Live, Linked, MarkInvariant;
      ghost var view := ViewOf(env, store);
      ghost var all := recPins + Linked(env, view);
      ghost var soft, read := softPins, {};
      live := dirPins;
      var stack := Elements(recPins);
      MarkStart(env, view, recPins, dirPins, stack);
      while |stack| > 0
        invariant MarkInvariant(env, view, recPins, dirPins, live, stack)
        invariant softPins == RenewAll(soft, read, now + softTTL)
        invariant dirPins <= live && read == (live - dirPins) * view.Keys
        decreases all - live, |stack|
      {
        var c := stack[|stack| - 1];
        if c in live {
          MarkSeen(env, view, recPins, dirPins, live, stack);
          stack := stack[..|stack| - 1];
          continue;
        }
        var found, pushed := Visit(c, live + {c}, now);
        MarkNew(env, view, recPins, dirPins, live, stack, pushed);
        FewerLeft(all, live, c);
        ReadOneMore(view.Keys, dirPins, live, c);
        if found {
          RenewOneMore(soft, read, c, now + softTTL);
          read := read + {c};
        }
        stack := stack[..|stack| - 1] + pushed;
        live := live + {c};
      }
      MarkDone(env, view, recPins, dirPins, live);
    }

    /** Reads one block and returns its children that are not marked; none when it cannot be read. */
    method Visit(c: CID, live: set<CID>, now: Instant) returns (found: bool, pushed: seq<CID>)
      modifies this`softPins
      ensures found <==> c in ViewOf(env, store)
      ensures forall k :: k in pushed <==> k in Kids(env, ViewOf(env, store), c) && k !in live
      ensures softPins == if found then RenewOne(old(softPins), c, now + softTTL) else old(softPins)
    {
      ReadMatchesView(env, Value(), c);
      var blk := GetBlockLocal(c, now);
      if blk.Err? {
        return false, [];
      }
      var children := ChildCIDs(env, blk.value);
      if children.Err? {
        return true, [];
      }
      pushed := Unseen(children.value, live);
      return true, pushed;
    }

    /** Deletes the given keys, counting those that were still stored. */
    method Sweep(unmarked: set<CID>) returns (freed: nat)
      modifies this`store
      ensures store == old(store) - unmarked
      ensures freed == |unmarked * old(store).Keys|
    {
      freed := 0;
      var rest := unmarked;
      ghost var before, gone := store, {};
      while rest != {}
        invariant gone !! rest && gone + rest == unmarked
        invariant store == before - gone && freed == |gone * before.Keys|
      {
        var c :| c in rest;
        MoveOver(gone, rest, c);
        SweepOneMore(before, gone, c);
        rest := rest - {c};
        gone := gone + {c};
        if c in store {
          store := store - {c};
          freed := freed + 1;
        }
      }
    }
  }

  /** The elements of a set, each once, in some order. */
  method Elements(s: set<CID>) returns (out: seq<CID>)
    ensures forall c :: c in out <==> c in s
    ensures |out| == |s|
  {
    out := [];
    var rest := s;
    while rest != {}
      invariant rest <= s && |out| + |rest| == |s|
      invariant forall c :: c in out <==> c in s && c !in rest
    {
      var c :| c in rest;
      rest := rest - {c};
      out := out + [c];
    }
  }

  /** The children that are not marked yet, in order. */
  method Unseen(children: seq<CID>, live: set<CID>) returns (out: seq<CID>)
    ensures forall k :: k in out <==> k in children && k !in live
  {
    out := [];
    for i := 0 to |children|
      invariant forall k :: k in out <==> k in children[..i] && k !in live
    {
      if children[i] !in live {
        out := out + [children[i]];
      }
    }
  }
}
