/** The on-disk block store: a flat key space and block files that stand for the same state as the maps in memory. */
module DiskStore {
  import opened Bytes
  import opened Block
  import opened DagCodec
  import opened DagTree
  import opened StoreSpec
  import opened DiskKeys
  import opened DiskRefine
  import MemStore

  class DiskStore {
    const env: Env
    const softTTL: Instant
    var db: Db
    var files: Files

    constructor (env: Env, ttl: Instant)
      ensures this.env == env && softTTL == (if ttl <= 0 then MemStore.DEFAULT_SOFT_TTL else ttl)
      ensures ValidDisk(db) && Value() == State(map[], map[], map[])
    {
      this.env := env;
      softTTL := if ttl <= 0 then MemStore.DEFAULT_SOFT_TTL else ttl;
      db, files := map[], map[];
      EmptyDisk(map[]);
      hide StateOf, ValidDisk;
    }

    function Value(): State
      reads this
    {
      StateOf(db, files)
    }

    /** The time fits the eight bytes it is stored in. */
    predicate InTime(now: Instant) {
      Int64(Unix(now + softTTL))
    }

    method PutBlockLocally(b: Option<Block>) returns (r: Result<Block, Error>)
      requires b.Some? ==> Sealable(b.value)
      requires ValidDisk(db)
      modifies this
      ensures ValidDisk(db)
      ensures b.None? ==> r == Err(NilBlock) && Value() == old(Value())
      ensures b.Some? ==> r == Ok(Seal(env, b.value)) && Value() == Put(old(Value()), r.value)
    {
      if b.None? {
        return Err(NilBlock);
      }
      var blk := b.value;
      if |blk.bytes| == 0 {
        blk := Serialized(blk);
      }
      if blk.cid == ZeroCID() {
        blk := WithCID(env, blk);
      }
      WriteFile(blk.cid, blk.bytes);
      return Ok(blk);
    }

    /** Writes the temporary file, renames it into place, and indexes it. */
    method WriteFile(c: CID, data: bytes)
      requires ValidDisk(db)
      modifies this
      ensures ValidDisk(db)
      ensures Value() == var s := old(Value()); s.(store := s.store[c := data])
    {
      hide StateOf, ValidDisk, RelPath, TmpPath, Key;
      BlockPut(db, files, c, data);
      RenamedFile(files, c, data);
      StoreIs(db, files);
      files := files[TmpPath(c) := data];
      files := files[RelPath(c) := files[TmpPath(c)]] - {TmpPath(c)};
      db := db[Key(BLOCK, c) := RelPath(c)];
    }

    method PutBlock(b: Option<Block>, announced: bool) returns (r: Result<Block, Error>)
      requires b.Some? ==> Sealable(b.value)
      requires ValidDisk(db)
      modifies this
      ensures ValidDisk(db)
      ensures b.None? ==> r == Err(NilBlock) && Value() == old(Value())
      ensures b.Some? ==> Value() == Put(old(Value()), Seal(env, b.value))
      ensures b.Some? ==> r == if announced then Ok(Seal(env, b.value)) else Err(AnnounceFailed)
    {
      var sealed :- PutBlockLocally(b);
      if !announced {
        return Err(AnnounceFailed);
      }
      return Ok(sealed);
    }

    method GetBlockLocal(c: CID, now: Instant) returns (r: Result<Block, Error>)
      requires ValidDisk(db) && InTime(now)
      modifies this`db
      ensures ValidDisk(db) && Section(db, BLOCK) == old(Section(db, BLOCK))
      ensures r == Read(env, old(Value()), c)
      ensures Value() == AfterRead(env, old(Value()), c, Floor(now + softTTL))
    {
      hide DecodeBlock, StateOf, ValidDisk, Section, DecodeExpiry, Key;
      Entries(db, files, c);
      if Key(BLOCK, c) !in db {
        return Err(NotFound);
      }
      var rel := db[Key(BLOCK, c)];
      if rel !in files {
        return Err(NotFound);
      }
      var blk :- DecodeBlock(env, files[rel]);
      if blk.cid != c {
        return Err(CidMismatch);
      }
      if Key(SOFT, c) in db {
        var expiry := EncodeExpiry(now + softTTL);
        SoftUpdates(db, files, c, expiry[..]);
        SoftIs(db, files);
        db := db[Key(SOFT, c) := expiry[..]];
      }
      return Ok(blk);
    }

    /** Reads locally, or else takes what a peer replied; a block kept this way does not renew a soft pin. */
    method GetBlock(c: CID, reply: Option<bytes>, now: Instant) returns (r: Result<Block, Error>)
      requires ValidDisk(db) && InTime(now)
      modifies this
      ensures ValidDisk(db)
      ensures r == ReadOrFetch(env, old(Value()), c, reply)
      ensures Value() == AfterDiskFetch(env, old(Value()), c, reply, Floor(now + softTTL))
      ensures Answer(env, ViewOf(env, old(Value().store)), c, reply, r)
      ensures ViewOf(env, Value().store) == ViewAfter(env, ViewOf(env, old(Value().store)), c, reply)
      ensures r.Ok? && r.value.cid == c ==> c in ViewOf(env, Value().store) && ViewOf(env, Value().store)[c] == r.value
    {
      DiskAnswerIs(env, Value(), c, reply, Floor(now + softTTL));
      hide StateOf, ValidDisk, ViewOf, Answer, ViewAfter;
      r := GetBlockLocal(c, now);
      if r.Ok? {
        return;
      }
      if reply.None? || |reply.value| == 0 {
        return Err(NotFound);
      }
      var blk :- DecodeBlock(env, reply.value);
      if blk.cid == c {
        DecodedIsSealed(env, reply.value);
        var stored := PutBlockLocally(Some(blk));
      }
      return Ok(blk);
    }

    method Pin(c: CID)
      requires ValidDisk(db)
      modifies this`db
      ensures ValidDisk(db) && Value() == PinRecursive(old(Value()), c)
    {
      SetPin(c, RECURSIVE);
    }

    method PinDirect(c: CID)
      requires ValidDisk(db)
      modifies this`db
      ensures ValidDisk(db) && Value() == StoreSpec.PinDirect(old(Value()), c)
    {
      SetPin(c, DIRECT);
    }

    /** Clears the soft pin, then writes the hard one. */
    method SetPin(c: CID, mode: byte)
      requires ValidDisk(db)
      modifies this`db
      ensures ValidDisk(db)
      ensures Value() == if mode == DIRECT then StoreSpec.PinDirect(old(Value()), c) else PinRecursive(old(Value()), c)
    {
      hide StateOf, ValidDisk, Section, DecodeExpiry, Key, HardOf, SoftOf;
      SoftUpdates(db, files, c, []);
      SoftIs(db, files);
      db := db - {Key(SOFT, c)};
      PinUpdates(db, files, c, [mode]);
      HardOfUpdates(Section(db, PIN), c, mode);
      HardIs(db, files);
      db := db[Key(PIN, c) := [mode]];
    }

    method PinSoft(c: CID, now: Instant)
      requires ValidDisk(db) && InTime(now)
      modifies this`db
      ensures ValidDisk(db) && Value() == StoreSpec.PinSoft(old(Value()), c, Floor(now + softTTL))
    {
      hide StateOf, ValidDisk, Section, DecodeExpiry, Key, HardOf, SoftOf;
      Entries(db, files, c);
      if Key(PIN, c) in db {
        return;
      }
      var expiry := EncodeExpiry(now + softTTL);
      SoftUpdates(db, files, c, expiry[..]);
      SoftIs(db, files);
      db := db[Key(SOFT, c) := expiry[..]];
    }

    method Unpin(c: CID)
      requires ValidDisk(db)
      modifies this`db
      ensures ValidDisk(db) && Value() == StoreSpec.Unpin(old(Value()), c)
    {
      hide StateOf, ValidDisk, Section, DecodeExpiry, Key, HardOf, SoftOf;
      SoftUpdates(db, files, c, []);
      SoftIs(db, files);
      db := db - {Key(SOFT, c)};
      PinUpdates(db, files, c, []);
      HardOfUpdates(Section(db, PIN), c, RECURSIVE);
      HardIs(db, files);
      db := db - {Key(PIN, c)};
    }

    /** The hard pins, each once. */
    method ListPins() returns (out: seq<CID>)
      requires ValidDisk(db)
      ensures forall c :: c in out <==> c in Value().hard
      ensures |out| == |Value().hard|
    {
      var pins := Section(db, PIN);
      out := MemStore.Elements(pins.Keys);
      assert pins.Keys == Value().hard.Keys;
    }

    /** Marks from the pins, then removes every other indexed block and counts the removed entries. */
    method GC(now: Instant) returns (freed: nat)
      requires ValidDisk(db) && InTime(now)
      modifies this
      ensures ValidDisk(db)
      ensures Value() == AfterGC(env, old(Value()), now, Floor(now + softTTL))
      ensures freed == |old(Section(db, BLOCK)).Keys - LiveIn(env, old(Value()), now)|
    {
      hide ValidDisk, Section, DecodeExpiry, Key, ViewOf, Live, RenewAll, Keep;
      ghost var s := Value();
      var pins, softs, all := Section(db, PIN), Section(db, SOFT), Section(db, BLOCK);
      var recPins := set c | c in pins && !(pins[c] != [] && pins[c][0] == DIRECT);
      var dirPins := (set c | c in pins && pins[c] != [] && pins[c][0] == DIRECT)
                   + (set c | c in softs && now < DecodeExpiry(softs[c]));
      assert recPins == RecursivePins(s) && dirPins == SinglePins(s, now);
      assert s.store.Keys <= all.Keys;
      hide RecursivePins, SinglePins, StateOf;
      var live := Mark(recPins, dirPins, now);
      assert live == LiveIn(env, s, now);
      freed := Sweep(all.Keys - live);
      KeepIsIndexSweep(s.store, all.Keys, live);
    }

    /** The mark phase: an explicit stack, and reads that renew soft pins on the way. */
    method Mark(recPins: set<CID>, dirPins: set<CID>, now: Instant) returns (live: set<CID>)
      requires ValidDisk(db) && InTime(now)
      modifies this`db
      ensures ValidDisk(db) && Section(db, BLOCK) == old(Section(db, BLOCK))
      ensures live == Live(env, ViewOf(env, old(Value()).store), recPins, dirPins)
      ensures Value() == var s := old(Value());
        s.(soft := RenewAll(s.soft, (live - dirPins) * ViewOf(env, s.store).Keys, Floor(now + softTTL)))
    {
      hide ViewOf, Kids, Live, Linked, MarkInvariant, StateOf, ValidDisk, Section, InTime;
      ghost var s := Value();
      ghost var view := ViewOf(env, s.store);
      ghost var every := recPins + Linked(env, view);
      ghost var read := {};
      RenewNone(s.soft, Floor(now + softTTL));
      live := dirPins;
      var stack := MemStore.Elements(recPins);
      MarkStart(env, view, recPins, dirPins, stack);
      while |stack| > 0
        invariant MarkInvariant(env, view, recPins, dirPins, live, stack)
        invariant ValidDisk(db) && Section(db, BLOCK) == old(Section(db, BLOCK))
        invariant Value() == s.(soft := RenewAll(s.soft, read, Floor(now + softTTL)))
        invariant dirPins <= live && read == (live - dirPins) * view.Keys
        decreases every - live, |stack|
      {
        var c := stack[|stack| - 1];
        if c in live {
          MarkSeen(env, view, recPins, dirPins, live, stack);
          stack := stack[..|stack| - 1];
          continue;
        }
        var found, pushed := Visit(c, live + {c}, now);
        MarkNew(env, view, recPins, dirPins, live, stack, pushed);
        FewerLeft(every, live, c);
        ReadOneMore(view.Keys, dirPins, live, c);
        if found {
          RenewOneMore(s.soft, read, c, Floor(now + softTTL));
          read := read + {c};
        }
        stack := stack[..|stack| - 1] + pushed;
        live := live + {c};
      }
      MarkDone(env, view, recPins, dirPins, live);
    }

    /** Reads one block and returns its children that are not marked; none when it cannot be read. */
    method Visit(c: CID, live: set<CID>, now: Instant) returns (found: bool, pushed: seq<CID>)
      requires ValidDisk(db) && InTime(now)
      modifies this`db
      ensures ValidDisk(db) && Section(db, BLOCK) == old(Section(db, BLOCK))
      ensures found <==> c in ViewOf(env, old(Value()).store)
      ensures forall k :: k in pushed <==> k in Kids(env, ViewOf(env, old(Value()).store), c) && k !in live
      ensures Value() == if found then Renew(old(Value()), c, Floor(now + softTTL)) else old(Value())
    {
      hide StateOf, ValidDisk, Section, InTime;
      ReadMatchesView(env, Value(), c);
      var blk := GetBlockLocal(c, now);
      if blk.Err? {
        return false, [];
      }
      var children := ChildCIDs(env, blk.value);
      if children.Err? {
        return true, [];
      }
      pushed := MemStore.Unseen(children.value, live);
      return true, pushed;
    }

    /** Removes the file and the index entry of each given block, counting the entries. */
    method Sweep(unmarked: set<CID>) returns (freed: nat)
      requires ValidDisk(db) && unmarked <= Section(db, BLOCK).Keys
      modifies this
      ensures ValidDisk(db) && freed == |unmarked|
      ensures Value() == var s := old(Value()); s.(store := s.store - unmarked)
    {
      hide StateOf, ValidDisk, Section;
      freed := 0;
      var rest := unmarked;
      ghost var s, gone := Value(), {};
      while rest != {}
        invariant gone !! rest && gone + rest == unmarked && freed == |gone|
        invariant ValidDisk(db) && rest <= Section(db, BLOCK).Keys
        invariant Value() == s.(store := s.store - gone)
      {
        var c :| c in rest;
        rest := rest - {c};
        RemoveBlock(c);
        RemovedOneMore(s.store, gone, c);
        gone := gone + {c};
        freed := freed + 1;
      }
    }

    method RemoveBlock(c: CID)
      requires ValidDisk(db) && c in Section(db, BLOCK)
      modifies this
      ensures ValidDisk(db) && Section(db, BLOCK) == old(Section(db, BLOCK)) - {c}
      ensures Value() == var s := old(Value()); s.(store := s.store - {c})
    {
      hide StateOf, ValidDisk, RelPath, Key;
      BlockDelete(db, files, c);
      IndexedPath(db, c);
      StoreIs(db, files);
      files := files - {db[Key(BLOCK, c)]};
      db := db - {Key(BLOCK, c)};
    }
  }

  lemma RemovedOneMore(store: map<CID, bytes>, gone: set<CID>, c: CID)
    ensures store - gone - {c} == store - (gone + {c})
  {
  }

  lemma StoreIs(db: Db, files: Files)
    ensures StateOf(db, files).store == StoreOf(Section(db, BLOCK), files)
  {
  }

  lemma RenewNone(soft: map<CID, Instant>, expiry: Instant)
    ensures RenewAll(soft, {}, expiry) == soft
  {
  }

  lemma SoftIs(db: Db, files: Files)
    ensures StateOf(db, files).soft == SoftOf(Section(db, SOFT))
  {
  }

  lemma HardIs(db: Db, files: Files)
    ensures StateOf(db, files).hard == HardOf(Section(db, PIN))
  {
  }

  lemma HardOfUpdates(pins: map<CID, bytes>, c: CID, mode: byte)
    ensures HardOf(pins[c := [mode]]) == HardOf(pins)[c := if mode == DIRECT then Pin.Direct else Pin.Recursive]
    ensures HardOf(pins - {c}) == HardOf(pins) - {c}
  {
  }

  /** The index names the file by the block's own path. */
  lemma IndexedPath(db: Db, c: CID)
    requires ValidDisk(db) && c in Section(db, BLOCK)
    ensures Key(BLOCK, c) in db && db[Key(BLOCK, c)] == RelPath(c)
  {
    assert Section(db, BLOCK)[c] == RelPath(c);
  }

  lemma KeepIsIndexSweep(store: map<CID, bytes>, index: set<CID>, live: set<CID>)
    requires store.Keys <= index
    ensures store - (index - live) == Keep(store, live)
  {
  }
}
