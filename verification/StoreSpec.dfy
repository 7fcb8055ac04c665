/** What a pinning block store does, as functions on its state: both stores are proved against these. */
module StoreSpec {
  import opened Bytes
  import opened Block
  import opened DagTree
  import Cbor

  datatype Pin = Recursive | Direct

  /** Nanoseconds since the epoch. */
  type Instant = int

  datatype State = State(store: map<CID, bytes>, hard: map<CID, Pin>, soft: map<CID, Instant>)

  // ---------------------------------------------------------------- blocks

  /** Stored bytes count as the block c when they decode and hash back to c. */
  predicate Readable(env: Env, store: map<CID, bytes>, c: CID) {
    c in store && DecodeBlock(env, store[c]).Ok? && DecodeBlock(env, store[c]).value.cid == c
  }

  /** What local reads answer. */
  function ViewOf(env: Env, store: map<CID, bytes>): View {
    map c | c in store && Readable(env, store, c) :: DecodeBlock(env, store[c]).value
  }

  function Serialized(b: Block): Block
    requires |b.payload| < TWO64 && |b.header.codec| < TWO64
  {
    var h := Header(b.header.v, b.header.typ, |b.payload|, b.header.codec);
    Block(b.cid, h, b.payload, EncodeHeader(h) + b.payload)
  }

  function WithCID(env: Env, b: Block): Block {
    Block(NewCID(env, b.bytes), b.header, b.payload, b.bytes)
  }

  /** A block that is still to be serialized has lengths that Go can have. */
  predicate Sealable(b: Block) {
    b.bytes == [] ==> |b.payload| < TWO64 && |b.header.codec| < TWO64
  }

  lemma DecodedIsSealed(env: Env, raw: bytes)
    requires DecodeBlock(env, raw).Ok?
    ensures Sealable(DecodeBlock(env, raw).value)
    ensures Seal(env, DecodeBlock(env, raw).value) == DecodeBlock(env, raw).value
  {
    assert DecodeBlock(env, raw).value.bytes != [];
  }

  /** Fills in the bytes and the CID of a block that lacks them; a CID that is present is trusted. */
  function Seal(env: Env, b: Block): Block
    requires Sealable(b)
  {
    var b1 := if b.bytes == [] then Serialized(b) else b;
    if b1.cid == ZeroCID() then WithCID(env, b1) else b1
  }

  function Put(s: State, b: Block): State {
    s.(store := s.store[b.cid := b.bytes])
  }

  /** A read renews the expiry of a soft pin, whether or not it has run out. */
  function Renew(s: State, c: CID, expiry: Instant): State {
    s.(soft := RenewOne(s.soft, c, expiry))
  }

  function Read(env: Env, s: State, c: CID): Result<Block, Error> {
    if c !in s.store then Err(NotFound)
    else
      var b :- DecodeBlock(env, s.store[c]);
      if b.cid != c then Err(CidMismatch) else Ok(b)
  }

  function AfterRead(env: Env, s: State, c: CID, expiry: Instant): State {
    if Read(env, s, c).Ok? then Renew(s, c, expiry) else s
  }

  /** The outcome of a read that may fall back on a peer's reply. */
  function ReadOrFetch(env: Env, s: State, c: CID, reply: Option<bytes>): Result<Block, Error> {
    if Read(env, s, c).Ok? then Read(env, s, c)
    else if reply.None? || reply.value == [] then Err(NotFound)
    else DecodeBlock(env, reply.value)
  }

  /** A fetched block is kept only when it is the block that was asked for. */
  function AfterReadOrFetch(env: Env, s: State, c: CID, reply: Option<bytes>, expiry: Instant): State {
    if Read(env, s, c).Ok? then Renew(s, c, expiry)
    else
      var r := ReadOrFetch(env, s, c, reply);
      if r.Ok? && r.value.cid == c then Renew(Put(s, r.value), c, expiry) else s
  }

  lemma ReadMatchesView(env: Env, s: State, c: CID)
    ensures Read(env, s, c).Ok? <==> c in ViewOf(env, s.store)
    ensures Read(env, s, c).Ok? ==> Read(env, s, c).value == ViewOf(env, s.store)[c]
  {
  }

  /** What sealing fills in, and what it leaves: a payload never changes, and bytes and CIDs that are there stay. */
  lemma SealedIs(env: Env, b: Block)
    requires Sealable(b)
    ensures var p := Seal(env, b);
            && p.payload == b.payload
            && (b.bytes != [] ==> p.bytes == b.bytes && p.header == b.header)
            && p.cid == (if b.cid != ZeroCID() then b.cid else CID(1, env.hash(p.bytes)))
            && (b.bytes == [] && Cbor.ValidUtf8(b.header.codec) ==>
                  var h := b.header.(size := |b.payload|);
                  DecodeBlock(env, p.bytes) == Ok(Block(CID(1, env.hash(p.bytes)), h, b.payload, p.bytes)))
  {
    if b.bytes == [] {
      var h := Header(b.header.v, b.header.typ, |b.payload|, b.header.codec);
      SealedRoundTrip(env, h, b.payload, []);
      var s := EncodeHeader(h) + b.payload;
      assert s + [] == s;
    }
  }

  /** A block that was put can be read if and only if its bytes hash to the CID it is stored under; and a put changes
      what is read under that CID only. */
  lemma PutIsRead(env: Env, s: State, b: Block)
    ensures var before, after := ViewOf(env, s.store), ViewOf(env, Put(s, b).store);
            var d := DecodeBlock(env, b.bytes);
            && (b.cid in after <==> d.Ok? && d.value.cid == b.cid)
            && (b.cid in after ==> after[b.cid] == d.value)
            && forall c :: c != b.cid ==> (c in after <==> c in before) && (c in after ==> after[c] == before[c])
    ensures Put(s, b).hard == s.hard && Put(s, b).soft == s.soft
  {
    hide DecodeBlock;
  }

  /** A reply that can be decoded. */
  predicate Decodes(env: Env, reply: Option<bytes>) {
    reply.Some? && reply.value != [] && DecodeBlock(env, reply.value).Ok?
  }

  /** The reply is the block asked for. */
  predicate BlockArrives(env: Env, c: CID, reply: Option<bytes>) {
    Decodes(env, reply) && DecodeBlock(env, reply.value).value.cid == c
  }

  /** What a read answers that may fall back on a peer: the local block, or else what the reply decodes to. */
  ghost predicate Answer(env: Env, view: View, c: CID, reply: Option<bytes>, r: Result<Block, Error>) {
    if c in view then r == Ok(view[c])
    else (r.Ok? <==> Decodes(env, reply)) && (r.Ok? ==> r == DecodeBlock(env, reply.value))
  }

  /** And what local reads answer from then on. */
  ghost function ViewAfter(env: Env, view: View, c: CID, reply: Option<bytes>): View {
    if c !in view && BlockArrives(env, c, reply) then view[c := DecodeBlock(env, reply.value).value] else view
  }

  /** A stored reply is found by local reads, and hides no other block. */
  lemma ArrivedIsRead(env: Env, store: map<CID, bytes>, c: CID, reply: Option<bytes>)
    requires BlockArrives(env, c, reply)
    ensures var b := DecodeBlock(env, reply.value).value;
            ViewOf(env, store[c := b.bytes]) == ViewOf(env, store)[c := b]
  {
    DecodeStable(env, reply.value, []);
    hide DecodeBlock;
  }

  /** What a read does, seen through local reads. */
  lemma AnswerIs(env: Env, s: State, c: CID, reply: Option<bytes>, expiry: Instant)
    ensures var view, r := ViewOf(env, s.store), ReadOrFetch(env, s, c, reply);
            var s' := AfterReadOrFetch(env, s, c, reply, expiry);
            && Answer(env, view, c, reply, r) && ViewOf(env, s'.store) == ViewAfter(env, view, c, reply)
            && (r.Ok? && r.value.cid == c ==> c in ViewOf(env, s'.store) && ViewOf(env, s'.store)[c] == r.value)
            && s'.hard == s.hard
            && s'.soft == if r.Ok? && r.value.cid == c && c in s.soft then s.soft[c := expiry] else s.soft
  {
    hide Read, ViewOf, DecodeBlock;
    ReadMatchesView(env, s, c);
    if BlockArrives(env, c, reply) {
      ArrivedIsRead(env, s.store, c, reply);
    }
    ViewHasOwn(env, s.store);
  }

  lemma ViewHasOwn(env: Env, store: map<CID, bytes>)
    ensures forall c :: c in ViewOf(env, store) ==> ViewOf(env, store)[c].cid == c
  {
  }

  /** A block that was read once is read again without any peer, as long as the view stays. */
  lemma SecondRead(env: Env, view: View, c: CID, reply: Option<bytes>, r: Result<Block, Error>,
                   again: Result<Block, Error>)
    requires Answer(env, view, c, reply, r) && r.Ok? && r.value.cid == c
    requires Answer(env, ViewAfter(env, view, c, reply), c, None, again)
    ensures again == r
  {
    hide DecodeBlock;
  }

  /** What a local read answers and does, seen through the view. */
  lemma LocalReadIs(env: Env, s: State, c: CID, expiry: Instant)
    ensures var view, s' := ViewOf(env, s.store), AfterRead(env, s, c, expiry);
            && (Read(env, s, c).Ok? <==> c in view) && (c in view ==> Read(env, s, c) == Ok(view[c]))
            && s'.store == s.store && s'.hard == s.hard
            && s'.soft == if c in view && c in s.soft then s.soft[c := expiry] else s.soft
  {
    hide Read, ViewOf;
    ReadMatchesView(env, s, c);
  }

  // ---------------------------------------------------------------- pins

  function PinRecursive(s: State, c: CID): State {
    s.(hard := s.hard[c := Recursive], soft := s.soft - {c})
  }

  function PinDirect(s: State, c: CID): State {
    s.(hard := s.hard[c := Direct], soft := s.soft - {c})
  }

  function PinSoft(s: State, c: CID, expiry: Instant): State {
    if c in s.hard then s else s.(soft := s.soft[c := expiry])
  }

  function Unpin(s: State, c: CID): State {
    s.(hard := s.hard - {c}, soft := s.soft - {c})
  }

  // ---------------------------------------------------------------- garbage collection

  function RecursivePins(s: State): set<CID> {
    set c | c in s.hard && s.hard[c].Recursive?
  }

  /** Pins that keep one block only: direct ones, and soft ones that have not run out. */
  function SinglePins(s: State, now: Instant): set<CID> {
    (set c | c in s.hard && s.hard[c].Direct?) + (set c | c in s.soft && now < s.soft[c])
  }

  /** A walk along links, none of whose blocks is in avoid. */
  ghost predicate Walk(env: Env, view: View, avoid: set<CID>, p: seq<CID>) {
    && p != []
    && (forall i :: 0 <= i < |p| ==> p[i] !in avoid)
    && (forall i :: 0 < i < |p| ==> p[i] in Kids(env, view, p[i - 1]))
  }

  ghost predicate WalkTo(env: Env, view: View, roots: set<CID>, avoid: set<CID>, p: seq<CID>, c: CID) {
    Walk(env, view, avoid, p) && p[0] in roots && p[|p| - 1] == c
  }

  /** Some walk from a root reaches c without touching avoid. */
  ghost predicate Reached(env: Env, view: View, roots: set<CID>, avoid: set<CID>, c: CID) {
    exists p :: WalkTo(env, view, roots, avoid, p, c)
  }

  lemma RootReached(env: Env, view: View, roots: set<CID>, avoid: set<CID>, c: CID)
    requires c in roots && c !in avoid
    ensures Reached(env, view, roots, avoid, c)
  {
    assert WalkTo(env, view, roots, avoid, [c], c);
  }

  lemma KidReached(env: Env, view: View, roots: set<CID>, avoid: set<CID>, c: CID, k: CID)
    requires Reached(env, view, roots, avoid, c) && k in Kids(env, view, c) && k !in avoid
    ensures Reached(env, view, roots, avoid, k)
  {
    var p :| WalkTo(env, view, roots, avoid, p, c);
    assert WalkTo(env, view, roots, avoid, p + [k], k);
  }

  /** Every CID some stored block links to. */
  function Linked(env: Env, view: View): set<CID> {
    set d, k | d in view && k in Kids(env, view, d) :: k
  }

  /** What the mark phase finds: the single pins, and all that walks around them reach. */
  ghost function Live(env: Env, view: View, roots: set<CID>, single: set<CID>): set<CID> {
    single + set c | c in roots + Linked(env, view) && Reached(env, view, roots, single, c)
  }

  lemma ReachedIsCandidate(env: Env, view: View, roots: set<CID>, avoid: set<CID>, c: CID)
    requires Reached(env, view, roots, avoid, c)
    ensures c in roots + Linked(env, view) && c !in avoid
  {
    var p :| WalkTo(env, view, roots, avoid, p, c);
    if |p| > 1 {
      assert p[|p| - 1] in Kids(env, view, p[|p| - 2]);
      assert p[|p| - 2] in view;
    }
  }

  /** Live is exactly the single pins and the reached blocks, with no reference to how it is bounded. */
  lemma LiveExactly(env: Env, view: View, roots: set<CID>, single: set<CID>, c: CID)
    ensures c in Live(env, view, roots, single) <==> c in single || Reached(env, view, roots, single, c)
  {
    if Reached(env, view, roots, single, c) {
      ReachedIsCandidate(env, view, roots, single, c);
    }
  }

  ghost function LiveIn(env: Env, s: State, now: Instant): set<CID> {
    Live(env, ViewOf(env, s.store), RecursivePins(s), SinglePins(s, now))
  }

  /** The blocks a collection reads while it marks. */
  ghost function WalkedIn(env: Env, s: State, now: Instant): set<CID> {
    (LiveIn(env, s, now) - SinglePins(s, now)) * ViewOf(env, s.store).Keys
  }

  function Keep(store: map<CID, bytes>, keep: set<CID>): map<CID, bytes> {
    map c | c in store && c in keep :: store[c]
  }

  function RenewAll(soft: map<CID, Instant>, read: set<CID>, expiry: Instant): map<CID, Instant> {
    map c | c in soft :: if c in read then expiry else soft[c]
  }

  function RenewOne(soft: map<CID, Instant>, c: CID, expiry: Instant): map<CID, Instant> {
    if c in soft then soft[c := expiry] else soft
  }

  lemma RenewOneMore(soft: map<CID, Instant>, read: set<CID>, c: CID, expiry: Instant)
    ensures RenewAll(soft, read + {c}, expiry) == RenewOne(RenewAll(soft, read, expiry), c, expiry)
  {
  }

  /** Marking one more block adds it to the blocks read when it can be read. */
  lemma ReadOneMore(readable: set<CID>, single: set<CID>, live: set<CID>, c: CID)
    requires c !in live && single <= live
    ensures (live + {c} - single) * readable
         == (live - single) * readable + if c in readable then {c} else {}
  {
  }

  /** The CIDs still to be marked become fewer. */
  lemma FewerLeft(all: set<CID>, live: set<CID>, c: CID)
    requires c in all && c !in live
    ensures all - (live + {c}) < all - live
  {
    assert c in all - live;
  }

  lemma MoveOver(done: set<CID>, rest: set<CID>, c: CID)
    requires done !! rest && c in rest
    ensures done + {c} !! rest - {c} && done + {c} + (rest - {c}) == done + rest
  {
  }

  lemma SweepOneMore(store: map<CID, bytes>, gone: set<CID>, c: CID)
    requires c !in gone
    ensures store - (gone + {c}) == if c in store - gone then store - gone - {c} else store - gone
    ensures |(gone + {c}) * store.Keys| == |gone * store.Keys| + if c in store - gone then 1 else 0
  {
    MinusOneMore(store, gone, c);
    MinusAbsent(store - gone, c);
    GoneOneMore(store.Keys, gone, c);
  }

  lemma MinusOneMore(store: map<CID, bytes>, gone: set<CID>, c: CID)
    ensures store - (gone + {c}) == store - gone - {c}
  {
  }

  lemma MinusAbsent(store: map<CID, bytes>, c: CID)
    ensures c !in store ==> store - {c} == store
  {
  }

  lemma GoneOneMore(keys: set<CID>, gone: set<CID>, c: CID)
    requires c !in gone
    ensures |(gone + {c}) * keys| == |gone * keys| + if c in keys then 1 else 0
  {
    if c in keys {
      assert (gone + {c}) * keys == gone * keys + {c};
    } else {
      assert (gone + {c}) * keys == gone * keys;
    }
  }

  lemma KeepIsSweep(store: map<CID, bytes>, live: set<CID>)
    ensures store - (store.Keys - live) == Keep(store, live)
    ensures (store.Keys - live) * store.Keys == store.Keys - live
  {
  }

  /** The state after a collection that nothing else interleaves with. */
  ghost function AfterGC(env: Env, s: State, now: Instant, expiry: Instant): State {
    State(Keep(s.store, LiveIn(env, s, now)), s.hard, RenewAll(s.soft, WalkedIn(env, s, now), expiry))
  }

  // ---------------------------------------------------------------- the mark loop

  ghost predicate MarkInvariant(
      env: Env, view: View, roots: set<CID>, single: set<CID>, live: set<CID>, stack: seq<CID>) {
    && single <= live
    && (forall c :: c in roots ==> c in live || c in stack)
    && (forall c :: c in stack ==> c in roots + Linked(env, view))
    && (forall c :: c in stack ==> c in single || Reached(env, view, roots, single, c))
    && (forall c :: c in live ==> c in single || Reached(env, view, roots, single, c))
    && (forall c, k :: c in live && c !in single && k in Kids(env, view, c) ==> k in live || k in stack)
  }

  lemma MarkStart(env: Env, view: View, roots: set<CID>, single: set<CID>, stack: seq<CID>)
    requires forall c :: c in stack <==> c in roots
    ensures MarkInvariant(env, view, roots, single, single, stack)
  {
    forall c | c in roots && c !in single {
      RootReached(env, view, roots, single, c);
    }
  }

  lemma MarkSeen(env: Env, view: View, roots: set<CID>, single: set<CID>, live: set<CID>, stack: seq<CID>)
    requires MarkInvariant(env, view, roots, single, live, stack) && stack != []
    requires stack[|stack| - 1] in live
    ensures MarkInvariant(env, view, roots, single, live, stack[..|stack| - 1])
  {
    assert stack == stack[..|stack| - 1] + [stack[|stack| - 1]];
  }

  lemma MarkNew(
      env: Env, view: View, roots: set<CID>, single: set<CID>, live: set<CID>, stack: seq<CID>, pushed: seq<CID>)
    requires MarkInvariant(env, view, roots, single, live, stack) && stack != []
    requires var c := stack[|stack| - 1];
             && c !in live
             && (forall k :: k in pushed ==> k in Kids(env, view, c))
             && (forall k :: k in Kids(env, view, c) ==> k in pushed || k in live || k == c)
    ensures var c := stack[|stack| - 1];
            && MarkInvariant(env, view, roots, single, live + {c}, stack[..|stack| - 1] + pushed)
            && c in roots + Linked(env, view)
  {
    var c := stack[|stack| - 1];
    var rest := stack[..|stack| - 1];
    assert stack == rest + [c];
    assert Reached(env, view, roots, single, c);
    forall k | k in Kids(env, view, c)
      ensures k in Linked(env, view) && (k in single || Reached(env, view, roots, single, k))
    {
      if k !in single {
        KidReached(env, view, roots, single, c, k);
      }
    }
  }

  /** With an empty stack the marked set is the live set. */
  lemma MarkDone(env: Env, view: View, roots: set<CID>, single: set<CID>, live: set<CID>)
    requires MarkInvariant(env, view, roots, single, live, [])
    ensures live == Live(env, view, roots, single)
  {
    forall c
      ensures c in live <==> c in Live(env, view, roots, single)
    {
      LiveExactly(env, view, roots, single, c);
      if Reached(env, view, roots, single, c) {
        var p :| WalkTo(env, view, roots, single, p, c);
        WalkMarked(env, view, roots, single, live, p, |p| - 1);
      }
    }
  }

  lemma {:induction false} WalkMarked(
      env: Env, view: View, roots: set<CID>, single: set<CID>, live: set<CID>, p: seq<CID>, i: nat)
    requires MarkInvariant(env, view, roots, single, live, [])
    requires Walk(env, view, single, p) && p[0] in roots && i < |p|
    ensures p[i] in live
  {
    if i > 0 {
      WalkMarked(env, view, roots, single, live, p, i - 1);
    }
  }
}
