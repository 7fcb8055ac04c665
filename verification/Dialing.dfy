/** Dialing peers in batches: what was dialed, what was replied, and what is known from it. */
module Dialing {
  import opened Bytes
  import opened NodeId
  import opened Bucket
  import opened Candidates
  import Routing
  import NearSearch

  datatype Reply = Failed | Reply(from: Contact, found: bool, value: bytes, nodes: seq<Contact>)

  /** What each peer replies; since no address is dialed twice in a lookup, one reply a peer says it all. */
  type Net = Contact -> Reply

  datatype Record = Record(value: bytes, expires: int, origin: bool)

  predicate FoundAt(net: Net, p: Contact) {
    net(p).Reply? && net(p).found
  }

  /** The values the dialed peers had, in the order of their replies. */
  function ValuesFrom(net: Net, log: seq<Contact>): seq<bytes> {
    if log == [] then []
    else
      var p := log[|log| - 1];
      ValuesFrom(net, log[..|log| - 1]) + if FoundAt(net, p) then [net(p).value] else []
  }

  lemma ValuesFromMore(net: Net, log: seq<Contact>, p: Contact)
    ensures ValuesFrom(net, log + [p]) == ValuesFrom(net, log) + if FoundAt(net, p) then [net(p).value] else []
  {
    assert (log + [p])[..|log|] == log;
  }

  function Addrs(s: seq<Contact>): set<string> {
    set c | c in s :: c.addr
  }

  predicate DistinctAddrs(s: seq<Contact>) {
    forall i, j :: 0 <= i < j < |s| ==> s[i].addr != s[j].addr
  }

  ghost predicate Within(cs: seq<Contact>, world: set<string>) {
    forall c :: c in cs ==> c.addr in world
  }

  /** Peers of this world only report addresses of this world. */
  ghost predicate Closed(net: Net, world: set<string>) {
    forall p: Contact :: p.addr in world && net(p).Reply? ==> Within(net(p).nodes, world)
  }

  /** The peers in log were dialed, those in pending are marked and will be; no address is among them twice. */
  ghost predicate InFlight(log: seq<Contact>, pending: seq<Contact>, visited: set<string>) {
    && DistinctAddrs(log) && DistinctAddrs(pending) && Addrs(log) !! Addrs(pending)
    && visited == Addrs(log) + Addrs(pending)
  }

  lemma Dialed(log: seq<Contact>, pending: seq<Contact>, visited: set<string>, k: nat)
    requires InFlight(log, pending, visited) && k < |pending|
    ensures InFlight(log + [pending[k]], Without(pending, k), visited)
  {
    var p, rest := pending[k], Without(pending, k);
    assert forall i :: 0 <= i < |rest| ==> rest[i] == pending[if i < k then i else i + 1];
    assert pending[k].addr in Addrs(pending);
    assert Addrs(log + [p]) == Addrs(log) + {p.addr};
    assert Addrs(pending) == Addrs(rest) + {p.addr} by {
      forall c | c in pending && c != p
        ensures c in rest
      {
        var i :| 0 <= i < |pending| && pending[i] == c;
        assert rest[if i < k then i else i - 1] == c;
      }
    }
  }

  /** The peers of a batch that no earlier step has visited are marked as visited. */
  method MarkBatch(next: seq<Contact>, visited: set<string>, ghost log: seq<Contact>)
    returns (batch: seq<Contact>, marked: set<string>)
    requires InFlight(log, [], visited)
    ensures InFlight(log, batch, marked)
    ensures |batch| <= |next| && forall c :: c in batch ==> c in next
    ensures visited <= marked && Addrs(next) <= marked
    ensures next != [] && next[0].addr !in visited ==> batch != []
  {
    batch, marked := [], visited;
    for i := 0 to |next|
      invariant InFlight(log, batch, marked)
      invariant |batch| <= i && forall c :: c in batch ==> c in next
      invariant visited <= marked && forall k :: 0 <= k < i ==> next[k].addr in marked
      invariant i == 0 ==> marked == visited
      invariant i > 0 && next[0].addr !in visited ==> batch != []
    {
      var peer := next[i];
      if peer.addr !in marked {
        MarkedMore(log, batch, marked, peer);
        batch := batch + [peer];
        marked := marked + {peer.addr};
      }
    }
  }

  lemma MarkedMore(log: seq<Contact>, batch: seq<Contact>, marked: set<string>, peer: Contact)
    requires InFlight(log, batch, marked) && peer.addr !in marked
    ensures InFlight(log, batch + [peer], marked + {peer.addr})
  {
    assert Addrs(batch + [peer]) == Addrs(batch) + {peer.addr};
    assert forall i :: 0 <= i < |batch| ==> batch[i].addr in Addrs(batch);
  }

  /** Distinct addresses of a finite world bound the number of dials. */
  lemma {:induction false} DialsBounded(log: seq<Contact>, world: set<string>)
    requires DistinctAddrs(log) && Addrs(log) <= world
    ensures |log| <= |world|
  {
    if log != [] {
      var n := |log| - 1;
      var last := log[n].addr;
      assert log[n] in log;
      forall a | a in Addrs(log[..n])
        ensures a in world - {last}
      {
        var c :| c in log[..n] && c.addr == a;
      }
      DialsBounded(log[..n], world - {last});
    }
  }

  // ---------------------------------------------------------------- replies of a batch

  predicate HasValue(net: Net, p: Contact) {
    FoundAt(net, p) && net(p).value != []
  }

  /** The contacts a peer reported. In a value lookup, a peer that has the value reports none. */
  function NodesOf(net: Net, p: Contact, all: bool): seq<Contact> {
    if net(p).Reply? && (all || !net(p).found) then net(p).nodes else []
  }

  function NodesFrom(net: Net, log: seq<Contact>, all: bool): seq<Contact> {
    if log == [] then []
    else NodesFrom(net, log[..|log| - 1], all) + NodesOf(net, log[|log| - 1], all)
  }

  lemma NodesFromMore(net: Net, log: seq<Contact>, p: Contact, all: bool)
    ensures NodesFrom(net, log + [p], all) == NodesFrom(net, log, all) + NodesOf(net, p, all)
  {
    assert (log + [p])[..|log|] == log;
  }

  lemma Regrouped(a: seq<Contact>, b: seq<Contact>, c: seq<Contact>)
    ensures a + (b + c) == a + b + c
  {
  }

  lemma {:induction false} NodesFromAppend(net: Net, a: seq<Contact>, b: seq<Contact>, all: bool)
    ensures NodesFrom(net, a + b, all) == NodesFrom(net, a, all) + NodesFrom(net, b, all)
    decreases |b|
  {
    if b == [] {
      assert a + b == a;
    } else {
      var n := |b| - 1;
      var front, last := b[..n], b[n];
      hide NodesFrom, NodesOf;
      assert b == front + [last];
      Regrouped(a, front, [last]);
      NodesFromAppend(net, a, front, all);
      NodesFromMore(net, a + front, last, all);
      NodesFromMore(net, front, last, all);
      Regrouped(NodesFrom(net, a, all), NodesFrom(net, front, all), NodesOf(net, last, all));
    }
  }

  /** The contacts that the dialed peers reported, each peer that replied and, in a value lookup, had no value. */
  lemma {:induction false} NodesFromIs(net: Net, log: seq<Contact>, all: bool)
    ensures forall c :: c in NodesFrom(net, log, all) <==>
              exists p :: p in log && net(p).Reply? && (all || !net(p).found) && c in net(p).nodes
  {
    if log != [] {
      var front, last := log[..|log| - 1], log[|log| - 1];
      NodesFromIs(net, front, all);
      assert log == front + [last];
    }
  }

  lemma {:induction false} NodesWithin(net: Net, log: seq<Contact>, all: bool, world: set<string>)
    requires Closed(net, world) && Within(log, world)
    ensures Within(NodesFrom(net, log, all), world)
  {
    if log != [] {
      NodesWithin(net, log[..|log| - 1], all, world);
      assert log[|log| - 1] in log;
    }
  }

  /** The first value that is not empty: an empty one leaves the result of the lookup nil. */
  function FirstNonEmpty(values: seq<bytes>): Option<bytes> {
    if values == [] then None
    else if values[0] != [] then Some(values[0])
    else FirstNonEmpty(values[1..])
  }

  lemma {:induction false} FirstIsAny(values: seq<bytes>)
    ensures FirstNonEmpty(values).Some? ==> FirstNonEmpty(values).value in values && FirstNonEmpty(values).value != []
    ensures FirstNonEmpty(values).None? ==> forall v :: v in values ==> v == []
  {
    if values != [] {
      FirstIsAny(values[1..]);
      assert values == [values[0]] + values[1..];
    }
  }

  lemma {:induction false} ValuesAreFound(net: Net, log: seq<Contact>)
    ensures forall v :: v in ValuesFrom(net, log) <==> exists p :: p in log && FoundAt(net, p) && net(p).value == v
  {
    if log != [] {
      var n := |log| - 1;
      ValuesAreFound(net, log[..n]);
      assert log == log[..n] + [log[n]];
      ValuesFromMore(net, log[..n], log[n]);
    }
  }

  /** What one batch of a value lookup found. */
  lemma BatchFound(net: Net, order: seq<Contact>)
    ensures var found := FirstNonEmpty(ValuesFrom(net, order));
            if found.Some? then exists p :: p in order && HasValue(net, p) && net(p).value == found.value
            else forall p :: p in order ==> !HasValue(net, p)
  {
    hide ValuesFrom, FirstNonEmpty;
    FirstIsAny(ValuesFrom(net, order));
    ValuesAreFound(net, order);
    if FirstNonEmpty(ValuesFrom(net, order)).None? {
      forall p | p in order && FoundAt(net, p)
        ensures net(p).value == []
      {
        assert net(p).value in ValuesFrom(net, order);
      }
    }
  }

  /** v is the value of the first dialed peer that has one, and that peer comes after the first n dials. */
  ghost predicate FirstValue(net: Net, log: seq<Contact>, n: int, v: bytes) {
    exists i: nat :: FirstValueAt(net, log, i) && n <= i && net(log[i]).value == v
  }

  ghost predicate FirstValueAt(net: Net, log: seq<Contact>, i: nat) {
    i < |log| && HasValue(net, log[i]) && forall j :: 0 <= j < i ==> !HasValue(net, log[j])
  }

  lemma {:induction false} NonEmptyAppend(a: seq<bytes>, b: seq<bytes>)
    ensures FirstNonEmpty(a + b) == if FirstNonEmpty(a).Some? then FirstNonEmpty(a) else FirstNonEmpty(b)
  {
    if a == [] {
      assert a + b == b;
    } else {
      NonEmptyAppend(a[1..], b);
      assert (a + b)[1..] == a[1..] + b;
    }
  }

  /** The first value of a batch, when no earlier peer had one. */
  lemma {:induction false} BatchFirst(net: Net, log: seq<Contact>, order: seq<Contact>)
    requires forall p :: p in log ==> !HasValue(net, p)
    requires FirstNonEmpty(ValuesFrom(net, order)).Some?
    ensures FirstValue(net, log + order, |log|, FirstNonEmpty(ValuesFrom(net, order)).value)
    decreases |order|
  {
    var n := |order| - 1;
    if order != [] {
      var front, last := order[..n], order[n];
      assert order == front + [last];
      ValuesFromMore(net, front, last);
      var more := if FoundAt(net, last) then [net(last).value] else [];
      NonEmptyAppend(ValuesFrom(net, front), more);
      hide ValuesFrom;
      if FirstNonEmpty(ValuesFrom(net, front)).Some? {
        BatchFirst(net, log, front);
        var i: nat :| FirstValueAt(net, log + front, i) && |log| <= i
                      && net((log + front)[i]).value == FirstNonEmpty(ValuesFrom(net, front)).value;
        assert forall j :: 0 <= j < |log + front| ==> (log + order)[j] == (log + front)[j];
        assert FirstValueAt(net, log + order, i);
      } else {
        BatchFound(net, front);
        assert more[1..] == [];
        assert (log + order)[|log| + n] == last;
        assert FirstValueAt(net, log + order, |log| + n);
      }
    }
  }

  lemma {:induction false} ValuesFromAppend(net: Net, a: seq<Contact>, b: seq<Contact>)
    ensures ValuesFrom(net, a + b) == ValuesFrom(net, a) + ValuesFrom(net, b)
    decreases |b|
  {
    if b == [] {
      assert a + b == a;
    } else {
      var n := |b| - 1;
      ValuesFromAppend(net, a, b[..n]);
      assert a + b == (a + b[..n]) + [b[n]] && b == b[..n] + [b[n]];
      ValuesFromMore(net, a + b[..n], b[n]);
      ValuesFromMore(net, b[..n], b[n]);
    }
  }

  /** What the routing table answers with is in the table. */
  lemma ClosestInTable(self: NodeID, t: Routing.Table, target: NodeID, max: nat, out: seq<Contact>)
    requires |t| == ID_BITS && NearSearch.Nearest(self, t, target, max, out)
    ensures forall c :: c in out ==> NearSearch.InTable(t, c)
  {
    var r: nat :| NearSearch.IsClosest(self, t, target, max, out, r);
    forall c | c in out
      ensures NearSearch.InTable(t, c)
    {
      NearSearch.ScanMembers(t, BucketOf(self, target), r, c);
    }
  }

  // ---------------------------------------------------------------- rounds

  function Joined(rounds: seq<seq<Contact>>): seq<Contact> {
    if rounds == [] then [] else Joined(rounds[..|rounds| - 1]) + rounds[|rounds| - 1]
  }

  lemma JoinedMore(rounds: seq<seq<Contact>>, order: seq<Contact>)
    ensures Joined(rounds + [order]) == Joined(rounds) + order
  {
    assert (rounds + [order])[..|rounds|] == rounds;
  }

  /** The dials came in rounds of at most alpha, and each of the first n rounds dialed somebody. */
  ghost predicate InRounds(rounds: seq<seq<Contact>>, log: seq<Contact>, alpha: nat, n: nat) {
    && Joined(rounds) == log
    && (forall i :: 0 <= i < |rounds| ==> |rounds[i]| <= alpha)
    && (forall i :: 0 <= i < n && i < |rounds| ==> rounds[i] != [])
  }

  lemma OneRound(rounds: seq<seq<Contact>>, log: seq<Contact>, order: seq<Contact>, alpha: nat)
    requires InRounds(rounds, log, alpha, |rounds|) && |order| <= alpha
    ensures InRounds(rounds + [order], log + order, alpha, |rounds|)
    ensures order != [] ==> InRounds(rounds + [order], log + order, alpha, |rounds| + 1)
  {
    JoinedMore(rounds, order);
  }

  /** Rounds that dial somebody are no more than the dials. */
  lemma {:induction false} RoundsBounded(rounds: seq<seq<Contact>>, log: seq<Contact>, alpha: nat)
    requires InRounds(rounds, log, alpha, |rounds|)
    ensures |rounds| <= |log|
  {
    if rounds != [] {
      var n := |rounds| - 1;
      assert forall i :: 0 <= i < n ==> rounds[..n][i] == rounds[i];
      RoundsBounded(rounds[..n], Joined(rounds[..n]), alpha);
    }
  }

  // ---------------------------------------------------------------- what is known, and what became of it

  /** A usable contact that the lookup has learned of, from the routing table or from a dialed peer. */
  ghost predicate Heard(net: Net, all: bool, start: seq<Contact>, log: seq<Contact>, c: Contact) {
    c.id != ZeroID() && (c in start || c in NodesFrom(net, log, all))
  }

  /** K other known contacts are no farther from the target. */
  ghost predicate Crowded(net: Net, start: seq<Contact>, log: seq<Contact>, target: NodeID, c: Contact) {
    exists crowd :: IsCrowd(net, start, log, target, c, crowd)
  }

  ghost predicate IsCrowd(
      net: Net, start: seq<Contact>, log: seq<Contact>, target: NodeID, c: Contact, crowd: seq<Contact>) {
    && |crowd| == K && DistinctKeys(crowd)
    && forall x :: x in crowd ==>
         && Heard(net, false, start, log, x) && !SameKey(x, c)
         && XorDist(x.id, target) <= XorDist(c.id, target)
  }

  /** A value lookup has lost sight of no known contact: it was visited, is a candidate, or was crowded out. */
  ghost predicate Pursued(
      net: Net, start: seq<Contact>, log: seq<Contact>, target: NodeID, visited: set<string>, cands: seq<Contact>) {
    forall c :: Heard(net, false, start, log, c) ==>
      c.addr in visited || Represented(cands, c) || Crowded(net, start, log, target, c)
  }

  /** Candidates are contacts the lookup has learned of. */
  ghost predicate Learned(net: Net, all: bool, start: seq<Contact>, log: seq<Contact>, cands: seq<Contact>) {
    forall c :: c in cands ==> c in start || c in NodesFrom(net, log, all)
  }

  /** The next candidates: the sorted and trimmed ones, cut to K. */
  ghost predicate NextOf(cands: seq<Contact>, target: NodeID, visited: set<string>, next: seq<Contact>) {
    exists u :: Trimmed(cands, target, visited, u) && next == FirstOf(u, K)
  }

  function FirstOf(s: seq<Contact>, n: nat): seq<Contact> {
    if |s| > n then s[..n] else s
  }

  lemma PursuedStart(net: Net, start: seq<Contact>, target: NodeID)
    ensures Pursued(net, start, [], target, {}, start) && Learned(net, false, start, [], start)
  {
  }

  lemma HeardMore(net: Net, all: bool, start: seq<Contact>, log: seq<Contact>, order: seq<Contact>)
    ensures forall c :: Heard(net, all, start, log, c) ==> Heard(net, all, start, log + order, c)
    ensures forall c :: Heard(net, all, start, log + order, c) ==>
              Heard(net, all, start, log, c) || c in NodesFrom(net, order, all)
  {
    NodesFromAppend(net, log, order, all);
  }

  lemma CrowdedMore(
      net: Net, start: seq<Contact>, log: seq<Contact>, order: seq<Contact>, target: NodeID, c: Contact)
    requires Crowded(net, start, log, target, c)
    ensures Crowded(net, start, log + order, target, c)
  {
    hide Heard;
    var crowd :| IsCrowd(net, start, log, target, c, crowd);
    HeardMore(net, false, start, log, order);
    assert IsCrowd(net, start, log + order, target, c, crowd);
  }

  /** A round of a value lookup keeps sight of every known contact. */
  lemma PursuedRound(
      net: Net, start: seq<Contact>, log: seq<Contact>, order: seq<Contact>, target: NodeID, visited: set<string>,
      marked: set<string>, cands: seq<Contact>, next: seq<Contact>)
    requires Pursued(net, start, log, target, visited, cands) && Learned(net, false, start, log, cands)
    requires visited <= marked && NextOf(cands + NodesFrom(net, order, false), target, marked, next)
    ensures Pursued(net, start, log + order, target, marked, next)
    ensures Learned(net, false, start, log + order, next)
  {
    var cs := cands + NodesFrom(net, order, false);
    NodesFromAppend(net, log, order, false);
    assert Learned(net, false, start, log + order, cs);
    NextLearned(net, start, log + order, target, marked, cs, next);
    hide NodesFrom, Crowded, Represented, Learned;
    HeardMore(net, false, start, log, order);
    forall c | Heard(net, false, start, log + order, c)
      ensures c.addr in marked || Represented(next, c) || Crowded(net, start, log + order, target, c)
    {
      if Heard(net, false, start, log, c) && Crowded(net, start, log, target, c) {
        CrowdedMore(net, start, log, order, target, c);
      } else if c.addr !in visited {
        StaysRepresented(cands, NodesFrom(net, order, false), c);
        NextRepresents(net, start, log + order, target, marked, cs, next, c);
      }
    }
  }

  lemma StaysRepresented(cands: seq<Contact>, nodes: seq<Contact>, c: Contact)
    ensures Represented(cands, c) || c in nodes ==> Represented(cands + nodes, c)
  {
    if c in nodes {
      assert c in cands + nodes && SameKey(c, c);
    } else if Represented(cands, c) {
      var x :| x in cands && SameKey(x, c);
      assert x in cands + nodes;
    }
  }

  lemma NextLearned(
      net: Net, start: seq<Contact>, log: seq<Contact>, target: NodeID, marked: set<string>, cs: seq<Contact>,
      next: seq<Contact>)
    requires Learned(net, false, start, log, cs) && NextOf(cs, target, marked, next)
    ensures Learned(net, false, start, log, next)
  {
    hide NodesFrom, Trimmed;
    var u :| Trimmed(cs, target, marked, u) && next == FirstOf(u, K);
    TrimmedMeans(cs, target, marked, u);
    assert forall c :: c in next ==> c in u;
  }

  /** What the cut to K loses is crowded out by what it keeps. */
  lemma NextRepresents(
      net: Net, start: seq<Contact>, log: seq<Contact>, target: NodeID, marked: set<string>, cs: seq<Contact>,
      next: seq<Contact>, c: Contact)
    requires NextOf(cs, target, marked, next) && Learned(net, false, start, log, cs)
    requires Represented(cs, c) && c.id != ZeroID()
    ensures c.addr in marked || Represented(next, c) || Crowded(net, start, log, target, c)
  {
    hide NodesFrom, Trimmed, XorDist;
    var u :| Trimmed(cs, target, marked, u) && next == FirstOf(u, K);
    var x :| x in cs && SameKey(x, c);
    TrimmedRepresents(cs, target, marked, u, x, c);
    TrimmedMeans(cs, target, marked, u);
    if c.addr !in marked {
      var y :| y in u && SameKey(y, c);
      var j :| 0 <= j < |u| && u[j] == y;
      if j < |next| {
        assert next[j] == y;
      } else {
        assert IsCrowd(net, start, log, target, c, next);
      }
    }
  }

  /** A value lookup that ended without candidates: every known contact was dialed or crowded out. */
  ghost predicate Exhausted(net: Net, start: seq<Contact>, log: seq<Contact>, target: NodeID) {
    forall c :: Heard(net, false, start, log, c) ==> c.addr in Addrs(log) || Crowded(net, start, log, target, c)
  }

  lemma NothingLeft(net: Net, start: seq<Contact>, log: seq<Contact>, target: NodeID, visited: set<string>)
    requires Pursued(net, start, log, target, visited, []) && visited == Addrs(log)
    ensures Exhausted(net, start, log, target)
  {
    hide NodesFrom, Heard, Crowded;
    assert forall c :: !Represented([], c);
  }

  // ---------------------------------------------------------------- shortlists of a node lookup

  /** What every shortlist is: sorted, distinct, and made of known usable contacts. */
  ghost predicate Shortlist(net: Net, start: seq<Contact>, log: seq<Contact>, target: NodeID, cs: seq<Contact>) {
    && NearSearch.SortedTo(cs, target) && DistinctKeys(cs)
    && forall c :: c in cs ==> Heard(net, true, start, log, c)
  }

  /** And no known contact is missing, unless it was visited. */
  ghost predicate Recalled(
      net: Net, start: seq<Contact>, log: seq<Contact>, visited: set<string>, cs: seq<Contact>) {
    forall c :: Heard(net, true, start, log, c) ==> c.addr in visited || Represented(cs, c)
  }

  /** What a node lookup answers for each known contact. */
  ghost predicate Answered(
      net: Net, start: seq<Contact>, log: seq<Contact>, target: NodeID, want: nat, out: seq<Contact>) {
    forall c :: Heard(net, true, start, log, c) ==>
      || c.addr in Addrs(log) || Represented(out, c)
      || (|out| == want && forall x :: x in out ==> XorDist(x.id, target) <= XorDist(c.id, target))
  }

  /** The nearest usable contacts of the starting list were dialed. */
  ghost predicate FirstBatchDialed(start: seq<Contact>, log: seq<Contact>, target: NodeID, alpha: nat) {
    exists first :: Trimmed(start, target, {}, first) && Addrs(FirstOf(first, alpha)) <= Addrs(log)
  }

  /** The last round dialed the nearest of its shortlist and learned of no undialed contact nearer than those. */
  ghost predicate Stalled(net: Net, start: seq<Contact>, log: seq<Contact>, target: NodeID, alpha: nat) {
    exists prior, order, last :: StalledAt(net, start, log, target, alpha, prior, order, last)
  }

  ghost predicate StalledAt(
      net: Net, start: seq<Contact>, log: seq<Contact>, target: NodeID, alpha: nat,
      prior: seq<Contact>, order: seq<Contact>, last: seq<Contact>) {
    && log == prior + order
    && Shortlist(net, start, prior, target, last) && Recalled(net, start, prior, Addrs(prior), last)
    && Addrs(FirstOf(last, alpha)) <= Addrs(log)
    && LearnedNoNearer(net, order, target, Addrs(log), NearestDist(last, target))
  }

  /** Before its last round the lookup knew of fewer undialed contacts than are wanted. */
  ghost predicate WantedMore(
      net: Net, start: seq<Contact>, log: seq<Contact>, target: NodeID, want: nat, order: seq<Contact>) {
    exists prior, last ::
      && log == prior + order && Shortlist(net, start, prior, target, last)
      && Recalled(net, start, prior, Addrs(prior), last) && |last| < want
  }

  lemma StillWanted(
      net: Net, start: seq<Contact>, prior: seq<Contact>, order: seq<Contact>, before: set<string>,
      last: seq<Contact>, target: NodeID, want: nat)
    requires InFlight(prior, [], before) && Shortlist(net, start, prior, target, last)
    requires Recalled(net, start, prior, before, last) && |last| < want
    ensures WantedMore(net, start, prior + order, target, want, order)
  {
    hide Shortlist, Recalled, DistinctAddrs;
    assert before == Addrs(prior);
  }

  ghost predicate LearnedNoNearer(net: Net, order: seq<Contact>, target: NodeID, visited: set<string>, base: nat) {
    forall c :: c in NodesFrom(net, order, true) && c.id != ZeroID() && c.addr !in visited ==>
      base <= XorDist(c.id, target)
  }

  /** The distance of the first entry, or a number above every distance. */
  function NearestDist(cs: seq<Contact>, target: NodeID): nat {
    if cs == [] then Pow2(256) else XorDist(cs[0].id, target)
  }

  lemma ShortlistStart(net: Net, start: seq<Contact>, target: NodeID, first: seq<Contact>)
    requires Trimmed(start, target, {}, first)
    ensures Shortlist(net, start, [], target, first) && Recalled(net, start, [], {}, first)
  {
    hide Trimmed, XorDist;
    TrimmedMeans(start, target, {}, first);
    forall c | Heard(net, true, start, [], c)
      ensures Represented(first, c)
    {
      TrimmedRepresents(start, target, {}, first, c, c);
    }
  }

  lemma LeastFirst(net: Net, start: seq<Contact>, log: seq<Contact>, target: NodeID, cs: seq<Contact>)
    requires Shortlist(net, start, log, target, cs)
    ensures NearestDist(cs, target) <= Pow2(256)
    ensures forall x :: x in cs ==> NearestDist(cs, target) <= XorDist(x.id, target)
  {
    hide XorDist, Pow2, Heard;
    if cs != [] {
      DistanceBelow(cs[0].id, target);
    }
  }

  lemma RecalledMore(
      net: Net, start: seq<Contact>, log: seq<Contact>, visited: set<string>, more: set<string>, cs: seq<Contact>)
    requires Recalled(net, start, log, visited, cs) && visited <= more
    ensures Recalled(net, start, log, more, cs)
  {
  }

  lemma NothingLearned(net: Net, target: NodeID, visited: set<string>, base: nat)
    ensures LearnedNoNearer(net, [], target, visited, base)
  {
  }

  lemma ShortlistLearned(net: Net, start: seq<Contact>, log: seq<Contact>, target: NodeID, cs: seq<Contact>)
    requires Shortlist(net, start, log, target, cs)
    ensures Learned(net, true, start, log, cs)
  {
  }

  /** One more peer was dialed; without a reply nothing changes. */
  lemma ShortlistMore(
      net: Net, start: seq<Contact>, log: seq<Contact>, p: Contact, target: NodeID, visited: set<string>,
      cs: seq<Contact>)
    requires Shortlist(net, start, log, target, cs) && Recalled(net, start, log, visited, cs)
    ensures Shortlist(net, start, log + [p], target, cs)
    ensures net(p).Failed? ==> Recalled(net, start, log + [p], visited, cs)
  {
    NodesFromMore(net, log, p, true);
  }

  /** A reply is merged into the shortlist. */
  lemma ShortlistMerged(
      net: Net, start: seq<Contact>, log: seq<Contact>, p: Contact, target: NodeID, visited: set<string>,
      cs: seq<Contact>, out: seq<Contact>)
    requires Shortlist(net, start, log, target, cs) && Recalled(net, start, log, visited, cs)
    requires net(p).Reply? && Trimmed(cs + net(p).nodes, target, visited, out)
    ensures Shortlist(net, start, log + [p], target, out) && Recalled(net, start, log + [p], visited, out)
    ensures out != [] ==> out[0].addr !in visited
    ensures forall c :: c in net(p).nodes && c.id != ZeroID() && c.addr !in visited ==> Represented(out, c)
  {
    var all := cs + net(p).nodes;
    NodesFromMore(net, log, p, true);
    hide NodesFrom, Trimmed, XorDist, Represented;
    TrimmedMeans(all, target, visited, out);
    forall c: Contact | c.id != ZeroID() && (Represented(cs, c) || c in net(p).nodes)
      ensures c.addr in visited || Represented(out, c)
    {
      StaysRepresented(cs, net(p).nodes, c);
      MergedRepresents(all, target, visited, out, c);
    }
  }

  lemma MergedRepresents(all: seq<Contact>, target: NodeID, visited: set<string>, out: seq<Contact>, c: Contact)
    requires Trimmed(all, target, visited, out) && Represented(all, c) && c.id != ZeroID()
    ensures c.addr in visited || Represented(out, c)
  {
    hide Trimmed;
    var x :| x in all && SameKey(x, c);
    TrimmedRepresents(all, target, visited, out, x, c);
  }

  /** What a merge without progress brought is no nearer than what was there before. */
  lemma NoProgress(
      net: Net, order: seq<Contact>, p: Contact, target: NodeID, visited: set<string>, base: nat, out: seq<Contact>)
    requires LearnedNoNearer(net, order, target, visited, base)
    requires forall x :: x in out ==> base <= XorDist(x.id, target)
    requires net(p).Reply? ==>
      forall c :: c in net(p).nodes && c.id != ZeroID() && c.addr !in visited ==> Represented(out, c)
    ensures LearnedNoNearer(net, order + [p], target, visited, base)
  {
    hide XorDist;
    NodesFromMore(net, order, p, true);
  }

  lemma FirstRound(
      start: seq<Contact>, first: seq<Contact>, log: seq<Contact>, target: NodeID, marked: set<string>, alpha: nat)
    requires Trimmed(start, target, {}, first) && Addrs(FirstOf(first, alpha)) <= marked && InFlight(log, [], marked)
    ensures FirstBatchDialed(start, log, target, alpha)
  {
    hide Trimmed;
    assert marked == Addrs(log);
  }

  lemma FirstBatchStays(start: seq<Contact>, log: seq<Contact>, order: seq<Contact>, target: NodeID, alpha: nat)
    requires FirstBatchDialed(start, log, target, alpha)
    ensures FirstBatchDialed(start, log + order, target, alpha)
  {
    hide Trimmed;
    assert Addrs(log) <= Addrs(log + order);
  }

  lemma NoNearer(
      net: Net, start: seq<Contact>, prior: seq<Contact>, order: seq<Contact>, before: set<string>,
      marked: set<string>, last: seq<Contact>, target: NodeID, alpha: nat)
    requires InFlight(prior, [], before) && InFlight(prior + order, [], marked)
    requires Shortlist(net, start, prior, target, last) && Recalled(net, start, prior, before, last)
    requires Addrs(FirstOf(last, alpha)) <= marked
    requires LearnedNoNearer(net, order, target, marked, NearestDist(last, target))
    ensures Stalled(net, start, prior + order, target, alpha)
  {
    hide Shortlist, Recalled, LearnedNoNearer, NearestDist, DistinctAddrs;
    assert before == Addrs(prior) && marked == Addrs(prior + order);
    assert StalledAt(net, start, prior + order, target, alpha, prior, order, last);
  }

  /** Cutting the final shortlist to what was asked for. */
  lemma CutShortlist(
      net: Net, start: seq<Contact>, log: seq<Contact>, target: NodeID, want: nat, cs: seq<Contact>, out: seq<Contact>)
    requires Shortlist(net, start, log, target, cs) && Recalled(net, start, log, Addrs(log), cs)
    requires out == FirstOf(cs, want)
    ensures NearSearch.SortedTo(out, target) && DistinctKeys(out)
    ensures forall c :: c in out ==> Heard(net, true, start, log, c)
    ensures Answered(net, start, log, target, want, out)
  {
    CutKeeps(cs, out, target);
    hide XorDist, Heard, NearSearch.SortedTo, DistinctKeys, Represented;
    forall c | Heard(net, true, start, log, c) && c.addr !in Addrs(log)
      ensures Represented(out, c)
              || (|out| == want && forall x :: x in out ==> XorDist(x.id, target) <= XorDist(c.id, target))
    {
      CutAnswers(cs, out, want, target, c);
    }
  }

  lemma CutKeeps(cs: seq<Contact>, out: seq<Contact>, target: NodeID)
    requires NearSearch.SortedTo(cs, target) && DistinctKeys(cs) && out <= cs
    ensures NearSearch.SortedTo(out, target) && DistinctKeys(out)
    ensures forall c :: c in out ==> c in cs
  {
    hide XorDist;
  }

  lemma CutAnswers(cs: seq<Contact>, out: seq<Contact>, want: nat, target: NodeID, c: Contact)
    requires NearSearch.SortedTo(cs, target) && out == FirstOf(cs, want) && Represented(cs, c)
    ensures Represented(out, c)
            || (|out| == want && forall x :: x in out ==> XorDist(x.id, target) <= XorDist(c.id, target))
  {
    hide XorDist;
    var x :| x in cs && SameKey(x, c);
    var j :| 0 <= j < |cs| && cs[j] == x;
    if j < |out| {
      assert out[j] == x;
    }
  }

  // ---------------------------------------------------------------- finite worlds

  /** The first value of the last round that brought any. */
  function Newest(net: Net, rounds: seq<seq<Contact>>): Option<bytes> {
    if rounds == [] then None
    else
      var values := ValuesFrom(net, rounds[|rounds| - 1]);
      if values != [] then Some(values[0]) else Newest(net, rounds[..|rounds| - 1])
  }

  lemma NewestMore(net: Net, rounds: seq<seq<Contact>>, order: seq<Contact>)
    ensures Newest(net, []) == None
    ensures var values := ValuesFrom(net, order);
            Newest(net, rounds + [order]) == if values != [] then Some(values[0]) else Newest(net, rounds)
  {
    assert (rounds + [order])[..|rounds|] == rounds;
  }

  /** The store of a node that has cached this value, if any. */
  function Stored(was: map<string, Record>, key: string, expires: int, value: Option<bytes>): map<string, Record> {
    if value.None? then was else was[key := Record(value.value, expires, false)]
  }

  lemma StoredMore(was: map<string, Record>, key: string, expires: int, value: Option<bytes>, values: seq<bytes>)
    ensures Stored(was, key, expires, None) == was
    ensures values != [] ==>
      Stored(was, key, expires, value)[key := Record(values[0], expires, false)]
      == Stored(was, key, expires, Some(values[0]))
  {
  }

  lemma NothingMarked(alpha: nat)
    ensures InFlight([], [], {}) && DistinctAddrs([]) && InRounds([], [], alpha, 0)
    ensures forall world :: Within([], world)
  {
  }

  lemma StartWithin(start: seq<Contact>, world: set<string>)
    requires forall c :: c in start ==> c.addr in world
    ensures Within(start, world)
  {
  }

  /** Dialed candidates are peers of this world. */
  lemma OrderWithin(
      net: Net, all: bool, start: seq<Contact>, log: seq<Contact>, order: seq<Contact>, next: seq<Contact>,
      cands: seq<Contact>, world: set<string>)
    requires Closed(net, world) && Within(start, world) && Within(log, world) && Learned(net, all, start, log, cands)
    requires (forall p :: p in order ==> p in next) && forall p :: p in next ==> p in cands
    ensures Within(log + order, world)
  {
    NodesWithin(net, log, all, world);
  }

  lemma NothingDialed(net: Net)
    ensures ValuesFrom(net, []) == [] && forall all :: NodesFrom(net, [], all) == []
  {
  }

  lemma FlightBounded(log: seq<Contact>, visited: set<string>, world: set<string>)
    requires InFlight(log, [], visited) && Within(log, world)
    ensures DistinctAddrs(log) && Addrs(log) <= world && |log| <= |world| && visited == Addrs(log)
  {
    DialsBounded(log, world);
  }
}
