/** Iterative lookups: batches of peers are dialed, and their replies bring values and new candidates. */
module Lookup {
  import opened Bytes
  import opened NodeId
  import opened Bucket
  import opened Candidates
  import opened Dialing
  import NearSearch
  import Routing
  import RoutingTable

  class Node {
    const rt: RoutingTable.RoutingTable
    const alpha: nat
    const ttl: int
    const failureThreshold: int
    var store: map<string, Record>
    var failCount: map<Key, nat>

    ghost predicate Valid()
      reads this, rt, rt.buckets
    {
      alpha > 0 && rt.Valid()
    }

    /** All addresses in the routing table belong to this world. */
    ghost predicate KnowsOnly(world: set<string>)
      reads this, rt, rt.buckets
    {
      forall c :: NearSearch.InTable(rt.Lists(), c) ==> c.addr in world
    }

    constructor (rt: RoutingTable.RoutingTable, alpha: nat, ttl: int, failureThreshold: int)
      requires alpha > 0 && rt.Valid()
      ensures Valid() && this.rt == rt && this.alpha == alpha && this.ttl == ttl && store == map[]
    {
      this.rt, this.alpha, this.ttl, this.failureThreshold := rt, alpha, ttl, failureThreshold;
      store, failCount := map[], map[];
    }

    /** Dials one peer and notes in the routing table how it went. */
    method Dial(p: Contact, net: Net) returns (reply: Reply)
      requires Valid()
      modifies this`failCount, rt.buckets
      ensures Valid() && reply == net(p)
      ensures reply.Reply? ==>
        && rt.Lists() == Routing.Update(rt.self, old(rt.Lists()), reply.from)
        && failCount == old(failCount) - {(reply.from.id, reply.from.addr)}
      ensures reply.Failed? ==>
        var key := (p.id, p.addr);
        var count := 2 + if key in old(failCount) then old(failCount)[key] else 0;
        if count >= failureThreshold
        then rt.Lists() == Routing.Remove(rt.self, old(rt.Lists()), p) && failCount == old(failCount) - {key}
        else rt.Lists() == old(rt.Lists()) && failCount == old(failCount)[key := count]
    {
      hide Routing.Update, Routing.Remove;
      reply := net(p);
      if reply.Failed? {
        var count := 2 + if (p.id, p.addr) in failCount then failCount[(p.id, p.addr)] else 0;
        failCount := failCount[(p.id, p.addr) := count];
        if count >= failureThreshold {
          var removed := rt.Remove(p);
          failCount := failCount - {(p.id, p.addr)};
        }
      } else {
        rt.Update(reply.from);
        failCount := failCount - {(reply.from.id, reply.from.addr)};
      }
    }

    /** Dials the marked peers for a value; the replies come in any order. */
    method AskValues(
        net: Net, batch: seq<Contact>, known: seq<Contact>, ghost log: seq<Contact>, ghost visited: set<string>)
      returns (cands: seq<Contact>, values: seq<bytes>, ghost order: seq<Contact>)
      requires Valid() && InFlight(log, batch, visited)
      modifies this`failCount, rt.buckets
      ensures Valid() && InFlight(log + order, [], visited)
      ensures |order| == |batch| && forall p :: p in order ==> p in batch
      ensures values == ValuesFrom(net, order) && cands == known + NodesFrom(net, order, false)
    {
      hide InFlight, ValuesFrom, NodesFrom;
      var pending := batch;
      cands, values, order := known, [], [];
      NothingDialed(net);
      assert log + [] == log;
      while pending != []
        invariant Valid() && InFlight(log + order, pending, visited)
        invariant |order| + |pending| == |batch|
        invariant forall p :: p in order || p in pending ==> p in batch
        invariant values == ValuesFrom(net, order) && cands == known + NodesFrom(net, order, false)
        decreases |pending|
      {
        var k :| 0 <= k < |pending|;
        var p := pending[k];
        Dialed(log + order, pending, visited, k);
        assert log + order + [p] == log + (order + [p]);
        ValuesFromMore(net, order, p);
        NodesFromMore(net, order, p, false);
        pending := Without(pending, k);
        var reply := Dial(p, net);
        if reply.Reply? {
          if reply.found {
            values := values + [reply.value];
          } else {
            cands := cands + reply.nodes;
          }
        }
        order := order + [p];
      }
    }

    /** Looks a value up. An unexpired record answers by itself. Else every round dials a new address, and the first
        value that comes ends the lookup in its round. When no value is found, every usable contact of the starting
        list and of the replies was dialed, unless K others are as near. */
    method Get(key: string, target: NodeID, now: int, later: int, net: Net, ghost world: set<string>)
      returns (
        r: Option<bytes>, ghost start: seq<Contact>, ghost log: seq<Contact>, ghost rounds: seq<seq<Contact>>)
      requires Valid() && Closed(net, world) && (key !in store || now >= store[key].expires ==> KnowsOnly(world))
      modifies this, rt.buckets
      ensures Valid()
      ensures DistinctAddrs(log) && Addrs(log) <= world
      ensures InRounds(rounds, log, alpha, |rounds|) && |rounds| <= |log| <= |world|
      ensures key in old(store) && now < old(store)[key].expires ==>
        && r == Some(old(store)[key].value) && log == [] && store == old(store)
        && failCount == old(failCount) && rt.Lists() == old(rt.Lists())
      ensures key !in old(store) || now >= old(store)[key].expires ==>
        && NearSearch.Nearest(rt.self, old(rt.Lists()), target, K, start)
        && if r.Some? then
             && rounds != [] && FirstValue(net, log, |log| - |rounds[|rounds| - 1]|, r.value)
             && store == old(store)[key := Record(r.value, later + ttl, false)]
           else
             && (forall p :: p in log ==> !HasValue(net, p)) && store == old(store)
             && Exhausted(net, start, log, target)
    {
      hide ValuesFrom, NodesFrom, FirstNonEmpty, NearSearch.Nearest, InFlight, DistinctAddrs, Within, Pursued, Learned;
      hide InRounds, Exhausted, FirstValue;
      start, log, rounds := [], [], [];
      NothingMarked(alpha);
      if key in store && now < store[key].expires {
        return Some(store[key].value), [], [], [];
      }
      var visited: set<string> := {};
      var cands := rt.Closest(target, K);
      start := cands;
      ClosestInTable(rt.self, rt.Lists(), target, K, start);
      StartWithin(start, world);
      PursuedStart(net, start, target);
      while |cands| > 0
        invariant Valid() && store == old(store) && InFlight(log, [], visited) && Within(log, world)
        invariant cands != [] ==> cands[0].addr !in visited
        invariant Pursued(net, start, log, target, visited, cands) && Learned(net, false, start, log, cands)
        invariant forall p :: p in log ==> !HasValue(net, p)
        invariant InRounds(rounds, log, alpha, |rounds|) && |log| <= |world|
        decreases |world| - |log|
      {
        var next := if |cands| > alpha then cands[..alpha] else cands;
        ghost var cands0, visited0, log0 := cands, visited, log;
        var batch, marked := MarkBatch(next, visited, log);
        var values; ghost var order;
        cands, values, order := AskValues(net, batch, cands, log, marked);
        OrderWithin(net, false, start, log, order, next, cands0, world);
        OneRound(rounds, log, order, alpha);
        visited, log, rounds := marked, log + order, rounds + [order];
        FlightBounded(log, visited, world);
        var found := FirstNonEmpty(values);
        BatchFound(net, order);
        if found.Some? {
          BatchFirst(net, log0, order);
          RoundsBounded(rounds, log, alpha);
          store := store[key := Record(found.value, later + ttl, false)];
          return found, start, log, rounds;
        }
        ghost var merged := cands;
        cands := NextCandidates(cands, target, visited);
        PursuedRound(net, start, log0, order, target, visited0, visited, cands0, cands);
      }
      FlightBounded(log, visited, world);
      RoundsBounded(rounds, log, alpha);
      NothingLeft(net, start, log, target, visited);
      return None, start, log, rounds;
    }

    /** Gathers the value of every peer dialed, and dials as many as Get does when it finds nothing. */
    method GetClosest(key: string, target: NodeID, now: int, later: int, net: Net, ghost world: set<string>)
      returns (
        r: Option<seq<bytes>>, ghost start: seq<Contact>, ghost log: seq<Contact>, ghost rounds: seq<seq<Contact>>)
      requires Valid() && Closed(net, world) && KnowsOnly(world)
      modifies this, rt.buckets
      ensures Valid()
      ensures DistinctAddrs(log) && Addrs(log) <= world
      ensures InRounds(rounds, log, alpha, |rounds|) && |rounds| <= |log| <= |world|
      ensures NearSearch.Nearest(rt.self, old(rt.Lists()), target, alpha, start)
      ensures Exhausted(net, start, log, target)
      ensures var own := if key in old(store) && now < old(store)[key].expires then [old(store)[key].value] else [];
              var all := own + ValuesFrom(net, log);
              r == if all == [] then None else Some(all)
      ensures store == Stored(old(store), key, later + ttl, Newest(net, rounds))
    {
      hide ValuesFrom, NodesFrom, NearSearch.Nearest, InFlight, DistinctAddrs, Within, Pursued, Learned, Newest;
      hide InRounds, Exhausted, Stored;
      log, rounds := [], [];
      NothingMarked(alpha);
      NothingDialed(net);
      var founds: seq<bytes> := [];
      if key in store && now < store[key].expires {
        founds := founds + [store[key].value];
      }
      ghost var own := founds;
      assert own == if key in old(store) && now < old(store)[key].expires then [old(store)[key].value] else [];
      NewestMore(net, [], []);
      StoredMore(store, key, later + ttl, None, []);
      var visited: set<string> := {};
      var cands := rt.Closest(target, alpha);
      start := cands;
      ClosestInTable(rt.self, rt.Lists(), target, alpha, start);
      StartWithin(start, world);
      PursuedStart(net, start, target);
      while |cands| > 0
        invariant Valid() && InFlight(log, [], visited) && Within(log, world)
        invariant cands != [] ==> cands[0].addr !in visited
        invariant Pursued(net, start, log, target, visited, cands) && Learned(net, false, start, log, cands)
        invariant founds == own + ValuesFrom(net, log)
        invariant store == Stored(old(store), key, later + ttl, Newest(net, rounds))
        invariant InRounds(rounds, log, alpha, |rounds|) && |log| <= |world|
        decreases |world| - |log|
      {
        var next := if |cands| > alpha then cands[..alpha] else cands;
        ghost var cands0, visited0, log0 := cands, visited, log;
        var batch, marked := MarkBatch(next, visited, log);
        var values; ghost var order;
        cands, values, order := AskValues(net, batch, cands, log, marked);
        NewestMore(net, rounds, order);
        founds := Remember(key, later + ttl, founds, values, own, ValuesFrom(net, log));
        StoredMore(old(store), key, later + ttl, Newest(net, rounds), values);
        ValuesFromAppend(net, log, order);
        OrderWithin(net, false, start, log, order, next, cands0, world);
        OneRound(rounds, log, order, alpha);
        visited, log, rounds := marked, log + order, rounds + [order];
        FlightBounded(log, visited, world);
        cands := NextCandidates(cands, target, visited);
        PursuedRound(net, start, log0, order, target, visited0, visited, cands0, cands);
      }
      FlightBounded(log, visited, world);
      RoundsBounded(rounds, log, alpha);
      NothingLeft(net, start, log, target, visited);
      if |founds| == 0 {
        return None, start, log, rounds;
      }
      return Some(founds), start, log, rounds;
    }

    /** Caches the first value of a round, if there is one, and appends all of them to the result. */
    method Remember(
        key: string, expires: int, founds: seq<bytes>, values: seq<bytes>,
        ghost own: seq<bytes>, ghost before: seq<bytes>)
      returns (more: seq<bytes>)
      requires founds == own + before
      modifies this`store
      ensures more == own + (before + values)
      ensures store == if values == [] then old(store) else old(store)[key := Record(values[0], expires, false)]
    {
      more := founds;
      if |values| > 0 {
        store := store[key := Record(values[0], expires, false)];
        more := more + values;
      }
    }

    /** The candidates of the next round. */
    method NextCandidates(cands: seq<Contact>, target: NodeID, visited: set<string>) returns (next: seq<Contact>)
      ensures NextOf(cands, target, visited, next) && (next != [] ==> next[0].addr !in visited)
    {
      hide Trimmed;
      next := UniqAndSortByDist(cands, target, visited);
      TrimmedMeans(cands, target, visited, next);
      ghost var u := next;
      if |next| > K {
        next := next[..K];
      }
      assert next == FirstOf(u, K);
    }

    /** Looks for contacts near an ID. Every round but the last one dials a new address, the first one the nearest of
        the starting list. No usable contact that was learned of is lost: it is returned, it was dialed, or want
        contacts as near are returned. Fewer than want are returned only when the last round learned of nothing
        nearer. */
    method IterativeFindNode(target: NodeID, want: nat, net: Net, ghost world: set<string>)
      returns (
        out: seq<Contact>, ghost start: seq<Contact>, ghost log: seq<Contact>, ghost rounds: seq<seq<Contact>>)
      requires Valid() && Closed(net, world) && KnowsOnly(world)
      modifies this`failCount, rt.buckets
      ensures Valid()
      ensures NearSearch.Nearest(rt.self, old(rt.Lists()), target, K, start)
      ensures DistinctAddrs(log) && Addrs(log) <= world
      ensures rounds != [] && InRounds(rounds, log, alpha, |rounds| - 1) && |rounds| <= |log| + 1 <= |world| + 1
      ensures |out| <= want && NearSearch.SortedTo(out, target) && DistinctKeys(out)
      ensures forall c :: c in out ==> Heard(net, true, start, log, c)
      ensures Answered(net, start, log, target, want, out)
      ensures FirstBatchDialed(start, log, target, alpha)
      ensures |out| < want ==> Stalled(net, start, log, target, alpha)
      ensures |rounds| > 1 ==> WantedMore(net, start, log, target, want, rounds[|rounds| - 1])
      ensures out != [] && (exists p :: p in rounds[|rounds| - 1] && net(p).Reply?) ==> out[0].addr !in Addrs(log)
    {
      hide InFlight, DistinctAddrs, Within, Shortlist, NearSearch.Nearest, Trimmed, Recalled, InRounds, NodesFrom;
      hide Stalled, Answered, FirstBatchDialed, Heard, XorDist, Addrs, NearestDist, LearnedNoNearer;
      hide WantedMore, NearSearch.SortedTo, DistinctKeys;
      log, rounds := [], [];
      NothingMarked(alpha);
      var visited: set<string> := {};
      var shortlist := rt.Closest(target, K);
      start := shortlist;
      ClosestInTable(rt.self, rt.Lists(), target, K, start);
      StartWithin(start, world);
      shortlist := UniqAndSortByDist(shortlist, target, visited);
      ghost var first := shortlist;
      ShortlistStart(net, start, target, shortlist);
      while true
        invariant Valid() && InFlight(log, [], visited) && Within(log, world) && |log| <= |world|
        invariant Shortlist(net, start, log, target, shortlist) && Recalled(net, start, log, visited, shortlist)
        invariant InRounds(rounds, log, alpha, |rounds|)
        invariant if rounds == [] then shortlist == first else FirstBatchDialed(start, log, target, alpha)
        invariant rounds != [] ==> |shortlist| < want
        decreases |world| - |log|
      {
        var next := if |shortlist| > alpha then shortlist[..alpha] else shortlist;
        ghost var last, prior, before := shortlist, log, visited;
        assert next == FirstOf(last, alpha);
        var batch, marked := MarkBatch(next, visited, log);
        ghost var base := NearestDist(last, target);
        LeastFirst(net, start, log, target, last);
        var progress; ghost var order;
        shortlist, progress, order := AskNodes(net, batch, shortlist, target, start, log, visited, marked, base);
        ShortlistLearned(net, start, log, target, last);
        OrderWithin(net, true, start, log, order, next, last, world);
        OneRound(rounds, log, order, alpha);
        RoundsBounded(rounds, log, alpha);
        if rounds == [] {
          FirstRound(start, first, log + order, target, marked, alpha);
        } else {
          FirstBatchStays(start, log, order, target, alpha);
          StillWanted(net, start, prior, order, before, last, target, want);
        }
        visited, log, rounds := marked, log + order, rounds + [order];
        FlightBounded(log, visited, world);
        if !progress {
          NoNearer(net, start, prior, order, before, marked, last, target, alpha);
          break;
        }
        if |shortlist| >= want {
          break;
        }
      }
      out := shortlist;
      if |out| > want {
        out := out[..want];
      }
      CutShortlist(net, start, log, target, want, shortlist, out);
    }

    /** Dials the marked peers for nodes; each reply is merged into the shortlist as it comes. Without progress,
        nothing nearer than base was learned of. */
    method AskNodes(
        net: Net, batch: seq<Contact>, short: seq<Contact>, target: NodeID, ghost start: seq<Contact>,
        ghost log: seq<Contact>, ghost before: set<string>, visited: set<string>, ghost base: nat)
      returns (shortlist: seq<Contact>, progress: bool, ghost order: seq<Contact>)
      requires Valid() && InFlight(log, batch, visited) && before <= visited
      requires Shortlist(net, start, log, target, short) && Recalled(net, start, log, before, short)
      requires base <= Pow2(256) && forall x :: x in short ==> base <= XorDist(x.id, target)
      modifies this`failCount, rt.buckets
      ensures Valid() && InFlight(log + order, [], visited)
      ensures |order| == |batch| && forall p :: p in order ==> p in batch
      ensures Shortlist(net, start, log + order, target, shortlist)
      ensures Recalled(net, start, log + order, visited, shortlist)
      ensures shortlist != [] && (exists p :: p in order && net(p).Reply?) ==> shortlist[0].addr !in visited
      ensures progress ==> order != []
      ensures !progress ==> LearnedNoNearer(net, order, target, visited, base)
    {
      hide InFlight, Shortlist, Recalled, Trimmed, XorDist, Pow2, LearnedNoNearer, NodesFrom;
      shortlist, progress, order := short, false, [];
      var pending := batch;
      assert log + [] == log;
      RecalledMore(net, start, log, before, visited, short);
      NothingLearned(net, target, visited, base);
      while pending != []
        invariant Valid() && InFlight(log + order, pending, visited)
        invariant |order| + |pending| == |batch|
        invariant forall p :: p in order || p in pending ==> p in batch
        invariant Shortlist(net, start, log + order, target, shortlist)
        invariant Recalled(net, start, log + order, visited, shortlist)
        invariant shortlist != [] && (exists p :: p in order && net(p).Reply?) ==> shortlist[0].addr !in visited
        invariant progress ==> order != []
        invariant !progress ==>
          LearnedNoNearer(net, order, target, visited, base)
          && forall x :: x in shortlist ==> base <= XorDist(x.id, target)
        decreases |pending|
      {
        var k :| 0 <= k < |pending|;
        var p := pending[k];
        Dialed(log + order, pending, visited, k);
        assert log + order + [p] == log + (order + [p]);
        pending := Without(pending, k);
        var reply := Dial(p, net);
        ShortlistMore(net, start, log + order, p, target, visited, shortlist);
        ghost var was := shortlist;
        if reply.Reply? {
          var oldBest := BestDist(shortlist, target);
          shortlist := UniqAndSortByDist(shortlist + reply.nodes, target, visited);
          ShortlistMerged(net, start, log + order, p, target, visited, was, shortlist);
          var newBest := BestDist(shortlist, target);
          if newBest < oldBest {
            progress := true;
          }
        }
        if !progress {
          NoProgress(net, order, p, target, visited, base, shortlist);
        }
        order := order + [p];
      }
    }
  }

  /** Two lookups of one key, the second one while the record that the first one left or used is unexpired: it gives
      the same value, dials nobody and changes nothing. */
  method GetAgain(
      node: Node, key: string, target: NodeID, now: int, later: int, again: int, net: Net, ghost world: set<string>)
    returns (first: Option<bytes>, second: Option<bytes>, ghost log: seq<Contact>, ghost relog: seq<Contact>)
    requires node.Valid() && Closed(net, world) && node.KnowsOnly(world)
    modifies node, node.rt.buckets
    ensures node.Valid() && (first.Some? ==> key in node.store && node.store[key].value == first.value)
    ensures first.Some? && log != [] ==> node.store[key].expires == later + node.ttl
    ensures first.Some? && again < node.store[key].expires ==> second == first && relog == []
  {
    ghost var start, rounds;
    first, start, log, rounds := node.Get(key, target, now, later, net, world);
    second, relog := None, [];
    if first.Some? && again < node.store[key].expires {
      second, start, relog, rounds := node.Get(key, target, again, again, net, world);
    }
  }
}
