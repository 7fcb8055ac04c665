/** Candidate lists of a lookup: the last contact of each ID and address, nearest first, with no visited ones
    in front. */
module Candidates {
  import opened NodeId
  import opened Bucket
  import NearSearch

  function ZeroID(): NodeID {
    seq(ID_BYTES, i => 0)
  }

  /** Entry j counts: its ID is not zero, and no later entry has its ID and address. */
  predicate Counts(cs: seq<Contact>, j: nat)
    requires j < |cs|
  {
    cs[j].id != ZeroID() && forall k :: j < k < |cs| ==> !SameKey(cs[j], cs[k])
  }

  ghost predicate Kept(cs: seq<Contact>, c: Contact) {
    exists j: nat :: j < |cs| && cs[j] == c && Counts(cs, j)
  }

  /** The candidates that count, nearest first, without the visited ones in front. */
  ghost predicate IsUniq(
      cs: seq<Contact>, target: NodeID, visited: set<string>, out: seq<Contact>, dropped: seq<Contact>) {
    && NearSearch.SortedTo(dropped + out, target)
    && DistinctKeys(dropped + out)
    && (forall c :: c in dropped + out <==> Kept(cs, c))
    && (forall c :: c in dropped ==> c.addr in visited)
    && (out != [] ==> out[0].addr !in visited)
  }

  ghost predicate Trimmed(cs: seq<Contact>, target: NodeID, visited: set<string>, out: seq<Contact>) {
    exists dropped :: IsUniq(cs, target, visited, out, dropped)
  }

  type Key = (NodeID, string)

  /** The last contact with each ID and address. */
  function LastOf(cs: seq<Contact>): map<Key, Contact> {
    if cs == [] then map[]
    else
      var c := cs[|cs| - 1];
      var m := LastOf(cs[..|cs| - 1]);
      if c.id == ZeroID() then m else m[(c.id, c.addr) := c]
  }

  lemma LastOfMore(cs: seq<Contact>, c: Contact)
    ensures LastOf(cs + [c]) == if c.id == ZeroID() then LastOf(cs) else LastOf(cs)[(c.id, c.addr) := c]
  {
    assert (cs + [c])[..|cs|] == cs;
  }

  lemma {:induction false} LastOfKeeps(cs: seq<Contact>)
    ensures forall c :: Kept(cs, c) <==> (c.id, c.addr) in LastOf(cs) && LastOf(cs)[(c.id, c.addr)] == c
    ensures forall k :: k in LastOf(cs) ==> (LastOf(cs)[k].id, LastOf(cs)[k].addr) == k
  {
    if cs != [] {
      var n := |cs| - 1;
      LastOfKeeps(cs[..n]);
      assert cs == cs[..n] + [cs[n]];
      LastOfMore(cs[..n], cs[n]);
      forall c
        ensures Kept(cs, c) <==> (c.id, c.addr) in LastOf(cs) && LastOf(cs)[(c.id, c.addr)] == c
      {
        KeptMore(cs[..n], cs[n], c);
      }
    }
  }

  lemma EarlierLoses(cs: seq<Contact>, x: Contact)
    ensures forall j :: 0 <= j < |cs| && SameKey(x, cs[j]) ==> !Counts(cs + [x], j)
  {
    forall j | 0 <= j < |cs| && SameKey(x, cs[j])
      ensures !Counts(cs + [x], j)
    {
      assert SameKey((cs + [x])[j], (cs + [x])[|cs|]);
    }
  }

  lemma KeptMore(cs: seq<Contact>, x: Contact, c: Contact)
    ensures Kept(cs + [x], c) <==> if x.id != ZeroID() && SameKey(x, c) then x == c else Kept(cs, c)
  {
    var more := cs + [x];
    if Kept(cs, c) && !(x.id != ZeroID() && SameKey(x, c)) {
      var j: nat :| j < |cs| && cs[j] == c && Counts(cs, j);
      assert more[j] == c && Counts(more, j);
    }
    if Kept(more, c) && !(x.id != ZeroID() && SameKey(x, c)) {
      var j: nat :| j < |more| && more[j] == c && Counts(more, j);
      assert cs[j] == c && Counts(cs, j) by {
        assert forall k :: j < k < |cs| ==> cs[k] == more[k];
      }
    }
    if x.id != ZeroID() && x == c {
      assert Counts(more, |cs|);
    }
    if x.id != ZeroID() && SameKey(x, c) && Kept(more, c) {
      var j: nat :| j < |more| && more[j] == c && Counts(more, j);
      EarlierLoses(cs, x);
    }
  }

  /** Some contact of the list has the ID and address of c. */
  predicate Represented(cs: seq<Contact>, c: Contact) {
    exists x :: x in cs && SameKey(x, c)
  }

  /** No contact but a zero ID is lost: it is represented, or its address was visited. */
  lemma TrimmedRepresents(
      cs: seq<Contact>, target: NodeID, visited: set<string>, out: seq<Contact>, x: Contact, c: Contact)
    requires Trimmed(cs, target, visited, out) && x in cs && SameKey(x, c) && c.id != ZeroID()
    ensures c.addr in visited || Represented(out, c)
  {
    hide NearSearch.SortedTo;
    var dropped :| IsUniq(cs, target, visited, out, dropped);
    var j :| 0 <= j < |cs| && cs[j] == x;
    var y := LastWithKey(cs, j);
    assert y in dropped + out;
  }

  lemma LastWithKey(cs: seq<Contact>, j: nat) returns (y: Contact)
    requires j < |cs| && cs[j].id != ZeroID()
    ensures SameKey(y, cs[j]) && Kept(cs, y)
    decreases |cs| - j
  {
    if k :| j < k < |cs| && SameKey(cs[j], cs[k]) {
      y := LastWithKey(cs, k);
    } else {
      y := cs[j];
      assert Counts(cs, j);
    }
  }

  /** A trimmed list is sorted and distinct, holds contacts of the list it was made from, and starts unvisited. */
  lemma TrimmedMeans(cs: seq<Contact>, target: NodeID, visited: set<string>, out: seq<Contact>)
    requires Trimmed(cs, target, visited, out)
    ensures NearSearch.SortedTo(out, target) && DistinctKeys(out)
    ensures forall c :: c in out ==> c in cs && c.id != ZeroID()
    ensures out != [] ==> out[0].addr !in visited
  {
    hide XorDist;
    var dropped :| IsUniq(cs, target, visited, out, dropped);
    var all := dropped + out;
    assert forall i :: 0 <= i < |out| ==> out[i] == all[|dropped| + i];
    forall c | c in out
      ensures c in cs && c.id != ZeroID()
    {
      assert c in all;
    }
  }

  method UniqAndSortByDist(cs: seq<Contact>, target: NodeID, visited: set<string>)
    returns (out: seq<Contact>)
    ensures Trimmed(cs, target, visited, out)
  {
    hide LastOf, Kept, NearSearch.SortedTo;
    var m: map<Key, Contact> := map[];
    NoneLast();
    for j := 0 to |cs|
      invariant m == LastOf(cs[..j])
    {
      var c := cs[j];
      assert cs[..j + 1] == cs[..j] + [c];
      LastOfMore(cs[..j], c);
      if c.id != ZeroID() {
        m := m[(c.id, c.addr) := c];
      }
    }
    assert cs[..|cs|] == cs;
    LastOfKeeps(cs);
    var list := Values(m);
    var sorted := NearSearch.SortByDist(list, target);
    var i := 0;
    while i < |sorted| && sorted[i].addr in visited
      invariant 0 <= i <= |sorted|
      invariant forall k :: 0 <= k < i ==> sorted[k].addr in visited
    {
      i := i + 1;
    }
    out := sorted[i..];
    assert sorted[..i] + out == sorted;
    assert IsUniq(cs, target, visited, out, sorted[..i]);
  }

  lemma NoneLast()
    ensures LastOf([]) == map[]
  {
  }

  /** The values of the map, in some order. */
  method Values(m: map<Key, Contact>) returns (list: seq<Contact>)
    requires forall k :: k in m ==> (m[k].id, m[k].addr) == k
    ensures forall c :: c in list <==> (c.id, c.addr) in m && m[(c.id, c.addr)] == c
    ensures DistinctKeys(list)
  {
    list := [];
    var rest := m.Keys;
    while rest != {}
      invariant rest <= m.Keys
      invariant forall c :: c in list <==> (c.id, c.addr) in m && (c.id, c.addr) !in rest && m[(c.id, c.addr)] == c
      invariant DistinctKeys(list)
    {
      var k :| k in rest;
      rest := rest - {k};
      list := list + [m[k]];
    }
  }

  /** The least distance to the target, or a number above every distance. */
  method BestDist(cs: seq<Contact>, target: NodeID) returns (best: nat)
    ensures cs == [] ==> best == Pow2(256)
    ensures cs != [] ==> exists c :: c in cs && best == XorDist(c.id, target)
    ensures forall c :: c in cs ==> best <= XorDist(c.id, target)
  {
    hide XorDist, Pow2;
    if |cs| == 0 {
      return Pow2(256);
    }
    best := XorDist(cs[0].id, target);
    for i := 1 to |cs|
      invariant exists c :: c in cs && best == XorDist(c.id, target)
      invariant forall k :: 0 <= k < i ==> best <= XorDist(cs[k].id, target)
    {
      var d := XorDist(cs[i].id, target);
      if d < best {
        best := d;
      }
    }
  }
}
