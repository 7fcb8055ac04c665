/** Sorting by XOR distance, and what the radius-expanding search over the buckets guarantees. */
module NearSearch {
  import opened Bytes
  import opened NodeId
  import opened Bucket
  import opened Routing

  // ---------------------------------------------------------------- sorting

  predicate SortedTo(list: seq<Contact>, target: NodeID) {
    forall i, j :: 0 <= i < j < |list| ==> XorDist(list[i].id, target) <= XorDist(list[j].id, target)
  }

  function Inserted(list: seq<Contact>, k: nat, c: Contact): seq<Contact>
    requires k <= |list|
  {
    list[..k] + [c] + list[k..]
  }

  lemma InsertSorted(list: seq<Contact>, k: nat, c: Contact, target: NodeID)
    requires k <= |list| && SortedTo(list, target)
    requires forall i :: 0 <= i < k ==> XorDist(list[i].id, target) <= XorDist(c.id, target)
    requires forall i :: k <= i < |list| ==> XorDist(c.id, target) <= XorDist(list[i].id, target)
    ensures SortedTo(Inserted(list, k, c), target)
  {
    hide XorDist;
    var r := Inserted(list, k, c);
    forall i, j | 0 <= i < j < |r|
      ensures XorDist(r[i].id, target) <= XorDist(r[j].id, target)
    {
      assert r[i] == if i < k then list[i] else if i == k then c else list[i - 1];
      assert r[j] == if j < k then list[j] else if j == k then c else list[j - 1];
    }
  }

  lemma InsertMembers(list: seq<Contact>, k: nat, c: Contact)
    requires k <= |list|
    ensures multiset(Inserted(list, k, c)) == multiset(list) + multiset{c}
  {
    assert list == list[..k] + list[k..];
  }

  lemma InsertDistinct(list: seq<Contact>, k: nat, c: Contact)
    requires k <= |list| && DistinctIds(list) && forall x :: x in list ==> x.id != c.id
    ensures DistinctIds(Inserted(list, k, c))
  {
    var r := Inserted(list, k, c);
    forall i, j | 0 <= i < j < |r|
      ensures r[i].id != r[j].id
    {
      assert r[i] == if i < k then list[i] else if i == k then c else list[i - 1];
      assert r[j] == if j < k then list[j] else if j == k then c else list[j - 1];
    }
  }

  lemma InsertDistinctKeys(list: seq<Contact>, k: nat, c: Contact)
    requires k <= |list| && DistinctKeys(list) && forall x :: x in list ==> !SameKey(x, c)
    ensures DistinctKeys(Inserted(list, k, c))
  {
    var r := Inserted(list, k, c);
    assert forall i :: 0 <= i < |list| ==> list[i] in list && !SameKey(list[i], c);
    forall i, j | 0 <= i < j < |r|
      ensures !SameKey(r[i], r[j])
    {
      assert r[i] == if i < k then list[i] else if i == k then c else list[i - 1];
      assert r[j] == if j < k then list[j] else if j == k then c else list[j - 1];
    }
  }

  /** sort.Slice by distance: a sorted permutation; the order among equal distances is left open by its contract. */
  method SortByDist(list: seq<Contact>, target: NodeID) returns (out: seq<Contact>)
    ensures multiset(out) == multiset(list) && |out| == |list|
    ensures forall c :: c in out <==> c in list
    ensures SortedTo(out, target)
    ensures DistinctIds(list) ==> DistinctIds(out)
    ensures DistinctKeys(list) ==> DistinctKeys(out)
  {
    hide XorDist, SortedTo, Inserted;
    out := [];
    NothingSorted(target);
    for i := 0 to |list|
      invariant multiset(out) == multiset(list[..i]) && |out| == i
      invariant SortedTo(out, target)
      invariant DistinctIds(list) ==> DistinctIds(out)
      invariant DistinctKeys(list) ==> DistinctKeys(out)
    {
      var c := list[i];
      assert list[..i + 1] == list[..i] + [c];
      SameMembers(out, list[..i]);
      out := Insert(out, c, target);
    }
    assert list[..|list|] == list;
    SameMembers(out, list);
  }

  lemma NothingSorted(target: NodeID)
    ensures SortedTo([], target)
  {
  }

  method Insert(list: seq<Contact>, c: Contact, target: NodeID) returns (out: seq<Contact>)
    requires SortedTo(list, target)
    ensures multiset(out) == multiset(list) + multiset{c} && |out| == |list| + 1
    ensures SortedTo(out, target)
    ensures DistinctIds(list) && (forall x :: x in list ==> x.id != c.id) ==> DistinctIds(out)
    ensures DistinctKeys(list) && (forall x :: x in list ==> !SameKey(x, c)) ==> DistinctKeys(out)
  {
    hide XorDist;
    var k := |list|;
    while k > 0 && XorDist(c.id, target) < XorDist(list[k - 1].id, target)
      invariant 0 <= k <= |list|
      invariant forall j :: k <= j < |list| ==> XorDist(c.id, target) <= XorDist(list[j].id, target)
    {
      k := k - 1;
    }
    assert forall i :: 0 <= i < k ==> XorDist(list[i].id, target) <= XorDist(list[k - 1].id, target);
    InsertSorted(list, k, c, target);
    InsertMembers(list, k, c);
    if DistinctIds(list) && forall x :: x in list ==> x.id != c.id {
      InsertDistinct(list, k, c);
    }
    if DistinctKeys(list) && forall x :: x in list ==> !SameKey(x, c) {
      InsertDistinctKeys(list, k, c);
    }
    out := Inserted(list, k, c);
  }

  lemma SameMembers(a: seq<Contact>, b: seq<Contact>)
    requires multiset(a) == multiset(b)
    ensures forall c :: c in a <==> c in b
  {
    forall c
      ensures c in a <==> c in b
    {
      assert c in a <==> c in multiset(a);
      assert c in b <==> c in multiset(b);
    }
  }

  // ---------------------------------------------------------------- the buckets scanned

  /** The contacts collected in r rounds around bucket idx. */
  function Scan(t: Table, idx: nat, r: nat): seq<Contact>
    requires |t| == ID_BITS && idx < ID_BITS
  {
    if r == 0 then []
    else
      var k := r - 1;
      Scan(t, idx, k)
      + (if idx >= k then t[idx - k] else [])
      + (if idx + k < ID_BITS && k != 0 then t[idx + k] else [])
  }

  ghost predicate Within(t: Table, idx: nat, r: nat, c: Contact) {
    exists j :: 0 <= j < |t| && idx - r < j < idx + r && c in t[j]
  }

  lemma {:induction false} ScanMembers(t: Table, idx: nat, r: nat, c: Contact)
    requires |t| == ID_BITS && idx < ID_BITS
    ensures c in Scan(t, idx, r) <==> Within(t, idx, r, c)
  {
    if r > 0 {
      var k := r - 1;
      ScanMembers(t, idx, k, c);
      ScanStep(t, idx, k);
      WithinStep(t, idx, k, c);
    }
  }

  lemma WithinStep(t: Table, idx: nat, k: nat, c: Contact)
    requires |t| == ID_BITS && idx < ID_BITS
    ensures Within(t, idx, k + 1, c) <==>
              Within(t, idx, k, c) || (idx >= k && c in t[idx - k]) || (idx + k < ID_BITS && c in t[idx + k])
  {
    if Within(t, idx, k + 1, c) {
      var j :| 0 <= j < |t| && idx - (k + 1) < j < idx + k + 1 && c in t[j];
      assert j == idx - k || j == idx + k || idx - k < j < idx + k;
    }
  }

  lemma {:induction false} ScanDistinct(self: NodeID, t: Table, idx: nat, r: nat)
    requires TableOk(self, t) && idx < ID_BITS
    ensures DistinctIds(Scan(t, idx, r))
  {
    if r > 0 {
      var k := r - 1;
      var inner := Scan(t, idx, k);
      var low := if idx >= k then t[idx - k] else [];
      var high := if idx + k < ID_BITS && k != 0 then t[idx + k] else [];
      ScanDistinct(self, t, idx, k);
      ScanInside(self, t, idx, k);
      DistinctAppend(inner, low);
      DistinctAppend(inner + low, high);
    }
  }

  lemma DistinctAppend(a: seq<Contact>, b: seq<Contact>)
    requires DistinctIds(a) && DistinctIds(b)
    requires forall x, y :: x in a && y in b ==> x.id != y.id
    ensures DistinctIds(a + b)
  {
  }

  lemma ScanInside(self: NodeID, t: Table, idx: nat, r: nat)
    requires TableOk(self, t) && idx < ID_BITS
    ensures forall c :: c in Scan(t, idx, r) ==> c.id != self && idx - r < BucketOf(self, c.id) < idx + r
  {
    forall c | c in Scan(t, idx, r)
      ensures c.id != self && idx - r < BucketOf(self, c.id) < idx + r
    {
      ScanMembers(t, idx, r, c);
    }
  }

  /** The number of contacts in buckets lo to hi - 1. */
  function Sizes(t: Table, lo: nat, hi: nat): nat
    requires lo <= hi <= |t|
    decreases hi - lo
  {
    if lo == hi then 0 else |t[lo]| + Sizes(t, lo + 1, hi)
  }

  lemma SizesNone(t: Table, lo: nat)
    requires lo <= |t|
    ensures Sizes(t, lo, lo) == 0
  {
  }

  lemma {:induction false} SizesLast(t: Table, lo: nat, hi: nat)
    requires lo < hi <= |t|
    ensures Sizes(t, lo, hi) == Sizes(t, lo, hi - 1) + |t[hi - 1]|
    decreases hi - lo
  {
    if lo + 1 < hi {
      SizesLast(t, lo + 1, hi);
    }
  }

  function Low(idx: nat, r: nat): nat {
    if idx + 1 >= r then idx + 1 - r else 0
  }

  /** Each bucket within the radius is counted once. */
  lemma {:induction false} ScanCount(t: Table, idx: nat, r: nat)
    requires |t| == ID_BITS && idx < ID_BITS && r >= 1
    ensures |Scan(t, idx, r)| == Sizes(t, Low(idx, r), Min(idx + r, ID_BITS))
  {
    if r == 1 {
      assert Scan(t, idx, 0) == [];
      assert Sizes(t, idx, idx + 1) == |t[idx]| + Sizes(t, idx + 1, idx + 1);
    } else {
      ScanCount(t, idx, r - 1);
      if idx + r <= ID_BITS {
        SizesLast(t, Low(idx, r - 1), idx + r);
      }
    }
  }

  // ---------------------------------------------------------------- what the search returns

  function Total(t: Table): nat {
    Sizes(t, 0, |t|)
  }

  ghost predicate InTable(t: Table, c: Contact) {
    exists j :: 0 <= j < |t| && c in t[j]
  }

  predicate Ascending(list: seq<Contact>, target: NodeID) {
    forall i, j :: 0 <= i < j < |list| ==> XorDist(list[i].id, target) < XorDist(list[j].id, target)
  }

  /** o is a contact of the table that was left out although a returned one is farther. */
  ghost predicate Missed(t: Table, target: NodeID, out: seq<Contact>, o: Contact, x: Contact) {
    InTable(t, o) && o !in out && x in out && XorDist(o.id, target) < XorDist(x.id, target)
  }

  /** The guarantee of the search that scanned r rounds. */
  ghost predicate IsClosest(self: NodeID, t: Table, target: NodeID, max: nat, out: seq<Contact>, r: nat)
    requires |t| == ID_BITS
  {
    var idx := BucketOf(self, target);
    && |out| == Min(max, Total(t))
    && Ascending(out, target)
    && (forall c :: c in out ==> c in Scan(t, idx, r))
    && (forall o, x :: Missed(t, target, out, o, x) ==> BucketOf(self, o.id) >= idx + r)
    && (r > 0 ==> |Scan(t, idx, r - 1)| < max)
    && (max > 0 ==> r > 0)
    && !Collecting(t, idx, max, r)
  }

  /** The guarantee of the search, whatever radius it stopped at. */
  ghost predicate Nearest(self: NodeID, t: Table, target: NodeID, max: nat, out: seq<Contact>)
    requires |t| == ID_BITS
  {
    exists r: nat :: IsClosest(self, t, target, max, out, r)
  }

  /** Whether the loop that collects contacts goes on. */
  predicate Collecting(t: Table, idx: nat, max: nat, r: nat)
    requires |t| == ID_BITS && idx < ID_BITS
  {
    |Scan(t, idx, r)| < max && (idx - r >= 0 || idx + r < ID_BITS)
  }

  lemma WhenCollecting(t: Table, idx: nat, max: nat, r: nat)
    requires |t| == ID_BITS && idx < ID_BITS
    ensures Collecting(t, idx, max, r) <==> |Scan(t, idx, r)| < max && (idx - r >= 0 || idx + r < ID_BITS)
  {
  }

  /** Sorting and cutting what the finished scan collected gives the guarantee. */
  lemma ClosestCorrect(
      self: NodeID, t: Table, target: NodeID, max: nat, r: nat, sorted: seq<Contact>, out: seq<Contact>)
    requires TableOk(self, t)
    requires var idx := BucketOf(self, target);
             && !Collecting(t, idx, max, r) && (r > 0 ==> Collecting(t, idx, max, r - 1))
             && |sorted| == |Scan(t, idx, r)| && (forall c :: c in sorted <==> c in Scan(t, idx, r))
    requires SortedTo(sorted, target) && DistinctIds(sorted)
    requires out == if |sorted| > max then sorted[..max] else sorted
    ensures IsClosest(self, t, target, max, out, r)
  {
    assert |t| == ID_BITS;
    hide BucketOf, XorDist, Scan, TableOk, DistinctIds, SortedTo, Ascending, Sizes, Total;
    var idx := BucketOf(self, target);
    SortedStrictly(sorted, target);
    ScanTotal(t, idx, max, r);
    ScanNothing(t, idx);
    AscendingCut(sorted, max, target);
    assert forall c :: c in out ==> c in sorted;
    forall o, x | Missed(t, target, out, o, x)
      ensures BucketOf(self, o.id) >= idx + r
    {
      MissedIsFar(self, t, target, max, r, sorted, out, o, x);
    }
  }

  method SortAndCut(self: NodeID, ghost t: Table, target: NodeID, max: nat, all: seq<Contact>, ghost r: nat)
    returns (out: seq<Contact>)
    requires TableOk(self, t) && all == Scan(t, BucketOf(self, target), r)
    requires !Collecting(t, BucketOf(self, target), max, r)
    requires r > 0 ==> Collecting(t, BucketOf(self, target), max, r - 1)
    ensures IsClosest(self, t, target, max, out, r)
  {
    hide BucketOf, XorDist, Scan, IsClosest, Collecting;
    ScanDistinct(self, t, BucketOf(self, target), r);
    var sorted := SortByDist(all, target);
    out := sorted;
    if |out| > max {
      out := out[..max];
    }
    ClosestCorrect(self, t, target, max, r, sorted, out);
  }

  lemma SortedStrictly(sorted: seq<Contact>, target: NodeID)
    requires SortedTo(sorted, target) && DistinctIds(sorted)
    ensures Ascending(sorted, target)
  {
    hide XorDist;
    forall i, j | 0 <= i < j < |sorted|
      ensures XorDist(sorted[i].id, target) < XorDist(sorted[j].id, target)
    {
      if XorDist(sorted[i].id, target) == XorDist(sorted[j].id, target) {
        DistanceInjective(sorted[i].id, sorted[j].id, target);
      }
    }
  }

  lemma AscendingCut(sorted: seq<Contact>, max: nat, target: NodeID)
    requires Ascending(sorted, target)
    ensures |sorted| > max ==> Ascending(sorted[..max], target)
  {
  }

  lemma ScanTotal(t: Table, idx: nat, max: nat, r: nat)
    requires |t| == ID_BITS && idx < ID_BITS
    requires !Collecting(t, idx, max, r)
    ensures Min(max, |Scan(t, idx, r)|) == Min(max, Total(t))
  {
    hide Scan;
    if r == 0 {
      assert Scan(t, idx, 0) == [] by { ScanNothing(t, idx); }
    } else {
      ScanCount(t, idx, r);
      SizesWithin(t, Low(idx, r), Min(idx + r, ID_BITS));
    }
  }

  lemma ScanStep(t: Table, idx: nat, k: nat)
    requires |t| == ID_BITS && idx < ID_BITS
    ensures Scan(t, idx, k + 1) == var low := if idx >= k then Scan(t, idx, k) + t[idx - k] else Scan(t, idx, k);
                                   if idx + k < ID_BITS && k != 0 then low + t[idx + k] else low
  {
  }

  lemma ScanNothing(t: Table, idx: nat)
    requires |t| == ID_BITS && idx < ID_BITS
    ensures Scan(t, idx, 0) == []
  {
  }

  lemma SizesWithin(t: Table, lo: nat, hi: nat)
    requires lo <= hi <= |t|
    ensures Sizes(t, lo, hi) <= Total(t)
    decreases lo + (|t| - hi)
  {
    if lo > 0 {
      SizesWithin(t, lo - 1, hi);
    } else if hi < |t| {
      SizesWithin(t, lo, hi + 1);
      SizesLast(t, lo, hi + 1);
    }
  }

  /** What was cut off is farther than what was kept. */
  lemma OmittedIsLater(
      target: NodeID, max: nat, sorted: seq<Contact>, out: seq<Contact>, o: Contact, x: Contact)
    requires Ascending(sorted, target) && out == if |sorted| > max then sorted[..max] else sorted
    requires o in sorted && o !in out && x in out
    ensures XorDist(x.id, target) < XorDist(o.id, target)
  {
    hide XorDist;
    var i, k :| 0 <= i < |out| && out[i] == x && 0 <= k < |sorted| && sorted[k] == o;
    forall n | 0 <= n < |out|
      ensures out[n] == sorted[n] && sorted[n] != o
    {
      assert out[n] in out;
    }
  }

  lemma MissedIsFar(
      self: NodeID, t: Table, target: NodeID, max: nat, r: nat, sorted: seq<Contact>, out: seq<Contact>,
      o: Contact, x: Contact)
    requires TableOk(self, t)
    requires forall c :: c in sorted <==> c in Scan(t, BucketOf(self, target), r)
    requires Ascending(sorted, target)
    requires out == if |sorted| > max then sorted[..max] else sorted
    requires Missed(t, target, out, o, x)
    ensures BucketOf(self, o.id) >= BucketOf(self, target) + r
  {
    hide BucketOf, XorDist, Scan;
    var idx := BucketOf(self, target);
    var j :| 0 <= j < |t| && o in t[j];
    assert x in sorted;
    ScanInside(self, t, idx, r);
    if o in sorted {
      OmittedIsLater(target, max, sorted, out, o, x);
    } else {
      ScanMembers(t, idx, r, o);
      if j < idx {
        LowerBucketIsFarther(self, target, x.id, o.id);
      }
    }
  }

  lemma SizesOne(t: Table, lo: nat, hi: nat, j: nat)
    requires lo <= j < hi <= |t|
    ensures |t[j]| <= Sizes(t, lo, hi)
    decreases hi - lo
  {
    if lo < j {
      SizesOne(t, lo + 1, hi, j);
    }
  }

  /** Elsewhere it can miss: with one contact just below the target's bucket and one two buckets above it,
      a search for one contact returns the farther of the two. */
  lemma ClosestMisses(self: NodeID, t: Table, target: NodeID, a: Contact, o: Contact, out: seq<Contact>, r: nat)
    requires TableOk(self, t) && IsClosest(self, t, target, 1, out, r)
    requires var idx := BucketOf(self, target);
             && 1 <= idx < ID_BITS - 2
             && t[idx] == [] && t[idx - 1] == [a] && t[idx + 1] == [] && o in t[idx + 2]
    ensures out == [a] && Missed(t, target, out, o, a)
  {
    var idx := BucketOf(self, target);
    TwoRounds(t, idx, a);
    assert a in t[idx - 1] && BucketOf(self, a.id) == idx - 1 && BucketOf(self, o.id) == idx + 2;
    hide BucketOf, XorDist, Scan, Collecting;
    LowerBucketIsFarther(self, target, o.id, a.id);
    hide Sizes;
    SizesOne(t, 0, |t|, idx - 1);
    assert |out| == 1;
    if r > 2 {
      ScanAtLeast(t, idx, r - 1, idx - 1);
    }
    assert out[0] in out;
  }

  lemma ScanAtLeast(t: Table, idx: nat, r: nat, j: nat)
    requires |t| == ID_BITS && idx < ID_BITS && r >= 1 && j < ID_BITS && idx - r < j < idx + r
    ensures |Scan(t, idx, r)| >= |t[j]|
  {
    ScanCount(t, idx, r);
    SizesOne(t, Low(idx, r), Min(idx + r, ID_BITS), j);
  }

  lemma TwoRounds(t: Table, idx: nat, a: Contact)
    requires |t| == ID_BITS && 1 <= idx < ID_BITS - 2
    requires t[idx] == [] && t[idx - 1] == [a] && t[idx + 1] == []
    ensures Scan(t, idx, 0) == [] && Scan(t, idx, 1) == [] && Scan(t, idx, 2) == [a]
  {
    assert Scan(t, idx, 1) == Scan(t, idx, 0) + t[idx] + [];
    assert Scan(t, idx, 2) == Scan(t, idx, 1) + t[idx - 1] + t[idx + 1];
  }
}
