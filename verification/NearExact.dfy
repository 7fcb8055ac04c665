/** Exactly when the radius-expanding search returns the nearest contacts of the whole table. */
module NearExact {
  import opened Bytes
  import opened NodeId
  import opened Bucket
  import opened Routing
  import opened NearSearch

  /** Bucket j is nearer to the target than every bucket above it: it is the target's own, or lies above that
      at a bit where the target differs from self. */
  predicate Sure(self: NodeID, target: NodeID, j: nat)
    requires j < ID_BITS
  {
    var idx := BucketOf(self, target);
    j == idx || (j > idx && Bits(target)[j] != Bits(self)[j])
  }

  /** The contacts in sure buckets from the target's up to below bucket n. */
  function SureContacts(self: NodeID, t: Table, target: NodeID, n: nat): seq<Contact>
    requires |t| == ID_BITS && n <= ID_BITS
  {
    if n <= BucketOf(self, target) then []
    else SureContacts(self, t, target, n - 1) + if Sure(self, target, n - 1) then t[n - 1] else []
  }

  /** Some contact is too high for the search that stopped at radius r. */
  ghost predicate Beyond(t: Table, idx: nat, r: nat) {
    exists j :: idx + r <= j < |t| && t[j] != []
  }

  lemma {:induction false} SureMembers(self: NodeID, t: Table, target: NodeID, n: nat)
    requires TableOk(self, t) && n <= ID_BITS
    ensures forall c :: c in SureContacts(self, t, target, n) <==>
              InTable(t, c) && BucketOf(self, c.id) < n && Sure(self, target, BucketOf(self, c.id))
    ensures DistinctIds(SureContacts(self, t, target, n))
  {
    hide BucketOf, Bits;
    if n > BucketOf(self, target) {
      SureMembers(self, t, target, n - 1);
      var front, last := SureContacts(self, t, target, n - 1), if Sure(self, target, n - 1) then t[n - 1] else [];
      hide SureContacts, Sure;
      InOwnBucket(self, t);
      DistinctAppend(front, last);
      assert SureContacts(self, t, target, n) == front + last by {
        SureStep(self, t, target, n);
      }
    } else {
      NoneSure(self, t, target, n);
    }
  }

  lemma SureStep(self: NodeID, t: Table, target: NodeID, n: nat)
    requires |t| == ID_BITS && BucketOf(self, target) < n <= ID_BITS
    ensures SureContacts(self, t, target, n)
         == SureContacts(self, t, target, n - 1) + if Sure(self, target, n - 1) then t[n - 1] else []
  {
  }

  lemma NoneSure(self: NodeID, t: Table, target: NodeID, n: nat)
    requires |t| == ID_BITS && n <= BucketOf(self, target)
    ensures SureContacts(self, t, target, n) == []
    ensures forall j :: 0 <= j < n ==> !Sure(self, target, j)
  {
  }

  lemma InOwnBucket(self: NodeID, t: Table)
    requires TableOk(self, t)
    ensures forall c :: InTable(t, c) <==> c in t[BucketOf(self, c.id)]
  {
    hide BucketOf;
  }

  /** A contact of a sure bucket is nearer than any contact of an unsure one, or of a higher one. */
  lemma SureIsNearer(self: NodeID, target: NodeID, a: NodeID, b: NodeID)
    requires a != self && b != self && Sure(self, target, BucketOf(self, a))
    requires !Sure(self, target, BucketOf(self, b)) || BucketOf(self, a) < BucketOf(self, b)
    ensures XorDist(a, target) < XorDist(b, target)
  {
    var idx, j, k := BucketOf(self, target), BucketOf(self, a), BucketOf(self, b);
    BucketBits(self, a);
    BucketBits(self, b);
    hide BucketOf, Bits, XorDist;
    if k < idx {
      LowerBucketIsFarther(self, target, a, b);
    } else if j == idx {
      SameBucketIsNearer(self, target, a, b);
    } else {
      NearerAt(a, b, target, if j < k then j else k);
    }
  }

  /** A contact of an unsure bucket is farther than any contact above it and above the target's bucket. */
  lemma UnsureIsFarther(self: NodeID, target: NodeID, b: NodeID, o: NodeID)
    requires b != self && o != self && !Sure(self, target, BucketOf(self, b))
    requires BucketOf(self, o) > BucketOf(self, b) && BucketOf(self, o) > BucketOf(self, target)
    ensures XorDist(o, target) < XorDist(b, target)
  {
    BucketBits(self, b);
    BucketBits(self, o);
    hide BucketOf, Bits, XorDist;
    if BucketOf(self, b) < BucketOf(self, target) {
      LowerBucketIsFarther(self, target, o, b);
    } else {
      NearerAt(o, b, target, BucketOf(self, b));
    }
  }

  lemma {:induction false} ContactsIn(list: seq<Contact>, all: set<Contact>)
    requires DistinctIds(list) && forall c :: c in list ==> c in all
    ensures |list| <= |all|
  {
    if list != [] {
      var n := |list| - 1;
      ContactsIn(list[..n], all - {list[n]});
      assert list[n] in list && |all - {list[n]}| == |all| - 1;
    }
  }

  lemma {:induction false} SetAtMost(list: seq<Contact>)
    ensures |set c | c in list| <= |list|
  {
    if list != [] {
      var n := |list| - 1;
      SetAtMost(list[..n]);
      assert (set c | c in list) == (set c | c in list[..n]) + {list[n]};
    }
  }

  /** Distinct contacts that are all in a list are no more than the list holds. */
  lemma Pigeonhole(few: seq<Contact>, many: seq<Contact>)
    requires DistinctIds(few) && forall c :: c in few ==> c in many
    ensures |few| <= |many|
  {
    ContactsIn(few, set c | c in many);
    SetAtMost(many);
  }

  /** If a contact of an unsure bucket is returned, so are all scanned contacts of sure ones. */
  lemma SureComesFirst(
      self: NodeID, t: Table, target: NodeID, max: nat, out: seq<Contact>, r: nat, n: nat, x: Contact, c: Contact)
    requires TableOk(self, t) && IsClosest(self, t, target, max, out, r)
    requires n == Min(BucketOf(self, target) + r, ID_BITS)
    requires x in out && x.id != self && !Sure(self, target, BucketOf(self, x.id))
    requires c in SureContacts(self, t, target, n)
    ensures c in out
  {
    SureMembers(self, t, target, n);
    hide BucketOf, Bits, XorDist, Scan, SureContacts, Sure;
    SureIsNearer(self, target, c.id, x.id);
    assert Missed(t, target, out, c, x) <==> c !in out;
  }

  /** With enough contacts in sure buckets, only such contacts are returned. */
  lemma OnlySure(self: NodeID, t: Table, target: NodeID, max: nat, out: seq<Contact>, r: nat, n: nat, x: Contact)
    requires TableOk(self, t) && IsClosest(self, t, target, max, out, r)
    requires n == Min(BucketOf(self, target) + r, ID_BITS)
    requires |SureContacts(self, t, target, n)| >= max && x in out
    ensures Sure(self, target, BucketOf(self, x.id))
  {
    var sure := SureContacts(self, t, target, n);
    SureMembers(self, t, target, n);
    ScanInside(self, t, BucketOf(self, target), r);
    hide BucketOf, Bits, XorDist, Scan, SureContacts, Sure, TableOk;
    if !Sure(self, target, BucketOf(self, x.id)) {
      forall c | c in sure
        ensures c in out
      {
        SureComesFirst(self, t, target, max, out, r, n, x, c);
      }
      OneMore(sure, x, out);
    }
  }

  /** Distinct contacts of a list that lacks one of its members are fewer. */
  lemma OneMore(few: seq<Contact>, x: Contact, many: seq<Contact>)
    requires DistinctIds(few) && (forall c :: c in few ==> c in many)
    requires x in many && forall c :: c in few ==> c.id != x.id
    ensures |few| < |many|
  {
    DistinctAppend(few, [x]);
    Pigeonhole(few + [x], many);
  }

  /** The search misses nothing if and only if no contact lies at its radius or beyond, or the sure buckets below
      the radius hold enough contacts. */
  lemma ExactlyWhen(self: NodeID, t: Table, target: NodeID, max: nat, out: seq<Contact>, r: nat)
    requires TableOk(self, t) && IsClosest(self, t, target, max, out, r)
    ensures (forall o, x :: !Missed(t, target, out, o, x)) <==>
            || !Beyond(t, BucketOf(self, target), r)
            || |SureContacts(self, t, target, Min(BucketOf(self, target) + r, ID_BITS))| >= max
  {
    var idx := BucketOf(self, target);
    var n := Min(idx + r, ID_BITS);
    if Beyond(t, idx, r) && |SureContacts(self, t, target, n)| < max {
      SomethingMissed(self, t, target, max, out, r);
    } else {
      forall o, x
        ensures !Missed(t, target, out, o, x)
      {
        NothingMissed(self, t, target, max, out, r, o, x);
      }
    }
  }

  lemma NothingMissed(
      self: NodeID, t: Table, target: NodeID, max: nat, out: seq<Contact>, r: nat, o: Contact, x: Contact)
    requires TableOk(self, t) && IsClosest(self, t, target, max, out, r)
    requires || !Beyond(t, BucketOf(self, target), r)
             || |SureContacts(self, t, target, Min(BucketOf(self, target) + r, ID_BITS))| >= max
    ensures !Missed(t, target, out, o, x)
  {
    var idx := BucketOf(self, target);
    var n := Min(idx + r, ID_BITS);
    ScanInside(self, t, idx, r);
    hide BucketOf, Bits, XorDist, Scan, SureContacts, Sure;
    if InTable(t, o) && x in out && BucketOf(self, o.id) >= idx + r {
      var j :| 0 <= j < |t| && o in t[j];
      OnlySure(self, t, target, max, out, r, n, x);
      SureIsNearer(self, target, x.id, o.id);
    }
  }

  lemma SomethingMissed(self: NodeID, t: Table, target: NodeID, max: nat, out: seq<Contact>, r: nat)
    requires TableOk(self, t) && IsClosest(self, t, target, max, out, r)
    requires Beyond(t, BucketOf(self, target), r)
    requires |SureContacts(self, t, target, Min(BucketOf(self, target) + r, ID_BITS))| < max
    ensures exists o, x :: Missed(t, target, out, o, x)
  {
    var idx := BucketOf(self, target);
    var j :| idx + r <= j < |t| && t[j] != [];
    var o := t[j][0];
    var x := UnsureReturned(self, t, target, max, out, r);
    ScanInside(self, t, idx, r);
    assert o in t[j] && o.id != self && BucketOf(self, o.id) == j;
    hide BucketOf, Bits, XorDist, Scan, SureContacts, Sure, TableOk, Beyond;
    UnsureIsFarther(self, target, x.id, o.id);
    assert Missed(t, target, out, o, x);
  }

  lemma UnsureReturned(self: NodeID, t: Table, target: NodeID, max: nat, out: seq<Contact>, r: nat)
    returns (x: Contact)
    requires TableOk(self, t) && IsClosest(self, t, target, max, out, r)
    requires Beyond(t, BucketOf(self, target), r)
    requires |SureContacts(self, t, target, Min(BucketOf(self, target) + r, ID_BITS))| < max
    ensures x in out && !Sure(self, target, BucketOf(self, x.id))
  {
    var idx := BucketOf(self, target);
    var n := Min(idx + r, ID_BITS);
    var sure := SureContacts(self, t, target, n);
    SureMembers(self, t, target, n);
    ScanInside(self, t, idx, r);
    FullAnswer(self, t, target, max, out, r);
    hide BucketOf, Bits, XorDist, Scan, SureContacts, Sure, TableOk, Ascending;
    if forall c :: c in out ==> c in sure {
      Pigeonhole(out, sure);
    }
    x :| x in out && x !in sure;
    InTableOf(self, t, idx, r, x);
  }

  lemma InTableOf(self: NodeID, t: Table, idx: nat, r: nat, x: Contact)
    requires |t| == ID_BITS && idx < ID_BITS && x in Scan(t, idx, r)
    ensures InTable(t, x)
  {
    ScanMembers(t, idx, r, x);
  }

  /** A search that left buckets unscanned returns as many contacts as asked for, all with different IDs. */
  lemma FullAnswer(self: NodeID, t: Table, target: NodeID, max: nat, out: seq<Contact>, r: nat)
    requires TableOk(self, t) && IsClosest(self, t, target, max, out, r) && Beyond(t, BucketOf(self, target), r)
    ensures |out| == max && DistinctIds(out)
  {
    var idx := BucketOf(self, target);
    assert |t| == ID_BITS;
    hide BucketOf, XorDist, Scan, TableOk, Sizes;
    ScanTotal(t, idx, max, r);
    assert forall i, j :: 0 <= i < j < |out| ==> XorDist(out[i].id, target) < XorDist(out[j].id, target);
  }

  /** So it is exact when the target is self, when its bucket is the last one, or when that bucket suffices. */
  lemma ClosestExact(self: NodeID, t: Table, target: NodeID, max: nat, out: seq<Contact>, r: nat)
    requires TableOk(self, t) && IsClosest(self, t, target, max, out, r)
    requires target == self || BucketOf(self, target) == ID_BITS - 1 || |t[BucketOf(self, target)]| >= max
    ensures forall o, x :: !Missed(t, target, out, o, x)
  {
    assert |t| == ID_BITS;
    hide BucketOf, Bits, XorDist, Scan, SureContacts, TableOk, Missed;
    var idx := BucketOf(self, target);
    if target == self {
      SelfIsLast(self);
    }
    ExactlyWhen(self, t, target, max, out, r);
    if r > 0 {
      OwnBucketIsSure(self, t, target, Min(idx + r, ID_BITS));
    }
  }

  lemma SelfIsLast(self: NodeID)
    ensures BucketOf(self, self) == ID_BITS - 1
  {
    BucketBits(self, self);
  }

  lemma {:induction false} OwnBucketIsSure(self: NodeID, t: Table, target: NodeID, n: nat)
    requires |t| == ID_BITS && BucketOf(self, target) < n <= ID_BITS
    ensures |SureContacts(self, t, target, n)| >= |t[BucketOf(self, target)]|
  {
    hide BucketOf, Bits;
    if n - 1 > BucketOf(self, target) {
      OwnBucketIsSure(self, t, target, n - 1);
    }
  }
}
