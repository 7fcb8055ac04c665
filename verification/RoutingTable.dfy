/** The routing table object: 256 buckets that are touched, searched and pruned in place. */
module RoutingTable {
  import opened Bytes
  import opened NodeId
  import opened Bucket
  import Routing
  import NearSearch

  class RoutingTable {
    const self: NodeID
    const buckets: seq<Bucket>

    ghost function Lists(): (t: Routing.Table)
      reads buckets
      ensures |t| == |buckets|
    {
      seq(|buckets|, i requires 0 <= i < |buckets| reads buckets => buckets[i].list)
    }

    ghost predicate Valid()
      reads buckets
    {
      && (forall i, j :: 0 <= i < j < |buckets| ==> buckets[i] != buckets[j])
      && Routing.TableOk(self, Lists())
    }

    constructor (self: NodeID)
      ensures this.self == self && Valid() && fresh(buckets) && Lists() == Routing.Empty()
    {
      this.self := self;
      var made: seq<Bucket> := [];
      for i := 0 to ID_BITS
        invariant |made| == i && fresh(made)
        invariant forall k :: 0 <= k < i ==> made[k].list == []
        invariant forall k, l :: 0 <= k < l < i ==> made[k] != made[l]
      {
        var b := new Bucket();
        made := made + [b];
      }
      buckets := made;
      new;
      assert Lists() == Routing.Empty();
    }

    /** Counts the zero bits in front of the distance, byte by byte and bit by bit. */
    method BucketIndex(id: NodeID) returns (idx: nat)
      ensures idx == BucketOf(self, id)
    {
      // The distance in 32 big-endian bytes: its minimal bytes, right-aligned.
      var buf := ToBE(XorDist(self, id), ID_BYTES);
      ToFromBE(XorBytes(self, id));
      assert buf == XorBytes(self, id);
      hide Bits, XorBytes, XorDist, LeadingZeros, Shifted, ToBE, FromBE, BucketOf, ClearTo;
      ghost var bits := Bits(buf);
      var lz := 0;
      ClearStart(bits);
      for k := 0 to |buf|
        invariant lz == 8 * k && ClearTo(bits, lz)
      {
        var i := 7;
        while i >= 0
          invariant -1 <= i <= 7 && lz == 8 * k + 7 - i && ClearTo(bits, lz)
        {
          BitAt(buf, k, i);
          if Shifted(buf[k], i) % 2 == 0 {
            ClearOneMore(bits, lz);
            lz := lz + 1;
          } else {
            ZerosBefore(bits, lz);
            BucketAt(self, id);
            return lz;
          }
          i := i - 1;
        }
      }
      AllZeros(bits);
      BucketAt(self, id);
      return ID_BITS - 1;
    }

    method Update(c: Contact)
      requires Valid()
      modifies buckets
      ensures Valid() && Lists() == Routing.Update(self, old(Lists()), c)
    {
      hide BucketOf, Touched;
      Routing.UpdateKeeps(self, Lists(), c);
      if c.id == self {
        return;
      }
      var idx := BucketIndex(c.id);
      ghost var t := Lists();
      var evicted := buckets[idx].Touch(c);
      assert Lists() == t[idx := Touched(t[idx], c)];
    }

    method Remove(c: Contact) returns (found: bool)
      requires Valid()
      modifies buckets
      ensures Valid() && Lists() == Routing.Remove(self, old(Lists()), c)
      ensures found <==> exists x :: x in old(Lists())[BucketOf(self, c.id)] && x.id == c.id
    {
      hide BucketOf, Removed;
      Routing.RemoveKeeps(self, Lists(), c);
      var idx := BucketIndex(c.id);
      ghost var t := Lists();
      found := buckets[idx].RemoveByID(c.id);
      assert Lists() == t[idx := Removed(t[idx], c.id)];
    }

    method RemoveByAddr(addr: string) returns (removed: nat)
      requires Valid()
      modifies buckets
      ensures Valid() && Lists() == Routing.RemoveByAddr(old(Lists()), addr)
      ensures removed == NearSearch.Total(old(Lists())) - NearSearch.Total(Lists())
    {
      ghost var t := Lists();
      ghost var t' := Routing.RemoveByAddr(t, addr);
      Routing.RemoveByAddrKeeps(self, t, addr);
      hide Elsewhere;
      removed := Prune(addr, t, t');
      assert Lists() == t';
    }

    /** Filters every bucket in turn and adds up what was removed. */
    method Prune(addr: string, ghost t: Routing.Table, ghost t': Routing.Table) returns (removed: nat)
      requires forall i, j :: 0 <= i < j < |buckets| ==> buckets[i] != buckets[j]
      requires |t| == |t'| == |buckets|
      requires forall k :: 0 <= k < |buckets| ==> buckets[k].list == t[k] && t'[k] == Elsewhere(t[k], addr)
      modifies buckets
      ensures forall k :: 0 <= k < |buckets| ==> buckets[k].list == t'[k]
      ensures removed == NearSearch.Total(t) - NearSearch.Total(t')
    {
      hide Elsewhere, NearSearch.Sizes;
      removed := 0;
      NearSearch.SizesNone(t, 0);
      NearSearch.SizesNone(t', 0);
      for i := 0 to |buckets|
        invariant forall k :: 0 <= k < i ==> buckets[k].list == t'[k]
        invariant forall k :: i <= k < |buckets| ==> buckets[k].list == t[k]
        invariant removed == NearSearch.Sizes(t, 0, i) - NearSearch.Sizes(t', 0, i)
      {
        var n := buckets[i].RemoveByAddr(addr);
        NearSearch.SizesLast(t, 0, i + 1);
        NearSearch.SizesLast(t', 0, i + 1);
        removed := removed + n;
      }
    }

    /** Collects buckets at growing distance around the target's until there are enough contacts. */
    method Collect(idx: nat, max: nat) returns (all: seq<Contact>, ghost r: nat)
      requires Valid() && idx < ID_BITS
      ensures all == NearSearch.Scan(Lists(), idx, r)
      ensures !NearSearch.Collecting(Lists(), idx, max, r)
      ensures r > 0 ==> NearSearch.Collecting(Lists(), idx, max, r - 1)
    {
      assert |Lists()| == ID_BITS;
      ghost var t := Lists();
      assert forall i :: 0 <= i < |buckets| ==> buckets[i].list == t[i];
      hide NearSearch.Scan, Routing.TableOk, NearSearch.Collecting, Lists;
      all := [];
      var radius := 0;
      NearSearch.ScanNothing(t, idx);
      while |all| < max && (idx - radius >= 0 || idx + radius < ID_BITS)
        invariant all == NearSearch.Scan(t, idx, radius)
        invariant radius > 0 ==> NearSearch.Collecting(t, idx, max, radius - 1)
        decreases 2 * ID_BITS - radius
      {
        NearSearch.WhenCollecting(t, idx, max, radius);
        NearSearch.ScanStep(t, idx, radius);
        if idx - radius >= 0 {
          var near := buckets[idx - radius].Contacts();
          all := all + near;
        }
        if idx + radius < ID_BITS && radius != 0 {
          var far := buckets[idx + radius].Contacts();
          all := all + far;
        }
        radius := radius + 1;
      }
      NearSearch.WhenCollecting(t, idx, max, radius);
      r := radius;
    }

    /** The collected contacts, nearest first, cut to the number asked for. */
    method Closest(target: NodeID, max: nat) returns (out: seq<Contact>)
      requires Valid()
      ensures NearSearch.Nearest(self, Lists(), target, max, out)
    {
      hide NearSearch.IsClosest;
      var idx := BucketIndex(target);
      ghost var t := Lists();
      var all; ghost var r;
      all, r := Collect(idx, max);
      assert Lists() == t && Routing.TableOk(self, t);
      out := NearSearch.SortAndCut(self, t, target, max, all, r);
    }
  }

  // ---------------------------------------------------------------- bits of a byte

  /** b >> i */
  function Shifted(b: nat, i: nat): nat {
    if i == 0 then b else Shifted(b / 2, i - 1)
  }

  lemma {:induction false} LowBitAt(n: nat, k: nat, i: nat)
    requires i < k
    ensures LowBits(n, k)[k - 1 - i] <==> Shifted(n, i) % 2 == 1
    decreases k
  {
    if i > 0 {
      LowBitAt(n / 2, k - 1, i - 1);
    }
  }

  lemma {:induction false} BitAt(s: bytes, k: nat, i: nat)
    requires k < |s| && i < 8
    ensures Bits(s)[8 * k + 7 - i] <==> Shifted(s[k], i) % 2 == 1
    decreases |s|
  {
    var n := |s| - 1;
    if k == n {
      LowBitAt(s[n], 8, i);
    } else {
      BitAt(s[..n], k, i);
    }
  }

  predicate ClearTo(bits: seq<bool>, n: nat) {
    n <= |bits| && forall i :: 0 <= i < n ==> !bits[i]
  }

  lemma ClearStart(bits: seq<bool>)
    ensures ClearTo(bits, 0)
  {
  }

  lemma ClearOneMore(bits: seq<bool>, n: nat)
    requires ClearTo(bits, n) && n < |bits| && !bits[n]
    ensures ClearTo(bits, n + 1)
  {
  }

  lemma {:induction false} ZerosBefore(bits: seq<bool>, n: nat)
    requires n < |bits| && bits[n] && ClearTo(bits, n)
    ensures LeadingZeros(bits) == n
  {
    if n > 0 {
      ZerosBefore(bits[1..], n - 1);
    }
  }

  lemma BucketAt(self: NodeID, id: NodeID)
    ensures BucketOf(self, id) == var lz := LeadingZeros(Bits(XorBytes(self, id)));
                                  if lz == ID_BITS then ID_BITS - 1 else lz
  {
  }

  lemma {:induction false} AllZeros(bits: seq<bool>)
    requires ClearTo(bits, |bits|)
    ensures LeadingZeros(bits) == |bits|
  {
    if bits != [] {
      AllZeros(bits[1..]);
    }
  }
}
