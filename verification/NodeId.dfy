/** Node identifiers, the XOR metric, and how shared prefixes order distances. */
module NodeId {
  import opened Bytes

  const ID_BYTES: nat := 32
  const ID_BITS: nat := 256

  type NodeID = d: bytes | |d| == ID_BYTES witness seq(ID_BYTES, i => 0)

  // ---------------------------------------------------------------- exclusive or

  function Pow2(k: nat): nat {
    if k == 0 then 1 else 2 * Pow2(k - 1)
  }

  /** The exclusive or of the low k bits. */
  function XorLow(a: nat, b: nat, k: nat): (x: nat)
    ensures x < Pow2(k)
  {
    if k == 0 then 0
    else 2 * XorLow(a / 2, b / 2, k - 1) + if a % 2 == b % 2 then 0 else 1
  }

  function XorByte(a: byte, b: byte): byte {
    assert Pow2(8) == 256 by {
      assert Pow2(4) == 16;
      assert Pow2(6) == 64;
    }
    XorLow(a, b, 8)
  }

  function XorBytes(a: bytes, b: bytes): (x: bytes)
    requires |a| == |b|
    ensures |x| == |a|
  {
    if a == [] then []
    else XorBytes(a[..|a| - 1], b[..|b| - 1]) + [XorByte(a[|a| - 1], b[|b| - 1])]
  }

  /** The distance of two IDs: their exclusive or, read as a big-endian number. */
  function XorDist(a: NodeID, b: NodeID): nat {
    FromBE(XorBytes(a, b))
  }

  // ---------------------------------------------------------------- bits

  /** The low k bits of a number, highest first. */
  function LowBits(n: nat, k: nat): (s: seq<bool>)
    ensures |s| == k
    decreases k
  {
    if k == 0 then [] else LowBits(n / 2, k - 1) + [n % 2 == 1]
  }

  function Bits(s: bytes): (r: seq<bool>)
    ensures |r| == 8 * |s|
  {
    if s == [] then [] else Bits(s[..|s| - 1]) + LowBits(s[|s| - 1], 8)
  }

  function Val(bits: seq<bool>): nat {
    if bits == [] then 0 else 2 * Val(bits[..|bits| - 1]) + if bits[|bits| - 1] then 1 else 0
  }

  function XorSeq(x: seq<bool>, y: seq<bool>): (r: seq<bool>)
    requires |x| == |y|
    ensures |r| == |x|
  {
    seq(|x|, i requires 0 <= i < |x| => x[i] != y[i])
  }

  lemma {:induction false} LowBitsXor(a: nat, b: nat, k: nat)
    ensures LowBits(XorLow(a, b, k), k) == XorSeq(LowBits(a, k), LowBits(b, k))
    decreases k
  {
    if k > 0 {
      LowBitsXor(a / 2, b / 2, k - 1);
      assert XorLow(a, b, k) / 2 == XorLow(a / 2, b / 2, k - 1);
    }
  }

  /** The bits of an exclusive or are where the operands differ. */
  lemma {:induction false} BitsXor(a: bytes, b: bytes)
    requires |a| == |b|
    ensures Bits(XorBytes(a, b)) == XorSeq(Bits(a), Bits(b))
  {
    if a != [] {
      var n := |a| - 1;
      BitsXor(a[..n], b[..n]);
      LowBitsXor(a[n], b[n], 8);
      assert XorBytes(a, b)[..n] == XorBytes(a[..n], b[..n]);
    }
  }

  lemma {:induction false} ValLowBits(pre: seq<bool>, n: nat, k: nat)
    requires n < Pow2(k)
    ensures Val(pre + LowBits(n, k)) == Pow2(k) * Val(pre) + n
    decreases k
  {
    if k == 0 {
      assert pre + [] == pre;
    } else {
      var s := pre + LowBits(n, k);
      ValLowBits(pre, n / 2, k - 1);
      assert s[..|s| - 1] == pre + LowBits(n / 2, k - 1);
      Double(Pow2(k - 1), Val(pre));
    }
  }

  lemma Double(p: nat, v: nat)
    ensures 2 * (p * v) == 2 * p * v
  {
  }

  lemma {:induction false} ValBits(s: bytes)
    ensures Val(Bits(s)) == FromBE(s)
  {
    if s != [] {
      var n := |s| - 1;
      ValBits(s[..n]);
      assert Pow2(8) == 256 by {
        assert Pow2(4) == 16;
        assert Pow2(6) == 64;
      }
      ValLowBits(Bits(s[..n]), s[n], 8);
    }
  }

  /** Of two bit strings, the one with a 0 at the first difference is the smaller number. */
  lemma {:induction false} FirstDifferenceDecides(x: seq<bool>, y: seq<bool>, k: nat)
    requires |x| == |y| && k < |x| && x[..k] == y[..k] && !x[k] && y[k]
    ensures Val(x) < Val(y)
  {
    var n := |x| - 1;
    if k == n {
    } else {
      assert x[..n][..k] == x[..k] && y[..n][..k] == y[..k];
      FirstDifferenceDecides(x[..n], y[..n], k);
    }
  }

  lemma DistanceBits(a: NodeID, b: NodeID)
    ensures XorDist(a, b) == Val(XorSeq(Bits(a), Bits(b)))
  {
    BitsXor(a, b);
    ValBits(XorBytes(a, b));
  }

  lemma {:induction false} PowersAgree(k: nat)
    ensures Pow256(k) == Pow2(8 * k)
  {
    if k > 0 {
      PowersAgree(k - 1);
      var m := 8 * (k - 1);
      assert Pow2(m + 8) == 2 * Pow2(m + 7) && Pow2(m + 7) == 2 * Pow2(m + 6) && Pow2(m + 6) == 2 * Pow2(m + 5);
      assert Pow2(m + 5) == 2 * Pow2(m + 4) && Pow2(m + 4) == 2 * Pow2(m + 3) && Pow2(m + 3) == 2 * Pow2(m + 2);
      assert Pow2(m + 2) == 2 * Pow2(m + 1) && Pow2(m + 1) == 2 * Pow2(m) && m + 8 == 8 * k;
    }
  }

  lemma DistanceBelow(a: NodeID, b: NodeID)
    ensures XorDist(a, b) < Pow2(256)
  {
    hide Pow2, Pow256;
    ToFromBE(XorBytes(a, b));
    PowersAgree(ID_BYTES);
  }

  /** Distances to t compare at the first bit where they differ. */
  lemma NearerAt(a: NodeID, b: NodeID, t: NodeID, k: nat)
    requires k < ID_BITS
    requires forall i :: 0 <= i < k ==> Bits(a)[i] == Bits(b)[i]
    requires Bits(a)[k] == Bits(t)[k] && Bits(b)[k] != Bits(t)[k]
    ensures XorDist(a, t) < XorDist(b, t)
  {
    hide Bits, XorDist, Val;
    DistanceBits(a, t);
    DistanceBits(b, t);
    FirstDifferenceDecides(XorSeq(Bits(a), Bits(t)), XorSeq(Bits(b), Bits(t)), k);
  }

  /** Only equal IDs are at distance 0, and an ID is fixed by its distance to another. */
  lemma DistanceInjective(a: NodeID, b: NodeID, t: NodeID)
    requires XorDist(a, t) == XorDist(b, t)
    ensures a == b
  {
    hide Bits, XorDist;
    if Bits(a) != Bits(b) {
      assert exists j :: 0 <= j < ID_BITS && Bits(a)[j] != Bits(b)[j];
      var k := FirstDifference(Bits(a), Bits(b), 0);
      if Bits(a)[k] == Bits(t)[k] {
        NearerAt(a, b, t, k);
      } else {
        NearerAt(b, a, t, k);
      }
    }
    BitsInjective(a, b);
  }

  lemma FirstDifference(x: seq<bool>, y: seq<bool>, i: nat) returns (k: nat)
    requires |x| == |y| && exists j :: i <= j < |x| && x[j] != y[j]
    requires forall j :: 0 <= j < i ==> x[j] == y[j]
    ensures k < |x| && x[k] != y[k] && forall j :: 0 <= j < k ==> x[j] == y[j]
    decreases |x| - i
  {
    if x[i] != y[i] {
      k := i;
    } else {
      k := FirstDifference(x, y, i + 1);
    }
  }

  lemma {:induction false} BitsInjective(a: bytes, b: bytes)
    requires |a| == |b| && Bits(a) == Bits(b)
    ensures a == b
  {
    ValBits(a);
    ValBits(b);
    ToFromBE(a);
    ToFromBE(b);
  }

  // ---------------------------------------------------------------- bucket indexes

  /** The number of zero bits in front of the first one. */
  function LeadingZeros(bits: seq<bool>): (n: nat)
    ensures n <= |bits|
    ensures n < |bits| ==> bits[n]
    ensures forall i :: 0 <= i < n ==> !bits[i]
  {
    if bits == [] || bits[0] then 0 else 1 + LeadingZeros(bits[1..])
  }

  /** The bucket of an ID: its first bit that differs from self; self itself would go last. */
  function BucketOf(self: NodeID, id: NodeID): (k: nat)
    ensures k < ID_BITS
  {
    var lz := LeadingZeros(Bits(XorBytes(self, id)));
    if lz == ID_BITS then ID_BITS - 1 else lz
  }

  /** What the bucket index says about the bits. */
  lemma BucketBits(self: NodeID, id: NodeID)
    ensures forall i :: 0 <= i < BucketOf(self, id) ==> Bits(id)[i] == Bits(self)[i]
    ensures id != self || BucketOf(self, id) < ID_BITS - 1 ==>
              Bits(id)[BucketOf(self, id)] != Bits(self)[BucketOf(self, id)]
  {
    BitsXor(self, id);
    CommonPrefix(Bits(self), Bits(id));
    if Bits(self) == Bits(id) {
      BitsInjective(self, id);
    }
  }

  lemma CommonPrefix(x: seq<bool>, y: seq<bool>)
    requires |x| == |y|
    ensures var lz := LeadingZeros(XorSeq(x, y));
            && (forall i :: 0 <= i < lz ==> x[i] == y[i])
            && (if lz < |x| then x[lz] != y[lz] else x == y)
  {
    var lz := LeadingZeros(XorSeq(x, y));
    forall i | 0 <= i < lz
      ensures x[i] == y[i]
    {
      assert !XorSeq(x, y)[i];
    }
  }

  /** A contact in a bucket below both another contact's and the target's is farther from the target. */
  lemma LowerBucketIsFarther(self: NodeID, t: NodeID, a: NodeID, b: NodeID)
    requires b != self && BucketOf(self, b) < BucketOf(self, a) && BucketOf(self, b) < BucketOf(self, t)
    ensures XorDist(a, t) < XorDist(b, t)
  {
    BucketBits(self, a);
    BucketBits(self, b);
    BucketBits(self, t);
    NearerAt(a, b, t, BucketOf(self, b));
  }

  /** A contact in the target's bucket is nearer than any contact in a bucket above it. */
  lemma SameBucketIsNearer(self: NodeID, t: NodeID, a: NodeID, b: NodeID)
    requires a != self && BucketOf(self, a) == BucketOf(self, t) < BucketOf(self, b)
    ensures XorDist(a, t) < XorDist(b, t)
  {
    BucketBits(self, a);
    BucketBits(self, b);
    BucketBits(self, t);
    NearerAt(a, b, t, BucketOf(self, a));
  }
}
