/** A table that two contacts have joined, where a search for one contact returns the farther of the two. */
module NearExample {
  import opened Bytes
  import opened NodeId
  import opened Bucket
  import opened Routing
  import opened NearSearch
  import RoutingTable

  function SelfID(): NodeID {
    seq(ID_BYTES, i => 0)
  }

  /** The ID that differs from self in its first byte only. */
  function Starting(b: byte): NodeID {
    [b] + seq(ID_BYTES - 1, i => 0)
  }

  /** The bits of a number below 256 from the highest on. */
  lemma FirstBits(id: NodeID, k: nat)
    requires k < 8
    ensures Bits(id)[k] <==> RoutingTable.Shifted(id[0], 7 - k) % 2 == 1
  {
    RoutingTable.BitAt(id, 0, 7 - k);
  }

  /** With b between 2^(7-k) and 2^(8-k), bit k of such an ID is its first one, and the ID goes to bucket k. */
  lemma StartingBucket(b: byte, k: nat)
    requires k < 8 && RoutingTable.Shifted(b, 7 - k) == 1
    ensures BucketOf(SelfID(), Starting(b)) == k
  {
    var id := Starting(b);
    var bits := Bits(XorBytes(SelfID(), id));
    BitsXor(SelfID(), id);
    hide Bits, XorBytes, LeadingZeros;
    forall i | 0 <= i <= k
      ensures bits[i] <==> i == k
    {
      FirstBits(id, i);
      FirstBits(SelfID(), i);
      ZeroShifted(7 - i);
      HigherIsZero(b, 7 - k, 7 - i);
    }
    RoutingTable.ZerosBefore(bits, k);
    RoutingTable.BucketAt(SelfID(), id);
  }

  lemma {:induction false} ZeroShifted(i: nat)
    ensures RoutingTable.Shifted(0, i) == 0
  {
    if i > 0 {
      ZeroShifted(i - 1);
    }
  }

  lemma {:induction false} HigherIsZero(b: nat, i: nat, j: nat)
    requires i <= j && RoutingTable.Shifted(b, i) == 1
    ensures RoutingTable.Shifted(b, j) == if j == i then 1 else 0
  {
    if i > 0 {
      HigherIsZero(b / 2, i - 1, j - 1);
    } else if j > 0 {
      ZeroShifted(j - 1);
    }
  }

  function Near(): Contact {
    Contact(Starting(1), "near", "")
  }

  function Far(): Contact {
    Contact(Starting(8), "far", "")
  }

  /** Buckets 4 and 7 hold one contact each. */
  function Joined(): (t: Table)
    ensures |t| == ID_BITS
  {
    seq(ID_BITS, i => if i == 4 then [Far()] else if i == 7 then [Near()] else [])
  }

  lemma Buckets()
    ensures BucketOf(SelfID(), Far().id) == 4 && BucketOf(SelfID(), Starting(4)) == 5
    ensures BucketOf(SelfID(), Near().id) == 7
    ensures Far().id != SelfID() && Near().id != SelfID()
  {
    hide BucketOf;
    StartingBucket(8, 4);
    StartingBucket(4, 5);
    StartingBucket(1, 7);
    assert Far().id[0] == 8 && Near().id[0] == 1 && SelfID()[0] == 0;
  }

  /** The table comes about when the two contacts are seen, and is well-formed. */
  lemma TableComesAbout()
    ensures After(SelfID(), [DoUpdate(Far()), DoUpdate(Near())]) == Joined()
    ensures TableOk(SelfID(), Joined())
  {
    Buckets();
    TableInvariant(SelfID(), [DoUpdate(Far()), DoUpdate(Near())]);
    hide BucketOf, Far, Near, SelfID, Starting, After, Touched;
    var one := Empty()[4 := [Far()]];
    FirstStep(SelfID());
    FirstTouch(Far());
    FirstTouch(Near());
    NextStep(SelfID(), [], DoUpdate(Far()));
    NextStep(SelfID(), [DoUpdate(Far())], DoUpdate(Near()));
    assert [] + [DoUpdate(Far())] == [DoUpdate(Far())];
    assert [DoUpdate(Far())] + [DoUpdate(Near())] == [DoUpdate(Far()), DoUpdate(Near())];
    assert After(SelfID(), [DoUpdate(Far())]) == one;
    assert one[7 := [Near()]] == Joined();
  }

  lemma FirstStep(self: NodeID)
    ensures After(self, []) == Empty()
  {
  }

  lemma NextStep(self: NodeID, before: seq<Step>, step: Step)
    ensures After(self, before + [step]) == Apply(self, After(self, before), step)
  {
    assert (before + [step])[..|before|] == before;
  }

  lemma FirstTouch(c: Contact)
    ensures Touched([], c) == [c]
  {
  }

  /** Whatever the search for one contact near this target returns, it is the far one. */
  lemma FartherReturned(out: seq<Contact>, r: nat)
    requires IsClosest(SelfID(), Joined(), Starting(4), 1, out, r)
    ensures out == [Far()] && Missed(Joined(), Starting(4), out, Near(), Far())
    ensures XorDist(Near().id, Starting(4)) < XorDist(Far().id, Starting(4))
  {
    Buckets();
    TableComesAbout();
    hide BucketOf, XorDist, Far, Near, SelfID, Starting, TableOk, IsClosest;
    ClosestMisses(SelfID(), Joined(), Starting(4), Far(), Near(), out, r);
  }

  /** And it does return something: such an answer exists. */
  lemma AnswerExists()
    ensures IsClosest(SelfID(), Joined(), Starting(4), 1, [Far()], 2)
  {
    Buckets();
    TableComesAbout();
    var t := Joined();
    assert t[5] == [] && t[4] == [Far()] && t[6] == [];
    hide BucketOf, XorDist, Far, Near, SelfID, Starting, TableOk;
    TwoRounds(t, 5, Far());
    ClosestCorrect(SelfID(), t, Starting(4), 1, 2, [Far()], [Far()]);
  }
}
