/** The routing table: buckets by shared prefix, and the radius-expanding search for near contacts. */
module Routing {
  import opened NodeId
  import opened Bucket

  type Table = seq<seq<Contact>>

  // ---------------------------------------------------------------- table operations

  function Update(self: NodeID, t: Table, c: Contact): Table
    requires |t| == ID_BITS
  {
    if c.id == self then t else t[BucketOf(self, c.id) := Touched(t[BucketOf(self, c.id)], c)]
  }

  function Remove(self: NodeID, t: Table, c: Contact): Table
    requires |t| == ID_BITS
  {
    t[BucketOf(self, c.id) := Removed(t[BucketOf(self, c.id)], c.id)]
  }

  function RemoveByAddr(t: Table, addr: string): Table {
    seq(|t|, i requires 0 <= i < |t| => Elsewhere(t[i], addr))
  }

  /** Every contact is in the bucket of its first bit that differs from self, once, and buckets are bounded. */
  ghost predicate TableOk(self: NodeID, t: Table) {
    && |t| == ID_BITS
    && forall j :: 0 <= j < |t| ==>
         && DistinctIds(t[j]) && |t[j]| <= K
         && forall c :: c in t[j] ==> c.id != self && BucketOf(self, c.id) == j
  }

  /** No ID is twice in the whole table. */
  lemma IdsUnique(self: NodeID, t: Table, j: nat, i: nat, j': nat, i': nat)
    requires TableOk(self, t) && j < |t| && i < |t[j]| && j' < |t| && i' < |t[j']|
    requires t[j][i].id == t[j'][i'].id
    ensures j == j' && i == i'
  {
    assert t[j][i] in t[j] && t[j'][i'] in t[j'];
  }

  lemma UpdateKeeps(self: NodeID, t: Table, c: Contact)
    requires TableOk(self, t)
    ensures TableOk(self, Update(self, t, c))
  {
    hide BucketOf, Touched;
    if c.id != self {
      TouchedKeeps(t[BucketOf(self, c.id)], c);
    }
  }

  lemma RemoveKeeps(self: NodeID, t: Table, c: Contact)
    requires TableOk(self, t)
    ensures TableOk(self, Remove(self, t, c))
  {
    hide BucketOf, Removed;
    RemovedKeeps(t[BucketOf(self, c.id)], c.id);
  }

  lemma RemoveByAddrKeeps(self: NodeID, t: Table, addr: string)
    requires TableOk(self, t)
    ensures TableOk(self, RemoveByAddr(t, addr))
  {
    hide BucketOf;
    forall j | 0 <= j < |t|
      ensures DistinctIds(Elsewhere(t[j], addr))
    {
      ElsewhereKeeps(t[j], addr);
    }
  }

  // ---------------------------------------------------------------- what an operation does to the contacts

  ghost predicate Contains(t: Table, c: Contact) {
    exists j :: 0 <= j < |t| && c in t[j]
  }

  /** A contact just seen is in the table, last in its bucket, and it alone with its ID. Every other contact stays,
      but for the oldest one of a bucket that was full without the ID. */
  lemma SeenIsThere(self: NodeID, t: Table, c: Contact)
    requires TableOk(self, t) && c.id != self
    ensures var j, t' := BucketOf(self, c.id), Update(self, t, c);
            && t'[j] != [] && t'[j][|t'[j]| - 1] == c && Contains(t', c)
            && (forall x :: Contains(t', x) && x.id == c.id ==> x == c)
            && (forall x :: Contains(t', x) && x != c ==> Contains(t, x))
            && forall x :: Contains(t, x) && x.id != c.id && !Contains(t', x) ==>
                 |t[j]| == K && x == t[j][0] && forall y :: y in t[j] ==> y.id != c.id
  {
    hide BucketOf, Touched;
    var j, t' := BucketOf(self, c.id), Update(self, t, c);
    TouchedKeeps(t[j], c);
    UpdateKeeps(self, t, c);
    assert c in t'[j];
    forall x | Contains(t', x)
      ensures x.id == c.id ==> x == c
      ensures x != c ==> Contains(t, x)
    {
      var i :| 0 <= i < |t'| && x in t'[i];
      if i != j {
        assert x in t[i];
      }
    }
    assert forall i :: 0 <= i < |t| && i != j ==> t'[i] == t[i];
    forall x | Contains(t, x) && x.id != c.id && !Contains(t', x)
      ensures |t[j]| == K && x == t[j][0] && forall y :: y in t[j] ==> y.id != c.id
    {
      var i :| 0 <= i < |t| && x in t[i];
    }
  }

  /** Seeing oneself changes nothing. */
  lemma SelfIsIgnored(self: NodeID, t: Table, c: Contact)
    requires |t| == ID_BITS && c.id == self
    ensures Update(self, t, c) == t
  {
  }

  /** A removed ID is gone, and every other contact stays. */
  lemma RemovedIsGone(self: NodeID, t: Table, c: Contact)
    requires TableOk(self, t)
    ensures forall x :: Contains(Remove(self, t, c), x) <==> Contains(t, x) && x.id != c.id
  {
    hide BucketOf, Removed;
    var j, t' := BucketOf(self, c.id), Remove(self, t, c);
    RemovedKeeps(t[j], c.id);
    forall x
      ensures Contains(t', x) <==> Contains(t, x) && x.id != c.id
    {
      if Contains(t', x) {
        var i :| 0 <= i < |t'| && x in t'[i];
        assert x in t[i];
      }
      if Contains(t, x) && x.id != c.id {
        var i :| 0 <= i < |t| && x in t[i];
        assert x in t'[i];
      }
    }
  }

  /** Every contact at the address is gone, and every other one stays. */
  lemma AddrIsGone(t: Table, addr: string)
    ensures forall x :: Contains(RemoveByAddr(t, addr), x) <==> Contains(t, x) && x.addr != addr
  {
    hide Elsewhere;
    var t' := RemoveByAddr(t, addr);
    forall x
      ensures Contains(t', x) <==> Contains(t, x) && x.addr != addr
    {
      if Contains(t', x) {
        var i :| 0 <= i < |t'| && x in t'[i];
        assert x in t[i];
      }
      if Contains(t, x) && x.addr != addr {
        var i :| 0 <= i < |t| && x in t[i];
        assert x in t'[i];
      }
    }
  }

  // ---------------------------------------------------------------- runs

  datatype Step = DoUpdate(c: Contact) | DoRemove(c: Contact) | DoRemoveByAddr(addr: string)

  function Apply(self: NodeID, t: Table, step: Step): (t': Table)
    requires |t| == ID_BITS
    ensures |t'| == ID_BITS
  {
    match step
    case DoUpdate(c) => Update(self, t, c)
    case DoRemove(c) => Remove(self, t, c)
    case DoRemoveByAddr(addr) => RemoveByAddr(t, addr)
  }

  function Empty(): (t: Table)
    ensures |t| == ID_BITS
  {
    seq(ID_BITS, i => [])
  }

  function After(self: NodeID, steps: seq<Step>): (t: Table)
    ensures |t| == ID_BITS
  {
    if steps == [] then Empty()
    else Apply(self, After(self, steps[..|steps| - 1]), steps[|steps| - 1])
  }

  /** The number of the last step that saw this ID, or -1. */
  function LastSeen(steps: seq<Step>, id: NodeID): (n: int)
    ensures -1 <= n < |steps|
  {
    if steps == [] then -1
    else
      var last := steps[|steps| - 1];
      if last.DoUpdate? && last.c.id == id then |steps| - 1 else LastSeen(steps[..|steps| - 1], id)
  }

  lemma {:induction false} LastSeenIs(steps: seq<Step>, id: NodeID)
    ensures var n := LastSeen(steps, id);
            && (n >= 0 ==> steps[n].DoUpdate? && steps[n].c.id == id)
            && forall k :: n < k < |steps| && steps[k].DoUpdate? ==> steps[k].c.id != id
  {
    if steps != [] {
      LastSeenIs(steps[..|steps| - 1], id);
    }
  }

  ghost predicate InSeenOrder(steps: seq<Step>, list: seq<Contact>) {
    && (forall i :: 0 <= i < |list| ==> LastSeen(steps, list[i].id) >= 0)
    && forall i, j :: 0 <= i < j < |list| ==> LastSeen(steps, list[i].id) < LastSeen(steps, list[j].id)
  }

  /** What one step can do to one bucket. */
  ghost predicate BucketStep(step: Step, list: seq<Contact>, list': seq<Contact>) {
    match step
    case DoUpdate(c) => list' == Touched(list, c) || (list' == list && forall x :: x in list ==> x.id != c.id)
    case DoRemove(c) => list' == Removed(list, c.id) || list' == list
    case DoRemoveByAddr(addr) => list' == Elsewhere(list, addr)
  }

  lemma SeenOrderKept(before: seq<Step>, step: Step, list: seq<Contact>, list': seq<Contact>)
    requires InSeenOrder(before, list) && DistinctIds(list) && |list| <= K
    requires BucketStep(step, list, list')
    ensures InSeenOrder(before + [step], list')
  {
    hide LastSeen;
    match step
    case DoUpdate(c) =>
      SeenStep(before, step);
      if list' == Touched(list, c) {
        TouchedOrder(before, before + [step], list, c);
      } else {
        assert forall i :: 0 <= i < |list| ==> list[i] in list;
      }
    case DoRemove(c) =>
      SeenStep(before, step);
      if list' != list {
        WithoutOrder(before, list, IndexOf(list, c.id));
      }
    case DoRemoveByAddr(addr) =>
      SeenStep(before, step);
      ElsewhereOrder(before, list, addr);
  }

  /** A step changes when an ID was last seen only if it sees it. */
  lemma SeenStep(before: seq<Step>, step: Step)
    ensures forall id :: LastSeen(before + [step], id)
                      == if step.DoUpdate? && step.c.id == id then |before| else LastSeen(before, id)
  {
    assert (before + [step])[..|before|] == before;
  }

  lemma WithoutOrder(steps: seq<Step>, list: seq<Contact>, i: nat)
    requires InSeenOrder(steps, list) && i < |list|
    ensures InSeenOrder(steps, Without(list, i))
  {
    hide LastSeen;
    var r := Without(list, i);
    assert forall k :: 0 <= k < |r| ==> r[k] == list[if k < i then k else k + 1];
  }

  lemma TouchedOrder(before: seq<Step>, after: seq<Step>, list: seq<Contact>, c: Contact)
    requires after == before + [DoUpdate(c)] && InSeenOrder(before, list) && DistinctIds(list) && |list| <= K
    ensures InSeenOrder(after, Touched(list, c))
  {
    SeenStep(before, DoUpdate(c));
    var r, i := Touched(list, c), IndexOf(list, c.id);
    var rest := r[..|r| - 1];
    if i < |list| {
      assert rest == Without(list, i);
      WithoutOrder(before, list, i);
      WithoutKeeps(list, i);
      assert forall k :: 0 <= k < |rest| ==> rest[k] in Without(list, i);
    } else if |list| == K {
      assert rest == list[1..];
    } else {
      assert rest == list;
    }
    AppendSeen(before, after, rest, c);
    assert r == rest + [c];
  }

  lemma AppendSeen(before: seq<Step>, after: seq<Step>, rest: seq<Contact>, c: Contact)
    requires InSeenOrder(before, rest) && forall k :: 0 <= k < |rest| ==> rest[k].id != c.id
    requires forall id :: LastSeen(after, id) == if c.id == id then |before| else LastSeen(before, id)
    ensures InSeenOrder(after, rest + [c])
  {
  }

  lemma {:induction false} ElsewhereOrder(steps: seq<Step>, list: seq<Contact>, addr: string)
    requires InSeenOrder(steps, list)
    ensures InSeenOrder(steps, Elsewhere(list, addr))
  {
    if list != [] {
      var n := |list| - 1;
      var front := Elsewhere(list[..n], addr);
      ElsewhereOrder(steps, list[..n], addr);
      forall k | 0 <= k < |front|
        ensures LastSeen(steps, front[k].id) < LastSeen(steps, list[n].id)
      {
        assert front[k] in list[..n];
        var x :| 0 <= x < n && list[x] == front[k];
      }
    }
  }

  /** Over every run from the empty table: the table is well-formed and every bucket is in last-seen order. */
  lemma {:induction false} TableInvariant(self: NodeID, steps: seq<Step>)
    ensures TableOk(self, After(self, steps))
    ensures forall j :: 0 <= j < ID_BITS ==> InSeenOrder(steps, After(self, steps)[j])
  {
    if steps != [] {
      var before, step := steps[..|steps| - 1], steps[|steps| - 1];
      var t := After(self, before);
      TableInvariant(self, before);
      assert steps == before + [step];
      match step {
        case DoUpdate(c) => UpdateKeeps(self, t, c);
        case DoRemove(c) => RemoveKeeps(self, t, c);
        case DoRemoveByAddr(addr) => RemoveByAddrKeeps(self, t, addr);
      }
      forall j | 0 <= j < ID_BITS
        ensures InSeenOrder(steps, Apply(self, t, step)[j])
      {
        SeenOrderKept(before, step, t[j], Apply(self, t, step)[j]);
      }
    }
  }

  /** The contact is what the last step that saw its ID reported, and no step has removed it since. */
  ghost predicate Latest(steps: seq<Step>, x: Contact) {
    var n := LastSeen(steps, x.id);
    && n >= 0 && steps[n] == DoUpdate(x)
    && forall k :: n < k < |steps| ==>
         && (steps[k].DoRemove? ==> steps[k].c.id != x.id) && (steps[k].DoRemoveByAddr? ==> steps[k].addr != x.addr)
  }

  lemma LatestStays(before: seq<Step>, step: Step, x: Contact)
    requires Latest(before, x) && (step.DoUpdate? || step.DoRemove? ==> step.c.id != x.id)
    requires step.DoRemoveByAddr? ==> step.addr != x.addr
    ensures Latest(before + [step], x)
  {
    SeenStep(before, step);
    hide LastSeen;
  }

  /** Over every run, no entry of the table is out of date. */
  lemma {:induction false} EntriesAreLatest(self: NodeID, steps: seq<Step>, x: Contact)
    requires Contains(After(self, steps), x)
    ensures Latest(steps, x)
  {
    if steps == [] {
      NothingAtFirst(self, x);
    } else {
      var before, step := steps[..|steps| - 1], steps[|steps| - 1];
      var t := After(self, before);
      assert steps == before + [step];
      TableInvariant(self, before);
      hide After, Latest, InSeenOrder, Remove, RemoveByAddr, BucketOf;
      match step {
        case DoUpdate(c) =>
          if c.id != self {
            SeenIsThere(self, t, c);
          } else {
            SelfIsIgnored(self, t, c);
            assert x.id != self;
          }
          if x == c {
            JustSeen(before, c);
          } else {
            EntriesAreLatest(self, before, x);
            LatestStays(before, step, x);
          }
        case DoRemove(c) =>
          RemovedIsGone(self, t, c);
          EntriesAreLatest(self, before, x);
          LatestStays(before, step, x);
        case DoRemoveByAddr(addr) =>
          AddrIsGone(t, addr);
          EntriesAreLatest(self, before, x);
          LatestStays(before, step, x);
      }
    }
  }

  lemma NothingAtFirst(self: NodeID, x: Contact)
    ensures !Contains(After(self, []), x)
  {
  }

  lemma JustSeen(before: seq<Step>, c: Contact)
    ensures Latest(before + [DoUpdate(c)], c)
  {
    SeenStep(before, DoUpdate(c));
  }
}
