/** One bucket of the routing table: at most K contacts, most recently seen last. */
module Bucket {
  import opened Bytes
  import opened NodeId

  datatype Contact = Contact(id: NodeID, addr: string, relay: string)

  const K: nat := 20

  // ---------------------------------------------------------------- lists of contacts

  /** The position of the first contact with this ID, or the length of the list. */
  function IndexOf(list: seq<Contact>, id: NodeID): (i: nat)
    ensures i <= |list|
    ensures i < |list| ==> list[i].id == id
    ensures forall j :: 0 <= j < i ==> list[j].id != id
  {
    if list == [] || list[0].id == id then 0 else 1 + IndexOf(list[1..], id)
  }

  function Without(list: seq<Contact>, i: nat): (r: seq<Contact>)
    requires i < |list|
    ensures |r| == |list| - 1
  {
    list[..i] + list[i + 1..]
  }

  /** The list after a contact was seen: moved or added to the end, with the oldest one dropped if need be. */
  function Touched(list: seq<Contact>, c: Contact): seq<Contact> {
    var i := IndexOf(list, c.id);
    if i < |list| then Without(list, i) + [c]
    else if |list| < K then list + [c]
    else list[1..] + [c]
  }

  function Removed(list: seq<Contact>, id: NodeID): seq<Contact> {
    var i := IndexOf(list, id);
    if i < |list| then Without(list, i) else list
  }

  /** The contacts at other addresses, in order. */
  function Elsewhere(list: seq<Contact>, addr: string): (r: seq<Contact>)
    ensures |r| <= |list|
    ensures forall c :: c in r <==> c in list && c.addr != addr
  {
    if list == [] then []
    else
      var last := list[|list| - 1];
      Elsewhere(list[..|list| - 1], addr) + if last.addr == addr then [] else [last]
  }

  predicate DistinctIds(list: seq<Contact>) {
    forall i, j :: 0 <= i < j < |list| ==> list[i].id != list[j].id
  }

  /** Contacts are told apart by their ID and address together. */
  predicate SameKey(a: Contact, b: Contact) {
    a.id == b.id && a.addr == b.addr
  }

  predicate DistinctKeys(list: seq<Contact>) {
    forall i, j :: 0 <= i < j < |list| ==> !SameKey(list[i], list[j])
  }

  /** Seeing a contact leaves it last, keeps IDs distinct and the bound, and loses at most the oldest contact. */
  lemma TouchedKeeps(list: seq<Contact>, c: Contact)
    requires DistinctIds(list) && |list| <= K
    ensures var r := Touched(list, c);
            && DistinctIds(r) && 0 < |r| <= K && r[|r| - 1] == c
            && (forall x :: x in r ==> x == c || (x in list && x.id != c.id))
            && forall x :: x in list && x.id != c.id ==>
                 x in r || (|list| == K && IndexOf(list, c.id) == K && x == list[0])
  {
    var i := IndexOf(list, c.id);
    if i < |list| {
      WithoutKeeps(list, i);
      hide Without;
      assert |Touched(list, c)| == |list|;
    } else if |list| == K {
      assert list == [list[0]] + list[1..];
    }
  }

  lemma WithoutKeeps(list: seq<Contact>, i: nat)
    requires DistinctIds(list) && i < |list|
    ensures DistinctIds(Without(list, i))
    ensures forall x :: x in Without(list, i) <==> x in list && x.id != list[i].id
  {
    var r := Without(list, i);
    assert forall k :: 0 <= k < |r| ==> r[k] == list[if k < i then k else k + 1];
    forall x | x in list && x.id != list[i].id
      ensures x in r
    {
      var k :| 0 <= k < |list| && list[k] == x;
      assert r[if k < i then k else k - 1] == x;
    }
  }

  lemma RemovedKeeps(list: seq<Contact>, id: NodeID)
    requires DistinctIds(list)
    ensures var r := Removed(list, id);
            && DistinctIds(r) && |r| <= |list|
            && forall x :: x in r <==> x in list && x.id != id
  {
    var i := IndexOf(list, id);
    if i < |list| {
      WithoutKeeps(list, i);
      hide Without;
    }
  }

  lemma EmptyElsewhere(addr: string)
    ensures Elsewhere([], addr) == []
  {
  }

  /** Moving the contact at i down to j extends what is kept by one. */
  lemma MovedDown(list: seq<Contact>, j: nat, i: nat)
    requires j <= i < |list|
    ensures list[j := list[i]][..j + 1] == list[..j] + [list[i]]
    ensures j == i ==> list[j := list[i]] == list
  {
  }

  lemma ElsewhereStep(list: seq<Contact>, i: nat, addr: string)
    requires i < |list|
    ensures Elsewhere(list[..i + 1], addr)
         == Elsewhere(list[..i], addr) + if list[i].addr == addr then [] else [list[i]]
  {
    assert list[..i + 1][..i] == list[..i];
  }

  lemma {:induction false} ElsewhereKeeps(list: seq<Contact>, addr: string)
    requires DistinctIds(list)
    ensures DistinctIds(Elsewhere(list, addr))
  {
    if list != [] {
      var front := list[..|list| - 1];
      ElsewhereKeeps(front, addr);
      forall x | x in Elsewhere(front, addr)
        ensures x.id != list[|list| - 1].id
      {
        assert x in front;
      }
    }
  }

  // ---------------------------------------------------------------- the bucket

  class Bucket {
    var list: seq<Contact>

    constructor ()
      ensures list == []
    {
      list := [];
    }

    method Touch(c: Contact) returns (evicted: Option<Contact>)
      requires |list| <= K
      modifies this
      ensures list == Touched(old(list), c)
      ensures evicted == if |old(list)| == K && IndexOf(old(list), c.id) == K then Some(old(list)[0]) else None
    {
      for i := 0 to |list|
        invariant i <= IndexOf(list, c.id) && list == old(list)
      {
        if list[i].id == c.id {
          var v := list[i];
          v := v.(addr := c.addr, relay := c.relay);
          list := list[..i] + list[i + 1..];
          list := list + [v];
          return None;
        }
      }
      if |list| < K {
        list := list + [c];
        return None;
      }
      var oldest := list[0];
      list := list[1..] + [c];
      return Some(oldest);
    }

    method Contacts() returns (out: seq<Contact>)
      ensures out == list
    {
      out := list;
    }

    method RemoveByID(id: NodeID) returns (found: bool)
      modifies this
      ensures list == Removed(old(list), id)
      ensures found <==> exists c :: c in old(list) && c.id == id
    {
      for i := 0 to |list|
        invariant i <= IndexOf(list, id) && list == old(list)
      {
        if list[i].id == id {
          assert list[i] in list;
          list := list[..i] + list[i + 1..];
          return true;
        }
      }
      return false;
    }

    /** Compacts the list in place: kept contacts move down to index j. */
    method RemoveByAddr(addr: string) returns (removed: nat)
      modifies this
      ensures list == Elsewhere(old(list), addr)
      ensures removed == |old(list)| - |list|
    {
      hide Elsewhere;
      removed := 0;
      EmptyElsewhere(addr);
      ghost var was := list;
      var j := 0;
      for i := 0 to |list|
        invariant j <= i && |list| == |was| && removed == i - j
        invariant list[..j] == Elsewhere(was[..i], addr)
        invariant forall k :: i <= k < |was| ==> list[k] == was[k]
      {
        ElsewhereStep(was, i, addr);
        MovedDown(list, j, i);
        if list[i].addr == addr {
          removed := removed + 1;
          continue;
        }
        if j != i {
          list := list[j := list[i]];
        }
        j := j + 1;
      }
      assert was[..|was|] == was;
      if removed > 0 {
        list := list[..j];
      } else {
        assert list[..j] == list;
      }
    }
  }
}
