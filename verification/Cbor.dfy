/** The part of CBOR (RFC 7049) that block headers, DAG nodes and manifests are written in:
    unsigned integers, byte strings, text strings and definite-length arrays. */
module Cbor {
  import opened Bytes

  datatype Item =
    | UInt(n: nat)
    | Blob(b: bytes)
    | Text(t: bytes)
    | Array(items: seq<Item>)

  lemma Associate(a: bytes, b: bytes, c: bytes)
    ensures a + (b + c) == a + b + c
  {
  }

  // ---------------------------------------------------------------- heads

  /** Initial byte and argument in the shortest form (section 3.9 of RFC 7049). */
  function EncodeHead(major: nat, n: nat): (s: bytes)
    requires major < 8 && n < TWO64
    ensures 1 <= |s| <= 9
    ensures n < TWO16 ==> |s| <= 3
  {
    if n < 24 then [32 * major + n]
    else if n < TWO8 then [32 * major + 24] + ToBE(n, 1)
    else if n < TWO16 then [32 * major + 25] + ToBE(n, 2)
    else if n < TWO32 then [32 * major + 26] + ToBE(n, 4)
    else [32 * major + 27] + ToBE(n, 8)
  }

  datatype Head = Head(major: nat, arg: nat, rest: bytes)

  /** The number of argument bytes that follow an initial byte, if its low five bits are supported. */
  function ArgBytes(info: nat): Option<nat> {
    if info < 24 then Some(0)
    else if info == 24 then Some(1)
    else if info == 25 then Some(2)
    else if info == 26 then Some(4)
    else if info == 27 then Some(8)
    else None
  }

  /** Reads a head. Longer forms than needed are accepted; indefinite lengths are not modelled. */
  function DecodeHead(raw: bytes): (r: Option<Head>)
    ensures r.Some? ==> |r.value.rest| < |raw| && r.value.major < 8
  {
    if raw == [] then None
    else
      var info := raw[0] % 32;
      var k :- ArgBytes(info);
      if |raw| < 1 + k then None
      else Some(Head(raw[0] / 32, if k == 0 then info else FromBE(raw[1..1 + k]), raw[1 + k..]))
  }

  lemma HeadRoundTrip(major: nat, n: nat, tail: bytes)
    requires major < 8 && n < TWO64
    ensures DecodeHead(EncodeHead(major, n) + tail) == Some(Head(major, n, tail))
  {
    Pow256Values();
    if n < 24 {
      assert (EncodeHead(major, n) + tail)[1..] == tail;
    } else if n < TWO8 {
      LongHead(major, 24, 1, n, tail);
    } else if n < TWO16 {
      LongHead(major, 25, 2, n, tail);
    } else if n < TWO32 {
      LongHead(major, 26, 4, n, tail);
    } else {
      LongHead(major, 27, 8, n, tail);
    }
  }

  lemma LongHead(major: nat, info: nat, k: nat, n: nat, tail: bytes)
    requires major < 8 && 24 <= info < 32 && ArgBytes(info) == Some(k) && n < Pow256(k)
    ensures DecodeHead([32 * major + info] + ToBE(n, k) + tail) == Some(Head(major, n, tail))
  {
    var arg := ToBE(n, k);
    FromToBE(n, k);
    InitialByte(major, info);
    HeadParts(32 * major + info, arg, tail);
  }

  lemma InitialByte(major: nat, info: nat)
    requires info < 32
    ensures (32 * major + info) / 32 == major && (32 * major + info) % 32 == info
  {
  }

  lemma HeadParts(first: byte, arg: bytes, tail: bytes)
    requires first % 32 >= 24 && ArgBytes(first % 32) == Some(|arg|)
    ensures DecodeHead([first] + arg + tail) == Some(Head(first / 32, FromBE(arg), tail))
  {
    var s := [first] + arg + tail;
    assert s[1..1 + |arg|] == arg;
    assert s[1 + |arg|..] == tail;
  }

  /** A head is recognised by its own bytes alone. */
  lemma HeadLocal(raw: bytes, tail: bytes) returns (p: bytes)
    requires DecodeHead(raw).Some?
    ensures raw == p + DecodeHead(raw).value.rest
    ensures DecodeHead(p + tail) == Some(DecodeHead(raw).value.(rest := tail))
  {
    var h := DecodeHead(raw).value;
    var k := ArgBytes(raw[0] % 32).value;
    p := raw[..1 + k];
    assert (p + tail)[1..1 + k] == raw[1..1 + k];
    assert (p + tail)[1 + k..] == tail;
  }

  // ---------------------------------------------------------------- UTF-8

  predicate Continuation(b: byte) {
    0x80 <= b <= 0xBF
  }

  /** The length of the well-formed UTF-8 character that s starts with, or 0 (section 4 of RFC 3629). */
  function CharLength(s: bytes): (n: nat)
    requires s != []
    ensures n <= |s|
  {
    var a := s[0];
    if a <= 0x7F then 1
    else if 0xC2 <= a <= 0xDF then
      if |s| >= 2 && Continuation(s[1]) then 2 else 0
    else if 0xE0 <= a <= 0xEF then
      if |s| >= 3 && Continuation(s[1]) && Continuation(s[2])
         && (a == 0xE0 ==> s[1] >= 0xA0) && (a == 0xED ==> s[1] <= 0x9F) then 3 else 0
    else if 0xF0 <= a <= 0xF4 then
      if |s| >= 4 && Continuation(s[1]) && Continuation(s[2]) && Continuation(s[3])
         && (a == 0xF0 ==> s[1] >= 0x90) && (a == 0xF4 ==> s[1] <= 0x8F) then 4 else 0
    else 0
  }

  predicate ValidUtf8(s: bytes)
    decreases |s|
  {
    s == [] || (CharLength(s) > 0 && ValidUtf8(s[CharLength(s)..]))
  }

  lemma {:induction false} AsciiIsUtf8(s: bytes)
    requires forall i :: 0 <= i < |s| ==> s[i] <= 0x7F
    ensures ValidUtf8(s)
  {
    if s != [] {
      AsciiIsUtf8(s[1..]);
    }
  }

  // ---------------------------------------------------------------- items

  /** The counts and numbers fit the 64-bit arguments of CBOR. */
  predicate Encodable(item: Item) {
    match item
    case UInt(n) => n < TWO64
    case Blob(b) => |b| < TWO64
    case Text(t) => |t| < TWO64
    case Array(items) => |items| < TWO64 && forall x | x in items :: Encodable(x)
  }

  /** What the decoder lets through: well-formed text, and arrays of at most max elements. */
  predicate Accepted(item: Item, max: nat) {
    match item
    case UInt(_) => true
    case Blob(_) => true
    case Text(t) => ValidUtf8(t)
    case Array(items) => |items| <= max && forall x | x in items :: Accepted(x, max)
  }

  function Encode(item: Item): (s: bytes)
    requires Encodable(item)
    ensures s != []
    decreases item, 1
  {
    match item
    case UInt(n) => EncodeHead(0, n)
    case Blob(b) => EncodeHead(2, |b|) + b
    case Text(t) => EncodeHead(3, |t|) + t
    case Array(items) => EncodeHead(4, |items|) + EncodeAll(items)
  }

  function EncodeAll(items: seq<Item>): bytes
    requires forall x | x in items :: Encodable(x)
    decreases items, 0
  {
    if items == [] then [] else Encode(items[0]) + EncodeAll(items[1..])
  }

  /** Items of at most k bytes each take at most k bytes an item. */
  lemma {:induction false} EncodeAllAtMost(items: seq<Item>, k: nat)
    requires forall x | x in items :: Encodable(x) && |Encode(x)| <= k
    ensures |EncodeAll(items)| <= k * |items|
  {
    hide Encode, Encodable;
    if items != [] {
      assert items[0] in items;
      EncodeAllAtMost(items[1..], k);
      assert k * |items| == k * |items[1..]| + k;
    }
  }

  lemma EncodeAllStep(x: Item, others: seq<Item>)
    requires Encodable(x) && forall y | y in others :: Encodable(y)
    ensures EncodeAll([x] + others) == Encode(x) + EncodeAll(others)
  {
    assert ([x] + others)[1..] == others;
  }

  lemma FiveItems(a: Item, b: Item, c: Item, d: Item, e: Item)
    requires Encodable(a) && Encodable(b) && Encodable(c) && Encodable(d) && Encodable(e)
    ensures Encodable(Array([a, b, c, d, e]))
    ensures |Encode(Array([a, b, c, d, e]))|
         <= 9 + |Encode(a)| + |Encode(b)| + |Encode(c)| + |Encode(d)| + |Encode(e)|
  {
    assert EncodeAll([]) == [];
    ArrayIs([a, b, c, d, e]);
    hide Encode, Encodable, EncodeHead, EncodeAll;
    EncodeAllStep(e, []);
    EncodeAllStep(d, [e]);
    EncodeAllStep(c, [d, e]);
    EncodeAllStep(b, [c, d, e]);
    EncodeAllStep(a, [b, c, d, e]);
    assert [e] + [] == [e] && [d] + [e] == [d, e] && [c] + [d, e] == [c, d, e];
    assert [b] + [c, d, e] == [b, c, d, e] && [a] + [b, c, d, e] == [a, b, c, d, e];
  }

  lemma ArrayIs(items: seq<Item>)
    requires |items| < TWO64 && forall x | x in items :: Encodable(x)
    ensures Encodable(Array(items)) && |Encode(Array(items))| <= 9 + |EncodeAll(items)|
  {
  }

  lemma UIntSize(n: nat)
    requires n < TWO64
    ensures Encodable(UInt(n)) && |Encode(UInt(n))| <= 9
  {
  }

  function Decode(raw: bytes, max: nat): (r: Option<(Item, bytes)>)
    ensures r.Some? ==> |r.value.1| < |raw|
    decreases |raw|, 0
  {
    var h :- DecodeHead(raw);
    if h.major == 0 then Some((UInt(h.arg), h.rest))
    else if h.major == 2 then
      if |h.rest| < h.arg then None else Some((Blob(h.rest[..h.arg]), h.rest[h.arg..]))
    else if h.major == 3 then
      if |h.rest| < h.arg || !ValidUtf8(h.rest[..h.arg]) then None
      else Some((Text(h.rest[..h.arg]), h.rest[h.arg..]))
    else if h.major == 4 then
      if h.arg > max then None
      else
        var (items, rest) :- DecodeAll(h.rest, h.arg, max);
        Some((Array(items), rest))
    else None
  }

  function DecodeAll(raw: bytes, n: nat, max: nat): (r: Option<(seq<Item>, bytes)>)
    ensures r.Some? ==> |r.value.1| <= |raw| && |r.value.0| == n
    decreases |raw|, n + 1
  {
    if n == 0 then Some(([], raw))
    else
      var (first, rest) :- Decode(raw, max);
      var (others, tail) :- DecodeAll(rest, n - 1, max);
      Some(([first] + others, tail))
  }

  /** Decoding inverts encoding, in front of any tail, exactly on the items the decoder accepts. */
  lemma {:induction false} RoundTrip(item: Item, max: nat, tail: bytes)
    requires Encodable(item)
    ensures Decode(Encode(item) + tail, max) == if Accepted(item, max) then Some((item, tail)) else None
    decreases item, 1
  {
    match item
    case UInt(n) =>
      HeadRoundTrip(0, n, tail);
    case Blob(b) =>
      StringRoundTrip(2, b, tail, max);
    case Text(t) =>
      StringRoundTrip(3, t, tail, max);
    case Array(items) =>
      RoundTripAll(items, max, tail);
      ArrayRoundTrip(items, max, tail);
  }

  lemma ArrayRoundTrip(items: seq<Item>, max: nat, tail: bytes)
    requires |items| < TWO64 && forall x | x in items :: Encodable(x)
    ensures Decode(EncodeHead(4, |items|) + EncodeAll(items) + tail, max)
         == if |items| > max then None
            else
              var d := DecodeAll(EncodeAll(items) + tail, |items|, max);
              if d.None? then None else Some((Array(d.value.0), d.value.1))
  {
    var body := EncodeAll(items) + tail;
    assert EncodeHead(4, |items|) + EncodeAll(items) + tail == EncodeHead(4, |items|) + body;
    HeadRoundTrip(4, |items|, body);
  }

  lemma StringRoundTrip(major: nat, b: bytes, tail: bytes, max: nat)
    requires major in {2, 3} && |b| < TWO64
    ensures Decode(EncodeHead(major, |b|) + b + tail, max)
         == if major == 2 then Some((Blob(b), tail))
            else if ValidUtf8(b) then Some((Text(b), tail)) else None
  {
    HeadRoundTrip(major, |b|, b + tail);
    Associate(EncodeHead(major, |b|), b, tail);
    StringDecodes(EncodeHead(major, |b|) + b + tail, major, b, tail, max);
  }

  lemma {:induction false} RoundTripAll(items: seq<Item>, max: nat, tail: bytes)
    requires forall x | x in items :: Encodable(x)
    ensures DecodeAll(EncodeAll(items) + tail, |items|, max)
         == if forall x | x in items :: Accepted(x, max) then Some((items, tail)) else None
    decreases items, 0
  {
    if items == [] {
      assert EncodeAll(items) + tail == tail;
    } else {
      var first, others := items[0], items[1..];
      var rest := EncodeAll(others) + tail;
      assert items == [first] + others;
      Associate(Encode(first), EncodeAll(others), tail);
      RoundTrip(first, max, rest);
      RoundTripAll(others, max, tail);
      DecodeAllStep(EncodeAll(items) + tail, |items|, max);
      assert (forall x | x in items :: Accepted(x, max)) <==>
             Accepted(first, max) && forall x | x in others :: Accepted(x, max);
    }
  }

  /** Decoding n items is decoding one, and then n - 1. */
  lemma DecodeAllStep(raw: bytes, n: nat, max: nat)
    requires n > 0
    ensures DecodeAll(raw, n, max)
         == var d := Decode(raw, max);
            if d.None? then None
            else
              var others := DecodeAll(d.value.1, n - 1, max);
              if others.None? then None else Some(([d.value.0] + others.value.0, others.value.1))
  {
  }

  /** The decoder looks at nothing beyond the item it returns: with p the bytes used, any tail will do. */
  lemma {:induction false} Local(raw: bytes, max: nat, tail: bytes) returns (p: bytes)
    requires Decode(raw, max).Some?
    ensures raw == p + Decode(raw, max).value.1
    ensures Decode(p + tail, max) == Some((Decode(raw, max).value.0, tail))
    decreases |raw|, 0
  {
    var h := DecodeHead(raw).value;
    if h.major == 0 {
      p := HeadLocal(raw, tail);
    } else if h.major == 4 {
      var q := LocalAll(h.rest, h.arg, max, tail);
      var head := HeadLocal(raw, q + tail);
      p := head + q;
      Associate(head, q, tail);
      Associate(head, q, Decode(raw, max).value.1);
    } else {
      p := StringLocal(raw, max, tail);
    }
  }

  lemma StringLocal(raw: bytes, max: nat, tail: bytes) returns (p: bytes)
    requires Decode(raw, max).Some? && DecodeHead(raw).value.major in {2, 3}
    ensures raw == p + Decode(raw, max).value.1
    ensures Decode(p + tail, max) == Some((Decode(raw, max).value.0, tail))
  {
    var h := DecodeHead(raw).value;
    var body, rest := h.rest[..h.arg], h.rest[h.arg..];
    var head := HeadLocal(raw, body + tail);
    p := head + body;
    assert h.rest == body + rest;
    Associate(head, body, tail);
    Associate(head, body, rest);
    StringDecodes(raw, h.major, body, rest, max);
    StringDecodes(p + tail, h.major, body, tail, max);
  }

  lemma StringDecodes(raw: bytes, major: nat, b: bytes, tail: bytes, max: nat)
    requires major in {2, 3} && DecodeHead(raw) == Some(Head(major, |b|, b + tail))
    ensures Decode(raw, max) == if major == 2 then Some((Blob(b), tail))
                                else if ValidUtf8(b) then Some((Text(b), tail)) else None
  {
    assert (b + tail)[..|b|] == b && (b + tail)[|b|..] == tail;
  }

  lemma {:induction false} LocalAll(raw: bytes, n: nat, max: nat, tail: bytes) returns (p: bytes)
    requires DecodeAll(raw, n, max).Some?
    ensures raw == p + DecodeAll(raw, n, max).value.1
    ensures DecodeAll(p + tail, n, max) == Some((DecodeAll(raw, n, max).value.0, tail))
    decreases |raw|, n + 1
  {
    if n == 0 {
      p := [];
      assert p + tail == tail && p + raw == raw;
    } else {
      var mid := Decode(raw, max).value.1;
      var back := LocalAll(mid, n - 1, max, tail);
      var front := Local(raw, max, back + tail);
      p := front + back;
      Associate(front, back, tail);
      Associate(front, back, DecodeAll(raw, n, max).value.1);
      DecodeAllStep(p + tail, n, max);
    }
  }

  /** Decoded numbers and lengths are 64-bit, so a decoded item can be encoded again. */
  lemma {:induction false} DecodedFits(raw: bytes, max: nat)
    requires Decode(raw, max).Some?
    ensures Encodable(Decode(raw, max).value.0)
    decreases |raw|, 0
  {
    var h := DecodeHead(raw).value;
    HeadFits(raw);
    if h.major == 4 {
      DecodedAllFit(h.rest, h.arg, max);
    }
  }

  lemma {:induction false} DecodedAllFit(raw: bytes, n: nat, max: nat)
    requires DecodeAll(raw, n, max).Some?
    ensures forall x | x in DecodeAll(raw, n, max).value.0 :: Encodable(x)
    decreases |raw|, n + 1
  {
    if n > 0 {
      DecodedFits(raw, max);
      DecodedAllFit(Decode(raw, max).value.1, n - 1, max);
    }
  }

  lemma HeadFits(raw: bytes)
    requires DecodeHead(raw).Some?
    ensures DecodeHead(raw).value.arg < TWO64
  {
    var k := ArgBytes(raw[0] % 32).value;
    Pow256Values();
    ToFromBE(raw[1..1 + k]);
  }

  /** What the decoder returns is what it lets through. */
  lemma {:induction false} DecodedAccepted(raw: bytes, max: nat)
    requires Decode(raw, max).Some?
    ensures Accepted(Decode(raw, max).value.0, max)
    decreases |raw|, 0
  {
    var h := DecodeHead(raw).value;
    if h.major == 4 {
      DecodedAllAccepted(h.rest, h.arg, max);
    }
  }

  lemma {:induction false} DecodedAllAccepted(raw: bytes, n: nat, max: nat)
    requires DecodeAll(raw, n, max).Some?
    ensures forall x | x in DecodeAll(raw, n, max).value.0 :: Accepted(x, max)
    decreases |raw|, n + 1
  {
    if n > 0 {
      DecodedAccepted(raw, max);
      DecodedAllAccepted(Decode(raw, max).value.1, n - 1, max);
    }
  }
}
