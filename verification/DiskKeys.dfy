/** How the disk store lays blocks and pins out: one key space in three prefixed sections, and block files. */
module DiskKeys {
  import opened Bytes
  import opened Block
  import opened StoreSpec

  type Db = map<bytes, bytes>

  /** File contents by path below the base directory. */
  type Files = map<bytes, bytes>

  // ---------------------------------------------------------------- keys

  const BLOCK: byte := 0x62 // 'b'
  const PIN: byte := 0x70 // 'p'
  const SOFT: byte := 0x73 // 's'

  const RECURSIVE: byte := 0x72 // 'r'
  const DIRECT: byte := 0x64 // 'd'

  const KEY_LENGTH: nat := 1 + CID_LENGTH

  function Key(tag: byte, c: CID): (k: bytes)
    ensures |k| == KEY_LENGTH
  {
    [tag] + CidToBytes(c)
  }

  function CidFromKey(k: bytes): Result<CID, Error> {
    if |k| < KEY_LENGTH then Err(BadCid) else CidFromBytes(k[1..KEY_LENGTH])
  }

  lemma KeyRoundTrip(tag: byte, c: CID)
    ensures CidFromKey(Key(tag, c)) == Ok(c)
  {
    assert Key(tag, c)[1..KEY_LENGTH] == CidToBytes(c);
    CidRoundTrip(c);
  }

  /** Keys of different sections differ, and so do keys of different CIDs. */
  lemma KeysDiffer(tag: byte, c: CID, tag': byte, c': CID)
    ensures Key(tag, c) == Key(tag', c') <==> tag == tag' && c == c'
  {
    KeyRoundTrip(tag, c);
    KeyRoundTrip(tag', c');
    assert Key(tag, c)[0] == tag && Key(tag', c')[0] == tag';
  }

  /** The key of a block, a pin or a soft pin. */
  predicate IsKey(k: bytes) {
    && |k| == KEY_LENGTH && k[0] in {BLOCK, PIN, SOFT}
    && k == Key(k[0], CidFromKey(k).value)
  }

  predicate ValidKeys(db: Db) {
    forall k :: k in db ==> IsKey(k)
  }

  /** What an iterator over one prefix sees, by CID. */
  function Section(db: Db, tag: byte): map<CID, bytes> {
    map c | c in SectionCids(db, tag) :: db[Key(tag, c)]
  }

  function SectionCids(db: Db, tag: byte): (s: set<CID>)
    ensures forall c :: c in s <==> Key(tag, c) in db
  {
    var s := set k | k in db && CidFromKey(k).Ok? && k == Key(tag, CidFromKey(k).value) :: CidFromKey(k).value;
    assert forall c :: c in s <==> Key(tag, c) in db by {
      forall c: CID
        ensures c in s <==> Key(tag, c) in db
      {
        KeyRoundTrip(tag, c);
      }
    }
    s
  }

  /** Iterating over a prefix misses no key of a valid database. */
  lemma SectionComplete(db: Db, k: bytes)
    requires ValidKeys(db) && k in db
    ensures CidFromKey(k).Ok? && CidFromKey(k).value in Section(db, k[0])
    ensures Section(db, k[0])[CidFromKey(k).value] == db[k]
  {
    assert IsKey(k);
    KeyRoundTrip(k[0], CidFromKey(k).value);
  }

  lemma SectionPut(db: Db, tag: byte, c: CID, v: bytes, other: byte)
    requires ValidKeys(db) && tag in {BLOCK, PIN, SOFT}
    ensures ValidKeys(db[Key(tag, c) := v])
    ensures Section(db[Key(tag, c) := v], other)
         == if other == tag then Section(db, other)[c := v] else Section(db, other)
  {
    KeyRoundTrip(tag, c);
    hide CidFromKey;
    var db' := db[Key(tag, c) := v];
    forall x: CID
      ensures Key(other, x) in db' <==> Key(other, x) in db || (other == tag && x == c)
      ensures Key(other, x) == Key(tag, c) <==> other == tag && x == c
    {
      KeysDiffer(tag, c, other, x);
    }
  }

  lemma SectionDelete(db: Db, tag: byte, c: CID, other: byte)
    requires ValidKeys(db) && tag in {BLOCK, PIN, SOFT}
    ensures ValidKeys(db - {Key(tag, c)})
    ensures Section(db - {Key(tag, c)}, other)
         == if other == tag then Section(db, other) - {c} else Section(db, other)
  {
    hide Key, IsKey;
    forall x: CID
      ensures Key(other, x) == Key(tag, c) <==> other == tag && x == c
    {
      KeysDiffer(tag, c, other, x);
    }
  }

  // ---------------------------------------------------------------- paths

  const BLOCKS: bytes := [0x62, 0x6C, 0x6F, 0x63, 0x6B, 0x73, 0x2F] // "blocks/"
  const TMP: bytes := [0x2E, 0x74, 0x6D, 0x70] // ".tmp"

  /** A file name no two CIDs share; the text encoding of the CID is not modelled further. */
  function RelPath(c: CID): bytes {
    BLOCKS + CidToBytes(c)
  }

  function TmpPath(c: CID): bytes {
    RelPath(c) + TMP
  }

  lemma PathsDiffer(c: CID, c': CID)
    ensures RelPath(c) == RelPath(c') <==> c == c'
    ensures TmpPath(c) == TmpPath(c') <==> c == c'
    ensures RelPath(c) != TmpPath(c')
  {
    CidRoundTrip(c);
    CidRoundTrip(c');
    assert RelPath(c)[|BLOCKS|..] == CidToBytes(c) && RelPath(c')[|BLOCKS|..] == CidToBytes(c');
    assert TmpPath(c)[..|RelPath(c)|] == RelPath(c) && TmpPath(c')[..|RelPath(c')|] == RelPath(c');
  }

  // ---------------------------------------------------------------- expiries

  const SECOND: int := 1_000_000_000

  /** Whole seconds since the epoch, rounded down. */
  function Unix(t: Instant): int {
    t / SECOND
  }

  /** An instant rounded down to a whole second. */
  function Floor(t: Instant): Instant {
    Unix(t) * SECOND
  }

  /** The last whole second at or before the instant, before the epoch too. */
  lemma FloorIs(t: Instant)
    ensures Floor(t) % 1_000_000_000 == 0 && Floor(t) <= t < Floor(t) + 1_000_000_000
  {
  }

  predicate Int64(n: int) {
    -TWO63 <= n < TWO63
  }

  /** Two's complement wrap-around to 64 bits. */
  function Wrap64(n: int): int {
    (n + TWO63) % TWO64 - TWO63
  }

  function DecodeSeconds(s: bytes): int {
    if |s| < 8 then 0 else Wrap64(FromBE(s[..8]))
  }

  function DecodeExpiry(s: bytes): Instant {
    DecodeSeconds(s) * SECOND
  }

  lemma {:induction false} LowPartModulo(n: int, k: nat)
    ensures exists q: int :: n == q * Pow256(k) + FromBE(ToBE(n, k))
    ensures FromBE(ToBE(n, k)) < Pow256(k)
    decreases k
  {
    if k == 0 {
      assert n == n * Pow256(0) + FromBE(ToBE(n, 0));
    } else {
      var s := ToBE(n, k);
      LowPartModulo(n / 256, k - 1);
      var p := Pow256(k - 1);
      var r := FromBE(ToBE(n / 256, k - 1));
      var q: int :| n / 256 == q * p + r;
      assert s[..|s| - 1] == ToBE(n / 256, k - 1);
      Regroup(q, p, r);
      assert n == q * Pow256(k) + FromBE(s);
    }
  }

  lemma Regroup(q: int, p: int, r: int)
    ensures 256 * (q * p + r) == q * (256 * p) + 256 * r
  {
  }

  /** Every 64-bit expiry survives being stored. */
  lemma ExpiryRoundTrip(sec: int)
    requires Int64(sec)
    ensures DecodeSeconds(ToBE(sec, 8)) == sec
  {
    var s := ToBE(sec, 8);
    LowPartModulo(sec, 8);
    Pow256Values();
    var q: int :| sec == q * Pow256(8) + FromBE(s);
    assert s[..8] == s;
    assert q == 0 || q == -1;
  }

  /** encodeExpiry: eight bytes filled from the last to the first by masking and shifting. */
  method EncodeExpiry(t: Instant) returns (b: array<byte>)
    requires Int64(Unix(t))
    ensures fresh(b) && b[..] == ToBE(Unix(t), 8)
    ensures DecodeExpiry(b[..]) == Floor(t)
  {
    b := new byte[8](_ => 0);
    var sec := Unix(t);
    var i := 8;
    while i > 0
      invariant 0 <= i <= 8 && b.Length == 8
      invariant ToBE(sec, i) + b[i..] == ToBE(Unix(t), 8)
    {
      i := i - 1;
      ghost var low, tail := ToBE(sec, i + 1), b[i + 1..];
      b[i] := sec % 256;
      sec := sec / 256;
      assert b[i..] == [b[i]] + tail;
      assert low + tail == ToBE(sec, i) + b[i..];
    }
    ExpiryRoundTrip(Unix(t));
  }

  /** decodeExpiry: shifts eight bytes into a 64-bit number; too short a value means the epoch. */
  method ReadExpiry(b: bytes) returns (t: Instant)
    ensures t == DecodeExpiry(b)
  {
    if |b| < 8 {
      return 0;
    }
    Pow256Values();
    hide Pow256, FromBE;
    var sec := 0;
    EmptyNumber();
    for i := 0 to 8
      invariant sec == Wrap64(FromBE(b[..i]))
      invariant 0 <= FromBE(b[..i]) < Pow256(i)
    {
      NextByte(b, i);
      SmallPowers(i);
      sec := Wrap64(sec * 256 + b[i]);
    }
    t := sec * SECOND;
  }

  lemma EmptyNumber()
    ensures FromBE([]) == 0 && Pow256(0) == 1
  {
  }

  lemma NextByte(b: bytes, i: nat)
    requires i < |b|
    ensures FromBE(b[..i + 1]) == 256 * FromBE(b[..i]) + b[i]
    ensures FromBE(b[..i + 1]) < Pow256(i + 1)
  {
    assert b[..i + 1][..i] == b[..i];
    ToFromBE(b[..i + 1]);
  }

  lemma SmallPowers(i: nat)
    requires i < 8
    ensures Pow256(i) < TWO63
  {
    Pow256Values();
    assert Pow256(3) == 256 * Pow256(2) && Pow256(5) == 256 * Pow256(4);
    assert Pow256(6) == 256 * Pow256(5) && Pow256(7) == 256 * Pow256(6);
  }

  // ---------------------------------------------------------------- the state a disk stands for

  function HardOf(pins: map<CID, bytes>): map<CID, Pin> {
    map c | c in pins :: if pins[c] != [] && pins[c][0] == DIRECT then Direct else Recursive
  }

  function SoftOf(softs: map<CID, bytes>): map<CID, Instant> {
    map c | c in softs :: DecodeExpiry(softs[c])
  }

  /** A block is there when it is indexed and the indexed file exists. */
  function StoreOf(index: map<CID, bytes>, files: Files): map<CID, bytes> {
    map c | c in index && index[c] in files :: files[index[c]]
  }

  function StateOf(db: Db, files: Files): State {
    State(StoreOf(Section(db, BLOCK), files), HardOf(Section(db, PIN)), SoftOf(Section(db, SOFT)))
  }

  /** The index names each block's own file. */
  predicate OwnFiles(index: map<CID, bytes>) {
    forall c :: c in index ==> index[c] == RelPath(c)
  }

  predicate ValidDisk(db: Db) {
    ValidKeys(db) && OwnFiles(Section(db, BLOCK))
  }

  lemma EmptyDisk(files: Files)
    ensures ValidDisk(map[]) && StateOf(map[], files) == State(map[], map[], map[])
  {
    EmptySection(BLOCK);
    EmptySection(PIN);
    EmptySection(SOFT);
    hide Section;
  }

  lemma EmptySection(tag: byte)
    ensures Section(map[], tag) == map[]
  {
    hide Key;
  }

  lemma SectionEntry(db: Db, tag: byte, c: CID)
    ensures c in Section(db, tag) <==> Key(tag, c) in db
    ensures c in Section(db, tag) ==> Section(db, tag)[c] == db[Key(tag, c)]
  {
    hide Key;
  }

  /** Where single entries of the state are found. */
  lemma Entries(db: Db, files: Files, c: CID)
    ensures c in StateOf(db, files).store <==> Key(BLOCK, c) in db && db[Key(BLOCK, c)] in files
    ensures c in StateOf(db, files).store ==> StateOf(db, files).store[c] == files[db[Key(BLOCK, c)]]
    ensures c in StateOf(db, files).hard <==> Key(PIN, c) in db
    ensures c in StateOf(db, files).soft <==> Key(SOFT, c) in db
  {
    hide Key, Section, DecodeExpiry;
    SectionEntry(db, BLOCK, c);
    SectionEntry(db, PIN, c);
    SectionEntry(db, SOFT, c);
  }

  // ---------------------------------------------------------------- single updates

  /** A temporary file renamed into place. */
  lemma RenamedFile(files: Files, c: CID, data: bytes)
    ensures var written := files[TmpPath(c) := data];
            written[RelPath(c) := written[TmpPath(c)]] - {TmpPath(c)} == files[RelPath(c) := data] - {TmpPath(c)}
  {
    PathsDiffer(c, c);
    hide RelPath, TmpPath;
  }

  /** Writing or deleting a pin changes the hard pins only. */
  lemma PinUpdates(db: Db, files: Files, c: CID, v: bytes)
    requires ValidDisk(db)
    ensures var put := db[Key(PIN, c) := v];
            && ValidDisk(put)
            && StateOf(put, files) == StateOf(db, files).(hard := HardOf(Section(db, PIN)[c := v]))
    ensures var del := db - {Key(PIN, c)};
            && ValidDisk(del)
            && StateOf(del, files) == StateOf(db, files).(hard := HardOf(Section(db, PIN) - {c}))
  {
    SectionPut(db, PIN, c, v, PIN);
    SectionPut(db, PIN, c, v, BLOCK);
    SectionPut(db, PIN, c, v, SOFT);
    SectionDelete(db, PIN, c, PIN);
    SectionDelete(db, PIN, c, BLOCK);
    SectionDelete(db, PIN, c, SOFT);
  }

  lemma SoftOfUpdates(softs: map<CID, bytes>, c: CID, v: bytes)
    ensures SoftOf(softs[c := v]) == SoftOf(softs)[c := DecodeExpiry(v)]
    ensures SoftOf(softs - {c}) == SoftOf(softs) - {c}
  {
    hide DecodeExpiry;
  }

  /** Writing or deleting a soft pin changes the soft pins only. */
  lemma SoftUpdates(db: Db, files: Files, c: CID, v: bytes)
    requires ValidDisk(db)
    ensures var put := db[Key(SOFT, c) := v];
            && ValidDisk(put)
            && StateOf(put, files) == StateOf(db, files).(soft := SoftOf(Section(db, SOFT))[c := DecodeExpiry(v)])
            && Section(put, BLOCK) == Section(db, BLOCK)
    ensures var del := db - {Key(SOFT, c)};
            && ValidDisk(del)
            && StateOf(del, files) == StateOf(db, files).(soft := SoftOf(Section(db, SOFT)) - {c})
  {
    hide SoftOf, StoreOf, HardOf, Section, ValidKeys, DecodeExpiry, Key;
    SectionPut(db, SOFT, c, v, PIN);
    SectionPut(db, SOFT, c, v, BLOCK);
    SectionPut(db, SOFT, c, v, SOFT);
    SectionDelete(db, SOFT, c, PIN);
    SectionDelete(db, SOFT, c, BLOCK);
    SectionDelete(db, SOFT, c, SOFT);
    SoftOfUpdates(Section(db, SOFT), c, v);
  }

  lemma StoreOfPut(index: map<CID, bytes>, files: Files, c: CID, data: bytes)
    requires OwnFiles(index)
    ensures OwnFiles(index[c := RelPath(c)])
    ensures StoreOf(index[c := RelPath(c)], files[RelPath(c) := data] - {TmpPath(c)})
         == StoreOf(index, files)[c := data]
  {
    hide RelPath, TmpPath;
    forall x: CID
      ensures RelPath(x) == RelPath(c) <==> x == c
      ensures RelPath(x) != TmpPath(c)
    {
      PathsDiffer(x, c);
    }
  }

  lemma StoreOfDelete(index: map<CID, bytes>, files: Files, c: CID)
    requires OwnFiles(index)
    ensures OwnFiles(index - {c})
    ensures StoreOf(index - {c}, files - {RelPath(c)}) == StoreOf(index, files) - {c}
  {
    hide RelPath;
    forall x: CID
      ensures RelPath(x) == RelPath(c) <==> x == c
    {
      PathsDiffer(x, c);
    }
  }

  lemma IndexPut(db: Db, c: CID)
    requires ValidDisk(db)
    ensures ValidDisk(db[Key(BLOCK, c) := RelPath(c)])
    ensures Section(db[Key(BLOCK, c) := RelPath(c)], BLOCK) == Section(db, BLOCK)[c := RelPath(c)]
  {
    hide Section, ValidKeys, Key, RelPath;
    SectionPut(db, BLOCK, c, RelPath(c), BLOCK);
  }

  /** Indexing a block whose file is in place stores it. */
  lemma BlockPut(db: Db, files: Files, c: CID, data: bytes)
    requires ValidDisk(db)
    ensures var put, files' := db[Key(BLOCK, c) := RelPath(c)], files[RelPath(c) := data] - {TmpPath(c)};
            && ValidDisk(put)
            && StateOf(put, files') == StateOf(db, files).(store := StoreOf(Section(db, BLOCK), files)[c := data])
  {
    hide SoftOf, StoreOf, HardOf, Section, ValidKeys, Key, RelPath, TmpPath, OwnFiles;
    SectionPut(db, BLOCK, c, RelPath(c), PIN);
    SectionPut(db, BLOCK, c, RelPath(c), BLOCK);
    SectionPut(db, BLOCK, c, RelPath(c), SOFT);
    StoreOfPut(Section(db, BLOCK), files, c, data);
  }

  /** Removing a block's file and its index entry removes the block. */
  lemma BlockDelete(db: Db, files: Files, c: CID)
    requires ValidDisk(db)
    ensures var del, files' := db - {Key(BLOCK, c)}, files - {RelPath(c)};
            && ValidDisk(del)
            && StateOf(del, files') == StateOf(db, files).(store := StoreOf(Section(db, BLOCK), files) - {c})
            && Section(del, BLOCK) == Section(db, BLOCK) - {c}
  {
    hide SoftOf, StoreOf, HardOf, Section, ValidKeys, Key, RelPath, OwnFiles;
    SectionDelete(db, BLOCK, c, PIN);
    SectionDelete(db, BLOCK, c, BLOCK);
    SectionDelete(db, BLOCK, c, SOFT);
    StoreOfDelete(Section(db, BLOCK), files, c);
  }
}
