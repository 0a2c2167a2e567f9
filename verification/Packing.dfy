/** The stored form of a record: a 32-byte header in host byte order, whose length field
    doubles as the tombstone mark, followed by the value. */
module Packing {
  import opened Bytes
  import opened Config
  import opened Lww

  const HEADER_LEN := 32
  const TOMBSTONE_BIT := 0x8000_0000

  /** A record that the store accepts from its callers. */
  predicate Storable(k: Key, r: Record) {
    && 0 < |k| <= MAX_KEY_LEN
    && |r.value| <= MAX_VALUE_LEN
    && (r.tombstone ==> r.value == [])
    && InRange(r)
  }

  predicate InRange(r: Record) {
    && r.stamp.ts < 0x1_0000_0000_0000_0000
    && r.stamp.node < 0x1_0000_0000_0000_0000
    && r.expireAt < 0x1_0000_0000_0000_0000
  }

  function Pack(order: ByteOrder, r: Record): (data: seq<byte>) {
    var lenField := if r.tombstone then TOMBSTONE_BIT else |r.value|;
    Header(order, r.stamp.ts, r.stamp.node, lenField, r.expireAt) + (if r.tombstone then [] else r.value)
  }

  function Header(order: ByteOrder, ts: nat, node: nat, lenField: nat, expireAt: nat): (h: seq<byte>)
    ensures |h| == HEADER_LEN
  {
    Store(order, 8, ts) + Store(order, 8, node) + Store(order, 4, lenField) + [0, 0, 0, 0] + Store(order, 8, expireAt)
  }

  function LenField(order: ByteOrder, data: seq<byte>): (f: nat)
    requires |data| >= HEADER_LEN
  {
    Load(order, data[16..20])
  }

  /** The top bit of the 32-bit length field. */
  predicate TombstoneBit(f: nat) {
    f / TOMBSTONE_BIT % 2 == 1
  }

  /** The low 31 bits of the length field. */
  function ValueLen(f: nat): nat {
    f % TOMBSTONE_BIT
  }

  predicate EntryIsValid(order: ByteOrder, data: seq<byte>) {
    && |data| >= HEADER_LEN
    && ValueLen(LenField(order, data)) <= MAX_VALUE_LEN
    && |data| >= HEADER_LEN + ValueLen(LenField(order, data))
    && !(TombstoneBit(LenField(order, data)) && ValueLen(LenField(order, data)) != 0)
  }

  function StampOf(order: ByteOrder, data: seq<byte>): (s: Stamp)
    requires |data| >= HEADER_LEN
  {
    Stamp(Load(order, data[0..8]), Load(order, data[8..16]))
  }

  function Unpack(order: ByteOrder, data: seq<byte>): (r: Record)
    requires EntryIsValid(order, data)
  {
    var f := LenField(order, data);
    Record(StampOf(order, data), Load(order, data[24..32]), TombstoneBit(f),
           data[HEADER_LEN..HEADER_LEN + ValueLen(f)])
  }

  lemma HeaderSlices(a: seq<byte>, b: seq<byte>, c: seq<byte>, d: seq<byte>, e: seq<byte>, tail: seq<byte>)
    requires |a| == |b| == |e| == 8 && |c| == |d| == 4
    ensures var data := a + b + c + d + e + tail;
            && |data| == HEADER_LEN + |tail| && data[0..8] == a && data[8..16] == b && data[16..20] == c
            && data[24..32] == e && data[HEADER_LEN..] == tail
  {
  }

  lemma HeaderFields(order: ByteOrder, ts: u64, node: u64, lenField: u32, expireAt: u64, tail: seq<byte>)
    ensures var data := Header(order, ts, node, lenField, expireAt) + tail;
            && |data| == HEADER_LEN + |tail|
            && StampOf(order, data) == Stamp(ts, node)
            && LenField(order, data) == lenField && Load(order, data[24..32]) == expireAt
            && data[HEADER_LEN..] == tail
  {
    HeaderSlices(Store(order, 8, ts), Store(order, 8, node), Store(order, 4, lenField), [0, 0, 0, 0],
                 Store(order, 8, expireAt), tail);
    Pow256Values();
    LoadOfStore(order, 8, ts);
    LoadOfStore(order, 8, node);
    LoadOfStore(order, 4, lenField);
    LoadOfStore(order, 8, expireAt);
  }

  lemma LenFieldBits(n: nat)
    requires n <= MAX_VALUE_LEN
    ensures ValueLen(n) == n && !TombstoneBit(n)
    ensures ValueLen(TOMBSTONE_BIT) == 0 && TombstoneBit(TOMBSTONE_BIT)
  {
  }

  lemma UnpackFromFields(order: ByteOrder, data: seq<byte>, r: Record)
    requires |data| == HEADER_LEN + |r.value| && data[HEADER_LEN..] == r.value && |r.value| <= MAX_VALUE_LEN
    requires StampOf(order, data) == r.stamp && Load(order, data[24..32]) == r.expireAt
    requires LenField(order, data) == if r.tombstone then TOMBSTONE_BIT else |r.value|
    requires r.tombstone ==> r.value == []
    ensures EntryIsValid(order, data) && Unpack(order, data) == r
  {
    LenFieldBits(|r.value|);
    assert data[HEADER_LEN..HEADER_LEN + |r.value|] == data[HEADER_LEN..];
  }

  /** Every accepted record is packed into a valid entry that unpacks to the same record. */
  lemma PackRoundTrip(order: ByteOrder, k: Key, r: Record)
    requires Storable(k, r)
    ensures EntryIsValid(order, Pack(order, r)) && Unpack(order, Pack(order, r)) == r
  {
    var lenField := if r.tombstone then TOMBSTONE_BIT else |r.value|;
    HeaderFields(order, r.stamp.ts, r.stamp.node, lenField, r.expireAt, r.value);
    UnpackFromFields(order, Pack(order, r), r);
  }

  lemma UnpackInRange(order: ByteOrder, data: seq<byte>)
    requires EntryIsValid(order, data)
    ensures InRange(Unpack(order, data))
  {
    Pow256Values();
    StoreOfLoad(order, data[0..8]);
    StoreOfLoad(order, data[8..16]);
    StoreOfLoad(order, data[24..32]);
  }

  // ----- Packed maps and the tables they stand for -----

  type Packed = map<Key, seq<byte>>

  ghost predicate AllValid(order: ByteOrder, db: Packed) {
    forall k :: k in db ==> 0 < |k| <= MAX_KEY_LEN && EntryIsValid(order, db[k])
  }

  /** Reading an entry as a total function of its bytes. */
  ghost function Reading(order: ByteOrder): seq<byte> -> Record {
    data => if EntryIsValid(order, data) then Unpack(order, data) else Record(Stamp(0, 0), 0, true, [])
  }

  ghost function TableOf(db: Packed, reading: seq<byte> -> Record): (t: Table)
    ensures t.Keys == db.Keys
  {
    map k | k in db :: reading(db[k])
  }

  lemma TableOfUpdate(db: Packed, k: Key, data: seq<byte>, reading: seq<byte> -> Record)
    ensures TableOf(db[k := data], reading) == TableOf(db, reading)[k := reading(data)]
  {
  }

  lemma PutIsUpdate(order: ByteOrder, db: Packed, k: Key, r: Record)
    requires Storable(k, r)
    ensures TableOf(db[k := Pack(order, r)], Reading(order)) == TableOf(db, Reading(order))[k := r]
    ensures AllValid(order, db) ==> AllValid(order, db[k := Pack(order, r)])
  {
    ReadingOfPack(order, k, r);
    TableOfUpdate(db, k, Pack(order, r), Reading(order));
    PutKeepsValid(order, db, k, Pack(order, r));
  }

  lemma ReadingOfPack(order: ByteOrder, k: Key, r: Record)
    requires Storable(k, r)
    ensures EntryIsValid(order, Pack(order, r)) && Reading(order)(Pack(order, r)) == r
  {
    PackRoundTrip(order, k, r);
  }

  lemma PutKeepsValid(order: ByteOrder, db: Packed, k: Key, data: seq<byte>)
    requires 0 < |k| <= MAX_KEY_LEN && EntryIsValid(order, data)
    ensures AllValid(order, db) ==> AllValid(order, db[k := data])
  {
  }
}
