/** Cluster frames on a byte stream: the frame layout, and sending and receiving whole frames
    over partial, interruptible socket calls. */
module Wire {
  import opened Bytes
  import opened Config

  const MAGIC := 0xD4D4
  const CLUSTER_VERSION := 3
  const PREFIX_LEN := 4
  const HEADER_LEN := 48

  datatype Frame = Frame(opcode: u16, flags: u16, timestamp: u64, nodeId: u64, expireAt: u64, clusterId: u32,
                         key: seq<byte>, value: seq<byte>)

  predicate InBounds(f: Frame) {
    |f.key| <= MAX_KEY_LEN && |f.value| <= MAX_VALUE_LEN
  }

  // ----- The layout, independent of the host -----

  function Header(f: Frame): (h: seq<byte>)
    ensures |h| == HEADER_LEN
  {
    Big(2, MAGIC) + Big(2, CLUSTER_VERSION) + Big(2, f.opcode) + Big(2, f.flags) +
    Big(4, |f.key|) + Big(4, |f.value|) + Big(8, f.timestamp) + Big(8, f.nodeId) + Big(8, f.expireAt) +
    Big(4, f.clusterId) + [0, 0, 0, 0]
  }

  function Encode(f: Frame): seq<byte> {
    Header(f) + f.key + f.value
  }

  function EncodeAll(fs: seq<Frame>): seq<byte> {
    if fs == [] then [] else Encode(fs[0]) + EncodeAll(fs[1..])
  }

  datatype Parse = Parsed(frame: Frame, rest: seq<byte>) | Bad

  function KeyLen(h: seq<byte>): nat
    requires |h| >= HEADER_LEN
  {
    FromBig(h[8..12])
  }

  function ValueLen(h: seq<byte>): nat
    requires |h| >= HEADER_LEN
  {
    FromBig(h[12..16])
  }

  /** Reads one frame off the front of a stream. */
  function Decode(s: seq<byte>): Parse {
    if |s| < HEADER_LEN || FromBig(s[0..2]) != MAGIC || FromBig(s[2..4]) != CLUSTER_VERSION then Bad else
    if KeyLen(s) > MAX_KEY_LEN || ValueLen(s) > MAX_VALUE_LEN then Bad else
    if |s| < HEADER_LEN + KeyLen(s) + ValueLen(s) then Bad else
    var body := s[HEADER_LEN..];
    Parsed(HeaderFrame(s, body[..KeyLen(s)], body[KeyLen(s)..KeyLen(s) + ValueLen(s)]), body[KeyLen(s) + ValueLen(s)..])
  }

  function HeaderFrame(h: seq<byte>, key: seq<byte>, value: seq<byte>): Frame
    requires |h| >= HEADER_LEN
  {
    FieldBounds(h);
    Frame(FromBig(h[4..6]), FromBig(h[6..8]), FromBig(h[16..24]), FromBig(h[24..32]), FromBig(h[32..40]),
      FromBig(h[40..44]),
          key, value)
  }

  lemma FieldBounds(h: seq<byte>)
    requires |h| >= HEADER_LEN
    ensures FromBig(h[4..6]) < 0x1_0000 && FromBig(h[6..8]) < 0x1_0000 && FromBig(h[40..44]) < 0x1_0000_0000
    ensures FromBig(h[16..24]) < 0x1_0000_0000_0000_0000 && FromBig(h[24..32]) < 0x1_0000_0000_0000_0000
    ensures FromBig(h[32..40]) < 0x1_0000_0000_0000_0000
  {
    Pow256Values();
    BigOfFromBig(h[4..6]);
    BigOfFromBig(h[6..8]);
    BigOfFromBig(h[16..24]);
    BigOfFromBig(h[24..32]);
    BigOfFromBig(h[32..40]);
    BigOfFromBig(h[40..44]);
  }

  lemma HeaderSlices(f: Frame, tail: seq<byte>)
    ensures var s := Header(f) + tail;
            && s[0..2] == Big(2, MAGIC) && s[2..4] == Big(2, CLUSTER_VERSION)
            && s[4..6] == Big(2, f.opcode) && s[6..8] == Big(2, f.flags)
            && s[8..12] == Big(4, |f.key|) && s[12..16] == Big(4, |f.value|)
            && s[16..24] == Big(8, f.timestamp) && s[24..32] == Big(8, f.nodeId)
            && s[32..40] == Big(8, f.expireAt) && s[40..44] == Big(4, f.clusterId)
  {
  }

  lemma HeaderFields(f: Frame, tail: seq<byte>)
    requires InBounds(f)
    ensures var s := Header(f) + tail;
            && FromBig(s[0..2]) == MAGIC && FromBig(s[2..4]) == CLUSTER_VERSION
            && KeyLen(s) == |f.key| && ValueLen(s) == |f.value|
            && HeaderFrame(s, f.key, f.value) == f
  {
    HeaderSlices(f, tail);
    Pow256Values();
    FromBigOfBig(2, MAGIC);
    FromBigOfBig(2, CLUSTER_VERSION);
    FromBigOfBig(2, f.opcode);
    FromBigOfBig(2, f.flags);
    FromBigOfBig(4, |f.key|);
    FromBigOfBig(4, |f.value|);
    FromBigOfBig(8, f.timestamp);
    FromBigOfBig(8, f.nodeId);
    FromBigOfBig(8, f.expireAt);
    FromBigOfBig(4, f.clusterId);
  }

  /** Decoding undoes encoding and leaves what follows untouched. */
  lemma DecodeOfEncode(f: Frame, rest: seq<byte>)
    requires InBounds(f)
    ensures Decode(Encode(f) + rest) == Parsed(f, rest)
  {
    var tail := f.key + f.value + rest;
    var s := Header(f) + tail;
    assert Encode(f) + rest == s;
    HeaderFields(f, tail);
    var body := s[HEADER_LEN..];
    assert body == tail;
    assert body[..|f.key|] == f.key;
    assert body[|f.key|..|f.key| + |f.value|] == f.value;
    assert body[|f.key| + |f.value|..] == rest;
  }
}
