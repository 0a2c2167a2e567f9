/** Whole-frame transfer over a socket whose calls move any positive number of bytes, may be
    interrupted, may fail, and may find the connection closed. */
module Stream {
  import opened Bytes
  import opened Config
  import opened Wire

  /** What one socket call does. */
  datatype Call = Moves(atMost: nat) | Interrupted | Fails

  /** Calls that move bytes or are interrupted; an exhausted script moves everything. */
  ghost predicate Clean(script: seq<Call>) {
    forall i :: 0 <= i < |script| ==> script[i] != Fails
  }

  // ----- Frames as a host lays them out -----

  function HostHeader(order: ByteOrder, f: Frame): seq<byte> {
    Store(order, 2, HostToNet(order, 2, MAGIC)) + Store(order, 2, HostToNet(order, 2, CLUSTER_VERSION)) +
    Store(order, 2, HostToNet(order, 2, f.opcode)) + Store(order, 2, HostToNet(order, 2, f.flags)) +
    Store(order, 4, HostToNet(order, 4, |f.key|)) + Store(order, 4, HostToNet(order, 4, |f.value|)) +
    Store(order, 8, Htonll(order, f.timestamp)) + Store(order, 8, Htonll(order, f.nodeId)) +
    Store(order, 8, Htonll(order, f.expireAt)) + Store(order, 4, HostToNet(order, 4, f.clusterId)) + [0, 0, 0, 0]
  }

  /** Hosts of either byte order lay out the same header. */
  lemma HostHeaderIsHeader(order: ByteOrder, f: Frame)
    requires InBounds(f)
    ensures HostHeader(order, f) == Header(f)
  {
    Pow256Values();
    HostToNetImage(order, 2, MAGIC);
    HostToNetImage(order, 2, CLUSTER_VERSION);
    HostToNetImage(order, 2, f.opcode);
    HostToNetImage(order, 2, f.flags);
    HostToNetImage(order, 4, |f.key|);
    HostToNetImage(order, 4, |f.value|);
    HostToNetImage(order, 4, f.clusterId);
    HtonllImage(order, f.timestamp);
    HtonllImage(order, f.nodeId);
    HtonllImage(order, f.expireAt);
  }

  // ----- Sockets -----

  class Socket {
    /** Bytes accepted from the sending end and not yet taken by the receiving end. */
    var pipe: seq<byte>
    var sends: seq<Call>
    var recvs: seq<Call>

    constructor (sends: seq<Call>, recvs: seq<Call>)
      ensures pipe == [] && this.sends == sends && this.recvs == recvs
    {
      this.pipe, this.sends, this.recvs := [], sends, recvs;
    }

    /** send: a negative result is an interrupt or a failure, anything else is progress. */
    method Send(buf: seq<byte>) returns (n: int, interrupted: bool)
      requires buf != []
      modifies this`pipe, this`sends
      ensures n <= |buf| && pipe == old(pipe) + buf[..if n > 0 then n else 0]
      ensures n <= 0 ==> |sends| < |old(sends)|
      ensures |sends| <= |old(sends)|
      ensures Clean(old(sends)) ==> Clean(sends) && (n > 0 || interrupted)
    {
      if sends == [] {
        pipe := pipe + buf;
        assert buf == buf[..|buf|];
        return |buf|, false;
      }
      var call := sends[0];
      assert pipe == pipe + buf[..0];
      sends := sends[1..];
      match call
      case Moves(k) =>
        n := if k == 0 then 1 else if k < |buf| then k else |buf|;
        pipe := pipe + buf[..n];
        interrupted := false;
      case Interrupted => n, interrupted := -1, true;
      case Fails => n, interrupted := -1, false;
    }

    /** recv: at most `len` bytes; 0 when nothing is left to come. */
    method Recv(len: nat) returns (n: int, interrupted: bool, data: seq<byte>)
      requires len > 0
      modifies this`pipe, this`recvs
      ensures n <= len && |data| == (if n > 0 then n else 0) && old(pipe) == data + pipe
      ensures n < 0 ==> |recvs| < |old(recvs)|
      ensures n == 0 ==> pipe == []
      ensures |recvs| <= |old(recvs)|
      ensures Clean(old(recvs)) ==> Clean(recvs) && (n >= 0 || interrupted)
    {
      interrupted, data := false, [];
      if pipe == [] {
        return 0, false, [];
      }
      var k := if len < |pipe| then len else |pipe|;
      if recvs != [] {
        var call := recvs[0];
        assert pipe == [] + pipe;
        recvs := recvs[1..];
        match call
        case Moves(m) => k := if m == 0 then 1 else if m < k then m else k;
        case Interrupted => return -1, true, [];
        case Fails => return -1, false, [];
      }
      n, data, pipe := k, pipe[..k], pipe[k..];
    }

    /** send_full. */
    method SendFull(buf: seq<byte>) returns (total: int)
      modifies this`pipe, this`sends
      ensures total == |buf| || total == -1
      ensures total == |buf| ==> pipe == old(pipe) + buf
      ensures Clean(old(sends)) ==> total == |buf| && Clean(sends)
    {
      total := 0;
      while total < |buf|
        invariant 0 <= total <= |buf|
        invariant pipe == old(pipe) + buf[..total]
        invariant Clean(old(sends)) ==> Clean(sends)
        decreases |sends|, |buf| - total
      {
        ghost var before := total;
        var n, interrupted := Send(buf[total..]);
        if n <= 0 {
          if interrupted {
            continue;
          }
          return -1;
        }
        assert buf[..total] + buf[total..][..n] == buf[..total + n];
        total := total + n;
      }
      assert buf[..|buf|] == buf;
    }

    /** recv_full: what it returns is a prefix of the pipe, shorter than asked for only when the
        pipe ran dry; with clean calls it never fails. */
    method RecvFull(len: nat) returns (total: int, buf: seq<byte>)
      modifies this`pipe, this`recvs
      ensures total == -1 || (0 <= total <= len && |buf| == total)
      ensures old(pipe) == buf + pipe
      ensures 0 <= total < len ==> pipe == []
      ensures Clean(old(recvs)) ==> total >= 0 && Clean(recvs)
    {
      total, buf := 0, [];
      while total < len
        invariant 0 <= total <= len && |buf| == total
        invariant old(pipe) == buf + pipe
        invariant Clean(old(recvs)) ==> Clean(recvs)
        decreases |recvs|, len - total
      {
        var n, interrupted, data := Recv(len - total);
        if n <= 0 {
          if n == 0 {
            return total, buf;
          }
          if interrupted {
            continue;
          }
          return -1, buf;
        }
        buf := buf + data;
        total := total + n;
      }
    }
  }

  // ----- Frames over sockets -----

  /** cluster_send_frame. */
  method SendFrame(sock: Socket, order: ByteOrder, f: Frame) returns (ok: bool)
    modifies sock`pipe, sock`sends
    ensures ok ==> InBounds(f) && sock.pipe == old(sock.pipe) + Encode(f)
    ensures Clean(old(sock.sends)) ==> Clean(sock.sends) && (ok <==> InBounds(f))
  {
    if |f.key| > MAX_KEY_LEN || |f.value| > MAX_VALUE_LEN {
      return false;
    }
    HostHeaderIsHeader(order, f);
    ok := SendParts(sock, HostHeader(order, f), f.key, f.value);
  }

  method SendParts(sock: Socket, header: seq<byte>, key: seq<byte>, value: seq<byte>) returns (ok: bool)
    modifies sock`pipe, sock`sends
    ensures ok ==> sock.pipe == old(sock.pipe) + (header + key + value)
    ensures Clean(old(sock.sends)) ==> Clean(sock.sends) && ok
  {
    var n := sock.SendFull(header);
    if n != |header| {
      return false;
    }
    if |key| > 0 {
      n := sock.SendFull(key);
      if n != |key| {
        return false;
      }
    }
    if |value| > 0 {
      n := sock.SendFull(value);
      if n != |value| {
        return false;
      }
    }
    return true;
  }

  datatype Received = Received(frame: Frame) | NoFrame

  /** The byte-swapped fields of a received header, on a host of any byte order. */
  method ReadFrame(order: ByteOrder, h: seq<byte>, key: seq<byte>, value: seq<byte>) returns (f: Frame)
    requires |h| == HEADER_LEN
    ensures f == HeaderFrame(h, key, value)
  {
    FieldBounds(h);
    var opcode := NetField(order, h[4..6]);
    var flags := NetField(order, h[6..8]);
    var timestamp := NetField64(order, h[16..24]);
    var nodeId := NetField64(order, h[24..32]);
    var expireAt := NetField64(order, h[32..40]);
    var clusterId := NetField(order, h[40..44]);
    f := Frame(opcode, flags, timestamp, nodeId, expireAt, clusterId, key, value);
  }

  predicate GoodPrefix(s: seq<byte>) {
    |s| >= HEADER_LEN && FromBig(s[0..2]) == MAGIC && FromBig(s[2..4]) == CLUSTER_VERSION
  }

  lemma SliceOfConcat(a: seq<byte>, b: seq<byte>, i: nat, j: nat)
    requires i <= j <= |a|
    ensures (a + b)[i..j] == a[i..j]
  {
  }

  /** The first two reads: the prefix is checked before the rest of the header is awaited. */
  method RecvHeader(sock: Socket, order: ByteOrder) returns (h: Option<seq<byte>>)
    modifies sock`pipe, sock`recvs
    ensures h.Some? ==> |h.value| == HEADER_LEN && GoodPrefix(h.value) && old(sock.pipe) == h.value + sock.pipe
    ensures Clean(old(sock.recvs)) ==> Clean(sock.recvs) && (h.Some? <==> GoodPrefix(old(sock.pipe)))
  {
    var good, prefix := RecvPrefix(sock, order);
    if !good {
      return None;
    }
    ghost var tail := sock.pipe;
    var n, rest := sock.RecvFull(HEADER_LEN - PREFIX_LEN);
    SliceOfConcat(prefix, tail, 0, 2);
    SliceOfConcat(prefix, tail, 2, 4);
    if n != HEADER_LEN - PREFIX_LEN {
      return None;
    }
    SliceOfConcat(prefix, rest, 0, 2);
    SliceOfConcat(prefix, rest, 2, 4);
    assert prefix + (rest + sock.pipe) == (prefix + rest) + sock.pipe;
    h := Some(prefix + rest);
  }

  method RecvPrefix(sock: Socket, order: ByteOrder) returns (good: bool, prefix: seq<byte>)
    modifies sock`pipe, sock`recvs
    ensures good ==>
              |prefix| == PREFIX_LEN && FromBig(prefix[0..2]) == MAGIC && FromBig(prefix[2..4]) == CLUSTER_VERSION
    ensures good ==> old(sock.pipe) == prefix + sock.pipe
    ensures Clean(old(sock.recvs)) ==> Clean(sock.recvs) && (GoodPrefix(old(sock.pipe)) ==> good)
  {
    var n;
    n, prefix := sock.RecvFull(PREFIX_LEN);
    if n != PREFIX_LEN {
      return false, prefix;
    }
    SliceOfConcat(prefix, sock.pipe, 0, 2);
    SliceOfConcat(prefix, sock.pipe, 2, 4);
    var magic := NetField(order, prefix[0..2]);
    var version := NetField(order, prefix[2..4]);
    good := magic == MAGIC && version == CLUSTER_VERSION;
  }

  method RecvPayload(sock: Socket, len: nat) returns (p: Option<seq<byte>>)
    modifies sock`pipe, sock`recvs
    ensures p.Some? ==> |p.value| == len && old(sock.pipe) == p.value + sock.pipe
    ensures Clean(old(sock.recvs)) ==> Clean(sock.recvs) && (p.Some? <==> |old(sock.pipe)| >= len)
  {
    if len == 0 {
      return Some([]);
    }
    var n, payload := sock.RecvFull(len);
    p := if n == len then Some(payload) else None;
  }

  /** cluster_recv_frame: over clean calls it takes exactly what Decode takes, on any host. */
  method RecvFrame(sock: Socket, order: ByteOrder) returns (r: Received)
    modifies sock`pipe, sock`recvs
    ensures Clean(old(sock.recvs)) ==>
              && Clean(sock.recvs)
              && (Decode(old(sock.pipe)).Bad? ==> r == NoFrame)
              && (Decode(old(sock.pipe)).Parsed? ==>
                    r == Received(Decode(old(sock.pipe)).frame) && sock.pipe == Decode(old(sock.pipe)).rest)
  {
    var h := RecvHeader(sock, order);
    if h.None? {
      return NoFrame;
    }
    DecodeByParts(h.value, sock.pipe);
    r := RecvBody(sock, order, h.value);
  }

  /** What a checked header and the bytes after it stand for. */
  function DecodeBody(header: seq<byte>, body: seq<byte>): Parse
    requires |header| == HEADER_LEN
  {
    var k, v := KeyLen(header), ValueLen(header);
    if k > MAX_KEY_LEN || v > MAX_VALUE_LEN || |body| < k + v then Bad
    else Parsed(HeaderFrame(header, body[..k], body[k..k + v]), body[k + v..])
  }

  method RecvBody(sock: Socket, order: ByteOrder, header: seq<byte>) returns (r: Received)
    requires |header| == HEADER_LEN
    modifies sock`pipe, sock`recvs
    ensures Clean(old(sock.recvs)) ==>
              var d := DecodeBody(header, old(sock.pipe));
              && Clean(sock.recvs)
              && (d.Bad? ==> r == NoFrame)
              && (d.Parsed? ==> r == Received(d.frame) && sock.pipe == d.rest)
  {
    ghost var body := sock.pipe;
    var keyLen, valueLen := ReadLengths(order, header);
    if keyLen > MAX_KEY_LEN || valueLen > MAX_VALUE_LEN {
      return NoFrame;
    }
    var p := RecvPayload(sock, keyLen + valueLen);
    if p.None? {
      return NoFrame;
    }
    SplitBody(p.value, sock.pipe, keyLen);
    var f := ReadFrame(order, header, p.value[..keyLen], p.value[keyLen..]);
    r := Received(f);
  }

  method ReadLengths(order: ByteOrder, header: seq<byte>) returns (keyLen: nat, valueLen: nat)
    requires |header| == HEADER_LEN
    ensures keyLen == KeyLen(header) && valueLen == ValueLen(header)
  {
    keyLen := NetField(order, header[8..12]);
    valueLen := NetField(order, header[12..16]);
  }

  lemma SplitBody(payload: seq<byte>, rest: seq<byte>, k: nat)
    requires k <= |payload|
    ensures var body := payload + rest;
            body[..k] == payload[..k] && body[k..|payload|] == payload[k..] && body[|payload|..] == rest
  {
  }

  lemma DecodeByParts(header: seq<byte>, body: seq<byte>)
    requires |header| == HEADER_LEN && GoodPrefix(header)
    ensures Decode(header + body) == DecodeBody(header, body)
  {
    var s := header + body;
    assert s[HEADER_LEN..] == body;
    assert s[0..2] == header[0..2] && s[2..4] == header[2..4] && s[4..6] == header[4..6] && s[6..8] == header[6..8];
    assert s[8..12] == header[8..12] && s[12..16] == header[12..16] && s[16..24] == header[16..24];
    assert s[24..32] == header[24..32] && s[32..40] == header[32..40] && s[40..44] == header[40..44];
  }

  /** Any sequence of in-bounds frames, sent by a host of one byte order and received by a host
      of another over any clean fragmentation on both sides, arrives exactly, and the stream is
      used up. */
  method Relay(frames: seq<Frame>, from: ByteOrder, to: ByteOrder, sends: seq<Call>, recvs: seq<Call>)
    returns (arrived: seq<Frame>, left: seq<byte>)
    requires forall f :: f in frames ==> InBounds(f)
    requires Clean(sends) && Clean(recvs)
    ensures arrived == frames && left == []
  {
    var sock := new Socket(sends, recvs);
    SendAll(sock, from, frames);
    arrived := RecvAll(sock, to, frames);
    left := sock.pipe;
  }

  method SendAll(sock: Socket, order: ByteOrder, frames: seq<Frame>)
    requires sock.pipe == [] && Clean(sock.sends) && forall f :: f in frames ==> InBounds(f)
    modifies sock`pipe, sock`sends
    ensures sock.pipe == EncodeAll(frames)
  {
    for i := 0 to |frames|
      invariant Clean(sock.sends) && sock.pipe == EncodeAll(frames[..i])
    {
      var ok := SendFrame(sock, order, frames[i]);
      assert frames[..i + 1] == frames[..i] + [frames[i]];
      EncodeAllSnoc(frames[..i], frames[i]);
    }
    assert frames[..|frames|] == frames;
  }

  method RecvAll(sock: Socket, order: ByteOrder, ghost frames: seq<Frame>) returns (arrived: seq<Frame>)
    requires sock.pipe == EncodeAll(frames) && Clean(sock.recvs) && forall f :: f in frames ==> InBounds(f)
    modifies sock`pipe, sock`recvs
    ensures arrived == frames && sock.pipe == []
  {
    arrived := [];
    while sock.pipe != []
      invariant |arrived| <= |frames| && arrived == frames[..|arrived|]
      invariant Clean(sock.recvs) && sock.pipe == EncodeAll(frames[|arrived|..])
      decreases |frames| - |arrived|
    {
      ghost var i := |arrived|;
      DecodeFirst(frames[i..]);
      assert frames[i..][0] == frames[i] && frames[i..][1..] == frames[i + 1..];
      var r := RecvFrame(sock, order);
      arrived := arrived + [r.frame];
    }
    if |arrived| < |frames| {
      DecodeFirst(frames[|arrived|..]);
    }
  }

  lemma DecodeFirst(fs: seq<Frame>)
    requires fs != [] && InBounds(fs[0])
    ensures Decode(EncodeAll(fs)) == Parsed(fs[0], EncodeAll(fs[1..]))
    ensures EncodeAll(fs) != []
  {
    DecodeOfEncode(fs[0], EncodeAll(fs[1..]));
  }

  lemma {:induction false} EncodeAllSnoc(fs: seq<Frame>, f: Frame)
    ensures EncodeAll(fs + [f]) == EncodeAll(fs) + Encode(f)
  {
    if fs == [] {
      assert EncodeAll([f]) == Encode(f) + EncodeAll([]);
      assert fs + [f] == [f];
    } else {
      assert (fs + [f])[1..] == fs[1..] + [f];
      EncodeAllSnoc(fs[1..], f);
    }
  }
}
