/** The streaming SHA-256 context: a 64-byte buffer filled one byte at a time, compressed in
    place when full, and padded in place at the end. */
module Sha256Stream {
  import opened Bytes
  import opened Sha256

  class Context {
    const o: Words
    const data: array<byte>
    var datalen: nat
    var bitlen: u64
    var state: Vars

    /** The compression function that Transform computes. */
    ghost const f: (Vars, seq<byte>) -> Vars

    /** The whole blocks compressed so far. */
    ghost var blocks: seq<byte>

    ghost predicate Shape() {
      && data.Length == 64 && |o.k| == 64
      && (forall v, b {:trigger Compress(o, v, b)} :: |b| == 64 ==> f(v, b) == Compress(o, v, b))
    }

    /** The chaining value and the bit count stand for the compressed blocks. */
    ghost predicate Chained()
      reads this
    {
      && Shape()
      && |blocks| % 64 == 0
      && bitlen == 8 * |blocks| % 0x1_0000_0000_0000_0000
      && state == Fold(f, o.h0, blocks)
    }

    ghost predicate Valid()
      reads this
    {
      Chained() && datalen < 64
    }

    /** Everything fed to the context since it was initialised. */
    ghost function Message(): seq<byte>
      requires datalen <= data.Length
      reads this, data
    {
      blocks + data[..datalen]
    }

    constructor (o: Words)
      requires |o.k| == 64
      ensures Valid() && Message() == [] && this.o == o && f == Compression(o) && fresh(data)
    {
      this.o := o;
      f := Compression(o);
      data := new byte[64](i => 0);
      datalen, bitlen, state, blocks := 0, 0, o.h0, [];
    }

    method Transform()
      requires Shape()
      modifies this`state
      ensures state == f(old(state), data[..])
    {
      ghost var block := data[..];
      var m := FillSchedule();
      var Vars(a, b, c, d, e, f', g, h) := state;
      for i := 0 to 64
        invariant Vars(a, b, c, d, e, f', g, h) == Rounds(o, state, block, i)
      {
        var t1 := o.add(o.add(o.add(o.add(h, o.bigSigma1(e)), o.ch(e, f', g)), o.k[i]), m[i]);
        var t2 := o.add(o.bigSigma0(a), o.maj(a, b, c));
        h := g;
        g := f';
        f' := e;
        e := o.add(d, t1);
        d := c;
        c := b;
        b := a;
        a := o.add(t1, t2);
      }
      state := Vars(o.add(state.a, a), o.add(state.b, b), o.add(state.c, c), o.add(state.d, d),
                    o.add(state.e, e), o.add(state.f, f'), o.add(state.g, g), o.add(state.h, h));
      assert state == Compress(o, old(state), block);
    }

    method FillSchedule() returns (m: array<word>)
      requires Shape()
      ensures fresh(m) && m.Length == 64
      ensures forall j {:trigger m[j]} :: 0 <= j < 64 ==> m[j] == Schedule(o, data[..], j)
    {
      ghost var block := data[..];
      m := new word[64](i => 0);
      for i := 0 to 16
        invariant forall j {:trigger m[j]} :: 0 <= j < i ==> m[j] == Schedule(o, block, j)
      {
        m[i] := o.load(data[4 * i], data[4 * i + 1], data[4 * i + 2], data[4 * i + 3]);
      }
      ExtendSchedule(block, m);
    }

    method ExtendSchedule(ghost block: seq<byte>, m: array<word>)
      requires |block| == 64 && m.Length == 64
      requires forall j {:trigger m[j]} :: 0 <= j < 16 ==> m[j] == Schedule(o, block, j)
      modifies m
      ensures forall j {:trigger m[j]} :: 0 <= j < 64 ==> m[j] == Schedule(o, block, j)
    {
      for i := 16 to 64
        invariant forall j {:trigger m[j]} :: 0 <= j < i ==> m[j] == Schedule(o, block, j)
      {
        m[i] := o.add(o.add(o.add(o.smallSigma1(m[i - 2]), m[i - 7]), o.smallSigma0(m[i - 15])), m[i - 16]);
      }
    }

    method Update(input: seq<byte>)
      requires Valid()
      modifies this, data
      ensures Valid() && Message() == old(Message()) + input
    {
      for i := 0 to |input|
        invariant Valid() && Message() == old(Message()) + input[..i]
      {
        Feed(input[i]);
        AppendOne(old(Message()), input, i);
      }
    }

    /** One iteration of the update loop. */
    method Feed(b: byte)
      requires Valid()
      modifies this, data
      ensures Valid() && Message() == old(Message()) + [b]
    {
      data[datalen] := b;
      datalen := datalen + 1;
      assert data[..datalen] == old(data[..datalen]) + [b];
      if datalen == 64 {
        assert data[..] == data[..64];
        Flush();
        assert data[..datalen] == [];
      }
    }

    /** Compresses the full buffer. */
    method Flush()
      requires Chained() && datalen == 64
      modifies this
      ensures Chained() && datalen == 0 && blocks == old(blocks) + data[..]
    {
      LengthWithBlock(blocks, data[..]);
      CompressBuffer();
      bitlen := AddLength(bitlen, 512);
      datalen := 0;
    }

    /** Pads, compresses the last one or two blocks and writes the digest. */
    method Final(hash: array<byte>)
      requires Valid() && hash.Length >= 32 && hash != data
      requires 8 * |Message()| < 0x1_0000_0000_0000_0000
      modifies this, data, hash
      ensures hash[..32] == Digest(o, Fold(f, o.h0, PaddedBlocks(old(Message()))))
      ensures hash[32..] == old(hash[32..])
    {
      ghost var bits := 8 * |Message()|;
      PadTail();
      LengthWithTail(old(blocks), old(data[..datalen]));
      bitlen := AddLength(bitlen, datalen * 8);
      WriteLength(bits);
      assert blocks + data[..] == blocks + data[..56] + Big(8, bits);
      Transform();
      FoldSnoc(f, o.h0, blocks, data[..]);
      WriteDigest(hash);
    }

    /** Writes the padding up to the length field, compressing a first block if the length no
        longer fits in it. */
    method PadTail()
      requires Valid()
      modifies this`state, this`blocks, data
      ensures |blocks| % 64 == 0 && state == Fold(f, o.h0, blocks)
      ensures blocks + data[..56] + Big(8, 8 * |old(Message())|) == Pad(old(Message()))
    {
      if datalen < 56 {
        PadShort();
      } else {
        PadLong();
      }
    }

    method PadShort()
      requires Valid() && datalen < 56
      modifies data
      ensures blocks + data[..56] + Big(8, 8 * |old(Message())|) == Pad(old(Message()))
    {
      ghost var tail := data[..datalen];
      data[datalen] := 0x80;
      ZeroFrom(datalen + 1, 56);
      assert data[..56] == tail + [0x80] + Zeros(55 - |tail|);
      PadOneBlock(blocks, tail);
    }

    method PadLong()
      requires Valid() && datalen >= 56
      modifies this`state, this`blocks, data
      ensures |blocks| % 64 == 0 && state == Fold(f, o.h0, blocks)
      ensures blocks + data[..56] + Big(8, 8 * |old(Message())|) == Pad(old(Message()))
    {
      ghost var blocks0, tail := blocks, data[..datalen];
      data[datalen] := 0x80;
      ZeroFrom(datalen + 1, 64);
      assert data[..] == tail + [0x80] + Zeros(63 - |tail|);
      CompressBuffer();
      ZeroFrom(0, 56);
      assert data[..56] == Zeros(56);
      PadTwoBlocks(blocks0, tail);
    }

    /** Compresses the buffer and counts it among the blocks. */
    method CompressBuffer()
      requires Shape() && |blocks| % 64 == 0 && state == Fold(f, o.h0, blocks)
      modifies this`state, this`blocks
      ensures |blocks| % 64 == 0 && state == Fold(f, o.h0, blocks)
      ensures blocks == old(blocks) + data[..]
    {
      Transform();
      FoldSnoc(f, o.h0, blocks, data[..]);
      LengthWithBlock(blocks, data[..]);
      blocks := blocks + data[..];
    }

    /** memset of data[from..to]. */
    method ZeroFrom(from: nat, to: nat)
      requires Shape() && from <= to <= 64
      modifies data
      ensures data[..] == old(data[..from]) + Zeros(to - from) + old(data[to..])
    {
      for i := from to to
        invariant data[..] == old(data[..from]) + Zeros(i - from) + old(data[i..])
      {
        data[i] := 0;
      }
    }

    method WriteLength(ghost bits: nat)
      requires Shape() && bitlen == bits
      modifies data
      ensures data[..] == old(data[..56]) + Big(8, bits)
    {
      data[63] := bitlen % 0x100;
      data[62] := bitlen / 0x100 % 0x100;
      data[61] := bitlen / 0x1_0000 % 0x100;
      data[60] := bitlen / 0x100_0000 % 0x100;
      data[59] := bitlen / 0x1_0000_0000 % 0x100;
      data[58] := bitlen / 0x100_0000_0000 % 0x100;
      data[57] := bitlen / 0x1_0000_0000_0000 % 0x100;
      data[56] := bitlen / 0x100_0000_0000_0000 % 0x100;
      BigOfEight(bitlen);
    }

    method WriteDigest(hash: array<byte>)
      requires Shape() && hash.Length >= 32
      modifies hash
      ensures hash[..32] == Digest(o, state)
      ensures hash[32..] == old(hash[32..])
    {
      ghost var d := Digest(o, state);
      for i := 0 to 4
        invariant 0 < i ==> Column(hash[..], d, 0)
        invariant 1 < i ==> Column(hash[..], d, 1)
        invariant 2 < i ==> Column(hash[..], d, 2)
        invariant 3 < i ==> Column(hash[..], d, 3)
        invariant hash[32..] == old(hash[32..])
      {
        DigestColumn(o, state, i);
        ghost var s := hash[..];
        WriteColumn(hash, i, d);
        WithColumnKeeps(s, d, i, 0);
        WithColumnKeeps(s, d, i, 1);
        WithColumnKeeps(s, d, i, 2);
        WithColumnKeeps(s, d, i, 3);
      }
      ColumnsTogether(hash[..], d);
    }

    /** The body of the output loop: one byte of each word. */
    method WriteColumn(hash: array<byte>, i: nat, ghost d: seq<byte>)
      requires i < 4 && hash.Length >= 32 && |d| == 32
      requires && d[i] == o.part(state.a, i) && d[i + 4] == o.part(state.b, i)
               && d[i + 8] == o.part(state.c, i) && d[i + 12] == o.part(state.d, i)
               && d[i + 16] == o.part(state.e, i) && d[i + 20] == o.part(state.f, i)
               && d[i + 24] == o.part(state.g, i) && d[i + 28] == o.part(state.h, i)
      modifies hash
      ensures hash[..] == WithColumn(old(hash[..]), d, i)
    {
      hash[i] := o.part(state.a, i);
      hash[i + 4] := o.part(state.b, i);
      hash[i + 8] := o.part(state.c, i);
      hash[i + 12] := o.part(state.d, i);
      hash[i + 16] := o.part(state.e, i);
      hash[i + 20] := o.part(state.f, i);
      hash[i + 24] := o.part(state.g, i);
      hash[i + 28] := o.part(state.h, i);
    }
  }

  /** `s` agrees with `d` on the n-th byte of each of the eight words. */
  ghost predicate Column(s: seq<byte>, d: seq<byte>, n: nat)
    requires |s| >= 32 && |d| == 32 && n < 4
  {
    && s[n] == d[n] && s[n + 4] == d[n + 4] && s[n + 8] == d[n + 8] && s[n + 12] == d[n + 12]
    && s[n + 16] == d[n + 16] && s[n + 20] == d[n + 20] && s[n + 24] == d[n + 24] && s[n + 28] == d[n + 28]
  }

  ghost function WithColumn(s: seq<byte>, d: seq<byte>, i: nat): (r: seq<byte>)
    requires |s| >= 32 && |d| == 32 && i < 4
    ensures |r| == |s|
  {
    s[i := d[i]][i + 4 := d[i + 4]][i + 8 := d[i + 8]][i + 12 := d[i + 12]]
     [i + 16 := d[i + 16]][i + 20 := d[i + 20]][i + 24 := d[i + 24]][i + 28 := d[i + 28]]
  }

  lemma WithColumnKeeps(s: seq<byte>, d: seq<byte>, i: nat, n: nat)
    requires |s| >= 32 && |d| == 32 && i < 4 && n < 4
    ensures n == i || Column(s, d, n) ==> Column(WithColumn(s, d, i), d, n)
    ensures WithColumn(s, d, i)[32..] == s[32..]
  {
    if i == 0 {
      if n == 0 {} else if n == 1 {} else if n == 2 {} else {}
    } else if i == 1 {
      if n == 0 {} else if n == 1 {} else if n == 2 {} else {}
    } else if i == 2 {
      if n == 0 {} else if n == 1 {} else if n == 2 {} else {}
    } else {
      if n == 0 {} else if n == 1 {} else if n == 2 {} else {}
    }
  }

  lemma ColumnsTogether(s: seq<byte>, d: seq<byte>)
    requires |s| >= 32 && |d| == 32
    requires Column(s, d, 0) && Column(s, d, 1) && Column(s, d, 2) && Column(s, d, 3)
    ensures s[..32] == d
  {
    forall p | 0 <= p < 32 ensures s[p] == d[p] {
      assert Column(s, d, p % 4);
    }
  }

  lemma DigestAt(o: Words, v: Vars, j: nat, i: nat)
    requires j < 8 && i < 4
    ensures Digest(o, v)[4 * j + i] == o.part(WordAt(v, j), i)
  {
    assert (4 * j + i) / 4 == j && (4 * j + i) % 4 == i;
  }

  lemma DigestColumn(o: Words, v: Vars, i: nat)
    requires i < 4
    ensures var d := Digest(o, v);
            && d[i] == o.part(v.a, i) && d[i + 4] == o.part(v.b, i)
            && d[i + 8] == o.part(v.c, i) && d[i + 12] == o.part(v.d, i)
            && d[i + 16] == o.part(v.e, i) && d[i + 20] == o.part(v.f, i)
            && d[i + 24] == o.part(v.g, i) && d[i + 28] == o.part(v.h, i)
  {
    DigestAt(o, v, 0, i);
    DigestAt(o, v, 1, i);
    DigestAt(o, v, 2, i);
    DigestAt(o, v, 3, i);
    DigestAt(o, v, 4, i);
    DigestAt(o, v, 5, i);
    DigestAt(o, v, 6, i);
    DigestAt(o, v, 7, i);
  }

  ghost function PaddedBlocks(m: seq<byte>): (s: seq<byte>)
    ensures |s| % 64 == 0
  {
    PadIsBlocks(m);
    Pad(m)
  }

  lemma PadOneBlock(blocks: seq<byte>, tail: seq<byte>)
    requires |blocks| % 64 == 0 && |tail| < 56
    ensures Pad(blocks + tail) == blocks + (tail + [0x80] + Zeros(55 - |tail|)) + Big(8, 8 * |blocks + tail|)
  {
    assert ZeroCount(|blocks + tail|) == 55 - |tail|;
  }

  lemma PadTwoBlocks(blocks: seq<byte>, tail: seq<byte>)
    requires |blocks| % 64 == 0 && 56 <= |tail| < 64
    ensures Pad(blocks + tail) ==
            blocks + (tail + [0x80] + Zeros(63 - |tail|)) + Zeros(56) + Big(8, 8 * |blocks + tail|)
  {
    assert ZeroCount(|blocks + tail|) == 119 - |tail|;
    assert Zeros(119 - |tail|) == Zeros(63 - |tail|) + Zeros(56);
  }

  lemma BigOfEight(v: nat)
    ensures Big(8, v) ==
            [v / 0x100_0000_0000_0000 % 0x100, v / 0x1_0000_0000_0000 % 0x100, v / 0x100_0000_0000 % 0x100,
              v / 0x1_0000_0000 % 0x100,
             v / 0x100_0000 % 0x100, v / 0x1_0000 % 0x100, v / 0x100 % 0x100, v % 0x100]
  {
    var v1 := v / 0x100;
    var v2 := v / 0x1_0000;
    var v3 := v / 0x100_0000;
    var v4 := v / 0x1_0000_0000;
    var v5 := v / 0x100_0000_0000;
    var v6 := v / 0x1_0000_0000_0000;
    var v7 := v / 0x100_0000_0000_0000;
    assert v1 / 0x100 == v2 && v2 / 0x100 == v3 && v3 / 0x100 == v4;
    assert v4 / 0x100 == v5 && v5 / 0x100 == v6 && v6 / 0x100 == v7;
    assert Big(1, v7) == [v7 % 0x100];
    assert Big(2, v6) == Big(1, v7) + [v6 % 0x100];
    assert Big(3, v5) == Big(2, v6) + [v5 % 0x100];
    assert Big(4, v4) == Big(3, v5) + [v4 % 0x100];
    assert Big(5, v3) == Big(4, v4) + [v3 % 0x100];
    assert Big(6, v2) == Big(5, v3) + [v2 % 0x100];
    assert Big(7, v1) == Big(6, v2) + [v1 % 0x100];
    assert Big(8, v) == Big(7, v1) + [v % 0x100];
  }

  /** The 64-bit counter of bits wraps around. */
  function AddLength(bitlen: u64, bits: nat): u64 {
    (bitlen + bits) % 0x1_0000_0000_0000_0000
  }

  lemma LengthWithBlock(blocks: seq<byte>, block: seq<byte>)
    requires |blocks| % 64 == 0 && |block| == 64
    ensures |blocks + block| % 64 == 0
    ensures AddLength(8 * |blocks| % 0x1_0000_0000_0000_0000, 512) == 8 * |blocks + block| % 0x1_0000_0000_0000_0000
  {
    ModuloAdds(8 * |blocks|, 512);
    assert |blocks + block| == 64 * (|blocks| / 64 + 1);
  }

  lemma ModuloAdds(n: nat, m: nat)
    ensures AddLength(n % 0x1_0000_0000_0000_0000, m) == (n + m) % 0x1_0000_0000_0000_0000
  {
    var q, r := n / 0x1_0000_0000_0000_0000, n % 0x1_0000_0000_0000_0000;
    assert n + m == q * 0x1_0000_0000_0000_0000 + (r + m);
  }

  lemma LengthWithTail(blocks: seq<byte>, tail: seq<byte>)
    requires 8 * |blocks + tail| < 0x1_0000_0000_0000_0000
    ensures AddLength(8 * |blocks| % 0x1_0000_0000_0000_0000, |tail| * 8) == 8 * |blocks + tail|
  {
  }

  lemma AppendOne(m: seq<byte>, input: seq<byte>, i: nat)
    requires i < |input|
    ensures m + input[..i] + [input[i]] == m + input[..i + 1]
  {
  }

  lemma FoldSnoc(f: (Vars, seq<byte>) -> Vars, v: Vars, s: seq<byte>, block: seq<byte>)
    requires |s| % 64 == 0 && |block| == 64
    ensures Fold(f, v, s + block) == f(Fold(f, v, s), block)
  {
    assert (s + block)[..|s|] == s;
    assert (s + block)[|s|..] == block;
  }
}
