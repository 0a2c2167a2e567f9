/** The cluster identity that every frame carries: the 32-bit FNV-1a hash of the cluster name,
    and the receiver's check of it. */
module ClusterId {
  import opened Bytes

  const WORD := 0x1_0000_0000
  const BASIS: u32 := 2166136261
  const PRIME := 16777619

  /** Exclusive or of the lowest n bits. */
  function Xor(n: nat, a: nat, b: nat): (r: nat)
    ensures r < Exp2(n)
  {
    if n == 0 then 0 else (if a % 2 == b % 2 then 0 else 1) + 2 * Xor(n - 1, a / 2, b / 2)
  }

  function Exp2(n: nat): nat {
    if n == 0 then 1 else 2 * Exp2(n - 1)
  }

  function XorBytes(a: byte, b: byte): (r: byte) {
    assert Exp2(8) == 256;
    Xor(8, a, b)
  }

  /** Exclusive or of a 32-bit word with a byte: only the lowest byte changes. */
  function XorLow(hash: u32, b: byte): (r: u32) {
    hash - hash % 256 + XorBytes(hash % 256, b)
  }

  function Times(hash: u32): (r: u32) {
    hash * PRIME % WORD
  }

  function AbsorbAll(hash: u32, s: seq<byte>): (r: u32)
    decreases |s|
  {
    if s == [] then hash else AbsorbAll(Times(XorLow(hash, s[0])), s[1..])
  }

  function Fnv(s: seq<byte>): (r: u32) {
    AbsorbAll(BASIS, s)
  }

  /** The identity a node puts into its frames; 0 when it has no cluster name. */
  function IdOf(name: seq<byte>): (id: u32) {
    if name == [] then 0 else Fnv(name)
  }

  /** The receiver's check. */
  predicate Accepts(name: seq<byte>, id: u32) {
    name == [] || (id != 0 && id == Fnv(name))
  }

  method ComputeFnv(str: seq<byte>) returns (hash: u32)
    ensures hash == Fnv(str)
  {
    hash := BASIS;
    var i := 0;
    assert str[0..] == str;
    while i < |str|
      invariant i <= |str| && AbsorbAll(hash, str[i..]) == Fnv(str)
    {
      assert str[i..][1..] == str[i + 1..];
      hash := XorLow(hash, str[i]);
      hash := Times(hash);
      i := i + 1;
    }
  }

  lemma {:induction false} XorTwice(n: nat, a: nat, b: nat)
    requires a < Exp2(n) && b < Exp2(n)
    ensures Xor(n, Xor(n, a, b), b) == a && Xor(n, a, Xor(n, a, b)) == b
  {
    if n > 0 {
      XorTwice(n - 1, a / 2, b / 2);
      var r := Xor(n, a, b);
      assert r / 2 == Xor(n - 1, a / 2, b / 2) && r % 2 == if a % 2 == b % 2 then 0 else 1;
    }
  }

  lemma XorUndoes(a: byte, b: byte)
    ensures XorBytes(XorBytes(a, b), b) == a && XorBytes(a, XorBytes(a, b)) == b
  {
    assert Exp2(8) == 256;
    XorTwice(8, a, b);
  }

  lemma LowByte(high: nat, low: byte)
    requires high % 256 == 0
    ensures (high + low) % 256 == low
  {
  }

  lemma XorLowUndoes(h: u32, b: byte)
    ensures XorLow(XorLow(h, b), b) == h
  {
    XorUndoes(h % 256, b);
    LowByte(h - h % 256, XorBytes(h % 256, b));
  }

  /** The prime is odd, so multiplication by it loses nothing: 899433627 is its inverse. */
  lemma TimesIsInjective(h: u32, g: u32)
    requires Times(h) == Times(g)
    ensures h == g
  {
    UndoTimes(h);
    UndoTimes(g);
  }

  lemma UndoTimes(h: u32)
    ensures Times(h) * 899433627 % WORD == h
  {
    var q := h * PRIME / WORD;
    assert h * PRIME == q * WORD + Times(h);
    var k := 3513497 * h - q * 899433627;
    assert Times(h) * 899433627 == h + k * WORD;
  }

  lemma {:induction false} AbsorbAllIsInjective(h: u32, g: u32, s: seq<byte>)
    requires AbsorbAll(h, s) == AbsorbAll(g, s)
    ensures h == g
    decreases |s|
  {
    if s != [] {
      var x, y := XorLow(h, s[0]), XorLow(g, s[0]);
      AbsorbAllIsInjective(Times(x), Times(y), s[1..]);
      TimesIsInjective(x, y);
      XorLowUndoes(h, s[0]);
      XorLowUndoes(g, s[0]);
    }
  }

  lemma {:induction false} AbsorbAllConcat(h: u32, s: seq<byte>, t: seq<byte>)
    ensures AbsorbAll(h, s + t) == AbsorbAll(AbsorbAll(h, s), t)
    decreases |s|
  {
    if s == [] {
      assert s + t == t;
    } else {
      AbsorbAllConcat(Times(XorLow(h, s[0])), s[1..], t);
      assert (s + t)[1..] == s[1..] + t;
    }
  }

  lemma BytesDiffer(h: u32, a: byte, b: byte)
    requires Times(XorLow(h, a)) == Times(XorLow(h, b))
    ensures a == b
  {
    TimesIsInjective(XorLow(h, a), XorLow(h, b));
    XorUndoes(h % 256, a);
    XorUndoes(h % 256, b);
  }

  /** Clusters whose names differ in a single byte are isolated: neither accepts the other's frames. */
  lemma OneByteIsolates(prefix: seq<byte>, a: byte, b: byte, suffix: seq<byte>)
    requires a != b
    ensures !Accepts(prefix + [a] + suffix, IdOf(prefix + [b] + suffix))
  {
    if Fnv(prefix + [a] + suffix) == Fnv(prefix + [b] + suffix) {
      AbsorbAllConcat(BASIS, prefix + [a], suffix);
      AbsorbAllConcat(BASIS, prefix + [b], suffix);
      AbsorbAllIsInjective(AbsorbAll(BASIS, prefix + [a]), AbsorbAll(BASIS, prefix + [b]), suffix);
      AbsorbAllConcat(BASIS, prefix, [a]);
      AbsorbAllConcat(BASIS, prefix, [b]);
      BytesDiffer(AbsorbAll(BASIS, prefix), a, b);
    }
  }

  /** A node accepts the frames of its own cluster if and only if the hash of the name is not 0. */
  lemma OwnClusterAccepted(name: seq<byte>)
    ensures Accepts(name, IdOf(name)) <==> name == [] || Fnv(name) != 0
  {
  }

  /** One step of the hash, with the quotients that its two remainders come from. */
  datatype Trace = Trace(h: u32, b: byte, low: byte, high: nat, x: byte, quotient: nat, r: u32)

  ghost predicate IsStep(xor: (byte, byte) -> byte, t: Trace) {
    && t.h == 256 * t.high + t.low
    && xor(t.low, t.b) == t.x
    && (256 * t.high + t.x) * PRIME == t.quotient * WORD + t.r
  }

  /** The steps of the hash over s, through the intermediate values hs. */
  ghost predicate Linked(ts: seq<Trace>, s: seq<byte>, hs: seq<u32>) {
    && |ts| == |s| && |hs| == |s| + 1
    && (forall i {:trigger ts[i]} :: 0 <= i < |ts| ==> ts[i].b == s[i] && ts[i].h == hs[i] && ts[i].r == hs[i + 1])
  }

  lemma Remainder(q: nat, r: u32)
    ensures (q * WORD + r) % WORD == r
  {
  }

  lemma StepAbsorbs(xor: (byte, byte) -> byte, t: Trace)
    requires IsStep(xor, t) && xor(t.low, t.b) == XorBytes(t.low, t.b)
    ensures Absorbed(t)
  {
    LowByte(256 * t.high, t.low);
    assert XorLow(t.h, t.b) == 256 * t.high + t.x;
    Remainder(t.quotient, t.r);
  }

  ghost predicate Absorbed(t: Trace) {
    Times(XorLow(t.h, t.b)) == t.r
  }

  lemma {:induction false} Absorbs(s: seq<byte>, hs: seq<u32>, ts: seq<Trace>)
    requires Linked(ts, s, hs) && forall i {:trigger ts[i]} :: 0 <= i < |ts| ==> Absorbed(ts[i])
    ensures AbsorbAll(hs[0], s) == hs[|s|]
    decreases |s|
  {
    if s != [] {
      assert Absorbed(ts[0]);
      Absorbs(s[1..], hs[1..], ts[1..]);
    }
  }

  lemma HalveTwice(n: nat, a: nat, b: nat)
    requires n >= 2
    ensures Xor(n, a, b) == Two(a % 4, b % 4) + 4 * Xor(n - 2, a / 4, b / 4)
  {
    assert a / 2 / 2 == a / 4 && b / 2 / 2 == b / 4;
    assert a % 4 / 2 % 2 == a / 2 % 2 && b % 4 / 2 % 2 == b / 2 % 2 && a % 4 % 2 == a % 2 && b % 4 % 2 == b % 2;
  }

  /** Exclusive or of two bits each. */
  function Two(a: nat, b: nat): nat {
    (if a % 2 == b % 2 then 0 else 1) + (if a / 2 % 2 == b / 2 % 2 then 0 else 2)
  }

  lemma XorByte(a: byte, b: byte)
    ensures XorBytes(a, b) ==
            Two(a % 4, b % 4) + 4 * Two(a / 4 % 4, b / 4 % 4) +
            16 * Two(a / 16 % 4, b / 16 % 4) + 64 * Two(a / 64, b / 64)
  {
    HalveTwice(8, a, b);
    HalveTwice(6, a / 4, b / 4);
    HalveTwice(4, a / 16, b / 16);
    HalveTwice(2, a / 64, b / 64);
    assert a / 4 / 4 == a / 16 && b / 4 / 4 == b / 16 && a / 16 / 4 == a / 64 && b / 16 / 4 == b / 64;
  }

  lemma Xors(xor: (byte, byte) -> byte)
    requires forall a, b :: xor(a, b) == XorBytes(a, b)
    ensures xor(197, 98) == 167 && xor(229, 48) == 213 && xor(79, 99) == 44 && xor(68, 99) == 39
    ensures xor(101, 114) == 23 && xor(53, 104) == 93 && xor(103, 103) == 0
  {
    XorByte(197, 98);
    XorByte(229, 48);
    XorByte(79, 99);
    XorByte(68, 99);
    XorByte(101, 114);
    XorByte(53, 104);
    XorByte(103, 103);
  }

  lemma AllSteps(xor: (byte, byte) -> byte) returns (hs: seq<u32>, ts: seq<Trace>)
    requires xor(197, 98) == 167 && xor(229, 48) == 213 && xor(79, 99) == 44 && xor(68, 99) == 39
    requires xor(101, 114) == 23 && xor(53, 104) == 93 && xor(103, 103) == 0
    ensures Linked(ts, [98, 48, 99, 99, 114, 104, 103], hs) && hs[0] == BASIS && hs[7] == 0
    ensures forall i :: 0 <= i < |ts| ==> IsStep(xor, ts[i])
  {
    hs := [2166136261, 3876335077, 2368480847, 1753225028, 2829349477, 2447350325, 103, 0];
    ts := [Trace(2166136261, 98, 197, 8461469, 167, 8461672, 3876335077),
           Trace(3876335077, 48, 229, 15141933, 213, 15142297, 2368480847),
           Trace(2368480847, 99, 79, 9251878, 44, 9252100, 1753225028),
           Trace(1753225028, 99, 68, 6848535, 39, 6848699, 2829349477),
           Trace(2829349477, 114, 101, 11052146, 23, 11052411, 2447350325),
           Trace(2447350325, 104, 53, 9559962, 93, 9560192, 103),
           Trace(103, 103, 103, 0, 0, 0, 0)];
  }

  /** A cluster name whose hash is 0: "b0ccrhg". Its nodes reject each other's frames. */
  lemma SomeClusterRejectsItself(name: seq<byte>)
    requires name == [98, 48, 99, 99, 114, 104, 103]
    ensures !Accepts(name, IdOf(name))
  {
    var xor := (a: byte, b: byte) => XorBytes(a, b);
    Xors(xor);
    var hs, ts := AllSteps(xor);
    forall i | 0 <= i < |ts| ensures Absorbed(ts[i]) {
      StepAbsorbs(xor, ts[i]);
    }
    Absorbs(name, hs, ts);
  }
}
