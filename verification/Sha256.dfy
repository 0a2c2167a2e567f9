/** SHA-256 as a whole-message definition (FIPS 180-4, sections 4 to 6) and the streaming
    implementation that must agree with it. */
module Sha256 {
  import opened Bytes

  type word = bv32

  /** The word functions and constants of section 4. The hash computation and the streaming
      implementation are written over them, and their agreement does not depend on what
      they are. */
  datatype Words = Words(
    add: (word, word) -> word,
    ch: (word, word, word) -> word,
    maj: (word, word, word) -> word,
    bigSigma0: word -> word,
    bigSigma1: word -> word,
    smallSigma0: word -> word,
    smallSigma1: word -> word,
    load: (byte, byte, byte, byte) -> word,
    part: (word, nat) -> byte,
    k: seq<word>,
    h0: Vars)

  datatype Vars = Vars(a: word, b: word, c: word, d: word, e: word, f: word, g: word, h: word)

  // ----- Section 4.1.2: functions -----

  function Rotr(x: word, n: nat): word
    requires 0 < n < 32
  {
    (x >> n) | (x << (32 - n))
  }

  function Ch(x: word, y: word, z: word): word { (x & y) ^ (!x & z) }
  function Maj(x: word, y: word, z: word): word { (x & y) ^ (x & z) ^ (y & z) }
  function BigSigma0(x: word): word { Rotr(x, 2) ^ Rotr(x, 13) ^ Rotr(x, 22) }
  function BigSigma1(x: word): word { Rotr(x, 6) ^ Rotr(x, 11) ^ Rotr(x, 25) }
  function SmallSigma0(x: word): word { Rotr(x, 7) ^ Rotr(x, 18) ^ (x >> 3) }
  function SmallSigma1(x: word): word { Rotr(x, 17) ^ Rotr(x, 19) ^ (x >> 10) }

  /** Four bytes as a big-endian word. */
  function LoadWord(b0: byte, b1: byte, b2: byte, b3: byte): word {
    ((b0 as bv32) << 24) | ((b1 as bv32) << 16) | ((b2 as bv32) << 8) | (b3 as bv32)
  }

  /** The i-th byte of a word, most significant first. */
  function WordByte(w: word, i: nat): byte {
    Part(w, i) as byte
  }

  function Part(w: word, i: nat): (x: word)
    ensures x < 256
  {
    if i == 0 then (w >> 24) & 0xff
    else if i == 1 then (w >> 16) & 0xff
    else if i == 2 then (w >> 8) & 0xff
    else w & 0xff
  }

  /** Four digits to the base 256, most significant first. */
  function Positional(x0: word, x1: word, x2: word, x3: word): word {
    ((x0 * 256 + x1) * 256 + x2) * 256 + x3
  }

  lemma ShiftsArePositional(x0: word, x1: word, x2: word, x3: word)
    requires x0 < 256 && x1 < 256 && x2 < 256 && x3 < 256
    ensures (x0 << 24) | (x1 << 16) | (x2 << 8) | x3 == Positional(x0, x1, x2, x3)
  {
  }

  /** Loading by shifts reads four bytes as a big-endian number. */
  lemma LoadIsPositional(b0: byte, b1: byte, b2: byte, b3: byte)
    ensures LoadWord(b0, b1, b2, b3) == Positional(b0 as bv32, b1 as bv32, b2 as bv32, b3 as bv32)
  {
    Small(b0);
    Small(b1);
    Small(b2);
    Small(b3);
    ShiftsArePositional(b0 as bv32, b1 as bv32, b2 as bv32, b3 as bv32);
  }

  lemma Small(b: byte)
    ensures (b as bv32) < 256
  {
  }

  /** The four parts of a word, in order, are its big-endian digits. */
  lemma WordIsItsParts(w: word)
    ensures Positional(Part(w, 0), Part(w, 1), Part(w, 2), Part(w, 3)) == w
  {
    DigitsOf(w);
  }

  lemma DigitsOf(w: word)
    ensures Positional((w >> 24) & 0xff, (w >> 16) & 0xff, (w >> 8) & 0xff, w & 0xff) == w
  {
  }

  // ----- Sections 4.2.2 and 5.3.3: constants -----

  function RoundConstants(): seq<word> {
    [0x428a2f98, 0x71374491, 0xb5c0fbcf, 0xe9b5dba5, 0x3956c25b, 0x59f111f1, 0x923f82a4, 0xab1c5ed5,
     0xd807aa98, 0x12835b01, 0x243185be, 0x550c7dc3, 0x72be5d74, 0x80deb1fe, 0x9bdc06a7, 0xc19bf174,
     0xe49b69c1, 0xefbe4786, 0x0fc19dc6, 0x240ca1cc, 0x2de92c6f, 0x4a7484aa, 0x5cb0a9dc, 0x76f988da,
     0x983e5152, 0xa831c66d, 0xb00327c8, 0xbf597fc7, 0xc6e00bf3, 0xd5a79147, 0x06ca6351, 0x14292967,
     0x27b70a85, 0x2e1b2138, 0x4d2c6dfc, 0x53380d13, 0x650a7354, 0x766a0abb, 0x81c2c92e, 0x92722c85,
     0xa2bfe8a1, 0xa81a664b, 0xc24b8b70, 0xc76c51a3, 0xd192e819, 0xd6990624, 0xf40e3585, 0x106aa070,
     0x19a4c116, 0x1e376c08, 0x2748774c, 0x34b0bcb5, 0x391c0cd3, 0x4ed8aa4a, 0x5b9cca4f, 0x682e6ff3,
     0x748f82ee, 0x78a5636f, 0x84c87814, 0x8cc70208, 0x90befffa, 0xa4506ceb, 0xbef9a3f7, 0xc67178f2]
  }

  /** The functions and constants of SHA-256. */
  function Fips(): (o: Words)
    ensures |o.k| == 64
  {
    Words((x, y) => x + y, Ch, Maj, BigSigma0, BigSigma1, SmallSigma0, SmallSigma1, LoadWord, WordByte,
      RoundConstants(),
          Vars(0x6a09e667, 0xbb67ae85, 0x3c6ef372, 0xa54ff53a, 0x510e527f, 0x9b05688c, 0x1f83d9ab, 0x5be0cd19))
  }

  // ----- Section 5.1.1: padding -----

  /** The zero bytes that follow the byte holding the 1 bit. */
  function ZeroCount(n: nat): nat {
    (119 - n % 64) % 64
  }

  function Zeros(n: nat): (z: seq<byte>)
    ensures |z| == n
  {
    seq(n, i => 0)
  }

  function Pad(m: seq<byte>): seq<byte> {
    m + [0x80] + Zeros(ZeroCount(|m|)) + Big(8, 8 * |m|)
  }

  /** Counted in bits, 7 + 8 * ZeroCount zeros is the smallest number k for which a message of
      l bits has l + 1 + k equal to 448 modulo 512. */
  lemma PaddingIsLeast(m: seq<byte>, k: nat)
    ensures (8 * |m| + 1 + (7 + 8 * ZeroCount(|m|))) % 512 == 448
    ensures (8 * |m| + 1 + k) % 512 == 448 ==> k >= 7 + 8 * ZeroCount(|m|)
  {
    var q, r, z := |m| / 64, |m| % 64, ZeroCount(|m|);
    assert z == 55 - r || z == 119 - r;
    assert 8 * |m| + 8 + 8 * z == if z == 55 - r then 512 * q + 448 else 512 * (q + 1) + 448;
    var p := (8 * |m| + 1 + k) / 512;
    if (8 * |m| + 1 + k) % 512 == 448 {
      assert 8 * |m| + 1 + k == 512 * p + 448;
    }
  }

  lemma PadIsBlocks(m: seq<byte>)
    ensures |Pad(m)| % 64 == 0
  {
    PaddedLength(|m|);
  }

  lemma PaddedLength(n: nat)
    ensures (n + 1 + ZeroCount(n) + 8) % 64 == 0
  {
    var q, r, z := n / 64, n % 64, ZeroCount(n);
    assert z == 55 - r || z == 119 - r;
    assert n + 1 + z + 8 == if z == 55 - r then 64 * (q + 1) else 64 * (q + 2);
  }

  // ----- Section 6.2: hash computation -----

  function Schedule(o: Words, block: seq<byte>, t: nat): word
    requires |block| == 64 && t < 64
  {
    if t < 16 then o.load(block[4 * t], block[4 * t + 1], block[4 * t + 2], block[4 * t + 3])
    else o.add(o.add(o.add(o.smallSigma1(Schedule(o, block, t - 2)), Schedule(o, block, t - 7)),
                     o.smallSigma0(Schedule(o, block, t - 15))), Schedule(o, block, t - 16))
  }

  function Round(o: Words, v: Vars, k: word, w: word): Vars {
    var t1 := o.add(o.add(o.add(o.add(v.h, o.bigSigma1(v.e)), o.ch(v.e, v.f, v.g)), k), w);
    var t2 := o.add(o.bigSigma0(v.a), o.maj(v.a, v.b, v.c));
    Vars(o.add(t1, t2), v.a, v.b, v.c, o.add(v.d, t1), v.e, v.f, v.g)
  }

  function Rounds(o: Words, v: Vars, block: seq<byte>, t: nat): Vars
    requires |o.k| == 64 && |block| == 64 && t <= 64
  {
    if t == 0 then v else Round(o, Rounds(o, v, block, t - 1), o.k[t - 1], Schedule(o, block, t - 1))
  }

  function Compress(o: Words, v: Vars, block: seq<byte>): Vars
    requires |o.k| == 64 && |block| == 64
  {
    var u := Rounds(o, v, block, 64);
    Vars(o.add(v.a, u.a), o.add(v.b, u.b), o.add(v.c, u.c), o.add(v.d, u.d),
         o.add(v.e, u.e), o.add(v.f, u.f), o.add(v.g, u.g), o.add(v.h, u.h))
  }

  /** Compression as a function on all byte strings; only blocks are ever passed to it. */
  function Compression(o: Words): (Vars, seq<byte>) -> Vars {
    (v, block) => if |o.k| == 64 && |block| == 64 then Compress(o, v, block) else v
  }

  /** Section 6.2.2: the blocks of a padded message folded into the initial value. */
  function Fold(f: (Vars, seq<byte>) -> Vars, v: Vars, s: seq<byte>): Vars
    requires |s| % 64 == 0
  {
    if s == [] then v else f(Fold(f, v, s[..|s| - 64]), s[|s| - 64..])
  }

  function WordAt(v: Vars, j: nat): word {
    if j == 0 then v.a else if j == 1 then v.b else if j == 2 then v.c else if j == 3 then v.d
    else if j == 4 then v.e else if j == 5 then v.f else if j == 6 then v.g else v.h
  }

  /** The eight words in order, each most significant byte first. */
  function Digest(o: Words, v: Vars): (s: seq<byte>)
    ensures |s| == 32
  {
    seq<byte>(32, p requires 0 <= p < 32 => o.part(WordAt(v, p / 4), p % 4))
  }

  function HashWith(o: Words, m: seq<byte>): (s: seq<byte>)
    ensures |s| == 32
  {
    PadIsBlocks(m);
    Digest(o, Fold(Compression(o), o.h0, Pad(m)))
  }

  function Hash(m: seq<byte>): (s: seq<byte>)
    ensures |s| == 32
  {
    HashWith(Fips(), m)
  }
}
