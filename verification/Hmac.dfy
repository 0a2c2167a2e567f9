/** HMAC-SHA256 as section 2 of RFC 2104 defines it, and the implementation over the
    streaming context. */
module Hmac {
  import opened Bytes
  import opened Sha256
  import opened Sha256Stream

  function Xor(b: byte, c: byte): byte {
    var x := (b as bv8) ^ (c as bv8);
    x as byte
  }

  function XorAll(xor: (byte, byte) -> byte, s: seq<byte>, c: byte): (r: seq<byte>)
    ensures |r| == |s|
  {
    seq(|s|, i requires 0 <= i < |s| => xor(s[i], c))
  }

  /** The key brought to the block length: hashed first if it is longer than a block. */
  function KeyBlock(o: Words, key: seq<byte>): (k: seq<byte>)
    ensures |k| == 64
  {
    if |key| > 64 then HashWith(o, key) + Zeros(32) else key + Zeros(64 - |key|)
  }

  /** H(K xor opad, H(K xor ipad, text)). */
  function HmacWith(o: Words, xor: (byte, byte) -> byte, key: seq<byte>, text: seq<byte>): (d: seq<byte>)
    ensures |d| == 32
  {
    var k := KeyBlock(o, key);
    HashWith(o, XorAll(xor, k, 0x5c) + HashWith(o, XorAll(xor, k, 0x36) + text))
  }

  function HmacSha256(key: seq<byte>, text: seq<byte>): (d: seq<byte>)
    ensures |d| == 32
  {
    HmacWith(Fips(), Xor, key, text)
  }

  function Flatten(pieces: seq<seq<byte>>): seq<byte> {
    if pieces == [] then [] else Flatten(pieces[..|pieces| - 1]) + pieces[|pieces| - 1]
  }

  /** However a message is cut into update calls, the context produces the digest of the whole. */
  method HashPieces(o: Words, pieces: seq<seq<byte>>) returns (digest: array<byte>)
    requires |o.k| == 64 && 8 * |Flatten(pieces)| < 0x1_0000_0000_0000_0000
    ensures fresh(digest) && digest.Length == 32 && digest[..] == HashWith(o, Flatten(pieces))
  {
    var ctx := new Context(o);
    for i := 0 to |pieces|
      invariant ctx.Valid() && fresh(ctx) && fresh(ctx.data) && ctx.Message() == Flatten(pieces[..i])
    {
      ctx.Update(pieces[i]);
      assert pieces[..i + 1][..i] == pieces[..i];
    }
    assert pieces[..|pieces|] == pieces;
    digest := new byte[32](i => 0);
    ctx.Final(digest);
    assert digest[..32] == digest[..];
  }

  method ComputeHmac(o: Words, xor: (byte, byte) -> byte, key: seq<byte>, text: seq<byte>) returns (digest: array<byte>)
    requires |o.k| == 64
    requires 8 * |key| < 0x1_0000_0000_0000_0000 && 8 * (64 + |text|) < 0x1_0000_0000_0000_0000
    ensures fresh(digest) && digest.Length == 32 && digest[..] == HmacWith(o, xor, key, text)
  {
    var keyBlock := FillKeyBlock(o, key);
    var outer, inner := XorPads(xor, keyBlock);
    FlattenPair(inner[..], text);
    var first := HashPieces(o, [inner[..], text]);
    FlattenPair(outer[..], first[..]);
    digest := HashPieces(o, [outer[..], first[..]]);
  }

  /** sha256_init, any number of updates, sha256_final: the digest of FIPS 180-4. */
  method Sha256Digest(pieces: seq<seq<byte>>) returns (digest: array<byte>)
    requires 8 * |Flatten(pieces)| < 0x1_0000_0000_0000_0000
    ensures fresh(digest) && digest.Length == 32 && digest[..] == Hash(Flatten(pieces))
  {
    digest := HashPieces(Fips(), pieces);
  }

  /** hmac_sha256: the digest that the handshake compares. */
  method HmacDigest(key: seq<byte>, text: seq<byte>) returns (digest: array<byte>)
    requires 8 * |key| < 0x1_0000_0000_0000_0000 && 8 * (64 + |text|) < 0x1_0000_0000_0000_0000
    ensures fresh(digest) && digest.Length == 32 && digest[..] == HmacSha256(key, text)
  {
    digest := ComputeHmac(Fips(), Xor, key, text);
  }

  method FillKeyBlock(o: Words, key: seq<byte>) returns (keyBlock: array<byte>)
    requires |o.k| == 64 && 8 * |key| < 0x1_0000_0000_0000_0000
    ensures fresh(keyBlock) && keyBlock.Length == 64 && keyBlock[..] == KeyBlock(o, key)
  {
    keyBlock := new byte[64](i => 0);
    if |key| > 64 {
      HashInto(o, key, keyBlock);
      assert keyBlock[32..] == Zeros(32);
      assert keyBlock[..] == keyBlock[..32] + keyBlock[32..];
    } else {
      CopyKey(key, keyBlock);
    }
  }

  method HashInto(o: Words, m: seq<byte>, hash: array<byte>)
    requires |o.k| == 64 && 8 * |m| < 0x1_0000_0000_0000_0000 && hash.Length >= 32
    modifies hash
    ensures hash[..32] == HashWith(o, m) && hash[32..] == old(hash[32..])
  {
    var ctx := new Context(o);
    ctx.Update(m);
    assert ctx.Message() == m;
    ctx.Final(hash);
  }

  method CopyKey(key: seq<byte>, keyBlock: array<byte>)
    requires |key| <= 64 == keyBlock.Length && keyBlock[..] == Zeros(64)
    modifies keyBlock
    ensures keyBlock[..] == key + Zeros(64 - |key|)
  {
    for i := 0 to |key|
      invariant keyBlock[..] == key[..i] + Zeros(64 - i)
    {
      keyBlock[i] := key[i];
      assert key[..i + 1] == key[..i] + [key[i]];
    }
  }

  method XorPads(xor: (byte, byte) -> byte, keyBlock: array<byte>) returns (outer: array<byte>, inner: array<byte>)
    requires keyBlock.Length == 64
    ensures fresh(outer) && fresh(inner) && outer.Length == 64 && inner.Length == 64
    ensures outer[..] == XorAll(xor, keyBlock[..], 0x5c) && inner[..] == XorAll(xor, keyBlock[..], 0x36)
  {
    outer, inner := new byte[64](i => 0), new byte[64](i => 0);
    for i := 0 to 64
      invariant forall j :: 0 <= j < i ==> outer[j] == xor(keyBlock[j], 0x5c) && inner[j] == xor(keyBlock[j], 0x36)
    {
      outer[i] := xor(keyBlock[i], 0x5c);
      inner[i] := xor(keyBlock[i], 0x36);
    }
  }

  lemma FlattenPair(a: seq<byte>, b: seq<byte>)
    ensures Flatten([a, b]) == a + b
  {
    assert [a, b][..1] == [a];
    assert [a][..0] == [];
    assert Flatten([a]) == Flatten([]) + a;
  }
}
