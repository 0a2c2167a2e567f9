/** Bytes, fixed-width integers, their memory images on hosts of either byte
    order, and the byte-order helpers that the wire formats are built from. */
module Bytes {

  type byte = x: int | 0 <= x < 0x100
  type u16 = x: int | 0 <= x < 0x1_0000
  type u32 = x: int | 0 <= x < 0x1_0000_0000
  type u64 = x: int | 0 <= x < 0x1_0000_0000_0000_0000

  datatype Option<+T> = None | Some(value: T)

  datatype ByteOrder = LittleEndian | BigEndian

  ghost function Pow256(w: nat): (p: nat)
    ensures p > 0
  {
    if w == 0 then 1 else 256 * Pow256(w - 1)
  }

  lemma Pow256Values()
    ensures Pow256(1) == 0x100 && Pow256(2) == 0x1_0000 && Pow256(4) == 0x1_0000_0000
    ensures Pow256(8) == 0x1_0000_0000_0000_0000
  {
    assert Pow256(1) == 256 * Pow256(0);
    assert Pow256(2) == 256 * Pow256(1);
    assert Pow256(3) == 256 * Pow256(2);
    assert Pow256(4) == 256 * Pow256(3);
    assert Pow256(5) == 256 * Pow256(4);
    assert Pow256(6) == 256 * Pow256(5);
    assert Pow256(7) == 256 * Pow256(6);
    assert Pow256(8) == 256 * Pow256(7);
  }

  // ----- Big-endian images -----

  function Big(w: nat, v: nat): (s: seq<byte>)
    ensures |s| == w
  {
    if w == 0 then [] else Big(w - 1, v / 256) + [v % 256]
  }

  function FromBig(s: seq<byte>): (v: nat)
  {
    if s == [] then 0 else FromBig(s[..|s| - 1]) * 256 + s[|s| - 1]
  }

  lemma {:induction false} FromBigOfBig(w: nat, v: nat)
    requires v < Pow256(w)
    ensures FromBig(Big(w, v)) == v
  {
    if w > 0 {
      FromBigOfBig(w - 1, v / 256);
      assert Big(w, v)[..w - 1] == Big(w - 1, v / 256);
    }
  }

  lemma {:induction false} BigOfFromBig(s: seq<byte>)
    ensures FromBig(s) < Pow256(|s|)
    ensures Big(|s|, FromBig(s)) == s
  {
    if s != [] {
      var front := s[..|s| - 1];
      BigOfFromBig(front);
      assert s == front + [s[|s| - 1]];
    }
  }

  lemma {:induction false} BigSplit(a: nat, b: nat, hi: nat, lo: nat)
    requires lo < Pow256(b)
    ensures Big(a + b, hi * Pow256(b) + lo) == Big(a, hi) + Big(b, lo)
  {
    if b > 0 {
      var p, q := Pow256(b - 1), hi * Pow256(b - 1);
      MultiplyBy256(hi, p);
      var x := hi * Pow256(b) + lo;
      assert x == 256 * q + lo;
      DivideBy256(q, lo);
      BigSplit(a, b - 1, hi, lo / 256);
      assert Big(a + b, x) == Big(a + b - 1, x / 256) + [x % 256];
    }
  }

  lemma MultiplyBy256(h: nat, p: nat)
    ensures h * (256 * p) == 256 * (h * p)
  {
  }

  lemma DivideBy256(q: nat, lo: nat)
    ensures (256 * q + lo) / 256 == q + lo / 256
    ensures (256 * q + lo) % 256 == lo % 256
  {
  }

  // ----- Host memory images -----

  function Reverse(s: seq<byte>): (r: seq<byte>)
    ensures |r| == |s|
    ensures forall i :: 0 <= i < |s| ==> r[i] == s[|s| - 1 - i]
  {
    seq(|s|, i requires 0 <= i < |s| => s[|s| - 1 - i])
  }

  lemma ReverseTwice(s: seq<byte>)
    ensures Reverse(Reverse(s)) == s
  {
  }

  /** The bytes that an unsigned integer of `w` bytes occupies in host memory. */
  function Store(order: ByteOrder, w: nat, v: nat): (s: seq<byte>)
    ensures |s| == w
  {
    if order.BigEndian? then Big(w, v) else Reverse(Big(w, v))
  }

  /** The unsigned integer held by a host memory image. */
  function Load(order: ByteOrder, s: seq<byte>): (v: nat)
  {
    FromBig(if order.BigEndian? then s else Reverse(s))
  }

  lemma LoadOfStore(order: ByteOrder, w: nat, v: nat)
    requires v < Pow256(w)
    ensures Load(order, Store(order, w, v)) == v
  {
    FromBigOfBig(w, v);
    ReverseTwice(Big(w, v));
  }

  lemma StoreOfLoad(order: ByteOrder, s: seq<byte>)
    ensures Load(order, s) < Pow256(|s|)
    ensures Store(order, |s|, Load(order, s)) == s
  {
    if order.BigEndian? {
      BigOfFromBig(s);
    } else {
      BigOfFromBig(Reverse(s));
      ReverseTwice(s);
    }
  }

  // ----- Network byte order -----

  /** htons and htonl: the integer whose host image is the big-endian image of v.
      ntohs and ntohl are the same permutation. */
  function HostToNet(order: ByteOrder, w: nat, v: nat): (r: nat)
  {
    Load(order, Big(w, v))
  }

  /** htonll as the protocol header builds it: the two 32-bit halves of the host
      image are byte-swapped by htonl and put back in exchanged positions. */
  function Htonll(order: ByteOrder, v: nat): (r: nat)
  {
    var image := Store(order, 8, v);
    var first := Load(order, image[..4]);
    var second := Load(order, image[4..]);
    HostToNet(order, 4, first) * 0x1_0000_0000 + HostToNet(order, 4, second)
  }

  lemma HostToNetImage(order: ByteOrder, w: nat, v: nat)
    requires v < Pow256(w)
    ensures HostToNet(order, w, v) < Pow256(w)
    ensures Store(order, w, HostToNet(order, w, v)) == Big(w, v)
    ensures HostToNet(order, w, Load(order, Big(w, v))) == v
  {
    StoreOfLoad(order, Big(w, v));
    LoadOfStore(order, w, HostToNet(order, w, v));
    FromBigOfBig(w, v);
    ReverseTwice(Big(w, Load(order, Big(w, v))));
  }

  lemma SplitImage(order: ByteOrder, hi: nat, lo: nat)
    requires hi < Pow256(4) && lo < Pow256(4)
    ensures var image := Store(order, 8, hi * 0x1_0000_0000 + lo);
            image == if order.BigEndian? then Store(order, 4, hi) + Store(order, 4, lo)
                                         else Store(order, 4, lo) + Store(order, 4, hi)
  {
    Pow256Values();
    BigSplit(4, 4, hi, lo);
    if order.LittleEndian? {
      assert Reverse(Big(4, hi) + Big(4, lo)) == Reverse(Big(4, lo)) + Reverse(Big(4, hi));
    }
  }

  /** On hosts of either byte order the header's 64-bit swap produces the
      big-endian image. */
  lemma HtonllImage(order: ByteOrder, v: u64)
    ensures 0 <= Htonll(order, v) < 0x1_0000_0000_0000_0000
    ensures Store(order, 8, Htonll(order, v)) == Big(8, v)
  {
    var hi, lo := v / 0x1_0000_0000, v % 0x1_0000_0000;
    var a, b := SwappedHalves(order, hi, lo);
    ImageOfHalves(order, a, b, hi, lo);
    HtonllHalves(order, v);
  }

  lemma SwappedHalves(order: ByteOrder, hi: u32, lo: u32) returns (a: u32, b: u32)
    ensures a == HostToNet(order, 4, hi) && b == HostToNet(order, 4, lo)
    ensures Store(order, 4, a) == Big(4, hi) && Store(order, 4, b) == Big(4, lo)
  {
    Pow256Values();
    HostToNetImage(order, 4, hi);
    HostToNetImage(order, 4, lo);
    a, b := HostToNet(order, 4, hi), HostToNet(order, 4, lo);
  }

  lemma ImageOfHalves(order: ByteOrder, a: u32, b: u32, hi: u32, lo: u32)
    requires Store(order, 4, a) == Big(4, hi) && Store(order, 4, b) == Big(4, lo)
    ensures Store(order, 8, if order.BigEndian? then a * 0x1_0000_0000 + b else b * 0x1_0000_0000 + a) ==
            Big(8, hi * 0x1_0000_0000 + lo)
  {
    Pow256Values();
    BigSplit(4, 4, hi, lo);
    if order.BigEndian? {
      SplitImage(order, a, b);
    } else {
      SplitImage(order, b, a);
    }
  }

  /** Applying the same swap to a received big-endian image restores the value. */
  lemma NtohllOfImage(order: ByteOrder, v: u64)
    ensures Htonll(order, Load(order, Big(8, v))) == v
  {
    Pow256Values();
    HtonllImage(order, v);
    LoadOfStore(order, 8, Htonll(order, v));
    NtohllHalves(order, v, Load(order, Big(8, v)));
  }

  lemma NtohllHalves(order: ByteOrder, v: u64, net: u64)
    requires Store(order, 8, net) == Big(8, v)
    ensures Htonll(order, net) == v
  {
    Pow256Values();
    var hi, lo := v / 0x1_0000_0000, v % 0x1_0000_0000;
    BigSplit(4, 4, hi, lo);
    var image := Store(order, 8, net);
    assert image[..4] == Big(4, hi) && image[4..] == Big(4, lo);
    HostToNetImage(order, 4, hi);
    HostToNetImage(order, 4, lo);
  }

  /** The two stored halves of a host image, swapped one by one. */
  lemma HtonllOfImage(order: ByteOrder, v: u64, first: u32, second: u32)
    requires Store(order, 8, v) == Store(order, 4, first) + Store(order, 4, second)
    ensures Htonll(order, v) == HostToNet(order, 4, first) * 0x1_0000_0000 + HostToNet(order, 4, second)
  {
    Pow256Values();
    LoadOfStore(order, 4, first);
    LoadOfStore(order, 4, second);
    var image := Store(order, 8, v);
    assert image[..4] == Store(order, 4, first) && image[4..] == Store(order, 4, second);
  }

  lemma HtonllHalves(order: ByteOrder, v: u64)
    ensures var hi, lo := v / 0x1_0000_0000, v % 0x1_0000_0000;
            Htonll(order, v) ==
            if order.BigEndian? then HostToNet(order, 4, hi) * 0x1_0000_0000 + HostToNet(order, 4, lo)
                                else HostToNet(order, 4, lo) * 0x1_0000_0000 + HostToNet(order, 4, hi)
  {
    Pow256Values();
    var hi, lo := v / 0x1_0000_0000, v % 0x1_0000_0000;
    SplitImage(order, hi, lo);
    if order.BigEndian? {
      HtonllOfImage(order, v, hi, lo);
    } else {
      HtonllOfImage(order, v, lo, hi);
    }
  }

  /** ntohs or ntohl of a received field, on a host of any byte order. */
  method NetField(order: ByteOrder, s: seq<byte>) returns (v: nat)
    ensures v == FromBig(s)
  {
    BigOfFromBig(s);
    HostToNetImage(order, |s|, FromBig(s));
    v := HostToNet(order, |s|, Load(order, s));
  }

  /** ntohll of a received field. */
  method NetField64(order: ByteOrder, s: seq<byte>) returns (v: nat)
    requires |s| == 8
    ensures v == FromBig(s)
  {
    BigOfFromBig(s);
    Pow256Values();
    NtohllOfImage(order, FromBig(s));
    v := Htonll(order, Load(order, s));
  }
}
