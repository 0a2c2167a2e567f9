/** The pool of request payload buffers: entries are numbered in the order in which their chunks
    were added, and keep their buffer between uses. */
module PayloadPool {
  import opened Bytes
  import opened Config

  const POOL_INITIAL_SIZE := 1024
  const RETAIN_LIMIT := 65536

  /** `data` is the allocated block, of `capacity` bytes; none when capacity is 0. */
  datatype Buf = Buf(inUse: bool, data: seq<byte>, len: nat)

  const EMPTY := Buf(false, [], 0)

  ghost predicate Zero(s: seq<byte>) {
    forall i :: 0 <= i < |s| ==> s[i] == 0
  }

  /** A free buffer is wiped and at most 64 KiB; a buffer in use is wiped beyond its length. */
  ghost predicate Clean(b: Buf) {
    && b.len <= |b.data|
    && Zero(b.data[b.len..])
    && (!b.inUse ==> b.len == 0 && |b.data| <= RETAIN_LIMIT)
  }

  /** The free list names each buffer that is not in use, once. */
  ghost predicate Listed(bufs: seq<Buf>, free: seq<nat>) {
    && (forall i :: 0 <= i < |free| ==> free[i] < |bufs| && !bufs[free[i]].inUse)
    && (forall i, j :: 0 <= i < j < |free| ==> free[i] != free[j])
    && (forall p {:trigger p in free} :: 0 <= p < |bufs| && !bufs[p].inUse ==> p in free)
  }

  class Pool {
    var bufs: seq<Buf>
    var free: seq<nat>

    ghost predicate Valid()
      reads this
    {
      Listed(bufs, free) && forall p :: 0 <= p < |bufs| ==> Clean(bufs[p])
    }

    constructor ()
      ensures Valid() && bufs == []
    {
      bufs, free := [], [];
    }

    method AddChunk(outOfMemory: bool) returns (ok: bool)
      requires Valid()
      modifies this
      ensures Valid() && ok == !outOfMemory
      ensures bufs == old(bufs) + (if ok then seq(POOL_INITIAL_SIZE, _ => EMPTY) else [])
      ensures |free| == |old(free)| + if ok then POOL_INITIAL_SIZE else 0
    {
      if outOfMemory {
        return false;
      }
      var first := |bufs|;
      bufs := bufs + seq(POOL_INITIAL_SIZE, _ => EMPTY);
      var i := 0;
      while i < POOL_INITIAL_SIZE
        invariant i <= POOL_INITIAL_SIZE && bufs == old(bufs) + seq(POOL_INITIAL_SIZE, _ => EMPTY)
        invariant |free| == |old(free)| + i
        invariant forall j :: 0 <= j < |free| ==> free[j] == if j < |old(free)| then old(free)[j]
                  else first + j - |old(free)|
      {
        free := free + [first + i];
        i := i + 1;
      }
      ChunkListed(old(bufs), old(free), bufs, free);
      ok := true;
    }

    /** Hands out a buffer of at least `required` bytes that nobody else uses; `junk` is what
        the allocator leaves in memory it adds. No buffer in use is touched. */
    method Get(required: nat, noChunk: bool, noMemory: bool, junk: seq<byte>) returns (r: Option<nat>)
      requires Valid() && |junk| >= required
      modifies this
      ensures Valid() && |bufs| >= |old(bufs)|
      ensures r.Some? ==>
                && r.value < |bufs| && (r.value < |old(bufs)| ==> !old(bufs)[r.value].inUse)
                && bufs[r.value].inUse && bufs[r.value].len == required <= |bufs[r.value].data|
                && (r.value < |old(bufs)| ==> |old(bufs)[r.value].data| <= |bufs[r.value].data|)
                && (r.value < |old(bufs)| ==> Zero(bufs[r.value].data[..|old(bufs)[r.value].data|]))
      ensures forall q :: 0 <= q < |old(bufs)| && r != Some(q) ==> bufs[q] == old(bufs)[q]
      ensures required == 0 || required > MAX_KEY_LEN + MAX_VALUE_LEN ==> r.None? && free == old(free)
      ensures old(free) == [] && noChunk ==> r.None?
      ensures 0 < required <= MAX_KEY_LEN + MAX_VALUE_LEN && !noChunk && !noMemory ==> r.Some?
    {
      if required == 0 || required > MAX_KEY_LEN + MAX_VALUE_LEN {
        return None;
      }
      if free == [] {
        var ok := AddChunk(noChunk);
        if !ok {
          return None;
        }
      }
      r := GrantFirst(required, noMemory, junk);
    }

    method GrantFirst(required: nat, noMemory: bool, junk: seq<byte>) returns (r: Option<nat>)
      requires Valid() && |junk| >= required && free != []
      modifies this
      ensures Valid() && |bufs| == |old(bufs)|
      ensures var p := old(free)[0];
              if |old(bufs)[p].data| < required && noMemory then r.None? && bufs == old(bufs) &&
                 free == old(free)[1..] + [p]
              else r == Some(p) && free == old(free)[1..] &&
                   bufs == old(bufs)[p := Granted(old(bufs)[p], required, junk)]
    {
      var p := free[0];
      free := free[1..];
      if |bufs[p].data| < required {
        if noMemory {
          free := free + [p];
          RotateListed(bufs, old(free), free);
          return None;
        }
      }
      bufs := bufs[p := Granted(bufs[p], required, junk)];
      GrantListed(old(bufs), old(free), bufs);
      r := Some(p);
    }

    /** The holder writes inside the length it asked for. */
    method Store(p: nat, i: nat, b: byte)
      requires Valid() && p < |bufs| && bufs[p].inUse && i < bufs[p].len
      modifies this`bufs
      ensures Valid() && bufs == old(bufs)[p := old(bufs)[p].(data := old(bufs)[p].data[i := b])]
    {
      bufs := bufs[p := bufs[p].(data := bufs[p].data[i := b])];
      assert bufs[p].data[bufs[p].len..] == old(bufs)[p].data[bufs[p].len..];
      SameUseListed(old(bufs), bufs, free);
    }

    /** Takes a buffer back: its bytes are wiped, and a block over 64 KiB is given up. */
    method Release(p: nat)
      requires Valid() && p < |bufs| && bufs[p].inUse
      modifies this
      ensures Valid() && free == old(free) + [p]
      ensures |bufs| == |old(bufs)| && bufs == old(bufs)[p := bufs[p]] && !bufs[p].inUse && Zero(bufs[p].data)
      ensures |bufs[p].data| == if |old(bufs)[p].data| > RETAIN_LIMIT then 0 else |old(bufs)[p].data|
    {
      var b := bufs[p];
      var data := seq(b.len, _ => 0) + b.data[b.len..];
      if |data| > RETAIN_LIMIT {
        data := [];
      }
      bufs := bufs[p := Buf(false, data, 0)];
      free := free + [p];
      ReleaseListedExactly(old(bufs), old(free), p, bufs[p]);
    }
  }

  /** The buffer as its holder gets it: grown if it was too small. */
  function Granted(b: Buf, required: nat, junk: seq<byte>): Buf
    requires |junk| >= required
  {
    Buf(true, if |b.data| < required then b.data + junk[|b.data|..required] else b.data, required)
  }

  lemma GrantListed(bufs: seq<Buf>, free: seq<nat>, bufs': seq<Buf>)
    requires Listed(bufs, free) && free != []
    requires |bufs'| == |bufs| && bufs'[free[0]].inUse
    requires forall p :: 0 <= p < |bufs| && p != free[0] ==> bufs'[p] == bufs[p]
    ensures Listed(bufs', free[1..])
  {
    forall p | 0 <= p < |bufs'| && !bufs'[p].inUse ensures p in free[1..] {
      assert p in free;
    }
  }

  lemma RotateListed(bufs: seq<Buf>, free: seq<nat>, free': seq<nat>)
    requires Listed(bufs, free) && free != [] && free' == free[1..] + [free[0]]
    ensures Listed(bufs, free')
  {
    forall p | 0 <= p < |bufs| && !bufs[p].inUse ensures p in free' {
      assert p in free;
      if p != free[0] {
        assert p in free[1..];
      }
    }
  }

  lemma SameUseListed(bufs: seq<Buf>, bufs': seq<Buf>, free: seq<nat>)
    requires Listed(bufs, free) && |bufs'| == |bufs|
    requires forall p :: 0 <= p < |bufs| ==> bufs'[p].inUse == bufs[p].inUse
    ensures Listed(bufs', free)
  {
  }

  /** Appending a released buffer keeps the free list exact if and only if it was in use: a
      second release lists it twice. */
  lemma ReleaseListedExactly(bufs: seq<Buf>, free: seq<nat>, p: nat, b: Buf)
    requires Listed(bufs, free) && p < |bufs| && !b.inUse
    ensures Listed(bufs[p := b], free + [p]) <==> bufs[p].inUse
  {
    var free' := free + [p];
    if bufs[p].inUse {
      forall q | 0 <= q < |bufs| && !bufs[p := b][q].inUse ensures q in free' {
        if q != p {
          assert q in free;
        }
      }
    } else {
      assert p in free;
      var i :| 0 <= i < |free| && free[i] == p;
      assert free'[i] == free'[|free|];
    }
  }

  lemma ChunkListed(bufs: seq<Buf>, free: seq<nat>, bufs': seq<Buf>, free': seq<nat>)
    requires Listed(bufs, free) && bufs' == bufs + seq(POOL_INITIAL_SIZE, _ => EMPTY)
    requires |free'| == |free| + POOL_INITIAL_SIZE
    requires forall j :: 0 <= j < |free'| ==> free'[j] == if j < |free| then free[j] else |bufs| + j - |free|
    ensures Listed(bufs', free')
  {
    forall p | 0 <= p < |bufs'| && !bufs'[p].inUse ensures p in free' {
      if p < |bufs| {
        assert p in free;
        var j :| 0 <= j < |free| && free[j] == p;
        assert free'[j] == p;
      } else {
        assert free'[|free| + p - |bufs|] == p;
      }
    }
  }
}
