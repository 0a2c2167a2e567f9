/** The fixed-size object pool: free slots are chained through the first word of each slot.
    Slots are indices; `links[i]` is the first word of slot i, which the owner of a live slot
    may overwrite at will. */
module HeapPool {
  import opened Bytes

  /** (unsigned)-1, the end of the free list. */
  const NIL: u32 := 0xFFFF_FFFF

  /** `free` lists the slots met by following the links from `head` to the end. */
  ghost predicate Chain(links: seq<u32>, head: u32, free: seq<nat>)
    decreases |free|
  {
    if free == [] then head == NIL
    else head != NIL && head == free[0] && head < |links| && Chain(links, links[head], free[1..])
  }

  /** A walk from `head` comes to an end. */
  ghost predicate Ends(links: seq<u32>, head: u32) {
    exists c :: Chain(links, head, c)
  }

  lemma {:induction false} ChainIsUnique(links: seq<u32>, head: u32, a: seq<nat>, b: seq<nat>)
    requires Chain(links, head, a) && Chain(links, head, b)
    ensures a == b
    decreases |a|
  {
    if a != [] {
      ChainIsUnique(links, links[head], a[1..], b[1..]);
      assert a == [a[0]] + a[1..] && b == [b[0]] + b[1..];
    }
  }

  lemma {:induction false} ChainFrom(links: seq<u32>, head: u32, free: seq<nat>, i: nat)
    requires Chain(links, head, free) && i < |free|
    ensures free[i] < |links| && free[i] < NIL && Chain(links, free[i], free[i..])
    decreases i
  {
    if i > 0 {
      ChainFrom(links, links[head], free[1..], i - 1);
      assert free[1..][i - 1..] == free[i..];
    }
  }

  /** A free list that ends has no slot twice: otherwise it would go round for ever. */
  lemma ChainIsDistinct(links: seq<u32>, head: u32, free: seq<nat>, i: nat, j: nat)
    requires Chain(links, head, free) && i < j < |free|
    ensures free[i] != free[j]
  {
    ChainFrom(links, head, free, i);
    ChainFrom(links, head, free, j);
    if free[i] == free[j] {
      ChainIsUnique(links, free[i], free[i..], free[j..]);
    }
  }

  /** Writing the first word of a slot that is not free leaves the free list as it is. */
  lemma {:induction false} ChainIgnores(links: seq<u32>, head: u32, free: seq<nat>, k: nat, w: u32)
    requires Chain(links, head, free) && k < |links| && k !in free
    ensures Chain(links[k := w], head, free)
    decreases |free|
  {
    if free != [] {
      ChainIgnores(links, links[head], free[1..], k, w);
    }
  }

  /** A chain follows the old links up to the slot that was rewritten. */
  lemma {:induction false} ChainMeets(links: seq<u32>, head: u32, free: seq<nat>, k: nat, w: u32, c: seq<nat>)
    returns (p: nat)
    requires Chain(links, head, free) && k in free && k < |links| && Chain(links[k := w], head, c)
    ensures p < |c| && c[p] == k
    decreases |free|
  {
    if head == k {
      return 0;
    }
    p := ChainMeets(links, links[head], free[1..], k, w, c[1..]);
    p := p + 1;
  }

  /** Freeing slot k keeps the free list finite if and only if k was not free already: a second
      free closes the list into a ring that no walk leaves. */
  lemma FreeKeepsChainExactly(links: seq<u32>, head: u32, free: seq<nat>, k: u32)
    requires Chain(links, head, free) && k < |links| && k != NIL
    ensures Ends(links[k := head], k) <==> k !in free
    ensures k !in free ==> Chain(links[k := head], k, [k] + free)
  {
    var links' := links[k := head];
    if k !in free {
      ChainIgnores(links, head, free, k, head);
      assert ([k] + free)[1..] == free;
      assert Chain(links', k, [k] + free);
    } else {
      forall c | Chain(links', k, c) ensures false {
        var p := ChainMeets(links, head, free, k, head, c[1..]);
        ChainFrom(links', k, c, p + 1);
        ChainIsUnique(links', k, c, c[p + 1..]);
      }
    }
  }

  function UpTo(n: nat): (s: set<nat>)
    ensures forall i :: i in s <==> 0 <= i < n
    ensures |s| == n
  {
    if n == 0 then {} else UpTo(n - 1) + {n - 1}
  }

  function Elements(s: seq<nat>): set<nat> {
    set x | x in s
  }

  lemma {:induction false} SizeOfChain(links: seq<u32>, head: u32, free: seq<nat>)
    requires Chain(links, head, free)
    ensures |Elements(free)| == |free| && Elements(free) <= UpTo(|links|)
    decreases |free|
  {
    if free == [] {
      assert Elements(free) == {};
    } else {
      SizeOfChain(links, links[head], free[1..]);
      if free[0] in free[1..] {
        var i :| 0 <= i < |free| - 1 && free[1..][i] == free[0];
        ChainIsDistinct(links, head, free, 0, i + 1);
      }
      assert free == [free[0]] + free[1..];
      assert Elements(free) == {free[0]} + Elements(free[1..]);
    }
  }

  class HeapPool {
    const objSize: nat
    const capacity: u32
    const links: array<u32>
    var freeHead: u32
    ghost var free: seq<nat>

    ghost predicate Valid()
      reads this, links
    {
      && 0 < objSize && 0 < capacity == links.Length
      && Chain(links[..], freeHead, free)
    }

    ghost function Live(): set<nat>
      reads this
    {
      UpTo(capacity) - Elements(free)
    }

    /** Chains slot i to slot i + 1; every slot is free. The caller has checked the sizes. */
    constructor (objSize: nat, capacity: u32)
      requires objSize >= 4 && 0 < capacity
      ensures Valid() && fresh(links) && Live() == {}
      ensures this.objSize == objSize && this.capacity == capacity && |free| == capacity
    {
      this.objSize, this.capacity := objSize, capacity;
      links := new u32[capacity];
      freeHead := 0;
      new;
      var i := 0;
      while i < capacity - 1
        invariant 0 <= i < capacity && freeHead == 0 && forall k :: 0 <= k < i ==> links[k] == k + 1
      {
        links[i] := i + 1;
        i := i + 1;
      }
      links[capacity - 1] := NIL;
      free := Ascending(links[..], 0);
    }

    /** Takes the head of the free list, zeroed. Fails only when every slot is live, and never
        hands out a live slot. */
    method Alloc() returns (slot: Option<nat>)
      requires Valid()
      modifies this, links
      ensures Valid()
      ensures slot.None? <==> old(Live()) == UpTo(capacity)
      ensures slot.None? ==> free == old(free) == []
      ensures slot.Some? ==>
                && slot.value < capacity && slot.value !in old(Live()) && Live() == old(Live()) + {slot.value}
                && old(free) == [slot.value] + free && links[slot.value] == 0
    {
      SizeOfChain(links[..], freeHead, free);
      if freeHead == NIL {
        return None;
      }
      var idx := freeHead;
      freeHead := links[idx];
      free := free[1..];
      assert old(free) == [idx] + free;
      if idx in free {
        var i :| 0 <= i < |free| && free[i] == idx;
        ChainIsDistinct(links[..], idx, old(free), 0, i + 1);
      }
      ChainIgnores(links[..], freeHead, free, idx, 0);
      links[idx] := 0;
      assert links[..] == old(links[..])[idx := 0];
      slot := Some(idx);
    }

    /** The owner of a live slot writes to it: the pool does not notice. */
    method Scribble(slot: nat, w: u32)
      requires Valid() && slot in Live()
      modifies links
      ensures Valid() && Live() == old(Live())
    {
      ChainIgnores(links[..], freeHead, free, slot, w);
      links[slot] := w;
      assert links[..] == old(links[..])[slot := w];
    }

    /** Gives back the object at a byte offset into the buffer. Offsets outside the buffer or
        inside a slot change nothing. */
    method Free(offset: int)
      requires Valid()
      requires 0 <= offset < capacity * objSize && offset % objSize == 0 ==> offset / objSize in Live()
      modifies this, links
      ensures Valid()
      ensures if 0 <= offset < capacity * objSize && offset % objSize == 0
              then free == [offset / objSize] + old(free) && Live() == old(Live()) - {offset / objSize}
              else free == old(free) && links[..] == old(links[..])
    {
      if offset < 0 || offset >= capacity * objSize {
        return;
      }
      if offset % objSize != 0 {
        return;
      }
      var idx := offset / objSize;
      FreeKeepsChainExactly(links[..], freeHead, free, idx);
      links[idx] := freeHead;
      assert links[..] == old(links[..])[idx := old(freeHead)];
      freeHead := idx;
      free := [idx] + free;
      assert Elements(free) == {idx} + Elements(old(free));
    }

    /** Counts the live objects by walking the free list; the walk ends. */
    method Used() returns (n: nat)
      requires Valid()
      ensures n == |Live()|
    {
      SizeOfChain(links[..], freeHead, free);
      assert UpTo(capacity) * Elements(free) == Elements(free);
      assert |Live()| == capacity - |free|;
      var freeCount := 0;
      var idx := freeHead;
      while idx != NIL
        invariant freeCount <= |free| && Chain(links[..], idx, free[freeCount..])
        decreases |free| - freeCount
      {
        freeCount := freeCount + 1;
        idx := links[idx];
        assert free[freeCount - 1..][1..] == free[freeCount..];
      }
      n := capacity - freeCount;
    }
  }

  lemma {:induction false} Ascending(links: seq<u32>, i: u32) returns (free: seq<nat>)
    requires i < |links| <= NIL
    requires forall k :: 0 <= k < |links| - 1 ==> links[k] == k + 1
    requires links[|links| - 1] == NIL
    ensures Chain(links, i, free) && |free| == |links| - i
    ensures forall k :: k in free <==> i <= k < |links|
    decreases |links| - i
  {
    var rest := [];
    if i < |links| - 1 {
      rest := Ascending(links, i + 1);
    }
    free := [i] + rest;
    assert free[1..] == rest;
  }

  /** dmmr_heap_pool_init: no pool for objects too small to hold a link, for no objects, or when
      memory is short. */
  method Init(objSize: nat, capacity: u32, outOfMemory: bool) returns (pool: HeapPool?)
    ensures pool == null <==> objSize < 4 || capacity == 0 || outOfMemory
    ensures pool != null ==>
              && fresh(pool) && fresh(pool.links) && pool.Valid() && pool.Live() == {}
              && pool.objSize == objSize && pool.capacity == capacity && |pool.free| == capacity
  {
    if objSize == 0 || capacity == 0 {
      return null;
    }
    if objSize < 4 {
      return null;
    }
    if outOfMemory {
      return null;
    }
    pool := new HeapPool(objSize, capacity);
  }
}
