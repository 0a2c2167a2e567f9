/** The broadcast queue between the threads that produce commands and those that send them.
    Commands live in the slots of a fixed pool; a step is one section under the pool's or the
    queue's mutex, or a producer filling the slot it holds, and steps of all threads interleave
    freely. */
module ControlQueue {
  import opened Bytes
  import opened Config
  import opened Lww
  import HeapPool

  /** QUEUE_MAX * 2 */
  const CAPACITY := 256
  const HIGH_WATERMARK := 50

  type Thread = nat

  datatype Hold = Hold(slot: nat, producing: bool)

  /** Free slots in list order, queued slots in queue order, the size counter, who holds which
      slot, the slots' contents; then every command ever queued and ever taken, in order. */
  datatype State = State(
    free: seq<nat>,
    queue: seq<nat>,
    size: int,
    held: map<Thread, Hold>,
    content: seq<Write>,
    queued: seq<Write>,
    taken: seq<Write>)

  datatype Event =
    | Alloc(thread: Thread)
    | Fill(thread: Thread, write: Write)
    | Enqueue(thread: Thread)
    | TakeControl(thread: Thread)
    | TakeBroadcast(thread: Thread)
    | FreeCmd(thread: Thread)

  /** A command holds at most MAX_KEY_LEN bytes of key and MAX_VALUE_LEN bytes of value. */
  function Clip(w: Write): Write {
    Write(if |w.key| > MAX_KEY_LEN then w.key[..MAX_KEY_LEN] else w.key,
          w.rec.(value := if |w.rec.value| > MAX_VALUE_LEN then w.rec.value[..MAX_VALUE_LEN] else w.rec.value))
  }

  function Take(s: State, t: Thread): State
    requires s.queue != [] && s.queue[0] < |s.content|
  {
    s.(held := s.held[t := Hold(s.queue[0], false)], queue := s.queue[1..], size := s.size - 1,
       taken := s.taken + [s.content[s.queue[0]]])
  }

  function Step(s: State, e: Event): State {
    var t := e.thread;
    match e
    case Alloc(_) =>
      if t in s.held || s.free == [] then s
      else s.(held := s.held[t := Hold(s.free[0], true)], free := s.free[1..])
    case Fill(_, w) =>
      if t in s.held && s.held[t].producing && s.held[t].slot < |s.content|
      then s.(content := s.content[s.held[t].slot := Clip(w)]) else s
    case Enqueue(_) =>
      if t in s.held && s.held[t].producing && s.held[t].slot < |s.content|
      then s.(queue := s.queue + [s.held[t].slot], size := s.size + 1, held := s.held - {t},
              queued := s.queued + [s.content[s.held[t].slot]])
      else s
    case TakeControl(_) =>
      if t in s.held || s.queue == [] || s.queue[0] >= |s.content| then s else Take(s, t)
    case TakeBroadcast(_) =>
      if t in s.held || s.size <= HIGH_WATERMARK || s.queue == [] || s.queue[0] >= |s.content| then s else Take(s, t)
    case FreeCmd(_) =>
      if t in s.held then s.(free := [s.held[t].slot] + s.free, held := s.held - {t}) else s
  }

  ghost predicate IsInit(s: State) {
    && Slots(s) && s.queue == [] && s.size == 0 && s.held == map[] && s.queued == [] && s.taken == []
  }

  function Run(s: State, es: seq<Event>): State {
    if es == [] then s else Step(Run(s, es[..|es| - 1]), es[|es| - 1])
  }

  // ----- What every step keeps -----

  ghost predicate Distinct(s: seq<nat>) {
    forall i, j :: 0 <= i < j < |s| ==> s[i] != s[j]
  }

  ghost predicate Apart(s: seq<nat>, t: seq<nat>) {
    forall i, j :: 0 <= i < |s| && 0 <= j < |t| ==> s[i] != t[j]
  }

  ghost predicate HeldApart(s: State) {
    && (forall t :: t in s.held ==>
          s.held[t].slot < CAPACITY && s.held[t].slot !in s.free && s.held[t].slot !in s.queue)
    && (forall t, u :: t in s.held && u in s.held && t != u ==> s.held[t].slot != s.held[u].slot)
  }

  /** Each of the 256 slots is in exactly one place: free, queued once, or held by one thread. */
  ghost predicate Slots(s: State) {
    && |s.content| == CAPACITY
    && |s.free| + |s.queue| + |s.held| == CAPACITY
    && (forall i :: 0 <= i < |s.free| ==> s.free[i] < CAPACITY)
    && (forall i :: 0 <= i < |s.queue| ==> s.queue[i] < CAPACITY)
    && Distinct(s.free) && Distinct(s.queue) && Apart(s.free, s.queue) && HeldApart(s)
  }

  /** The counter is the queue length, and the queue holds, unaltered and in order, the commands
      that were queued and not yet taken. */
  ghost predicate Faithful(s: State) {
    && s.size == |s.queue|
    && |s.queued| == |s.taken| + |s.queue|
    && s.taken == s.queued[..|s.taken|]
    && (forall i :: 0 <= i < |s.queue| ==> s.queue[i] < |s.content| && s.content[s.queue[i]] == s.queued[|s.taken| + i])
  }

  ghost predicate Inv(s: State) {
    Slots(s) && Faithful(s)
  }

  lemma AllocKeepsSlots(s: State, t: Thread)
    requires Slots(s)
    ensures Slots(Step(s, Alloc(t)))
  {
    if t !in s.held && s.free != [] {
      assert s.free[0] in s.free && s.free[0] !in s.queue;
    }
  }

  lemma EnqueueKeepsSlots(s: State, t: Thread)
    requires Slots(s)
    ensures Slots(Step(s, Enqueue(t)))
  {
    if t in s.held {
      assert s.held[t].slot !in s.queue && s.held[t].slot !in s.free;
    }
  }

  lemma TakeKeepsSlots(s: State, t: Thread)
    requires Slots(s) && s.queue != [] && t !in s.held
    ensures Slots(Take(s, t))
  {
    assert s.queue[0] in s.queue && s.queue[0] !in s.free;
  }

  lemma FreeKeepsSlots(s: State, t: Thread)
    requires Slots(s)
    ensures Slots(Step(s, FreeCmd(t)))
  {
    if t in s.held {
      assert s.held[t].slot !in s.queue && s.held[t].slot !in s.free;
    }
  }

  lemma StepKeepsSlots(s: State, e: Event)
    requires Slots(s)
    ensures Slots(Step(s, e))
  {
    match e
    case Alloc(t) => AllocKeepsSlots(s, t);
    case Fill(t, w) =>
    case Enqueue(t) => EnqueueKeepsSlots(s, t);
    case FreeCmd(t) => FreeKeepsSlots(s, t);
    case _ =>
      if s.queue != [] && e.thread !in s.held {
        TakeKeepsSlots(s, e.thread);
      }
  }

  /** A producer writes only to the slot it holds, which is not queued. */
  lemma FillKeepsFaithful(s: State, t: Thread, w: Write)
    requires Inv(s)
    ensures Faithful(Step(s, Fill(t, w)))
  {
    if t in s.held {
      assert s.held[t].slot !in s.queue;
    }
  }

  lemma EnqueueKeepsFaithful(s: State, t: Thread)
    requires Inv(s)
    ensures Faithful(Step(s, Enqueue(t)))
  {
  }

  lemma TakeKeepsFaithful(s: State, t: Thread)
    requires Inv(s) && s.queue != []
    ensures Faithful(Take(s, t))
  {
    var s' := Take(s, t);
    assert s.content[s.queue[0]] == s.queued[|s.taken|];
    assert forall i :: 0 <= i < |s'.queue| ==> s'.queue[i] == s.queue[i + 1];
  }

  lemma StepKeepsFaithful(s: State, e: Event)
    requires Inv(s)
    ensures Faithful(Step(s, e))
  {
    match e
    case Fill(t, w) => FillKeepsFaithful(s, t, w);
    case Enqueue(t) => EnqueueKeepsFaithful(s, t);
    case TakeControl(t) => if s.queue != [] { TakeKeepsFaithful(s, t); }
    case TakeBroadcast(t) => if s.queue != [] { TakeKeepsFaithful(s, t); }
    case _ =>
  }

  /** In every interleaving: no slot is lost, freed twice or shared; the counter is exact and at
      most 256; and the commands taken are exactly the first ones queued, in order, each once. */
  lemma {:induction false} RunKeepsInv(s: State, es: seq<Event>)
    requires IsInit(s)
    ensures Inv(Run(s, es)) && 0 <= Run(s, es).size <= CAPACITY
  {
    if es != [] {
      RunKeepsInv(s, es[..|es| - 1]);
      StepKeepsSlots(Run(s, es[..|es| - 1]), es[|es| - 1]);
      StepKeepsFaithful(Run(s, es[..|es| - 1]), es[|es| - 1]);
    }
  }

  // ----- The queue in place -----

  class Queue {
    const pool: HeapPool.HeapPool
    const content: array<Write>
    var head: seq<nat>
    var size: int
    ghost var held: map<Thread, Hold>
    ghost var queued: seq<Write>
    ghost var taken: seq<Write>

    ghost function Abs(): State
      reads this, pool, content
    {
      State(pool.free, head, size, held, content[..], queued, taken)
    }

    ghost predicate Valid()
      reads this, pool, pool.links, content
    {
      pool.Valid() && pool.capacity == CAPACITY && Inv(Abs())
    }

    /** Over a new pool: every slot is free. */
    constructor (pool: HeapPool.HeapPool, blank: Write)
      requires pool.Valid() && pool.capacity == CAPACITY && |pool.free| == CAPACITY
      ensures this.pool == pool && fresh(content) && Valid() && IsInit(Abs())
    {
      this.pool := pool;
      content := new Write[CAPACITY](_ => blank);
      head, size, held, queued, taken := [], 0, map[], [], [];
      new;
      FreeSlots(pool);
    }

    /** alloc_cmd: the slot is this thread's alone; none is left only when all are in use. */
    method AllocCmd(ghost t: Thread) returns (slot: Option<nat>)
      requires Valid() && t !in held
      modifies this`held, pool, pool.links
      ensures Valid() && Abs() == Step(old(Abs()), Alloc(t))
      ensures slot.Some? <==> t in held
      ensures slot.Some? ==> held[t] == Hold(slot.value, true)
      ensures slot.None? ==> |head| + |held| == CAPACITY
    {
      ghost var before := Abs();
      StepKeepsSlots(before, Alloc(t));
      StepKeepsFaithful(before, Alloc(t));
      slot := PopSlot(pool);
      if slot.Some? {
        held := held[t := Hold(slot.value, true)];
        assert pool.free == before.free[1..];
        assert Abs() == before.(free := before.free[1..], held := before.held[t := Hold(before.free[0], true)]);
      } else {
        assert Abs() == before;
      }
    }

    /** Copies a command into the slot that this thread holds. */
    method FillCmd(ghost t: Thread, slot: nat, w: Write)
      requires Valid() && t in held && held[t] == Hold(slot, true)
      modifies content
      ensures Valid() && Abs() == Step(old(Abs()), Fill(t, w))
    {
      ghost var before := Abs();
      StepKeepsFaithful(before, Fill(t, w));
      StepKeepsSlots(before, Fill(t, w));
      content[slot] := Clip(w);
      assert Abs() == Step(before, Fill(t, w));
    }

    /** The section of enqueue_broadcast under the control mutex. */
    method Append(ghost t: Thread, slot: nat)
      requires Valid() && t in held && held[t] == Hold(slot, true)
      modifies this
      ensures Valid() && Abs() == Step(old(Abs()), Enqueue(t))
    {
      ghost var before := Abs();
      StepKeepsFaithful(before, Enqueue(t));
      StepKeepsSlots(before, Enqueue(t));
      queued := queued + [content[slot]];
      head := head + [slot];
      size := size + 1;
      held := held - {t};
    }

    /** The section in which a broadcast worker, or the control thread, takes the oldest command. */
    method Dequeue(ghost t: Thread, worker: bool) returns (slot: Option<nat>)
      requires Valid() && t !in held
      modifies this
      ensures Valid() && Abs() == Step(old(Abs()), if worker then TakeBroadcast(t) else TakeControl(t))
      ensures slot.Some? <==> old(head) != [] && (worker ==> old(size) > HIGH_WATERMARK)
      ensures slot.Some? ==> t in held && held[t] == Hold(slot.value, false)
    {
      ghost var e := if worker then TakeBroadcast(t) else TakeControl(t);
      StepKeepsFaithful(Abs(), e);
      StepKeepsSlots(Abs(), e);
      slot := None;
      if worker && size <= HIGH_WATERMARK {
        return;
      }
      if head != [] {
        slot := Some(head[0]);
        taken := taken + [content[head[0]]];
        held := held[t := Hold(head[0], false)];
        head := head[1..];
        size := size - 1;
      }
    }

    /** free_cmd: gives the slot back to the pool, exactly once. */
    method Release(ghost t: Thread, slot: nat)
      requires Valid() && t in held && held[t].slot == slot
      modifies this`held, pool, pool.links
      ensures Valid() && Abs() == Step(old(Abs()), FreeCmd(t))
    {
      ghost var before := Abs();
      FreeKeepsSlots(before, t);
      StepKeepsFaithful(before, FreeCmd(t));
      PushSlot(pool, slot);
      held := held - {t};
      assert Abs() == Step(before, FreeCmd(t));
    }
  }

  /** dmmr_heap_pool_alloc, as far as the queue depends on it. */
  method PopSlot(pool: HeapPool.HeapPool) returns (slot: Option<nat>)
    requires pool.Valid()
    modifies pool, pool.links
    ensures pool.Valid()
    ensures slot.None? ==> pool.free == old(pool.free) == []
    ensures slot.Some? ==> old(pool.free) == [slot.value] + pool.free
  {
    slot := pool.Alloc();
  }

  /** dmmr_heap_pool_free on the pointer to a slot. */
  method PushSlot(pool: HeapPool.HeapPool, slot: nat)
    requires pool.Valid() && slot < pool.capacity && slot !in pool.free
    modifies pool, pool.links
    ensures pool.Valid() && pool.free == [slot] + old(pool.free)
  {
    SlotOffset(slot, pool.capacity, pool.objSize);
    pool.Free(slot * pool.objSize);
  }

  lemma FreeSlots(pool: HeapPool.HeapPool)
    requires pool.Valid()
    ensures Distinct(pool.free) && forall i :: 0 <= i < |pool.free| ==> pool.free[i] < pool.capacity
  {
    forall i | 0 <= i < |pool.free| ensures pool.free[i] < pool.capacity {
      HeapPool.ChainFrom(pool.links[..], pool.freeHead, pool.free, i);
    }
    forall i, j | 0 <= i < j < |pool.free| ensures pool.free[i] != pool.free[j] {
      HeapPool.ChainIsDistinct(pool.links[..], pool.freeHead, pool.free, i, j);
    }
  }

  lemma {:induction false} LessTimes(a: nat, b: nat, n: nat)
    requires a < b && 0 < n
    ensures a * n + n <= b * n
  {
    if a + 1 < b {
      LessTimes(a, b - 1, n);
    }
    assert b * n == (b - 1) * n + n;
  }

  lemma SlotOffset(slot: nat, capacity: nat, objSize: nat)
    requires slot < capacity && 0 < objSize
    ensures 0 <= slot * objSize < capacity * objSize
    ensures slot * objSize % objSize == 0 && slot * objSize / objSize == slot
  {
    var x := slot * objSize;
    var q := x / objSize;
    assert x == q * objSize + x % objSize;
    LessTimes(slot, capacity, objSize);
    if slot < q {
      LessTimes(slot, q, objSize);
    } else if q < slot {
      LessTimes(q, slot, objSize);
    }
  }
}
