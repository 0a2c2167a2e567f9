/** The replication protocol as a state machine: nodes with their own tables, the SETs and
    DELs they have broadcast, and deliveries of those broadcasts in any order, any number
    of times, beside records carried by snapshots.

    Clock readings are arbitrary: nothing below assumes that they advance. A local DEL
    reads the clock twice, once for the tombstone it stores and once for the tombstone it
    broadcasts; a collection of an expired key is the same step. Taking both readings in
    one step allows every delivery that the separate readings allow. */
module Replication {
  import opened Bytes
  import opened Lww

  type NodeId = nat

  datatype Delete = Delete(key: Key, origin: NodeId, local: nat, sent: nat, applied: bool)

  /** `seen[n]` holds the broadcasts that node n has applied or, for its own SETs, made;
      `carried` holds what snapshot cursors have read so far, `copied[n]` the records that
      node n has merged from snapshots, and `arrived[n]` all that it has merged, in order. */
  datatype State = State(
    stores: map<NodeId, Table>,
    sets: set<Write>,
    dels: set<Delete>,
    carried: set<Write>,
    seen: map<NodeId, set<Write>>,
    copied: map<NodeId, set<Write>>,
    arrived: map<NodeId, seq<Write>>)

  datatype Event =
    | LocalSet(node: NodeId, key: Key, clock: nat, expireAt: nat, value: seq<byte>)
    | LocalDel(node: NodeId, key: Key, clock: nat, clockAgain: nat)
    | Deliver(node: NodeId, msg: Write)
    | SnapshotRead(node: NodeId, key: Key)
    | SnapshotApply(node: NodeId, msg: Write)

  function Tombstone(ts: nat, node: NodeId): Record {
    Record(Stamp(ts, node), 0, true, [])
  }

  function LocalTombstone(d: Delete): Write {
    Write(d.key, Tombstone(d.local, d.origin))
  }

  function SentTombstone(d: Delete): Write {
    Write(d.key, Tombstone(d.sent, d.origin))
  }

  function Messages(s: State): set<Write> {
    s.sets + set d | d in s.dels :: SentTombstone(d)
  }

  predicate Wins(t: Table, w: Write) {
    w.key !in t || IncomingWins(t[w.key].stamp, w.rec.stamp)
  }

  function Init(nodes: set<NodeId>): State {
    State(map n | n in nodes :: map[], {}, {}, {}, map n | n in nodes :: {}, map n | n in nodes :: {},
          map n | n in nodes :: [])
  }

  /** Node n merges a record. */
  function Merged(s: State, n: NodeId, w: Write): State
    requires n in s.stores && n in s.arrived
  {
    s.(stores := s.stores[n := Merge(s.stores[n], w)], arrived := s.arrived[n := s.arrived[n] + [w]])
  }

  predicate Knows(s: State, n: NodeId) {
    n in s.stores && n in s.seen && n in s.copied && n in s.arrived
  }

  function Step(s: State, e: Event): State {
    if !Knows(s, e.node) then s else
    var t := s.stores[e.node];
    match e
    case LocalSet(n, k, clock, expireAt, value) =>
      var w := Write(k, Record(Stamp(clock, n), expireAt, false, value));
      if Wins(t, w) then Merged(s, n, w).(sets := s.sets + {w}, seen := s.seen[n := s.seen[n] + {w}]) else s
    case LocalDel(n, k, clock, clockAgain) =>
      var w := Write(k, Tombstone(clock, n));
      Merged(s, n, w).(dels := s.dels + {Delete(k, n, clock, clockAgain, Wins(t, w))})
    case Deliver(n, w) =>
      // A node does not broadcast to itself, and a SYNC from node id 0 is refused.
      if w in Messages(s) && w.rec.stamp.node != n && w.rec.stamp.node != 0
      then Merged(s, n, w).(seen := s.seen[n := s.seen[n] + {w}]) else s
    case SnapshotRead(n, k) =>
      if k in t then s.(carried := s.carried + {Write(k, t[k])}) else s
    case SnapshotApply(n, w) =>
      if w in s.carried then Merged(s, n, w).(copied := s.copied[n := s.copied[n] + {w}]) else s
  }

  function Run(nodes: set<NodeId>, es: seq<Event>): State {
    if es == [] then Init(nodes) else Step(Run(nodes, es[..|es| - 1]), es[|es| - 1])
  }

  // ----- What every step keeps -----

  ghost predicate HasAtLeast(t: Table, w: Write) {
    w.key in t && AtMost(w.rec.stamp, t[w.key].stamp)
  }

  /** A record that some node may hold: a SET, a broadcast tombstone, or a tombstone that
      won at its origin. */
  ghost predicate Held(s: State, w: Write) {
    || w in s.sets
    || (exists d :: d in s.dels && (w == SentTombstone(d) || (d.applied && w == LocalTombstone(d))))
  }

  /** The same for one node: foreign tombstones arrive with their broadcast stamp, own ones are
      stored with their local stamp, and anything may come by a snapshot. */
  ghost predicate HeldAt(s: State, n: NodeId, w: Write) {
    || w in s.sets
    || (exists d :: d in s.dels && d.origin != n && w == SentTombstone(d))
    || (exists d :: d in s.dels && d.origin == n && d.applied && w == LocalTombstone(d))
    || (n in s.copied && w in s.copied[n])
  }

  ghost predicate OriginsAhead(s: State) {
    && (forall w :: w in s.sets ==>
          && !w.rec.tombstone
          && w.rec.stamp.node in s.stores
          && HasAtLeast(s.stores[w.rec.stamp.node], w))
    && (forall d :: d in s.dels ==>
          && d.origin in s.stores
          && HasAtLeast(s.stores[d.origin], LocalTombstone(d)))
  }

  ghost predicate SetStampsUnique(s: State) {
    && (forall w, v :: w in s.sets && v in s.sets && w.key == v.key && w.rec.stamp == v.rec.stamp ==> w == v)
    && (forall w, d :: w in s.sets && d in s.dels && d.applied && d.key == w.key ==>
                         w.rec.stamp != Stamp(d.local, d.origin))
  }

  ghost predicate SeenApplied(s: State) {
    && s.seen.Keys == s.stores.Keys
    && (forall n, w :: n in s.seen && w in s.seen[n] ==> HasAtLeast(s.stores[n], w))
    && (forall w :: w in s.sets && w.rec.stamp.node in s.seen ==> w in s.seen[w.rec.stamp.node])
  }

  ghost predicate CopiedApplied(s: State) {
    && s.copied.Keys == s.stores.Keys
    && (forall n, w {:trigger w in s.copied[n]} :: n in s.copied && w in s.copied[n] ==> HasAtLeast(s.stores[n], w))
    && (forall n {:trigger s.copied[n]} :: n in s.copied ==> s.copied[n] <= s.carried)
  }

  ghost predicate MadeOf(t: Table, ws: seq<Write>) {
    t == MergeAll(map[], ws)
  }

  /** A table is what its arrivals make of it, and the broadcasts that a node has seen are among
      them. */
  ghost predicate Arrivals(s: State) {
    && s.arrived.Keys == s.stores.Keys == s.seen.Keys
    && (forall n {:trigger MadeOf(s.stores[n], s.arrived[n])} :: n in s.arrived ==> MadeOf(s.stores[n], s.arrived[n]))
    && (forall n, w {:trigger w in s.seen[n]} :: n in s.seen && w in s.seen[n] ==> w in s.arrived[n])
  }

  ghost predicate StoresHeld(s: State) {
    && (forall n, k :: n in s.stores && k in s.stores[n] ==> Held(s, Write(k, s.stores[n][k])))
    && (forall w :: w in s.carried ==> Held(s, w))
    && (forall n, k :: n in s.stores && k in s.stores[n] ==> HeldAt(s, n, Write(k, s.stores[n][k])))
  }

  ghost predicate Inv(s: State) {
    OriginsAhead(s) && SetStampsUnique(s) && SeenApplied(s) && CopiedApplied(s) && Arrivals(s) && StoresHeld(s)
  }

  lemma MergeKeeps(t: Table, w: Write, v: Write)
    ensures HasAtLeast(Merge(t, w), w)
    ensures HasAtLeast(t, v) ==> HasAtLeast(Merge(t, w), v)
  {
  }

  /** Stamps never decrease in any node's table. */
  lemma StepKeepsStamps(s: State, e: Event, n: NodeId, v: Write)
    requires n in s.stores && HasAtLeast(s.stores[n], v)
    ensures n in Step(s, e).stores && HasAtLeast(Step(s, e).stores[n], v)
  {
    var t := s.stores[n];
    match e
    case LocalSet(_, k, clock, expireAt, value) =>
      MergeKeeps(t, Write(k, Record(Stamp(clock, n), expireAt, false, value)), v);
    case LocalDel(_, k, clock, _) => MergeKeeps(t, Write(k, Tombstone(clock, n)), v);
    case Deliver(_, w) => MergeKeeps(t, w, v);
    case SnapshotRead(_, _) =>
    case SnapshotApply(_, w) => MergeKeeps(t, w, v);
  }

  lemma StepKeepsOriginsAhead(s: State, e: Event)
    requires OriginsAhead(s)
    ensures OriginsAhead(Step(s, e))
  {
    var s' := Step(s, e);
    forall w | w in s'.sets
      ensures !w.rec.tombstone && w.rec.stamp.node in s'.stores && HasAtLeast(s'.stores[w.rec.stamp.node], w) {
      if w in s.sets {
        StepKeepsStamps(s, e, w.rec.stamp.node, w);
      } else {
        MergeKeeps(s.stores[e.node], w, w);
      }
    }
    forall d | d in s'.dels
      ensures d.origin in s'.stores && HasAtLeast(s'.stores[d.origin], LocalTombstone(d)) {
      if d in s.dels {
        StepKeepsStamps(s, e, d.origin, LocalTombstone(d));
      } else {
        MergeKeeps(s.stores[e.node], LocalTombstone(d), LocalTombstone(d));
      }
    }
  }

  /** The stamp of a winning SET is new: it beats the origin's table, which is at or above
      every stamp that the origin has ever issued for the key. */
  lemma StepKeepsUniqueStamps(s: State, e: Event)
    requires OriginsAhead(s) && SetStampsUnique(s)
    ensures SetStampsUnique(Step(s, e))
  {
    if e.node in s.stores && e.LocalSet? {
      var w := Write(e.key, Record(Stamp(e.clock, e.node), e.expireAt, false, e.value));
      if Wins(s.stores[e.node], w) {
        forall v | v in s.sets && v.key == w.key ensures v.rec.stamp != w.rec.stamp {
          if v.rec.stamp.node == e.node { assert HasAtLeast(s.stores[e.node], v); }
        }
        forall d | d in s.dels && d.key == w.key ensures w.rec.stamp != Stamp(d.local, d.origin) {
          if d.origin == e.node { assert HasAtLeast(s.stores[e.node], LocalTombstone(d)); }
        }
      }
    } else if e.node in s.stores && e.LocalDel? {
      var t := Write(e.key, Tombstone(e.clock, e.node));
      forall w | w in s.sets && Wins(s.stores[e.node], t) && w.key == e.key
        ensures w.rec.stamp != t.rec.stamp {
        if w.rec.stamp.node == e.node { assert HasAtLeast(s.stores[e.node], w); }
      }
    }
  }

  lemma StepKeepsSeen(s: State, e: Event)
    requires SeenApplied(s)
    ensures SeenApplied(Step(s, e))
  {
    var s' := Step(s, e);
    forall n, w | n in s'.seen && w in s'.seen[n] ensures HasAtLeast(s'.stores[n], w) {
      if w in s.seen[n] {
        StepKeepsStamps(s, e, n, w);
      } else {
        MergeKeeps(s.stores[n], w, w);
      }
    }
  }

  lemma StepKeepsCopied(s: State, e: Event)
    requires CopiedApplied(s)
    ensures CopiedApplied(Step(s, e))
  {
    var s' := Step(s, e);
    assert s'.copied.Keys == s'.stores.Keys && s.carried <= s'.carried;
    forall n, w | n in s'.copied && w in s'.copied[n] ensures HasAtLeast(s'.stores[n], w) {
      if n in s.copied && w in s.copied[n] {
        StepKeepsStamps(s, e, n, w);
      } else {
        assert e == SnapshotApply(n, w);
        MergeKeeps(s.stores[n], w, w);
      }
    }
  }

  lemma MadeOfGrows(t: Table, ws: seq<Write>, w: Write)
    requires MadeOf(t, ws)
    ensures MadeOf(Merge(t, w), ws + [w])
  {
    assert (ws + [w])[..|ws|] == ws;
  }

  lemma MergedKeepsArrivals(s: State, n: NodeId, w: Write)
    requires Arrivals(s) && n in s.stores
    ensures Arrivals(Merged(s, n, w))
  {
    var s' := Merged(s, n, w);
    assert MadeOf(s.stores[n], s.arrived[n]);
    MadeOfGrows(s.stores[n], s.arrived[n], w);
    forall m | m in s'.arrived ensures MadeOf(s'.stores[m], s'.arrived[m]) {
      assert m != n ==> MadeOf(s.stores[m], s.arrived[m]);
    }
  }

  /** The step changes neither tables nor arrivals further; what is newly seen has arrived. */
  lemma ArrivalsCarry(m: State, s: State)
    requires Arrivals(m) && s.stores == m.stores && s.arrived == m.arrived && s.seen.Keys == m.seen.Keys
    requires forall n, w {:trigger w in s.seen[n]} ::
               n in s.seen && w in s.seen[n] && w !in m.seen[n] ==> w in m.arrived[n]
    ensures Arrivals(s)
  {
    forall n | n in s.arrived ensures MadeOf(s.stores[n], s.arrived[n]) {
      assert MadeOf(m.stores[n], m.arrived[n]);
    }
  }

  lemma StepKeepsArrivals(s: State, e: Event)
    requires Arrivals(s)
    ensures Arrivals(Step(s, e))
  {
    if Merges(s, e) {
      var w := ArrivingWrite(e);
      MergedKeepsArrivals(s, e.node, w);
      ArrivalsCarry(Merged(s, e.node, w), Step(s, e));
    } else {
      ArrivalsCarry(s, Step(s, e));
    }
  }

  predicate Merges(s: State, e: Event) {
    && Knows(s, e.node)
    && match e
       case LocalSet(n, _, _, _, _) => Wins(s.stores[n], ArrivingWrite(e))
       case LocalDel(_, _, _, _) => true
       case Deliver(n, w) => w in Messages(s) && w.rec.stamp.node != n && w.rec.stamp.node != 0
       case SnapshotRead(_, _) => false
       case SnapshotApply(_, w) => w in s.carried
  }

  /** The record that an event merges, if it merges one. */
  function ArrivingWrite(e: Event): Write {
    match e
    case LocalSet(n, k, clock, expireAt, value) => Write(k, Record(Stamp(clock, n), expireAt, false, value))
    case LocalDel(n, k, clock, _) => Write(k, Tombstone(clock, n))
    case Deliver(_, w) => w
    case SnapshotRead(_, k) => Write(k, Tombstone(0, 0))
    case SnapshotApply(_, w) => w
  }

  lemma HeldGrows(s: State, s': State, n: NodeId, w: Write)
    requires s.sets <= s'.sets && s.dels <= s'.dels
    requires n in s.copied ==> n in s'.copied && s.copied[n] <= s'.copied[n]
    ensures Held(s, w) ==> Held(s', w)
    ensures HeldAt(s, n, w) ==> HeldAt(s', n, w)
  {
  }

  lemma StepKeepsHeld(s: State, e: Event)
    requires StoresHeld(s) && s.copied.Keys == s.stores.Keys
    ensures StoresHeld(Step(s, e))
  {
    var s' := Step(s, e);
    forall n, k | n in s'.stores && k in s'.stores[n]
      ensures Held(s', Write(k, s'.stores[n][k]))
      ensures HeldAt(s', n, Write(k, s'.stores[n][k])) {
      var w := Write(k, s'.stores[n][k]);
      if k in s.stores[n] && s.stores[n][k] == s'.stores[n][k] {
        HeldGrows(s, s', n, w);
      } else {
        StepStoresHeldWrite(s, e, n, k);
      }
    }
    forall w | w in s'.carried ensures Held(s', w) {
      if w in s.carried { HeldGrows(s, s', e.node, w); }
    }
  }

  lemma DeliveredIsHeld(s: State, n: NodeId, msg: Write)
    requires msg in Messages(s) && msg.rec.stamp.node != n
    ensures Held(s, msg) && HeldAt(s, n, msg)
  {
    if msg !in s.sets {
      var d :| d in s.dels && msg == SentTombstone(d);
      assert d.origin != n;
    }
  }

  lemma StepStoresHeldWrite(s: State, e: Event, n: NodeId, k: Key)
    requires StoresHeld(s) && s.copied.Keys == s.stores.Keys
    requires var s' := Step(s, e);
             n in s'.stores && k in s'.stores[n] && !(k in s.stores[n] && s.stores[n][k] == s'.stores[n][k])
    ensures var s' := Step(s, e);
            Held(s', Write(k, s'.stores[n][k])) && HeldAt(s', n, Write(k, s'.stores[n][k]))
  {
    var s' := Step(s, e);
    var w := Write(k, s'.stores[n][k]);
    match e
    case LocalSet(_, _, _, _, _) => assert w in s'.sets;
    case LocalDel(_, _, clock, clockAgain) =>
      var d := Delete(k, n, clock, clockAgain, true);
      assert d in s'.dels && w == LocalTombstone(d);
    case Deliver(_, msg) => DeliveredIsHeld(s, n, msg);
    case SnapshotApply(_, msg) =>
      assert w == msg && msg in s.carried && msg in s'.copied[n];
  }

  lemma {:induction false} RunKeepsInv(nodes: set<NodeId>, es: seq<Event>)
    ensures Inv(Run(nodes, es))
    ensures Run(nodes, es).stores.Keys == nodes
  {
    if es != [] {
      var s, e := Run(nodes, es[..|es| - 1]), es[|es| - 1];
      RunKeepsInv(nodes, es[..|es| - 1]);
      StepKeepsOriginsAhead(s, e);
      StepKeepsUniqueStamps(s, e);
      StepKeepsSeen(s, e);
      StepKeepsCopied(s, e);
      StepKeepsArrivals(s, e);
      StepKeepsHeld(s, e);
    }
  }

  // ----- Convergence -----

  /** Every broadcast has reached every node other than its origin. */
  ghost predicate AllDelivered(s: State) {
    && (forall n, w :: n in s.seen && w in s.sets ==> w in s.seen[n])
    && (forall n, d :: n in s.seen && d in s.dels && d.origin != n ==> SentTombstone(d) in s.seen[n])
  }

  /** No two different broadcast SETs of one key share a stamp, however the clocks move. */
  lemma SetStampsNeverRepeat(nodes: set<NodeId>, es: seq<Event>, w: Write, v: Write)
    requires w in Run(nodes, es).sets && v in Run(nodes, es).sets
    requires w.key == v.key && w.rec.stamp == v.rec.stamp
    ensures w == v
  {
    RunKeepsInv(nodes, es);
  }

  /** Without deletes all nodes hold identical tables once everything is delivered. */
  lemma DeleteFreeRunsConverge(nodes: set<NodeId>, es: seq<Event>, n: NodeId, m: NodeId)
    requires n in nodes && m in nodes
    requires Run(nodes, es).dels == {} && AllDelivered(Run(nodes, es))
    ensures Run(nodes, es).stores.Keys == nodes
    ensures Run(nodes, es).stores[n] == Run(nodes, es).stores[m]
  {
    RunKeepsInv(nodes, es);
    var s := Run(nodes, es);
    HoldsGreatestSets(s, n);
    HoldsGreatestSets(s, m);
    SameGreatestWrites(s.sets, s.stores[n], s.stores[m]);
  }

  lemma HoldsGreatestSets(s: State, n: NodeId)
    requires OriginsAhead(s) && SeenApplied(s) && StoresHeld(s) && s.dels == {} && AllDelivered(s) && n in s.stores
    ensures forall w :: w in s.sets ==> HasAtLeast(s.stores[n], w)
    ensures forall k :: k in s.stores[n] ==> Write(k, s.stores[n][k]) in s.sets
  {
    forall w | w in s.sets ensures HasAtLeast(s.stores[n], w) { SetReaches(s, w, n); }
    forall k | k in s.stores[n] ensures Write(k, s.stores[n][k]) in s.sets {
      NoTombstones(s, n, k);
      LiveIsSet(s, n, k);
    }
  }

  lemma SameGreatestWrites(sets: set<Write>, a: Table, b: Table)
    requires forall w, v :: w in sets && v in sets && w.key == v.key && w.rec.stamp == v.rec.stamp ==> w == v
    requires forall w :: w in sets ==> HasAtLeast(a, w) && HasAtLeast(b, w)
    requires forall k :: k in a ==> Write(k, a[k]) in sets
    requires forall k :: k in b ==> Write(k, b[k]) in sets
    ensures a == b
  {
    forall k ensures k in a <==> k in b
             ensures k in a && k in b ==> a[k] == b[k] {
      if k in a { assert HasAtLeast(b, Write(k, a[k])); }
      if k in b { assert HasAtLeast(a, Write(k, b[k])); }
    }
  }

  lemma SetReaches(s: State, w: Write, n: NodeId)
    requires SeenApplied(s) && AllDelivered(s) && w in s.sets && n in s.stores
    ensures HasAtLeast(s.stores[n], w)
  {
    assert w in s.seen[n];
  }

  lemma DeleteReaches(s: State, d: Delete, n: NodeId)
    requires OriginsAhead(s) && SeenApplied(s) && AllDelivered(s) && d in s.dels && n in s.stores
    ensures HasAtLeast(s.stores[n], if d.origin == n then LocalTombstone(d) else SentTombstone(d))
  {
    if d.origin != n { assert SentTombstone(d) in s.seen[n]; }
  }

  lemma LiveIsSet(s: State, n: NodeId, k: Key)
    requires StoresHeld(s) && n in s.stores && k in s.stores[n] && !s.stores[n][k].tombstone
    ensures Write(k, s.stores[n][k]) in s.sets
  {
    assert Held(s, Write(k, s.stores[n][k]));
  }

  lemma TombstoneIsDelete(s: State, n: NodeId, k: Key) returns (d: Delete)
    requires OriginsAhead(s) && StoresHeld(s) && n in s.stores && k in s.stores[n] && s.stores[n][k].tombstone
    ensures d in s.dels && d.key == k
    ensures s.stores[n][k].stamp in {Stamp(d.local, d.origin), Stamp(d.sent, d.origin)}
  {
    var w := Write(k, s.stores[n][k]);
    assert Held(s, w);
    d :| d in s.dels && (w == SentTombstone(d) || (d.applied && w == LocalTombstone(d)));
  }

  lemma NoTombstones(s: State, n: NodeId, k: Key)
    requires OriginsAhead(s) && StoresHeld(s) && s.dels == {} && n in s.stores && k in s.stores[n]
    ensures !s.stores[n][k].tombstone
  {
    if s.stores[n][k].tombstone {
      var d := TombstoneIsDelete(s, n, k);
    }
  }

  /** The SET of a key with the greatest stamp. */
  ghost predicate Latest(s: State, w: Write) {
    w in s.sets && forall v :: v in s.sets && v.key == w.key ==> AtMost(v.rec.stamp, w.rec.stamp)
  }

  /** `x` lies in the closed interval between the two stamps of a delete, whichever is first. */
  ghost predicate Between(d: Delete, x: Stamp) {
    var l, b := Stamp(d.local, d.origin), Stamp(d.sent, d.origin);
    (AtMost(l, x) && AtMost(x, b)) || (AtMost(b, x) && AtMost(x, l))
  }

  /** With deletes, and with any snapshots in between, all nodes agree on whether a key is
      visible and on its record once everything is delivered, provided the latest SET of the
      key does not fall between the local and the broadcast stamp of a delete of the key. */
  lemma RunsWithDeletesAgree(nodes: set<NodeId>, es: seq<Event>, k: Key, n: NodeId, m: NodeId)
    requires n in nodes && m in nodes
    requires var s := Run(nodes, es);
             && AllDelivered(s)
             && (forall w, d :: Latest(s, w) && w.key == k && d in s.dels && d.key == k ==> !Between(d, w.rec.stamp))
    ensures Run(nodes, es).stores.Keys == nodes
    ensures Visible(Run(nodes, es).stores[n], k) == Visible(Run(nodes, es).stores[m], k)
  {
    RunKeepsInv(nodes, es);
    var s := Run(nodes, es);
    if Visible(s.stores[n], k).Some? {
      VisibleEverywhere(s, k, n, m);
    } else if Visible(s.stores[m], k).Some? {
      VisibleEverywhere(s, k, m, n);
    }
  }

  lemma VisibleIsLatest(s: State, k: Key, n: NodeId)
    requires Inv(s) && AllDelivered(s) && n in s.stores && Visible(s.stores[n], k).Some?
    ensures Latest(s, Write(k, s.stores[n][k]))
  {
    LiveIsSet(s, n, k);
    forall v | v in s.sets && v.key == k ensures AtMost(v.rec.stamp, s.stores[n][k].stamp) {
      SetReaches(s, v, n);
    }
  }

  lemma NotBetween(d: Delete, x: Stamp)
    requires !Between(d, x)
    requires AtMost(x, Stamp(d.local, d.origin)) || AtMost(x, Stamp(d.sent, d.origin))
    ensures IncomingWins(x, Stamp(d.local, d.origin)) && IncomingWins(x, Stamp(d.sent, d.origin))
  {
  }

  lemma VisibleEverywhere(s: State, k: Key, n: NodeId, m: NodeId)
    requires Inv(s) && AllDelivered(s) && n in s.stores && m in s.stores
    requires Visible(s.stores[n], k).Some?
    requires forall w, d :: Latest(s, w) && w.key == k && d in s.dels && d.key == k ==> !Between(d, w.rec.stamp)
    ensures Visible(s.stores[m], k) == Visible(s.stores[n], k)
  {
    var w := Write(k, s.stores[n][k]);
    VisibleIsLatest(s, k, n);
    SetReaches(s, w, m);
    if s.stores[m][k].tombstone {
      var d := TombstoneIsDelete(s, m, k);
      NotBetween(d, w.rec.stamp);
      DeleteReaches(s, d, n);
    } else {
      VisibleIsLatest(s, k, m);
      StampsEqual(s, w, Write(k, s.stores[m][k]));
    }
  }

  lemma StampsEqual(s: State, w: Write, v: Write)
    requires SetStampsUnique(s) && Latest(s, w) && Latest(s, v) && w.key == v.key
    ensures w == v
  {
    StampOrderTotal(w.rec.stamp, v.rec.stamp);
  }

  // ----- Exactly when nodes agree -----

  /** The nodes whose own delete of the key carries a local stamp later than `x`. */
  function HidingLocally(s: State, k: Key, x: Stamp): set<NodeId> {
    set d | d in s.dels && d.key == k && IncomingWins(x, Stamp(d.local, d.origin)) :: d.origin
  }

  /** The nodes whose delete of the key was broadcast with a stamp later than `x`. */
  function HidingRemotely(s: State, k: Key, x: Stamp): set<NodeId> {
    set d | d in s.dels && d.key == k && IncomingWins(x, Stamp(d.sent, d.origin)) :: d.origin
  }

  /** The nodes that merged, from a snapshot, a tombstone of the key later than `x`. */
  ghost function HidingBySnapshot(s: State, k: Key, x: Stamp): set<NodeId> {
    set n | n in s.copied && CopiedLater(s.copied[n], k, x)
  }

  ghost predicate CopiedLater(ws: set<Write>, k: Key, x: Stamp) {
    exists w :: w in ws && w.key == k && w.rec.tombstone && IncomingWins(x, w.rec.stamp)
  }

  /** The nodes to which a tombstone with the stamp of SET w came before it. */
  ghost function HidingByTie(s: State, w: Write): set<NodeId> {
    set n | n in s.arrived && TieFirst(s.arrived[n], w)
  }

  ghost predicate TieFirst(ws: seq<Write>, w: Write) {
    exists j :: 0 <= j < |ws| && ws[j].key == w.key && ws[j].rec.tombstone && ws[j].rec.stamp == w.rec.stamp &&
                w !in ws[..j]
  }

  /** The nodes with a tombstone that hides SET w and that other nodes need not have. */
  ghost function HidingHere(s: State, w: Write): set<NodeId> {
    HidingLocally(s, w.key, w.rec.stamp) + HidingBySnapshot(s, w.key, w.rec.stamp) + HidingByTie(s, w)
  }

  ghost predicate Agree(s: State, k: Key) {
    forall n, m :: n in s.stores && m in s.stores ==> Visible(s.stores[n], k) == Visible(s.stores[m], k)
  }

  /** The tombstones of the key against the latest SET: two nodes broadcast a later one; or one
      does, and it also has a later one itself (or is alone); or none does, and no node or every
      node has one by its own delete, by a snapshot, or with the SET's own stamp and before it. */
  ghost predicate ReadingsAgree(s: State, w: Write) {
    HidersAgree(s.stores.Keys, HidingHere(s, w), HidingRemotely(s, w.key, w.rec.stamp))
  }

  ghost predicate HidersAgree(nodes: set<NodeId>, here: set<NodeId>, there: set<NodeId>) {
    || (exists o, p :: o in there && p in there && o != p)
    || (exists o :: there == {o} && (o in here || nodes == {o}))
    || (there == {} && (here == {} || here == nodes))
  }

  /** A delivered node sees the latest SET if and only if no later tombstone came to it, by its own
      delete, by another node's broadcast or by a snapshot, and none with the SET's stamp came to
      it before the SET. */
  lemma SeesLatestExactly(s: State, w: Write, n: NodeId)
    requires Inv(s) && AllDelivered(s) && Latest(s, w) && n in s.stores
    ensures Visible(s.stores[n], w.key) ==
            if Sees(HidingHere(s, w), HidingRemotely(s, w.key, w.rec.stamp), n) then Some(w.rec) else None
  {
    SetReaches(s, w, n);
    if Visible(s.stores[n], w.key).Some? {
      VisibleIsLatest(s, w.key, n);
      StampsEqual(s, w, Write(w.key, s.stores[n][w.key]));
      NothingHides(s, w, n);
      FirstIsNotTied(s, w, n);
    } else if s.stores[n][w.key].stamp == w.rec.stamp {
      TieHides(s, w, n);
    } else {
      HiderExists(s, w, n);
    }
  }

  lemma NothingHides(s: State, w: Write, n: NodeId)
    requires OriginsAhead(s) && SeenApplied(s) && CopiedApplied(s) && AllDelivered(s)
    requires n in s.stores && w.key in s.stores[n] && s.stores[n][w.key] == w.rec
    ensures Sees(HidingLocally(s, w.key, w.rec.stamp) + HidingBySnapshot(s, w.key, w.rec.stamp),
                 HidingRemotely(s, w.key, w.rec.stamp), n)
  {
    forall d | d in s.dels && d.key == w.key
      ensures !IncomingWins(w.rec.stamp, if d.origin == n then Stamp(d.local, n) else Stamp(d.sent, d.origin)) {
      DeleteReaches(s, d, n);
    }
    forall v | v in s.copied[n] && v.key == w.key ensures !IncomingWins(w.rec.stamp, v.rec.stamp) {
      assert HasAtLeast(s.stores[n], v);
    }
  }

  lemma FirstIsNotTied(s: State, w: Write, n: NodeId)
    requires Arrivals(s) && n in s.stores && w.key in s.stores[n] && s.stores[n][w.key] == w.rec && !w.rec.tombstone
    ensures n !in HidingByTie(s, w)
  {
    var ws := s.arrived[n];
    assert MadeOf(s.stores[n], ws);
    var i := MergeAllKeepsFirst(ws, w.key);
    forall j | 0 <= j < |ws| && ws[j].key == w.key && ws[j].rec.tombstone && ws[j].rec.stamp == w.rec.stamp
      ensures w in ws[..j]
    {
      assert j > i && ws[..j][i] == w;
    }
  }

  lemma TieHides(s: State, w: Write, n: NodeId)
    requires Arrivals(s) && n in s.stores && w.key in s.stores[n]
    requires s.stores[n][w.key].tombstone && s.stores[n][w.key].stamp == w.rec.stamp && !w.rec.tombstone
    ensures n in HidingByTie(s, w)
  {
    var ws := s.arrived[n];
    assert MadeOf(s.stores[n], ws);
    var i := MergeAllKeepsFirst(ws, w.key);
    assert w !in ws[..i];
  }

  lemma HiderExists(s: State, w: Write, n: NodeId)
    requires Inv(s) && w in s.sets && n in s.stores
    requires HasAtLeast(s.stores[n], w) && s.stores[n][w.key].tombstone && s.stores[n][w.key].stamp != w.rec.stamp
    ensures !Sees(HidingHere(s, w), HidingRemotely(s, w.key, w.rec.stamp), n)
  {
    var q := Write(w.key, s.stores[n][w.key]);
    assert HeldAt(s, n, q);
    if q in s.copied[n] {
      assert n in HidingBySnapshot(s, w.key, w.rec.stamp);
    } else if d :| d in s.dels && d.origin != n && q == SentTombstone(d) {
      assert d.origin in HidingRemotely(s, w.key, w.rec.stamp);
    } else {
      var d :| d in s.dels && d.origin == n && d.applied && q == LocalTombstone(d);
      assert d.origin in HidingLocally(s, w.key, w.rec.stamp);
    }
  }

  /** In every run, whatever the clocks, snapshots and ties: delivered nodes agree on a key if and
      only if the tombstones that came to them do. */
  lemma AgreementExactly(nodes: set<NodeId>, es: seq<Event>, k: Key)
    requires AllDelivered(Run(nodes, es))
    ensures var s := Run(nodes, es);
            Agree(s, k) <==> forall w :: Latest(s, w) && w.key == k ==> ReadingsAgree(s, w)
  {
    RunKeepsInv(nodes, es);
    var s := Run(nodes, es);
    if w :| Latest(s, w) && w.key == k {
      forall n | n in s.stores
        ensures Visible(s.stores[n], k) ==
                if Sees(HidingHere(s, w), HidingRemotely(s, k, w.rec.stamp), n) then Some(w.rec) else None {
        SeesLatestExactly(s, w, n);
      }
      HidersAreNodes(s, w);
      AgreementBySets(s, k, w.rec, HidingHere(s, w), HidingRemotely(s, k, w.rec.stamp));
      forall v | Latest(s, v) && v.key == k ensures v == w { StampsEqual(s, v, w); }
    } else {
      forall n | n in s.stores ensures Visible(s.stores[n], k) == None {
        if Visible(s.stores[n], k).Some? { VisibleIsLatest(s, k, n); }
      }
    }
  }

  lemma HidersAreNodes(s: State, w: Write)
    requires OriginsAhead(s) && CopiedApplied(s) && Arrivals(s)
    ensures HidingHere(s, w) <= s.stores.Keys && HidingRemotely(s, w.key, w.rec.stamp) <= s.stores.Keys
  {
  }

  lemma AgreementBySets(s: State, k: Key, rec: Record, here: set<NodeId>, there: set<NodeId>)
    requires here <= s.stores.Keys && there <= s.stores.Keys
    requires forall n :: n in s.stores ==> Visible(s.stores[n], k) == if Sees(here, there, n) then Some(rec) else None
    ensures Agree(s, k) <==> HidersAgree(s.stores.Keys, here, there)
  {
    AgreementOfSets(s.stores.Keys, here, there);
  }

  ghost predicate Sees(here: set<NodeId>, there: set<NodeId>, n: NodeId) {
    n !in here && there <= {n}
  }

  lemma AgreementOfSets(nodes: set<NodeId>, here: set<NodeId>, there: set<NodeId>)
    requires here <= nodes && there <= nodes
    ensures (forall n, m :: n in nodes && m in nodes ==> (Sees(here, there, n) <==> Sees(here, there, m))) <==>
            HidersAgree(nodes, here, there)
  {
    if there == {} {
      assert forall n :: Sees(here, there, n) <==> n !in here;
      if here != {} && here != nodes {
        var a :| a in here;
        var b :| b in nodes && b !in here;
        assert Sees(here, there, b) && !Sees(here, there, a);
      }
    } else {
      var o :| o in there;
      if there == {o} {
        assert forall n :: n != o ==> !Sees(here, there, n);
        assert Sees(here, there, o) <==> o !in here;
        if nodes != {o} && o !in here {
          var b :| b in nodes && b != o;
          assert Sees(here, there, o) && !Sees(here, there, b);
        }
      } else {
        var p :| p in there && p != o;
        assert forall n :: !Sees(here, there, n);
      }
    }
  }

  // ----- Divergence -----

  lemma RunSnoc(nodes: set<NodeId>, es: seq<Event>, e: Event)
    ensures Run(nodes, es + [e]) == Step(Run(nodes, es), e)
  {
    assert (es + [e])[..|es|] == es;
  }

  /** Whenever a SET of another node falls strictly between the two readings of a delete,
      delivering everything leaves the value at the deleting node and removes it at the other. */
  lemma DeleteCanDiverge(k: Key, local: nat, ts: nat, sent: nat, value: seq<byte>) returns (es: seq<Event>)
    requires local < ts < sent
    ensures var s := Run({1, 2}, es);
            && AllDelivered(s) && s.stores.Keys == {1, 2}
            && Visible(s.stores[1], k).Some? && Visible(s.stores[1], k).value.value == value
            && Visible(s.stores[2], k) == None
  {
    var w := Write(k, Record(Stamp(ts, 2), 0, false, value));
    var d := Delete(k, 1, local, sent, true);
    var e1, e2 := LocalDel(1, k, local, sent), LocalSet(2, k, ts, 0, value);
    AfterDelete({1, 2}, d, e1);
    RunSnoc({1, 2}, [e1], e2);
    es := CrossDeliveries([e1] + [e2], w, d);
  }

  /** A first delete at node 1. */
  lemma AfterDelete(nodes: set<NodeId>, d: Delete, e: Event)
    requires 1 in nodes && d.origin == 1 && d.applied && e == LocalDel(1, d.key, d.local, d.sent)
    ensures var s := Run(nodes, [e]);
            && s.stores.Keys == nodes == s.seen.Keys == s.copied.Keys == s.arrived.Keys
            && s.dels == {d} && s.sets == {}
            && s.stores[1] == map[d.key := LocalTombstone(d).rec]
            && (forall n :: n in nodes && n != 1 ==> s.stores[n] == map[])
  {
    RunSnoc(nodes, [], e);
    assert [] + [e] == [e];
  }

  /** The delete's tombstone and the other node's SET are delivered to each other's origin. */
  lemma CrossDeliveries(p: seq<Event>, w: Write, d: Delete) returns (es: seq<Event>)
    requires var s := Run({1, 2}, p);
             && s.stores.Keys == {1, 2} == s.seen.Keys == s.copied.Keys == s.arrived.Keys
             && s.dels == {d} && s.sets == {w} && w in s.seen[2]
    requires d.origin == 1 && w.rec.stamp.node == 2
    ensures var s, s' := Run({1, 2}, p), Run({1, 2}, es);
            && AllDelivered(s') && s'.stores.Keys == {1, 2}
            && s'.stores[1] == Merge(s.stores[1], w) && s'.stores[2] == Merge(s.stores[2], SentTombstone(d))
  {
    var e3, e4 := Deliver(1, w), Deliver(2, SentTombstone(d));
    es := p + [e3] + [e4];
    RunSnoc({1, 2}, p, e3);
    RunSnoc({1, 2}, p + [e3], e4);
    DeliverEffect(Run({1, 2}, p), 1, w);
    DeliverEffect(Run({1, 2}, p + [e3]), 2, SentTombstone(d));
  }

  /** A broadcast tombstone that repeats the stamp of a SET leaves each peer with whichever
      arrived first. */
  lemma EqualStampsCanDiverge(k: Key, local: nat, ts: nat, value: seq<byte>) returns (es: seq<Event>)
    requires local < ts
    ensures var s := Run({1, 2, 3}, es);
            && AllDelivered(s) && s.stores.Keys == {1, 2, 3}
            && Visible(s.stores[2], k) == None
            && Visible(s.stores[3], k).Some? && Visible(s.stores[3], k).value.value == value
  {
    var w, d := Write(k, Record(Stamp(ts, 1), 0, false, value)), Delete(k, 1, local, ts, true);
    var e1, e2 := LocalDel(1, k, local, ts), LocalSet(1, k, ts, 0, value);
    AfterDelete({1, 2, 3}, d, e1);
    RunSnoc({1, 2, 3}, [e1], e2);
    var s := Run({1, 2, 3}, [e1]);
    assert Wins(s.stores[1], w);
    assert Step(s, e2) == Merged(s, 1, w).(sets := s.sets + {w}, seen := s.seen[1 := s.seen[1] + {w}]);
    es := TieDeliveries([e1] + [e2], w, d);
  }

  lemma TieDeliveries(p: seq<Event>, w: Write, d: Delete) returns (es: seq<Event>)
    requires var s := Run({1, 2, 3}, p);
             && s.stores.Keys == {1, 2, 3} == s.seen.Keys == s.copied.Keys == s.arrived.Keys
             && s.dels == {d} && s.sets == {w} && w in s.seen[1]
             && s.stores[2] == map[] && s.stores[3] == map[]
    requires w.key == d.key && w.rec.stamp == Stamp(d.sent, d.origin) && d.origin == 1 && !w.rec.tombstone
    ensures var s := Run({1, 2, 3}, es);
            && AllDelivered(s) && s.stores.Keys == {1, 2, 3}
            && s.stores[2] == map[w.key := SentTombstone(d).rec] && s.stores[3] == map[w.key := w.rec]
  {
    var b := SentTombstone(d);
    var q := DeliverBoth({1, 2, 3}, p, 2, b, w);
    es := DeliverBoth({1, 2, 3}, q, 3, w, b);
  }

  lemma DeliverBoth(nodes: set<NodeId>, p: seq<Event>, n: NodeId, a: Write, b: Write) returns (es: seq<Event>)
    requires var s := Run(nodes, p);
             Knows(s, n) && a in Messages(s) && b in Messages(s)
    requires a.rec.stamp.node != n && a.rec.stamp.node != 0 && b.rec.stamp.node != n && b.rec.stamp.node != 0
    ensures var s := Run(nodes, p);
            Run(nodes, es) == Merged(Merged(s, n, a), n, b).(seen := s.seen[n := s.seen[n] + {a} + {b}])
  {
    es := p + [Deliver(n, a)] + [Deliver(n, b)];
    RunSnoc(nodes, p, Deliver(n, a));
    RunSnoc(nodes, p + [Deliver(n, a)], Deliver(n, b));
  }

  lemma DeliverEffect(s: State, n: NodeId, w: Write)
    requires Knows(s, n) && w.rec.stamp.node != n && w.rec.stamp.node != 0
    requires w in s.sets || exists d :: d in s.dels && w == SentTombstone(d)
    ensures Step(s, Deliver(n, w)) == Merged(s, n, w).(seen := s.seen[n := s.seen[n] + {w}])
  {
  }
}
