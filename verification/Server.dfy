/** The request arms of the server, over the store: what a GET, SET or DEL changes, answers and
    broadcasts, and how each is a step of the replication protocol. */
module Server {
  import opened Bytes
  import opened Config
  import opened Lww
  import opened Packing
  import opened Database
  import R = Replication

  const OP_GET := 1
  const OP_SET := 2
  const OP_DEL := 3
  const OP_SYNC := 4
  const TTL_DEFAULT := 3600 * 1_000_000

  datatype Status = Ok | Missing | Failed

  /** A request of the public protocol, and where it came from. */
  datatype Request = Request(opcode: u16, key: seq<byte>, value: seq<byte>, timestamp: u64, source: u64, fromPeer: bool)

  /** Two successive readings of the clock in microseconds. */
  datatype Clock = Clock(first: u64, second: u64)

  function ExpiryAt(now: u64): u64 {
    (now + TTL_DEFAULT) % 0x1_0000_0000_0000_0000
  }

  predicate InBounds(q: Request) {
    0 < |q.key| <= MAX_KEY_LEN && |q.value| <= MAX_VALUE_LEN
  }

  /** The record that a SET stores: stamped here, or as the peer stamped it. */
  function SetWrite(node: u64, q: Request, c: Clock): Write {
    Write(q.key, Record(if q.fromPeer then Stamp(q.timestamp, q.source) else Stamp(c.first, node),
                        ExpiryAt(c.second), false, q.value))
  }

  predicate Writes(q: Request) {
    q.opcode == OP_SET || q.opcode == OP_SYNC || q.opcode == OP_DEL
  }

  /** What a request merges into the table. */
  function RequestWrite(node: u64, q: Request, c: Clock): Write {
    if q.opcode == OP_DEL then Write(q.key, R.Tombstone(c.first, node)) else SetWrite(node, q, c)
  }

  ghost predicate Sound(store: Database, faults: Faults)
    reads store
  {
    store.Valid() && store.open && faults == Faults(false, false, false)
  }

  class Node {
    const store: Database
    const id: u64
    var broadcasts: seq<Write>

    constructor (store: Database, id: u64)
      ensures this.store == store && this.id == id && broadcasts == []
    {
      this.store, this.id, broadcasts := store, id, [];
    }

    /** GET: the visible record's value, if there is one. */
    method GetArm(q: Request, faults: Faults) returns (status: Status, payload: seq<byte>)
      requires InBounds(q)
      ensures status != Ok ==> payload == []
      ensures Sound(store, faults) ==>
                match Visible(store.View(), q.key)
                case Some(rec) => status == Ok && payload == rec.value
                case None => status == Missing
    {
      var rc, rec := store.GetWithMeta(q.key, faults);
      if rc == Applied {
        return Ok, rec.value.value;
      } else if rc == NotFound {
        return Missing, [];
      }
      return Failed, [];
    }

    /** db_set_with_meta and db_del_key: one record against the store. */
    method Resolve(w: Write, faults: Faults) returns (rc: Rc)
      requires Storable(w.key, w.rec)
      modifies store`db
      ensures old(store.Valid()) ==> store.Valid()
      ensures old(Sound(store, faults)) ==>
                store.View() == Merge(old(store.View()), w) && (rc == Applied <==> R.Wins(old(store.View()), w))
    {
      rc := store.ApplyRecord(w.key, w.rec, faults);
      assert w == Write(w.key, w.rec);
    }

    /** SET, and SYNC on the public port: the record is merged; only a local one that won is
        broadcast, with the stamp it was stored under. */
    method SetArm(q: Request, c: Clock, faults: Faults) returns (status: Status)
      requires InBounds(q)
      modifies this`broadcasts, store`db
      ensures old(store.Valid()) ==> store.Valid()
      ensures status != Ok ==> broadcasts == old(broadcasts)
      ensures old(Sound(store, faults)) ==>
                var w := SetWrite(id, q, c);
                && store.View() == Merge(old(store.View()), w)
                && (status == Ok <==> R.Wins(old(store.View()), w))
                && broadcasts == old(broadcasts) + if status == Ok && !q.fromPeer then [w] else []
    {
      var w := SetWrite(id, q, c);
      var rc := Resolve(w, faults);
      if rc != Applied {
        return Failed;
      }
      if !q.fromPeer {
        broadcasts := broadcasts + [w];
      }
      status := Ok;
    }

    /** DEL, and the collection of an expired key: a tombstone with one clock reading is merged,
        and one with a second reading is broadcast even when the first did not win. */
    method DelArm(key: seq<byte>, fromPeer: bool, c: Clock, faults: Faults) returns (status: Status)
      requires 0 < |key| <= MAX_KEY_LEN
      modifies this`broadcasts, store`db
      ensures old(store.Valid()) ==> store.Valid()
      ensures broadcasts == old(broadcasts) + if fromPeer then [] else [Write(key, R.Tombstone(c.second, id))]
      ensures old(Sound(store, faults)) ==>
                var w := Write(key, R.Tombstone(c.first, id));
                && store.View() == Merge(old(store.View()), w)
                && (status == Ok <==> R.Wins(old(store.View()), w))
    {
      var rc := Resolve(Write(key, R.Tombstone(c.first, id)), faults);
      status := if rc == Applied then Ok else Failed;
      if !fromPeer {
        broadcasts := broadcasts + [Write(key, R.Tombstone(c.second, id))];
      }
    }

    /** The collector: each scanned record whose expiry has passed is deleted as by a local DEL,
        without looking at what is stored under its key by then. */
    method Collect(scanned: seq<Write>, now: u64, clocks: seq<Clock>, faults: Faults)
      requires |clocks| == |scanned| && forall i :: 0 <= i < |scanned| ==> 0 < |scanned[i].key| <= MAX_KEY_LEN
      modifies this`broadcasts, store`db
      ensures old(store.Valid()) ==> store.Valid()
      ensures broadcasts == old(broadcasts) + Collected(id, scanned, now, clocks, true, |scanned|)
      ensures old(Sound(store, faults)) ==>
                store.View() == MergeAll(old(store.View()), Collected(id, scanned, now, clocks, false, |scanned|))
    {
      ghost var kept, sent, was := [], [], store.View();
      for i := 0 to |scanned|
        invariant old(store.Valid()) ==> store.Valid()
        invariant kept == Collected(id, scanned, now, clocks, false, i)
        invariant sent == Collected(id, scanned, now, clocks, true, i)
        invariant broadcasts == old(broadcasts) + sent
        invariant old(Sound(store, faults)) ==> store.View() == MergeAll(was, kept)
      {
        var first, second := CollectEntry(scanned[i], now, clocks[i], faults);
        MergeAllConcat(was, kept, first);
        kept, sent := kept + first, sent + second;
      }
    }

    method CollectEntry(entry: Write, now: u64, c: Clock, faults: Faults)
      returns (ghost kept: seq<Write>, ghost sent: seq<Write>)
      requires 0 < |entry.key| <= MAX_KEY_LEN
      modifies this`broadcasts, store`db
      ensures kept == Tombstones(id, entry, now, c.first) && sent == Tombstones(id, entry, now, c.second)
      ensures old(store.Valid()) ==> store.Valid()
      ensures broadcasts == old(broadcasts) + sent
      ensures old(Sound(store, faults)) ==> store.View() == MergeAll(old(store.View()), kept)
    {
      ghost var w := Write(entry.key, R.Tombstone(c.first, id));
      MergeOne(store.View(), w);
      if !Collectable(entry.rec, now) {
        return [], [];
      }
      var status := DelArm(entry.key, false, c, faults);
      kept, sent := [w], [Write(entry.key, R.Tombstone(c.second, id))];
    }

    /** process_frame: a request out of bounds is dropped without an answer. For a local request
        on a sound store, the table and the broadcasts are those of the protocol's step. */
    method ProcessFrame(q: Request, c: Clock, faults: Faults, ghost s: R.State)
      returns (answer: Option<Status>, payload: seq<byte>)
      requires R.Knows(s, id) && s.stores[id] == store.View()
      modifies this`broadcasts, store`db
      ensures answer.None? <==> !InBounds(q)
      ensures !InBounds(q) || !Writes(q) ==>
                store.db == old(store.db) && broadcasts == old(broadcasts)
      ensures old(store.Valid()) ==> store.Valid()
      ensures old(Sound(store, faults)) && InBounds(q) && q.opcode == OP_GET ==>
                match Visible(store.View(), q.key)
                case Some(rec) => answer == Some(Ok) && payload == rec.value
                case None => answer == Some(Missing) && payload == []
      ensures old(Sound(store, faults)) && InBounds(q) && q.fromPeer && Writes(q) ==>
                store.View() == Merge(old(store.View()), RequestWrite(id, q, c)) && broadcasts == old(broadcasts)
      ensures old(Sound(store, faults)) && InBounds(q) && !q.fromPeer && Writes(q) ==>
                Follows(store.View(), broadcasts, old(broadcasts), s, LocalEvent(id, q, c))
    {
      payload := [];
      if !InBounds(q) {
        return None, [];
      }
      var status := Failed;
      if q.opcode == OP_GET {
        status, payload := GetArm(q, faults);
      } else if q.opcode == OP_SET || q.opcode == OP_SYNC {
        status := SetArm(q, c, faults);
        if old(Sound(store, faults)) && !q.fromPeer {
          SetFollows(s, id, q, c, broadcasts, old(broadcasts));
        }
      } else if q.opcode == OP_DEL {
        status := DelArm(q.key, q.fromPeer, c, faults);
        if old(Sound(store, faults)) && !q.fromPeer {
          DeleteFollows(s, id, q, c, broadcasts, old(broadcasts));
        }
      }
      answer := Some(status);
    }
  }

  /** The protocol's event for a local SET or DEL. */
  function LocalEvent(n: u64, q: Request, c: Clock): R.Event {
    if q.opcode == OP_DEL then R.LocalDel(n, q.key, c.first, c.second)
    else R.LocalSet(n, q.key, c.first, ExpiryAt(c.second), q.value)
  }

  /** The table is the one after the event, and what is newly broadcast is what the protocol
      newly has under way. */
  ghost predicate Follows(table: Table, after: seq<Write>, before: seq<Write>, s: R.State, e: R.Event) {
    var s' := R.Step(s, e);
    && e.node in s'.stores && table == s'.stores[e.node]
    && before <= after
    && R.Messages(s') == R.Messages(s) + set w | w in after[|before|..]
  }

  lemma SetFollows(s: R.State, n: u64, q: Request, c: Clock, after: seq<Write>, before: seq<Write>)
    requires R.Knows(s, n) && !q.fromPeer && q.opcode != OP_DEL
    requires after == before + if R.Wins(s.stores[n], SetWrite(n, q, c)) then [SetWrite(n, q, c)] else []
    ensures Follows(Merge(s.stores[n], SetWrite(n, q, c)), after, before, s, LocalEvent(n, q, c))
  {
    var w := SetWrite(n, q, c);
    assert after[|before|..] == if R.Wins(s.stores[n], w) then [w] else [];
  }

  lemma DeleteFollows(s: R.State, n: u64, q: Request, c: Clock, after: seq<Write>, before: seq<Write>)
    requires R.Knows(s, n) && q.opcode == OP_DEL
    requires after == before + [Write(q.key, R.Tombstone(c.second, n))]
    ensures Follows(Merge(s.stores[n], Write(q.key, R.Tombstone(c.first, n))), after, before, s, LocalEvent(n, q, c))
  {
    DeleteSends(s, n, q.key, c);
    assert after[|before|..] == [Write(q.key, R.Tombstone(c.second, n))];
  }

  lemma DeleteSends(s: R.State, n: u64, key: seq<byte>, c: Clock)
    requires R.Knows(s, n)
    ensures var s' := R.Step(s, R.LocalDel(n, key, c.first, c.second));
            R.Messages(s') == R.Messages(s) + {Write(key, R.Tombstone(c.second, n))}
  {
    var t := s.stores[n];
    var d := R.Delete(key, n, c.first, c.second, R.Wins(t, Write(key, R.Tombstone(c.first, n))));
    var s' := R.Step(s, R.LocalDel(n, key, c.first, c.second));
    assert s'.dels == s.dels + {d};
    forall w | w in R.Messages(s) ensures w in R.Messages(s') {
      if w !in s.sets {
        var e :| e in s.dels && w == R.SentTombstone(e);
        assert e in s'.dels;
      }
    }
    assert d in s'.dels && R.SentTombstone(d) in R.Messages(s');
  }

  // ----- Collection -----

  /** The scan queues every record whose expiry has passed. */
  predicate Collectable(rec: Record, now: u64) {
    rec.expireAt < now
  }

  function Tombstones(id: u64, entry: Write, now: u64, stamp: u64): seq<Write> {
    if Collectable(entry.rec, now) then [Write(entry.key, R.Tombstone(stamp, id))] else []
  }

  /** The tombstones of the first n entries of a collection, as stored or as sent. */
  function Collected(id: u64, scanned: seq<Write>, now: u64, clocks: seq<Clock>, sent: bool, n: nat): seq<Write>
    requires n <= |clocks| == |scanned|
  {
    if n == 0 then [] else
    Collected(id, scanned, now, clocks, sent, n - 1) +
    Tombstones(id, scanned[n - 1], now, if sent then clocks[n - 1].second else clocks[n - 1].first)
  }

  /** Tombstones expire at 0, so the scan collects them again and again, and each time stamps
      them anew. A SET made elsewhere after a delete, and long before its own expiry, is thereby
      lost at every node if the tombstone is collected before the SET arrives. */
  lemma CollectionErasesLaterSet(k: Key, deleted: nat, made: nat, collected: u64, sent: nat, expireAt: nat,
                                 value: seq<byte>)
    returns (es: seq<R.Event>, w: Write)
    requires deleted < made < collected && made < sent
    ensures w == Write(k, Record(Stamp(made, 2), expireAt, false, value))
    ensures es == [R.LocalDel(1, k, deleted, deleted), R.LocalSet(2, k, made, expireAt, value),
                   R.LocalDel(1, k, collected, sent),
                   R.Deliver(1, w), R.Deliver(2, Write(k, R.Tombstone(sent, 1)))]
    ensures Collectable(R.Tombstone(deleted, 1), collected)
    ensures var s := R.Run({1, 2}, es);
            && s.stores.Keys == {1, 2} && w in s.sets
            && Visible(s.stores[1], k) == None && Visible(s.stores[2], k) == None
  {
    w := Write(k, Record(Stamp(made, 2), expireAt, false, value));
    var t := Write(k, R.Tombstone(sent, 1));
    var p := [] + [R.LocalDel(1, k, deleted, deleted)] + [R.LocalSet(2, k, made, expireAt, value)] +
             [R.LocalDel(1, k, collected, sent)];
    DeleteSetCollect(k, deleted, collected, sent, w, p);
    var e4, e5 := R.Deliver(1, w), R.Deliver(2, t);
    es := p + [e4] + [e5];
    R.RunSnoc({1, 2}, p, e4);
    R.RunSnoc({1, 2}, p + [e4], e5);
    var d := R.Delete(k, 1, collected, sent, true);
    R.DeliverEffect(R.Run({1, 2}, p), 1, w);
    R.DeliverEffect(R.Run({1, 2}, p + [e4]), 2, t);
  }

  /** The run up to the collection: node 1 holds the new tombstone, node 2 the SET. */
  lemma DeleteSetCollect(k: Key, deleted: nat, collected: nat, sent: nat, w: Write, p: seq<R.Event>)
    requires w.key == k && w.rec.stamp.node == 2 && !w.rec.tombstone && deleted < collected
    requires p == [] + [R.LocalDel(1, k, deleted, deleted)] +
                  [R.LocalSet(2, k, w.rec.stamp.ts, w.rec.expireAt, w.rec.value)] +
                  [R.LocalDel(1, k, collected, sent)]
    ensures var s := R.Run({1, 2}, p);
            && s.stores.Keys == {1, 2} == s.seen.Keys == s.copied.Keys == s.arrived.Keys
            && s.stores[1] == map[k := R.Tombstone(collected, 1)] && s.stores[2] == map[k := w.rec]
            && w in s.sets && R.Delete(k, 1, collected, sent, true) in s.dels
  {
    var e1, e2, e3 := p[0], p[1], p[2];
    R.RunSnoc({1, 2}, [], e1);
    R.RunSnoc({1, 2}, [] + [e1], e2);
    R.RunSnoc({1, 2}, [] + [e1] + [e2], e3);
    assert p == [] + [e1] + [e2] + [e3];
  }
}
