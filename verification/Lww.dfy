/** Last-writer-wins records and the table they converge to, independent of how
    records are packed or stored. */
module Lww {
  import opened Bytes

  type Key = seq<byte>

  datatype Stamp = Stamp(ts: nat, node: nat)

  datatype Record = Record(stamp: Stamp, expireAt: nat, tombstone: bool, value: seq<byte>)

  datatype Write = Write(key: Key, rec: Record)

  type Table = map<Key, Record>

  /** incoming_wins: the incoming stamp is later, or equally late from a higher node id. */
  predicate IncomingWins(existing: Stamp, incoming: Stamp) {
    existing.ts < incoming.ts || (existing.ts == incoming.ts && existing.node < incoming.node)
  }

  predicate AtMost(a: Stamp, b: Stamp) {
    a == b || IncomingWins(a, b)
  }

  /** One conflict resolution: a write replaces what is stored exactly when it wins. */
  function Merge(t: Table, w: Write): Table {
    if w.key in t && !IncomingWins(t[w.key].stamp, w.rec.stamp) then t else t[w.key := w.rec]
  }

  function MergeAll(t: Table, ws: seq<Write>): Table {
    if ws == [] then t else Merge(MergeAll(t, ws[..|ws| - 1]), ws[|ws| - 1])
  }

  /** What a reader sees: nothing for an absent key or a tombstone. */
  function Visible(t: Table, k: Key): (v: Option<Record>) {
    if k in t && !t[k].tombstone then Some(t[k]) else None
  }

  /** A record that could end up stored under `k`. */
  ghost predicate Candidate(t: Table, ws: seq<Write>, k: Key, r: Record) {
    (k in t && t[k] == r) || Write(k, r) in ws
  }

  ghost predicate DistinctStamps(t: Table, ws: seq<Write>) {
    forall k, r, q :: Candidate(t, ws, k, r) && Candidate(t, ws, k, q) && r.stamp == q.stamp ==> r == q
  }

  /** Every key of `b` is present in `a` with a stamp at least as late. */
  ghost predicate Dominates(a: Table, b: Table) {
    forall k :: k in b ==> k in a && AtMost(b[k].stamp, a[k].stamp)
  }

  lemma StampOrderTotal(a: Stamp, b: Stamp)
    ensures AtMost(a, b) || IncomingWins(b, a)
    ensures !(AtMost(a, b) && IncomingWins(b, a))
  {
  }

  lemma AtMostTransitive(a: Stamp, b: Stamp, c: Stamp)
    requires AtMost(a, b) && AtMost(b, c)
    ensures AtMost(a, c)
  {
  }

  /** After any sequence of writes a key is stored exactly when some candidate exists
      for it, and what is stored is a candidate with the greatest stamp. */
  lemma {:induction false} MergeAllIsGreatest(t: Table, ws: seq<Write>, k: Key)
    ensures k in MergeAll(t, ws) <==> exists r :: Candidate(t, ws, k, r)
    ensures k in MergeAll(t, ws) ==> Candidate(t, ws, k, MergeAll(t, ws)[k])
    ensures forall r :: Candidate(t, ws, k, r) ==>
              k in MergeAll(t, ws) && AtMost(r.stamp, MergeAll(t, ws)[k].stamp)
  {
    if ws == [] {
      if k in t { assert Candidate(t, ws, k, t[k]); }
    } else {
      var front, w := ws[..|ws| - 1], ws[|ws| - 1];
      MergeAllIsGreatest(t, front, k);
      assert ws == front + [w];
      forall r ensures Candidate(t, ws, k, r) <==> Candidate(t, front, k, r) || w == Write(k, r) {}
      if w.key == k { assert Candidate(t, ws, k, w.rec); }
    }
  }

  /** Of the records of a key with one stamp, the first to arrive is kept. */
  ghost predicate IsFirst(ws: seq<Write>, w: Write, i: nat) {
    i < |ws| && ws[i] == w && forall j :: 0 <= j < i && ws[j].key == w.key ==> ws[j].rec.stamp != w.rec.stamp
  }

  lemma {:induction false} MergeAllKeepsFirst(ws: seq<Write>, k: Key) returns (i: nat)
    requires k in MergeAll(map[], ws)
    ensures IsFirst(ws, Write(k, MergeAll(map[], ws)[k]), i)
  {
    var n := |ws| - 1;
    var front, w := ws[..n], ws[n];
    MergeAllIsGreatest(map[], front, k);
    if k in MergeAll(map[], front) && MergeAll(map[], ws)[k] == MergeAll(map[], front)[k] {
      i := MergeAllKeepsFirst(front, k);
    } else {
      i := n;
      forall j | 0 <= j < n && ws[j].key == k ensures ws[j].rec.stamp != w.rec.stamp {
        assert front[j] in front && Candidate(map[], front, k, ws[j].rec);
      }
    }
  }

  /** Order and repetition do not matter: two sequences with the same writes leave the
      same table, when no two different records of a key share a stamp. */
  lemma SameWritesSameTable(t: Table, ws: seq<Write>, vs: seq<Write>)
    requires forall w :: w in ws <==> w in vs
    requires DistinctStamps(t, ws)
    ensures MergeAll(t, ws) == MergeAll(t, vs)
  {
    var a, b := MergeAll(t, ws), MergeAll(t, vs);
    forall k ensures k in a <==> k in b
             ensures k in a && k in b ==> a[k] == b[k] {
      MergeAllIsGreatest(t, ws, k);
      MergeAllIsGreatest(t, vs, k);
      assert forall r :: Candidate(t, ws, k, r) <==> Candidate(t, vs, k, r);
      if k in a && k in b {
        StampOrderTotal(a[k].stamp, b[k].stamp);
      }
    }
  }

  /** Stamps never decrease, and writes already merged change nothing when merged again. */
  lemma {:induction false} MergeAllDominates(t: Table, ws: seq<Write>, again: seq<Write>)
    requires forall w :: w in again ==> w in ws
    ensures Dominates(MergeAll(t, ws), t)
    ensures MergeAll(MergeAll(t, ws), again) == MergeAll(t, ws)
  {
    forall k | k in t ensures k in MergeAll(t, ws) && AtMost(t[k].stamp, MergeAll(t, ws)[k].stamp) {
      MergeAllIsGreatest(t, ws, k);
      assert Candidate(t, ws, k, t[k]);
    }
    if again != [] {
      var w := again[|again| - 1];
      MergeAllDominates(t, ws, again[..|again| - 1]);
      MergeAllIsGreatest(t, ws, w.key);
      assert w in again && Candidate(t, ws, w.key, w.rec);
      StampOrderTotal(w.rec.stamp, MergeAll(t, ws)[w.key].stamp);
    }
  }

  lemma MergeOne(t: Table, w: Write)
    ensures MergeAll(t, [w]) == Merge(t, w) && MergeAll(t, []) == t
  {
    assert [w][..0] == [];
  }

  lemma {:induction false} MergeAllConcat(t: Table, ws: seq<Write>, vs: seq<Write>)
    ensures MergeAll(t, ws + vs) == MergeAll(MergeAll(t, ws), vs)
  {
    if vs == [] {
      assert ws + vs == ws;
    } else {
      assert (ws + vs)[..|ws + vs| - 1] == ws + vs[..|vs| - 1];
      MergeAllConcat(t, ws, vs[..|vs| - 1]);
    }
  }
}
