/** Bootstrapping a node: the sender's cursor walks its store in key order and drops the lock
    between records while other threads keep writing; the receiver applies what arrives while
    it also keeps being written to. */
module Snapshot {
  import opened Bytes
  import opened Config
  import opened Lww
  import opened Packing
  import opened Database
  import KeyOrder

  /** A write of another thread, with the faults it may meet. */
  datatype Attempt = Attempt(write: Write, faults: Faults)

  datatype Frame = Begin | Sync(write: Write) | End | Other

  /** The keys that a cursor standing on `at` has yet to reach. */
  function After(keys: set<Key>, at: Option<Key>): set<Key> {
    set k | k in keys && (at.None? || KeyOrder.Less(at.value, k))
  }

  /** The cursor has passed `k` or stands on it. */
  ghost predicate Reached(at: Option<Key>, k: Key) {
    at.Some? && (k == at.value || KeyOrder.Less(k, at.value))
  }

  /** Every key of `t` that the cursor has reached was handed out with a stamp at least as late. */
  ghost predicate Covered(t: Table, at: Option<Key>, out: seq<Write>) {
    forall k :: k in t && Reached(at, k) ==>
      exists j :: 0 <= j < |out| && out[j].key == k && AtMost(t[k].stamp, out[j].rec.stamp)
  }

  ghost predicate Complete(t: Table, out: seq<Write>) {
    forall k :: k in t ==> exists j :: 0 <= j < |out| && out[j].key == k && AtMost(t[k].stamp, out[j].rec.stamp)
  }

  /** Each record was in the store at some moment: after the first when[j] commits. */
  ghost predicate WasHeld(t: Table, commits: seq<Write>, when: seq<nat>, out: seq<Write>) {
    && |when| == |out|
    && (forall j :: 0 <= j < |out| ==>
          && when[j] <= |commits|
          && out[j].key in MergeAll(t, commits[..when[j]])
          && out[j].rec == MergeAll(t, commits[..when[j]])[out[j].key])
  }

  /** Other threads' writes; `commits` are those that took effect. */
  method OtherWrites(db: Database, attempts: seq<Attempt>) returns (ghost commits: seq<Write>)
    modifies db`db
    ensures forall w :: w in commits ==> exists a :: a in attempts && a.write == w
    ensures old(db.Valid()) ==> db.Valid() && db.View() == MergeAll(old(db.View()), commits)
  {
    commits := [];
    for i := 0 to |attempts|
      invariant forall w :: w in commits ==> exists a :: a in attempts && a.write == w
      invariant old(db.Valid()) ==> db.Valid() && db.View() == MergeAll(old(db.View()), commits)
    {
      if InRange(attempts[i].write.rec) {
        var rc := db.ApplyRecord(attempts[i].write.key, attempts[i].write.rec, attempts[i].faults);
        if rc != Error {
          assert (commits + [attempts[i].write])[..|commits|] == commits;
          commits := commits + [attempts[i].write];
        }
      }
    }
  }

  lemma CoveredGrows(t: Table, u: Table, at: Option<Key>, out: seq<Write>, k: Key, r: Record)
    requires Covered(t, at, out) && Dominates(u, t)
    requires KeyOrder.IsLeast(After(u.Keys, at), k) && r == u[k]
    ensures Covered(t, Some(k), out + [Write(k, r)])
  {
    var out' := out + [Write(k, r)];
    forall j | j in t && Reached(Some(k), j)
      ensures exists i :: 0 <= i < |out'| && out'[i].key == j && AtMost(t[j].stamp, out'[i].rec.stamp) {
      if j == k {
        assert out'[|out|].key == k;
      } else {
        KeyOrder.LessIsStrict(j, k);
        assert j !in After(u.Keys, at);
        KeyOrder.LessIsTotal(j, at.value);
        var i :| 0 <= i < |out| && out[i].key == j && AtMost(t[j].stamp, out[i].rec.stamp);
        assert out'[i] == out[i];
      }
    }
  }

  lemma CoveredAtEnd(t: Table, u: Table, at: Option<Key>, out: seq<Write>)
    requires Covered(t, at, out) && Dominates(u, t) && After(u.Keys, at) == {}
    ensures Complete(t, out)
  {
    forall k | k in t ensures Reached(at, k) {
      assert k !in After(u.Keys, at);
      KeyOrder.LessIsTotal(k, at.value);
    }
  }

  lemma WasHeldGrows(t: Table, commits: seq<Write>, more: seq<Write>, when: seq<nat>, out: seq<Write>)
    requires WasHeld(t, commits, when, out)
    ensures WasHeld(t, commits + more, when, out)
  {
    forall j | 0 <= j < |out| ensures (commits + more)[..when[j]] == commits[..when[j]] {
    }
  }

  datatype Fetch = Found(write: Write) | NoMore | Corrupt | Failed

  /** One cursor read under the lock and the copy of what it read: the next record in key order,
      unless the read or the copy fails. */
  method CursorGet(db: Database, at: Option<Key>, fails: bool) returns (f: Fetch)
    ensures f == Failed <==> fails
    ensures f == NoMore <==> !fails && After(db.db.Keys, at) == {}
    ensures f.Found? ==> KeyOrder.IsLeast(After(db.db.Keys, at), f.write.key) && f.write.rec == db.View()[f.write.key]
    ensures f.Found? ==> InRange(f.write.rec)
    ensures f == Corrupt ==> !db.Valid()
  {
    if fails {
      return Failed;
    }
    if After(db.db.Keys, at) == {} {
      return NoMore;
    }
    KeyOrder.LeastExists(After(db.db.Keys, at));
    var key :| key in After(db.db.Keys, at) && forall j :: j in After(db.db.Keys, at) && j != key ==>
        KeyOrder.Less(key, j);
    var data := db.db[key];
    if !EntryIsValid(db.order, data) || |key| == 0 || |key| > MAX_KEY_LEN {
      return Corrupt;
    }
    UnpackInRange(db.order, data);
    f := Found(Write(key, Unpack(db.order, data)));
  }

  /** Where a scan of a store that started as `t` stands: what has been committed since, and
      what has been handed out. */
  ghost predicate Scanning(t: Table, now: Table, commits: seq<Write>, when: seq<nat>, at: Option<Key>,
                           out: seq<Write>) {
    now == MergeAll(t, commits) && WasHeld(t, commits, when, out) && Covered(t, at, out)
  }

  lemma ScanningCommits(t: Table, now: Table, commits: seq<Write>, when: seq<nat>, at: Option<Key>, out: seq<Write>,
                        more: seq<Write>)
    requires Scanning(t, now, commits, when, at, out)
    ensures Scanning(t, MergeAll(now, more), commits + more, when, at, out)
  {
    MergeAllConcat(t, commits, more);
    WasHeldGrows(t, commits, more, when, out);
  }

  lemma ScanningReads(t: Table, now: Table, commits: seq<Write>, when: seq<nat>, at: Option<Key>, out: seq<Write>,
                      w: Write)
    requires Scanning(t, now, commits, when, at, out)
    requires KeyOrder.IsLeast(After(now.Keys, at), w.key) && w.rec == now[w.key]
    ensures Scanning(t, now, commits, when + [|commits|], Some(w.key), out + [w])
  {
    MergeAllDominates(t, commits, []);
    CoveredGrows(t, now, at, out, w.key, w.rec);
    assert commits[..|commits|] == commits;
  }

  lemma ScanningEnds(t: Table, now: Table, commits: seq<Write>, when: seq<nat>, at: Option<Key>, out: seq<Write>)
    requires Scanning(t, now, commits, when, at, out) && After(now.Keys, at) == {}
    ensures Complete(t, out)
  {
    MergeAllDominates(t, commits, []);
    CoveredAtEnd(t, now, at, out);
  }

  /** The cursor loop. `others[i]` is what other threads attempt while the lock is free before
      the i-th cursor read; `readFails` are the reads that fail and `sendFails` those whose
      callback does. */
  method SnapshotForeach(db: Database, others: seq<seq<Attempt>>, readFails: set<nat>, sendFails: set<nat>)
    returns (rc: Rc, out: seq<Write>, ghost commits: seq<Write>, ghost when: seq<nat>)
    modifies db`db
    ensures rc == Applied || rc == Error
    ensures forall w :: w in out ==> InRange(w.rec)
    ensures old(db.Valid()) ==>
              && db.Valid() && db.View() == MergeAll(old(db.View()), commits)
              && WasHeld(old(db.View()), commits, when, out)
              && (rc == Applied ==> Complete(old(db.View()), out))
              && (db.open && readFails == {} && sendFails == {} ==> rc == Applied)
  {
    out, commits, when, rc := [], [], [], Error;
    if !db.open {
      return;
    }
    var at: Option<Key> := None;
    var i := 0;
    while true
      invariant i >= 0 && db.open && rc == Error
      invariant forall w :: w in out ==> InRange(w.rec)
      invariant old(db.Valid()) ==> db.Valid() && Scanning(old(db.View()), db.View(), commits, when, at, out)
      decreases if i < |others| then |others| - i else 0, After(db.db.Keys, at)
    {
      if i < |others| {
        ghost var now := db.View();
        ghost var more := OtherWrites(db, others[i]);
        if old(db.Valid()) {
          ScanningCommits(old(db.View()), now, commits, when, at, out, more);
        }
        commits := commits + more;
      }
      var f := CursorGet(db, at, i in readFails);
      if f == NoMore {
        if old(db.Valid()) {
          ScanningEnds(old(db.View()), db.View(), commits, when, at, out);
        }
        rc := Applied;
        return;
      }
      if f == Corrupt || f == Failed {
        return;
      }
      if old(db.Valid()) {
        ScanningReads(old(db.View()), db.View(), commits, when, at, out, f.write);
      }
      AfterShrinks(db.db.Keys, at, f.write.key);
      out, when, at := out + [f.write], when + [|commits|], Some(f.write.key);
      if i in sendFails {
        return;
      }
      i := i + 1;
    }
  }

  lemma AfterShrinks(keys: set<Key>, at: Option<Key>, key: Key)
    requires key in After(keys, at)
    ensures After(keys, Some(key)) < After(keys, at)
  {
    KeyOrder.LessIsStrict(key, key);
    forall k | k in After(keys, Some(key)) ensures k in After(keys, at) {
      if at.Some? { KeyOrder.LessIsTransitive(at.value, key, k); }
    }
  }

  // ----- Receiving -----

  /** Every SYNC frame before the END frame is among the commits. */
  ghost predicate Transferred(frames: seq<Frame>, commits: seq<Write>) {
    exists e :: 0 <= e < |frames| && frames[e] == End && SyncsIn(frames, e, commits)
  }

  ghost predicate SyncsIn(frames: seq<Frame>, n: nat, commits: seq<Write>)
    requires n <= |frames|
  {
    forall j :: 0 <= j < n && frames[j].Sync? ==> frames[j].write in commits
  }

  /** Each commit comes from a SYNC frame or from another thread. */
  ghost predicate Accounted(commits: seq<Write>, frames: seq<Frame>, others: seq<seq<Attempt>>) {
    forall w :: w in commits ==> Sync(w) in frames || ByOthers(w, others)
  }

  ghost predicate ByOthers(w: Write, others: seq<seq<Attempt>>) {
    exists i, a :: 0 <= i < |others| && a in others[i] && a.write == w
  }

  /** The receiving loop. `others[i]` is what other threads attempt before the i-th frame is
      applied, and the i-th apply meets `faults[i]`; a stream that ends early is a failure. */
  method RequestSnapshot(db: Database, frames: seq<Frame>, others: seq<seq<Attempt>>, faults: seq<Faults>)
    returns (ok: bool, ghost commits: seq<Write>)
    requires forall f :: f in frames && f.Sync? ==> InRange(f.write.rec)
    modifies db`db
    ensures old(db.Valid()) ==> db.Valid() && db.View() == MergeAll(old(db.View()), commits)
    ensures Accounted(commits, frames, others)
    ensures ok ==> Transferred(frames, commits)
  {
    commits := [];
    var sawBegin := false;
    for i := 0 to |frames|
      invariant old(db.Valid()) ==> db.Valid() && db.View() == MergeAll(old(db.View()), commits)
      invariant Accounted(commits, frames, others)
      invariant SyncsIn(frames, i, commits)
    {
      if i < |others| {
        ghost var more := OtherWrites(db, others[i]);
        CommitOthers(old(db.View()), commits, more, frames, others, i);
        commits := commits + more;
      }
      match frames[i]
      case Begin =>
        sawBegin := true;
      case Sync(w) =>
        if !sawBegin {
          return false, commits;
        }
        var rc := db.ApplyRecord(w.key, w.rec, if i < |faults| then faults[i] else Faults(false, false, false));
        if rc == Error {
          return false, commits;
        }
        CommitSync(old(db.View()), commits, w, frames, others, i);
        commits := commits + [w];
      case End =>
        return sawBegin, commits;
      case Other =>
        return false, commits;
    }
    ok := false;
  }

  lemma CommitSync(t: Table, commits: seq<Write>, w: Write, frames: seq<Frame>, others: seq<seq<Attempt>>, i: nat)
    requires i < |frames| && Accounted(commits, frames, others) && SyncsIn(frames, i, commits) && frames[i] == Sync(w)
    ensures SyncsIn(frames, i + 1, commits + [w])
    ensures MergeAll(t, commits + [w]) == Merge(MergeAll(t, commits), w)
    ensures Accounted(commits + [w], frames, others)
  {
    assert (commits + [w])[..|commits|] == commits;
  }

  lemma CommitOthers(t: Table, commits: seq<Write>, more: seq<Write>, frames: seq<Frame>, others: seq<seq<Attempt>>,
                     i: nat)
    requires i < |frames| && Accounted(commits, frames, others) && SyncsIn(frames, i, commits) && i < |others|
    requires forall w :: w in more ==> exists a :: a in others[i] && a.write == w
    ensures SyncsIn(frames, i, commits + more)
    ensures MergeAll(t, commits + more) == MergeAll(MergeAll(t, commits), more)
    ensures Accounted(commits + more, frames, others)
  {
    MergeAllConcat(t, commits, more);
    forall w | w in commits + more ensures Sync(w) in frames || ByOthers(w, others) {
      if w in more && w !in commits {
        var a :| a in others[i] && a.write == w;
        assert ByOthers(w, others);
      }
    }
  }

  function Syncs(ws: seq<Write>): (fs: seq<Frame>)
    ensures |fs| == |ws|
    ensures forall i :: 0 <= i < |ws| ==> fs[i] == Sync(ws[i])
  {
    seq(|ws|, i requires 0 <= i < |ws| => Sync(ws[i]))
  }

  /** A whole bootstrap: the stream may be cut anywhere. If the receiver reports success, it
      holds every key of the sender's store as of the opening of the cursor with a stamp at
      least as late. What it gained came from its own threads or was, at some moment of the
      scan, in the sender's store. */
  method Bootstrap(sender: Database, receiver: Database, senderOthers: seq<seq<Attempt>>, readFails: set<nat>,
                   sendFails: set<nat>,
                   cut: nat, receiverOthers: seq<seq<Attempt>>, faults: seq<Faults>)
    returns (ok: bool, ghost gained: seq<Write>, ghost commits: seq<Write>, ghost when: seq<nat>,
             ghost sent: seq<Write>)
    requires sender != receiver
    modifies sender`db, receiver`db
    ensures old(sender.Valid()) && old(receiver.Valid()) ==>
              && sender.Valid() && sender.View() == MergeAll(old(sender.View()), commits)
              && receiver.Valid() && receiver.View() == MergeAll(old(receiver.View()), gained)
              && (ok ==> Dominates(receiver.View(), old(sender.View())))
              && (forall w :: w in gained ==> w in sent || ByOthers(w, receiverOthers))
              && WasHeld(old(sender.View()), commits, when, sent)
  {
    var rc, out;
    rc, out, commits, when := SnapshotForeach(sender, senderOthers, readFails, sendFails);
    sent := out;
    var frames := [Begin] + Syncs(out) + (if rc == Applied then [End] else []);
    var received := if cut < |frames| then frames[..cut] else frames;
    ok, gained := RequestSnapshot(receiver, received, receiverOthers, faults);
    forall w | w in gained ensures w in sent || ByOthers(w, receiverOthers) {
      if Sync(w) in received {
        var j :| 0 <= j < |received| && received[j] == Sync(w);
        assert frames[j] == Sync(w);
      }
    }
    if ok && old(sender.Valid()) && old(receiver.Valid()) {
      EndIsLast(out, rc, received, gained);
      ReceiverDominates(old(sender.View()), out, old(receiver.View()), gained);
    }
  }

  lemma EndIsLast(out: seq<Write>, rc: Rc, received: seq<Frame>, gained: seq<Write>)
    requires var frames := [Begin] + Syncs(out) + (if rc == Applied then [End] else []);
             received <= frames
    requires Transferred(received, gained)
    ensures rc == Applied && forall w :: w in out ==> w in gained
  {
    var frames := [Begin] + Syncs(out) + (if rc == Applied then [End] else []);
    var e :| 0 <= e < |received| && received[e] == End && SyncsIn(received, e, gained);
    assert frames[e] == End;
    assert e == |out| + 1;
    forall w | w in out ensures w in gained {
      var j :| 0 <= j < |out| && out[j] == w;
      assert received[j + 1] == frames[j + 1] == Sync(w);
    }
  }

  lemma ReceiverDominates(t: Table, out: seq<Write>, r: Table, gained: seq<Write>)
    requires Complete(t, out) && forall w :: w in out ==> w in gained
    ensures Dominates(MergeAll(r, gained), t)
  {
    forall k | k in t ensures k in MergeAll(r, gained) && AtMost(t[k].stamp, MergeAll(r, gained)[k].stamp) {
      var j :| 0 <= j < |out| && out[j].key == k && AtMost(t[k].stamp, out[j].rec.stamp);
      MergeAllIsGreatest(r, gained, k);
      assert Candidate(r, gained, k, out[j].rec);
      AtMostTransitive(t[k].stamp, out[j].rec.stamp, MergeAll(r, gained)[k].stamp);
    }
  }
}
