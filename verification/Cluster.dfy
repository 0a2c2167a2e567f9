/** The whole way of a record: made at one node, offered to the outbox of every peer, sent,
    received and applied there. When every outbox has drained and nothing was dropped on the way,
    every broadcast has been delivered, and the convergence results apply. */
module Cluster {
  import opened Bytes
  import opened Handshake
  import opened Lww
  import opened Wire
  import C = ClusterId
  import D = Delivery
  import L = Listener
  import O = Outbox
  import P = Packing
  import R = Replication

  /** From one node to another. */
  datatype Pair = Pair(from: R.NodeId, to: R.NodeId)

  /** The link of each pair, and the body of the message that carries a record. */
  datatype Setup = Setup(link: Pair -> D.Link, body: Write -> seq<byte>)

  /** A pair: the records offered to its outbox, those refused because it was full, and its link. */
  datatype Way = Way(offered: set<Write>, refused: set<Write>, link: D.World)

  /** The replication state and the events that led to it; the records that found no free command
      slot and so are offered to nobody; and every pair. */
  datatype Net = Net(repl: R.State, trace: seq<R.Event>, dropped: set<Write>, ways: map<Pair, Way>)

  datatype Event =
    | Local(e: R.Event, slot: bool)
    | Snapshot(e: R.Event)
    | Offer(p: Pair, w: Write, now: nat)
    | Along(p: Pair, mv: D.Move)

  function Init(nodes: set<R.NodeId>, pairs: set<Pair>): Net {
    Net(R.Init(nodes), [], {}, map p | p in pairs :: Way({}, {}, D.Init()))
  }

  function Replicate(net: Net, e: R.Event): Net {
    net.(repl := R.Step(net.repl, e), trace := net.trace + [e])
  }

  predicate Storable(w: Write) {
    P.Storable(w.key, w.rec)
  }

  /** The record in the frame of a message. */
  function Carried(k: D.Link, m: O.Msg): Write {
    Write(k.encode(m).key, L.RecordOf(k.encode(m)))
  }

  /** A listener that receives the message merges its record. */
  predicate Merges(k: D.Link, r: D.Receipt) {
    r.applied && r.clean && Storable(Carried(k, r.posted.msg))
  }

  /** The receipt that a move along a link brings about, if any. */
  function NewReceipt(before: D.World, after: D.World): Option<D.Receipt> {
    if |before.receipts| < |after.receipts| then Some(after.receipts[|before.receipts|]) else None
  }

  /** broadcast_sync for one peer. */
  function Offered(c: Setup, p: Pair, y: Way, w: Write, now: nat): Way {
    Way(y.offered + {w}, y.refused + if y.link.peer.outboxCount >= O.MAX_MSG then {w} else {},
        D.Step(c.link(p), y.link, D.Alone(O.Broadcast(c.body(w), now))))
  }

  function Moved(c: Setup, p: Pair, y: Way, mv: D.Move): Way {
    y.(link := D.Step(c.link(p), y.link, mv))
  }

  function Step(c: Setup, net: Net, e: Event): Net {
    match e
    case Local(e, slot) =>
      // Requests out of bounds change nothing.
      var next := Replicate(net, e);
      var made := R.Messages(next.repl) - R.Messages(net.repl);
      if (!e.LocalSet? && !e.LocalDel?) || exists w :: w in made && !Storable(w) then net
      else next.(dropped := next.dropped + if slot then {} else made)
    case Snapshot(e) => if e.SnapshotRead? || e.SnapshotApply? then Replicate(net, e) else net
    case Offer(p, w, now) =>
      if p !in net.ways || w !in R.Messages(net.repl) || w.rec.stamp.node != p.from || w in net.dropped then net
      else net.(ways := net.ways[p := Offered(c, p, net.ways[p], w, now)])
    case Along(p, mv) =>
      if p !in net.ways || IsBroadcast(mv) then net
      else
        var y := Moved(c, p, net.ways[p], mv);
        var r := NewReceipt(net.ways[p].link, y.link);
        var moved := net.(ways := net.ways[p := y]);
        if r.Some? && Merges(c.link(p), r.value)
        then Replicate(moved, R.Deliver(p.to, Carried(c.link(p), r.value.posted.msg))) else moved
  }

  predicate IsBroadcast(mv: D.Move) {
    mv.Alone? && mv.e.Broadcast?
  }

  function Run(c: Setup, nodes: set<R.NodeId>, pairs: set<Pair>, es: seq<Event>): Net {
    if es == [] then Init(nodes, pairs) else Step(c, Run(c, nodes, pairs, es[..|es| - 1]), es[|es| - 1])
  }

  // ----- What every step keeps -----

  /** Links between all different nodes, none of which has id 0; every link with a secret, answering
      and framing as it should; and message bodies whose frames carry the record. */
  ghost predicate Sound(c: Setup, nodes: set<R.NodeId>, pairs: set<Pair>) {
    && 0 !in nodes
    && (forall p :: p in pairs <==> p.from in nodes && p.to in nodes && p.from != p.to)
    && (forall p {:trigger c.link(p)} :: p in pairs ==>
          && D.AnswersFirst(c.link(p)) && D.Honest(c.link(p).listener, c.link(p).encode)
          && c.link(p).client.secret != [])
    && (forall p, w {:trigger CarriedBy(c, p, w)} ::
          p in pairs && Storable(w) && w.rec.stamp.node == p.from ==> CarriedBy(c, p, w))
  }

  ghost predicate CarriedBy(c: Setup, p: Pair, w: Write) {
    forall m: O.Msg {:trigger Carried(c.link(p), m)} :: m.body == c.body(w) ==> Carried(c.link(p), m) == w
  }

  /** What was offered was broadcast by the pair's node and is refused or accepted; what is accepted
      was offered; what the listener merged has been seen. */
  ghost predicate Records(c: Setup, p: Pair, msgs: set<Write>, seen: set<Write>, offered: set<Write>,
                          refused: set<Write>, accepted: seq<O.Msg>, receipts: seq<D.Receipt>) {
    && offered <= msgs
    && (forall x :: x in offered ==> x.rec.stamp.node == p.from && (x in refused || Accepted(c, accepted, x)))
    && (forall i :: 0 <= i < |accepted| ==> Carried(c.link(p), accepted[i]) in offered)
    && (forall j :: 0 <= j < |receipts| && Merges(c.link(p), receipts[j]) ==>
                      Carried(c.link(p), receipts[j].posted.msg) in seen)
  }

  ghost predicate Accepted(c: Setup, accepted: seq<O.Msg>, x: Write) {
    exists i :: 0 <= i < |accepted| && accepted[i].body == c.body(x)
  }

  ghost predicate WayOk(c: Setup, p: Pair, msgs: set<Write>, seen: set<Write>, y: Way) {
    D.Inv(c.link(p), y.link) && Records(c, p, msgs, seen, y.offered, y.refused, y.link.peer.accepted, y.link.receipts)
  }

  ghost predicate WaysOk(c: Setup, msgs: set<Write>, seen: map<R.NodeId, set<Write>>, ways: map<Pair, Way>) {
    forall p {:trigger ways[p]} :: p in ways ==> p.to in seen && WayOk(c, p, msgs, seen[p.to], ways[p])
  }

  ghost predicate Inv(c: Setup, nodes: set<R.NodeId>, pairs: set<Pair>, net: Net) {
    && net.repl == R.Run(nodes, net.trace)
    && net.repl.seen.Keys == nodes && net.ways.Keys == pairs
    && (forall w :: w in R.Messages(net.repl) ==> Storable(w))
    && WaysOk(c, R.Messages(net.repl), net.repl.seen, net.ways)
  }

  // ----- The replication state moves -----

  lemma ReplGrows(s: R.State, e: R.Event)
    ensures R.Messages(s) <= R.Messages(R.Step(s, e))
    ensures e.LocalSet? || e.LocalDel? || R.Messages(R.Step(s, e)) == R.Messages(s)
    ensures R.Step(s, e).seen.Keys == s.seen.Keys
    ensures forall n :: n in s.seen ==> s.seen[n] <= R.Step(s, e).seen[n]
  {
    var s' := R.Step(s, e);
    forall w | w in R.Messages(s) ensures w in R.Messages(s') {
      if w !in s.sets {
        var d :| d in s.dels && w == R.SentTombstone(d);
        assert d in s'.dels;
      }
    }
  }

  lemma WaysStay(c: Setup, msgs: set<Write>, seen: map<R.NodeId, set<Write>>, ways: map<Pair, Way>, msgs': set<Write>,
                 seen': map<R.NodeId, set<Write>>)
    requires WaysOk(c, msgs, seen, ways) && msgs <= msgs' && seen.Keys == seen'.Keys
    requires forall n :: n in seen ==> seen[n] <= seen'[n]
    ensures WaysOk(c, msgs', seen', ways)
  {
  }

  lemma ReplicateKeepsInv(c: Setup, nodes: set<R.NodeId>, pairs: set<Pair>, net: Net, e: R.Event)
    requires Inv(c, nodes, pairs, net)
    requires forall w :: w in R.Messages(R.Step(net.repl, e)) - R.Messages(net.repl) ==> Storable(w)
    ensures Inv(c, nodes, pairs, Replicate(net, e))
  {
    R.RunSnoc(nodes, net.trace, e);
    ReplGrows(net.repl, e);
    var s' := R.Step(net.repl, e);
    WaysStay(c, R.Messages(net.repl), net.repl.seen, net.ways, R.Messages(s'), s'.seen);
  }

  // ----- A pair moves -----

  lemma AcceptedSame(k: D.Link, w: D.World, mv: D.Move)
    requires !IsBroadcast(mv)
    ensures D.Step(k, w, mv).peer.accepted == w.peer.accepted
  {
  }

  lemma ReceiptsGrow(k: D.Link, w: D.World, mv: D.Move)
    ensures var after, r := D.Step(k, w, mv), NewReceipt(w, D.Step(k, w, mv));
            after.receipts == w.receipts + if r.Some? then [r.value] else []
  {
  }

  lemma SentIsAccepted(p: O.Peer, m: O.Msg)
    requires O.Inv(p) && m in p.sent
    ensures m in p.accepted
  {
    O.SelectAscends(p.accepted, p.fates, O.Sent);
  }

  lemma ReceivedIsAccepted(k: D.Link, w: D.World, mv: D.Move)
    requires D.Inv(k, D.Step(k, w, mv)) && !IsBroadcast(mv)
    ensures var r := NewReceipt(w, D.Step(k, w, mv)); r.Some? ==> r.value.posted.msg in w.peer.accepted
  {
    var after := D.Step(k, w, mv);
    if |w.receipts| < |after.receipts| {
      var r := after.receipts[|w.receipts|];
      assert D.Exact(r, after.peer.sent);
      SentIsAccepted(after.peer, r.posted.msg);
      AcceptedSame(k, w, mv);
    }
  }

  lemma WayMoves(c: Setup, p: Pair, msgs: set<Write>, seen: set<Write>, y: Way, mv: D.Move)
    requires WayOk(c, p, msgs, seen, y) && !IsBroadcast(mv)
    requires D.Inv(c.link(p), D.Step(c.link(p), y.link, mv))
    requires var r := NewReceipt(y.link, Moved(c, p, y, mv).link);
             r.Some? && Merges(c.link(p), r.value) ==> Carried(c.link(p), r.value.posted.msg) in seen
    ensures WayOk(c, p, msgs, seen, Moved(c, p, y, mv))
  {
    AcceptedSame(c.link(p), y.link, mv);
    ReceiptsGrow(c.link(p), y.link, mv);
  }

  lemma BroadcastEffect(k: D.Link, w: D.World, body: seq<byte>, now: nat) returns (m: O.Msg)
    ensures var after := D.Step(k, w, D.Alone(O.Broadcast(body, now)));
            && m.body == body && after.receipts == w.receipts
            && after.peer.accepted == w.peer.accepted + if w.peer.outboxCount >= O.MAX_MSG then [] else [m]
  {
    var after := D.Step(k, w, D.Alone(O.Broadcast(body, now)));
    m := if w.peer.outboxCount >= O.MAX_MSG then O.Msg(0, body, now) else after.peer.accepted[|w.peer.accepted|];
  }

  lemma RecordsAppend(c: Setup, p: Pair, msgs: set<Write>, seen: set<Write>, y: Way, accepted: seq<O.Msg>,
                      receipts: seq<D.Receipt>, x: Write, m: O.Msg)
    requires Records(c, p, msgs, seen, y.offered, y.refused, accepted, receipts)
    requires x in msgs && x.rec.stamp.node == p.from && m.body == c.body(x) && Carried(c.link(p), m) == x
    ensures Records(c, p, msgs, seen, y.offered + {x}, y.refused + {x}, accepted, receipts)
    ensures Records(c, p, msgs, seen, y.offered + {x}, y.refused, accepted + [m], receipts)
  {
    assert (accepted + [m])[|accepted|] == m;
    forall z | z in y.offered ensures z in y.refused || Accepted(c, accepted + [m], z) {
      if z !in y.refused {
        var i :| 0 <= i < |accepted| && accepted[i].body == c.body(z);
        assert (accepted + [m])[i] == accepted[i];
      }
    }
  }

  lemma WayOffered(c: Setup, p: Pair, msgs: set<Write>, seen: set<Write>, y: Way, x: Write, now: nat)
    requires WayOk(c, p, msgs, seen, y) && x in msgs && x.rec.stamp.node == p.from && CarriedBy(c, p, x)
    requires D.Inv(c.link(p), Offered(c, p, y, x, now).link)
    ensures WayOk(c, p, msgs, seen, Offered(c, p, y, x, now))
  {
    var m := BroadcastEffect(c.link(p), y.link, c.body(x), now);
    assert Carried(c.link(p), m) == x;
    RecordsAppend(c, p, msgs, seen, y, y.link.peer.accepted, y.link.receipts, x, m);
  }

  lemma WayReplaced(c: Setup, msgs: set<Write>, seen: map<R.NodeId, set<Write>>, ways: map<Pair, Way>, p: Pair, y: Way)
    requires WaysOk(c, msgs, seen, ways) && p.to in seen && WayOk(c, p, msgs, seen[p.to], y)
    ensures WaysOk(c, msgs, seen, ways[p := y])
  {
  }

  // ----- Every run -----

  lemma OfferKeepsWays(c: Setup, msgs: set<Write>, seen: map<R.NodeId, set<Write>>, ways: map<Pair, Way>, p: Pair,
                       x: Write, now: nat)
    requires WaysOk(c, msgs, seen, ways) && p in ways && x in msgs && x.rec.stamp.node == p.from && CarriedBy(c, p, x)
    requires D.Inv(c.link(p), Offered(c, p, ways[p], x, now).link)
    ensures WaysOk(c, msgs, seen, ways[p := Offered(c, p, ways[p], x, now)])
  {
    WayOffered(c, p, msgs, seen[p.to], ways[p], x, now);
    WayReplaced(c, msgs, seen, ways, p, Offered(c, p, ways[p], x, now));
  }

  lemma OfferKeepsInv(c: Setup, nodes: set<R.NodeId>, pairs: set<Pair>, net: Net, e: Event)
    requires Sound(c, nodes, pairs) && Inv(c, nodes, pairs, net) && e.Offer?
    ensures Inv(c, nodes, pairs, Step(c, net, e))
  {
    var p, x, msgs := e.p, e.w, R.Messages(net.repl);
    if p in net.ways && x in msgs && x.rec.stamp.node == p.from && x !in net.dropped {
      var y := net.ways[p];
      D.StepKeepsInv(c.link(p), y.link, D.Alone(O.Broadcast(c.body(x), e.now)));
      assert CarriedBy(c, p, x);
      OfferKeepsWays(c, msgs, net.repl.seen, net.ways, p, x, e.now);
    }
  }

  /** A pair moves, once what the move delivers has been delivered. */
  lemma MoveKeepsWays(c: Setup, msgs: set<Write>, seen: map<R.NodeId, set<Write>>, ways: map<Pair, Way>, p: Pair,
                      mv: D.Move)
    requires WaysOk(c, msgs, seen, ways) && p in ways && !IsBroadcast(mv)
    requires D.Inv(c.link(p), D.Step(c.link(p), ways[p].link, mv))
    requires var r := NewReceipt(ways[p].link, Moved(c, p, ways[p], mv).link);
             r.Some? && Merges(c.link(p), r.value) ==>
             p.to in seen && Carried(c.link(p), r.value.posted.msg) in seen[p.to]
    ensures WaysOk(c, msgs, seen, ways[p := Moved(c, p, ways[p], mv)])
  {
    WayMoves(c, p, msgs, seen[p.to], ways[p], mv);
    WayReplaced(c, msgs, seen, ways, p, Moved(c, p, ways[p], mv));
  }

  lemma DeliverIsSeen(nodes: set<R.NodeId>, trace: seq<R.Event>, n: R.NodeId, w: Write)
    requires n in nodes && w in R.Messages(R.Run(nodes, trace)) && w.rec.stamp.node != n && w.rec.stamp.node != 0
    ensures var s := R.Step(R.Run(nodes, trace), R.Deliver(n, w)); n in s.seen && w in s.seen[n]
  {
    R.RunKeepsInv(nodes, trace);
  }

  lemma AlongKeepsInv(c: Setup, nodes: set<R.NodeId>, pairs: set<Pair>, net: Net, e: Event)
    requires Sound(c, nodes, pairs) && Inv(c, nodes, pairs, net) && e.Along?
    ensures Inv(c, nodes, pairs, Step(c, net, e))
  {
    var p, mv := e.p, e.mv;
    if p in net.ways && !IsBroadcast(mv) {
      var k, y := c.link(p), net.ways[p];
      D.StepKeepsInv(k, y.link, mv);
      var r := NewReceipt(y.link, Moved(c, p, y, mv).link);
      if r.Some? && Merges(k, r.value) {
        ReceivedIsAccepted(k, y.link, mv);
        var w := Carried(k, r.value.posted.msg);
        DeliverIsSeen(nodes, net.trace, p.to, w);
        ReplGrows(net.repl, R.Deliver(p.to, w));
        ReplicateKeepsInv(c, nodes, pairs, net, R.Deliver(p.to, w));
        var s' := R.Step(net.repl, R.Deliver(p.to, w));
        MoveKeepsWays(c, R.Messages(s'), s'.seen, net.ways, p, mv);
      } else {
        MoveKeepsWays(c, R.Messages(net.repl), net.repl.seen, net.ways, p, mv);
      }
    }
  }

  lemma OwnKeepsInv(c: Setup, nodes: set<R.NodeId>, pairs: set<Pair>, net: Net, e: Event)
    requires Inv(c, nodes, pairs, net) && (e.Local? || e.Snapshot?)
    ensures Inv(c, nodes, pairs, Step(c, net, e))
  {
    ReplGrows(net.repl, e.e);
    if Step(c, net, e) != net {
      ReplicateKeepsInv(c, nodes, pairs, net, e.e);
    }
  }

  lemma {:induction false} RunKeepsInv(c: Setup, nodes: set<R.NodeId>, pairs: set<Pair>, es: seq<Event>)
    requires Sound(c, nodes, pairs)
    ensures Inv(c, nodes, pairs, Run(c, nodes, pairs, es))
  {
    if es == [] {
      assert forall p {:trigger c.link(p)} :: D.Inv(c.link(p), D.Init());
    } else {
      var net, e := Run(c, nodes, pairs, es[..|es| - 1]), es[|es| - 1];
      RunKeepsInv(c, nodes, pairs, es[..|es| - 1]);
      match e
      case Offer(_, _, _) => OfferKeepsInv(c, nodes, pairs, net, e);
      case Along(_, _) => AlongKeepsInv(c, nodes, pairs, net, e);
      case _ => OwnKeepsInv(c, nodes, pairs, net, e);
    }
  }

  // ----- Convergence -----

  /** A pair is done: all that its node broadcast was offered, none of it met a full outbox, nothing
      is queued or expired, and everything sent was received in time by a store without faults. */
  ghost predicate Drained(msgs: set<Write>, p: Pair, y: Way) {
    && (forall w :: w in msgs && w.rec.stamp.node == p.from ==> w in y.offered)
    && y.refused == {} && y.link.peer.outbox == [] && y.link.peer.expired == []
    && (forall m :: m in y.link.peer.sent ==> ReceivedInTime(y.link.receipts, m))
  }

  ghost predicate ReceivedInTime(receipts: seq<D.Receipt>, m: O.Msg) {
    exists j :: 0 <= j < |receipts| && receipts[j].posted.msg == m && D.InTime(receipts[j]) && receipts[j].clean
  }

  ghost predicate AllDrained(net: Net) {
    forall p {:trigger net.ways[p]} :: p in net.ways ==> Drained(R.Messages(net.repl), p, net.ways[p])
  }

  lemma AcceptedWasSent(p: O.Peer, i: nat)
    requires O.Inv(p) && p.outbox == [] && p.expired == [] && i < |p.accepted|
    ensures p.accepted[i] in p.sent
  {
    O.AcceptedFate(p, i);
  }

  lemma DrainedDelivers(c: Setup, p: Pair, msgs: set<Write>, seen: set<Write>, y: Way, w: Write)
    requires WayOk(c, p, msgs, seen, y) && Drained(msgs, p, y)
    requires w in msgs && w.rec.stamp.node == p.from && Storable(w) && CarriedBy(c, p, w)
    ensures w in seen
  {
    var peer, receipts := y.link.peer, y.link.receipts;
    assert Accepted(c, peer.accepted, w);
    var i :| 0 <= i < |peer.accepted| && peer.accepted[i].body == c.body(w);
    AcceptedWasSent(peer, i);
    assert ReceivedInTime(receipts, peer.accepted[i]);
    var j :| 0 <= j < |receipts| && receipts[j].posted.msg == peer.accepted[i] &&
             D.InTime(receipts[j]) && receipts[j].clean;
    assert D.Exact(receipts[j], peer.sent);
    assert Carried(c.link(p), peer.accepted[i]) == w;
  }

  lemma DrainedReaches(c: Setup, nodes: set<R.NodeId>, pairs: set<Pair>, net: Net, p: Pair, w: Write)
    requires Sound(c, nodes, pairs) && Inv(c, nodes, pairs, net) && AllDrained(net)
    requires p in pairs && w in R.Messages(net.repl) && w.rec.stamp.node == p.from
    ensures p.to in net.repl.seen && w in net.repl.seen[p.to]
  {
    assert CarriedBy(c, p, w);
    DrainedDelivers(c, p, R.Messages(net.repl), net.repl.seen[p.to], net.ways[p], w);
  }

  /** In every run of the whole cluster, whatever the clocks, failures, reconnections and
      interleavings: once all pairs are drained, every broadcast has reached every node. */
  lemma DrainedIsDelivered(c: Setup, nodes: set<R.NodeId>, pairs: set<Pair>, es: seq<Event>)
    requires Sound(c, nodes, pairs) && AllDrained(Run(c, nodes, pairs, es))
    ensures var net := Run(c, nodes, pairs, es); net.repl == R.Run(nodes, net.trace) && R.AllDelivered(net.repl)
  {
    var net := Run(c, nodes, pairs, es);
    RunKeepsInv(c, nodes, pairs, es);
    R.RunKeepsInv(nodes, net.trace);
    var s := net.repl;
    forall n, w | n in s.seen && w in s.sets ensures w in s.seen[n] {
      if w.rec.stamp.node != n {
        DrainedReaches(c, nodes, pairs, net, Pair(w.rec.stamp.node, n), w);
      }
    }
    forall n, d | n in s.seen && d in s.dels && d.origin != n ensures R.SentTombstone(d) in s.seen[n] {
      DrainedReaches(c, nodes, pairs, net, Pair(d.origin, n), R.SentTombstone(d));
    }
  }

  /** So drained nodes hold identical tables if nothing was deleted, and otherwise agree on a key
      if and only if its latest SETs are read alike. */
  lemma DrainedConverges(c: Setup, nodes: set<R.NodeId>, pairs: set<Pair>, es: seq<Event>, k: Key)
    requires Sound(c, nodes, pairs) && AllDrained(Run(c, nodes, pairs, es))
    ensures var s := Run(c, nodes, pairs, es).repl;
            && s.stores.Keys == nodes
            && (s.dels == {} ==> forall n, m :: n in nodes && m in nodes ==> s.stores[n] == s.stores[m])
            && (R.Agree(s, k) <==> forall w :: R.Latest(s, w) && w.key == k ==> R.ReadingsAgree(s, w))
  {
    DrainedIsDelivered(c, nodes, pairs, es);
    var net := Run(c, nodes, pairs, es);
    R.RunKeepsInv(nodes, net.trace);
    R.AgreementExactly(nodes, net.trace, k);
    if net.repl.dels == {} {
      forall n, m | n in nodes && m in nodes ensures net.repl.stores[n] == net.repl.stores[m] {
        R.DeleteFreeRunsConverge(nodes, net.trace, n, m);
      }
    }
  }

  // ----- The links as the nodes set them up -----

  /** The frame that cluster_send_frame makes of an outbox message: here the message is kept as the
      wire image of its fields, and the sender adds its cluster's id. */
  function FrameOf(id: u32, w: Write): Frame
    requires Storable(w)
  {
    Frame(L.OP_SYNC, if w.rec.tombstone then 2 else 0, w.rec.stamp.ts, w.rec.stamp.node, w.rec.expireAt, id, w.key,
          w.rec.value)
  }

  function BodyOf(w: Write): seq<byte> {
    if Storable(w) then Encode(FrameOf(0, w)) else []
  }

  /** Bodies that no broadcast makes are given some well-formed frame. */
  function FrameFor(id: u32, m: O.Msg): Frame {
    var parse := Decode(m.body);
    if parse.Parsed? && parse.frame.opcode == L.OP_SYNC && parse.frame.nodeId != 0 && parse.frame.key != []
    then parse.frame.(clusterId := id)
    else Frame(L.OP_SYNC, 0, 0, 1, 0, id, [0], [])
  }

  function WireSetup(mac: Mac, host: R.NodeId -> Host, name: seq<byte>): Setup {
    Setup((p: Pair) => D.LinkOf(host(p.from), L.Node(mac, host(p.to), name), (m: O.Msg) => FrameFor(C.IdOf(name), m)),
          BodyOf)
  }

  lemma FrameForBody(id: u32, w: Write, m: O.Msg)
    requires Storable(w) && w.rec.stamp.node != 0 && m.body == BodyOf(w)
    ensures FrameFor(id, m) == FrameOf(id, w)
  {
    DecodeOfEncode(FrameOf(0, w), []);
    assert m.body + [] == m.body;
  }

  lemma FrameHoldsRecord(id: u32, w: Write)
    requires Storable(w)
    ensures Write(FrameOf(id, w).key, L.RecordOf(FrameOf(id, w))) == w
  {
  }

  lemma FrameForIsHonest(mac: Mac, host: Host, name: seq<byte>)
    requires name == [] || C.Fnv(name) != 0
    ensures D.Honest(L.Node(mac, host, name), (m: O.Msg) => FrameFor(C.IdOf(name), m))
  {
  }

  lemma BodyIsCarried(mac: Mac, host: R.NodeId -> Host, name: seq<byte>, p: Pair, w: Write)
    requires Storable(w) && w.rec.stamp.node != 0
    ensures CarriedBy(WireSetup(mac, host, name), p, w)
  {
    var k := WireSetup(mac, host, name).link(p);
    forall m: O.Msg | m.body == BodyOf(w) ensures Carried(k, m) == w {
      FrameForBody(C.IdOf(name), w, m);
      FrameHoldsRecord(C.IdOf(name), w);
    }
  }

  /** Nodes of any byte orders that have a secret, in a cluster whose name does not hash to 0, are set
      up soundly: the handshake, the frame layout and the store's bounds give all that is needed. */
  lemma WireSetupIsSound(mac: Mac, host: R.NodeId -> Host, name: seq<byte>, nodes: set<R.NodeId>, pairs: set<Pair>)
    requires forall key, text :: |mac(key, text)| == 32
    requires forall n :: host(n).secret != []
    requires name == [] || C.Fnv(name) != 0
    requires 0 !in nodes && forall p :: p in pairs <==> p.from in nodes && p.to in nodes && p.from != p.to
    ensures Sound(WireSetup(mac, host, name), nodes, pairs)
  {
    var c := WireSetup(mac, host, name);
    forall p ensures D.AnswersFirst(c.link(p)) && D.Honest(c.link(p).listener, c.link(p).encode) {
      D.LinkAnswersFirst(host(p.from), L.Node(mac, host(p.to), name), (m: O.Msg) => FrameFor(C.IdOf(name), m));
      FrameForIsHonest(mac, host(p.to), name);
    }
    forall p, w | p in pairs && Storable(w) && w.rec.stamp.node == p.from ensures CarriedBy(c, p, w) {
      BodyIsCarried(mac, host, name, p, w);
    }
  }
}
