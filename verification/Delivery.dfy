/** A sender and the listener it talks to, composed: the outbox machine on one side, the session
    of each connection on the other, and the frames between them. */
module Delivery {
  import opened Bytes
  import opened Wire
  import opened Handshake
  import opened ClusterId
  import opened Database
  import O = Outbox
  import L = Listener

  /** The two ends, how a message is framed, and what the client makes of the listener's answer to
      a challenge that follows given inputs. */
  datatype Link = Link(client: Host, listener: L.Node, encode: O.Msg -> Frame,
                       answer: (u64, seq<L.Input>, L.Input) -> Option<nat>)

  /** The link as the two handshakes make it. */
  function LinkOf(client: Host, listener: L.Node, encode: O.Msg -> Frame): Link {
    Link(client, listener, encode, (nonceA, inputs, request) => Answer(client, listener, nonceA, inputs, request))
  }

  /** A message put on the connection: when it was picked, and the expiry the sender then held. */
  datatype Posted = Posted(msg: O.Msg, pickedAt: nat, expireAt: nat)

  /** A posted message that the listener received: the listener's clock readings for it and for
      those before it on its connection, whether its record was applied, and whether the
      store had no fault then. */
  datatype Receipt = Receipt(posted: Posted, readings: seq<u64>, applied: bool, clean: bool)

  /** A connection: what was posted on it, and what its listener thread has received so far, the
      first `base` inputs for the handshake. */
  datatype Conn = Conn(wire: seq<Posted>, inputs: seq<L.Input>, base: nat)

  /** The sender, its present connection, and those before it, whose listener threads may still
      have frames to read. */
  datatype World = World(peer: O.Peer, conn: Conn, past: seq<Conn>, receipts: seq<Receipt>)

  datatype Move =
    | Alone(e: O.Event)
    | Connect
    | Greet(nonceA: u64, request: L.Input, confirm: L.Input, micros: nat)
    | Prove(nonceA: u64, request: L.Input, confirm: L.Input, failedAt: nat)
    | Send
    | Receive(now: u64, nonce: u64, sends: bool, faults: Faults)
    | ReceiveLate(i: nat, now: u64, nonce: u64, sends: bool, faults: Faults)

  /** What the sender does without the listener. */
  predicate IsAlone(e: O.Event) {
    !e.Connects? && !e.GreetingSucceeds? && !e.ProofSucceeds? && !e.SendSucceeds?
  }

  /** The expiry that the client takes from the listener's answer to a challenge, if it gets one
      that it accepts. */
  function Answer(client: Host, listener: L.Node, nonceA: u64, inputs: seq<L.Input>, request: L.Input): Option<nat> {
    if !IsRequest(client, nonceA, request) then None else
    var a := L.ActionAt(listener, inputs + [request], |inputs|);
    if a.Some? && a.value.Challenge? then ClientAccepts(listener.mac, client, nonceA, a.value.response) else None
  }

  predicate IsRequest(client: Host, nonceA: u64, x: L.Input) {
    x.frame.Some? && x.frame.value.opcode == L.OP_AUTH_REQUEST && x.frame.value.value == AuthRequest(client, nonceA)
  }

  predicate IsConfirm(x: L.Input) {
    x.frame.Some? && x.frame.value.opcode == L.OP_AUTH_OK
  }

  predicate HasUnread(c: Conn) {
    c.base <= |c.inputs| < c.base + |c.wire|
  }

  /** The next frame of a connection as its listener thread receives it. */
  function NextInput(k: Link, c: Conn, now: u64, nonce: u64, sends: bool, faults: Faults): L.Input
    requires HasUnread(c)
  {
    L.Input(Some(k.encode(c.wire[|c.inputs| - c.base].msg)), now, nonce, sends, faults)
  }

  function Received(c: Conn, x: L.Input): Conn {
    c.(inputs := c.inputs + [x])
  }

  function ReceiptFor(k: Link, c: Conn, x: L.Input): Receipt
    requires HasUnread(c) && x.frame.Some?
  {
    var inputs := c.inputs + [x];
    var applied := L.ActionAt(k.listener, inputs, |c.inputs|) == Some(L.Apply(x.frame.value));
    Receipt(c.wire[|c.inputs| - c.base], Readings(inputs[c.base..]), applied, x.faults == Faults(false, false, false))
  }

  function Step(k: Link, w: World, mv: Move): World {
    match mv
    case Alone(e) => if IsAlone(e) then w.(peer := O.Step(w.peer, e)) else w
    case Connect =>
      if !w.peer.place.Connecting? then w
      else w.(peer := O.Step(w.peer, O.Connects), conn := Conn([], [], 0), past := w.past + [w.conn])
    case Greet(nonceA, request, confirm, micros) =>
      if !w.peer.place.Greeting? then w
      else if k.client.secret == [] then w.(peer := O.Step(w.peer, O.GreetingSucceeds(0, micros)))
      else if !IsConfirm(confirm) then w
      else
        var answer := k.answer(nonceA, w.conn.inputs, request);
        if answer.None? then w
        else w.(peer := O.Step(w.peer, O.GreetingSucceeds(answer.value, micros)),
                conn := Confirmed(w.conn, request, confirm))
    case Prove(nonceA, request, confirm, failedAt) =>
      if !w.peer.place.Proving? || |w.conn.inputs| != w.conn.base + |w.conn.wire| || !IsConfirm(confirm) then w
      else
        var answer := k.answer(nonceA, w.conn.inputs, request);
        if answer.None? then w.(peer := O.Step(w.peer, O.ProofFails(failedAt)), conn := Received(w.conn, request))
        else w.(peer := O.Step(w.peer, O.ProofSucceeds(answer.value)), conn := Confirmed(w.conn, request, confirm))
    case Send =>
      if !w.peer.place.Sending? then w
      else
        var posted := Posted(w.peer.place.msg, w.peer.place.pickedAt, w.peer.authExpireAt);
        w.(peer := O.Step(w.peer, O.SendSucceeds), conn := w.conn.(wire := w.conn.wire + [posted]))
    case Receive(now, nonce, sends, faults) =>
      if !HasUnread(w.conn) then w
      else
        var x := NextInput(k, w.conn, now, nonce, sends, faults);
        w.(conn := Received(w.conn, x), receipts := w.receipts + [ReceiptFor(k, w.conn, x)])
    case ReceiveLate(i, now, nonce, sends, faults) =>
      if i >= |w.past| || !HasUnread(w.past[i]) then w
      else
        var x := NextInput(k, w.past[i], now, nonce, sends, faults);
        w.(past := w.past[i := Received(w.past[i], x)], receipts := w.receipts + [ReceiptFor(k, w.past[i], x)])
  }

  function Confirmed(c: Conn, request: L.Input, confirm: L.Input): Conn {
    c.(inputs := c.inputs + [request, confirm], base := c.base + 2)
  }

  function Readings(xs: seq<L.Input>): seq<u64> {
    seq(|xs|, i requires 0 <= i < |xs| => xs[i].now)
  }

  function Init(): World {
    World(O.Init(), Conn([], [], 0), [], [])
  }

  function Run(k: Link, ms: seq<Move>): World {
    if ms == [] then Init() else Step(k, Run(k, ms[..|ms| - 1]), ms[|ms| - 1])
  }

  // ----- Without a secret -----

  ghost predicate Silent(k: Link) {
    forall nonceA, inputs, request {:trigger k.answer(nonceA, inputs, request)} ::
      k.answer(nonceA, inputs, request) == None
  }

  lemma NoAnswerWithoutSecret(client: Host, listener: L.Node, encode: O.Msg -> Frame)
    requires listener.host.secret == []
    ensures Silent(LinkOf(client, listener, encode))
  {
    forall nonceA: u64, inputs: seq<L.Input>, request: L.Input
      ensures Answer(client, listener, nonceA, inputs, request) == None
    {
      L.WithoutSecretServedExactly(listener, inputs + [request], |inputs|);
    }
  }

  /** Two ends without a secret never exchange a record: the greeting succeeds with expiry 0, so the
      sender must prove itself, and the listener answers no challenge. */
  lemma EmptySecretNeverSends(client: Host, listener: L.Node, encode: O.Msg -> Frame, ms: seq<Move>)
    requires client.secret == [] && listener.host.secret == []
    ensures var w := Run(LinkOf(client, listener, encode), ms); w.peer.sent == [] && w.receipts == []
  {
    NoAnswerWithoutSecret(client, listener, encode);
    EmptySecretRun(LinkOf(client, listener, encode), ms);
  }

  lemma {:induction false} EmptySecretRun(k: Link, ms: seq<Move>)
    requires k.client.secret == [] && Silent(k)
    ensures var w := Run(k, ms);
            O.Barred(w.peer) && O.Inv(w.peer) && Idle(w) && w.peer.sent == []
  {
    if ms != [] {
      var n := |ms| - 1;
      EmptySecretRun(k, ms[..n]);
      EmptySecretStep(k, Run(k, ms[..n]), ms[n]);
    }
  }

  /** Nothing was ever posted. */
  ghost predicate Idle(w: World) {
    w.conn.wire == [] && w.receipts == [] && forall i :: 0 <= i < |w.past| ==> w.past[i].wire == []
  }

  lemma EmptySecretStep(k: Link, w: World, mv: Move)
    requires k.client.secret == [] && Silent(k)
    requires O.Barred(w.peer) && O.Inv(w.peer) && Idle(w)
    ensures var w' := Step(k, w, mv); O.Barred(w'.peer) && O.Inv(w'.peer) && Idle(w') && w'.peer.sent == []
  {
    PeerInv(k, w, mv);
  }

  lemma PeerInv(k: Link, w: World, mv: Move)
    requires O.Inv(w.peer)
    ensures O.Inv(Step(k, w, mv).peer)
  {
    match mv
    case Alone(e) => O.StepKeepsInv(w.peer, e);
    case Connect => O.StepKeepsInv(w.peer, O.Connects);
    case Greet(nonceA, request, confirm, micros) =>
      var answer := k.answer(nonceA, w.conn.inputs, request);
      O.StepKeepsInv(w.peer, O.GreetingSucceeds(0, micros));
      if answer.Some? {
        O.StepKeepsInv(w.peer, O.GreetingSucceeds(answer.value, micros));
      }
    case Prove(nonceA, request, confirm, failedAt) =>
      var answer := k.answer(nonceA, w.conn.inputs, request);
      O.StepKeepsInv(w.peer, O.ProofFails(failedAt));
      if answer.Some? {
        O.StepKeepsInv(w.peer, O.ProofSucceeds(answer.value));
      }
    case Send => O.StepKeepsInv(w.peer, O.SendSucceeds);
    case _ =>
  }

  // ----- With a secret -----

  /** A challenge is answered only as the first frame of a connection, and whatever the client then
      accepts is the listener's own expiry. */
  ghost predicate AnswersFirst(k: Link) {
    forall nonceA, inputs, request {:trigger k.answer(nonceA, inputs, request)} ::
      k.answer(nonceA, inputs, request).Some? ==>
        && inputs == [] && k.listener.host.secret != [] && request.sends
        && request.frame.Some? && L.Opens(request.frame.value)
        && k.answer(nonceA, inputs, request).value == L.Expiry(request.now)
  }

  lemma LinkAnswersFirst(client: Host, listener: L.Node, encode: O.Msg -> Frame)
    requires forall key, text :: |listener.mac(key, text)| == 32
    ensures AnswersFirst(LinkOf(client, listener, encode))
  {
    forall nonceA: u64, inputs: seq<L.Input>, request: L.Input
      | Answer(client, listener, nonceA, inputs, request).Some?
      ensures inputs == [] && listener.host.secret != [] && request.sends
      ensures request.frame.Some? && L.Opens(request.frame.value)
      ensures Answer(client, listener, nonceA, inputs, request).value == L.Expiry(request.now)
    {
      AnswerIsExpiry(client, listener, nonceA, inputs, request);
    }
  }

  lemma AnswerIsExpiry(client: Host, listener: L.Node, nonceA: u64, inputs: seq<L.Input>, request: L.Input)
    requires forall key, text :: |listener.mac(key, text)| == 32
    requires Answer(client, listener, nonceA, inputs, request).Some?
    ensures inputs == [] && listener.host.secret != [] && request.sends
    ensures request.frame.Some? && L.Opens(request.frame.value)
    ensures Answer(client, listener, nonceA, inputs, request).value == L.Expiry(request.now)
  {
    L.ChallengedOnce(listener, inputs + [request], |inputs|);
    assert inputs + [request] == [request] && [request][..0] == [];
    FirstAnswer(listener, request);
    ClientComparesTexts(listener.mac, client, listener.host, nonceA, request.nonce, L.Expiry(request.now));
  }

  lemma FirstAnswer(listener: L.Node, request: L.Input)
    requires listener.host.secret != [] && request.frame.Some?
    ensures var a := L.ActionAt(listener, [request], 0);
            a.Some? && a.value.Challenge? ==>
            && request.sends && |request.frame.value.value| >= 8
            && a.value.response == AuthResponse(listener.mac, listener.host, request.frame.value.value,
               request.nonce, L.Expiry(request.now))
  {
    assert [request][..0] == [];
  }

  /** Messages are framed as honest nodes of the listener's cluster frame them, and the cluster's
      name does not hash to 0. */
  ghost predicate Honest(listener: L.Node, encode: O.Msg -> Frame) {
    && (forall m {:trigger encode(m)} ::
          var f := encode(m);
          f.opcode == L.OP_SYNC && f.clusterId == IdOf(listener.name) && f.nodeId != 0 && f.key != [])
    && (listener.name == [] || Fnv(listener.name) != 0)
  }

  /** The connection's handshake is complete; its inputs are those frames and then the posted
      messages in order; they were posted under the expiry that the handshake fixed. */
  ghost predicate Established(k: Link, c: Conn) {
    && c.base == 2 && L.Shook(c.inputs) && k.listener.host.secret != []
    && (forall j :: 0 <= j < |c.wire| && j + 2 < |c.inputs| ==> c.inputs[j + 2].frame == Some(k.encode(c.wire[j].msg)))
    && (forall j :: 0 <= j < |c.wire| ==> c.wire[j].expireAt == L.Expiry(c.inputs[0].now))
  }

  ghost predicate ConnOk(k: Link, c: Conn, sent: seq<O.Msg>) {
    && (c.wire != [] ==> Established(k, c))
    && (forall j :: 0 <= j < |c.wire| ==> c.wire[j].msg in sent)
  }

  /** A received message was sent, and its record was applied if and only if the listener read a
      time before the sender's expiry for it and for all before it on its connection. */
  ghost predicate Exact(r: Receipt, sent: seq<O.Msg>) {
    && r.posted.msg in sent && r.readings != []
    && (r.applied <==> InTime(r))
  }

  ghost predicate InTime(r: Receipt) {
    forall i :: 0 <= i < |r.readings| ==> r.readings[i] < r.posted.expireAt
  }

  ghost predicate AllOk(k: Link, past: seq<Conn>, receipts: seq<Receipt>, sent: seq<O.Msg>) {
    && (forall i :: 0 <= i < |past| ==> ConnOk(k, past[i], sent))
    && (forall j :: 0 <= j < |receipts| ==> Exact(receipts[j], sent))
  }

  ghost predicate Inv(k: Link, w: World) {
    && O.Inv(w.peer)
    && (w.peer.place.Greeting? ==> w.conn == Conn([], [], 0))
    && ConnOk(k, w.conn, w.peer.sent)
    && (w.peer.authenticated ==>
          && Established(k, w.conn)
          && w.peer.authExpireAt == L.Expiry(w.conn.inputs[0].now) && |w.conn.inputs| <= 2 + |w.conn.wire|)
    && AllOk(k, w.past, w.receipts, w.peer.sent)
  }

  lemma ConnStays(k: Link, c: Conn, sent: seq<O.Msg>, more: seq<O.Msg>)
    requires ConnOk(k, c, sent) && sent <= more
    ensures ConnOk(k, c, more)
  {
    forall j | 0 <= j < |c.wire| ensures c.wire[j].msg in more {
      assert c.wire[j].msg in sent;
    }
  }

  /** What was sent stays sent. */
  lemma AllStay(k: Link, past: seq<Conn>, receipts: seq<Receipt>, sent: seq<O.Msg>, more: seq<O.Msg>)
    requires AllOk(k, past, receipts, sent) && sent <= more
    ensures AllOk(k, past, receipts, more)
  {
    forall i | 0 <= i < |past| ensures ConnOk(k, past[i], more) {
      ConnStays(k, past[i], sent, more);
    }
    forall j | 0 <= j < |receipts| ensures Exact(receipts[j], more) {
      assert Exact(receipts[j], sent);
    }
  }

  lemma SentStays(k: Link, w: World, e: O.Event)
    requires Inv(k, w)
    ensures var sent := O.Step(w.peer, e).sent; ConnOk(k, w.conn, sent) && AllOk(k, w.past, w.receipts, sent)
  {
    O.StepGrows(w.peer, e);
    ConnStays(k, w.conn, w.peer.sent, O.Step(w.peer, e).sent);
    AllStay(k, w.past, w.receipts, w.peer.sent, O.Step(w.peer, e).sent);
  }

  lemma AloneKeepsInv(k: Link, w: World, e: O.Event)
    requires Inv(k, w) && IsAlone(e)
    ensures Inv(k, Step(k, w, Alone(e)))
  {
    O.StepKeepsInv(w.peer, e);
    SentStays(k, w, e);
  }

  lemma ConnectKeepsInv(k: Link, w: World)
    requires Inv(k, w)
    ensures Inv(k, Step(k, w, Connect))
  {
    O.StepKeepsInv(w.peer, O.Connects);
    SentStays(k, w, O.Connects);
  }

  lemma GreetKeepsInv(k: Link, w: World, mv: Move)
    requires Inv(k, w) && AnswersFirst(k) && k.client.secret != [] && mv.Greet?
    ensures Inv(k, Step(k, w, mv))
  {
    PeerInv(k, w, mv);
    var answer := k.answer(mv.nonceA, w.conn.inputs, mv.request);
    if answer.Some? {
      SentStays(k, w, O.GreetingSucceeds(answer.value, mv.micros));
      assert w.conn.inputs + [mv.request, mv.confirm] == [mv.request, mv.confirm];
    }
  }

  /** On an open connection no challenge is answered, so a proof only ever fails. */
  lemma ProveKeepsInv(k: Link, w: World, mv: Move)
    requires Inv(k, w) && AnswersFirst(k) && mv.Prove?
    ensures Inv(k, Step(k, w, mv))
  {
    PeerInv(k, w, mv);
    SentStays(k, w, O.ProofFails(mv.failedAt));
  }

  lemma SendKeepsInv(k: Link, w: World)
    requires Inv(k, w)
    ensures Inv(k, Step(k, w, Send))
  {
    O.StepKeepsInv(w.peer, O.SendSucceeds);
    SentStays(k, w, O.SendSucceeds);
  }

  /** The listener applies the next posted message if and only if its readings, up to and with
      this one, are before the expiry. */
  lemma ReceiveExactly(k: Link, c: Conn, x: L.Input)
    requires Honest(k.listener, k.encode) && Established(k, c) && HasUnread(c)
    requires x.frame == Some(k.encode(c.wire[|c.inputs| - 2].msg))
    ensures var f, inputs := x.frame.value, c.inputs + [x];
            L.ActionAt(k.listener, inputs, |c.inputs|) == Some(L.Apply(f)) <==>
            forall i :: 2 <= i < |inputs| ==> inputs[i].now < L.Expiry(c.inputs[0].now)
  {
    var f, inputs, e := x.frame.value, c.inputs + [x], L.Expiry(c.inputs[0].now);
    L.ServedExactly(k.listener, inputs, |c.inputs|, L.Apply(f));
    OwnClusterAccepted(k.listener.name);
    forall i | 2 <= i < |inputs| ensures L.Keeps(k.listener, e, inputs[i]) <==> inputs[i].now < e {
      assert inputs[i].frame == Some(k.encode(c.wire[i - 2].msg));
    }
  }

  lemma ReceiptIsExact(k: Link, c: Conn, x: L.Input, sent: seq<O.Msg>)
    requires Honest(k.listener, k.encode) && ConnOk(k, c, sent) && HasUnread(c)
    requires x.frame == Some(k.encode(c.wire[|c.inputs| - c.base].msg))
    ensures ConnOk(k, Received(c, x), sent) && Exact(ReceiptFor(k, c, x), sent)
    ensures Established(k, Received(c, x)) && Received(c, x).inputs[0] == c.inputs[0]
  {
    ReceiveExactly(k, c, x);
    var inputs := c.inputs + [x];
    var r := Readings(inputs[2..]);
    assert forall i :: 0 <= i < |r| ==> r[i] == inputs[i + 2].now;
    assert forall i :: 2 <= i < |inputs| ==> r[i - 2] == inputs[i].now;
  }

  lemma ReceiveKeepsInv(k: Link, w: World, mv: Move)
    requires Inv(k, w) && Honest(k.listener, k.encode) && mv.Receive?
    ensures Inv(k, Step(k, w, mv))
  {
    if HasUnread(w.conn) {
      ReceiptIsExact(k, w.conn, NextInput(k, w.conn, mv.now, mv.nonce, mv.sends, mv.faults), w.peer.sent);
    }
  }

  lemma ReceiveLateKeepsInv(k: Link, w: World, mv: Move)
    requires Inv(k, w) && Honest(k.listener, k.encode) && mv.ReceiveLate?
    ensures Inv(k, Step(k, w, mv))
  {
    if mv.i < |w.past| && HasUnread(w.past[mv.i]) {
      assert ConnOk(k, w.past[mv.i], w.peer.sent);
      ReceiptIsExact(k, w.past[mv.i], NextInput(k, w.past[mv.i], mv.now, mv.nonce, mv.sends, mv.faults), w.peer.sent);
    }
  }

  lemma StepKeepsInv(k: Link, w: World, mv: Move)
    requires Inv(k, w) && AnswersFirst(k) && Honest(k.listener, k.encode) && k.client.secret != []
    ensures Inv(k, Step(k, w, mv))
  {
    match mv
    case Alone(e) => if IsAlone(e) { AloneKeepsInv(k, w, e); }
    case Connect => ConnectKeepsInv(k, w);
    case Greet(_, _, _, _) => GreetKeepsInv(k, w, mv);
    case Prove(_, _, _, _) => ProveKeepsInv(k, w, mv);
    case Send => SendKeepsInv(k, w);
    case Receive(_, _, _, _) => ReceiveKeepsInv(k, w, mv);
    case ReceiveLate(_, _, _, _, _) => ReceiveLateKeepsInv(k, w, mv);
  }

  lemma {:induction false} RunKeepsInv(k: Link, ms: seq<Move>)
    requires AnswersFirst(k) && Honest(k.listener, k.encode) && k.client.secret != []
    ensures Inv(k, Run(k, ms))
  {
    if ms != [] {
      RunKeepsInv(k, ms[..|ms| - 1]);
      StepKeepsInv(k, Run(k, ms[..|ms| - 1]), ms[|ms| - 1]);
    }
  }

  /** In every run of the two ends, over any number of connections and with frames of old ones
      still being read: a message that reached the listener was sent, and it was applied if and
      only if the listener read times before the sender's expiry for it and for all before it on
      its connection. One that was picked late is lost, unless the listener's clock is behind. */
  lemma AppliedExactly(client: Host, listener: L.Node, encode: O.Msg -> Frame, ms: seq<Move>, j: nat)
    requires client.secret != [] && Honest(listener, encode) && forall key, text :: |listener.mac(key, text)| == 32
    requires j < |Run(LinkOf(client, listener, encode), ms).receipts|
    ensures var w := Run(LinkOf(client, listener, encode), ms);
            var r := w.receipts[j];
            && Exact(r, w.peer.sent)
            && (r.posted.pickedAt >= r.posted.expireAt && r.readings[|r.readings| - 1] >= r.posted.pickedAt ==>
                  !r.applied)
  {
    var k := LinkOf(client, listener, encode);
    LinkAnswersFirst(client, listener, encode);
    RunKeepsInv(k, ms);
    assert Exact(Run(k, ms).receipts[j], Run(k, ms).peer.sent);
  }
}
