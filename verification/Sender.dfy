/** A peer's connection record, updated in place by the sender thread and by broadcasts. Each
    method below is one section under the outbox mutex; `trace` records the sections executed,
    and the record's contents are always what the outbox machine reaches by that trace. */
module Sender {
  import opened Bytes
  import opened Outbox

  class PeerConn {
    var connected: bool
    var authenticated: bool
    var authExpireAt: nat
    var outbox: seq<Msg>
    var outboxCount: int
    var retryBackoff: nat
    var nextRetry: nat
    var staleCount: nat
    var nextSerial: nat
    ghost var place: Place
    ghost var accepted: seq<Msg>
    ghost var fates: seq<Fate>
    ghost var sent: seq<Msg>
    ghost var expired: seq<Msg>
    ghost var trace: seq<Event>

    ghost function State(): Peer
      reads this
    {
      Peer(connected, authenticated, authExpireAt, outbox, outboxCount, retryBackoff, nextRetry, staleCount,
           place, accepted, fates, sent, expired)
    }

    ghost predicate Valid()
      reads this
    {
      State() == Run(Init(), trace) && nextSerial == |accepted|
    }

    constructor ()
      ensures Valid() && trace == []
    {
      connected, authenticated, authExpireAt := false, false, 0;
      outbox, outboxCount, nextSerial := [], 0, 0;
      retryBackoff, nextRetry, staleCount := RETRY_BASE, 0, 0;
      place, accepted, fates, sent, expired, trace := Top, [], [], [], [], [];
    }

    /** Closes a section: the fields are what the event makes of them. */
    ghost method Record(was: Peer, e: Event)
      requires was == Run(Init(), trace) && State() == Step(was, e) && nextSerial == |accepted|
      modifies this`trace
      ensures trace == old(trace) + [e] && Valid()
    {
      trace := trace + [e];
      assert trace[..|trace| - 1] == old(trace);
    }

    /** The section of broadcast_sync that appends a message, or drops it when 256 are queued. */
    method Enqueue(body: seq<byte>, now: nat)
      requires Valid()
      modifies this
      ensures Valid() && trace == old(trace) + [Broadcast(body, now)]
      ensures place == old(place) && sent == old(sent) && fates == old(fates) && connected == old(connected)
      ensures old(outbox) <= outbox
    {
      ghost var was := State();
      if outboxCount < MAX_MSG {
        var m := Msg(nextSerial, body, now);
        nextSerial := nextSerial + 1;
        outbox := outbox + [m];
        outboxCount := outboxCount + 1;
        accepted := accepted + [m];
      }
      Record(was, Broadcast(body, now));
    }

    /** The head of the loop: may the sender connect, must it prove itself, or may it drain? */
    method Begin(now: nat, micros: nat) returns (mayConnect: bool, mustProve: bool)
      requires Valid() && place == Top
      modifies this`place, this`trace
      ensures Valid() && trace == old(trace) + [LoopTop(now, micros)]
      ensures mayConnect == (place == Connecting) && mustProve == (place == Proving)
      ensures connected ==> place == (if mustProve then Proving else Choosing)
      ensures !connected ==> place == (if mayConnect then Connecting else Top)
    {
      ghost var was := State();
      mayConnect := !connected && now >= nextRetry;
      mustProve := connected && (!authenticated || micros >= authExpireAt);
      place := if mayConnect then Connecting else if mustProve then Proving else if connected then Choosing else Top;
      Record(was, LoopTop(now, micros));
    }

    /** Doubles the delay before the next attempt, up to 30 seconds. */
    method BackOff()
      modifies this`retryBackoff
      ensures State() == old(State()).(retryBackoff := Doubled(old(retryBackoff)))
    {
      retryBackoff := if retryBackoff * 2 < RETRY_MAX then retryBackoff * 2 else RETRY_MAX;
    }

    method ForgetSession()
      modifies this`authenticated, this`authExpireAt
      ensures State() == old(State()).(authenticated := false, authExpireAt := 0)
    {
      authenticated := false;
      authExpireAt := 0;
    }

    method ConnectFailed(now: nat)
      requires Valid() && place == Connecting
      modifies this
      ensures Valid() && trace == old(trace) + [ConnectFails(now)] && place == Top
    {
      ghost var was := State();
      BackOff();
      nextRetry := now + retryBackoff;
      place := Top;
      Record(was, ConnectFails(now));
    }

    method Connected()
      requires Valid() && place == Connecting
      modifies this
      ensures Valid() && trace == old(trace) + [Connects] && place == Greeting
    {
      ghost var was := State();
      connected := true;
      retryBackoff := RETRY_BASE;
      ForgetSession();
      place := Greeting;
      Record(was, Connects);
    }

    /** Closes the connection and forgets its session. */
    method Disconnect()
      modifies this`connected, this`authenticated, this`authExpireAt, this`place
      ensures State() == Disconnected(old(State()))
    {
      connected := false;
      ForgetSession();
      place := Top;
    }

    method GreetingFailed()
      requires Valid() && place == Greeting
      modifies this
      ensures Valid() && trace == old(trace) + [GreetingFails] && place == Top
    {
      ghost var was := State();
      Disconnect();
      Record(was, GreetingFails);
    }

    method GreetingSucceeded(expireAt: nat, micros: nat) returns (mustProve: bool)
      requires Valid() && place == Greeting
      modifies this
      ensures Valid() && trace == old(trace) + [GreetingSucceeds(expireAt, micros)]
      ensures place == if mustProve then Proving else Choosing
    {
      ghost var was := State();
      authenticated := true;
      authExpireAt := expireAt;
      mustProve := !authenticated || micros >= authExpireAt;
      place := if mustProve then Proving else Choosing;
      Record(was, GreetingSucceeds(expireAt, micros));
    }

    method ProofFailed(now: nat)
      requires Valid() && place == Proving
      modifies this
      ensures Valid() && trace == old(trace) + [ProofFails(now)] && place == Top
    {
      ghost var was := State();
      Disconnect();
      BackOff();
      nextRetry := now + retryBackoff;
      staleCount := staleCount + 1;
      Record(was, ProofFails(now));
    }

    method ProofSucceeded(expireAt: nat)
      requires Valid() && place == Proving
      modifies this
      ensures Valid() && trace == old(trace) + [ProofSucceeds(expireAt)] && place == Top
    {
      ghost var was := State();
      authenticated := true;
      authExpireAt := expireAt;
      retryBackoff := RETRY_BASE;
      place := Top;
      Record(was, ProofSucceeds(expireAt));
    }

    /** Notes what became of a message. */
    ghost method Settle(m: Msg, f: Fate)
      modifies this`place, this`fates, this`sent, this`expired
      ensures place == Top && fates == old(fates) + [f]
      ensures sent == (if f == Sent then old(sent) + [m] else old(sent))
      ensures expired == (if f == Expired then old(expired) + [m] else old(expired))
    {
      place, fates := Top, fates + [f];
      if f == Sent {
        sent := sent + [m];
      } else {
        expired := expired + [m];
      }
    }

    /** The section that drops an expired head, or hands the head out to be sent unlocked. */
    method Pick(now: nat, ghost micros: nat) returns (msg: Option<Msg>)
      requires Valid() && place == Choosing && outboxCount != 0
      modifies this
      ensures Valid() && trace == old(trace) + [Choose(now, micros)]
      ensures place == if msg.None? then Top else Sending(msg.value, micros)
      ensures old(outbox) != [] ==>
                if now > old(outbox)[0].enqueuedAt + MSG_TTL then msg.None? && fates == old(fates) + [Expired] &&
                   sent == old(sent)
                else msg == Some(old(outbox)[0]) && outbox == old(outbox) && fates == old(fates) && sent == old(sent)
    {
      ghost var was := State();
      msg := None;
      if outbox == [] {
        place := Top;
      } else {
        if now > outbox[0].enqueuedAt + MSG_TTL {
          Settle(outbox[0], Expired);
          outbox := outbox[1..];
          outboxCount := outboxCount - 1;
        } else {
          msg := Some(outbox[0]);
          place := Sending(outbox[0], micros);
        }
      }
      Record(was, Choose(now, micros));
    }

    /** After a successful send: the message is unlinked; it is still at the head. */
    method SendSucceeded(msg: Msg)
      requires Valid() && place.Sending? && place.msg == msg
      modifies this
      ensures Valid() && trace == old(trace) + [SendSucceeds] && place == Top
      ensures old(outbox) == [msg] + outbox && sent == old(sent) + [msg] && fates == old(fates) + [Sent]
    {
      ghost var was := State();
      StillHead(trace, msg);
      outbox := Remove(outbox, msg);
      outboxCount := outboxCount - 1;
      Settle(msg, Sent);
      Record(was, SendSucceeds);
    }

    /** After a failed send: the connection is given up, the message stays at the head. */
    method SendFailed(msg: Msg, now: nat)
      requires Valid() && place.Sending? && place.msg == msg
      modifies this
      ensures Valid() && trace == old(trace) + [SendFails(now)] && place == Top
      ensures outbox == old(outbox) && outbox != [] && outbox[0] == msg
      ensures sent == old(sent) && fates == old(fates) && !connected
    {
      ghost var was := State();
      StillHead(trace, msg);
      Disconnect();
      nextRetry := now + retryBackoff;
      BackOff();
      staleCount := staleCount + 1;
      Record(was, SendFails(now));
    }
  }

  // ----- The sender thread -----

  datatype Arrival = Arrival(body: seq<byte>, now: nat)

  /** What one turn of the loop meets: clock readings, how each network exchange ends, and the
      broadcasts that arrive while the mutex is free. */
  datatype Turn = Turn(
    before: seq<Arrival>, now: nat, micros: nat,
    connecting: seq<Arrival>, connects: bool,
    greeting: seq<Arrival>, greeted: Option<nat>, greetedAt: nat,
    proving: seq<Arrival>, proved: Option<nat>, failedAt: nat,
    waiting: seq<Arrival>, chosenAt: nat, pickedAt: nat,
    sending: seq<Arrival>, sends: bool, sentAt: nat)

  method Others(p: PeerConn, arrivals: seq<Arrival>)
    requires p.Valid()
    modifies p
    ensures p.Valid() && p.place == old(p.place) && old(p.trace) <= p.trace
    ensures p.sent == old(p.sent) && p.fates == old(p.fates) && p.connected == old(p.connected)
    ensures old(p.outbox) <= p.outbox
  {
    for i := 0 to |arrivals|
      invariant p.Valid() && p.place == old(p.place) && old(p.trace) <= p.trace
      invariant p.sent == old(p.sent) && p.fates == old(p.fates) && p.connected == old(p.connected)
      invariant old(p.outbox) <= p.outbox
    {
      p.Enqueue(arrivals[i].body, arrivals[i].now);
    }
  }

  /** Connects and greets; leaves the sender where a connected sender goes on, or at the top. */
  method Connect(p: PeerConn, t: Turn) returns (ok: bool, mustProve: bool)
    requires p.Valid() && p.place == Connecting
    modifies p
    ensures p.Valid() && old(p.trace) <= p.trace
    ensures p.place == if !ok then Top else if mustProve then Proving else Choosing
    ensures ok <==> t.connects && t.greeted.Some?
    ensures ok ==> mustProve == (t.greetedAt >= t.greeted.value)
  {
    ok, mustProve := false, false;
    Others(p, t.connecting);
    if !t.connects {
      p.ConnectFailed(t.now);
      return;
    }
    p.Connected();
    Others(p, t.greeting);
    if t.greeted.None? {
      p.GreetingFailed();
      return;
    }
    ok := true;
    mustProve := p.GreetingSucceeded(t.greeted.value, t.greetedAt);
  }

  method Prove(p: PeerConn, t: Turn)
    requires p.Valid() && p.place == Proving
    modifies p
    ensures p.Valid() && p.place == Top && old(p.trace) <= p.trace
    ensures p.trace[|p.trace| - 1] == if t.proved.Some? then ProofSucceeds(t.proved.value) else ProofFails(t.failedAt)
  {
    Others(p, t.proving);
    if t.proved.None? {
      p.ProofFailed(t.failedAt);
    } else {
      p.ProofSucceeded(t.proved.value);
    }
  }

  /** Waits for a message, then drops or sends the head; `stop` when none came before shutdown. */
  method Drain(p: PeerConn, t: Turn) returns (stop: bool)
    requires p.Valid() && p.place == Choosing
    modifies p
    ensures p.Valid() && old(p.trace) <= p.trace
    ensures p.place == if stop then Choosing else Top
    ensures stop ==> p.outboxCount == 0
    ensures !stop && old(p.outbox) != [] ==>
              var m := old(p.outbox)[0];
              if t.chosenAt > m.enqueuedAt + MSG_TTL then p.fates == old(p.fates) + [Expired] && p.sent == old(p.sent)
              else if t.sends then p.fates == old(p.fates) + [Sent] && p.sent == old(p.sent) + [m]
              else p.fates == old(p.fates) && p.sent == old(p.sent) && p.outbox != [] && p.outbox[0] == m &&
                   !p.connected
  {
    CountIsLength(p);
    var i := 0;
    while p.outboxCount == 0 && i < |t.waiting|
      invariant p.Valid() && p.place == Choosing && old(p.trace) <= p.trace && i <= |t.waiting|
      invariant old(p.outbox) != [] ==> p.outbox == old(p.outbox) && p.fates == old(p.fates) && p.sent == old(p.sent)
      invariant old(p.outbox) != [] ==> p.outboxCount != 0
    {
      p.Enqueue(t.waiting[i].body, t.waiting[i].now);
      i := i + 1;
    }
    stop := p.outboxCount == 0;
    if stop {
      return;
    }
    var msg := p.Pick(t.chosenAt, t.pickedAt);
    if msg.Some? {
      Others(p, t.sending);
      if t.sends {
        p.SendSucceeded(msg.value);
      } else {
        p.SendFailed(msg.value, t.sentAt);
      }
    }
  }

  lemma CountIsLength(p: PeerConn)
    requires p.Valid()
    ensures p.outboxCount == |p.outbox|
  {
    RunKeepsInv(Init(), p.trace);
  }

  /** The whole sender thread, for as many turns as it runs. However its turns go and wherever
      broadcasts fall, the record stays what the outbox machine reaches, so the counter is the
      queue length, and everything accepted is sent in order, expired or still queued. */
  method PeerSender(p: PeerConn, turns: seq<Turn>)
    requires p.Valid() && p.place == Top
    modifies p
    ensures p.Valid() && Inv(p.State()) && old(p.trace) <= p.trace
  {
    var i := 0;
    while i < |turns|
      invariant p.Valid() && p.place == Top && old(p.trace) <= p.trace && i <= |turns|
    {
      var t := turns[i];
      Others(p, t.before);
      var mayConnect, mustProve := p.Begin(t.now, t.micros);
      var go := p.connected;
      if mayConnect {
        go, mustProve := Connect(p, t);
      }
      if go && mustProve {
        Prove(p, t);
      } else if go {
        var stop := Drain(p, t);
        if stop {
          break;
        }
      }
      i := i + 1;
    }
    RunKeepsInv(Init(), p.trace);
  }
}
