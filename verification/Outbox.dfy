/** One peer's bounded outbox and the sender thread that drains it, as a state machine whose
    steps are the sections under the outbox mutex. Broadcasts interleave with every step of the
    sender; a send itself runs unlocked, between the section that picks a message and the one
    that removes it. */
module Outbox {
  import opened Bytes

  const MAX_MSG := 256
  const MSG_TTL := 120
  const RETRY_BASE := 1
  const RETRY_MAX := 30

  /** A queued message; `serial` is its identity, the order in which the queue accepted it. */
  datatype Msg = Msg(serial: nat, body: seq<byte>, enqueuedAt: nat)

  datatype Fate = Sent | Expired

  /** Where the sender thread stands between two sections. */
  datatype Place = Top | Connecting | Greeting | Proving | Choosing | Sending(msg: Msg, pickedAt: nat)

  /** The peer's fields, the sender's place, and what became of the messages: `accepted` in
      order, and the fate of the first |fates| of them. */
  datatype Peer = Peer(
    connected: bool,
    authenticated: bool,
    authExpireAt: nat,
    outbox: seq<Msg>,
    outboxCount: int,
    retryBackoff: nat,
    nextRetry: nat,
    staleCount: nat,
    place: Place,
    accepted: seq<Msg>,
    fates: seq<Fate>,
    sent: seq<Msg>,
    expired: seq<Msg>)

  datatype Event =
    | Broadcast(body: seq<byte>, now: nat)
    | LoopTop(now: nat, micros: nat)
    | ConnectFails(now: nat)
    | Connects
    | GreetingFails
    | GreetingSucceeds(expireAt: nat, micros: nat)
    | ProofFails(now: nat)
    | ProofSucceeds(expireAt: nat)
    | Choose(now: nat, micros: nat)
    | SendSucceeds
    | SendFails(now: nat)

  function Init(): Peer {
    Peer(false, false, 0, [], 0, RETRY_BASE, 0, 0, Top, [], [], [], [])
  }

  function Doubled(backoff: nat): nat {
    if backoff * 2 < RETRY_MAX then backoff * 2 else RETRY_MAX
  }

  /** TAILQ_REMOVE of a message, wherever it is in the queue. */
  function Remove(q: seq<Msg>, m: Msg): seq<Msg> {
    if q == [] then [] else if q[0].serial == m.serial then q[1..] else [q[0]] + Remove(q[1..], m)
  }

  /** Where a connected sender goes: to the outbox only while its session is valid. */
  function Onward(authenticated: bool, authExpireAt: nat, micros: nat): Place {
    if !authenticated || micros >= authExpireAt then Proving else Choosing
  }

  function Disconnected(p: Peer): Peer {
    p.(connected := false, authenticated := false, authExpireAt := 0, place := Top)
  }

  function Step(p: Peer, e: Event): Peer {
    match e
    case Broadcast(body, now) =>
      if p.outboxCount < MAX_MSG then
        var m := Msg(|p.accepted|, body, now);
        p.(outbox := p.outbox + [m], outboxCount := p.outboxCount + 1, accepted := p.accepted + [m])
      else p
    case LoopTop(now, micros) =>
      if p.place != Top then p
      else if p.connected then p.(place := Onward(p.authenticated, p.authExpireAt, micros))
      else if now < p.nextRetry then p
      else p.(place := Connecting)
    case ConnectFails(now) =>
      if p.place != Connecting then p
      else p.(retryBackoff := Doubled(p.retryBackoff), nextRetry := now + Doubled(p.retryBackoff), place := Top)
    case Connects =>
      if p.place != Connecting then p
      else p.(connected := true, retryBackoff := RETRY_BASE, authenticated := false, authExpireAt := 0,
           place := Greeting)
    case GreetingFails =>
      if p.place != Greeting then p else Disconnected(p)
    case GreetingSucceeds(expireAt, micros) =>
      if p.place != Greeting then p
      else p.(authenticated := true, authExpireAt := expireAt, place := Onward(true, expireAt, micros))
    case ProofFails(now) =>
      if p.place != Proving then p
      else Disconnected(p).(retryBackoff := Doubled(p.retryBackoff), nextRetry := now + Doubled(p.retryBackoff),
                            staleCount := p.staleCount + 1)
    case ProofSucceeds(expireAt) =>
      if p.place != Proving then p
      else p.(authenticated := true, authExpireAt := expireAt, retryBackoff := RETRY_BASE, place := Top)
    case Choose(now, micros) =>
      if p.place != Choosing || p.outboxCount == 0 then p
      else if p.outbox == [] then p.(place := Top)
      else if now > p.outbox[0].enqueuedAt + MSG_TTL then
        p.(outbox := p.outbox[1..], outboxCount := p.outboxCount - 1, place := Top,
           expired := p.expired + [p.outbox[0]], fates := p.fates + [Expired])
      else p.(place := Sending(p.outbox[0], micros))
    case SendSucceeds =>
      if !p.place.Sending? then p
      else p.(outbox := Remove(p.outbox, p.place.msg), outboxCount := p.outboxCount - 1, place := Top,
              sent := p.sent + [p.place.msg], fates := p.fates + [Sent])
    case SendFails(now) =>
      if !p.place.Sending? then p
      else Disconnected(p).(nextRetry := now + p.retryBackoff, retryBackoff := Doubled(p.retryBackoff),
                            staleCount := p.staleCount + 1)
  }

  function Run(p: Peer, es: seq<Event>): Peer {
    if es == [] then p else Step(Run(p, es[..|es| - 1]), es[|es| - 1])
  }

  // ----- What every step keeps -----

  /** The messages of a sequence that met a given fate, in order. */
  function Select(ms: seq<Msg>, fates: seq<Fate>, f: Fate): seq<Msg>
    requires |fates| <= |ms|
  {
    if fates == [] then []
    else Select(ms, fates[..|fates| - 1], f) + (if fates[|fates| - 1] == f then [ms[|fates| - 1]] else [])
  }

  ghost predicate Inv(p: Peer) {
    && p.outboxCount == |p.outbox| <= MAX_MSG
    && (forall i :: 0 <= i < |p.accepted| ==> p.accepted[i].serial == i)
    && |p.fates| <= |p.accepted|
    && p.outbox == p.accepted[|p.fates|..]
    && p.sent == Select(p.accepted, p.fates, Sent)
    && p.expired == Select(p.accepted, p.fates, Expired)
    && (p.place.Sending? ==> p.outbox != [] && p.outbox[0] == p.place.msg)
    && RETRY_BASE <= p.retryBackoff <= RETRY_MAX
    && InSession(p)
  }

  /** A message is picked and sent only on a connection that has been authenticated. */
  ghost predicate InSession(p: Peer) {
    && (p.place.Connecting? ==> !p.connected)
    && (p.place.Greeting? || p.place.Proving? || p.place.Choosing? || p.place.Sending? ==> p.connected)
    && (p.place.Choosing? || p.place.Sending? ==> p.authenticated)
    && (p.authenticated ==> p.connected)
    && (p.connected ==> p.authenticated || p.place.Greeting?)
  }

  lemma {:induction false} SelectGrows(ms: seq<Msg>, more: seq<Msg>, fates: seq<Fate>, f: Fate)
    requires |fates| <= |ms|
    ensures Select(ms + more, fates, f) == Select(ms, fates, f)
  {
    if fates != [] {
      SelectGrows(ms, more, fates[..|fates| - 1], f);
    }
  }

  lemma BroadcastKeepsInv(p: Peer, body: seq<byte>, now: nat)
    requires Inv(p)
    ensures Inv(Step(p, Broadcast(body, now)))
  {
    var m := Msg(|p.accepted|, body, now);
    SelectGrows(p.accepted, [m], p.fates, Sent);
    SelectGrows(p.accepted, [m], p.fates, Expired);
    assert (p.accepted + [m])[|p.fates|..] == p.accepted[|p.fates|..] + [m];
  }

  /** The oldest message leaves the queue with fate f: the history stays exact. */
  lemma HeadLeaves(p: Peer, f: Fate)
    requires Inv(p) && p.outbox != []
    ensures p.outbox[0] == p.accepted[|p.fates|]
    ensures p.outbox[1..] == p.accepted[|p.fates| + 1..]
    ensures Select(p.accepted, p.fates + [f], f) == Select(p.accepted, p.fates, f) + [p.outbox[0]]
    ensures forall g :: g != f ==> Select(p.accepted, p.fates + [f], g) == Select(p.accepted, p.fates, g)
  {
    var fates' := p.fates + [f];
    assert fates'[..|fates'| - 1] == p.fates;
  }

  lemma DepartureKeepsInv(p: Peer, e: Event)
    requires Inv(p) && (e.Choose? || e.SendSucceeds?)
    ensures Inv(Step(p, e))
  {
    if p.outbox != [] {
      HeadLeaves(p, if e.Choose? then Expired else Sent);
    }
  }

  lemma StepKeepsInv(p: Peer, e: Event)
    requires Inv(p)
    ensures Inv(Step(p, e))
  {
    if e.Broadcast? {
      BroadcastKeepsInv(p, e.body, e.now);
    } else if e.Choose? || e.SendSucceeds? {
      DepartureKeepsInv(p, e);
    }
  }

  /** In every interleaving the counter is the queue length and at most 256; the message picked
      for an unlocked send is still the head when the lock is retaken; the accepted messages are,
      in order of acceptance, those sent or expired and then those queued; and the backoff stays
      in 1..30. */
  lemma {:induction false} RunKeepsInv(p: Peer, es: seq<Event>)
    requires Inv(p)
    ensures Inv(Run(p, es))
  {
    if es != [] {
      RunKeepsInv(p, es[..|es| - 1]);
      StepKeepsInv(Run(p, es[..|es| - 1]), es[|es| - 1]);
    }
  }

  /** The messages of `s` stand in `ms`, each at its own serial below n, in ascending order. */
  ghost predicate Ascends(s: seq<Msg>, ms: seq<Msg>, n: nat)
    requires n <= |ms|
  {
    && (forall i :: 0 <= i < |s| ==> s[i].serial < n && ms[s[i].serial] == s[i])
    && (forall i, j :: 0 <= i < j < |s| ==> s[i].serial < s[j].serial)
  }

  /** A message picked for sending is at the head of the queue for as long as the send lasts. */
  lemma {:induction false} StillHead(es: seq<Event>, m: Msg)
    requires Run(Init(), es).place.Sending? && Run(Init(), es).place.msg == m
    ensures var q := Run(Init(), es).outbox; q != [] && q[0] == m && Remove(q, m) == q[1..]
  {
    RunKeepsInv(Init(), es);
  }

  lemma {:induction false} SelectAscends(ms: seq<Msg>, fates: seq<Fate>, f: Fate)
    requires |fates| <= |ms| && forall i :: 0 <= i < |ms| ==> ms[i].serial == i
    ensures Ascends(Select(ms, fates, f), ms, |fates|)
  {
    if fates != [] {
      var n := |fates| - 1;
      SelectAscends(ms, fates[..n], f);
      var t := Select(ms, fates[..n], f);
      assert Ascends(t, ms, n);
      assert Select(ms, fates, f) == if fates[n] == f then t + [ms[n]] else t;
    }
  }

  lemma {:induction false} FatesAddUp(ms: seq<Msg>, fates: seq<Fate>)
    requires |fates| <= |ms|
    ensures |Select(ms, fates, Sent)| + |Select(ms, fates, Expired)| == |fates|
  {
    if fates != [] {
      FatesAddUp(ms, fates[..|fates| - 1]);
    }
  }

  /** Messages are sent in the order in which they were accepted, each at most once; and no
      accepted message is lost: it has been sent, has expired, or is still queued. */
  lemma SentInOrderAndNoneLost(es: seq<Event>)
    ensures var p := Run(Init(), es);
            && Ascends(p.sent, p.accepted, |p.accepted|)
            && |p.sent| + |p.expired| + |p.outbox| == |p.accepted|
            && (forall m :: m in p.accepted ==> m in p.sent || m in p.expired || m in p.outbox)
  {
    RunKeepsInv(Init(), es);
    var p := Run(Init(), es);
    SelectAscends(p.accepted, p.fates, Sent);
    FatesAddUp(p.accepted, p.fates);
    forall i | 0 <= i < |p.accepted|
      ensures p.accepted[i] in p.sent || p.accepted[i] in p.expired || p.accepted[i] in p.outbox
    {
      if i < |p.fates| {
        SelectHolds(p.accepted, p.fates, i);
      } else {
        assert p.outbox[i - |p.fates|] == p.accepted[i];
      }
    }
  }

  lemma {:induction false} SelectHolds(ms: seq<Msg>, fates: seq<Fate>, i: nat)
    requires i < |fates| <= |ms|
    ensures ms[i] in Select(ms, fates, fates[i])
  {
    var n := |fates| - 1;
    if i < n {
      SelectHolds(ms, fates[..n], i);
    }
  }

  // ----- What becomes of a queued message -----

  lemma StepGrows(p: Peer, e: Event)
    ensures var q := Step(p, e); p.fates <= q.fates && p.accepted <= q.accepted && p.sent <= q.sent
  {
  }

  lemma {:induction false} RunGrows(p: Peer, es: seq<Event>)
    ensures var q := Run(p, es); p.fates <= q.fates && p.accepted <= q.accepted
  {
    if es != [] {
      RunGrows(p, es[..|es| - 1]);
      StepGrows(Run(p, es[..|es| - 1]), es[|es| - 1]);
    }
  }

  lemma {:induction false} SelectOnly(ms: seq<Msg>, fates: seq<Fate>, f: Fate, i: nat)
    requires i < |fates| <= |ms| && forall j :: 0 <= j < |ms| ==> ms[j].serial == j
    ensures ms[i] in Select(ms, fates, f) <==> fates[i] == f
  {
    var n := |fates| - 1;
    var t := Select(ms, fates[..n], f);
    assert Select(ms, fates, f) == if fates[n] == f then t + [ms[n]] else t;
    if i < n {
      SelectOnly(ms, fates[..n], f, i);
    } else {
      SelectAscends(ms, fates[..n], f);
      assert forall j :: 0 <= j < |t| ==> t[j].serial < n;
    }
  }

  lemma {:induction false} SelectOfPrefix(ms: seq<Msg>, fates: seq<Fate>, n: nat, f: Fate)
    requires n <= |fates| <= |ms|
    ensures Select(ms, fates[..n], f) <= Select(ms, fates, f)
    decreases |fates|
  {
    if n < |fates| {
      SelectOfPrefix(ms, fates[..|fates| - 1], n, f);
      assert fates[..|fates| - 1][..n] == fates[..n];
    } else {
      assert fates[..n] == fates;
    }
  }

  /** Whatever happens from then on, the message at place i of the queue keeps its turn: it is
      queued behind what was before it for as long as fewer than i + 1 fates are settled, and the
      fate settled next is its own, sent or expired and not both. */
  lemma QueuedMessageFate(p: Peer, es: seq<Event>, i: nat)
    requires Inv(p) && i < |p.outbox|
    ensures var q, n, m := Run(p, es), |p.fates| + i, p.outbox[i];
            && p.fates <= q.fates
            && (|q.fates| <= n ==> n - |q.fates| < |q.outbox| && q.outbox[n - |q.fates|] == m)
            && (n < |q.fates| ==> (m in q.sent <==> q.fates[n] == Sent) && (m in q.expired <==> q.fates[n] == Expired))
  {
    RunKeepsInv(p, es);
    RunGrows(p, es);
    var q, n := Run(p, es), |p.fates| + i;
    assert p.outbox[i] == p.accepted[n] by { OutboxAt(p, i); }
    assert q.accepted[n] == p.accepted[n];
    AcceptedFate(q, n);
  }

  lemma OutboxAt(p: Peer, i: nat)
    requires Inv(p) && i < |p.outbox|
    ensures |p.fates| + i < |p.accepted| && p.outbox[i] == p.accepted[|p.fates| + i]
  {
  }

  /** The n-th accepted message is queued at its place or has met exactly its own fate. */
  lemma AcceptedFate(q: Peer, n: nat)
    requires Inv(q) && n < |q.accepted|
    ensures var m := q.accepted[n];
            && (|q.fates| <= n ==> n - |q.fates| < |q.outbox| && q.outbox[n - |q.fates|] == m)
            && (n < |q.fates| ==> (m in q.sent <==> q.fates[n] == Sent) && (m in q.expired <==> q.fates[n] == Expired))
  {
    if n < |q.fates| {
      SelectOnly(q.accepted, q.fates, Sent, n);
      SelectOnly(q.accepted, q.fates, Expired, n);
    }
  }

  /** After a failed send, in every interleaving with broadcasts, failed attempts and new
      connections: the message stays at the head until its own fate is settled, and if it is sent,
      it is the first to be sent. */
  lemma RetrySendsSameMessage(p: Peer, now: nat, es: seq<Event>)
    requires Inv(p) && p.place.Sending?
    ensures var q, m := Run(Step(p, SendFails(now)), es), p.place.msg;
            && p.fates <= q.fates
            && (q.fates == p.fates ==> q.outbox != [] && q.outbox[0] == m && q.sent == p.sent)
            && (q.fates != p.fates && q.fates[|p.fates|] == Sent ==> p.sent + [m] <= q.sent)
            && (q.fates != p.fates && q.fates[|p.fates|] == Expired ==> m in q.expired && m !in q.sent)
  {
    var f := Step(p, SendFails(now));
    StepKeepsInv(p, SendFails(now));
    assert f.outbox == p.outbox && f.fates == p.fates && f.sent == p.sent;
    QueuedMessageFate(f, es, 0);
    SentExtends(f, es);
  }

  lemma SentExtends(p: Peer, es: seq<Event>)
    requires Inv(p) && p.outbox != []
    ensures var q := Run(p, es);
            && p.fates <= q.fates
            && (q.fates == p.fates ==> q.sent == p.sent)
            && (q.fates != p.fates && q.fates[|p.fates|] == Sent ==> p.sent + [p.outbox[0]] <= q.sent)
  {
    RunKeepsInv(p, es);
    RunGrows(p, es);
    var q := Run(p, es);
    SelectExtends(p.accepted, q.accepted, p.fates, q.fates, Sent);
  }

  lemma SelectExtends(ms: seq<Msg>, ms': seq<Msg>, fates: seq<Fate>, fates': seq<Fate>, f: Fate)
    requires ms <= ms' && fates <= fates' && |fates| <= |ms| && |fates'| <= |ms'|
    ensures fates == fates' ==> Select(ms', fates', f) == Select(ms, fates, f)
    ensures |fates| < |fates'| && fates'[|fates|] == f ==>
              Select(ms, fates, f) + [ms'[|fates|]] <= Select(ms', fates', f)
  {
    var n := |fates|;
    SelectGrows(ms, ms'[|ms|..], fates, f);
    assert ms' == ms + ms'[|ms|..];
    if n < |fates'| {
      SelectOfPrefix(ms', fates', n + 1, f);
      assert fates'[..n + 1][..n] == fates;
    }
  }

  /** The four failures of a sender that is connecting or connected. */
  predicate Fails(p: Peer, e: Event) {
    || (e.ConnectFails? && p.place.Connecting?) || (e.GreetingFails? && p.place.Greeting?)
    || (e.ProofFails? && p.place.Proving?) || (e.SendFails? && p.place.Sending?)
  }

  /** Every failure leaves the queue as it was and ends the session. A failed connection, proof or
      send puts off the next attempt by 1 to 30 seconds; a failed greeting does not move it. */
  lemma FailureBacksOff(p: Peer, e: Event, later: nat, micros: nat)
    requires Inv(p) && Fails(p, e)
    ensures var q := Step(p, e);
            && q.outbox == p.outbox && q.accepted == p.accepted && q.fates == p.fates
            && !q.connected && !q.authenticated && q.retryBackoff >= p.retryBackoff
            && (if e.GreetingFails? then q.nextRetry == p.nextRetry && q.retryBackoff == p.retryBackoff
                else e.now < q.nextRetry <= e.now + RETRY_MAX)
            && (Step(q, LoopTop(later, micros)).place == Connecting <==> later >= q.nextRetry)
  {
  }

  // ----- Sessions -----

  /** A sender whose session never outlives its greeting: it has not come to its outbox. */
  ghost predicate Barred(p: Peer) {
    p.authExpireAt == 0 && !p.place.Choosing? && !p.place.Sending? && p.fates == []
  }

  predicate AtOutbox(p: Peer) {
    p.place.Choosing? || p.place.Sending?
  }

  /** The sender has been at its outbox, in one session, ever since event i. */
  ghost predicate SameSession(es: seq<Event>, i: nat, expireAt: nat) {
    forall j :: i < j <= |es| ==> AtOutbox(Run(Init(), es[..j])) && Run(Init(), es[..j]).authExpireAt == expireAt
  }

  /** The sender comes to its outbox by a check alone, and its session stays the same there. */
  lemma CheckedOnEntry(p: Peer, e: Event)
    requires AtOutbox(Step(p, e))
    ensures if AtOutbox(p) then Step(p, e).authExpireAt == p.authExpireAt
            else (e.LoopTop? || e.GreetingSucceeds?) && e.micros < Step(p, e).authExpireAt
  {
  }

  lemma SameSessionGrows(es: seq<Event>, i: nat, expireAt: nat)
    requires es != [] && SameSession(es[..|es| - 1], i, expireAt)
    requires AtOutbox(Run(Init(), es)) && Run(Init(), es).authExpireAt == expireAt
    ensures SameSession(es, i, expireAt)
  {
    forall j | i < j <= |es|
      ensures AtOutbox(Run(Init(), es[..j])) && Run(Init(), es[..j]).authExpireAt == expireAt
    {
      if j < |es| {
        assert es[..|es| - 1][..j] == es[..j];
      } else {
        assert es[..j] == es;
      }
    }
  }

  /** Whenever the sender is at its outbox or sending, one of its checks of this very session read
      a time before the expiry, and it has not left the outbox since: there is a check for every
      message that is picked. */
  lemma {:induction false} SessionWasChecked(es: seq<Event>) returns (i: nat)
    requires AtOutbox(Run(Init(), es))
    ensures i < |es| && (es[i].LoopTop? || es[i].GreetingSucceeds?) && es[i].micros < Run(Init(), es).authExpireAt
    ensures SameSession(es, i, Run(Init(), es).authExpireAt)
  {
    var n := |es| - 1;
    var p := Run(Init(), es[..n]);
    CheckedOnEntry(p, es[n]);
    i := n;
    if AtOutbox(p) {
      i := SessionWasChecked(es[..n]);
    }
    SameSessionGrows(es, i, Run(Init(), es).authExpireAt);
  }

  /** A message is being sent although the session had run out when it was picked. */
  predicate Late(p: Peer) {
    p.place.Sending? && p.place.pickedAt >= p.authExpireAt
  }

  /** Picking does not look at the expiry: a pick is late if and only if there is a message to pick
      and the expiry, which the check before it had not reached, is reached by now. */
  lemma LatePickExactly(es: seq<Event>, now: nat, micros: nat) returns (i: nat)
    requires Run(Init(), es).place.Choosing?
    ensures var p := Run(Init(), es);
            && i < |es| && (es[i].LoopTop? || es[i].GreetingSucceeds?) && SameSession(es, i, p.authExpireAt)
            && (Late(Step(p, Choose(now, micros))) <==>
                && p.outbox != [] && now <= p.outbox[0].enqueuedAt + MSG_TTL
                && es[i].micros < p.authExpireAt <= micros)
  {
    i := SessionWasChecked(es);
    RunKeepsInv(Init(), es);
  }

  /** Such a run: the message arrives while the sender waits, after the session has run out. */
  lemma WaitOutlivesSession(expireAt: nat, body: seq<byte>, now: nat, micros: nat)
    requires 0 < expireAt <= micros
    ensures Late(Run(Init(), [LoopTop(0, 0), Connects, GreetingSucceeds(expireAt, 0), Broadcast(body, now),
                              Choose(now, micros)]))
  {
    var es := [LoopTop(0, 0), Connects, GreetingSucceeds(expireAt, 0), Broadcast(body, now), Choose(now, micros)];
    assert es[..4][..3][..2][..1][..0] == [];
    assert Run(Init(), es[..4][..3][..2][..1]) == Step(Init(), es[0]);
    assert Run(Init(), es[..4][..3][..2]) == Step(Step(Init(), es[0]), es[1]);
    assert Run(Init(), es[..4][..3]) == Step(Step(Step(Init(), es[0]), es[1]), es[2]);
    assert Run(Init(), es[..4]) == Step(Step(Step(Step(Init(), es[0]), es[1]), es[2]), es[3]);
  }
}
