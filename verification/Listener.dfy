/** One accepted cluster connection: what the listener does with each frame it receives, and
    exactly which frames it acts on. */
module Listener {
  import opened Bytes
  import opened Lww
  import opened Wire
  import opened Handshake
  import opened ClusterId
  import Packing
  import opened Database

  const OP_SYNC := 4
  const OP_HELLO := 5
  const OP_SYNC_REQUEST := 7
  const OP_AUTH_REQUEST := 13
  const OP_AUTH_OK := 15
  const AUTH_TTL_MICROS := 600_000_000

  /** The listener's own settings; `mac` is HMAC-SHA256 in the implementation. */
  datatype Node = Node(mac: Mac, host: Host, name: seq<byte>)

  /** What one receive meets: a frame or a failure, the clock after it, a fresh nonce, whether a
      reply can be sent, and how the store behaves. */
  datatype Input = Input(frame: Option<Frame>, now: u64, nonce: u64, sends: bool, faults: Faults)

  datatype Action = Hello(frame: Frame) | Challenge(response: seq<byte>) | Snapshot | Apply(frame: Frame)

  /** Fresh: nothing received. Challenged: the response is out, AUTH_OK is due. */
  datatype Session = Fresh | Challenged(expireAt: u64) | Authentic(expireAt: u64) | Closed

  function Expiry(now: u64): u64 {
    (now + AUTH_TTL_MICROS) % 0x1_0000_0000_0000_0000
  }

  predicate Opens(f: Frame) {
    f.opcode == OP_AUTH_REQUEST && |f.value| >= 8
  }

  function Next(n: Node, s: Session, x: Input): Session {
    if s.Closed? || x.frame.None? then Closed else
    var f := x.frame.value;
    match s
    case Challenged(e) => if f.opcode == OP_AUTH_OK then Authentic(e) else Closed
    case Authentic(e) => if f.opcode == OP_HELLO || x.now >= e || !Accepts(n.name, f.clusterId) then Closed else s
    case Fresh =>
      if n.host.secret == [] then (if Accepts(n.name, f.clusterId) then Fresh else Closed)
      else if Opens(f) && x.sends then Challenged(Expiry(x.now)) else Closed
  }

  /** What the listener does with a frame it has admitted. */
  function Serve(f: Frame): Option<Action> {
    if f.opcode == OP_SYNC_REQUEST && f.nodeId != 0 && f.key == [] && f.value == [] then Some(Snapshot)
    else if f.opcode == OP_SYNC && f.nodeId != 0 && f.key != [] then Some(Apply(f))
    else None
  }

  function Act(n: Node, s: Session, x: Input): Option<Action> {
    if s.Closed? || x.frame.None? then None else
    var f := x.frame.value;
    match s
    case Challenged(e) => None
    case Authentic(e) =>
      if f.opcode == OP_HELLO then Some(Hello(f))
      else if x.now >= e || !Accepts(n.name, f.clusterId) then None else Serve(f)
    case Fresh =>
      if n.host.secret == [] then (if Accepts(n.name, f.clusterId) then Serve(f) else None)
      else if f.opcode == OP_HELLO then Some(Hello(f))
      else if Opens(f) && x.sends
      then Some(Challenge(AuthResponse(n.mac, n.host, f.value, x.nonce, Expiry(x.now)))) else None
  }

  function After(n: Node, xs: seq<Input>): Session {
    if xs == [] then Fresh else Next(n, After(n, xs[..|xs| - 1]), xs[|xs| - 1])
  }

  function ActionAt(n: Node, xs: seq<Input>, i: nat): Option<Action>
    requires i < |xs|
  {
    Act(n, After(n, xs[..i]), xs[i])
  }

  // ----- Exactly which frames are acted on -----

  /** The first two frames of the connection completed the handshake. */
  predicate Shook(xs: seq<Input>) {
    && |xs| >= 2 && xs[0].frame.Some? && Opens(xs[0].frame.value) && xs[0].sends
    && xs[1].frame.Some? && xs[1].frame.value.opcode == OP_AUTH_OK
  }

  /** A frame that leaves an authenticated connection open. */
  predicate Keeps(n: Node, e: u64, x: Input) {
    x.frame.Some? && x.frame.value.opcode != OP_HELLO && x.now < e && Accepts(n.name, x.frame.value.clusterId)
  }

  lemma {:induction false} AfterIsShook(n: Node, xs: seq<Input>, e: u64)
    requires n.host.secret != []
    ensures After(n, xs) == Authentic(e) <==>
            && Shook(xs) && e == Expiry(xs[0].now)
            && forall k :: 2 <= k < |xs| ==> Keeps(n, e, xs[k])
    ensures After(n, xs) == Challenged(e) <==>
            |xs| == 1 && xs[0].frame.Some? && Opens(xs[0].frame.value) && xs[0].sends && e == Expiry(xs[0].now)
    ensures After(n, xs) == Fresh <==> xs == []
  {
    if xs != [] {
      AfterIsShook(n, xs[..|xs| - 1], e);
    }
  }

  predicate AllAccepted(n: Node, xs: seq<Input>) {
    forall k :: 0 <= k < |xs| ==> xs[k].frame.Some? && Accepts(n.name, xs[k].frame.value.clusterId)
  }

  lemma {:induction false} AfterWithoutSecret(n: Node, xs: seq<Input>)
    requires n.host.secret == []
    ensures After(n, xs) == if AllAccepted(n, xs) then Fresh else Closed
  {
    if xs != [] {
      AfterWithoutSecret(n, xs[..|xs| - 1]);
    }
  }

  /** With a secret, a record is applied or a snapshot served for frame i if and only if the
      connection began with a completed handshake, and every later frame up to and including i
      came before that handshake's expiry, from the right cluster, and was no HELLO. */
  lemma ServedExactly(n: Node, xs: seq<Input>, i: nat, a: Action)
    requires n.host.secret != [] && i < |xs| && (a.Apply? || a.Snapshot?)
    ensures ActionAt(n, xs, i) == Some(a) <==>
            && i >= 2 && Shook(xs) && (forall k :: 2 <= k <= i ==> Keeps(n, Expiry(xs[0].now), xs[k]))
            && Serve(xs[i].frame.value) == Some(a)
  {
    var before := xs[..i];
    var s := After(n, before);
    if s.Authentic? {
      AfterIsShook(n, before, s.expireAt);
    } else if i >= 2 && Shook(xs) {
      AfterIsShook(n, before, Expiry(xs[0].now));
    }
  }

  /** Without a secret only records and snapshots are served: a HELLO gets no peer list and a
      challenge no response. */
  lemma WithoutSecretServedExactly(n: Node, xs: seq<Input>, i: nat)
    requires n.host.secret == [] && i < |xs|
    ensures ActionAt(n, xs, i) ==
            if forall k :: 0 <= k <= i ==> xs[k].frame.Some? && Accepts(n.name, xs[k].frame.value.clusterId)
            then Serve(xs[i].frame.value) else None
  {
    AfterWithoutSecret(n, xs[..i]);
  }

  /** A challenge is answered at most once in a connection, so its expiry is never extended. */
  lemma ChallengedOnce(n: Node, xs: seq<Input>, i: nat)
    requires i < |xs| && ActionAt(n, xs, i).Some? && ActionAt(n, xs, i).value.Challenge?
    ensures i == 0 && n.host.secret != []
  {
    if n.host.secret != [] {
      AfterIsShook(n, xs[..i], 0);
    }
  }

  lemma RequestIsAnswered(n: Node, request: seq<byte>, xs: seq<Input>)
    requires n.host.secret != [] && |xs| > 0 && xs[0].frame.Some? && xs[0].sends
    requires xs[0].frame.value.opcode == OP_AUTH_REQUEST && xs[0].frame.value.value == request && |request| >= 8
    ensures ActionAt(n, xs, 0) == Some(Challenge(AuthResponse(n.mac, n.host, request, xs[0].nonce, Expiry(xs[0].now))))
    ensures After(n, xs[..1]) == Challenged(Expiry(xs[0].now))
  {
    assert xs[..1][..0] == [];
  }

  /** An honest client of the same byte order and secret gets its challenge answered, and takes
      exactly the expiry that the listener will hold. */
  lemma HonestClientAccepted(n: Node, nonceA: u64, xs: seq<Input>)
    requires n.mac == HmacMac() && n.host.secret != []
    requires |xs| > 0 && xs[0].frame.Some? && xs[0].sends
    requires xs[0].frame.value.opcode == OP_AUTH_REQUEST && xs[0].frame.value.value == AuthRequest(n.host, nonceA)
    ensures var response := AuthResponse(n.mac, n.host, AuthRequest(n.host, nonceA), xs[0].nonce, Expiry(xs[0].now));
            && ActionAt(n, xs, 0) == Some(Challenge(response))
            && ClientAccepts(n.mac, n.host, nonceA, response) == Some(Expiry(xs[0].now))
    ensures After(n, xs[..1]) == Challenged(Expiry(xs[0].now))
  {
    HonestPeersAuthenticate(n.host, n.host, nonceA, xs[0].nonce, Expiry(xs[0].now));
    RequestIsAnswered(n, AuthRequest(n.host, nonceA), xs);
  }

  /** A frame as an honest node of the cluster broadcasts it. */
  predicate HonestRecord(n: Node, x: Input) {
    && x.frame.Some? && x.frame.value.opcode == OP_SYNC && x.frame.value.clusterId == IdOf(n.name)
    && x.frame.value.nodeId != 0 && x.frame.value.key != []
  }

  /** After a completed handshake every record of an honest node that arrives before the expiry
      is applied; the one exception is a cluster whose name hashes to 0. */
  lemma HonestRecordsApplied(n: Node, xs: seq<Input>, i: nat)
    requires n.host.secret != [] && Shook(xs)
    requires 2 <= i < |xs| && forall k :: 2 <= k <= i ==> HonestRecord(n, xs[k]) && xs[k].now < Expiry(xs[0].now)
    ensures HonestRecord(n, xs[i])
    ensures ActionAt(n, xs, i) == Some(Apply(xs[i].frame.value)) <==> n.name == [] || Fnv(n.name) != 0
  {
    assert HonestRecord(n, xs[i]);
    ServedExactly(n, xs, i, Apply(xs[i].frame.value));
    OwnClusterAccepted(n.name);
    if n.name == [] || Fnv(n.name) != 0 {
      assert forall k :: 2 <= k <= i ==> HonestRecord(n, xs[k]) ==> Keeps(n, Expiry(xs[0].now), xs[k]);
    } else {
      assert !Keeps(n, Expiry(xs[0].now), xs[i]);
    }
  }

  // ----- The loop -----

  function RecordOf(f: Frame): Record {
    Record(Stamp(f.timestamp, f.nodeId), f.expireAt, f.flags / 2 % 2 == 1, f.value)
  }

  /** The writes of a log that the store takes. */
  function Writes(log: seq<Option<Action>>): seq<Write> {
    if log == [] then [] else Writes(log[..|log| - 1]) + Taken(log[|log| - 1])
  }

  function Taken(a: Option<Action>): seq<Write> {
    if a.Some? && a.value.Apply? && Packing.Storable(a.value.frame.key, RecordOf(a.value.frame))
    then [Write(a.value.frame.key, RecordOf(a.value.frame))] else []
  }

  ghost predicate Quiet(xs: seq<Input>) {
    forall i :: 0 <= i < |xs| ==> xs[i].faults == Faults(false, false, false)
  }

  /** The log so far is what the session makes of the frames so far. */
  ghost predicate Logged(n: Node, xs: seq<Input>, log: seq<Option<Action>>) {
    |log| <= |xs| && forall i :: 0 <= i < |log| ==> log[i] == ActionAt(n, xs, i)
  }

  ghost predicate Merged(t: Table, was: Table, log: seq<Option<Action>>) {
    t == MergeAll(was, Writes(log))
  }

  /** One more frame: the log, the session and the table move on together. */
  lemma LogGrows(n: Node, xs: seq<Input>, log: seq<Option<Action>>, a: Option<Action>)
    requires Logged(n, xs, log) && |log| < |xs| && a == Act(n, After(n, xs[..|log|]), xs[|log|])
    ensures Logged(n, xs, log + [a])
    ensures After(n, xs[..|log| + 1]) == Next(n, After(n, xs[..|log|]), xs[|log|])
  {
    assert xs[..|log| + 1][..|log|] == xs[..|log|];
  }

  lemma TableGrows(t: Table, t': Table, was: Table, log: seq<Option<Action>>, a: Option<Action>)
    requires Merged(t, was, log) && t' == MergeAll(t, Taken(a))
    ensures Merged(t', was, log + [a])
  {
    assert (log + [a])[..|log|] == log;
    MergeAllConcat(was, Writes(log), Taken(a));
  }

  /** The switch over an admitted frame's opcode: a record goes to the store, and errors of the
      store are not passed on. */
  method Dispatch(store: Database, f: Frame, faults: Faults) returns (a: Option<Action>)
    requires store.Valid()
    modifies store`db
    ensures a == Serve(f) && store.Valid()
    ensures store.open && faults == Faults(false, false, false) ==>
            store.View() == MergeAll(old(store.View()), Taken(a))
  {
    if f.opcode == OP_SYNC_REQUEST {
      return if f.nodeId != 0 && f.key == [] && f.value == [] then Some(Snapshot) else None;
    }
    if f.opcode == OP_SYNC {
      if f.nodeId == 0 || f.key == [] {
        return None;
      }
      var rc := store.ApplyRecord(f.key, RecordOf(f), faults);
      ghost var ws := [Write(f.key, RecordOf(f))];
      assert ws[..0] == [];
      return Some(Apply(f));
    }
    return None;
  }

  /** What the loop does next with a frame: close, wait for AUTH_OK, or dispatch it. */
  datatype Verdict = Close(last: Option<Action>) | Await(response: seq<byte>, expireAt: u64) | Pass(frame: Frame)

  /** The checks before the switch. */
  method Examine(n: Node, authenticated: bool, authExpireAt: u64, x: Input) returns (v: Verdict)
    requires authenticated ==> n.host.secret != []
    ensures var s := if authenticated then Authentic(authExpireAt) else Fresh;
            match v
            case Close(a) => Taken(a) == [] && Act(n, s, x) == a && Next(n, s, x) == Closed
            case Await(r, e) => Act(n, s, x) == Some(Challenge(r)) && Next(n, s, x) == Challenged(e) &&
                 n.host.secret != []
            case Pass(f) => Act(n, s, x) == Serve(f) && Next(n, s, x) == s
  {
    if x.frame.None? {
      return Close(None);
    }
    var f := x.frame.value;
    if n.host.secret != [] {
      if f.opcode == OP_HELLO {
        return Close(Some(Hello(f)));
      }
      if !authenticated {
        if f.opcode != OP_AUTH_REQUEST || |f.value| < 8 || !x.sends {
          return Close(None);
        }
        return Await(AuthResponse(n.mac, n.host, f.value, x.nonce, Expiry(x.now)), Expiry(x.now));
      }
      if x.now >= authExpireAt {
        return Close(None);
      }
    }
    return if Accepts(n.name, f.clusterId) then Pass(f) else Close(None);
  }

  /** The connection loop. The store ends as the merge of exactly the records that the session
      admits; the loop ends early only when the session is closed. */
  method HandleConnection(n: Node, store: Database, xs: seq<Input>) returns (log: seq<Option<Action>>)
    requires store.Valid()
    modifies store`db
    ensures Logged(n, xs, log) && (|log| == |xs| || After(n, xs[..|log|]) == Closed)
    ensures store.Valid()
    ensures store.open && Quiet(xs) ==> store.View() == MergeAll(old(store.View()), Writes(log))
  {
    var authenticated, authExpireAt := false, 0;
    ghost var was := store.View();
    ghost var quiet := store.open && Quiet(xs);
    log := [];
    while |log| < |xs|
      invariant Logged(n, xs, log) && store.Valid()
      invariant After(n, xs[..|log|]) == if authenticated then Authentic(authExpireAt) else Fresh
      invariant authenticated ==> n.host.secret != []
      invariant quiet ==> Merged(store.View(), was, log)
      decreases |xs| - |log|
    {
      var v := Examine(n, authenticated, authExpireAt, xs[|log|]);
      match v {
        case Close(last) =>
          log := Note(n, store, xs, log, last, was, quiet);
          break;
        case Await(response, expireAt) =>
          log, authenticated := Confirm(n, store, xs, log, response, expireAt, was, quiet);
          authExpireAt := expireAt;
          if !authenticated {
            break;
          }
        case Pass(f) =>
          log := Deliver(n, store, xs, log, f, was, quiet);
      }
    }
  }

  /** Sends the response and waits for AUTH_OK. */
  method Confirm(n: Node, store: Database, xs: seq<Input>, log: seq<Option<Action>>, response: seq<byte>, expireAt: u64,
                 ghost was: Table, ghost quiet: bool) returns (longer: seq<Option<Action>>, ok: bool)
    requires Logged(n, xs, log) && |log| < |xs|
    requires Act(n, After(n, xs[..|log|]), xs[|log|]) == Some(Challenge(response))
    requires Next(n, After(n, xs[..|log|]), xs[|log|]) == Challenged(expireAt)
    requires quiet ==> Merged(store.View(), was, log)
    ensures Logged(n, xs, longer) && |longer| > |log|
    ensures if ok then After(n, xs[..|longer|]) == Authentic(expireAt)
            else |longer| == |xs| || After(n, xs[..|longer|]) == Closed
    ensures quiet ==> Merged(store.View(), was, longer)
  {
    longer := Note(n, store, xs, log, Some(Challenge(response)), was, quiet);
    if |longer| == |xs| {
      return longer, false;
    }
    var x := xs[|longer|];
    longer := Note(n, store, xs, longer, None, was, quiet);
    ok := x.frame.Some? && x.frame.value.opcode == OP_AUTH_OK;
  }

  /** Hands an admitted frame to the switch. */
  method Deliver(n: Node, store: Database, xs: seq<Input>, log: seq<Option<Action>>, f: Frame,
                 ghost was: Table, ghost quiet: bool) returns (longer: seq<Option<Action>>)
    requires store.Valid() && Logged(n, xs, log) && |log| < |xs|
    requires Act(n, After(n, xs[..|log|]), xs[|log|]) == Serve(f)
    requires quiet ==> store.open && xs[|log|].faults == Faults(false, false, false) && Merged(store.View(), was, log)
    modifies store`db
    ensures store.Valid() && Logged(n, xs, longer) && |longer| == |log| + 1
    ensures After(n, xs[..|longer|]) == Next(n, After(n, xs[..|log|]), xs[|log|])
    ensures quiet ==> Merged(store.View(), was, longer)
  {
    var a := Dispatch(store, f, xs[|log|].faults);
    LogGrows(n, xs, log, a);
    if quiet {
      TableGrows(old(store.View()), store.View(), was, log, a);
    }
    longer := log + [a];
  }

  /** Logs a step that leaves the store alone. */
  method Note(n: Node, store: Database, xs: seq<Input>, log: seq<Option<Action>>, a: Option<Action>,
              ghost was: Table, ghost quiet: bool) returns (longer: seq<Option<Action>>)
    requires Logged(n, xs, log) && |log| < |xs| && a == Act(n, After(n, xs[..|log|]), xs[|log|]) && Taken(a) == []
    requires quiet ==> Merged(store.View(), was, log)
    ensures longer == log + [a] && Logged(n, xs, longer)
    ensures After(n, xs[..|longer|]) == Next(n, After(n, xs[..|log|]), xs[|log|])
    ensures quiet ==> Merged(store.View(), was, longer)
  {
    longer := log + [a];
    LogGrows(n, xs, log, a);
    if quiet {
      TableGrows(store.View(), store.View(), was, log, a);
    }
  }
}
