/** The rate limiter's rule: a window per client, a queue of clients by last access, expiry
    from the head of that queue and forced eviction. The zone that holds the entries is in
    RateZone; here is what each request does to clients and their windows, and what follows
    for whole runs. */
module RateLimit {
  import opened Bytes

  type Client = seq<byte>

  datatype Window = Window(start: nat, count: nat)

  /** The clients known to the limiter, and the same clients from least to most recent. */
  datatype Limiter = Limiter(windows: map<Client, Window>, order: seq<Client>)

  /** A request with the time it is served and the outcome of the allocations it may need. */
  datatype Request = Request(client: Client, now: nat, first: bool, second: bool)

  datatype Decision = Accept | TooMany | Unavailable

  datatype Config = Config(limit: nat, window: nat)

  const MSEC := 0x1_0000_0000_0000_0000

  /** Unsigned subtraction of millisecond counters. */
  function Elapsed(now: nat, start: nat): nat {
    (now - start) % MSEC
  }

  /** A configured limit or window of 0 means the default. */
  function Effective(limit: nat, window: nat): (c: Config)
    ensures c.limit > 0 && c.window > 0
  {
    Config(if limit > 0 then limit else 100, if window > 0 then window else 60000)
  }

  function Without<T(==)>(s: seq<T>, x: T): seq<T> {
    if s == [] then [] else (if s[0] == x then [] else [s[0]]) + Without(s[1..], x)
  }

  function DropOldest(l: Limiter): Limiter
    requires l.order != []
  {
    Limiter(l.windows - {l.order[0]}, l.order[1..])
  }

  function Expire(c: Config, l: Limiter, now: nat): Limiter
    decreases |l.order|
  {
    if l.order == [] || l.order[0] !in l.windows || Elapsed(now, l.windows[l.order[0]].start) <= c.window then l
    else Expire(c, DropOldest(l), now)
  }

  function Admit(l: Limiter, client: Client, now: nat): Limiter {
    Limiter(l.windows[client := Window(now, 1)], l.order + [client])
  }

  /** What a client's window becomes, and the decision, for a client that has one. */
  function Count(c: Config, w: Window, now: nat): (Window, Decision) {
    if Elapsed(now, w.start) > c.window then (Window(now, 1), Accept)
    else if w.count >= c.limit then (w, TooMany)
    else (Window(w.start, w.count + 1), Accept)
  }

  /** A client's window is rewritten and the client becomes the most recent one. */
  function Touched(l: Limiter, client: Client, w: Window): Limiter {
    Limiter(l.windows[client := w], Without(l.order, client) + [client])
  }

  function Serve(c: Config, l: Limiter, r: Request): (Limiter, Decision) {
    if r.client in l.windows then
      var (w, d) := Count(c, l.windows[r.client], r.now);
      (Touched(l, r.client, w), d)
    else
      var e := Expire(c, l, r.now);
      if r.first then (Admit(e, r.client, r.now), Accept)
      else if e.order == [] then (e, Unavailable)
      else if r.second then (Admit(DropOldest(e), r.client, r.now), Accept)
      else (DropOldest(e), Unavailable)
  }

  function Run(c: Config, rs: seq<Request>): Limiter {
    if rs == [] then Limiter(map[], []) else Serve(c, Run(c, rs[..|rs| - 1]), rs[|rs| - 1]).0
  }

  /** The decision on the i-th request of a run. */
  function Decide(c: Config, rs: seq<Request>, i: nat): Decision
    requires i < |rs|
  {
    Serve(c, Run(c, rs[..i]), rs[i]).1
  }

  // ----- The reference: a map that never forgets a client -----

  function ServeForever(c: Config, m: map<Client, Window>, r: Request): (map<Client, Window>, Decision) {
    if r.client in m then
      var (w, d) := Count(c, m[r.client], r.now);
      (m[r.client := w], d)
    else (m[r.client := Window(r.now, 1)], Accept)
  }

  function RunForever(c: Config, rs: seq<Request>): map<Client, Window> {
    if rs == [] then map[] else ServeForever(c, RunForever(c, rs[..|rs| - 1]), rs[|rs| - 1]).0
  }

  function DecideForever(c: Config, rs: seq<Request>, i: nat): Decision
    requires i < |rs|
  {
    ServeForever(c, RunForever(c, rs[..i]), rs[i]).1
  }

  /** The clock does not go back and does not wrap around. */
  ghost predicate Forward(rs: seq<Request>) {
    && (forall i :: 0 <= i < |rs| ==> rs[i].now < MSEC)
    && (forall i, j :: 0 <= i <= j < |rs| ==> rs[i].now <= rs[j].now)
  }

  ghost predicate AllAllocated(rs: seq<Request>) {
    forall i :: 0 <= i < |rs| ==> rs[i].first
  }

  // ----- Exactly when forgetting shows -----

  /** An entry is had for no one: the client is unknown and both allocations fail, or the first
      does with nobody to evict. */
  predicate Starved(c: Config, rs: seq<Request>, j: nat)
    requires j < |rs|
  {
    var r, l := rs[j], Run(c, rs[..j]);
    r.client !in l.windows && !r.first && (Expire(c, l, r.now).order == [] || !r.second)
  }

  /** The client is unknown, although the reference has a window for it that has not passed. */
  predicate Missed(c: Config, rs: seq<Request>, j: nat)
    requires j < |rs|
  {
    var r, l, m := rs[j], Run(c, rs[..j]), RunForever(c, rs[..j]);
    r.client !in l.windows && r.client in m && Elapsed(r.now, m[r.client].start) <= c.window
  }

  predicate AgreeOn(l: Limiter, m: map<Client, Window>, k: Client) {
    k in l.windows ==> k in m && m[k] == l.windows[k]
  }

  /** Expiry forgets only windows that have passed, and changes none. */
  lemma {:induction false} ExpireForgetsStale(c: Config, l: Limiter, now: nat, k: Client)
    ensures var e := Expire(c, l, now);
            && (k in e.windows ==> k in l.windows && e.windows[k] == l.windows[k])
            && (k in l.windows && k !in e.windows ==> Elapsed(now, l.windows[k].start) > c.window)
    decreases |l.order|
  {
    if l.order == [] || l.order[0] !in l.windows || Elapsed(now, l.windows[l.order[0]].start) <= c.window {
    } else {
      ExpireForgetsStale(c, DropOldest(l), now, k);
    }
  }

  lemma ServeAgrees(c: Config, l: Limiter, m: map<Client, Window>, r: Request, k: Client)
    requires AgreeOn(l, m, k)
    requires r.client == k && k !in l.windows && k in m ==> Elapsed(r.now, m[k].start) > c.window
    ensures AgreeOn(Serve(c, l, r).0, ServeForever(c, m, r).0, k)
  {
    ExpireForgetsStale(c, l, r.now, k);
  }

  lemma {:induction false} RunAgrees(c: Config, rs: seq<Request>, k: Client)
    requires forall j :: 0 <= j < |rs| && rs[j].client == k ==> !Missed(c, rs, j)
    ensures AgreeOn(Run(c, rs), RunForever(c, rs), k)
  {
    if rs != [] {
      var n := |rs| - 1;
      forall j | 0 <= j < n && rs[j].client == k ensures !Missed(c, rs[..n], j) {
        assert !Missed(c, rs, j);
        assert rs[..n][..j] == rs[..j];
      }
      RunAgrees(c, rs[..n], k);
      if rs[n].client == k {
        assert !Missed(c, rs, n);
      }
      ServeAgrees(c, Run(c, rs[..n]), RunForever(c, rs[..n]), rs[n], k);
    }
  }

  /** A window leaves room for a request: it has passed or is not full. */
  predicate Open(c: Config, w: Window, now: nat) {
    Elapsed(now, w.start) > c.window || w.count < c.limit
  }

  lemma {:induction false} KnownToReference(c: Config, rs: seq<Request>, k: Client)
    ensures k in Run(c, rs).windows ==> k in RunForever(c, rs)
  {
    if rs != [] {
      var n := |rs| - 1;
      KnownToReference(c, rs[..n], k);
      ExpireForgetsStale(c, Run(c, rs[..n]), rs[n].now, k);
    }
  }

  /** For every request of every run, whatever the clock, the allocations and what was forgotten
      before: the decision is the reference's if and only if an entry can be had and the limiter's
      window of the client, or having none, leaves room exactly when the reference's does. */
  lemma AgreesExactly(c: Config, rs: seq<Request>, i: nat)
    requires i < |rs|
    ensures var k, now, l, m := rs[i].client, rs[i].now, Run(c, rs[..i]).windows, RunForever(c, rs[..i]);
            Decide(c, rs, i) == DecideForever(c, rs, i) <==>
            && !Starved(c, rs, i)
            && (k in m ==> ((k in l ==> Open(c, l[k], now)) <==> Open(c, m[k], now)))
  {
    KnownToReference(c, rs[..i], rs[i].client);
  }

  /** A client that was dropped stays unknown, and the reference keeps its window, until it asks
      again. */
  lemma {:induction false} StaysDropped(c: Config, rs: seq<Request>, e: nat, i: nat, k: Client)
    requires e <= i <= |rs| && k !in Run(c, rs[..e]).windows && k in RunForever(c, rs[..e])
    requires forall j :: e <= j < i ==> rs[j].client != k
    ensures k !in Run(c, rs[..i]).windows && k in RunForever(c, rs[..i])
    ensures RunForever(c, rs[..i])[k] == RunForever(c, rs[..e])[k]
    decreases i
  {
    if e < i {
      StaysDropped(c, rs, e, i - 1, k);
      RunSteps(c, rs, i - 1);
      ExpireForgetsStale(c, Run(c, rs[..i - 1]), rs[i - 1].now, k);
    }
  }

  /** However a client came to be dropped, by eviction or by expiry under any clock: the decision
      on its next request is the reference's if and only if an entry can be had and the window
      that the reference had for it then leaves room now. That is the window it lost, if it had
      not missed one before. */
  lemma DroppedExactly(c: Config, rs: seq<Request>, e: nat, i: nat)
    requires e < i < |rs| && forall j :: e < j < i ==> rs[j].client != rs[i].client
    requires var k := rs[i].client; k in Run(c, rs[..e]).windows && k !in Run(c, rs[..e + 1]).windows
    ensures var k, l, m := rs[i].client, Run(c, rs[..e]).windows, RunForever(c, rs[..e]);
            && k in m
            && (Decide(c, rs, i) == DecideForever(c, rs, i) <==> !Starved(c, rs, i) && Open(c, m[k], rs[i].now))
            && ((forall j :: 0 <= j < e && rs[j].client == k ==> !Missed(c, rs, j)) ==> m[k] == l[k])
  {
    var k := rs[i].client;
    assert rs[..e + 1][..e] == rs[..e];
    KnownToReference(c, rs[..e], k);
    assert rs[e].client != k;
    StaysDropped(c, rs, e + 1, i, k);
    AgreesExactly(c, rs, i);
    if forall j :: 0 <= j < e && rs[j].client == k ==> !Missed(c, rs, j) {
      LostIsReference(c, rs, e, k);
    }
  }

  lemma LostIsReference(c: Config, rs: seq<Request>, e: nat, k: Client)
    requires e <= |rs| && forall j :: 0 <= j < e && rs[j].client == k ==> !Missed(c, rs, j)
    ensures AgreeOn(Run(c, rs[..e]), RunForever(c, rs[..e]), k)
  {
    forall j | 0 <= j < e && rs[j].client == k ensures !Missed(c, rs[..e], j) {
      assert !Missed(c, rs, j);
      assert rs[..e][..j] == rs[..j];
    }
    RunAgrees(c, rs[..e], k);
  }

  // ----- After the two windows have parted -----

  /** The requests of a client among requests i to j - 1. */
  function Requests(rs: seq<Request>, k: Client, i: nat, j: nat): nat
    requires i <= j <= |rs|
  {
    if i == j then 0 else Requests(rs, k, i, j - 1) + (if rs[j - 1].client == k then 1 else 0)
  }

  /** A window's count after q more requests while it lasts. */
  function CountAfter(c: Config, count: nat, q: nat): nat {
    if count >= c.limit then count else if count + q <= c.limit then count + q else c.limit
  }

  ghost predicate KnownAt(c: Config, rs: seq<Request>, k: Client, t: nat)
    requires t <= |rs|
  {
    k in Run(c, rs[..t]).windows
  }

  /** Client k stays known from request i to request j. */
  ghost predicate StaysKnown(c: Config, rs: seq<Request>, k: Client, i: nat, j: nat)
    requires i <= j <= |rs|
  {
    forall t {:trigger KnownAt(c, rs, k, t)} :: i <= t <= j ==> KnownAt(c, rs, k, t)
  }

  /** A window started at `start` lasts for all requests of k among requests i to j - 1. */
  ghost predicate Lasts(c: Config, rs: seq<Request>, k: Client, i: nat, j: nat, start: nat)
    requires i <= j <= |rs|
  {
    forall t :: i <= t < j && rs[t].client == k ==> Elapsed(rs[t].now, start) <= c.window
  }

  lemma ServeCounts(c: Config, l: Limiter, m: map<Client, Window>, r: Request, k: Client)
    requires k in l.windows && k in m && k in Serve(c, l, r).0.windows
    requires r.client == k ==> Elapsed(r.now, l.windows[k].start) <= c.window && Elapsed(r.now, m[k].start) <= c.window
    ensures var q := if r.client == k then 1 else 0;
            && Serve(c, l, r).0.windows[k] == l.windows[k].(count := CountAfter(c, l.windows[k].count, q))
            && k in ServeForever(c, m, r).0
            && ServeForever(c, m, r).0[k] == m[k].(count := CountAfter(c, m[k].count, q))
  {
    ExpireForgetsStale(c, l, r.now, k);
  }

  lemma CountsAdd(c: Config, count: nat, q: nat, d: nat)
    ensures CountAfter(c, CountAfter(c, count, q), d) == CountAfter(c, count, q + d)
  {
  }

  /** Client k has, on both sides, the window it had and q more requests counted. */
  ghost predicate Counted(c: Config, w: Window, v: Window, l: Limiter, m: map<Client, Window>, k: Client, q: nat) {
    && k in l.windows && l.windows[k] == w.(count := CountAfter(c, w.count, q))
    && k in m && m[k] == v.(count := CountAfter(c, v.count, q))
  }

  lemma CountedStep(c: Config, w: Window, v: Window, l: Limiter, m: map<Client, Window>, r: Request, k: Client, q: nat)
    requires Counted(c, w, v, l, m, k, q) && k in Serve(c, l, r).0.windows
    requires r.client == k ==> Elapsed(r.now, w.start) <= c.window && Elapsed(r.now, v.start) <= c.window
    ensures Counted(c, w, v, Serve(c, l, r).0, ServeForever(c, m, r).0, k, q + if r.client == k then 1 else 0)
  {
    var d := if r.client == k then 1 else 0;
    ServeCounts(c, l, m, r, k);
    CountsAdd(c, w.count, q, d);
    CountsAdd(c, v.count, q, d);
  }

  lemma RunSteps(c: Config, rs: seq<Request>, j: nat)
    requires j < |rs|
    ensures Run(c, rs[..j + 1]) == Serve(c, Run(c, rs[..j]), rs[j]).0
    ensures RunForever(c, rs[..j + 1]) == ServeForever(c, RunForever(c, rs[..j]), rs[j]).0
  {
    assert rs[..j + 1][..j] == rs[..j];
  }

  ghost predicate CountedAt(c: Config, rs: seq<Request>, k: Client, t: nat, w: Window, v: Window, q: nat)
    requires t <= |rs|
  {
    Counted(c, w, v, Run(c, rs[..t]), RunForever(c, rs[..t]), k, q)
  }

  lemma CountedNext(c: Config, rs: seq<Request>, k: Client, t: nat, w: Window, v: Window, q: nat)
    requires t < |rs| && CountedAt(c, rs, k, t, w, v, q) && KnownAt(c, rs, k, t + 1)
    requires rs[t].client == k ==> Elapsed(rs[t].now, w.start) <= c.window && Elapsed(rs[t].now, v.start) <= c.window
    ensures CountedAt(c, rs, k, t + 1, w, v, q + if rs[t].client == k then 1 else 0)
  {
    RunSteps(c, rs, t);
    CountedStep(c, w, v, Run(c, rs[..t]), RunForever(c, rs[..t]), rs[t], k, q);
  }

  lemma {:induction false} BothCount(c: Config, rs: seq<Request>, k: Client, i: nat, j: nat, w: Window, v: Window)
    requires i <= j <= |rs| && StaysKnown(c, rs, k, i, j)
    requires Lasts(c, rs, k, i, j, w.start) && Lasts(c, rs, k, i, j, v.start)
    requires CountedAt(c, rs, k, i, w, v, 0)
    ensures CountedAt(c, rs, k, j, w, v, Requests(rs, k, i, j))
    decreases j
  {
    if i < j {
      BothCount(c, rs, k, i, j - 1, w, v);
      assert KnownAt(c, rs, k, j);
      CountedNext(c, rs, k, j - 1, w, v, Requests(rs, k, i, j - 1));
    }
  }

  /** Once a client has window w in the limiter and v in the reference, however they parted, and
      while both last: after q more requests the decision is the reference's if and only if both counts still
      leave room or neither does. */
  lemma PartedExactly(c: Config, rs: seq<Request>, i: nat, j: nat, w: Window, v: Window)
    requires i <= j < |rs| && StaysKnown(c, rs, rs[j].client, i, j)
    requires CountedAt(c, rs, rs[j].client, i, w, v, 0)
    requires Lasts(c, rs, rs[j].client, i, j + 1, w.start) && Lasts(c, rs, rs[j].client, i, j + 1, v.start)
    ensures var q := Requests(rs, rs[j].client, i, j);
            Decide(c, rs, j) == DecideForever(c, rs, j) <==> (w.count + q < c.limit <==> v.count + q < c.limit)
  {
    BothCount(c, rs, rs[j].client, i, j, w, v);
    AgreesExactly(c, rs, j);
  }

  /** A client readmitted while the reference's window v, with fewer requests than the limit, had
      not passed: after q more requests, while both windows last, the decision is the reference's
      if and only if both still have room, or the limiter's new window is full as well. */
  lemma ReadmittedExactly(c: Config, rs: seq<Request>, i: nat, j: nat, v: Window)
    requires i < j < |rs| && rs[i].client == rs[j].client && Missed(c, rs, i) && !Starved(c, rs, i)
    requires RunForever(c, rs[..i])[rs[i].client] == v && v.count < c.limit
    requires StaysKnown(c, rs, rs[j].client, i + 1, j)
    requires Lasts(c, rs, rs[j].client, i, j + 1, rs[i].now) && Lasts(c, rs, rs[j].client, i, j + 1, v.start)
    ensures var q := Requests(rs, rs[j].client, i + 1, j);
            Decide(c, rs, j) == DecideForever(c, rs, j) <==> v.count + 1 + q < c.limit || 1 + q >= c.limit
  {
    RunSteps(c, rs, i);
    ExpireForgetsStale(c, Run(c, rs[..i]), rs[i].now, rs[i].client);
    PartedExactly(c, rs, i + 1, j, Window(rs[i].now, 1), Window(v.start, v.count + 1));
  }

  // ----- Exactly which clients a request drops -----

  ghost predicate NoRepeats(s: seq<Client>) {
    forall p, q :: 0 <= p < q < |s| ==> s[p] != s[q]
  }

  /** The queue holds the known clients, each once. */
  ghost predicate Known(l: Limiter) {
    && (forall p :: 0 <= p < |l.order| ==> l.order[p] in l.windows)
    && NoRepeats(l.order)
    && (forall k {:trigger k in l.order} :: k in l.windows ==> k in l.order)
  }

  predicate Stale(c: Config, l: Limiter, now: nat, p: nat)
    requires p < |l.order|
  {
    l.order[p] in l.windows && Elapsed(now, l.windows[l.order[p]].start) > c.window
  }

  /** The unsigned difference takes a window for passed if it lies more than a window back, or
      started later than now by less than what the counter's range leaves. */
  lemma ElapsedExactly(now: nat, start: nat, window: nat)
    requires now < MSEC && start < MSEC
    ensures Elapsed(now, start) > window <==> now > start + window || (now < start && start - now < MSEC - window)
  {
    if now < start {
      assert (now - start) % MSEC == now - start + MSEC;
    }
  }

  lemma DropKeepsKnown(l: Limiter)
    requires Known(l) && l.order != []
    ensures Known(DropOldest(l))
  {
    var d := DropOldest(l);
    forall k | k in d.windows ensures k in d.order {
      assert k in l.order;
    }
  }

  lemma {:induction false} ExpireKeepsKnown(c: Config, l: Limiter, now: nat)
    requires Known(l)
    ensures Known(Expire(c, l, now))
    decreases |l.order|
  {
    if l.order != [] && Elapsed(now, l.windows[l.order[0]].start) > c.window {
      DropKeepsKnown(l);
      ExpireKeepsKnown(c, DropOldest(l), now);
    }
  }

  /** Expiry drops the longest passed stretch at the head of the queue; the head that is left is
      live. */
  lemma {:induction false} ExpireDropsPrefix(c: Config, l: Limiter, now: nat) returns (n: nat)
    requires Known(l)
    ensures n <= |l.order| && Expire(c, l, now).order == l.order[n..]
    ensures forall q :: 0 <= q < n ==> Stale(c, l, now, q) && l.order[q] !in Expire(c, l, now).windows
    ensures forall q :: n <= q < |l.order| ==> l.order[q] in Expire(c, l, now).windows
    ensures n < |l.order| ==> !Stale(c, l, now, n)
    decreases |l.order|
  {
    if l.order == [] || Elapsed(now, l.windows[l.order[0]].start) <= c.window {
      return 0;
    }
    var d := DropOldest(l);
    DropKeepsKnown(l);
    n := ExpireDropsPrefix(c, d, now);
    ExpireForgetsStale(c, d, now, l.order[0]);
    forall q | 0 <= q < n + 1
      ensures Stale(c, l, now, q) && l.order[q] !in Expire(c, l, now).windows
    {
      if q > 0 {
        assert d.order[q - 1] == l.order[q] && Stale(c, d, now, q - 1);
      }
    }
    forall q | n + 1 <= q < |l.order| ensures l.order[q] in Expire(c, l, now).windows {
      assert d.order[q - 1] == l.order[q];
    }
    n := n + 1;
  }

  /** A request drops the client at place p of the queue: it comes from an unknown client and
      either everyone up to p has passed, or everyone before p has and the first allocation fails. */
  ghost predicate Drops(c: Config, l: Limiter, r: Request, p: nat)
    requires p < |l.order|
  {
    && r.client !in l.windows
    && (forall q :: 0 <= q < p ==> Stale(c, l, r.now, q))
    && (Stale(c, l, r.now, p) || !r.first)
  }

  lemma ServeDrops(c: Config, l: Limiter, r: Request, p: nat)
    requires Known(l) && p < |l.order|
    ensures l.order[p] !in Serve(c, l, r).0.windows <==> Drops(c, l, r, p)
  {
    var k := l.order[p];
    var n := ExpireDropsPrefix(c, l, r.now);
    assert k in l.windows;
    if p > n {
      assert !Stale(c, l, r.now, n);
      assert l.order[p] != l.order[n];
    }
  }

  /** In every run, a request drops a known client if and only if the queue and the request say so. */
  lemma DropsExactly(c: Config, rs: seq<Request>, t: nat, p: nat)
    requires t < |rs| && p < |Run(c, rs[..t]).order|
    ensures var l := Run(c, rs[..t]);
            && l.order[p] in l.windows
            && (l.order[p] !in Run(c, rs[..t + 1]).windows <==> Drops(c, l, rs[t], p))
  {
    RunIsKnown(c, rs[..t]);
    assert rs[..t + 1][..t] == rs[..t];
    ServeDrops(c, Run(c, rs[..t]), rs[t], p);
  }

  /** From the queue and the request that drops a client to the decision on the client's next
      request: it is the reference's if and only if an entry can be had and the reference's window
      of the client at the drop leaves room. */
  lemma DropDecides(c: Config, rs: seq<Request>, e: nat, p: nat, i: nat)
    requires e < i < |rs| && p < |Run(c, rs[..e]).order| && Run(c, rs[..e]).order[p] == rs[i].client
    requires Drops(c, Run(c, rs[..e]), rs[e], p) && forall j :: e < j < i ==> rs[j].client != rs[i].client
    ensures var k, m := rs[i].client, RunForever(c, rs[..e]);
            && k in m
            && (Decide(c, rs, i) == DecideForever(c, rs, i) <==> !Starved(c, rs, i) && Open(c, m[k], rs[i].now))
  {
    DropsExactly(c, rs, e, p);
    DroppedExactly(c, rs, e, i);
  }

  lemma {:induction false} RunIsKnown(c: Config, rs: seq<Request>)
    ensures Known(Run(c, rs))
  {
    if rs != [] {
      var l, r := Run(c, rs[..|rs| - 1]), rs[|rs| - 1];
      RunIsKnown(c, rs[..|rs| - 1]);
      ServeKeepsKnown(c, l, r);
    }
  }

  lemma ServeKeepsKnown(c: Config, l: Limiter, r: Request)
    requires Known(l)
    ensures Known(Serve(c, l, r).0)
  {
    if r.client in l.windows {
      TouchKeepsKnown(l, r.client, Count(c, l.windows[r.client], r.now).0);
    } else {
      var e := Expire(c, l, r.now);
      ExpireKeepsKnown(c, l, r.now);
      ExpireForgetsStale(c, l, r.now, r.client);
      if r.first {
        AdmitKeepsKnown(e, r.client, r.now);
      } else if e.order != [] {
        DropKeepsKnown(e);
        AdmitKeepsKnown(DropOldest(e), r.client, r.now);
      }
    }
  }

  lemma AdmitKeepsKnown(l: Limiter, k: Client, now: nat)
    requires Known(l) && k !in l.windows
    ensures Known(Admit(l, k, now))
  {
    KnownAtTail(l, k, Window(now, 1));
  }

  lemma {:induction false} WithoutIsRest(s: seq<Client>, k: Client)
    requires NoRepeats(s)
    ensures NoRepeats(Without(s, k))
    ensures forall x :: x in Without(s, k) <==> x in s && x != k
  {
    if s != [] {
      WithoutIsRest(s[1..], k);
      var rest := Without(s[1..], k);
      assert Without(s, k) == if s[0] == k then rest else [s[0]] + rest;
      forall x ensures x in s <==> x == s[0] || x in s[1..] {
        assert s == [s[0]] + s[1..];
      }
      assert s[0] !in s[1..];
    }
  }

  lemma TouchKeepsKnown(l: Limiter, k: Client, w: Window)
    requires Known(l) && k in l.windows
    ensures Known(Touched(l, k, w))
  {
    WithoutIsRest(l.order, k);
    forall x ensures x in l.windows - {k} <==> x in Without(l.order, k) {
      if x in l.windows {
        assert x in l.order;
      }
    }
    KnownAtTail(Limiter(l.windows - {k}, Without(l.order, k)), k, w);
    assert (l.windows - {k})[k := w] == l.windows[k := w];
  }

  lemma KnownAtTail(l: Limiter, k: Client, w: Window)
    requires (forall x :: x in l.windows <==> x in l.order) && k !in l.windows
    requires NoRepeats(l.order)
    ensures Known(Limiter(l.windows[k := w], l.order + [k]))
  {
    var t := Limiter(l.windows[k := w], l.order + [k]);
    assert forall p :: 0 <= p < |l.order| ==> l.order[p] in l.order;
    assert t.order[|l.order|] == k;
  }

  // ----- A clock that does not go back -----

  /** A request evicts a client by force: the first allocation fails and the client is at the head
      after expiry. */
  predicate EvictsFrom(c: Config, l: Limiter, r: Request, k: Client) {
    var e := Expire(c, l, r.now);
    r.client !in l.windows && !r.first && e.order != [] && e.order[0] == k && k in e.windows
  }

  predicate Evicts(c: Config, rs: seq<Request>, t: nat, k: Client)
    requires t < |rs|
  {
    EvictsFrom(c, Run(c, rs[..t]), rs[t], k)
  }

  /** The window that a client last had, unless it lost it to a forced eviction. */
  function Held(c: Config, rs: seq<Request>, k: Client, j: nat): Option<Window>
    requires j <= |rs|
  {
    if j == 0 then None else
    var l := Run(c, rs[..j]);
    if k in l.windows then Some(l.windows[k])
    else if Evicts(c, rs, j - 1, k) then None
    else Held(c, rs, k, j - 1)
  }

  predicate Accepted(c: Config, rs: seq<Request>, k: Client, t: nat)
    requires t < |rs|
  {
    rs[t].client == k && Decide(c, rs, t) == Accept
  }

  /** The window after an accepted request. */
  function Renewed(c: Config, w: Option<Window>, now: nat): Window {
    if w.None? || now - w.value.start > c.window then Window(now, 1) else Window(w.value.start, w.value.count + 1)
  }

  function HeldNext(c: Config, w: Option<Window>, now: nat, accepted: bool, evicted: bool): Option<Window> {
    if accepted then Some(Renewed(c, w, now)) else if evicted then None else w
  }

  predicate MayAccept(c: Config, w: Option<Window>, now: nat) {
    w.None? || now - w.value.start > c.window || w.value.count < c.limit
  }

  /** A held window is in its bounds, and one that the limiter no longer has is past. */
  ghost predicate HeldOk(c: Config, w: Option<Window>, known: bool, now: nat) {
    w.Some? ==> 1 <= w.value.count <= c.limit && w.value.start <= now && (!known ==> now - w.value.start > c.window)
  }

  lemma ServeHeld(c: Config, l: Limiter, r: Request, k: Client, w: Option<Window>)
    requires r.now < MSEC && c.limit > 0
    requires HeldOk(c, w, k in l.windows, r.now) && (k in l.windows ==> w == Some(l.windows[k]))
    ensures var (l', d) := Serve(c, l, r);
            var accepted, evicted := r.client == k && d == Accept, EvictsFrom(c, l, r, k);
            var w' := HeldNext(c, w, r.now, accepted, evicted);
            && HeldOk(c, w', k in l'.windows, r.now)
            && (k in l'.windows ==> w' == Some(l'.windows[k]) && !evicted)
            && (accepted ==> k in l'.windows && MayAccept(c, w, r.now))
  {
    ExpireForgetsStale(c, l, r.now, k);
  }

  lemma HeldStep(c: Config, rs: seq<Request>, k: Client, j: nat)
    requires j < |rs| && rs[j].now < MSEC && c.limit > 0
    requires HeldOk(c, Held(c, rs, k, j), k in Run(c, rs[..j]).windows, rs[j].now)
    ensures var w, w' := Held(c, rs, k, j), Held(c, rs, k, j + 1);
            && HeldOk(c, w', k in Run(c, rs[..j + 1]).windows, rs[j].now)
            && w' == HeldNext(c, w, rs[j].now, Accepted(c, rs, k, j), Evicts(c, rs, j, k))
            && (Accepted(c, rs, k, j) ==> !Evicts(c, rs, j, k) && MayAccept(c, w, rs[j].now))
  {
    assert rs[..j + 1][..j] == rs[..j];
    ServeHeld(c, Run(c, rs[..j]), rs[j], k, Held(c, rs, k, j));
  }

  lemma {:induction false} HeldBounds(c: Config, rs: seq<Request>, k: Client, j: nat, now: nat)
    requires j <= |rs| && Forward(rs) && c.limit > 0 && forall t :: 0 <= t < j ==> rs[t].now <= now
    ensures HeldOk(c, Held(c, rs, k, j), k in Run(c, rs[..j]).windows, now)
  {
    if j > 0 {
      HeldBounds(c, rs, k, j - 1, rs[j - 1].now);
      HeldStep(c, rs, k, j - 1);
    }
  }

  // ----- How much a client can get -----

  /** The accepts of a client among requests i to j - 1. */
  function Accepts(c: Config, rs: seq<Request>, k: Client, i: nat, j: nat): nat
    requires i <= j <= |rs|
  {
    if i == j then 0 else Accepts(c, rs, k, i, j - 1) + (if Accepted(c, rs, k, j - 1) then 1 else 0)
  }

  /** The forced evictions of a client by requests i to j - 1. */
  function Evictions(c: Config, rs: seq<Request>, k: Client, i: nat, j: nat): nat
    requires i <= j <= |rs|
  {
    if i == j then 0 else Evictions(c, rs, k, i, j - 1) + (if Evicts(c, rs, j - 1, k) then 1 else 0)
  }

  /** The accepts of a client, among the first j requests, that fall in a window started at s. */
  function AcceptsInEpoch(c: Config, rs: seq<Request>, k: Client, s: nat, j: nat): nat
    requires j <= |rs|
  {
    if j == 0 then 0 else
    var last := if Accepted(c, rs, k, j - 1) && InEpoch(Held(c, rs, k, j), s) then 1 else 0;
    AcceptsInEpoch(c, rs, k, s, j - 1) + last
  }

  predicate InEpoch(w: Option<Window>, s: nat) {
    w.Some? && w.value.start == s
  }

  /** The limit, once for a window and once more for each forced eviction. */
  function Room(c: Config, rs: seq<Request>, k: Client, i: nat, j: nat): nat
    requires i <= j <= |rs|
  {
    if i == j then c.limit else Room(c, rs, k, i, j - 1) + (if Evicts(c, rs, j - 1, k) then c.limit else 0)
  }

  lemma {:induction false} RoomIsProduct(c: Config, rs: seq<Request>, k: Client, i: nat, j: nat)
    requires i <= j <= |rs|
    ensures Room(c, rs, k, i, j) == (1 + Evictions(c, rs, k, i, j)) * c.limit
  {
    if i < j {
      RoomIsProduct(c, rs, k, i, j - 1);
      OneMore(Evictions(c, rs, k, i, j - 1), c.limit);
    }
  }

  lemma OneMore(n: nat, limit: nat)
    ensures (1 + (n + 1)) * limit == (1 + n) * limit + limit
  {
  }

  ghost predicate EpochCount(c: Config, w: Option<Window>, s: nat, n: nat, room: nat, last: nat) {
    && n <= room
    && (n > 0 ==> s <= last)
    && (w.None? ==> n + c.limit <= room)
    && (w.Some? && w.value.start < s ==> n == 0)
    && (InEpoch(w, s) ==> n + c.limit <= room + w.value.count)
  }

  lemma EpochCountStep(c: Config, w: Option<Window>, s: nat, n: nat, room: nat, last: nat, now: nat,
                       accepted: bool, evicted: bool)
    requires EpochCount(c, w, s, n, room, last) && last <= now && 0 < c.limit <= room && !(accepted && evicted)
    requires w.Some? ==> w.value.start <= now && w.value.count <= c.limit
    requires accepted ==> MayAccept(c, w, now)
    ensures var w' := HeldNext(c, w, now, accepted, evicted);
            EpochCount(c, w', s, n + (if accepted && InEpoch(w', s) then 1 else 0),
                       room + (if evicted then c.limit else 0), now)
  {
  }

  lemma {:induction false} EpochCounts(c: Config, rs: seq<Request>, k: Client, s: nat, j: nat)
    requires j <= |rs| && Forward(rs) && c.limit > 0
    ensures Room(c, rs, k, 0, j) >= c.limit
    ensures EpochCount(c, Held(c, rs, k, j), s, AcceptsInEpoch(c, rs, k, s, j), Room(c, rs, k, 0, j),
                       if j > 0 then rs[j - 1].now else 0)
  {
    if j > 0 {
      EpochCounts(c, rs, k, s, j - 1);
      HeldBounds(c, rs, k, j - 1, rs[j - 1].now);
      HeldStep(c, rs, k, j - 1);
      var last := if j > 1 then rs[j - 2].now else 0;
      EpochCountStep(c, Held(c, rs, k, j - 1), s, AcceptsInEpoch(c, rs, k, s, j - 1), Room(c, rs, k, 0, j - 1), last,
                     rs[j - 1].now, Accepted(c, rs, k, j - 1), Evicts(c, rs, j - 1, k));
    }
  }

  /** In every run with a clock that does not go back, whatever the allocations do, the windows of
      a client that start at one time yield at most the limit of accepts, and once more for each
      forced eviction of the client. */
  lemma EpochBound(c: Config, rs: seq<Request>, k: Client, s: nat, j: nat)
    requires j <= |rs| && Forward(rs) && c.limit > 0
    ensures AcceptsInEpoch(c, rs, k, s, j) <= (1 + Evictions(c, rs, k, 0, j)) * c.limit
  {
    EpochCounts(c, rs, k, s, j);
    RoomIsProduct(c, rs, k, 0, j);
  }

  /** From a first request at time `from`, when the window was w, to a last one at time `last`:
      the client stayed in one window; or it started one since; or it was evicted and has none;
      or more than a window of time went by. */
  ghost predicate SpanCase(c: Config, w: Option<Window>, w': Option<Window>, n: nat, room: nat, from: nat, last: nat) {
    || (w.None? && w'.None? && n == 0)
    || (w.Some? && w'.Some? && w.value.start == w'.value.start && n == w'.value.count - w.value.count)
    || (w'.Some? && w'.value.start >= from && n <= room + w'.value.count)
    || (w'.None? && n <= room)
    || last > from + c.window
  }

  lemma SpanCaseStep(c: Config, w: Option<Window>, w': Option<Window>, n: nat, room: nat, from: nat, last: nat,
                     now: nat, accepted: bool, evicted: bool)
    requires SpanCase(c, w, w', n, room, from, last) && from <= now && last <= now && 0 < c.limit <= room
    requires !(accepted && evicted) && (w'.Some? ==> w'.value.start <= now && w'.value.count <= c.limit)
    ensures SpanCase(c, w, HeldNext(c, w', now, accepted, evicted), n + (if accepted then 1 else 0),
                     room + (if evicted then c.limit else 0), from, now)
  {
  }

  lemma {:induction false} SpanCases(c: Config, rs: seq<Request>, k: Client, i: nat, j: nat)
    requires i < j <= |rs| && Forward(rs) && c.limit > 0
    ensures Room(c, rs, k, i, j) >= c.limit
    ensures SpanCase(c, Held(c, rs, k, i), Held(c, rs, k, j), Accepts(c, rs, k, i, j), Room(c, rs, k, i, j),
                     rs[i].now, rs[j - 1].now)
  {
    if i < j - 1 {
      SpanCases(c, rs, k, i, j - 1);
    }
    HeldBounds(c, rs, k, j - 1, rs[j - 1].now);
    HeldStep(c, rs, k, j - 1);
    var last := if i < j - 1 then rs[j - 2].now else rs[i].now;
    SpanCaseStep(c, Held(c, rs, k, i), Held(c, rs, k, j - 1), Accepts(c, rs, k, i, j - 1), Room(c, rs, k, i, j - 1),
                 rs[i].now, last, rs[j - 1].now, Accepted(c, rs, k, j - 1), Evicts(c, rs, j - 1, k));
  }

  /** In any span of time no longer than the window, closed at both ends, a client gets at most
      twice the limit, and once more for each time it is evicted by force in the span. */
  lemma SpanBound(c: Config, rs: seq<Request>, k: Client, i: nat, j: nat)
    requires i < j <= |rs| && Forward(rs) && c.limit > 0
    requires rs[j - 1].now - rs[i].now <= c.window
    ensures Accepts(c, rs, k, i, j) <= (2 + Evictions(c, rs, k, i, j)) * c.limit
  {
    SpanCases(c, rs, k, i, j);
    HeldBounds(c, rs, k, j, rs[j - 1].now);
    RoomIsProduct(c, rs, k, i, j);
    assert Accepts(c, rs, k, i, j) <= Room(c, rs, k, i, j) + c.limit;
  }

  // ----- When nobody is evicted -----

  /** The limiter has the reference's window of k, or that window has passed. */
  ghost predicate Remembers(c: Config, l: Limiter, m: map<Client, Window>, k: Client, now: nat) {
    && AgreeOn(l, m, k)
    && (k in m ==> m[k].start <= now && (k !in l.windows ==> now - m[k].start > c.window))
  }

  lemma ServeRemembers(c: Config, l: Limiter, m: map<Client, Window>, r: Request, k: Client)
    requires r.now < MSEC && Remembers(c, l, m, k, r.now) && !EvictsFrom(c, l, r, k)
    requires r.client == k ==> Serve(c, l, r).1 != Unavailable
    ensures Remembers(c, Serve(c, l, r).0, ServeForever(c, m, r).0, k, r.now)
  {
    ExpireForgetsStale(c, l, r.now, k);
  }

  lemma {:induction false} RunRemembers(c: Config, rs: seq<Request>, i: nat, k: Client, now: nat)
    requires i <= |rs| && Forward(rs) && forall t :: 0 <= t < i ==> rs[t].now <= now
    requires forall t :: 0 <= t < i ==> !Evicts(c, rs, t, k) && (rs[t].client == k ==> !Starved(c, rs, t))
    ensures Remembers(c, Run(c, rs[..i]), RunForever(c, rs[..i]), k, now)
  {
    if i > 0 {
      RunRemembers(c, rs, i - 1, k, rs[i - 1].now);
      assert rs[..i][..i - 1] == rs[..i - 1] && !Evicts(c, rs, i - 1, k);
      ServeRemembers(c, Run(c, rs[..i - 1]), RunForever(c, rs[..i - 1]), rs[i - 1], k);
    }
  }

  /** With a clock that does not go back, a client that was neither evicted by force nor refused
      an entry gets the reference's decision if and only if an entry can be had for it now,
      although expiry sweeps from the head of a queue that is not sorted by window start. */
  lemma AgreesUnlessEvicted(c: Config, rs: seq<Request>, i: nat)
    requires i < |rs| && Forward(rs)
    requires forall t :: 0 <= t < i ==>
               !Evicts(c, rs, t, rs[i].client) && (rs[t].client == rs[i].client ==> !Starved(c, rs, t))
    ensures Decide(c, rs, i) == DecideForever(c, rs, i) <==> !Starved(c, rs, i)
  {
    RunRemembers(c, rs, i, rs[i].client, rs[i].now);
  }

  /** With no failed allocation every decision is the one that a limiter which never forgets would
      take. */
  lemma ForgettingIsInvisible(c: Config, rs: seq<Request>, i: nat)
    requires i < |rs| && Forward(rs) && AllAllocated(rs)
    ensures Decide(c, rs, i) == DecideForever(c, rs, i)
  {
    AgreesUnlessEvicted(c, rs, i);
  }

  // ----- Why the hypotheses are needed -----

  lemma ThreeRequests(c: Config, r0: Request, r1: Request, r2: Request)
    ensures var rs := [r0, r1, r2];
            && Run(c, rs[..2]) == Serve(c, Serve(c, Limiter(map[], []), r0).0, r1).0
            && RunForever(c, rs[..2]) == ServeForever(c, ServeForever(c, map[], r0).0, r1).0
  {
    var rs := [r0, r1, r2];
    assert rs[..2] == [r0, r1] && [r0, r1][..1] == [r0] && [r0][..0] == [];
    assert Run(c, [r0]) == Serve(c, Run(c, []), r0).0;
    assert RunForever(c, [r0]) == ServeForever(c, RunForever(c, []), r0).0;
  }

  /** A failed allocation evicts a client inside its window, which then starts afresh. */
  lemma EvictionIsVisible(a: Client, b: Client) returns (c: Config, rs: seq<Request>)
    requires a != b
    ensures |rs| == 3 && Forward(rs) && !AllAllocated(rs)
    ensures Decide(c, rs, 2) == Accept && DecideForever(c, rs, 2) == TooMany
  {
    c := Config(1, 10);
    var r0, r1, r2 := Request(a, 0, true, true), Request(b, 1, false, true), Request(a, 2, true, true);
    rs := [r0, r1, r2];
    assert !rs[1].first;
    ThreeRequests(c, r0, r1, r2);
    var l, m := Serve(c, Limiter(map[], []), r0).0, ServeForever(c, map[], r0).0;
    assert l == Limiter(map[a := Window(0, 1)], [a]) && Expire(c, l, 1) == l;
    assert a !in Serve(c, l, r1).0.windows;
    assert ServeForever(c, m, r1).0[a] == Window(0, 1);
  }

  /** A clock that steps back makes the unsigned difference huge and expires a live window. */
  lemma BackwardClockIsVisible(a: Client, b: Client) returns (c: Config, rs: seq<Request>)
    requires a != b
    ensures |rs| == 3 && AllAllocated(rs) && !Forward(rs)
    ensures Decide(c, rs, 2) == Accept && DecideForever(c, rs, 2) == TooMany
  {
    c := Config(1, 10);
    var r0, r1, r2 := Request(a, 100, true, true), Request(b, 50, true, true), Request(a, 101, true, true);
    rs := [r0, r1, r2];
    assert rs[0].now > rs[1].now;
    ThreeRequests(c, r0, r1, r2);
    var l := Serve(c, Limiter(map[], []), r0).0;
    assert l.order == [a] && DropOldest(l).order == [] && Expire(c, l, 50) == DropOldest(l);
    var l' := Serve(c, l, r1).0;
    assert l'.order == [b] && Expire(c, l', 101) == Expire(c, DropOldest(l'), 101);
  }
}
