/** The shared-memory zone of the rate limiter: entries reached by a search tree ordered by
    (hash, length, bytes) and by a queue ordered by last access.

    Entries are named by their slab address. The balancing of the tree is nginx's own; here it
    is any function that keeps the in-order sequence of a tree. */
module RateZone {
  import opened Bytes
  import KeyOrder
  import opened RateLimit

  datatype Entry = Entry(client: Client, start: nat, count: nat)

  datatype Tree = Leaf | Node(left: Tree, id: nat, right: Tree)

  type Slab = map<nat, Entry>

  function InOrder(t: Tree): seq<nat> {
    if t.Leaf? then [] else InOrder(t.left) + [t.id] + InOrder(t.right)
  }

  // ----- The order of clients -----

  /** What the descent compares: hash, then length, then bytes. */
  function Compare(hash: Client -> nat, a: Client, b: Client): int {
    if hash(a) < hash(b) then -1
    else if hash(a) > hash(b) then 1
    else if |a| != |b| then |a| - |b|
    else if KeyOrder.Less(a, b) then -1
    else if KeyOrder.Less(b, a) then 1
    else 0
  }

  lemma CompareIsOrder(hash: Client -> nat, a: Client, b: Client)
    ensures Compare(hash, a, b) == 0 <==> a == b
    ensures Compare(hash, a, b) < 0 <==> Compare(hash, b, a) > 0
  {
    KeyOrder.LessIsTotal(a, b);
    KeyOrder.LessIsStrict(a, b);
  }

  lemma CompareTransitive(hash: Client -> nat, a: Client, b: Client, c: Client)
    requires Compare(hash, a, b) < 0 && Compare(hash, b, c) < 0
    ensures Compare(hash, a, c) < 0
  {
    if hash(a) == hash(b) == hash(c) && |a| == |b| == |c| {
      KeyOrder.LessIsTransitive(a, b, c);
    }
  }

  // ----- Sequences of entries -----

  ghost predicate Allocated(slab: Slab, s: seq<nat>) {
    forall i :: 0 <= i < |s| ==> s[i] in slab
  }

  /** Strictly ascending clients: a search tree reads like this, and has no client twice. */
  ghost predicate Ascending(hash: Client -> nat, slab: Slab, s: seq<nat>) {
    Allocated(slab, s) &&
    forall i, j :: 0 <= i < j < |s| ==> Compare(hash, slab[s[i]].client, slab[s[j]].client) < 0
  }

  ghost predicate Distinct<T>(s: seq<T>) {
    forall i, j :: 0 <= i < j < |s| ==> s[i] != s[j]
  }

  ghost predicate Lists(s: seq<nat>, slab: Slab) {
    Allocated(slab, s) && forall id {:trigger id in s} :: id in slab ==> id in s
  }

  /** The zone's invariant: the tree is a search tree over exactly the allocated entries, and
      the queue holds each of them once. */
  ghost predicate ZoneOk(hash: Client -> nat, slab: Slab, inOrder: seq<nat>, lru: seq<nat>) {
    && Ascending(hash, slab, inOrder) && Lists(inOrder, slab)
    && Distinct(lru) && Lists(lru, slab)
  }

  ghost predicate DistinctClients(slab: Slab) {
    forall a, b :: a in slab && b in slab && slab[a].client == slab[b].client ==> a == b
  }

  /** No client has two entries. */
  lemma NoClientTwice(hash: Client -> nat, slab: Slab, inOrder: seq<nat>)
    requires Ascending(hash, slab, inOrder) && Lists(inOrder, slab)
    ensures DistinctClients(slab)
  {
    forall a, b | a in slab && b in slab && slab[a].client == slab[b].client ensures a == b {
      assert a in inOrder && b in inOrder;
      var i :| 0 <= i < |inOrder| && inOrder[i] == a;
      var j :| 0 <= j < |inOrder| && inOrder[j] == b;
      CompareIsOrder(hash, slab[a].client, slab[b].client);
    }
  }

  // ----- What the zone stands for -----

  /** The queue names the clients in order, and each client's window is its entry's. */
  ghost predicate Represents(slab: Slab, lru: seq<nat>, l: Limiter) {
    && Named(slab, lru, l.order)
    && (forall a :: a in slab ==> slab[a].client in l.windows && l.windows[slab[a].client] == WindowOf(slab[a]))
    && (forall k {:trigger k in l.order} :: k in l.windows ==> k in l.order)
  }

  ghost predicate Named(slab: Slab, s: seq<nat>, names: seq<Client>) {
    |names| == |s| && forall i :: 0 <= i < |s| ==> s[i] in slab && names[i] == slab[s[i]].client
  }

  function WindowOf(e: Entry): Window {
    Window(e.start, e.count)
  }

  // ----- Removing from a sequence -----

  lemma {:induction false} WithoutAt<T>(s: seq<T>, i: nat)
    requires Distinct(s) && i < |s|
    ensures Without(s, s[i]) == s[..i] + s[i + 1..]
  {
    if i == 0 {
      WithoutAbsent(s[1..], s[0]);
    } else {
      assert s[1..][i - 1] == s[i];
      WithoutAt(s[1..], i - 1);
      assert [s[0]] + (s[1..][..i - 1] + s[1..][i..]) == s[..i] + s[i + 1..];
    }
  }

  lemma {:induction false} WithoutAbsent<T>(s: seq<T>, x: T)
    requires x !in s
    ensures Without(s, x) == s
  {
    if s != [] {
      WithoutAbsent(s[1..], x);
    }
  }

  lemma AscendingIsDistinct(hash: Client -> nat, slab: Slab, s: seq<nat>)
    requires Ascending(hash, slab, s)
    ensures Distinct(s)
  {
    forall i, j | 0 <= i < j < |s| ensures s[i] != s[j] {
      CompareIsOrder(hash, slab[s[i]].client, slab[s[j]].client);
    }
  }

  /** A sequence with its i-th element left out. */
  ghost function Skip<T>(s: seq<T>, i: nat): (r: seq<T>)
    requires i < |s|
    ensures |r| == |s| - 1
    ensures forall p :: 0 <= p < |r| ==> r[p] == s[if p < i then p else p + 1]
  {
    s[..i] + s[i + 1..]
  }

  lemma SkipAscending(hash: Client -> nat, slab: Slab, s: seq<nat>, i: nat)
    requires Ascending(hash, slab, s) && i < |s|
    ensures Ascending(hash, slab - {s[i]}, Skip(s, i))
  {
    AscendingIsDistinct(hash, slab, s);
    var r, slab' := Skip(s, i), slab - {s[i]};
    forall p | 0 <= p < |r| ensures r[p] in slab' && slab'[r[p]] == slab[r[p]] {
      var p' := if p < i then p else p + 1;
      assert r[p] == s[p'];
    }
    forall p, q | 0 <= p < q < |r| ensures Compare(hash, slab'[r[p]].client, slab'[r[q]].client) < 0 {
      var p', q' := if p < i then p else p + 1, if q < i then q else q + 1;
      assert r[p] == s[p'] && r[q] == s[q'];
    }
  }

  lemma SkipLists(s: seq<nat>, slab: Slab, i: nat)
    requires Distinct(s) && Lists(s, slab) && i < |s|
    ensures Distinct(Skip(s, i)) && Lists(Skip(s, i), slab - {s[i]})
  {
    var r, slab' := Skip(s, i), slab - {s[i]};
    forall a | a in slab' ensures a in r {
      assert a in s;
      var j :| 0 <= j < |s| && s[j] == a;
      assert r[if j < i then j else j - 1] == a;
    }
    forall p | 0 <= p < |r| ensures r[p] in slab' {
      assert r[p] == s[if p < i then p else p + 1];
    }
    forall p, q | 0 <= p < q < |r| ensures r[p] != r[q] {
      assert r[p] == s[if p < i then p else p + 1] && r[q] == s[if q < i then q else q + 1];
    }
  }

  lemma RemovalKeepsZone(hash: Client -> nat, slab: Slab, inOrder: seq<nat>, lru: seq<nat>)
    requires ZoneOk(hash, slab, inOrder, lru) && lru != []
    ensures ZoneOk(hash, slab - {lru[0]}, Without(inOrder, lru[0]), lru[1..])
  {
    AscendingIsDistinct(hash, slab, inOrder);
    assert lru[0] in slab && lru[0] in inOrder;
    var i :| 0 <= i < |inOrder| && inOrder[i] == lru[0];
    WithoutAt(inOrder, i);
    SkipAscending(hash, slab, inOrder, i);
    SkipLists(inOrder, slab, i);
    SkipLists(lru, slab, 0);
    assert Skip(lru, 0) == lru[1..];
  }

  // ----- Inserting -----

  /** The insertion descent: left when the new client comes before, right otherwise, linked at
      the first empty place. */
  function Link(hash: Client -> nat, slab: Slab, t: Tree, id: nat, client: Client): Tree
    requires forall a :: a in InOrder(t) ==> a in slab
  {
    if t.Leaf? then Node(Leaf, id, Leaf)
    else
      assert t.id in InOrder(t);
      if Compare(hash, client, slab[t.id].client) < 0 then Node(Link(hash, slab, t.left, id, client), t.id, t.right)
      else Node(t.left, t.id, Link(hash, slab, t.right, id, client))
  }

  /** `p` is where a client belongs in an ascending sequence. */
  ghost predicate Belongs(hash: Client -> nat, slab: Slab, s: seq<nat>, p: nat, client: Client)
    requires Allocated(slab, s) && p <= |s|
  {
    && (forall i :: 0 <= i < p ==> Compare(hash, slab[s[i]].client, client) < 0)
    && (forall i :: p <= i < |s| ==> Compare(hash, client, slab[s[i]].client) < 0)
  }

  lemma AscendingPart(hash: Client -> nat, slab: Slab, s: seq<nat>, i: nat, j: nat)
    requires Ascending(hash, slab, s) && i <= j <= |s|
    ensures Ascending(hash, slab, s[i..j])
  {
  }

  lemma AscendingSubtrees(hash: Client -> nat, slab: Slab, t: Tree)
    requires t.Node? && Ascending(hash, slab, InOrder(t))
    ensures t.id in slab && Ascending(hash, slab, InOrder(t.left)) && Ascending(hash, slab, InOrder(t.right))
    ensures forall i :: 0 <= i < |InOrder(t.left)| ==>
              Compare(hash, slab[InOrder(t.left)[i]].client, slab[t.id].client) < 0
    ensures forall i :: 0 <= i < |InOrder(t.right)| ==>
              Compare(hash, slab[t.id].client, slab[InOrder(t.right)[i]].client) < 0
  {
    var s, n := InOrder(t), |InOrder(t.left)|;
    assert s[n] == t.id;
    assert s[0..n] == InOrder(t.left) && s[n + 1..|s|] == InOrder(t.right);
    AscendingPart(hash, slab, s, 0, n);
    AscendingPart(hash, slab, s, n + 1, |s|);
    forall i | 0 <= i < n ensures Compare(hash, slab[InOrder(t.left)[i]].client, slab[t.id].client) < 0 {
      assert s[i] == InOrder(t.left)[i];
    }
    forall i | 0 <= i < |InOrder(t.right)|
      ensures Compare(hash, slab[t.id].client, slab[InOrder(t.right)[i]].client) < 0
    {
      assert s[n + 1 + i] == InOrder(t.right)[i];
    }
  }

  /** The descent links a client that is not in the tree exactly where it belongs in order. */
  lemma {:induction false} LinkPlaces(hash: Client -> nat, slab: Slab, t: Tree, id: nat, client: Client)
    returns (p: nat)
    requires Ascending(hash, slab, InOrder(t))
    requires forall a :: a in slab ==> slab[a].client != client
    ensures p <= |InOrder(t)| && Belongs(hash, slab, InOrder(t), p, client)
    ensures InOrder(Link(hash, slab, t, id, client)) == InOrder(t)[..p] + [id] + InOrder(t)[p..]
  {
    if t.Leaf? {
      return 0;
    }
    AscendingSubtrees(hash, slab, t);
    var l, r, here := InOrder(t.left), InOrder(t.right), slab[t.id].client;
    CompareIsOrder(hash, client, here);
    if Compare(hash, client, here) < 0 {
      p := LinkPlaces(hash, slab, t.left, id, client);
      BelongsLeft(hash, slab, l, t.id, r, p, client);
      SpliceLeft(l, t.id, r, p, id);
    } else {
      var q := LinkPlaces(hash, slab, t.right, id, client);
      p := |l| + 1 + q;
      BelongsRight(hash, slab, l, t.id, r, q, client);
      SpliceRight(l, t.id, r, q, id);
    }
  }

  lemma SpliceLeft(l: seq<nat>, here: nat, r: seq<nat>, p: nat, id: nat)
    requires p <= |l|
    ensures var s := l + [here] + r; (l[..p] + [id] + l[p..]) + [here] + r == s[..p] + [id] + s[p..]
  {
  }

  lemma SpliceRight(l: seq<nat>, here: nat, r: seq<nat>, q: nat, id: nat)
    requires q <= |r|
    ensures var s, p := l + [here] + r, |l| + 1 + q; l + [here] + (r[..q] + [id] + r[q..]) == s[..p] + [id] + s[p..]
  {
  }

  lemma BelongsLeft(hash: Client -> nat, slab: Slab, l: seq<nat>, id: nat, r: seq<nat>, p: nat, client: Client)
    requires Allocated(slab, l) && id in slab && Allocated(slab, r) && p <= |l|
    requires Belongs(hash, slab, l, p, client) && Compare(hash, client, slab[id].client) < 0
    requires forall i :: 0 <= i < |r| ==> Compare(hash, slab[id].client, slab[r[i]].client) < 0
    ensures Belongs(hash, slab, l + [id] + r, p, client)
  {
    forall i | 0 <= i < |r| ensures Compare(hash, client, slab[r[i]].client) < 0 {
      CompareTransitive(hash, client, slab[id].client, slab[r[i]].client);
    }
  }

  lemma BelongsRight(hash: Client -> nat, slab: Slab, l: seq<nat>, id: nat, r: seq<nat>, q: nat, client: Client)
    requires Allocated(slab, l) && id in slab && Allocated(slab, r) && q <= |r|
    requires Belongs(hash, slab, r, q, client) && Compare(hash, slab[id].client, client) < 0
    requires forall i :: 0 <= i < |l| ==> Compare(hash, slab[l[i]].client, slab[id].client) < 0
    ensures Belongs(hash, slab, l + [id] + r, |l| + 1 + q, client)
  {
    forall i | 0 <= i < |l| ensures Compare(hash, slab[l[i]].client, client) < 0 {
      CompareTransitive(hash, slab[l[i]].client, slab[id].client, client);
    }
  }

  lemma InsertAscending(hash: Client -> nat, slab: Slab, s: seq<nat>, p: nat, id: nat, e: Entry)
    requires Ascending(hash, slab, s) && p <= |s| && id !in slab && Belongs(hash, slab, s, p, e.client)
    ensures Ascending(hash, slab[id := e], s[..p] + [id] + s[p..])
  {
    var r, slab' := s[..p] + [id] + s[p..], slab[id := e];
    forall i, j | 0 <= i < j < |r| ensures Compare(hash, slab'[r[i]].client, slab'[r[j]].client) < 0 {
      if i == p {
        assert r[j] == s[j - 1];
      } else if j == p {
        assert r[i] == s[i];
      } else {
        var i', j' := if i < p then i else i - 1, if j < p then j else j - 1;
        assert r[i] == s[i'] && r[j] == s[j'];
      }
    }
  }

  lemma InsertLists(slab: Slab, s: seq<nat>, p: nat, id: nat, e: Entry)
    requires Lists(s, slab) && p <= |s|
    ensures Lists(s[..p] + [id] + s[p..], slab[id := e])
  {
    var r := s[..p] + [id] + s[p..];
    forall a | a in slab[id := e] ensures a in r {
      if a == id {
        assert r[p] == id;
      } else {
        assert a in s;
        var j :| 0 <= j < |s| && s[j] == a;
        assert r[if j < p then j else j + 1] == a;
      }
    }
  }

  lemma InsertionKeepsZone(hash: Client -> nat, slab: Slab, t: Tree, lru: seq<nat>, id: nat, e: Entry)
    requires ZoneOk(hash, slab, InOrder(t), lru) && id !in slab
    requires forall a :: a in slab ==> slab[a].client != e.client
    ensures forall a :: a in InOrder(t) ==> a in slab
    ensures ZoneOk(hash, slab[id := e], InOrder(Link(hash, slab, t, id, e.client)), lru + [id])
  {
    var p := LinkPlaces(hash, slab, t, id, e.client);
    InsertAscending(hash, slab, InOrder(t), p, id, e);
    InsertLists(slab, InOrder(t), p, id, e);
    InsertLists(slab, lru, |lru|, id, e);
    assert lru[..|lru|] + [id] + lru[|lru|..] == lru + [id];
  }

  // ----- Touching -----

  lemma TouchKeepsZone(hash: Client -> nat, slab: Slab, inOrder: seq<nat>, lru: seq<nat>, id: nat, e: Entry)
    requires ZoneOk(hash, slab, inOrder, lru) && id in slab && e.client == slab[id].client
    ensures ZoneOk(hash, slab[id := e], inOrder, Without(lru, id) + [id])
  {
    WithoutLists(slab, lru, id, e);
    var slab' := slab[id := e];
    assert forall a :: a in slab ==> slab'[a].client == slab[a].client;
  }

  lemma {:induction false} NamesWithout(slab: Slab, s: seq<nat>, names: seq<Client>, id: nat)
    requires Named(slab, s, names) && id in slab && DistinctClients(slab)
    ensures Named(slab, Without(s, id), Without(names, slab[id].client))
  {
    if s != [] {
      NamesWithout(slab, s[1..], names[1..], id);
      assert s[0] == id <==> names[0] == slab[id].client;
    }
  }

  lemma WithoutLists(slab: Slab, lru: seq<nat>, id: nat, e: Entry)
    requires Distinct(lru) && Lists(lru, slab) && id in slab
    ensures Distinct(Without(lru, id) + [id]) && Lists(Without(lru, id) + [id], slab[id := e])
  {
    assert id in lru;
    var i :| 0 <= i < |lru| && lru[i] == id;
    WithoutAt(lru, i);
    SkipLists(lru, slab, i);
    var rest := Skip(lru, i);
    InsertLists(slab - {id}, rest, |rest|, id, e);
    assert rest[..|rest|] + [id] + rest[|rest|..] == rest + [id];
    assert (slab - {id})[id := e] == slab[id := e];
  }

  // ----- The zone -----

  /** Some tree with a given in-order sequence; balancing gives it any shape. */
  function Spine(s: seq<nat>): (t: Tree)
    ensures InOrder(t) == s
  {
    if s == [] then Leaf else Node(Leaf, s[0], Spine(s[1..]))
  }

  lemma RemovalMeans(slab: Slab, lru: seq<nat>, l: Limiter)
    requires DistinctClients(slab) && Distinct(lru) && lru != [] && Represents(slab, lru, l)
    ensures Represents(slab - {lru[0]}, lru[1..], DropOldest(l))
  {
    var l' := DropOldest(l);
    forall k | k in l'.windows ensures k in l'.order {
      assert k in l.order;
      var i :| 0 <= i < |l.order| && l.order[i] == k;
      assert l'.order[i - 1] == k;
    }
  }

  lemma InsertionMeans(slab: Slab, lru: seq<nat>, l: Limiter, id: nat, e: Entry)
    requires Represents(slab, lru, l) && id !in slab && e.client !in l.windows && e.count == 1
    ensures Represents(slab[id := e], lru + [id], Admit(l, e.client, e.start))
  {
  }

  lemma TouchMeans(slab: Slab, lru: seq<nat>, l: Limiter, id: nat, e: Entry)
    requires DistinctClients(slab) && Represents(slab, lru, l) && id in slab && e.client == slab[id].client
    ensures Represents(slab[id := e], Without(lru, id) + [id], Touched(l, e.client, WindowOf(e)))
  {
    NamesWithout(slab, lru, l.order, id);
    forall k | k in l.windows && k != e.client ensures k in Without(l.order, e.client) {
      assert k in l.order;
      InWithout(l.order, e.client, k);
    }
  }

  lemma {:induction false} InWithout<T>(s: seq<T>, x: T, y: T)
    requires y in s && y != x
    ensures y in Without(s, x)
  {
    if s[0] != y {
      InWithout(s[1..], x, y);
    }
  }

  class Zone {
    const hash: Client -> nat
    const balance: Tree -> Tree
    var slab: Slab
    var tree: Tree
    var lru: seq<nat>

    /** The clients and windows that the zone stands for. */
    ghost var limiter: Limiter

    ghost predicate Valid()
      reads this
    {
      && (forall t :: InOrder(balance(t)) == InOrder(t))
      && ZoneOk(hash, slab, InOrder(tree), lru)
      && Represents(slab, lru, limiter)
    }

    constructor (hash: Client -> nat, balance: Tree -> Tree)
      requires forall t :: InOrder(balance(t)) == InOrder(t)
      ensures Valid() && limiter == Limiter(map[], [])
    {
      this.hash, this.balance := hash, balance;
      slab, tree, lru, limiter := map[], Leaf, [], Limiter(map[], []);
    }

    /** The lookup descent: an entry is found exactly when the client has one. */
    method Lookup(client: Client) returns (found: Option<nat>)
      requires Valid()
      ensures found.Some? ==> found.value in slab && slab[found.value].client == client
      ensures found.Some? <==> client in limiter.windows
    {
      var t := tree;
      while t.Node?
        invariant Ascending(hash, slab, InOrder(t))
        invariant forall a :: a in slab && slab[a].client == client ==> a in InOrder(t)
        decreases t
      {
        AscendingSubtrees(hash, slab, t);
        var cmp := Compare(hash, client, slab[t.id].client);
        CompareIsOrder(hash, client, slab[t.id].client);
        if cmp == 0 {
          return Some(t.id);
        }
        OnOneSide(hash, slab, t, client);
        t := if cmp < 0 then t.left else t.right;
      }
      assert client in limiter.windows ==> client in limiter.order;
      found := None;
    }

    /** Removes the entry at the head of the queue from queue, tree and slab. */
    method RemoveOldest()
      requires Valid() && lru != []
      modifies this
      ensures Valid() && limiter == DropOldest(old(limiter)) && slab.Keys <= old(slab.Keys)
    {
      var id := lru[0];
      NoClientTwice(hash, slab, InOrder(tree));
      RemovalKeepsZone(hash, slab, InOrder(tree), lru);
      RemovalMeans(slab, lru, limiter);
      lru := lru[1..];
      tree := balance(Spine(Without(InOrder(tree), id)));
      slab := slab - {id};
      limiter := DropOldest(limiter);
    }

    method Insert(id: nat, client: Client, now: nat)
      requires Valid() && id !in slab && client !in limiter.windows
      modifies this
      ensures Valid() && limiter == Admit(old(limiter), client, now) && slab.Keys == old(slab.Keys) + {id}
    {
      var e := Entry(client, now, 1);
      InsertionKeepsZone(hash, slab, tree, lru, id, e);
      InsertionMeans(slab, lru, limiter, id, e);
      tree := balance(Link(hash, slab, tree, id, client));
      slab := slab[id := e];
      lru := lru + [id];
      limiter := Admit(limiter, client, now);
    }

    /** Rewrites an entry's window in place and moves it to the tail of the queue. */
    method Touch(id: nat, w: Window)
      requires Valid() && id in slab
      modifies this
      ensures Valid() && limiter == Touched(old(limiter), old(slab)[id].client, w) && slab.Keys == old(slab.Keys)
    {
      var e := Entry(slab[id].client, w.start, w.count);
      NoClientTwice(hash, slab, InOrder(tree));
      TouchKeepsZone(hash, slab, InOrder(tree), lru, id, e);
      TouchMeans(slab, lru, limiter, id, e);
      slab := slab[id := e];
      lru := Without(lru, id) + [id];
      limiter := Touched(limiter, e.client, w);
    }

    /** Opportunistic expiry from the head of the queue. */
    method ExpireOld(c: Config, now: nat)
      requires Valid()
      modifies this
      ensures Valid() && limiter == Expire(c, old(limiter), now) && slab.Keys <= old(slab.Keys)
    {
      while lru != []
        invariant Valid() && Expire(c, limiter, now) == Expire(c, old(limiter), now) && slab.Keys <= old(slab.Keys)
        decreases |lru|
      {
        var entry := slab[lru[0]];
        if Elapsed(now, entry.start) <= c.window {
          return;
        }
        RemoveOldest();
      }
    }

    /** One request: the zone changes, and the decision is taken, as the rule says. */
    method Limit(c: Config, r: Request, address: nat) returns (d: Decision)
      requires Valid() && address !in slab
      modifies this
      ensures Valid() && (limiter, d) == Serve(c, old(limiter), r) && slab.Keys <= old(slab.Keys) + {address}
    {
      var found := Lookup(r.client);
      if found.Some? {
        d := Recount(c, found.value, r.now);
        return;
      }
      d := Enroll(c, r, address);
    }

    /** A client with an entry: a new window, a rejection or one more in the window. */
    method Recount(c: Config, id: nat, now: nat) returns (d: Decision)
      requires Valid() && id in slab
      modifies this
      ensures Valid() && slab.Keys == old(slab.Keys)
      ensures var k := old(slab)[id].client;
              && k in old(limiter).windows
              && (limiter, d) ==
                 (var (w, d) := Count(c, old(limiter).windows[k], now); (Touched(old(limiter), k, w), d))
    {
      var entry := slab[id];
      var limited, w := false, Window(entry.start, entry.count);
      if Elapsed(now, entry.start) > c.window {
        w := Window(now, 1);
      } else if entry.count >= c.limit {
        limited := true;
      } else {
        w := Window(entry.start, entry.count + 1);
      }
      Touch(id, w);
      d := if limited then TooMany else Accept;
    }

    /** A client without an entry: expire, allocate, evict if that fails, allocate again. */
    method Enroll(c: Config, r: Request, address: nat) returns (d: Decision)
      requires Valid() && address !in slab && r.client !in limiter.windows
      modifies this
      ensures Valid() && (limiter, d) == Serve(c, old(limiter), r) && slab.Keys <= old(slab.Keys) + {address}
    {
      ExpireShrinks(c, limiter, r.now);
      ExpireOld(c, r.now);
      var got := r.first;
      if !got && lru != [] {
        RemoveOldest();
        got := r.second;
      }
      if !got {
        return Unavailable;
      }
      Insert(address, r.client, r.now);
      return Accept;
    }
  }

  /** A request as the module answers it: the configured limit and window or their defaults, an
      internal error without a zone or for a client name that is empty or too long, else 200, 429
      or 503. */
  method Gate(zone: Zone?, limit: nat, window: nat, maxLen: nat, r: Request, address: nat) returns (status: nat)
    requires zone != null ==> zone.Valid() && address !in zone.slab
    modifies if zone == null then {} else {zone}
    ensures zone == null || |r.client| == 0 || |r.client| > maxLen ==> status == 500
    ensures zone != null ==> zone.Valid()
    ensures zone != null && (|r.client| == 0 || |r.client| > maxLen) ==> zone.limiter == old(zone.limiter)
    ensures zone != null && 0 < |r.client| <= maxLen ==>
              var (l, d) := Serve(Effective(limit, window), old(zone.limiter), r);
              zone.limiter == l && status == match d case Accept => 200 case TooMany => 429 case Unavailable => 503
  {
    if zone == null {
      return 500;
    }
    if |r.client| == 0 || |r.client| > maxLen {
      return 500;
    }
    var d := zone.Limit(Effective(limit, window), r, address);
    match d
    case Accept => status := 200;
    case TooMany => status := 429;
    case Unavailable => status := 503;
  }

  /** Whole runs on a fresh zone take the decisions that the rule's runs take. */
  method ServeAll(hash: Client -> nat, balance: Tree -> Tree, c: Config, rs: seq<Request>) returns (ds: seq<Decision>)
    requires forall t :: InOrder(balance(t)) == InOrder(t)
    ensures |ds| == |rs| && forall i :: 0 <= i < |rs| ==> ds[i] == Decide(c, rs, i)
  {
    var zone := new Zone(hash, balance);
    ds := [];
    for i := 0 to |rs|
      invariant fresh(zone) && zone.Valid() && zone.limiter == Run(c, rs[..i])
      invariant forall a :: a in zone.slab ==> a < i
      invariant |ds| == i && forall j :: 0 <= j < i ==> ds[j] == Decide(c, rs, j)
    {
      var d := zone.Limit(c, rs[i], i);
      assert rs[..i + 1][..i] == rs[..i];
      ds := ds + [d];
    }
  }

  lemma {:induction false} ExpireShrinks(c: Config, l: Limiter, now: nat)
    ensures Expire(c, l, now).windows.Keys <= l.windows.Keys
    decreases |l.order|
  {
    if l.order == [] || l.order[0] !in l.windows || Elapsed(now, l.windows[l.order[0]].start) <= c.window {
    } else {
      ExpireShrinks(c, DropOldest(l), now);
    }
  }

  /** A client that differs from the root's is, if present, on the side that the comparison says. */
  lemma OnOneSide(hash: Client -> nat, slab: Slab, t: Tree, client: Client)
    requires t.Node? && Ascending(hash, slab, InOrder(t)) && t.id in slab
    requires forall a :: a in slab && slab[a].client == client ==> a in InOrder(t)
    ensures Compare(hash, client, slab[t.id].client) < 0 ==>
              forall a :: a in slab && slab[a].client == client ==> a in InOrder(t.left)
    ensures Compare(hash, client, slab[t.id].client) > 0 ==>
              forall a :: a in slab && slab[a].client == client ==> a in InOrder(t.right)
  {
    AscendingSubtrees(hash, slab, t);
    var l, r := InOrder(t.left), InOrder(t.right);
    CompareIsOrder(hash, client, slab[t.id].client);
    forall a | a in slab && slab[a].client == client && client != slab[t.id].client
      ensures a in if Compare(hash, client, slab[t.id].client) < 0 then l else r {
      assert a in l || a in r;
    }
  }
}
