/** Peer lists: the payload that one node writes and the parser that another runs on it. */
module PeerList {
  import opened Bytes
  import opened Config

  const MAX_PEERS := 128
  const FIXED_LEN := 11

  datatype Endpoint = Endpoint(addr: seq<byte>, port: u16, nodeId: u64)

  /** An address as the peer table holds it: 1 to 255 bytes, none of them NUL. */
  predicate GoodAddress(addr: seq<byte>) {
    0 < |addr| <= 255 && forall i :: 0 <= i < |addr| ==> addr[i] != 0
  }

  /** The C string in a buffer: everything before the first NUL. */
  function CString(s: seq<byte>): seq<byte> {
    if s == [] || s[0] == 0 then [] else [s[0]] + CString(s[1..])
  }

  /** endpoint_is_self. */
  predicate IsSelf(self: Endpoint, e: Endpoint) {
    (e.nodeId != 0 && e.nodeId == self.nodeId) || (e.port == self.port && CString(e.addr) == self.addr)
  }

  /** How a reader takes an item off the front of a payload, and which endpoints it leaves out. */
  datatype Parser = Parser(first: seq<byte> -> Endpoint, isMe: Endpoint -> bool)

  function Reader(self: Endpoint): Parser {
    Parser(s => if HasItem(s) then FirstItem(s) else Endpoint([], 0, 0), e => IsSelf(self, e))
  }

  function Others(p: Parser, ps: seq<Endpoint>): seq<Endpoint> {
    if ps == [] then [] else (if p.isMe(ps[0]) then [] else [ps[0]]) + Others(p, ps[1..])
  }

  // ----- The payload -----

  function Item(e: Endpoint): seq<byte>
    requires |e.addr| <= 255
  {
    Big(8, e.nodeId) + Big(2, e.port) + [|e.addr|] + e.addr
  }

  ghost predicate Encodable(ps: seq<Endpoint>) {
    forall i :: 0 <= i < |ps| ==> 0 < |ps[i].addr| <= 255
  }

  /** Item as a function value, empty for an address too long to write. */
  ghost function Writing(): Endpoint -> seq<byte> {
    (e: Endpoint) => if |e.addr| <= 255 then Item(e) else []
  }

  ghost function Items(item: Endpoint -> seq<byte>, ps: seq<Endpoint>): seq<byte> {
    if ps == [] then [] else item(ps[0]) + Items(item, ps[1..])
  }

  ghost function Payload(ps: seq<Endpoint>): seq<byte>
    requires Encodable(ps)
  {
    Big(2, |ps|) + Items(Writing(), ps)
  }

  // ----- The parser -----

  /** Reads `count` items; everything must be used up at the end. */
  function ParseItems(p: Parser, s: seq<byte>, count: nat, found: seq<Endpoint>): Option<seq<Endpoint>> {
    if count == 0 then (if s == [] then Some(found) else None) else
    if !HasItem(s) then None else
    ParseItems(p, s[FIXED_LEN + s[10]..], count - 1, Keep(p, found, p.first(s)))
  }

  /** A whole item with an address stands at the front. */
  predicate HasItem(s: seq<byte>) {
    |s| >= FIXED_LEN && s[10] != 0 && |s| >= FIXED_LEN + s[10]
  }

  function FirstItem(s: seq<byte>): Endpoint
    requires HasItem(s)
  {
    FirstItemBounds(s);
    Endpoint(s[FIXED_LEN..FIXED_LEN + s[10]], FromBig(s[8..10]), FromBig(s[0..8]))
  }

  function Keep(p: Parser, found: seq<Endpoint>, e: Endpoint): seq<Endpoint> {
    if !p.isMe(e) && |found| < MAX_PEERS then found + [e] else found
  }

  function Parse(self: Endpoint, payload: seq<byte>): Option<seq<Endpoint>> {
    if |payload| < 2 then None else ParseItems(Reader(self), payload[2..], FromBig(payload[..2]), [])
  }

  lemma FirstItemBounds(s: seq<byte>)
    requires |s| >= FIXED_LEN
    ensures FromBig(s[8..10]) < 0x1_0000 && FromBig(s[0..8]) < 0x1_0000_0000_0000_0000
  {
    Pow256Values();
    BigOfFromBig(s[8..10]);
    BigOfFromBig(s[0..8]);
  }

  lemma FirstItemOfItem(e: Endpoint, rest: seq<byte>)
    requires 0 < |e.addr| <= 255
    ensures var s := Item(e) + rest;
            && HasItem(s) && s[10] == |e.addr|
            && FirstItem(s) == e && s[FIXED_LEN + s[10]..] == rest
  {
    var s := Item(e) + rest;
    assert s[0..8] == Big(8, e.nodeId) && s[8..10] == Big(2, e.port) && s[10] == |e.addr|;
    assert s[FIXED_LEN..FIXED_LEN + |e.addr|] == e.addr;
    Pow256Values();
    FromBigOfBig(8, e.nodeId);
    FromBigOfBig(2, e.port);
  }

  /** An item read from a payload writes back to the bytes it was read from. */
  lemma ItemOfFirstItem(s: seq<byte>)
    requires HasItem(s)
    ensures |FirstItem(s).addr| == s[10] && Item(FirstItem(s)) == s[..FIXED_LEN + s[10]]
  {
    BigOfFromBig(s[0..8]);
    BigOfFromBig(s[8..10]);
  }

  /** What the list proofs need of a writer and a parser: the parser undoes the writer, whatever
      follows the item. */
  ghost predicate Decodes(item: Endpoint -> seq<byte>, p: Parser) {
    forall e: Endpoint, rest: seq<byte> {:trigger item(e) + rest} :: 0 < |e.addr| <= 255 ==>
      |item(e)| == FIXED_LEN + |e.addr| && item(e)[10] == |e.addr| && p.first(item(e) + rest) == e
  }

  /** And the writer undoes the parser. */
  ghost predicate Encodes(item: Endpoint -> seq<byte>, p: Parser) {
    forall s {:trigger p.first(s)} :: HasItem(s) ==>
      |p.first(s).addr| == s[10] && item(p.first(s)) == s[..FIXED_LEN + s[10]]
  }

  lemma ReaderDecodes(self: Endpoint)
    ensures Decodes(Writing(), Reader(self))
  {
    forall e: Endpoint, rest: seq<byte> | 0 < |e.addr| <= 255
      ensures var item := Item(e);
              |item| == FIXED_LEN + |e.addr| && item[10] == |e.addr| && Reader(self).first(item + rest) == e
    {
      FirstItemOfItem(e, rest);
    }
  }

  lemma ReaderEncodes(self: Endpoint)
    ensures Encodes(Writing(), Reader(self))
  {
    forall s | HasItem(s)
      ensures var e := Reader(self).first(s); |e.addr| == s[10] && Item(e) == s[..FIXED_LEN + s[10]]
    {
      ItemOfFirstItem(s);
    }
  }

  lemma KeepOthers(p: Parser, found: seq<Endpoint>, ps: seq<Endpoint>)
    requires ps != [] && |found| < MAX_PEERS
    ensures Keep(p, found, ps[0]) + Others(p, ps[1..]) == found + Others(p, ps)
  {
    if !p.isMe(ps[0]) {
      assert (found + [ps[0]]) + Others(p, ps[1..]) == found + ([ps[0]] + Others(p, ps[1..]));
    }
  }

  lemma ParseOne(item: Endpoint -> seq<byte>, p: Parser, e: Endpoint, rest: seq<byte>, count: nat, found: seq<Endpoint>)
    requires Decodes(item, p) && 0 < |e.addr| <= 255
    ensures ParseItems(p, item(e) + rest, count + 1, found) == ParseItems(p, rest, count, Keep(p, found, e))
  {
    var s := item(e) + rest;
    assert s[10] == |e.addr| && s[FIXED_LEN + |e.addr|..] == rest;
  }

  lemma {:induction false} ParseOfItems(item: Endpoint -> seq<byte>, p: Parser, ps: seq<Endpoint>, found: seq<Endpoint>)
    requires Decodes(item, p) && Encodable(ps) && |found| + |ps| <= MAX_PEERS
    ensures ParseItems(p, Items(item, ps), |ps|, found) == Some(found + Others(p, ps))
  {
    if ps == [] {
      assert found + Others(p, ps) == found;
    } else {
      ParseOne(item, p, ps[0], Items(item, ps[1..]), |ps| - 1, found);
      ParseOfItems(item, p, ps[1..], Keep(p, found, ps[0]));
      KeepOthers(p, found, ps);
    }
  }

  lemma {:induction false} PrefixRejected(item: Endpoint -> seq<byte>, p: Parser, ps: seq<Endpoint>, s: seq<byte>,
                                          found: seq<Endpoint>)
    requires Decodes(item, p) && Encodable(ps) && s < Items(item, ps)
    ensures ParseItems(p, s, |ps|, found) == None
  {
    var e, rest := ps[0], Items(item, ps[1..]);
    var n := FIXED_LEN + |e.addr|;
    assert p.first(item(e) + rest) == e;
    if |s| >= FIXED_LEN {
      assert s[10] == item(e)[10];
    }
    if |s| >= n {
      TailIsPrefix(item(e), rest, s);
      PrefixRejected(item, p, ps[1..], s[n..], Keep(p, found, p.first(s)));
    }
  }

  lemma TailIsPrefix(item: seq<byte>, rest: seq<byte>, s: seq<byte>)
    requires s < item + rest && |s| >= |item|
    ensures s[|item|..] < rest
  {
    assert s[|item|..] == rest[..|s| - |item|];
  }

  lemma {:induction false} ExtensionRejected(item: Endpoint -> seq<byte>, p: Parser, ps: seq<Endpoint>,
                                             more: seq<byte>, found: seq<Endpoint>)
    requires Decodes(item, p) && Encodable(ps) && more != []
    ensures ParseItems(p, Items(item, ps) + more, |ps|, found) == None
  {
    if ps == [] {
      assert Items(item, ps) + more == more;
    } else {
      var e, rest := ps[0], Items(item, ps[1..]);
      assert Items(item, ps) + more == item(e) + (rest + more);
      ParseOne(item, p, e, rest + more, |ps| - 1, found);
      ExtensionRejected(item, p, ps[1..], more, Keep(p, found, e));
    }
  }

  lemma CountOfPayload(ps: seq<Endpoint>, tail: seq<byte>)
    requires |ps| <= MAX_PEERS
    ensures var s := Big(2, |ps|) + tail; FromBig(s[..2]) == |ps| && s[2..] == tail
  {
    Pow256Values();
    FromBigOfBig(2, |ps|);
    assert (Big(2, |ps|) + tail)[..2] == Big(2, |ps|);
  }

  /** Parsing a written list returns the endpoints other than the reader itself, in order. */
  lemma ParseOfPayload(self: Endpoint, ps: seq<Endpoint>)
    requires Encodable(ps) && |ps| <= MAX_PEERS
    ensures Parse(self, Payload(ps)) == Some(Others(Reader(self), ps))
  {
    ReaderDecodes(self);
    CountOfPayload(ps, Items(Writing(), ps));
    ParseOfItems(Writing(), Reader(self), ps, []);
    assert [] + Others(Reader(self), ps) == Others(Reader(self), ps);
  }

  /** No proper prefix and no extension of a written list is accepted. */
  lemma OnlyWholePayloads(self: Endpoint, ps: seq<Endpoint>, s: seq<byte>)
    requires Encodable(ps) && |ps| <= MAX_PEERS
    requires s < Payload(ps) || Payload(ps) < s
    ensures Parse(self, s) == None
  {
    ReaderDecodes(self);
    if |s| >= 2 {
      var p := Payload(ps);
      assert s[..2] == p[..2];
      CountOfPayload(ps, Items(Writing(), ps));
      if |s| < |p| {
        assert s[2..] == p[2..|s|];
        PrefixRejected(Writing(), Reader(self), ps, s[2..], []);
      } else {
        assert s == p + s[|p|..];
        assert s[2..] == Items(Writing(), ps) + s[|p|..];
        ExtensionRejected(Writing(), Reader(self), ps, s[|p|..], []);
      }
    }
  }

  /** Conversely, whatever the parser accepts is the writing of some list, whose endpoints other
      than the reader are what it returns, up to the table limit. */
  lemma AcceptedIsPayload(self: Endpoint, s: seq<byte>) returns (ps: seq<Endpoint>)
    requires Parse(self, s).Some?
    ensures Encodable(ps) && s == Payload(ps)
    ensures Parse(self, s).value == FirstN(Others(Reader(self), ps), MAX_PEERS)
  {
    ReaderEncodes(self);
    ps := AcceptedItems(Writing(), Reader(self), s[2..], FromBig(s[..2]), []);
    BigOfFromBig(s[..2]);
    assert s == s[..2] + s[2..];
    assert [] + Others(Reader(self), ps) == Others(Reader(self), ps);
  }

  function FirstN(es: seq<Endpoint>, n: nat): seq<Endpoint> {
    if |es| <= n then es else es[..n]
  }

  lemma {:induction false} AcceptedItems(item: Endpoint -> seq<byte>, p: Parser, s: seq<byte>, count: nat,
                                         found: seq<Endpoint>)
    returns (ps: seq<Endpoint>)
    requires Encodes(item, p) && ParseItems(p, s, count, found).Some? && |found| <= MAX_PEERS
    ensures |ps| == count && Encodable(ps) && s == Items(item, ps)
    ensures ParseItems(p, s, count, found).value == FirstN(found + Others(p, ps), MAX_PEERS)
  {
    if count == 0 {
      return [];
    }
    var n, e := FIXED_LEN + s[10], p.first(s);
    var rest := AcceptedItems(item, p, s[n..], count - 1, Keep(p, found, e));
    ps := [e] + rest;
    assert s == s[..n] + s[n..];
    KeepFirst(p, found, e, rest);
  }

  lemma KeepFirst(p: Parser, found: seq<Endpoint>, e: Endpoint, rest: seq<Endpoint>)
    requires |found| <= MAX_PEERS
    ensures FirstN(Keep(p, found, e) + Others(p, rest), MAX_PEERS) == FirstN(found + Others(p, [e] + rest), MAX_PEERS)
    ensures ([e] + rest)[1..] == rest
  {
    var all := [e] + rest;
    assert all[1..] == rest;
    if |found| < MAX_PEERS {
      KeepOthers(p, found, all);
    } else {
      assert forall r: seq<Endpoint> :: FirstN(found + r, MAX_PEERS) == found;
    }
  }

  // ----- Writing and reading by offset -----

  lemma {:induction false} ItemsSnoc(item: Endpoint -> seq<byte>, ps: seq<Endpoint>, e: Endpoint)
    ensures Items(item, ps + [e]) == Items(item, ps) + item(e)
  {
    if ps == [] {
      assert ps + [e] == [e];
      assert Items(item, [e]) == item(e) + Items(item, []);
    } else {
      assert (ps + [e])[1..] == ps[1..] + [e];
      ItemsSnoc(item, ps[1..], e);
    }
  }

  lemma {:induction false} ItemsLength(item: Endpoint -> seq<byte>, ps: seq<Endpoint>)
    requires forall i :: 0 <= i < |ps| ==> |item(ps[i])| <= FIXED_LEN + 255
    ensures |Items(item, ps)| <= |ps| * (FIXED_LEN + 255)
  {
    if ps != [] { ItemsLength(item, ps[1..]); }
  }

  /** memcpy to an offset. */
  method CopyTo(a: array<byte>, offset: nat, s: seq<byte>)
    requires offset + |s| <= a.Length
    modifies a
    ensures a[..offset + |s|] == old(a[..offset]) + s
  {
    for i := 0 to |s|
      invariant a[..offset + i] == old(a[..offset]) + s[..i]
    {
      a[offset + i] := s[i];
      assert a[..offset + i + 1] == a[..offset + i] + [s[i]];
      assert s[..i + 1] == s[..i] + [s[i]];
    }
    assert s[..|s|] == s;
  }

  method TotalLength(peers: seq<Endpoint>) returns (total: nat)
    requires Encodable(peers)
    ensures total == |Payload(peers)|
  {
    total := 2;
    for i := 0 to |peers|
      invariant total == 2 + |Items(Writing(), peers[..i])|
    {
      total := total + 8 + 2 + 1 + |peers[i].addr|;
      ItemsSnoc(Writing(), peers[..i], peers[i]);
      assert peers[..i + 1] == peers[..i] + [peers[i]];
    }
    assert peers[..|peers|] == peers;
  }

  /** send_peer_list: the length computed first is the offset reached last, it always fits in a
      frame, and the bytes written are the payload. */
  method WritePeerList(order: ByteOrder, peers: seq<Endpoint>) returns (payload: array<byte>, offset: nat)
    requires |peers| <= MAX_PEERS && Encodable(peers)
    ensures fresh(payload) && payload[..] == Payload(peers)
    ensures offset == payload.Length <= MAX_VALUE_LEN
  {
    var total := TotalLength(peers);
    ItemsLength(Writing(), peers);
    payload := new byte[total](i => 0);
    var count := HostHalf(order, |peers|);
    CopyTo(payload, 0, count);
    offset := 2;
    for i := 0 to |peers|
      invariant offset == 2 + |Items(Writing(), peers[..i])| <= total
      invariant payload[..offset] == Big(2, |peers|) + Items(Writing(), peers[..i])
    {
      offset := PutItem(order, peers, i, payload, offset);
    }
    assert peers[..|peers|] == peers;
    assert payload[..] == payload[..total];
  }

  /** One turn of the writing loop. */
  method PutItem(order: ByteOrder, peers: seq<Endpoint>, i: nat, payload: array<byte>, offset: nat) returns (next: nat)
    requires |peers| <= MAX_PEERS && Encodable(peers) && i < |peers| && payload.Length == |Payload(peers)|
    requires offset == 2 + |Items(Writing(), peers[..i])| <= payload.Length
    requires payload[..offset] == Big(2, |peers|) + Items(Writing(), peers[..i])
    modifies payload
    ensures next == 2 + |Items(Writing(), peers[..i + 1])| <= payload.Length
    ensures payload[..next] == Big(2, |peers|) + Items(Writing(), peers[..i + 1])
  {
    NextItem(peers, i);
    var item := HostItem(order, peers[i]);
    CopyTo(payload, offset, item);
    next := offset + |item|;
  }

  lemma NextItem(ps: seq<Endpoint>, i: nat)
    requires Encodable(ps) && i < |ps|
    ensures Items(Writing(), ps[..i + 1]) == Items(Writing(), ps[..i]) + Item(ps[i])
    ensures Big(2, |ps|) + Items(Writing(), ps[..i]) + Item(ps[i]) == Big(2, |ps|) + Items(Writing(), ps[..i + 1])
    ensures |Items(Writing(), ps[..i + 1])| <= |Items(Writing(), ps)|
  {
    assert ps[..i + 1] == ps[..i] + [ps[i]];
    ItemsSnoc(Writing(), ps[..i], ps[i]);
    PrefixFits(Writing(), ps, i + 1);
  }

  /** An item as a host writes it, field by field. */
  method HostItem(order: ByteOrder, e: Endpoint) returns (item: seq<byte>)
    requires |e.addr| <= 255
    ensures item == Item(e)
  {
    var id := HostWord(order, e.nodeId);
    var port := HostHalf(order, e.port);
    item := id + port + [|e.addr|] + e.addr;
  }

  method HostWord(order: ByteOrder, v: u64) returns (s: seq<byte>)
    ensures s == Big(8, v)
  {
    HtonllImage(order, v);
    s := Store(order, 8, Htonll(order, v));
  }

  method HostHalf(order: ByteOrder, v: u16) returns (s: seq<byte>)
    ensures s == Big(2, v)
  {
    HostToNet2(order, v);
    s := Store(order, 2, HostToNet(order, 2, v));
  }

  lemma HostToNet2(order: ByteOrder, v: u16)
    ensures Store(order, 2, HostToNet(order, 2, v)) == Big(2, v)
  {
    Pow256Values();
    HostToNetImage(order, 2, v);
  }

  lemma {:induction false} PrefixFits(item: Endpoint -> seq<byte>, ps: seq<Endpoint>, i: nat)
    requires i <= |ps|
    ensures |Items(item, ps[..i])| <= |Items(item, ps)|
    decreases |ps| - i
  {
    if i < |ps| {
      assert ps[..i + 1] == ps[..i] + [ps[i]];
      ItemsSnoc(item, ps[..i], ps[i]);
      PrefixFits(item, ps, i + 1);
    } else {
      assert ps[..i] == ps;
    }
  }

  /** A parser that reads items and recognises the reader as parse_peer_list does. */
  ghost predicate Follows(p: Parser, self: Endpoint) {
    && (forall s {:trigger FirstItem(s)} :: HasItem(s) ==> p.first(s) == FirstItem(s))
    && (forall e {:trigger IsSelf(self, e)} :: p.isMe(e) == IsSelf(self, e))
  }

  lemma ReaderFollows(self: Endpoint, payload: seq<byte>, count: nat) returns (p: Parser)
    requires |payload| >= 2 && count == FromBig(payload[..2])
    ensures Follows(p, self) && ParseItems(p, payload[2..], count, []) == Parse(self, payload)
  {
    p := Reader(self);
  }

  /** parse_peer_list. */
  method ReadPeerList(order: ByteOrder, self: Endpoint, payload: seq<byte>) returns (list: Option<seq<Endpoint>>)
    ensures list == Parse(self, payload)
  {
    if |payload| < 2 {
      return None;
    }
    var count := NetField(order, payload[..2]);
    ghost var p := ReaderFollows(self, payload, count);
    list := ReadItems(order, self, payload, count, p);
  }

  method ReadItems(order: ByteOrder, self: Endpoint, payload: seq<byte>, count: nat, ghost p: Parser)
    returns (list: Option<seq<Endpoint>>)
    requires |payload| >= 2 && Follows(p, self)
    ensures list == ParseItems(p, payload[2..], count, [])
  {
    var offset: nat, found: seq<Endpoint> := 2, [];
    for i := 0 to count
      invariant 2 <= offset <= |payload|
      invariant ParseItems(p, payload[offset..], count - i, found) == ParseItems(p, payload[2..], count, [])
    {
      var ok;
      ok, offset, found := Advance(order, self, payload, offset, found, count - i, p);
      if !ok {
        return None;
      }
    }
    list := if offset == |payload| then Some(found) else None;
  }

  /** One turn of the loop: past the item at the offset, keeping it unless it is the reader. */
  method Advance(order: ByteOrder, self: Endpoint, payload: seq<byte>, offset: nat, found: seq<Endpoint>,
                 ghost count: nat, ghost p: Parser) returns (ok: bool, next: nat, more: seq<Endpoint>)
    requires offset <= |payload| && count > 0 && Follows(p, self)
    ensures ok ==> offset < next <= |payload|
    ensures ParseItems(p, payload[offset..], count, found) ==
            if ok then ParseItems(p, payload[next..], count - 1, more) else None
  {
    ok, next, more := false, offset, found;
    var item, isMe := ReadItem(order, self, payload, offset, p);
    if item.Some? {
      ok := true;
      if !isMe && |found| < MAX_PEERS {
        more := found + [item.value];
      }
      next := offset + FIXED_LEN + |item.value.addr|;
      assert more == Keep(p, found, p.first(payload[offset..]));
    }
    ParseStep(p, payload, offset, count, found, next, more);
  }

  lemma ParseStep(p: Parser, payload: seq<byte>, offset: nat, count: nat, found: seq<Endpoint>, next: nat,
                  more: seq<Endpoint>)
    requires offset <= |payload| && count > 0
    requires var s := payload[offset..];
             HasItem(s) ==> next == offset + FIXED_LEN + s[10] && more == Keep(p, found, p.first(s))
    ensures var s := payload[offset..];
            && (HasItem(s) ==> next <= |payload|)
            && ParseItems(p, s, count, found) ==
               if HasItem(s) then ParseItems(p, payload[next..], count - 1, more) else None
  {
    var s := payload[offset..];
    if HasItem(s) {
      assert s[FIXED_LEN + s[10]..] == payload[next..];
    }
  }

  /** The body of the parsing loop: the item at an offset, if it is whole and has an address. */
  method ReadItem(order: ByteOrder, self: Endpoint, payload: seq<byte>, offset: nat, ghost p: Parser)
    returns (item: Option<Endpoint>, isMe: bool)
    requires offset <= |payload| && Follows(p, self)
    ensures var s := payload[offset..];
            if !HasItem(s) then item == None
            else item == Some(p.first(s)) && isMe == p.isMe(p.first(s)) && |item.value.addr| == s[10]
  {
    ghost var s := payload[offset..];
    if offset + FIXED_LEN > |payload| {
      return None, false;
    }
    assert s[0..8] == payload[offset..offset + 8] && s[8..10] == payload[offset + 8..offset + 10];
    var nodeId := NetField64(order, payload[offset..offset + 8]);
    var port := NetField(order, payload[offset + 8..offset + 10]);
    var addrLen := payload[offset + 10];
    if addrLen == 0 || offset + FIXED_LEN + addrLen > |payload| {
      return None, false;
    }
    FirstItemBounds(s);
    assert s[FIXED_LEN..FIXED_LEN + addrLen] == payload[offset + FIXED_LEN..offset + FIXED_LEN + addrLen];
    var e := Endpoint(payload[offset + FIXED_LEN..offset + FIXED_LEN + addrLen], port, nodeId);
    assert e == FirstItem(s);
    item, isMe := Some(e), IsSelf(self, e);
  }

  /** One node writes its list and another, of any byte order, reads it. */
  method Exchange(from: ByteOrder, to: ByteOrder, self: Endpoint, peers: seq<Endpoint>)
    returns (list: Option<seq<Endpoint>>)
    requires |peers| <= MAX_PEERS && forall i :: 0 <= i < |peers| ==> GoodAddress(peers[i].addr)
    ensures list == Some(Others(Reader(self), peers))
  {
    var payload, offset := WritePeerList(from, peers);
    ParseOfPayload(self, peers);
    list := ReadPeerList(to, self, payload[..]);
  }
}
