/** The three-step authentication between a connecting node and a listener, at the level of
    the bytes that are exchanged and authenticated. Both ends hold a byte order of their own. */
module Handshake {
  import opened Bytes
  import opened Sha256
  import opened Hmac

  datatype Host = Host(order: ByteOrder, secret: seq<byte>)

  /** A keyed digest; the implementation passes HMAC-SHA256. */
  type Mac = (seq<byte>, seq<byte>) -> seq<byte>

  function HmacMac(): Mac {
    (key, text) => HmacSha256(key, text)
  }

  /** The 24 authenticated bytes: both nonces as given, then the expiry in network order. */
  function AuthText(order: ByteOrder, nonceA: seq<byte>, nonceB: seq<byte>, expireAt: u64): seq<byte> {
    nonceA + nonceB + Store(order, 8, Htonll(order, expireAt))
  }

  /** OP_AUTH_REQUEST: the client's nonce in network order. */
  function AuthRequest(client: Host, nonceA: u64): seq<byte> {
    Store(client.order, 8, Htonll(client.order, nonceA))
  }

  /** OP_AUTH_RESPONSE: the listener authenticates the request's bytes and the host image of its
      own nonce, and sends its nonce and expiry in network order. */
  function AuthResponse(mac: Mac, server: Host, request: seq<byte>, nonceB: u64, expireAt: u64): seq<byte>
    requires |request| >= 8
  {
    Store(server.order, 8, Htonll(server.order, nonceB)) +
    Store(server.order, 8, Htonll(server.order, expireAt)) +
    mac(server.secret, AuthText(server.order, request[..8], Store(server.order, 8, nonceB), expireAt))
  }

  /** The client's check of a response: the expiry to hold, if the digests agree. */
  function ClientAccepts(mac: Mac, client: Host, nonceA: u64, response: seq<byte>): (expiry: Option<nat>)
  {
    if |response| < 48 then None else
    var nonceB := Htonll(client.order, Load(client.order, response[..8]));
    var expireAt := Htonll(client.order, Load(client.order, response[8..16]));
    if expireAt >= 0x1_0000_0000_0000_0000 then None else
    if response[16..48] == mac(client.secret,
                               AuthText(client.order, AuthRequest(client, nonceA), Store(client.order, 8, nonceB),
                                 expireAt))
    then Some(expireAt) else None
  }

  /** What both ends authenticate, given the nonces and the expiry that one exchange carries. */
  ghost function TextAt(order: ByteOrder, nonceA: u64, nonceB: u64, expireAt: u64): seq<byte> {
    Big(8, nonceA) + Store(order, 8, nonceB) + Big(8, expireAt)
  }

  /** The client takes the listener's expiry exactly when its digest of its own text equals the
      listener's digest of the listener's text. */
  lemma ClientComparesTexts(mac: Mac, client: Host, server: Host, nonceA: u64, nonceB: u64, expireAt: u64)
    requires forall k, t :: |mac(k, t)| == 32
    ensures var response := AuthResponse(mac, server, AuthRequest(client, nonceA), nonceB, expireAt);
            ClientAccepts(mac, client, nonceA, response) ==
            if mac(client.secret, TextAt(client.order, nonceA, nonceB, expireAt)) ==
               mac(server.secret, TextAt(server.order, nonceA, nonceB, expireAt))
            then Some(expireAt) else None
  {
    HtonllImage(client.order, nonceA);
    HtonllImage(client.order, expireAt);
    HtonllImage(server.order, nonceB);
    HtonllImage(server.order, expireAt);
    NtohllOfImage(client.order, nonceB);
    NtohllOfImage(client.order, expireAt);
    var digest := mac(server.secret, TextAt(server.order, nonceA, nonceB, expireAt));
    var request := AuthRequest(client, nonceA);
    assert request == Big(8, nonceA) && request[..8] == request;
    var response := AuthResponse(mac, server, request, nonceB, expireAt);
    assert response == Big(8, nonceB) + Big(8, expireAt) + digest;
    assert response[..8] == Big(8, nonceB) && response[8..16] == Big(8, expireAt) && response[16..48] == digest;
  }

  /** The two texts are the same exactly when the ends share a byte order, or the listener's
      nonce happens to read the same from both sides. */
  lemma TextsAgreeExactly(a: ByteOrder, b: ByteOrder, nonceA: u64, nonceB: u64, expireAt: u64)
    ensures TextAt(a, nonceA, nonceB, expireAt) == TextAt(b, nonceA, nonceB, expireAt) <==>
            a == b || Reverse(Big(8, nonceB)) == Big(8, nonceB)
  {
    var s, t := TextAt(a, nonceA, nonceB, expireAt), TextAt(b, nonceA, nonceB, expireAt);
    assert s[8..16] == Store(a, 8, nonceB) && t[8..16] == Store(b, 8, nonceB);
  }

  /** An honest client and listener with the same secret and byte order complete the handshake
      and hold the same expiry, whatever the nonces. */
  lemma HonestPeersAuthenticate(client: Host, server: Host, nonceA: u64, nonceB: u64, expireAt: u64)
    requires client == server
    ensures var response := AuthResponse(HmacMac(), server, AuthRequest(client, nonceA), nonceB, expireAt);
            |response| == 48 && ClientAccepts(HmacMac(), client, nonceA, response) == Some(expireAt)
  {
    var mac := HmacMac();
    assert forall k, t :: |mac(k, t)| == 32;
    ClientComparesTexts(mac, client, server, nonceA, nonceB, expireAt);
  }

  /** With one secret, and a digest that tells the two texts apart when they differ, the client
      accepts if and only if the byte orders agree or the nonce is the same from both sides. */
  lemma HandshakeSucceedsExactly(mac: Mac, client: Host, server: Host, nonceA: u64, nonceB: u64, expireAt: u64)
    requires forall k, t :: |mac(k, t)| == 32
    requires client.secret == server.secret
    requires var s, t := TextAt(client.order, nonceA, nonceB, expireAt), TextAt(server.order, nonceA, nonceB, expireAt);
             mac(client.secret, s) == mac(client.secret, t) ==> s == t
    ensures var response := AuthResponse(mac, server, AuthRequest(client, nonceA), nonceB, expireAt);
            ClientAccepts(mac, client, nonceA, response).Some? <==>
            client.order == server.order || Reverse(Big(8, nonceB)) == Big(8, nonceB)
  {
    ClientComparesTexts(mac, client, server, nonceA, nonceB, expireAt);
    TextsAgreeExactly(client.order, server.order, nonceA, nonceB, expireAt);
  }
}
