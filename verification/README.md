# A verified model of the dmmr cache

The repository is a replicated key/value cache (`http_dmmr_cache/`) with an nginx gateway in
front of it (`nginx-dmmr-module-c/`). This project models the parts whose correctness is not
visible from one function, and proves what they promise over every input and every run.

| area | files |
|---|---|
| last-writer-wins store, its packing, and the replication protocol | `Lww`, `Packing`, `Database`, `Replication`, `Server` |
| bootstrap by snapshot while both stores keep changing | `KeyOrder`, `Snapshot` |
| a peer's outbox and sender thread, the listener's session | `Outbox`, `Sender`, `Listener`, `ClusterId`, `Delivery` |
| the whole way of a record, from its node to every other | `Cluster` |
| SHA-256, HMAC and the handshake | `Sha256`, `Sha256Stream`, `Hmac`, `Handshake` |
| frames over a fragmented stream, peer lists, byte order | `Bytes`, `Wire`, `Stream`, `PeerList` |
| the rate limiter | `RateLimit`, `RateZone` |
| allocators and the command queue built on one | `HeapPool`, `PayloadPool`, `ControlQueue` |

`dafny verify dfyconfig.toml` checks everything.

Code that only computes is a function; code that updates state is a class or a method with a
loop, proved against a function or a state machine about which the main results are then
proved. Threads are state machines whose steps are the sections under one mutex, in any
interleaving. Clocks, nonces, allocation failures, socket results and the contents of added
memory are parameters and range over all values. Both byte orders of a host are covered.

## Where the code differs from its documentation

The model follows the code. Each of these has a lemma that shows the difference and, where the
failing family can be told in advance, one that says exactly when the promise does hold.

- A DEL stores a tombstone with one clock reading and broadcasts one with a second reading, so
  nodes can disagree for ever after everything is delivered (`Replication.DeleteCanDiverge`,
  `Replication.EqualStampsCanDiverge`); `Replication.AgreementExactly` says when they agree, for all
  runs with snapshots, repeated stamps and collections.
- Tombstones expire at 0, so the collector deletes them again and again with later stamps, and
  erases a SET that another node made after the delete (`Server.CollectionErasesLaterSet`); a
  collection is a delete, so `Replication.SeesLatestExactly` says which SETs survive.
- With an empty secret, which README.md:224 of the repository calls backward-compatible, nothing
  is ever sent and a listener answers no HELLO (`Delivery.EmptySecretNeverSends`,
  `Listener.WithoutSecretServedExactly`).
- A sender that waits on an empty outbox sends the next message even if its session ran out
  meanwhile (`Outbox.WaitOutlivesSession`); `Outbox.LatePickExactly` says when a pick is late, and
  `Delivery.AppliedExactly` that a message so sent is lost unless the listener's clock is behind.
- A challenge on a connection that is already authenticated gets no answer, so a session is not
  renewed but replaced by a new connection (`Listener.ChallengedOnce`).
- The handshake digest covers the listener's nonce in host byte order, so nodes of different
  byte orders do not authenticate (`Handshake.HandshakeSucceedsExactly`).
- A cluster whose name hashes to 0 rejects its own frames (`ClusterId.OwnClusterAccepted`,
  `ClusterId.SomeClusterRejectsItself`).
- A second free of a pool slot turns the free list into a ring, and a second release of a
  payload buffer lists it twice (`HeapPool.FreeKeepsChainExactly`,
  `PayloadPool.ReleaseListedExactly`).
- The limiter drops clients, by forced eviction when memory is short and by expiry under an
  unsigned clock difference that a step back makes huge (`RateLimit.EvictionIsVisible`,
  `RateLimit.BackwardClockIsVisible`). A decision differs from that of a counter which never
  forgets exactly when no entry can be had, or when exactly one of the two leaves room: the
  counter's window of the client, and the limiter's or its having none (`RateLimit.AgreesExactly`).
  `RateLimit.DropsExactly` says which clients a request drops, `RateLimit.DropDecides` what that
  does to their next request, and `RateLimit.ReadmittedExactly` what the fresh window does to the
  requests after it.

## Model

| member | source | states |
|---|---|---|
| Lww.StampOrderTotal | http_dmmr_cache/dmmr_db.c:38-43 | of two stamps exactly one of "at most" and "wins over" holds, so every conflict has one outcome |
| Lww.MergeAllIsGreatest | http_dmmr_cache/dmmr_db.c:206-237 | after any sequence of applied records a key is stored exactly when some record for it exists, and what is stored is one with the greatest (timestamp, node id) |
| Lww.MergeAllKeepsFirst | http_dmmr_cache/dmmr_db.c:206-237 | of records that repeat a stamp the first to arrive is the one stored |
| Lww.SameWritesSameTable | http_dmmr_cache/dmmr_db.c:206-237 | two sequences with the same records, in any order and with any repetitions, leave the same table when records of a key have distinct stamps |
| Lww.MergeAllDominates | http_dmmr_cache/dmmr_db.c:206-237 | stamps never decrease, and applying records again changes nothing |
| Packing.PackRoundTrip | http_dmmr_cache/dmmr_db.c:45-82 | every accepted record, tombstone or not, packs into an entry that entry_is_valid accepts and that unpacks to the same record, on either byte order |
| Packing.UnpackInRange | http_dmmr_cache/dmmr_db.c:17-36 | every valid entry unpacks to fields that fit their 64-bit types |
| Packing.PutIsUpdate | http_dmmr_cache/dmmr_db.c:45-82 | storing a packed record changes the table that the store stands for at that key only, and keeps every entry valid |
| Database.Database.constructor | http_dmmr_cache/dmmr_db.c:84-98 | an opened store holds what its file holds, and is valid exactly when every entry is |
| Database.Database.PutRecordLocked | http_dmmr_cache/dmmr_db.c:45-82 | the put fails exactly on a failed allocation or write and then changes nothing |
| Database.Database.ApplyRecord | http_dmmr_cache/dmmr_db.c:185-237 | get, validate, compare, put refine one merge of the table; the result tells applied, ignored and error apart; errors change nothing |
| Database.Database.GetWithMeta | http_dmmr_cache/dmmr_db.c:110-183 | a read returns exactly the visible record, and "not found" for absent keys and tombstones |
| Replication.StepKeepsStamps | http_dmmr_cache/dmmr_db.c:206-237 | no step of any node lowers the stamp that a node holds for a key |
| Replication.StepKeepsUniqueStamps | http_dmmr_cache/dmmr_server.c:411-431 | every step keeps broadcast SETs of a key at pairwise different stamps |
| Replication.StepKeepsHeld | http_dmmr_cache/dmmr_server.c:411-445 | whatever a node stores was set, or is the local or the broadcast tombstone of some delete |
| Replication.RunKeepsInv | http_dmmr_cache/dmmr_server.c:411-445 | all invariants of the protocol hold after every run of any set of nodes with arbitrary clocks |
| Replication.SetStampsNeverRepeat | http_dmmr_cache/dmmr_server.c:411-431 | two different broadcast SETs of one key never share a stamp, even with clocks that move back |
| Replication.DeleteFreeRunsConverge | http_dmmr_cache/dmmr_server.c:411-431 | in runs without deletes all nodes hold identical tables once everything is delivered, whatever the order and repetition |
| Replication.RunsWithDeletesAgree | http_dmmr_cache/dmmr_server.c:432-445 | with deletes, collections and snapshots, delivered nodes agree on a key's visibility and record unless the latest SET falls between the two stamps of a delete |
| Replication.SeesLatestExactly | http_dmmr_cache/dmmr_server.c:432-445 | a delivered node shows the latest SET if and only if no later tombstone came to it by its own delete, another node's broadcast or a snapshot, and none with the SET's own stamp came before the SET; else it shows nothing |
| Replication.AgreementExactly | http_dmmr_cache/dmmr_server.c:432-445 | in every run whose broadcasts are delivered, with deletes, snapshots and repeated stamps, the nodes agree on a key if and only if those that a tombstone hides its latest SET from are all or none: a condition on the tombstones made, sent, copied and arrived first |
| Replication.DeleteCanDiverge | http_dmmr_cache/dmmr_db.c:392-396 | for every key, value and readings around a SET, a run after which one node shows the value and the other nothing, with everything delivered |
| Replication.EqualStampsCanDiverge | http_dmmr_cache/dmmr_server.c:256-264 | a broadcast tombstone that repeats a SET's stamp leaves peers with whichever came first |
| Server.Node.GetArm | http_dmmr_cache/dmmr_server.c:390-410 | a GET answers with exactly the visible value, or with not-found |
| Server.Node.SetArm | http_dmmr_cache/dmmr_server.c:411-431 | a SET merges its record; it answers OK and, if local, broadcasts under the stored stamp exactly when it won |
| Server.Node.DelArm | http_dmmr_cache/dmmr_server.c:432-445 | a DEL merges a tombstone with the first reading and broadcasts one with the second even when the first lost |
| Server.Node.ProcessFrame | http_dmmr_cache/dmmr_server.c:372-449 | requests out of bounds change nothing and get no answer; a local SET or DEL leaves the table and the messages under way of the protocol's step; one from a peer merges and broadcasts nothing |
| Server.Node.Collect | http_dmmr_cache/dmmr_server.c:212-264 | exactly the scanned records whose expiry has passed are deleted, each with one stamp stored and another sent, whatever is stored under the key by then |
| Server.CollectionErasesLaterSet | http_dmmr_cache/dmmr_server.c:212-227 | an unexpired SET made after a delete ends invisible at every node when the old tombstone is collected first |
| KeyOrder.LessIsTotal | http_dmmr_cache/dmmr_db.c:300-390 | the cursor's key order is total |
| KeyOrder.LeastExists | http_dmmr_cache/dmmr_db.c:300-390 | every non-empty set of keys has a least one, the key a cursor step goes to |
| Snapshot.CursorGet | http_dmmr_cache/dmmr_db.c:319-374 | a cursor read returns the least key beyond its position with the record held at that moment, the end exactly when there is none, and failures apart |
| Snapshot.SnapshotForeach | http_dmmr_cache/dmmr_db.c:300-390 | although the lock is dropped between reads, a completed scan hands out every key of the store as opened with a stamp at least as late, and only records held at some moment of the scan |
| Snapshot.RequestSnapshot | http_dmmr_cache/dmmr_cluster.c:1187-1253 | the receiver's table changes by merges only; success means that every SYNC before the END frame was merged |
| Snapshot.Bootstrap | http_dmmr_cache/dmmr_cluster.c:1158-1253 | over a stream cut anywhere, a successful bootstrap dominates the sender's store as of cursor opening, and gains nothing but records the sender held or its own writes |
| Snapshot.ReceiverDominates | http_dmmr_cache/dmmr_cluster.c:1187-1253 | merging a complete scan dominates the scanned table on every key |
| Outbox.StepKeepsInv | http_dmmr_cache/dmmr_cluster.c:606-713 | every locked section keeps the outbox invariant: exact counter, exact history, head still being sent, backoff in range, messages picked and sent only on an authenticated connection |
| Outbox.RunKeepsInv | http_dmmr_cache/dmmr_cluster.c:401-713 | in every interleaving of broadcasts with the sender the counter is the queue length and at most 256, and the backoff stays in 1..30 |
| Outbox.StillHead | http_dmmr_cache/dmmr_cluster.c:655-686 | the message sent unlocked is still the head when the lock is retaken, so unlinking it is a dequeue |
| Outbox.SentInOrderAndNoneLost | http_dmmr_cache/dmmr_cluster.c:606-713 | sent messages are an ascending subsequence of the accepted ones, each once, and every accepted message is sent, expired or queued |
| Outbox.FailureBacksOff | http_dmmr_cache/dmmr_cluster.c:438-471 | every failure keeps the queue and ends the session; a failed connection, proof or send puts the next attempt off by 1 to 30 seconds, a failed greeting by nothing |
| Outbox.QueuedMessageFate | http_dmmr_cache/dmmr_cluster.c:606-713 | in every continuation a queued message keeps its turn: it stays queued behind those before it, and the fate settled at its turn is its own, sent or expired and not both |
| Outbox.RetrySendsSameMessage | http_dmmr_cache/dmmr_cluster.c:688-713 | after a failed send, whatever is broadcast, fails or connects meanwhile, the message stays at the head until its own fate is settled, and if it is sent it is the next to be sent |
| Outbox.SessionWasChecked | http_dmmr_cache/dmmr_cluster.c:484-485 | whenever the sender is at its outbox or sending, a check of that very session read a time before its expiry, and the sender has not left the outbox since |
| Outbox.LatePickExactly | http_dmmr_cache/dmmr_cluster.c:606-653 | a pick is late if and only if there is an unexpired message and the session's expiry lies between the reading of a check of that very session and that of the pick |
| Outbox.WaitOutlivesSession | http_dmmr_cache/dmmr_cluster.c:606-653 | a run with a late pick: the message arrives after the session ran out |
| Sender.PeerConn.Enqueue | http_dmmr_cache/dmmr_cluster.c:1439-1450 | the broadcast section is the machine's step: appended below 256 messages, else dropped |
| Sender.PeerConn.Begin | http_dmmr_cache/dmmr_cluster.c:411-436 | the head of the loop decides between waiting, connecting, proving and draining as the machine does |
| Sender.PeerConn.GreetingSucceeded | http_dmmr_cache/dmmr_cluster.c:472-485 | after the handshake the sender goes to the outbox exactly when the session is valid |
| Sender.PeerConn.Pick | http_dmmr_cache/dmmr_cluster.c:628-653 | drops a head older than 120 seconds, or hands the head out |
| Sender.PeerConn.SendSucceeded | http_dmmr_cache/dmmr_cluster.c:671-687 | removing the sent message leaves exactly the rest of the queue |
| Sender.PeerConn.SendFailed | http_dmmr_cache/dmmr_cluster.c:688-713 | after a failed send the message is still at the head and the connection is given up |
| Sender.Connect | http_dmmr_cache/dmmr_cluster.c:423-480 | connecting and greeting succeed together or leave the sender at the top, and a session already over must be proved again |
| Sender.Drain | http_dmmr_cache/dmmr_cluster.c:606-713 | whatever arrives meanwhile, the old head is dropped when expired, sent once, or kept at the head with the connection closed |
| Sender.PeerSender | http_dmmr_cache/dmmr_cluster.c:401-713 | the whole sender loop, with broadcasts falling anywhere, only ever takes steps of the machine, each section exactly one, so all results about its runs hold of the peer record |
| ClusterId.ComputeFnv | http_dmmr_cache/dmmr_protocol.h:65-72 | the loop computes 32-bit FNV-1a |
| ClusterId.AbsorbAllIsInjective | http_dmmr_cache/dmmr_protocol.h:65-72 | different hash values stay different under any common suffix |
| ClusterId.OneByteIsolates | http_dmmr_cache/dmmr_cluster.c:347-374 | clusters whose names differ in one byte reject each other's frames |
| ClusterId.OwnClusterAccepted | http_dmmr_cache/dmmr_cluster.c:362-374 | a node accepts its own cluster's frames if and only if it has no name or the hash is not 0 |
| ClusterId.SomeClusterRejectsItself | http_dmmr_cache/dmmr_cluster.c:369-372 | the name b0ccrhg hashes to 0 and is rejected |
| Listener.ServedExactly | http_dmmr_cache/dmmr_cluster.c:1322-1393 | with a secret, a record is applied or a snapshot served for a frame if and only if the connection began with a completed handshake and every later frame up to it came before that handshake's expiry, from the right cluster, and was no HELLO |
| Listener.WithoutSecretServedExactly | http_dmmr_cache/dmmr_cluster.c:1331-1389 | without a secret exactly the well-formed records and snapshot requests of the right cluster are served, and nothing else is answered |
| Listener.ChallengedOnce | http_dmmr_cache/dmmr_cluster.c:1339-1368 | a connection answers at most one challenge, so its expiry is never extended |
| Listener.HonestClientAccepted | http_dmmr_cache/dmmr_cluster.c:1340-1364 | an honest client of the same secret and byte order takes exactly the expiry that the listener holds |
| Listener.HonestRecordsApplied | http_dmmr_cache/dmmr_cluster.c:1322-1393 | after the handshake every honest record before the expiry is applied, except exactly in clusters whose name hashes to 0 |
| Listener.Dispatch | http_dmmr_cache/dmmr_cluster.c:1306-1320 | an admitted frame is dispatched by opcode, and a record changes the store by one merge |
| Listener.Examine | http_dmmr_cache/dmmr_cluster.c:1331-1377 | the checks before the switch close, challenge or pass exactly as the session says |
| Listener.HandleConnection | http_dmmr_cache/dmmr_cluster.c:1322-1393 | the loop acts on each frame as the session says, stops early only when it is closed, and leaves the store as the merge of exactly the admitted records |
| Delivery.AnswerIsExpiry | http_dmmr_cache/dmmr_cluster.c:303-345 | a listener answers a challenge only as the first frame, and an answer that the client accepts carries the listener's own expiry |
| Delivery.AppliedExactly | http_dmmr_cache/dmmr_cluster.c:401-713 | in every run of a sender and its listener, over any connections and with frames of old ones read after a reconnect, a message that arrives has the fate sent, and is applied if and only if the listener read times before the sender's expiry for it and all before it on its connection; one picked late is lost unless the listener's clock is behind |
| Delivery.EmptySecretNeverSends | http_dmmr_cache/dmmr_cluster.c:303-306 | in every run of two ends without a secret nothing is sent, because the listener answers no challenge |
| Cluster.RunKeepsInv | http_dmmr_cache/dmmr_cluster.c:1395-1453 | in every run of all nodes, outboxes, connections and listeners: what a node offers to a peer is refused by a full outbox or accepted, every message carries a record that its node broadcast, and what a listener merges has been delivered |
| Cluster.DrainedIsDelivered | http_dmmr_cache/dmmr_cluster.c:401-713 | once every broadcast found a command slot and room in each outbox, the outboxes are empty without expiry, and all that was sent was received in time, every broadcast has reached every node |
| Cluster.DrainedConverges | http_dmmr_cache/dmmr_server.c:411-445 | drained nodes hold identical tables if nothing was deleted, and otherwise agree on a key exactly as AgreementExactly says |
| Cluster.WireSetupIsSound | http_dmmr_cache/dmmr_cluster.c:138-164 | links made of the handshake and the frame layout meet what these results ask of links, for nodes of any byte orders with a secret in a cluster whose name does not hash to 0 |
| Sha256.PaddingIsLeast | http_dmmr_cache/sha256.c:98-109 | the number of zero bytes is the least that satisfies the congruence of section 5.1.1 of FIPS 180-4 |
| Sha256.PadIsBlocks | http_dmmr_cache/sha256.c:98-109 | a padded message is a whole number of blocks |
| Sha256Stream.Context.constructor | http_dmmr_cache/sha256.c:73-84 | a new context stands for the empty message |
| Sha256Stream.Context.Transform | http_dmmr_cache/sha256.c:33-71 | the in-place rounds compute the compression of section 6.2.2 of FIPS 180-4 |
| Sha256Stream.Context.Update | http_dmmr_cache/sha256.c:86-96 | feeding bytes appends them to the message that the context stands for |
| Sha256Stream.Context.PadTail | http_dmmr_cache/sha256.c:98-109 | in-place padding, with one or two blocks, writes the padding of section 5.1.1 of FIPS 180-4 |
| Sha256Stream.Context.Final | http_dmmr_cache/sha256.c:98-132 | the digest written is that of the padded message, and nothing beyond its 32 bytes changes |
| Sha256Stream.PadTwoBlocks | http_dmmr_cache/sha256.c:104-109 | the case in which the length no longer fits in the last block yields the defined padding |
| Hmac.HashPieces | http_dmmr_cache/sha256.c:86-132 | however a message under 2^64 bits is cut into update calls, the digest is that of the whole message |
| Sha256.LoadIsPositional | http_dmmr_cache/sha256.c:33-43 | the shifts read four bytes as a big-endian number |
| Sha256.WordIsItsParts | http_dmmr_cache/sha256.c:122-131 | the bytes written for a word are its big-endian digits |
| Hmac.Sha256Digest | http_dmmr_cache/sha256.c:73-132 | with the constants and functions of the standard the context computes SHA-256 |
| Hmac.ComputeHmac | http_dmmr_cache/dmmr_cluster.c:233-269 | for every key length the implementation computes the definition in section 2 of RFC 2104 |
| Hmac.HmacDigest | http_dmmr_cache/dmmr_cluster.c:233-269 | so what the handshake compares is HMAC-SHA256 |
| Handshake.ClientComparesTexts | http_dmmr_cache/dmmr_cluster.c:303-345 | the client accepts exactly when its digest of its text equals the listener's digest of the listener's text, and then holds the listener's expiry |
| Handshake.TextsAgreeExactly | http_dmmr_cache/dmmr_cluster.c:290-301 | the two 24-byte texts agree if and only if the byte orders do or the nonce is a byte palindrome |
| Handshake.HonestPeersAuthenticate | http_dmmr_cache/dmmr_cluster.c:1340-1364 | with one secret and byte order the handshake completes for all nonces and both ends hold the same expiry |
| Handshake.HandshakeSucceedsExactly | http_dmmr_cache/dmmr_cluster.c:303-345 | with a digest that tells the texts apart, it completes if and only if the byte orders agree or the nonce is a palindrome |
| Bytes.HtonllImage | http_dmmr_cache/dmmr_protocol.h:95-99 | htonll stores the big-endian image on either byte order |
| Bytes.NtohllOfImage | http_dmmr_cache/dmmr_protocol.h:101-103 | ntohll of a received image restores the value on either byte order |
| Bytes.LoadOfStore | http_dmmr_cache/dmmr_protocol.h:94-103 | loading a stored integer restores it, in both byte orders |
| Wire.DecodeOfEncode | http_dmmr_cache/dmmr_protocol.h:51-63 | decoding an in-bounds frame followed by anything returns the frame and exactly what followed |
| Stream.HostHeaderIsHeader | http_dmmr_cache/dmmr_cluster.c:138-149 | hosts of either byte order lay out the same header bytes |
| Stream.Socket.SendFull | http_dmmr_cache/dmmr_net.c:20-31 | partial and interrupted sends put the whole buffer into the stream in order, or report failure |
| Stream.Socket.RecvFull | http_dmmr_cache/dmmr_net.c:6-18 | partial and interrupted receives take exactly the first bytes of the stream, fewer only at its end |
| Stream.SendFrame | http_dmmr_cache/dmmr_cluster.c:124-164 | a frame is sent whole as its encoding, and refused exactly when out of bounds |
| Stream.RecvFrame | http_dmmr_cache/dmmr_cluster.c:166-229 | over every fragmentation it returns what decoding the stream returns and takes exactly those bytes |
| Stream.Relay | http_dmmr_cache/dmmr_cluster.c:124-229 | any sequence of in-bounds frames arrives unchanged, between any byte orders, under every fragmentation with interrupts, with no byte left over |
| PeerList.ParseOfPayload | http_dmmr_cache/dmmr_cluster.c:1052-1106 | parsing a written list returns the endpoints other than the reader, in order |
| PeerList.OnlyWholePayloads | http_dmmr_cache/dmmr_cluster.c:1052-1106 | no proper prefix and no extension of a written list is accepted |
| PeerList.AcceptedIsPayload | http_dmmr_cache/dmmr_cluster.c:1052-1106 | whatever is accepted is the writing of some list, and the result is its first 128 other endpoints |
| PeerList.TotalLength | http_dmmr_cache/dmmr_cluster.c:1006-1017 | the length computed beforehand is that of the payload |
| PeerList.WritePeerList | http_dmmr_cache/dmmr_cluster.c:1002-1050 | the bytes written are the payload, the final offset is the computed length, and it fits in a frame |
| PeerList.ReadPeerList | http_dmmr_cache/dmmr_cluster.c:1052-1106 | the offset-driven loop is the parser |
| PeerList.Exchange | http_dmmr_cache/dmmr_cluster.c:1002-1106 | a list written on a host of one byte order and read on another yields exactly the other endpoints in order |
| RateLimit.ExpireForgetsStale | nginx-dmmr-module-c/ngx_http_dmmr_rate_limit.c:94-111 | expiry from the head of a queue not sorted by window start forgets only windows that have passed, and changes none |
| RateLimit.AgreesExactly | nginx-dmmr-module-c/ngx_http_dmmr_rate_limit.c:230-278 | for every request of every run, every clock and every outcome of allocations: the decision is that of a limiter that never forgets if and only if an entry can be had and the limiter's window of the client, or having none, leaves room exactly when the other's does |
| RateLimit.DroppedExactly | nginx-dmmr-module-c/ngx_http_dmmr_rate_limit.c:253-268 | however a client was dropped, the decision on its next request is the reference's if and only if an entry can be had and the reference's window at the drop has passed or is not full; that is the lost window if none was missed before |
| RateLimit.PartedExactly | nginx-dmmr-module-c/ngx_http_dmmr_rate_limit.c:232-251 | once the two windows of a client differ, and while both last, the decision after q more of its requests is the reference's if and only if both counts with q added are under the limit or neither is |
| RateLimit.ReadmittedExactly | nginx-dmmr-module-c/ngx_http_dmmr_rate_limit.c:253-276 | for a client readmitted while the reference's window with n requests had not passed, after q more: if and only if n + 1 + q is under the limit or 1 + q is not |
| RateLimit.DropsExactly | nginx-dmmr-module-c/ngx_http_dmmr_rate_limit.c:94-111 | in every run a request drops the client at a place of the queue if and only if it comes from an unknown client, everyone before that place has passed, and that client has too or the first allocation fails |
| RateLimit.DropDecides | nginx-dmmr-module-c/ngx_http_dmmr_rate_limit.c:94-111 | from the queue and the request that drops a client to its next request: the decision is the reference's if and only if an entry can be had and the reference's window at the drop leaves room |
| RateLimit.ElapsedExactly | nginx-dmmr-module-c/ngx_http_dmmr_rate_limit.c:104-106 | the unsigned difference takes a window for passed exactly when it lies more than a window back, or ahead by less than the rest of the counter's range |
| RateLimit.AgreesUnlessEvicted | nginx-dmmr-module-c/ngx_http_dmmr_rate_limit.c:230-278 | with a clock that does not go back, a client neither evicted by force nor refused an entry before gets the reference's decision if and only if an entry can be had now |
| RateLimit.ForgettingIsInvisible | nginx-dmmr-module-c/ngx_http_dmmr_rate_limit.c:230-278 | with such a clock and no failed allocation every decision of every run is the reference's |
| RateLimit.EpochBound | nginx-dmmr-module-c/ngx_http_dmmr_rate_limit.c:232-251 | with a clock that does not go back, windows of a client started at one time yield at most the limit, and once more for each forced eviction of the client |
| RateLimit.SpanBound | nginx-dmmr-module-c/ngx_http_dmmr_rate_limit.c:232-276 | with such a clock a client gets at most twice the limit in any closed span no longer than the window, and once more for each forced eviction of it in the span |
| RateLimit.EvictionIsVisible | nginx-dmmr-module-c/ngx_http_dmmr_rate_limit.c:253-268 | a forced eviction admits a request that the limiter should refuse |
| RateLimit.BackwardClockIsVisible | nginx-dmmr-module-c/ngx_http_dmmr_rate_limit.c:234-236 | so does a clock that steps back under unsigned subtraction |
| RateZone.CompareIsOrder | nginx-dmmr-module-c/ngx_http_dmmr_rate_limit.c:27-62 | comparison by hash, length and bytes is antisymmetric and 0 only for the same client, whatever the hash |
| RateZone.NoClientTwice | nginx-dmmr-module-c/ngx_http_dmmr_rate_limit.c:27-62 | a zone that satisfies the invariant has no client in two entries |
| RateZone.LinkPlaces | nginx-dmmr-module-c/ngx_http_dmmr_rate_limit.c:27-62 | the insertion descent links a new client exactly where it belongs in order |
| RateZone.Zone.constructor | nginx-dmmr-module-c/ngx_http_dmmr_rate_limit.c:113-133 | a new zone is valid and knows no client |
| RateZone.Zone.Lookup | nginx-dmmr-module-c/ngx_http_dmmr_rate_limit.c:64-92 | the descent finds an entry exactly when the client has one |
| RateZone.Zone.RemoveOldest | nginx-dmmr-module-c/ngx_http_dmmr_rate_limit.c:101-110 | removing the head of the queue keeps tree, queue and slab equal as sets and the tree ordered |
| RateZone.Zone.Insert | nginx-dmmr-module-c/ngx_http_dmmr_rate_limit.c:269-276 | a new entry joins tree and queue once each, and the order is kept |
| RateZone.Zone.Touch | nginx-dmmr-module-c/ngx_http_dmmr_rate_limit.c:233-243 | an entry moves to the tail of the queue and no other changes |
| RateZone.Zone.ExpireOld | nginx-dmmr-module-c/ngx_http_dmmr_rate_limit.c:94-111 | the expiry loop is the rule's expiry |
| RateZone.Zone.Limit | nginx-dmmr-module-c/ngx_http_dmmr_rate_limit.c:230-278 | one request keeps the zone's invariant and decides as the rule does, including forced eviction and failure |
| RateZone.Gate | nginx-dmmr-module-c/ngx_http_dmmr_rate_limit.c:192-279 | defaults, refused names and the mapping of decisions to answers |
| RateZone.ServeAll | nginx-dmmr-module-c/ngx_http_dmmr_rate_limit.c:192-279 | whole runs on a fresh zone decide as the rule's runs do, for any hash and any order-keeping balancing |
| HeapPool.ChainIsDistinct | http_dmmr_cache/dmmr_heap_pool.c:48-92 | a free list that ends holds no slot twice |
| HeapPool.FreeKeepsChainExactly | http_dmmr_cache/dmmr_heap_pool.c:71-92 | freeing a slot leaves a list that ends if and only if the slot was not free |
| HeapPool.Init | http_dmmr_cache/dmmr_heap_pool.c:10-36 | a pool is made exactly for objects of at least 4 bytes, a positive capacity and enough memory; all its slots are free |
| HeapPool.HeapPool.Alloc | http_dmmr_cache/dmmr_heap_pool.c:48-68 | never a live slot; fails exactly when all slots are live; the live set grows by the slot |
| HeapPool.HeapPool.Scribble | http_dmmr_cache/dmmr_heap_pool.c:6-9 | the owner of a live slot may overwrite the embedded link without harm |
| HeapPool.HeapPool.Free | http_dmmr_cache/dmmr_heap_pool.c:71-92 | a live slot returns to the head of the list; pointers outside the buffer or inside a slot change nothing |
| HeapPool.HeapPool.Used | http_dmmr_cache/dmmr_heap_pool.c:95-117 | the walk ends and returns the number of live slots |
| PayloadPool.Pool.AddChunk | http_dmmr_cache/dmmr_pool.c:17-25 | adds 1024 free, empty entries, each listed once, or nothing |
| PayloadPool.Pool.Get | http_dmmr_cache/dmmr_pool.c:27-50 | a granted buffer was free, is as large as asked for, carries no earlier bytes, and no other buffer changes; the refusals |
| PayloadPool.Pool.Release | http_dmmr_cache/dmmr_pool.c:52-65 | the buffer comes back wiped and at most 64 KiB, and is listed once |
| PayloadPool.ReleaseListedExactly | http_dmmr_cache/dmmr_pool.c:52-65 | a release keeps the free list exact if and only if the buffer was in use |
| ControlQueue.StepKeepsSlots | http_dmmr_cache/dmmr_server.c:124-134 | every step keeps each of the 256 slots free, queued once or held by one thread |
| ControlQueue.StepKeepsFaithful | http_dmmr_cache/dmmr_server.c:339-370 | no producer's writing reaches a queued command, and the counter stays the queue length |
| ControlQueue.RunKeepsInv | http_dmmr_cache/dmmr_server.c:270-370 | in every interleaving of all threads no slot is lost, shared or freed twice, the counter is exact and at most 256, and the commands taken are the first ones queued, in order and unaltered |
| ControlQueue.Queue.AllocCmd | http_dmmr_cache/dmmr_server.c:124-126 | the slot is the thread's alone, and none is given only when all 256 are queued or held |
| ControlQueue.Queue.FillCmd | http_dmmr_cache/dmmr_server.c:345-364 | filling a held slot is a step of the queue |
| ControlQueue.Queue.Append | http_dmmr_cache/dmmr_server.c:365-369 | appending is a step of the queue |
| ControlQueue.Queue.Dequeue | http_dmmr_cache/dmmr_server.c:270-316 | a worker takes the oldest command only above 50, the control thread whenever there is one |
| ControlQueue.Queue.Release | http_dmmr_cache/dmmr_server.c:127-134 | the slot returns to the pool, whose demand that it be live is met in every run |

## Left out

- Sockets, name resolution, select, accept, signals, daemon start-up and argument parsing: a
  connection is a byte stream with scripted call results.
- Berkeley DB internals: the store is an ordered map with atomic get and put, whose keys are
  never removed, and a cursor in key order.
- Red-black balancing, the slab allocator, the shared mutex and crc32 of nginx: balancing is any
  function that keeps the in-order sequence, allocation may fail, the hash is any function.
- In-place rewiring of tree nodes and of tail-queue links: the tree is a value that the zone
  replaces, and queues are sequences; aliasing of list nodes is not captured.
- The eight chaining words of SHA-256 are one record rather than an array.
- Cryptographic strength and the randomness of nonces: digests are compared for equality only.
- The memory model: locked sections are atomic steps, and unlocked reads of the session fields by
  the one thread that writes them are part of a step.
- Peer discovery, the reaper, connection shutdown and the bookkeeping of a HELLO: timing and
  table maintenance.
- The expiry scan's cursor over the store: only what it selects and what the collector then does
  is modelled.
- db_tombstone_if_match: nothing in the repository calls it.
- The legacy request path: it only reads, by the store call of Database.GetWithMeta, so no table
  depends on it; the format of its answers is not modelled.
- Response headers, statistics, seed parsing, string helpers, the router and the remaining nginx
  modules: they format, count or forward, and no record, session or window depends on them.
- Clocks of the replication protocol and of the sender are natural numbers that do not wrap.
- Replication.DeleteFreeRunsConverge: takes delivery of every broadcast as its hypothesis, because
  outboxes drop messages at 256 and after 120 seconds; Cluster.DrainedIsDelivered gives it from
  outboxes that drained without either.
- Cluster.DrainedIsDelivered: a sufficient condition on a run, and not that a run reaches it: nothing
  in the code bounds how long a peer stays unreachable.
- Cluster.RunKeepsInv: the members of the cluster are fixed, and a free command slot is a parameter of
  each request; ControlQueue says when there is none.
- Handshake.HandshakeSucceedsExactly: takes as a hypothesis that the digest tells the two texts
  apart, because collisions of SHA-256 cannot be excluded.
- Stream.RecvFrame: does not model a failed allocation of the payload.
- PeerList.WritePeerList: does not model a failed allocation of the payload.
- PeerList.ReadPeerList: does not model the peers added to the table while parsing.
- Snapshot.RequestSnapshot: frames are values and not bytes, and the handshake before them is that
  of Handshake.
- Snapshot.Bootstrap: the same.
- Listener.Dispatch: records that a snapshot is due; what a snapshot then sends is in Snapshot.
- Delivery.AppliedExactly: speaks of messages that arrive; those under way when a connection ends
  are lost with the fate sent.
- RateZone.Zone.RemoveOldest: deletion from the tree keeps its in-order sequence and not its shape.
- Sender.PeerSender: ties the record to the machine by the trace of sections and not to the given
  turns, and does not state that a message is delivered in time, because nothing in the code bounds
  how long a peer stays unreachable.
