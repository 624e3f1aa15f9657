# Verified models of GameNetworkingSockets

Dafny models of the parts of GameNetworkingSockets that are hardest to get right, with proofs of
what they promise. Each file models one component in the form the code has: objects that update
their fields are classes, scanning and copying loops are loops over arrays and texts, and each
such method is proved against a function or predicate that says what it is for. The proofs about
those functions are lemmas beside them.

| file | component |
|---|---|
| `ReceiveWindow.dfy`, `LinkSpec.dfy`, `LinkStats.dfy` | expansion of 16-bit packet numbers, duplicate rejection over two paths, loss counters, interval quality |
| `Curve25519.dfy` | the fast X25519 ladder and inversion, against section 5 of RFC 7748 |
| `CertAuth.dfy`, `CertStore.dfy` | scopes of authority and trust in a graph of certificates, with the hardcoded root key |
| `Base64.dfy`, `Pem.dfy`, `OpenSsh.dfy`, `KeyPair.dfy` | Base64 (section 4 of RFC 4648), PEM text, the OpenSSH key container, and the signing key written with them |
| `Scheduler.dfy` | the priority queue of thinkers and the loop that serves them |
| `Reservoir.dfy` | the random subset behind percentiles |
| `TokenBucket.dfy` | the rate limiter |
| `VarInt.dfy` | variable-length integers |
| `Signaling.dfy`, `SignalRun.dfy`, `SignalSession.dfy` | the trivial signaling client and server, runs of a client, and what a peer hears |
| `Wrappers.dfy`, `Arithmetic.dfy` | shared types and arithmetic |

`dafny verify dfyconfig.toml` checks everything.

Parameters stand for what the code gets from outside: the clock, results of socket calls, draws
of random numbers, lock availability and callbacks (`Scheduler.Round`), and the cryptographic
and protobuf primitives (`CertTrust.Crypto`, `KeyPair.Derivation`). The queue of the scheduler is
the binary heap of src/public/tier1/utlpriorityqueue.h, lines 103 to 237. Bignum operations in the
ladder are arithmetic modulo 2^255 - 19. What `RecursiveEvaluateKeyTrust` and
`TrackProcessSequencedPacket` assert about the state they keep is proved, save for what concerns
status messages and clocks.

Where a promise fails, the model keeps the code as it is and says exactly when:

- Two item lists that share just the reserved value intersect to "all items"
  (`CertAuth.ReservedItemWidensIntersection`). `CertAuth.HasItemOfIntersection` shows that the
  intersection law fails in this case only, and `CertTrust.ChainScopeExactly` that the scope of a
  key is what its whole chain grants iff no link of the chain widens in this way.
  `CertTrust.WidensByCerts` reads the same off the certificates alone, and
  `CertTrust.WideningStore` is a store in which it happens.
- A revocation that reaches an empty store keeps the hardcoded root out of it, so that nothing is
  trusted until it is reset (`CertStore.RevokeFirst`). `CertStore.RootAfterRun` says when a store has the root
  after any calls, and an evaluation leaves some key trusted iff it has
  (`CertStore.CertStore.EnsureTrustValid`, `CertStore.TrustNeedsRoot`).
- Losses are exact iff no recorded packet comes late to an interval that counts no loss, or skips
  100 or more numbers while others are missing; otherwise more are reported than there are
  (`LinkSpec.LossesExactly`; a comment at steamnetworking_statsutils.h:497 concedes as much).
  `LinkSpec.LateAfterInterval` is a run in which this happens.
- `Base64EncodeMaxOutput` is not the size of the text when there is no data but a line break,
  save for breaks whose length is a multiple of 2^29 where str_size has 64 bits
  (`Base64Spec.MaxOutputOfNothing`), and of 2^31 where it has 32, as strtools.h:36 has it for
  64-bit Windows (`Base64Spec.NarrowSizeOfNothing`). With data it is, modulo 2^32, for either
  width (`Base64Spec.SizeIsExact`). Elsewhere sizes are taken to have 64 bits.
- `Base64Encode` given a buffer of size 0 writes its NUL to the character that follows
  (`Base64.Base64Encode`).
- The signaling client drops the oldest entry it has queued when more than 32 wait, which may be
  the greeting. Everything queued on a connection goes out in order iff no signal finds more than
  32 waiting (`SignalRun.LostIffBackedUp`; `SignalRun.AllAccounted` says which entries go
  missing). 33 signals before the first write are enough to lose the greeting
  (`SignalRun.GreetingPushedOut`); the server then takes a signal for the name of the client, and
  if names and payloads are not empty nobody hears anything on that connection
  (`SignalSession.NothingHeard`). `SignalSession.EndToEnd` says exactly when a peer hears all the
  payloads for it.
- The signaling server goes on after failing to read an identity and registers the closed
  connection under what it got; the model does the same (`SignalServer.Server.ServeEvent`).

## Model

| member | source | states |
|---|---|---|
| `ReceiveWindow.BitsOfSetBit` | GameNetworkingSockets/src/steamnetworkingsockets/steamnetworking_statsutils.h:1361-1364 | or-ing in one bit of a 64-bit word adds exactly that slot to the set of slots the word stands for |
| `ReceiveWindow.InitWindow` | GameNetworkingSockets/src/steamnetworkingsockets/steamnetworkingsockets_stats.cpp:432-441 | the two words written on a re-base stand for a window in which everything up to the new maximum counts as seen and nothing above it does |
| `ReceiveWindow.MarkInWindow` | GameNetworkingSockets/src/steamnetworkingsockets/steamnetworking_statsutils.h:1361-1364 | setting the bit of n in the right word turns the window of a set into the window of that set with n added, and changes no other number's bit |
| `ReceiveWindow.SlideWindow` | GameNetworkingSockets/src/steamnetworkingsockets/steamnetworking_statsutils.h:1337-1360 | shifting by one block, or clearing both words after a longer jump, gives the window of the same set under the new maximum: no number in the new window is lost or invented |
| `ReceiveWindow.WindowBit` | GameNetworkingSockets/src/steamnetworkingsockets/steamnetworking_statsutils.h:595-603 | in two words that stand for a set, bit k is set iff k is at most the maximum and was processed or lies below the last re-base |
| `ReceiveWindow.ExpandRecovers` | GameNetworkingSockets/src/steamnetworkingsockets/steamnetworking_statsutils.h:1265-1266 | expanding the low 16 bits of a sender's number gives that number iff it lies in [max - 2^15, max + 2^15) |
| `ReceiveWindow.MissingAfterArrival` | GameNetworkingSockets/src/steamnetworkingsockets/steamnetworking_statsutils.h:1387-1401 | a number at or below the maximum that arrives late lowers the count of missing numbers by one |
| `ReceiveWindow.MissingAfterGap` | GameNetworkingSockets/src/steamnetworkingsockets/steamnetworking_statsutils.h:1402-1423 | a number that advances the maximum by a gap raises the count of missing numbers by the gap less one |
| `ReceiveWindow.MissingCounts` | GameNetworkingSockets/src/steamnetworkingsockets/steamnetworking_statsutils.h:490-499 | missing numbers are counted as the size of the set of numbers in the range that were not processed |
| `LinkStats.LinkStatsTracker.constructor` | GameNetworkingSockets/src/steamnetworkingsockets/steamnetworkingsockets_stats.cpp:249-320 | a fresh tracker is valid: nothing processed, everything up to 0 marked |
| `LinkStats.LinkStatsTracker.InitMaxRecvPktNum` | GameNetworkingSockets/src/steamnetworkingsockets/steamnetworkingsockets_stats.cpp:429-447 | for any number that is not negative, above or below what has been received, all masks stand for everything up to it; what had been processed above it is forgotten |
| `LinkStats.LinkStatsTracker.MarkedBit` | GameNetworkingSockets/src/steamnetworkingsockets/steamnetworking_statsutils.h:590-603 | in every valid state, for each k of the window, bit k of the combined mask (of a path's mask) is set iff k is at most the maximum and k was processed (by that path) or is at most the last re-base |
| `LinkStats.LinkStatsTracker.CombinedMaskIsUnion` | GameNetworkingSockets/src/steamnetworkingsockets/steamnetworking_statsutils.h:1363-1364 | bit for bit the combined mask is the union of the two path masks |
| `LinkStats.LinkStatsTracker.ExpandWirePacketNumberAndCheck` | GameNetworkingSockets/src/steamnetworkingsockets/steamnetworking_statsutils.h:1263-1317 | with masks and counters it does exactly what the check on sets of numbers does, in every branch |
| `LinkSpec.CheckKeeps` | GameNetworkingSockets/src/steamnetworkingsockets/steamnetworking_statsutils.h:1263-1317 | the check lets a packet through iff its expanded number is fresh, that is above the maximum or in the window, above the last re-base and never processed; it touches reception counters and path history only, and losses stay as exact as they were |
| `LinkStats.LinkStatsTracker.ExpandWirePacketNumberAndCheckMaybeInitialize` | GameNetworkingSockets/src/steamnetworkingsockets/steamnetworking_statsutils.h:1319-1326 | the check after a re-base to the number before the one received, which is done iff the maximum is 0 |
| `LinkStats.LinkStatsTracker.MarkReceived` | GameNetworkingSockets/src/steamnetworkingsockets/steamnetworking_statsutils.h:1336-1364 | after a fresh number all three masks stand for the sets with it added, whatever block it falls in; the asserts on lines 1339 and 1362 hold |
| `LinkStats.LinkStatsTracker.TrackProcessSequencedPacket` | GameNetworkingSockets/src/steamnetworkingsockets/steamnetworking_statsutils.h:1328-1424 | for any number the check has passed, masks and counters change exactly as tracking on sets says; the asserts on lines 1391 and 1396 hold, and so does the one that a late packet was counted as dropped |
| `LinkSpec.TrackKeeps` | GameNetworkingSockets/src/steamnetworkingsockets/steamnetworking_statsutils.h:1366-1424 | tracking adds the number to those processed, keeps the state valid, and reports losses beyond those that are real in exactly two cases: one for a late packet when the interval counts none, and all that is missing when a gap of 100 or more re-bases |
| `LinkSpec.CountersOf` | GameNetworkingSockets/src/steamnetworkingsockets/steamnetworking_statsutils.h:1263-1424 | for each packet, by its expanded number alone, which of the counters for reception, lurch, duplicate, second arrival, disorder, loss and order change, and by how much |
| `LinkSpec.SetsOf` | GameNetworkingSockets/src/steamnetworkingsockets/steamnetworking_statsutils.h:1263-1424 | for each packet, likewise, the new maximum and re-base, what counts as processed and as seen on each path, and whether it is accepted |
| `LinkSpec.TotalsConserved` | GameNetworkingSockets/src/steamnetworkingsockets/steamnetworkingsockets_stats.cpp:322-331 | an interval that ends moves its losses, disorder, duplicates and lurches to the totals and loses none |
| `LinkStats.LinkStatsTracker.InternalProcessSequencedPacketCount` | GameNetworkingSockets/src/steamnetworkingsockets/steamnetworking_statsutils.h:983-988 | counting a sequenced packet touches only the reception counters |
| `LinkStats.LinkStatsTracker.StartNextInterval` | GameNetworkingSockets/src/steamnetworkingsockets/steamnetworkingsockets_stats.cpp:322-331 | losses and anomalies move to the accumulators, so the total of lost packets does not change |
| `LinkStats.LinkStatsTracker.UpdateInterval` | GameNetworkingSockets/src/steamnetworkingsockets/steamnetworkingsockets_stats.cpp:333-427 | gives the sample of the interval, if one is due, told as above, and rolls its counters over; losses reported do not change |
| `LinkSpec.SampleMeaning` | GameNetworkingSockets/src/steamnetworkingsockets/steamnetworkingsockets_stats.cpp:333-388 | with more than 5 packets in more than 4.5 seconds the sample is 100 iff nothing was bad, 99 iff something was and at least 99 percent were good, 1 iff less than 2 percent were, and otherwise the good packets in percent of those sent, rounded down; with fewer it is 0 for a dead link and absent otherwise |
| `LinkStats.LinkStatsTracker.ConsumeSendPacketNumberAndGetWireFmt` | GameNetworkingSockets/src/steamnetworkingsockets/steamnetworking_statsutils.h:566-570 | the wire value is the low 16 bits of the number taken, and numbers are taken consecutively |
| `LinkStats.LinkStatsTracker.SetPeerProtocol` | GameNetworkingSockets/src/steamnetworkingsockets/clientlib/steamnetworkingsockets_connections.cpp:1523-1534 | from protocol 10 on the handshake counts as packet 1 each way, unless numbers have gone out or come in before |
| `LinkSpec.HandshakeIsPacketOne` | GameNetworkingSockets/src/steamnetworkingsockets/clientlib/steamnetworkingsockets_connections.cpp:1523-1534 | on a fresh link a handshake of protocol 10 or later takes the place of packet 1, which is then rejected, and packet 2 is the next in order; before protocol 10 packet 1 is |
| `LinkStats.LinkStatsTracker.Receive` | GameNetworkingSockets/src/steamnetworkingsockets/steamnetworking_statsutils.h:1263-1424 | one packet, optional adoption, check and record: state and outcome are exactly those of the step on sets |
| `LinkStats.Run` | GameNetworkingSockets/src/steamnetworkingsockets/steamnetworking_statsutils.h:1263-1424 | through any sequence of packets on either path, interval ends and handshakes, the tracker is in the state and gives the outcomes of the run on sets that the lemmas below are about |
| `LinkSpec.StepKeeps` | GameNetworkingSockets/src/steamnetworkingsockets/steamnetworking_statsutils.h:1263-1424 | every event keeps the state valid, accepts only a positive number never processed before, and moves reported losses away from real ones exactly as in the two cases above |
| `LinkSpec.ProcessedIsAccepted` | GameNetworkingSockets/src/steamnetworkingsockets/steamnetworking_statsutils.h:1263-1424 | in any run the numbers that count as processed are exactly those accepted so far |
| `LinkSpec.AcceptedOnce` | GameNetworkingSockets/src/steamnetworkingsockets/steamnetworking_statsutils.h:1263-1424 | in any run no number is accepted twice, and none that is not positive |
| `LinkSpec.TrueNumberRecovered` | GameNetworkingSockets/src/steamnetworkingsockets/steamnetworking_statsutils.h:1263-1317 | at any point of a run, a packet whose true number is within 2^15 of the maximum is accepted, and under that number, iff it is authentic and the number is fresh; otherwise it is rejected |
| `LinkSpec.FirstNumberAdopted` | GameNetworkingSockets/src/steamnetworkingsockets/steamnetworking_statsutils.h:1319-1326 | on a link that adopts its first number an authentic packet is accepted as that number, 2^16 standing for 0 |
| `LinkSpec.LossesAndSlips` | GameNetworkingSockets/src/steamnetworkingsockets/steamnetworking_statsutils.h:1366-1424 | after any run the losses reported are the numbers that never arrived and the slips on the way |
| `LinkSpec.LossesExactly` | GameNetworkingSockets/src/steamnetworkingsockets/steamnetworking_statsutils.h:490-499 | losses are never under-reported, and over any run they are exactly the numbers that never arrived iff no recorded packet was late to an interval without losses or skipped 100 or more numbers while others were missing |
| `LinkSpec.LateAfterInterval` | GameNetworkingSockets/src/steamnetworkingsockets/steamnetworking_statsutils.h:490-499 | packets 1 and 3, the end of the interval, then packet 2: one loss stays reported although every number has arrived |
| `LinkSpec.AssertsHold` | GameNetworkingSockets/src/steamnetworkingsockets/steamnetworkingsockets_stats.cpp:475-501 | at any point of a run a packet that is recorded late finds a loss reported and is at most 128 behind, and anomalies never outnumber receptions |
| `LinkSpec.QualityRange` | GameNetworkingSockets/src/steamnetworkingsockets/steamnetworkingsockets_stats.cpp:363-369 | with no more anomalies than receptions and something bad, the quality is between 0 and 99, and 99 needs a bad share of at most one percent |
| `Field25519.PIsTwoTo255Minus19` | GameNetworkingSockets/src/external/curve25519-donna/curve25519-donna-common.h:26-28 | the modulus is 2^255 - 19 |
| `Rfc7748.SquareTimesIsPower` | GameNetworkingSockets/src/external/curve25519-donna/curve25519-donna-common.h:5-24 | squaring n times raises to the power 2^n |
| `Rfc7748.StepDoubles` | GameNetworkingSockets/src/external/curve25519-donna/curve25519-donna-scalarmult-base.h:24-41 | a step doubles its first point by the formula of the curve y^2 = x^3 + 486662 x^2 + x: (x^2 - z^2)^2 and 4xz(x^2 + 486662xz + z^2) |
| `Rfc7748.StepAdds` | GameNetworkingSockets/src/external/curve25519-donna/curve25519-donna-scalarmult-base.h:24-41 | and replaces the second by the sum: 4(x2 x3 - z2 z3)^2 and 4 x1 (x2 z3 - z2 x3)^2 |
| `Rfc7748.PairOnCurve` | GameNetworkingSockets/src/external/curve25519-donna/curve25519-donna-scalarmult-base.h:22-47 | in the ladder without swaps each bit, from the top, says by those formulas which point is doubled and which becomes the sum |
| `Rfc7748.LoopIsPair` | GameNetworkingSockets/src/external/curve25519-donna/curve25519-donna-scalarmult-base.h:22-47 | the conditional swaps of the loop come to that ladder |
| `Donna.PowTwo5mTwo0ToTwo250mTwo0` | GameNetworkingSockets/src/external/curve25519-donna/curve25519-donna-common.h:1-24 | the chain turns b^(2^5 - 1) into b^(2^250 - 1) |
| `Donna.Recip` | GameNetworkingSockets/src/external/curve25519-donna/curve25519-donna-common.h:26-42 | the addition chain returns z^(2^255 - 21), the power that section 5 of RFC 7748 calls for |
| `Donna.DonnaStep` | GameNetworkingSockets/src/external/curve25519-donna/curve25519-donna-scalarmult-base.h:24-41 | the sums, products and squares of one pass of the loop body, in the order in which the code forms them, are the ladder step of RFC 7748 |
| `Donna.BitOfByte` | GameNetworkingSockets/src/external/curve25519-donna/curve25519-donna-scalarmult-base.h:43 | the bit read from byte i / 8 is bit i of the little-endian scalar |
| `Donna.ClampClamps` | GameNetworkingSockets/src/external/curve25519-donna/curve25519.c:16-19 | clearing and setting bits of the first and last byte gives decodeScalar25519, and the result has low bits 0 and bit 254 set |
| `Donna.ClampBits` | GameNetworkingSockets/src/external/curve25519-donna/curve25519.c:16-19 | bit by bit: bits 0, 1, 2 and 255 of the clamped scalar are 0, bit 254 is 1, and all others are those of the secret |
| `Donna.CoordinateIs` | GameNetworkingSockets/src/external/curve25519-donna/curve25519-donna-scalarmult-base.h:15-15 | the coordinate is the low 255 bits of the point, modulo p |
| `Donna.PreSwapped` | GameNetworkingSockets/src/external/curve25519-donna/curve25519-donna-scalarmult-base.h:10-20 | starting with the points exchanged and bit 254 already taken is where the ladder of RFC 7748 is after its first step |
| `Donna.DonnaDouble` | GameNetworkingSockets/src/external/curve25519-donna/curve25519-donna-scalarmult-base.h:49-60 | the doubling pass computes the doubling half of the ladder step, so that three of them do for the three zero bits |
| `Donna.ScalarMultDonna` | GameNetworkingSockets/src/external/curve25519-donna/curve25519-donna-scalarmult-base.h:9-65 | for every clamped scalar and every point the fast ladder and inversion return x_2 * z_2^(p - 2) of the ladder in section 5 of RFC 7748 |
| `Donna.Curve25519Donna` | GameNetworkingSockets/src/external/curve25519-donna/curve25519.c:11-21 | for every secret and base point of 32 bytes the result is X25519 of RFC 7748 |
| `Donna.X25519Is` | GameNetworkingSockets/src/external/curve25519-donna/curve25519.c:11-21 | as numbers: with the scalar clamped bit by bit and the coordinate cut to 255 bits, the result is x times z^(p - 2) for the first point of the ladder without swaps |
| `CertAuth.SortSorts` | GameNetworkingSockets/src/steamnetworkingsockets/steamnetworkingsockets_certstore.cpp:76-77 | sorting gives a sorted list with the same members |
| `CertAuth.Setup` | GameNetworkingSockets/src/steamnetworkingsockets/steamnetworkingsockets_certstore.cpp:72-87 | the list becomes the strictly sorted set of its input, and it is the only such list |
| `CertAuth.StrictlySortedIsUnique` | GameNetworkingSockets/src/steamnetworkingsockets/steamnetworkingsockets_certstore.cpp:72-87 | two strictly sorted lists with the same members are equal |
| `CertAuth.CommonMembers` | GameNetworkingSockets/src/steamnetworkingsockets/steamnetworkingsockets_certstore.cpp:50-69 | the merge keeps exactly the members of both lists |
| `CertAuth.SetIntersection` | GameNetworkingSockets/src/steamnetworkingsockets/steamnetworkingsockets_certstore.cpp:28-70 | the in-place merge, with both shortcuts for all items, computes the intersection and keeps lists strictly sorted |
| `CertAuth.HasItemOfIntersection` | GameNetworkingSockets/src/steamnetworkingsockets/steamnetworkingsockets_certstore.cpp:28-70 | an item is in the intersection iff it is in both operands, for every item iff the operands do not share exactly the reserved item |
| `CertAuth.ReservedItemWidensIntersection` | GameNetworkingSockets/src/steamnetworkingsockets/steamnetworkingsockets_certstore.cpp:28-70 | two lists that share just the reserved item intersect to all items: the law fails there |
| `CertAuth.WidensByItems` | GameNetworkingSockets/src/steamnetworkingsockets/steamnetworkingsockets_certstore.cpp:28-70 | two lists widen iff what both grant is exactly the reserved item; otherwise their intersection grants what both grant, that item included |
| `CertAuth.ReservedFreeIntersection` | GameNetworkingSockets/src/steamnetworkingsockets/steamnetworkingsockets_certstore.h:40-60 | lists without the reserved item stay without it, so for them the law holds throughout |
| `CertAuth.SetScopeIntersection` | GameNetworkingSockets/src/steamnetworkingsockets/steamnetworkingsockets_certstore.h:97-102 | a POP or an app is granted iff both scopes grant it, unless the two lists share just the reserved item, and the expiry is the earlier one |
| `CertTrust.TrustedHasChain` | GameNetworkingSockets/src/steamnetworkingsockets/steamnetworkingsockets_certstore.cpp:411-563 | from any trusted key the newest certificates lead in finitely many steps to the hardcoded root, over distinct, unrevoked keys with a verified signature on every link |
| `CertTrust.ChainScope` | GameNetworkingSockets/src/steamnetworkingsockets/steamnetworkingsockets_certstore.cpp:511-520 | the effective expiry is the least one on the chain; an app or POP that every certificate on the chain grants is granted, and conversely unless a link of the chain shares exactly the reserved item |
| `CertTrust.ChainScopeExactly` | GameNetworkingSockets/src/steamnetworkingsockets/steamnetworkingsockets_certstore.cpp:504-540 | for apps and for POPs, the effective scope grants exactly what every certificate on the chain grants, iff no link of the chain intersects two lists sharing just the reserved item |
| `CertTrust.WidensByCerts` | GameNetworkingSockets/src/steamnetworkingsockets/steamnetworkingsockets_certstore.cpp:504-540 | in apps or in POPs a chain widens iff from some link up to the root its certificates grant in common the reserved item and nothing else |
| `CertTrust.WideningStore` | GameNetworkingSockets/src/steamnetworkingsockets/steamnetworkingsockets_certstore.cpp:504-540 | a well-formed store of three keys with two certificates for apps 5 and 7 whose chain widens: its last key is granted app 9, which neither certificate grants |
| `CertTrust.ReservedFreeNeverWidens` | GameNetworkingSockets/src/steamnetworkingsockets/steamnetworkingsockets_certstore.cpp:504-540 | chains whose certificates leave out the reserved item never widen |
| `CertTrust.ChainUnexpired` | GameNetworkingSockets/src/steamnetworkingsockets/steamnetworkingsockets_certstore.cpp:511-520 | a key that has not expired has no expired certificate on its chain |
| `CertTrust.AuthorisedByChain` | GameNetworkingSockets/src/steamnetworkingsockets/steamnetworkingsockets_certstore.cpp:589-650 | what CheckCASignature and CheckCertAppID require of a key means a chain to the root key on which nothing is expired or revoked, every signature verifies and, unless a link widens, every certificate grants the app |
| `CertTrust.BestIsNewest` | GameNetworkingSockets/src/steamnetworkingsockets/steamnetworkingsockets_certstore.cpp:535-550 | the certificate chosen is the first of those valid that were created last |
| `CertTrust.TrustedIff` | GameNetworkingSockets/src/steamnetworkingsockets/steamnetworkingsockets_certstore.cpp:447-563 | after an evaluation of an acyclic graph a key is trusted iff it is the root or, not being revoked, has a certificate whose signature some other trusted key verifies and that grants an app and a POP in common with it |
| `CertTrust.JudgeIsDetermined` | GameNetworkingSockets/src/steamnetworkingsockets/steamnetworkingsockets_certstore.cpp:411-563 | the verdict on a key depends only on keys, certificates and terminal trust, not on the ranking that shows the graph acyclic nor on earlier results |
| `CertTrust.EvaluationIsDetermined` | GameNetworkingSockets/src/steamnetworkingsockets/steamnetworkingsockets_certstore.cpp:566-587 | two stores with the same acyclic graph that have both been evaluated agree on trust, newest certificate and effective scope of every key, whatever the order of evaluation |
| `CertStore.CertStore.RecursiveEvaluateKeyTrust` | GameNetworkingSockets/src/steamnetworkingsockets/steamnetworkingsockets_certstore.cpp:411-564 | on any graph it ends, decides the key, changes no key that was terminal, decided or in progress, keeps every trust backed by a signer trusted before it, and on an acyclic graph decides exactly by the recursive verdict; a key without certificates never gets here, as the assert on line 428 says |
| `CertStore.CertStore.ExamineCert` | GameNetworkingSockets/src/steamnetworkingsockets/steamnetworkingsockets_certstore.cpp:447-552 | one round of the loop over certificates: the verdict on this certificate, and the newest valid one so far |
| `CertStore.CertStore.EnsureTrustValid` | GameNetworkingSockets/src/steamnetworkingsockets/steamnetworkingsockets_certstore.cpp:566-587 | an empty store first gets the root; afterwards the certificates and terminal keys are what they were, no key is unknown or in progress, on an acyclic graph every key has exactly the recursive verdict, and some key is trusted iff the store was empty or had the root |
| `CertStore.CertStore.OneTimeInit` | GameNetworkingSockets/src/steamnetworkingsockets/steamnetworkingsockets_certstore.cpp:283-300 | an empty store gets the hardcoded root with all rights; another is left alone |
| `CertStore.CertStore.Reset` | GameNetworkingSockets/src/steamnetworkingsockets/steamnetworkingsockets_certstore.cpp:302-306 | forgets everything |
| `CertStore.TrustNeedsRoot` | GameNetworkingSockets/src/steamnetworkingsockets/steamnetworkingsockets_certstore.cpp:283-300 | in every sound store some key is trusted iff the unrevoked hardcoded root is in it |
| `CertStore.RootStays` | GameNetworkingSockets/src/steamnetworkingsockets/steamnetworkingsockets_certstore.cpp:336-398 | neither adding certificates nor an evaluation brings the root into a store that has keys but not the root, or removes it |
| `CertStore.Run` | GameNetworkingSockets/src/steamnetworkingsockets/steamnetworkingsockets_certstore.cpp:283-587 | any sequence of additions, revocations and evaluations leads through stores that follow from one another as the calls say; after an evaluation some key is trusted iff the root is there |
| `CertStore.RootAfterRun` | GameNetworkingSockets/src/steamnetworkingsockets/steamnetworkingsockets_certstore.cpp:283-398 | after any such sequence the root is there iff it was there at first, or the store was empty and the first call was no revocation, and it has not been revoked since |
| `CertStore.RevokeFirst` | GameNetworkingSockets/src/steamnetworkingsockets/steamnetworkingsockets_certstore.cpp:283-334 | when the first call to an empty store is a revocation the root never gets in, whatever calls follow |
| `CertStore.RevokedForGood` | GameNetworkingSockets/src/steamnetworkingsockets/steamnetworkingsockets_certstore.cpp:308-334 | once revoked, a key is revoked in every later store of a run and on no chain of it |
| `CertStore.CertStore.AddKeyRevocation` | GameNetworkingSockets/src/steamnetworkingsockets/steamnetworkingsockets_certstore.cpp:308-334 | the key is in the store and revoked, with the certificates and data it had, no other key changes, and trust is stale unless nothing changed |
| `CertStore.CertStore.SetupCert` | GameNetworkingSockets/src/steamnetworkingsockets/steamnetworkingsockets_certstore.cpp:151-220 | which certificates can be stored, and with which scope |
| `CertStore.CertStore.AddCert` | GameNetworkingSockets/src/steamnetworkingsockets/steamnetworkingsockets_certstore.cpp:336-398 | accepts iff the certificate passes all checks of its parts and no other data is known for its key; then the store has it under its key, else it stays as it is; an empty store gets the root first |
| `CertStore.CertStore.AddCertToKey` | GameNetworkingSockets/src/steamnetworkingsockets/steamnetworkingsockets_certstore.cpp:353-398 | refuses iff other data is known for the key; else the key gets its data if it has none and the certificate unless one with its signature is there |
| `CertStore.CertStore.CheckCASignature` | GameNetworkingSockets/src/steamnetworkingsockets/steamnetworkingsockets_certstore.cpp:589-650 | accepts iff the CA key is known, trusted, unexpired and its data verifies the signature |
| `CertStore.CertStore.CheckCert` | GameNetworkingSockets/src/steamnetworkingsockets/steamnetworkingsockets_certstore.cpp:652-704 | accepts iff in addition the certificate parses, has not expired, and has an Ed25519 key that is valid and not revoked |
| `CertStore.CertStore.CheckPublicKey` | GameNetworkingSockets/src/steamnetworkingsockets/steamnetworkingsockets_certstore.cpp:706-731 | accepts iff the key is known, trusted and unexpired |
| `CertStore.CheckCertAppID` | GameNetworkingSockets/src/steamnetworkingsockets/steamnetworkingsockets_certstore.cpp:733-767 | accepts iff the certificate names no apps or this one, and the CA scope has it |
| `CertStore.CertStore.AuthorizeApp` | GameNetworkingSockets/src/steamnetworkingsockets/steamnetworkingsockets_certstore.cpp:652-767 | both checks accept iff the CA key is known, trusted, unexpired and granted the app, its signature verifies, and the certificate parses, is unexpired, has a usable, unrevoked key and lists the app or none; then there is an unexpired, unrevoked chain to the root that authorises the app unless a link widens |
| `Base64Spec.SymbolMeansValue` | GameNetworkingSockets/src/common/crypto_textencode.cpp:338-376 | the inverse table undoes the alphabet |
| `Base64Spec.SymbolIs` | GameNetworkingSockets/src/common/crypto_textencode.cpp:207-207 | value v is written as letter v of the alphabet |
| `Base64Spec.ClassifyIs` | GameNetworkingSockets/src/common/crypto_textencode.cpp:338-376 | the decoder takes each letter of the alphabet for its place in it, ends at = or NUL, skips four kinds of white space and rejects all else |
| `Base64Spec.ValuesOfChar` | GameNetworkingSockets/src/common/crypto_textencode.cpp:356-396 | what a text means, character by character |
| `Base64Spec.GroupNumber` | GameNetworkingSockets/src/common/crypto_textencode.cpp:229-266 | the values of a group are the base-64 digits of the number its bytes are in base 256, with zero bits filled in at the end |
| `Base64Spec.GroupIs` | GameNetworkingSockets/src/common/crypto_textencode.cpp:235-266 | a group is written with the letters of its digits and = for each missing byte |
| `Base64Spec.LinesOf72` | GameNetworkingSockets/src/common/crypto_textencode.cpp:216-278 | every 54 bytes make a line of 72 characters and a line break, and so does what is left |
| `Base64Spec.BlockNumber` | GameNetworkingSockets/src/common/crypto_textencode.cpp:377-424 | the bytes of a block are the base-256 digits of the number its values are in base 64, without the bits that fill no byte |
| `Base64Spec.EncodingLength` | GameNetworkingSockets/src/common/crypto_textencode.cpp:150-156 | the length of an encoded text: four characters a group, a break after every 18 groups and one at the end |
| `Base64Spec.MaxOutputIsExact` | GameNetworkingSockets/src/common/crypto_textencode.cpp:150-156 | the advertised buffer size is exactly the text and its NUL, cut to 32 bits, for any data or no line break |
| `Base64Spec.SizeIsExact` | GameNetworkingSockets/src/common/crypto_textencode.cpp:150-156 | the same for 64-bit and for 32-bit sizes of strings, for as many groups as these can count |
| `Base64Spec.MaxOutputOfNothing` | GameNetworkingSockets/src/common/crypto_textencode.cpp:150-156 | for no data and a line break the size computation wraps where str_size has 64 bits: it is the size of the text and its NUL iff 2^29 divides the length of the break |
| `Base64Spec.NarrowSizeOfNothing` | GameNetworkingSockets/src/common/crypto_textencode.cpp:150-156 | where str_size has 32 bits the same holds iff 2^31 divides the length of the break |
| `Base64Spec.DecodeEncoding` | GameNetworkingSockets/src/common/crypto_textencode.cpp:190-432 | for every byte string and every line break of white space, decoding the encoding gives the bytes back, strict or not |
| `Base64.Base64Encode` | GameNetworkingSockets/src/common/crypto_textencode.cpp:190-289 | succeeds iff the text and its NUL fit, then writes exactly that and nothing beyond; otherwise reports the size needed and leaves a NUL, for size 0 in a character outside the buffer |
| `Base64.FinishEncoding` | GameNetworkingSockets/src/common/crypto_textencode.cpp:247-289 | the last one or two bytes, the final break and the NUL |
| `Base64.Base64Decode` | GameNetworkingSockets/src/common/crypto_textencode.cpp:320-432 | for any text and capacity: never writes past the capacity, what is written is a prefix of the decoded bytes, and it succeeds iff no disallowed character precedes the terminator and floor(3v/4) bytes fit; without a buffer it reports that number |
| `Base64.DecodeBlocks` | GameNetworkingSockets/src/common/crypto_textencode.cpp:356-396 | the sentinel accumulator holds exactly the values since the last full block |
| `Base64.WriteTail` | GameNetworkingSockets/src/common/crypto_textencode.cpp:398-424 | the whole bytes of an unfinished block, up to the capacity |
| `Base64.BlockFromWord` | GameNetworkingSockets/src/common/crypto_textencode.cpp:380-391 | the bytes of a block are the digits of the shifted accumulator |
| `Pem.BParsePEMHeaderOrFooter` | GameNetworkingSockets/src/common/crypto_textencode.cpp:434-514 | the scanning loops succeed exactly on a line of dashes, keyword, type and dashes, and stop after the white space that follows |
| `Pem.LocatePEMBody` | GameNetworkingSockets/src/common/crypto_textencode.cpp:517-551 | the body is what lies between header and the first dash after it, given a matching footer |
| `Pem.DecodeBase64ToBuf` | GameNetworkingSockets/src/common/crypto_textencode.cpp:554-562 | decodes to exactly the bytes the text stands for unless 32-bit arithmetic made the buffer too small |
| `Pem.DecodePEMBody` | GameNetworkingSockets/src/common/crypto_textencode.cpp:565-571 | locating and decoding combined |
| `Pem.LocateBody` | GameNetworkingSockets/src/common/crypto_textencode.cpp:434-551 | between a header and a footer of the expected type, any text without dashes that starts visibly is located, whatever follows |
| `Pem.LineIff` | GameNetworkingSockets/src/common/crypto_textencode.cpp:434-514 | a header or footer line is accepted iff it is white space, dashes, blanks, the keyword, blanks, a type that begins as expected, dashes and white space, and the text goes on behind that |
| `Pem.BodyIff` | GameNetworkingSockets/src/common/crypto_textencode.cpp:517-551 | a body is located iff there is a header line, text without dashes, and a footer line of the same type |
| `Pem.DecodeSizeEnough` | GameNetworkingSockets/src/common/crypto_textencode.cpp:554-562 | for less than a third of 2^32 characters the buffer is large enough |
| `SshBlob.ReadSubIs` | GameNetworkingSockets/src/common/keypair.cpp:100-111 | reading a length-prefixed block succeeds iff one is there and its length is not negative as an int, and undoes writing it |
| `SshBlob.ReadFixedIs` | GameNetworkingSockets/src/common/keypair.cpp:52-62 | reading a block of fixed size succeeds iff one of exactly that size is there, and undoes writing it |
| `SshBlob.U32Is` | GameNetworkingSockets/src/common/keypair.cpp:100-111 | lengths are four bytes, most significant first |
| `SshBlob.ReadSubIff` | GameNetworkingSockets/src/common/keypair.cpp:100-111 | a block is read iff it is all there and the first byte of its length is below 128 |
| `SshBlob.WrittenBytes` | GameNetworkingSockets/src/common/keypair.cpp:187-232 | the container that is written, byte by byte |
| `SshBlob.ParseOf` | GameNetworkingSockets/src/common/keypair.cpp:70-171 | every container, also with a comment, padding or other check numbers, parses to its key pair |
| `SshBlob.ParsesExactly` | GameNetworkingSockets/src/common/keypair.cpp:70-171 | a byte string parses to a key pair iff it is a container that holds it |
| `SshKey.CUtlBuffer.BParseOpenSSHBinaryEd25519Private` | GameNetworkingSockets/src/common/keypair.cpp:70-171 | the cursor-based reader computes the parse, failing on truncation, bad magic, negative lengths, unequal check numbers and unequal public keys |
| `SshKey.CUtlBuffer.OpenSSHBinaryBeginSubBlock` | GameNetworkingSockets/src/common/keypair.cpp:173-178 | four bytes of unknown content are left for the length |
| `SshKey.CUtlBuffer.OpenSSHBinaryEndSubBlock` | GameNetworkingSockets/src/common/keypair.cpp:180-185 | once patched, what was written since is a length-prefixed block |
| `SshKey.CUtlBuffer.OpenSSHBinaryWriteEd25519Private` | GameNetworkingSockets/src/common/keypair.cpp:187-232 | appends exactly the container of the seed and public key, lengths included |
| `KeyPair.GetBinaryDataAsPEM` | GameNetworkingSockets/src/common/keypair.cpp:253-278 | for data of any length and texts of any size: succeeds iff the buffer has the reported size and room for the encoded data after the header, and then holds the text, cut to what fits, with its NUL; nothing beyond is touched |
| `KeyPair.RequiredIsExact` | GameNetworkingSockets/src/common/keypair.cpp:253-257 | for data whose text fits 32 bits the size reported is exactly that of the text and its NUL |
| `KeyPair.V_strncat` | GameNetworkingSockets/src/vstdlib/strtools.cpp:337-367 | appends as much as fits and terminates |
| `KeyPair.CECSigningPrivateKey.SetRawDataAndWipeInput` | GameNetworkingSockets/src/common/keypair.cpp:538-547 | a key is either wiped or a seed with the public key derived from it |
| `KeyPair.CECSigningPrivateKey.GetAsPEM` | GameNetworkingSockets/src/common/keypair.cpp:556-568 | writes the PEM text of the key pair iff the key is valid and the text fits |
| `KeyPair.CECSigningPrivateKey.ParsePEM` | GameNetworkingSockets/src/common/keypair.cpp:577-599 | loads the seed iff the text holds a container whose public key is the one derived from it, else leaves the key wiped |
| `KeyPair.KeyRoundTrip` | GameNetworkingSockets/src/common/keypair.cpp:556-599 | for every seed and derivation, the text written for a key is read back to the same seed, whatever follows the text |
| `KeyPair.KeyTextIs` | GameNetworkingSockets/src/common/keypair.cpp:556-568 | the text that is written: header, container in Base64, footer |
| `KeyPair.KeyInIff` | GameNetworkingSockets/src/common/keypair.cpp:577-599 | a text holds a key iff it has a body of that type that decodes to a container of the seed and of the public key the seed gives |
| `KeyPair.SaveAndLoad` | GameNetworkingSockets/src/common/keypair.cpp:556-599 | size query, writing and loading with or without the terminator restore the key in another object |
| `Heap.HeadIsLeast` | GameNetworkingSockets/src/steamnetworkingsockets/steamnetworkingsockets_thinker.cpp:30-43 | in a heap ordered by think time the first slot holds the least time, so the head of the queue is due first |
| `Scheduler.PriorityQueue.RevaluateElement` | GameNetworkingSockets/src/steamnetworkingsockets/steamnetworkingsockets_thinker.cpp:136-140 | after one thinker's time changed either way, moving it down and then up restores the heap; every thinker knows its new slot and none is lost or added |
| `Scheduler.PriorityQueue.Insert` | GameNetworkingSockets/src/steamnetworkingsockets/steamnetworkingsockets_thinker.cpp:123-128 | the thinker joins the heap and learns its slot, as the asserts at 144-145 demand |
| `Scheduler.PriorityQueue.RemoveAt` | GameNetworkingSockets/src/steamnetworkingsockets/steamnetworkingsockets_thinker.cpp:106-111 | exactly the thinker at the index leaves, with its index reset, as the assert at 110 demands; the last one takes its place and is moved to where it belongs |
| `Scheduler.ThinkerTable.HeadIsFirst` | GameNetworkingSockets/src/steamnetworkingsockets/steamnetworkingsockets_thinker.cpp:30-43 | the head is due first of all thinkers, and a thinker that wants service is in the slot it knows |
| `Scheduler.ThinkerTable.InternalSetNextThinkTime` | GameNetworkingSockets/src/steamnetworkingsockets/steamnetworkingsockets_thinker.cpp:88-156 | the time set (2 ms from now for a time that is not positive), a thinker queued at the slot it knows iff its time is not Never, no other time changed, and a wake-up sent iff the new time precedes the earliest one before |
| `Scheduler.ThinkerTable.SetNextThinkTime` | GameNetworkingSockets/src/steamnetworkingsockets/steamnetworkingsockets_thinker.cpp:79-86 | the effect of the request on all think times and on the wake-ups, none if the time is what it was |
| `Scheduler.ThinkerTable.EnsureMinThinkTime` | GameNetworkingSockets/src/steamnetworkingsockets/steamnetworkingsockets_thinker.cpp:71-77 | the time only ever moves earlier |
| `Scheduler.RequestedIs` | GameNetworkingSockets/src/steamnetworkingsockets/steamnetworkingsockets_thinker.cpp:71-99 | a positive target is taken as it is, any other as 2 ms from the reading of the clock; a minimum only moves the time down; nobody else is touched |
| `Scheduler.LastRequested` | GameNetworkingSockets/src/steamnetworkingsockets/steamnetworkingsockets_thinker.cpp:71-86 | requests take effect in the order in which they are made |
| `Scheduler.ThinkerTable.GetNextScheduledThinkTime` | GameNetworkingSockets/src/steamnetworkingsockets/steamnetworkingsockets_thinker.cpp:158-166 | the least time of all, or Never; from then on a service thread sleeping until it is never late, because anything earlier sends a wake-up |
| `Scheduler.ThinkerTable.ServeHead` | GameNetworkingSockets/src/steamnetworkingsockets/steamnetworkingsockets_thinker.cpp:203-239 | one round, exactly: the thinker due first, strictly before the clock, is unscheduled when called, and all that is requested meanwhile is done; with its lock taken it is put off by 1 ms and nothing else changes |
| `Scheduler.ServedIs` | GameNetworkingSockets/src/steamnetworkingsockets/steamnetworkingsockets_thinker.cpp:203-239 | in a round the thinker due first, before the clock, is put off by 1 ms if its lock is taken, and otherwise wants no service unless somebody asks for it; nobody else is touched unless somebody asks |
| `Scheduler.ThinkerTable.ProcessThinkers` | GameNetworkingSockets/src/steamnetworkingsockets/steamnetworkingsockets_thinker.cpp:168-244 | the whole history of think times is a sequence of such rounds, one for each clock reading before the last, and the loop ends after 10000 of them or when nothing is due by the last clock reading |
| `Reservoir.PercentileGenerator.AddSample` | GameNetworkingSockets/src/common/percentile_generator.h:70-99 | one arrival changes the kept samples as the counting says, and every slot holds the sample it is said to hold |
| `Reservoir.PercentileGenerator.Sort` | GameNetworkingSockets/src/common/percentile_generator.h:101-110 | sorts the table, rearranging what is kept by value; a table in order stays as it is |
| `Reservoir.RetainedKnown` | GameNetworkingSockets/src/common/percentile_generator.h:80-96 | a sample once drawn for survives in exactly the outcomes that spare its slot, and never returns |
| `Reservoir.RetainedLater` | GameNetworkingSockets/src/common/percentile_generator.h:80-96 | a sample yet to come is kept in the outcomes that draw it a slot and spare it after |
| `Reservoir.EverySampleEqual` | GameNetworkingSockets/src/common/percentile_generator.h:15-99 | counted over all outcomes of the draws, each of n samples is kept in exactly the fraction MAX_SAMPLES / n, however the table is rearranged in between |
| `Reservoir.RetainedCounts` | GameNetworkingSockets/src/common/percentile_generator.h:80-96 | what is counted is the size of the set of sequences of draws that leave the sample in the table |
| `Reservoir.OutcomesCount` | GameNetworkingSockets/src/common/percentile_generator.h:80-96 | the number of outcomes is the size of the set of all sequences of draws |
| `Reservoir.RunsAreFair` | GameNetworkingSockets/src/common/percentile_generator.h:15-110 | of the set of all sequences of draws for n samples, those that leave a given sample in the table are exactly the fraction MAX_SAMPLES / n |
| `Reservoir.Run` | GameNetworkingSockets/src/common/percentile_generator.h:70-110 | adding samples one by one, sorting after any of them, keeps exactly the samples that the draws leave in the table, with sorting as the rearrangement |
| `TokenBucket.TokenBucketRateLimiter.BCheck` | GameNetworkingSockets/src/steamnetworkingsockets/steamnetworking_statsutils.h:385-405 | refill for the time passed, then spend a token iff that keeps within the burst |
| `TokenBucket.DeficitInRange` | GameNetworkingSockets/src/steamnetworkingsockets/steamnetworking_statsutils.h:385-405 | at calls in order of time the deficit stays between 0 and the burst |
| `TokenBucket.WindowLimited` | GameNetworkingSockets/src/steamnetworkingsockets/steamnetworking_statsutils.h:372-415 | in every window of such calls the number that get a token is at most the burst plus the rate times the microseconds of the window divided by 1000000 |
| `TokenBucket.WaitGranted` | GameNetworkingSockets/src/steamnetworkingsockets/steamnetworking_statsutils.h:385-405 | a call gets a token whenever at least one has come in since the call before |
| `TokenBucket.BurstGranted` | GameNetworkingSockets/src/steamnetworkingsockets/steamnetworking_statsutils.h:385-405 | a full bucket grants a whole burst at one moment, so the limit is reached |
| `TokenBucket.Run` | GameNetworkingSockets/src/steamnetworkingsockets/steamnetworking_statsutils.h:385-405 | call by call the answers, and in the end the state, are those that the two limits are about |
| `VarInt.ReadSerialized` | GameNetworkingSockets/src/steamnetworkingsockets/steamnetworkingsockets_internal.h:408-493 | reading what was written gives the number and its size, whatever follows |
| `VarInt.SerializedIs` | GameNetworkingSockets/src/steamnetworkingsockets/steamnetworkingsockets_internal.h:408-421 | seven bits a byte, lowest first; all bytes but the last announce another one, and the last is not 0 unless it is the only one |
| `VarInt.MaxBytesIs` | GameNetworkingSockets/src/steamnetworkingsockets/steamnetworkingsockets_internal.h:477-479 | as many bytes as the bits need at seven each: 5 for 32 bits, 10 for 64 |
| `VarInt.SerializeVarInt` | GameNetworkingSockets/src/steamnetworkingsockets/steamnetworkingsockets_internal.h:408-421 | writes exactly the bytes of the number |
| `VarInt.SerializeVarIntBounded` | GameNetworkingSockets/src/steamnetworkingsockets/steamnetworkingsockets_internal.h:423-442 | fails iff the bytes do not fit, never writing past the end |
| `VarInt.VarIntSerializedSize32` | GameNetworkingSockets/src/steamnetworkingsockets/steamnetworkingsockets_internal.h:444-451 | is the number of bytes written |
| `VarInt.VarIntSerializedSize64` | GameNetworkingSockets/src/steamnetworkingsockets/steamnetworkingsockets_internal.h:453-468 | is the number of bytes written |
| `VarInt.OrIsSum` | GameNetworkingSockets/src/steamnetworkingsockets/steamnetworkingsockets_internal.h:485-488 | or-ing to a number one that is shifted past all its bits adds it, which is how the reader joins its digits |
| `VarInt.DeserializeVarInt` | GameNetworkingSockets/src/steamnetworkingsockets/steamnetworkingsockets_internal.h:470-493 | the result is determined by the bytes before the end and before the longest encoding of the width; excess bits are lost; it fails iff no final byte is among them |
| `VarInt.RoundTrip` | GameNetworkingSockets/src/steamnetworkingsockets/steamnetworkingsockets_internal.h:406-500 | in any surroundings and for every width, what was written is read back with its size |
| `VarInt.WriteAndRead` | GameNetworkingSockets/src/steamnetworkingsockets/steamnetworkingsockets_internal.h:423-493 | bounded writing leaves the bytes of the number and nothing outside the limit, and reading them returns it; it fails iff there is no room |
| `SignalText.HexRoundTrip` | GameNetworkingSockets/examples/trivial_signaling_client.cpp:93-98 | decoding undoes encoding, and encoded text has neither space nor line end |
| `SignalText.HexEncodeIs` | GameNetworkingSockets/examples/trivial_signaling_client.cpp:93-98 | two lower-case digits a byte, the high one first |
| `SignalText.HexValueIs` | GameNetworkingSockets/examples/trivial_signaling_client.cpp:47-56 | a character has a value iff it is the digit of that value in lower or upper case |
| `SignalText.HexDecodeIs` | GameNetworkingSockets/examples/trivial_signaling_client.cpp:302-313 | decoding succeeds iff all pairs are digits, and each pair gives its byte; an odd character at the end is ignored |
| `SignalText.TrimIs` | GameNetworkingSockets/examples/trivial_signaling_server.go:72-72 | trimming takes off exactly the white space at both ends |
| `SignalText.ForwardIs` | GameNetworkingSockets/examples/trivial_signaling_server.go:106-127 | a line is split at its first space; without one it is ignored |
| `SignalText.DispatchInPieces` | GameNetworkingSockets/examples/trivial_signaling_client.cpp:283-373 | a stream may be dispatched in pieces anywhere as long as the unfinished line is kept |
| `SignalText.ForwardSignal` | GameNetworkingSockets/examples/trivial_signaling_server.go:106-127 | a signal for a peer is passed on to that peer as the same payload from the sender |
| `SignalText.ReceiveSignal` | GameNetworkingSockets/examples/trivial_signaling_client.cpp:283-373 | a forwarded signal gives its payload and leaves the rest of the stream alone |
| `SignalServer.Server.ServeEvent` | GameNetworkingSockets/examples/trivial_signaling_server.go:65-131 | one line or end of stream: registration, replacement, forwarding, dropping and removal |
| `SignalServer.Server.Serve` | GameNetworkingSockets/examples/trivial_signaling_server.go:88-131 | while a peer keeps its connection, exactly the messages for it are written there, in order; to a connection that has lost its name nothing is written |
| `SignalClient.Client.Send` | GameNetworkingSockets/examples/trivial_signaling_client.cpp:184-202 | the oldest signals are dropped while more than 32 wait, then the new one is queued |
| `SignalClient.Client.SendSignal` | GameNetworkingSockets/examples/trivial_signaling_client.cpp:81-102 | queues the destination, a space, the payload in hex and a line end |
| `SignalClient.Client.Connect` | GameNetworkingSockets/examples/trivial_signaling_client.cpp:132-158 | a new connection starts with the greeting queued; what was queued and buffered before is gone |
| `SignalClient.Client.Drain` | GameNetworkingSockets/examples/trivial_signaling_client.cpp:225-247 | all text up to the point where there is no more is buffered, or the connection is given up |
| `SignalClient.ReceivedIs` | GameNetworkingSockets/examples/trivial_signaling_client.cpp:228-247 | reading goes on up to the first result that is no text, and an error there spoils it |
| `SignalClient.SentCountIs` | GameNetworkingSockets/examples/trivial_signaling_client.cpp:251-276 | one signal goes out for each write that takes one, until none is left, the socket takes no more, or it fails |
| `SignalClient.Client.Flush` | GameNetworkingSockets/examples/trivial_signaling_client.cpp:251-276 | exactly as many signals as the socket takes go out, whole and in order, or the connection is given up after those |
| `SignalClient.Client.Dispatch` | GameNetworkingSockets/examples/trivial_signaling_client.cpp:283-373 | dispatches the payload of each complete line and keeps the unfinished one |
| `SignalClient.Client.Poll` | GameNetworkingSockets/examples/trivial_signaling_client.cpp:220-374 | the whole new state after one turn: reconnect or read, send, dispatch |
| `SignalClient.TurnKept` | GameNetworkingSockets/examples/trivial_signaling_client.cpp:220-374 | a turn keeps a connection iff neither reading nor sending fails; then nothing queued is lost or repeated and received text is dispatched as part of one stream, else nothing is dispatched and all is cleared |
| `SignalClient.TurnOpens` | GameNetworkingSockets/examples/trivial_signaling_client.cpp:132-158 | a turn without a connection opens one iff there is a socket and sending does not fail; it begins with the greeting, sent or queued, and nothing else |
| `SignalRun.Run` | GameNetworkingSockets/examples/trivial_signaling_client.cpp:81-374 | through any sequence of signals and turns the client is in the state of the run that the lemmas below are about |
| `SignalRun.ConnectionOpens` | GameNetworkingSockets/examples/trivial_signaling_client.cpp:132-158 | in any run every new connection starts with its greeting and nothing that was queued before |
| `SignalRun.DispatchedAsOne` | GameNetworkingSockets/examples/trivial_signaling_client.cpp:220-374 | while a connection is kept, through any turns and signals, what is dispatched is what all the text read amounts to as one stream, and the unfinished line stays buffered |
| `SignalRun.AllAccounted` | GameNetworkingSockets/examples/trivial_signaling_client.cpp:184-276 | while a connection is kept, what has gone out is the greeting and the signals, in order, without exactly those entries 33 places before a signal that found more than 32 waiting; the last entries make up the queue |
| `SignalRun.LostIffBackedUp` | GameNetworkingSockets/examples/trivial_signaling_client.cpp:184-276 | on such a connection everything queued is sent or waiting, in order, iff no signal found more than 32 waiting |
| `SignalRun.GreetingPushedOut` | GameNetworkingSockets/examples/trivial_signaling_client.cpp:184-202 | 33 signals before the greeting can go out push it out of the queue for good |
| `Signaling.DispatchWritten` | GameNetworkingSockets/examples/trivial_signaling_client.cpp:283-373 | whatever lines clients send, the receiver dispatches the payload of each line for it, on its own and in order |
| `Signaling.LineWithoutSpace` | GameNetworkingSockets/examples/trivial_signaling_server.go:106-112 | a line without a space might as well not have been sent |
| `SignalSession.StreamHeard` | GameNetworkingSockets/examples/trivial_signaling_server.go:65-131 | whatever entries a client sends, with or without its greeting, what the server writes for any name after the first line makes its holder dispatch the payloads for that name, or, when a signal with a payload stood in for the greeting, that payload once for each empty signal and nothing else |
| `SignalSession.ServeStream` | GameNetworkingSockets/examples/trivial_signaling_server.go:65-131 | serving the lines of a new connection writes that text to the holder of the name; if the first line takes the name, to the new connection, and the old holder gets nothing |
| `SignalSession.ArrivedIff` | GameNetworkingSockets/examples/trivial_signaling_client.cpp:184-202 | a peer hears exactly the payloads for it iff there are none, or all are sent and the greeting is sent too or an empty signal for another peer that takes another name comes first |
| `SignalSession.EndToEnd` | GameNetworkingSockets/examples/trivial_signaling_client.cpp:81-374 | for any run of a sender and any run of a receiver that keep their connections, what the receiver dispatches, and that it is all payloads for it, in order, iff the condition above holds of the entries that were not dropped or left waiting |
| `SignalSession.AllForOne` | GameNetworkingSockets/examples/trivial_signaling_client.cpp:184-202 | with all signals for one peer, all arrive iff no signal found more than 32 waiting and none is still waiting |
| `SignalSession.NothingHeard` | GameNetworkingSockets/examples/trivial_signaling_client.cpp:184-202 | when 33 signals with payloads are queued before the greeting goes out, nobody hears anything of the connection, whatever follows |

## Left out

- CertStore: keys and certificates are values in a map that the methods update, not objects behind pointers, so aliasing is not modelled; status messages and the per-certificate trust field are not kept.
- CertStore: iterating over all keys takes them in any order instead of the hash order; parsing, key identifiers and signature checks are functions passed in.
- CertStore.CertStore.OneTimeInit: that the identifier of the hardcoded key is the one written beside it is not modelled.
- CertTrust: on cyclic graphs only soundness is stated, not that every key that could be trusted is; a failure cached while a cycle is being explored makes completeness false.
- CheckCertPOPID and printing or checking of the whole store are not modelled.
- CertAuthParameter: the inline storage of small vectors is not modelled; lists are sequences.
- LinkStats: counters and packet numbers are unbounded; ping, jitter, histograms, rates, keepalive and stats-send timing, lifetime accumulation and the debugging history are not modelled; float ratios are not computed.
- LinkSpec.AcceptedOnce: for the re-bases of the code, which never go below a number already processed; re-basing downwards by a direct call would forget what was processed above (LinkSpec.Rebase).
- Curve25519: limbs, carries and constant-time behaviour are not modelled; the field operations are given by their meaning, and the Ed25519 signature code is left out.
- Base64.Base64Encode: the null-buffer size query is Base64Spec.MaxOutput; the array has the character after an empty buffer that the code writes to.
- Base64: characters beyond 8 bits have no counterpart in the code; the legacy wrappers and the null input pointer of the decoder are left out.
- KeyPair.GetBinaryDataAsPEM: a buffer of size 0 is taken only if the size reported has not wrapped to 0, since the code would otherwise read a string that was never written.
- KeyPair: wiping of memory, allocation failure, other key types and the authorized-keys format are left out.
- SshKey.CUtlBuffer: growth of the buffer and its text modes are not modelled; memory skipped over when a block is begun has arbitrary content.
- Scheduler: one lock holder at a time is taken for granted; construction and destruction of thinkers during a run are covered by thinkers that are not scheduled; the wake-up of the service thread is a counter.
- Scheduler: clock readings are positive and 2 ms or more below the largest time.
- Reservoir: samples are integers, the library sort is an exchange sort with the same contract, the draw is uniform as documented although the generator behind it is not exactly, and interpolation of percentiles is left out.
- TokenBucket: real arithmetic, so rounding of floats is not modelled.
- SignalSession.EndToEnd: of a client that signals itself it speaks only if its greeting goes out, since otherwise nobody has its name; what is heard under other names is SignalSession.StreamHeard.
- SignalSession.EndToEnd: while the stream of the sender comes in, other connections are silent (SignalServer.Server.Serve takes any events), and names contain no white space, as the protocol requires.
- SignalClient: the part of a signal that goes out before a connection is given up is not modelled.
- Signaling: text is a sequence of characters with ASCII white space; reads may be of any length; concurrent goroutines take turns at whole lines; a write of the server succeeds as a whole.
- Signaling: identities other than by text, the objects behind connection requests and the resolution of addresses are left out.
