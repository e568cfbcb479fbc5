# Verified model of the distributed-systems abstractions

The repository is a stack of textbook distributed algorithms in C: links, failure detectors,
broadcasts, leader elections and a timer scheduler. This project models them in Dafny on two levels
and proves the two levels connected.

- **Handlers.** Every component is a class with the fields of its C struct. Its methods have the
  loops and in-place updates of the C functions, and each is proved to take exactly the step that a
  function of the old state describes (`BrbSpec`, `UrbSpec`, `LazyRbSpec`, `BleSpec`, `PfdSpec`,
  `EpfdSpec`, `EleSpec`, `OrchestratorSpec`). Byzantine reliable broadcast keeps its votes in the linked
  list of `List`, which is proved to refine a sequence; the list fields of the other components are
  sequences that their methods reassign.
- **Runs.** The broadcast and Byzantine protocols are composed from those same step functions into
  transition systems for a whole group: peers with ranks 1..n, a growing set of sent messages, and
  events for client calls, arrivals, crashes and crash reports in any order. A crash may cut a send
  loop at any prefix. A Byzantine peer may make anything arrive anywhere, at any time and differently
  at every peer, but only under its own rank. Safety holds in every reachable state. What the
  protocols promise eventually is proved in every reachable quiescent state (all messages between
  live or correct peers have been handled), and `Drain` lemmas with a decreasing measure show that
  such states are reached. What one peer of a broadcast does over everything that arrives at it is
  stated in terms of the arrivals alone (`BrbPeer`, `UrbPeer`, `LazyRbPeer`). For detectors, elections, the perfect link and the scheduler, one peer's
  behaviour over all sequences of events is a recursive function, and the theorems are about it.

`dafny verify dfyconfig.toml` checks everything.

| Files | Component |
|---|---|
| `Ranks`, `List`, `Wire`, `Messages`, `TextBuffer` | quorum arithmetic; the linked list; text framing and parsing; what components send; zero-terminated buffers |
| `BrbSpec`, `BrbPeer`, `BrbSystem`, `BrbTheorems`, `BrbScript`, `BrbBounds`, `BrbLiteralScan`, `BrbSender`, `Brb` | Byzantine reliable broadcast |
| `UrbSpec`, `UrbPeer`, `UrbSystem`, `UrbTheorems`, `UrbBounds`, `Urb` | majority-ack uniform reliable broadcast, with best-effort broadcast |
| `LazyRbSpec`, `LazyRbPeer`, `LazyRbSystem`, `LazyRbTheorems`, `LazyRbExact`, `LazyRb` | lazy reliable broadcast |
| `BleSpec`, `BleSystem`, `BleTheorems`, `BleProgress`, `Ble` | Byzantine leader election |
| `Djb2`, `Collision`, `PerfectLink`, `AuthLink` | string hash, and two ids it confuses; stubborn and perfect link; authenticated link |
| `PfdSpec`, `PfdTheorems`, `Pfd` | perfect failure detector and monarchical leader election |
| `EpfdSpec`, `EpfdTheorems`, `Epfd` | eventually perfect failure detector |
| `EleSpec`, `EleTheorems`, `Ele` | eventual leader election |
| `Timeval`, `OrchestratorSpec`, `OrchestratorTheorems`, `Orchestrator` | the timer scheduler |

## Where the code departs from the textbook

The model has the code as it is. Where a textbook property fails of it, the condition under which the
property does hold is proved exactly.

- **Duplicate scans of Byzantine reliable broadcast** start at list index 1
  (byzantine_reliable_broadcast.c:68 and :94), so the rank in entry 0 can be recorded twice. The initialiser
  checks no bound on N. With the scans as written and b <= f faulty peers, for every N, all groups of the
  shape (N, f, b)
  - are consistent if and only if b = 0, or b + 2 <= f, or b + 1 = f and (N + f is even or N <= 3f), or b = f
    and N < 3f (`LiteralScanExact`);
  - keep integrity if and only if b = 0, or b + 1 <= f, or N < 2f (`LiteralIntegrityExact`);
  - are total if and only if b = 0, or nobody can ever deliver a body others miss (N < 2f or N <= b + 1), or
    N > 2f + b and (b + 2 <= f, or b + 1 = f and N + f is even) (`LiteralTotalityExact`);
  - are valid if and only if N > 2f + b and (b = 0 or b + 1 <= f) (`LiteralValidityExact`, b < N).

  In every other case a run into the violation is constructed. With b = f >= 1 the faulty READYs alone, one
  of them counted twice, make f correct peers send READY and one of them deliver a body that a correct
  designated sender never broadcast (`Forge`). What the scans record is the vote that arrives first and, of
  the others, the first of each sender (`LiteralIsIntendedBehindFirst`).
- **The sender a Byzantine delivery names** is the sender of the READY that completed the count
  (byzantine_reliable_broadcast.c:112), not the designated sender, so agreement is about bodies. In all groups
  of a shape with a designated sender among the peers, every delivery names the designated sender if and only
  if N <= 1 or nobody can ever deliver because N, plus one where a vote can be doubled, is at most 2f
  (`SenderNamedExact`).
- **Delivery before READY.** The amplification is the else branch of the delivery
  (byzantine_reliable_broadcast.c:110-118). A peer that delivered has always sent READY if and only if
  f >= 1 or N <= 1 (`ReadyFirstExact`); totality holds for f = 0 all the same.
- **The group size** of Byzantine reliable broadcast is not checked by its initialiser. With one entry
  per sender (`scanFrom == 0`) a group with at most f faulty peers is consistent and honest for any N, and
  total and valid for N > 3f (`IntendedRule`). The bound is needed: with b <= f faulty peers validity holds
  if and only if N > 2f + b, and totality if and only if N > 2f + b or nobody can ever deliver because
  N <= 2f (`ValidityBoundExact`, `TotalityBoundExact`).
- **Uniform reliable broadcast** keeps uniform agreement and validity with up to c crashes, in all settled
  states of a group of N peers, if and only if 2c < N or N <= 1 (`MajorityExact`). With half of the peers gone
  (rounded up), `HalfGone` builds a run in which a peer delivers a message that no live peer ever does.
- **Lazy reliable broadcast** relays only from `on_crashed`: a message that arrives after its
  originator's crash was reported is delivered but never sent on. Agreement without a condition therefore
  holds for a group of N peers if and only if N <= 2 (`AgreementBoundExact`). In a settled state, all live
  peers have a message if and only if some live peer delivered it before its report, or every live peer
  happened to hear it from a crashed peer (`AgreementExact`); a message no live peer delivered early ends
  up with exactly those who did (`LateDeliveries`).
- **Byzantine leader election** sends complaints to everybody but the peer itself. With the faulty peers
  silent, some run leaves round 0 if and only if there are at least 2f + 2 correct peers, one more than a
  group of 3f + 1 with f faulty ones has (`SilentProgressExact`). A complaint that arrives in another round
  than its own is dropped (byzantine_leader_election.c:49) and never sent again. In an accepted group with at
  most f faulty peers, a round that f + 1 correct peers complained about has been left by every correct peer
  once everything is handled, if and only if it is round 0 and at least 2f + 2 peers are correct, or it is a
  later round and N = 1, where none is ever complained about (`SuccessionExact`). `LeftBehind` builds the
  failing run for every later round: one peer hears of it too early.
- **The perfect link** remembers hashes only: all received keys are delivered if and only if no two of them
  have the same hash (`DeliveryExact`). Two well-formed 36-character ids that collide under every sender
  exist, and the message under the second is lost (`CollisionLosesMessage`). Its strip loop
  (perfect_link.c:51) computes its bound in unsigned arithmetic from the string it is shifting, and stops
  behind the moved terminator if and only if what remains is at least as long as the prefix
  (`StripStopsExactly`). Signed messages and relays meet this; the two-letter messages of the failure
  detectors do not (`WhatIsStrippable`).
- **The eventual elector** removes an older heartbeat of a sender without keeping the newer one. For any
  heartbeats in any order, a sender is missing from the candidates if and only if the epochs heard of it
  fall into stretches that cancel out (`MissingExactly`). If its heartbeats arrive in order, that is the
  case if and only if an odd number of restarts in a row, up to the last, were each followed by a single
  heartbeat (`MissingInOrder`).
- **The eventually perfect detector** seeds its list of answers with zeros, so the first period counts
  like every other; the perfect detector seeds it with ranks, so its first period never counts.
- **The scheduler** keeps the deadline of a finished one-shot task in its computation of the next wait,
  so from then on it never waits (`NoWaitAfterOneShot`).

## Assumptions

- Authenticated links: what a correct peer handles as coming from a correct peer was sent by that peer.
  Perfect links deliver a message between correct peers at most once if no peer is faulty; they may delay and reorder without
  limit. A signature covers neither the message id nor the recipient (auth_perfect_link.c:96-102), so where
  some peer is faulty, signed messages of correct peers may also arrive again, any number of times. A client
  may broadcast or complain repeatedly. Message ids are fresh, 36 characters long and contain no comma.
- In the runs of lazy reliable broadcast a peer is told once of each crash, and only of crashes that
  happened. That it is told once is what the detector guarantees (`PfdTheorems.Election`).
- At most f Byzantine peers, or a majority of live peers, only where a theorem says so.

## Model

| member | source | states |
|---|---|---|
| List.List.Add | src/utils/list.c:24-38 | The element is appended to the sequence the nodes stand for; existing nodes are reused |
| List.List.Remove | src/utils/list.c:40-62 | The element at the index is taken out and the rest keeps its order; out of bounds returns -1 and changes nothing |
| List.List.Index | src/utils/list.c:64-82 | The first position of the element, or -1 exactly when it is absent |
| List.List.Get | src/utils/list.c:84-95 | The element at the index, or nothing when out of bounds |
| Wire.TryParseMessage | src/utils/parsing.c:5-15 | Succeeds exactly when the message starts with the header, and yields what follows one separator |
| Wire.BodyBehindCode | src/utils/parsing.c:13 | The body is what follows the code and one character, whichever that is |
| Wire.FrameBody | src/utils/parsing.c:5-15 | Looking for the code of a message framed with that code gives back the body |
| Wire.ParseMessage | src/utils/parsing.c:17-41 | Fails exactly with too few separators; otherwise all fields but the last are free of separators and joined they are the message |
| Wire.SplitUnique | src/utils/parsing.c:17-41 | There is only one such way to split a message, so parsing inverts formatting |
| Wire.AtoiDecimal | src/link/fair_loss_link.c:140-146 | Reading back a rank written in decimal gives the rank |
| Wire.DecimalCanonical | src/link/fair_loss_link.c:109 | A decimal without leading zeros is written exactly as it was read |
| Wire.AtoiStops | src/link/fair_loss_link.c:140-146 | Reading stops at the first character that is no digit |
| Wire.AtoiNegative | src/broadcast/majority_uniform_reliable_broadcast.c:109 | A number behind a minus is read as its negative, so it names no rank |
| Wire.FrameUnframe | src/link/perfect_link.c:94 | A prefix without comma and any message are recovered from their framing when it fits 1023 characters |
| Wire.StackText | src/link/fair_loss_link.c:105-109 | The text that leaves the socket is rank, id, signature, code and body in this order with separators between them |
| Wire.StackRoundTrip | src/link/fair_loss_link.c:105-151 | Rank, id, signature, code and body survive framing by all layers and stripping in reverse, for any body, commas included, that fits 1023 characters at the outermost layer |
| Wire.RelayText | src/broadcast/majority_uniform_reliable_broadcast.c:45-46 | A relay is written as "BC,", originator, id and body, cut at 1023 characters |
| Wire.RelayRoundTrip | src/broadcast/majority_uniform_reliable_broadcast.c:45-46 | Parsing a relayed message gives back originator, originator's id and body, whatever the body contains |
| Wire.RelayReadExactly | src/broadcast/majority_uniform_reliable_broadcast.c:99-110 | A text is read as originator, id and body if and only if it is the code, one character, and three fields of which the first two hold no separator and the first reads as the originator |
| Wire.DecodeRelay | src/broadcast/majority_uniform_reliable_broadcast.c:99-110 | The loops of the two parsers compute code, originator, id and rest of a relayed message, and fail on every other text |
| TextBuffer.CommaSpan | src/link/perfect_link.c:34 | The length of the part of the buffer before the first comma or terminator |
| TextBuffer.CopyDown | src/link/perfect_link.c:52 | One pass moves one character, or the terminator, of the string behind the prefix to the front |
| TextBuffer.Strip | src/link/perfect_link.c:50-53 | The in-place loop, measuring the string anew in every pass, ends with exactly what followed the prefix when that is at least as long as the prefix |
| TextBuffer.StripStopsExactly | src/link/perfect_link.c:51 | The guard fails behind the moved terminator if and only if what remains is at least as long as the prefix; otherwise it holds at every later index |
| Djb2.CharValue | src/link/perfect_link.c:24-26 | A character counts as the signed byte congruent to it modulo 256 |
| Djb2.HashText | src/link/perfect_link.c:22-28 | Shifting, adding signed characters and wrapping at 64 bits computes the base-33 polynomial modulo 2^64 |
| Djb2.HashSamples | src/link/perfect_link.c:22-28 | The hashes of the empty string, of two letters, of two letters together and of a byte that counts as negative |
| Djb2.PolyIsWeighted | src/link/perfect_link.c:22-28 | That polynomial is 5381 * 33^n plus the characters weighted with descending powers of 33 |
| Djb2.OneCharacterApart | src/link/perfect_link.c:22-28 | Strings of equal length that differ in exactly one byte never collide, because 33 is odd |
| Djb2.KeyInjective | src/link/perfect_link.c:39-40 | The key is the decimal rank followed by the id, and with a 36-character id determines both |
| Collision.IdsCollide | src/link/perfect_link.c:22-28 | Behind any common prefix the two ids have the same hash, because their polynomials differ by a multiple of 2^64 |
| PerfectLink.InboxRefines | src/link/perfect_link.c:43-60 | In every run the inbox holds the hashes of the deliveries in order, all different, and the hash of everything that arrived |
| PerfectLink.AtMostOnce | src/link/perfect_link.c:43-60 | Each sender and id is delivered at most once in every run, and only if it arrived |
| PerfectLink.DeliveredFirst | src/link/perfect_link.c:43-60 | An arrival is delivered, then and there and behind the others, if and only if none before it had the same hash |
| PerfectLink.DeliveryExact | src/link/perfect_link.c:38-48 | Every key received is delivered if and only if no two different keys received have the same hash |
| PerfectLink.CollisionLosesMessage | src/link/perfect_link.c:38-48 | Under every sender two different well-formed 36-character ids have the same hash, and of two messages under them the second to arrive is never delivered |
| PerfectLink.ResentForever | src/link/stubborn_link.c:53-68 | A message once sent is put on the channel again at every later timeout |
| PerfectLink.EndToEnd | src/link/perfect_link.c:30-96 | Over any loss, duplication and reordering, without collisions, what is delivered is exactly what arrived at least once, each message once, and nothing that was not sent |
| PerfectLink.StubbornLink.Send | src/link/stubborn_link.c:53-58 | The message enters the outbox and goes out once; outbox and channel are those of the run so far |
| PerfectLink.StubbornLink.HandleTimeout | src/link/stubborn_link.c:60-68 | The whole outbox goes out again, in order |
| PerfectLink.PerfectLink.Send | src/link/perfect_link.c:88-96 | The message is posted under its id |
| PerfectLink.PerfectLink.Seen | src/link/perfect_link.c:43-48 | Whether the hash is in the inbox |
| PerfectLink.PerfectLink.ReadId | src/link/perfect_link.c:33-36 | The copied id is the part before the first comma |
| PerfectLink.PerfectLink.Wrapper | src/link/perfect_link.c:30-61 | One arrival extends the run by that arrival: inbox and deliveries stay those of the run, and the buffer is stripped only if the message goes up |
| AuthLink.SignedRoundTrip | src/link/auth_perfect_link.c:93-110 | A signed message is accepted exactly if it is not empty and its signature checks, and is recovered unchanged |
| AuthLink.AcceptsExactly | src/link/auth_perfect_link.c:19-56 | Any text is accepted as a message if and only if its sender is a rank of the group and it is a signature valid under that rank, a separator and the message, which is not empty |
| AuthLink.AuthPerfectLink.Send | src/link/auth_perfect_link.c:93-110 | The text in the caller's buffer is replaced by signature, comma and text, and handed down |
| AuthLink.AuthPerfectLink.Wrapper | src/link/auth_perfect_link.c:19-56 | The message goes up stripped in place if signature, sender and rest are acceptable; otherwise nothing goes up and the buffer is unchanged |
| AuthLink.StrippableExactly | src/link/perfect_link.c:50-53 | Under a 36-character id the strip loop stops behind what remains if and only if that is at least 37 characters |
| AuthLink.WhatIsStrippable | src/link/perfect_link.c:50-53 | Signed messages and relays are long enough for the strip loop under a 36-character id, the failure detectors' messages are not |
| BrbSpec.OnSummary | src/broadcast/byzantine_reliable_broadcast.c:47-119 | Flags follow the peer's own ECHO and READY, each sent at most once; a vote is appended to its own list only; READY rests on an echo quorum or on f + 1 READYs |
| BrbSpec.OnExactly | src/broadcast/byzantine_reliable_broadcast.c:47-119 | Exactly when an arrival makes the peer send ECHO, send READY and deliver, with the thresholds 2 * count > N + f, count > f and count > 2f, and whom the delivery names |
| BrbSpec.CountIsVoters | src/broadcast/byzantine_reliable_broadcast.c:56-65 | With one entry per sender the count of a body is the number of its recorded senders |
| BrbSpec.DisciplinedTail | src/broadcast/byzantine_reliable_broadcast.c:67-81 | If only the rank in entry 0 can repeat, the list behind entry 0 has no repeated rank |
| BrbSpec.CountBound | src/broadcast/byzantine_reliable_broadcast.c:56-81 | A count exceeds the correct backers by at most the number of faulty peers, plus one for the skipped entry |
| BrbSpec.ThresholdExact | src/broadcast/byzantine_reliable_broadcast.c:84-85 | The truncated half is a quorum test: count above it if and only if 2 * count > N + f |
| BrbPeer.ListsAreVotes | src/broadcast/byzantine_reliable_broadcast.c:67-107 | After any arrivals the lists hold what the scan lets in of the ECHOs and of the READYs that arrived, in order |
| BrbPeer.IntendedKeepsFirsts | src/broadcast/byzantine_reliable_broadcast.c:67-81 | One entry per sender means that of each sender exactly its first vote is kept |
| BrbPeer.LiteralIsIntendedBehindFirst | src/broadcast/byzantine_reliable_broadcast.c:68-73 | The scans as written keep the vote that arrives first and, of all others, the first of each sender |
| BrbPeer.PeerExactly | src/broadcast/byzantine_reliable_broadcast.c:47-119 | After any arrivals a peer has echoed if and only if a SEND of the designated sender arrived, delivered if and only if some body has more than 2f recorded READYs and, for f >= 1, sent READY if and only if some body has an echo quorum or more than f recorded READYs |
| BrbSystem.OneEntryPerSenderIsSafe | src/broadcast/byzantine_reliable_broadcast.c:67-119 | With one entry per sender, at most f faulty peers are safe for every N |
| BrbSystem.LiteralScanIsSafe | src/broadcast/byzantine_reliable_broadcast.c:67-119 | With the scans as written, at most f faulty peers are safe exactly in the three cases listed above |
| BrbSystem.ReachableInv | src/broadcast/byzantine_reliable_broadcast.c:36-119 | In every reachable state recorded votes are real, flags match what was sent, thresholds crossed were acted on, and, if faulty votes, the doubled one included, number at most f, every READY of a correct peer is backed by a quorum of correct echoes |
| BrbTheorems.ReadyAgreement | src/broadcast/byzantine_reliable_broadcast.c:67-119 | All READYs sent by correct peers carry the same body in every reachable state |
| BrbTheorems.Consistency | src/broadcast/byzantine_reliable_broadcast.c:93-119 | No two correct peers deliver different bodies in any reachable state |
| BrbTheorems.NoDuplication | src/broadcast/byzantine_reliable_broadcast.c:110-114 | No correct peer delivers twice, however many peers are faulty |
| BrbTheorems.DeliveredHasSentReady | src/broadcast/byzantine_reliable_broadcast.c:109-118 | With f >= 1 a peer that delivered has sent READY: delivering first does not starve the else branch |
| BrbTheorems.Integrity | src/broadcast/byzantine_reliable_broadcast.c:36-119 | If faulty votes, the doubled one included, number at most f and the designated sender is correct, what a correct peer delivers was passed to the broadcast operation |
| BrbTheorems.Totality | src/broadcast/byzantine_reliable_broadcast.c:93-119 | With more than 2f correct peers, as N > 3f gives, in every reachable quiescent state, if one correct peer delivered a body every correct peer delivered exactly that body, f = 0 included |
| BrbTheorems.Validity | src/broadcast/byzantine_reliable_broadcast.c:36-119 | If faulty votes number at most f, more than 2f peers are correct and a correct designated sender broadcast exactly one body, every reachable quiescent state has it delivered by all correct peers |
| BrbBounds.IntendedRule | src/broadcast/byzantine_reliable_broadcast.c:67-119 | With one entry per sender and at most f faulty peers: consistent and honest for every N, total and valid for N > 3f |
| BrbBounds.ValidityBoundExact | src/broadcast/byzantine_reliable_broadcast.c:84-111 | With one entry per sender and b <= f, b < N: all groups of the shape are valid if and only if N > 2f + b, so N > 3f is what f faulty peers require |
| BrbBounds.TotalityBoundExact | src/broadcast/byzantine_reliable_broadcast.c:84-118 | With one entry per sender and b <= f: all groups of the shape are total if and only if N > 2f + b or N <= 2f |
| BrbBounds.FewVotes | src/broadcast/byzantine_reliable_broadcast.c:93-109 | A peer that handled no READY of a faulty peer and holds no rank twice counts no more READYs for a body than there are correct peers |
| BrbBounds.NobodyDelivers | src/broadcast/byzantine_reliable_broadcast.c:109-114 | If N, plus one where a vote can be doubled, is at most 2f, no correct peer delivers in any reachable state |
| BrbTheorems.Drain | src/broadcast/byzantine_reliable_broadcast.c:36-119 | From every reachable state, handling what correct peers sent reaches a quiescent state that keeps all deliveries |
| BrbLiteralScan.LiteralScanExact | src/broadcast/byzantine_reliable_broadcast.c:68-107 | With the scans as written and b <= f, for every N: all groups of the shape are consistent if and only if b = 0, or b + 2 <= f, or b + 1 = f and (N + f is even or N <= 3f), or b = f and N < 3f |
| BrbLiteralScan.FewIsConsistent | src/broadcast/byzantine_reliable_broadcast.c:93-114 | If two sets of correct READY senders that each complete a delivery cannot be disjoint, no two correct peers deliver different bodies |
| BrbLiteralScan.LiteralTotalityExact | src/broadcast/byzantine_reliable_broadcast.c:68-119 | With the scans as written and b <= f, for every N: all groups of the shape are total if and only if b = 0, or N < 2f, or N <= b + 1, or N > 2f + b and (b + 2 <= f, or b + 1 = f and N + f is even) |
| BrbLiteralScan.LiteralIntegrityExact | src/broadcast/byzantine_reliable_broadcast.c:93-119 | With the scans as written and b <= f, for every N: in all groups of the shape only what a correct designated sender broadcast is delivered, if and only if b = 0, or b + 1 <= f, or N < 2f |
| BrbLiteralScan.LiteralValidityExact | src/broadcast/byzantine_reliable_broadcast.c:36-119 | With the scans as written and b <= f, b < N: all groups of the shape are valid if and only if N > 2f + b and (b = 0 or b + 1 <= f) |
| BrbLiteralScan.Forge | src/broadcast/byzantine_reliable_broadcast.c:93-119 | For every f >= 1 and N >= 2f a run with f faulty peers in which a correct peer delivers a body while the correct designated sender broadcast another |
| BrbLiteralScan.LiteralLists | src/broadcast/byzantine_reliable_broadcast.c:68-107 | In every reachable state a list holds no rank twice behind entry 0, and none at all if no peer is faulty |
| BrbSender.SenderNamedExact | src/broadcast/byzantine_reliable_broadcast.c:109-114 | For both starts of the scans and b <= f: in all groups of the shape with a designated sender among the members every delivery names that sender, if and only if N <= 1, or N, plus one where a vote can be doubled, is at most 2f |
| BrbSender.NotNamed | src/broadcast/byzantine_reliable_broadcast.c:105-114 | In every other shape with a delivery a run in which the READY of a peer other than the designated sender completes the count, and the delivery names that peer |
| BrbSender.ReadyFirstExact | src/broadcast/byzantine_reliable_broadcast.c:109-118 | For both starts of the scans and b <= f: in all groups of the shape a correct peer that delivered has sent READY, if and only if f >= 1 or N <= 1 |
| Brb.HandledByCode | src/broadcast/byzantine_reliable_broadcast.c:121-136 | The codes exclude each other: each text is handled by the handler of its code, whichever is tried first, and a text with none of them changes nothing |
| Brb.BroadcastTexts | src/broadcast/byzantine_reliable_broadcast.c:39 | A broadcast is sent as "SE,", "EC," or "RY," and the body |
| Brb.HandledAsSent | src/broadcast/byzantine_reliable_broadcast.c:36-45 | A broadcast goes to every rank exactly once, and what is sent makes every receiver take the step of its code with its body |
| Brb.IndicatedAsDelivered | src/broadcast/byzantine_reliable_broadcast.c:110-114 | The callback is given the sender of the READY that completed the count and its body, once, exactly when the delivered flag is set |
| Brb.Brb.constructor | src/broadcast/byzantine_reliable_broadcast.c:138-173 | A new peer has sent, recorded and delivered nothing |
| Brb.Brb.BroadcastAux | src/broadcast/byzantine_reliable_broadcast.c:36-45 | One message to every rank, in rank order, the peer itself included |
| Brb.Brb.Broadcast | src/broadcast/byzantine_reliable_broadcast.c:182-184 | A SEND to every rank |
| Brb.Brb.HandleSend | src/broadcast/byzantine_reliable_broadcast.c:47-54 | Takes the protocol step: one ECHO for the first SEND of the designated sender |
| Brb.Brb.GetCount | src/broadcast/byzantine_reliable_broadcast.c:56-65 | The number of entries with the body |
| Brb.Brb.Scan | src/broadcast/byzantine_reliable_broadcast.c:68-73 | Whether the sender is recorded at index 1 or later |
| Brb.Brb.HandleEcho | src/broadcast/byzantine_reliable_broadcast.c:67-91 | Takes the protocol step over the heap list: record, count, READY above the threshold |
| Brb.Brb.HandleReady | src/broadcast/byzantine_reliable_broadcast.c:93-119 | Takes the protocol step over the heap list: record, count, deliver or amplify |
| Brb.Brb.Callback | src/broadcast/byzantine_reliable_broadcast.c:121-136 | The text's step is taken, that of its code with the parsed body; an unknown code changes nothing |
| UrbSpec.Quorum | src/broadcast/majority_uniform_reliable_broadcast.c:77 | The quorum is the smallest majority |
| UrbPeer.ArrivalExactly | src/broadcast/majority_uniform_reliable_broadcast.c:117-135 | An arrival delivers its message if and only if it makes the peers heard from a majority, and relays it if and only if it is the first under its id and not the peer's own |
| UrbPeer.DeliversMajorities | src/broadcast/majority_uniform_reliable_broadcast.c:71-135 | Over any arrivals an id is delivered once if it was heard from a majority, and not at all otherwise |
| UrbPeer.RelaysFirsts | src/broadcast/majority_uniform_reliable_broadcast.c:117-128 | Over any arrivals the messages relayed are the first heard under their ids that are not the peer's own, each once |
| UrbSystem.ReachableInv | src/broadcast/majority_uniform_reliable_broadcast.c:93-141 | In every reachable state, crashes in the middle of send loops and between a relay and its ack included: acks are real, known messages were relayed by live peers, deliveries have a majority of acks |
| UrbTheorems.UniformAgreement | src/broadcast/majority_uniform_reliable_broadcast.c:71-141 | With a majority alive, what any peer delivered, even one that crashed since, every live peer has delivered in every reachable quiescent state |
| UrbTheorems.Validity | src/broadcast/majority_uniform_reliable_broadcast.c:84-141 | What a live peer broadcast, every live peer has delivered in every reachable quiescent state |
| UrbBounds.MajorityExact | src/broadcast/majority_uniform_reliable_broadcast.c:71-141 | Uniform agreement and validity hold in all settled states with up to c crashes if and only if 2c < N or N <= 1 |
| UrbBounds.HalfGone | src/broadcast/majority_uniform_reliable_broadcast.c:71-141 | For every N >= 2 a settled run in which half of the peers, rounded up, are gone, one of them delivered a message of a live originator, and no live peer has |
| UrbTheorems.Integrity | src/broadcast/majority_uniform_reliable_broadcast.c:93-141 | Each peer delivers each id at most once, and only a message its originator broadcast, unchanged by relays, for any number of crashes |
| UrbTheorems.Drain | src/broadcast/majority_uniform_reliable_broadcast.c:93-141 | From every reachable state, handling only what is pending between live peers reaches a quiescent state that keeps all deliveries |
| Urb.Urb.BroadcastAux | src/broadcast/best_effort_broadcast.c:47-60 | One relay to every rank, in rank order |
| Urb.Urb.Broadcast | src/broadcast/majority_uniform_reliable_broadcast.c:171-173 | The message goes to every rank under the peer's own rank and the fresh id |
| Urb.Urb.GetSavedMessage | src/broadcast/majority_uniform_reliable_broadcast.c:59-69 | Finds the entry of the id, and nothing exactly when the id is unknown |
| Urb.Urb.ShouldDeliver | src/broadcast/majority_uniform_reliable_broadcast.c:71-82 | Counting flags decides whether more than half of the ranks have acked |
| Urb.Urb.SaveMessage | src/broadcast/majority_uniform_reliable_broadcast.c:84-91 | A new id enters with no acks and undelivered |
| Urb.Urb.Acknowledge | src/broadcast/majority_uniform_reliable_broadcast.c:130-135 | The sender's ack is added, and the message is delivered once, at a majority |
| Urb.Urb.FindOrSave | src/broadcast/majority_uniform_reliable_broadcast.c:119-128 | A new message is saved and, unless it is the peer's own, relayed |
| Urb.Urb.Handle | src/broadcast/majority_uniform_reliable_broadcast.c:117-135 | Takes the protocol step on the map the list and ack arrays stand for |
| Urb.Urb.Callback | src/broadcast/majority_uniform_reliable_broadcast.c:93-141 | A text that parses and names a rank of the group takes the protocol step; every other text changes nothing |
| LazyRbPeer.ArrivalExactly | src/broadcast/lazy_reliable_broadcast.c:180-195 | Over any arrivals, an arrival is delivered if and only if it is the peer's own message from itself, or the first arrival of another originator's message |
| LazyRbPeer.HistoryExactly | src/broadcast/lazy_reliable_broadcast.c:145-156 | The history of another peer, which a report of its crash sends on, is what was delivered of it, in order; nothing of one's own is kept |
| LazyRbSystem.ReachableInv | src/broadcast/lazy_reliable_broadcast.c:83-199 | In every reachable state history and deliveries agree, nothing is delivered twice, and a live peer has relayed exactly what it delivered before its report of the originator's crash |
| LazyRbTheorems.Agreement | src/broadcast/lazy_reliable_broadcast.c:108-199 | In every reachable quiescent state with all crashes reported, a message some live peer delivered before its own report has been delivered by every live peer, even if the originator crashed part-way |
| LazyRbTheorems.RelaysExactly | src/broadcast/lazy_reliable_broadcast.c:108-120 | A live peer has sent another's message to everybody if and only if it delivered it before the report and the report has come |
| LazyRbTheorems.Validity | src/broadcast/lazy_reliable_broadcast.c:158-203 | What a live peer broadcast, every live peer has delivered in every reachable quiescent state |
| LazyRbTheorems.ReportsSendAfresh | src/broadcast/lazy_reliable_broadcast.c:108-120 | What a report makes a peer send it has not sent before |
| LazyRbTheorems.Integrity | src/broadcast/lazy_reliable_broadcast.c:158-199 | Each peer delivers each id at most once and only as its originator broadcast it, its own messages by the special path included |
| LazyRbTheorems.Drain | src/broadcast/lazy_reliable_broadcast.c:108-199 | From every reachable state, reporting crashes and handling what is pending reaches a quiescent state with all crashes reported |
| LazyRbExact.AgreementExact | src/broadcast/lazy_reliable_broadcast.c:108-199 | In every settled state, a message has reached all live peers if and only if some live peer delivered it before its report of the originator's crash, or every live peer heard it from a crashed peer |
| LazyRbExact.LateDeliveries | src/broadcast/lazy_reliable_broadcast.c:158-199 | A message no live peer delivered early ends up with exactly the live peers that heard it from a crashed peer |
| LazyRbExact.AgreementBoundExact | src/broadcast/lazy_reliable_broadcast.c:108-199 | Agreement without a condition holds in all settled states of a group of N peers if and only if N <= 2 |
| LazyRbExact.LateArrivalBreaksAgreement | src/broadcast/lazy_reliable_broadcast.c:108-199 | For every N > 2 a settled state in which one live peer delivered a message after the report and another never will |
| LazyRbExact.ReachableBacked | src/broadcast/lazy_reliable_broadcast.c:108-199 | In every reachable state a peer delivered only messages it handled, and was told only of crashes that happened |
| LazyRb.SendAt | src/broadcast/lazy_reliable_broadcast.c:98-117 | The order of the nested send loops, which a crash cuts short |
| LazyRb.Rb.RbBroadcastAux | src/broadcast/lazy_reliable_broadcast.c:83-106 | One relay to every rank, in rank order |
| LazyRb.Rb.Broadcast | src/broadcast/lazy_reliable_broadcast.c:201-203 | The message goes to every rank under the peer's own rank and the fresh id |
| LazyRb.Rb.OnCrashed | src/broadcast/lazy_reliable_broadcast.c:108-120 | Everything kept from the crashed peer goes to every rank, in order |
| LazyRb.Rb.IsMessageDuplicate | src/broadcast/lazy_reliable_broadcast.c:130-143 | Whether the originator's history holds the id |
| LazyRb.Rb.SaveMessageToHistory | src/broadcast/lazy_reliable_broadcast.c:145-156 | The originator's history grows by the message; the others stay |
| LazyRb.Rb.OnDeliver | src/broadcast/lazy_reliable_broadcast.c:180-195 | Takes the protocol step: own messages from oneself only, others once |
| LazyRb.Rb.OnDeliveryWrapper | src/broadcast/lazy_reliable_broadcast.c:158-199 | A text that parses and names a rank of the group takes the protocol step; every other text changes nothing |
| BleSystem.ReachableInv | src/leader_election/byzantine_leader_election.c:25-88 | In every reachable state lists hold distinct ranks and real complaints, and every round left was left on f + 1 correct complaints that go back to a client |
| BleTheorems.RoundsJustified | src/leader_election/byzantine_leader_election.c:25-88 | A correct peer past round r implies at least f + 1 correct peers reached r and complained in it, at least one of them because its client asked |
| BleTheorems.ClientsCalled | src/leader_election/byzantine_leader_election.c:25-35 | A complaint counted as a client's was an operation called on that peer |
| BleTheorems.TrustsAgree | src/leader_election/byzantine_leader_election.c:74-83 | Any two correct peers announce the same leaders in the same order, as far as both have got |
| BleTheorems.LeaderRotates | src/leader_election/byzantine_leader_election.c:23 | Rank 1 leads round 0, the next rank the next round, and rank 1 follows rank N |
| BleTheorems.LeadersDistinct | src/leader_election/byzantine_leader_election.c:23 | Up to N consecutive rounds have different leaders |
| BleTheorems.CorrectLeaderSoon | src/leader_election/byzantine_leader_election.c:23 | With b faulty peers, any b + 1 consecutive rounds contain a correct leader |
| BleTheorems.SilentProgressExact | src/leader_election/byzantine_leader_election.c:25-83 | With silent faulty peers, some run leaves round 0 if and only if there are at least 2f + 2 correct peers |
| BleProgress.SuccessionExact | src/leader_election/byzantine_leader_election.c:43-88 | In an accepted group with at most f faulty peers: whenever everything is handled and f + 1 correct peers complained about round r, every correct peer has left r, if and only if r = 0 and at least 2f + 2 peers are correct, or r > 0 and N = 1 |
| BleProgress.FirstRoundLeft | src/leader_election/byzantine_leader_election.c:53-83 | With at least 2f + 2 correct peers, whatever the faulty ones do, f + 1 complaints of correct peers about round 0 take every correct peer past it once everything is handled |
| BleProgress.LeftBehind | src/leader_election/byzantine_leader_election.c:49 | With N >= 2f + 2, for every later round and every correct peer p a run in which all other correct peers complain about the round before p is in it, and p, once in it, has nothing left to hear |
| BleProgress.Drain | src/leader_election/byzantine_leader_election.c:43-88 | From every run, handling what is pending ends in a state where every complaint of a correct peer has been handled |
| Messages.OthersOnce | src/leader_election/byzantine_leader_election.c:26-32 | The loops that skip the local rank send to every other rank exactly once, exactly the text, and never to oneself |
| Ble.ComplaintsAsHeard | src/leader_election/byzantine_leader_election.c:25-47 | A complaint is sent to every other rank once, as "CO," and the round in decimal, and is read there as that round |
| Ble.Ble.Accepts | src/leader_election/byzantine_leader_election.c:108-115 | A group is accepted exactly when N > 3f |
| Ble.Ble.GetRoundLeader | src/leader_election/byzantine_leader_election.c:23 | The leader of the present round |
| Ble.Ble.Complain | src/leader_election/byzantine_leader_election.c:25-35 | Takes the protocol step of a client's complaint |
| Ble.Ble.HandleComplaint | src/leader_election/byzantine_leader_election.c:49-83 | Takes the protocol step: drop, record, amplify, advance |
| Ble.Ble.Advance | src/leader_election/byzantine_leader_election.c:74-83 | The next round starts with no complaints, and its leader is announced |
| Ble.Ble.Callback | src/leader_election/byzantine_leader_election.c:43-88 | A complaint is handled with its parsed round, which is the round it was sent with; other codes change nothing |
| PfdTheorems.Election | src/leader_election/monarchical_leader_election.c:23-61 | At every point of every run: nobody is reported twice and never the local peer, the leader is the highest rank not reported, announced leaders strictly decrease and never drop below the local rank |
| PfdTheorems.TimeoutAnnouncesOnce | src/leader_election/monarchical_leader_election.c:23-61 | A timeout reports its crashes in rank order, and announces one leader if the leader changed and none otherwise, however many it reports |
| PfdTheorems.EqualViews | src/leader_election/monarchical_leader_election.c:36-58 | Peers that have reported the same crashes have the same leader |
| PfdTheorems.ReportedExactly | src/failure_detector/perfect_failure_detector.c:37-97 | A peer has been reported if and only if it let a whole period between two timeouts pass without an answer |
| PfdTheorems.HighestUnique | src/leader_election/monarchical_leader_election.c:39-56 | The descending search finds the one rank that has not crashed above which all have |
| Pfd.Mle.CallbackOnCrash | src/leader_election/monarchical_leader_election.c:23-61 | Takes the election's step: record the crash, search and announce only if the leader crashed |
| Pfd.Pfd.constructor | src/failure_detector/perfect_failure_detector.c:140-185 | All other ranks count as alive at first and the highest rank leads |
| Pfd.Pfd.CheckPeer | src/failure_detector/perfect_failure_detector.c:43-69 | A rank that neither answered nor was reported is reported, and the election called back |
| Pfd.Pfd.HandleTimeout | src/failure_detector/perfect_failure_detector.c:37-77 | Takes the detector's step with the election inside it, and sends one heartbeat to every other rank |
| Pfd.Pfd.Callback | src/failure_detector/perfect_failure_detector.c:79-97 | A heartbeat is answered, an answer noted, anything else ignored |
| EpfdTheorems.WithoutRemoves | src/failure_detector/eventually_perfect_failure_detector.c:90-96 | Taking out the first entry of a rank removes that rank and no other |
| EpfdTheorems.SuspectedExactly | src/failure_detector/eventually_perfect_failure_detector.c:60-108 | After every timeout the suspected list has no duplicates and is exactly the other peers without an answer in that period |
| EpfdTheorems.WatchLists | src/failure_detector/eventually_perfect_failure_detector.c:186-191 | Besides zeros, which never matter, the list of answers holds exactly who answered since the last timeout |
| EpfdTheorems.SuspectAndRestoreAlternate | src/failure_detector/eventually_perfect_failure_detector.c:81-100 | In every run, at every point, Suspect and Restore for a peer strictly alternate, Suspect first, and the list tells which came last |
| EpfdTheorems.NotesInRankOrder | src/failure_detector/eventually_perfect_failure_detector.c:61-100 | A timeout calls back about each peer at most once, in rank order |
| EpfdTheorems.StartsWithZeros | src/failure_detector/eventually_perfect_failure_detector.c:186-191 | The list of answers starts with one zero for every other rank below the highest |
| Epfd.Epfd.constructor | src/failure_detector/eventually_perfect_failure_detector.c:149-193 | The list of answers starts with zeros, nobody is suspected |
| Epfd.Epfd.RemoveSuspect | src/failure_detector/eventually_perfect_failure_detector.c:90-96 | The first entry of the rank is taken out |
| Epfd.Epfd.ReviewPeer | src/failure_detector/eventually_perfect_failure_detector.c:65-100 | Takes the detector's step for one rank: suspect, restore or neither |
| Epfd.Epfd.HandleTimeout | src/failure_detector/eventually_perfect_failure_detector.c:60-108 | Takes the detector's step, and sends one heartbeat to every other rank |
| Epfd.Epfd.Callback | src/failure_detector/eventually_perfect_failure_detector.c:44-58 | A heartbeat is answered, an answer noted, anything else ignored |
| EleTheorems.HearTracks | src/leader_election/eventual_leader_election.c:44-59 | A heartbeat changes its own sender's entry only: it is kept, ignored, or takes out an older one |
| EleTheorems.CandidatesOnePerSender | src/leader_election/eventual_leader_election.c:36-65 | The candidate list holds at most one entry per sender in every run |
| EleTheorems.SteadyKept | src/leader_election/eventual_leader_election.c:41-59 | If no sender restarted, the candidates are exactly the heartbeats heard |
| EleTheorems.MissingExactly | src/leader_election/eventual_leader_election.c:44-59 | For any heartbeats of any senders in any order, a sender is missing if and only if the epochs heard of it fall into stretches, each ended by the first epoch later than the one that began it |
| EleTheorems.MissingInOrder | src/leader_election/eventual_leader_election.c:47-51 | A sender heard in order, restarting any number of times amid other senders' heartbeats, is missing if and only if an odd number of restarts in a row, up to the last, were each heard just once since; otherwise its entry is its latest epoch |
| EleTheorems.BestBeatsAll | src/leader_election/eventual_leader_election.c:153-165 | Of candidates and self the scan picks the heartbeat with the lowest epoch and, among equals, the highest rank |
| EleTheorems.EqualKnowledgeEqualChoice | src/leader_election/eventual_leader_election.c:144-165 | The choice depends on the set of heartbeats known, not on their order |
| EleTheorems.LeaderAfterPeriod | src/leader_election/eventual_leader_election.c:142-177 | The leader after a period is the best of the peer and the candidates it kept in that period |
| EleTheorems.FewestRestartsLeads | src/leader_election/eventual_leader_election.c:142-177 | After any run and a period without restarts, the leader is, of the peer itself and all senders heard, the one with the lowest epoch and, among equals, the highest rank |
| EleTheorems.EqualViewsEqualLeaders | src/leader_election/eventual_leader_election.c:142-177 | After any runs, peers that knew the same heartbeats in the period, none of a restarted sender, have the same leader |
| EleTheorems.PeriodGrowsPerChange | src/leader_election/eventual_leader_election.c:167-174 | The period is always 4 + 2 * (number of leader changes), and every callback names a new leader |
| Ele.Ele.constructor | src/leader_election/eventual_leader_election.c:118-132 | The stored epoch is incremented; the highest rank leads at first |
| Ele.Ele.HearHeartbeat | src/leader_election/eventual_leader_election.c:44-59 | The loop over the candidates takes the elector's step for a heartbeat |
| Ele.Ele.BestCandidate | src/leader_election/eventual_leader_election.c:144-165 | The loop computes the best candidate |
| Ele.Ele.HandleTimeout | src/leader_election/eventual_leader_election.c:142-185 | Takes the elector's step, and sends the own epoch to every other rank |
| Ele.Ele.Wrapper | src/leader_election/eventual_leader_election.c:36-65 | A heartbeat is heard with its parsed epoch, which is the epoch it was sent with; other codes change nothing |
| Timeval.Add | include/utils/timeout.h:11-15 | Normalised addition of seconds and microseconds adds the times |
| Timeval.Min | include/utils/timeout.h:7-9 | The earlier of two times |
| Timeval.TimeTo | include/utils/timeout.h:18-27 | Waiting the result from now ends at the deadline, or now if it has passed |
| OrchestratorTheorems.NeverEarly | src/orchestration/orchestrator.c:84-166 | No task runs before its delay has passed since the start, in every run under a clock that does not go back |
| OrchestratorTheorems.Separation | src/orchestration/orchestrator.c:154-166 | Two executions of a recurrent task are at least its delay apart, and a one-shot task runs at most once |
| OrchestratorTheorems.PassRunsDue | src/orchestration/orchestrator.c:154-166 | A pass executes exactly the tasks not done whose deadline had come, each once and in order; a recurrent one is due again exactly its delay after its execution ended, a one-shot one is done |
| OrchestratorTheorems.RunsExactly | src/orchestration/orchestrator.c:84-166 | In every run a pass executes a task if and only if it has not run and its first deadline has come, or it is recurrent and its delay has passed since its last execution ended |
| OrchestratorTheorems.WaitExact | src/orchestration/orchestrator.c:94-138 | The wait passes no deadline still ahead and ends at one, and is zero if and only if some deadline, counting finished tasks, has passed |
| OrchestratorTheorems.NoWaitAfterOneShot | src/orchestration/orchestrator.c:99-163 | Once a one-shot task is done the scheduler never waits again |
| Orchestrator.Task.ResetDeadline | include/utils/timeout.h:11-15 | The deadline becomes the time read plus the delay |
| Orchestrator.Orchestrator.AddTask | src/orchestration/orchestrator.c:75-78 | It is appended and marked new, whatever its status was |
| Orchestrator.Orchestrator.SetDeadlines | src/orchestration/orchestrator.c:84-92 | Every new task is started, its first deadline exactly its delay after the time read; the others keep theirs |
| Orchestrator.Orchestrator.GetNextDeadline | src/orchestration/orchestrator.c:94-114 | The earliest of all deadlines and the external one, if there is one; nothing exactly when there is neither |
| Orchestrator.Orchestrator.RunIfDue | src/orchestration/orchestrator.c:157-165 | Takes the scheduler's step for one task |
| Orchestrator.Orchestrator.RunDue | src/orchestration/orchestrator.c:150-166 | Takes the scheduler's step for a pass over all tasks |

## Left out

- Sockets, `select`, addresses, ports and descriptor sets: replaced by an abstract channel and an arbitrary choice of the next event. Of the fair-loss link only the rank prefix is modelled.
- Signatures, key files and their handling: the authenticated link of the group models is an axiom, and `AuthLink` takes the signature scheme as a parameter.
- Generation of ids: they are inputs, assumed fresh.
- Failing allocations and sends, freeing, logging and callback contexts. Callbacks of upper layers do not call back down synchronously.
- The `*_start`, `*_consume`, `*_get_tasks`, `*_get_handler` and `*_get_watch_set` wrappers, `src/process.c` and `tools/gen_keys.c`: wiring.
- `src/link/logged_perfect_link.c`: a simpler copy of the perfect link with its storage stubbed out.
- The epoch files of the eventual elector: the stored epoch is an input.
- Real-time accuracy of the detectors and eventual leadership under timing assumptions: they need synchrony the code does not express.
- Machine integers: ranks, rounds, epochs and counters are unbounded, except in the hash and in the guard of the strip loop, where 64-bit wrap-around is modelled.
- Wire.TryParseMessage: a message that is just the header has an empty body; the source starts reading one byte behind the terminator there.
- Wire.AtoiDecimal: is about `Wire.Atoi`, which reads an optional minus and digits; leading blanks, a plus sign and overflow are not modelled, nor that the rank is read from an unterminated 10-byte copy in fair_loss_link.c:140-146.
- Wire.ParseMessage: yields nothing on failure; that the source leaves freed strings in the field array is not modelled.
- PerfectLink.PerfectLink.Wrapper: covers ids of at most 36 characters, which fit the 37-byte copy, and, for messages not known yet, rests at least as long as id and comma; for shorter rests the source's loop leaves the buffer (`StripStopsExactly`). The detector models therefore take messages as delivered by the link.
- Urb.Urb.SaveMessage: ids are compared in full; the source keeps 37 bytes of an id.
- Urb.Urb.Callback: the sender is a rank of the group, as the source's array index demands.
- Brb.Brb.ApplyEcho: the quorum is computed over reals; the source's single precision is exact for sums up to 2^24.
- Ble.Ble.Accepts: the bound is computed over reals instead of single precision.
- The start of the scheduler without an external timeout: the source then computes the wait from an uninitialised deadline. A schedule holds each task object once, and tasks added after the start are not modelled.
- Orchestrator.Orchestrator.RunDue: covers passes whose wait timed out; passes that dispatch to handlers change no task.
