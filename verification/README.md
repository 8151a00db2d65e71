# FreeSBC edge plane: a verified model

FreeSBC is a session border controller; its edge plane is a stateful SIP proxy
between public clients and carriers on one side and private switches on the
other. This project models the parts of it where correctness is hard to see from
one body: the stream framers, the record of a call and the race between an
INVITE and its CANCEL, the tables of bindings, subscriptions and calls, the
failover series, the route sets that topology hiding must leave usable, header
redaction, and a handful of small state machines and algorithms.

The model takes the form of the source. Objects whose methods change their
fields are classes with those fields; loops are loops; each method is proved
against a specification, and what the program promises is proved about that
specification, over every input, every run or every interleaving. Where several
goroutines share state each critical section is one atomic step and the theorems
quantify over all orders of steps. Clocks, randomness, the network and the other
goroutines are parameters or scripts.

| file | part |
|---|---|
| `SipFramer.dfy`, `HeaderBlock.dfy`, `WsFramer.dfy`, `StreamConn.dfy` | message boundaries in byte streams; whole header blocks; the clocks of a connection |
| `CallRecord.dfy`, `CallTrace.dfy`, `DialogTable.dfy` | one call's record and the INVITE/CANCEL protocol, also told by its history; the store of calls |
| `Failover.dfy`, `SeriesOutcome.dfy` | dial order, response pump, attempt series, and how a series ends case by case |
| `Location.dfy`, `Registrations.dfy` | registration bindings under four indexes; a registration from its REGISTER on |
| `Subscriptions.dfy`, `SubscriptionProtocol.dfy` | subscription records; their race with binding removal |
| `Headers.dfy`, `RouteSet.dfy` | messages as header lists; Record-Route, Route and Via rewriting |
| `Identity.dfy`, `Extensions.dfy` | masking of identity headers; the tokens of Allow |
| `Calls.dfy` | calls message by message, of the switch and of a client |
| `Redaction.dfy`, `RedactionWire.dfy` | credentials in mirrored messages, line by line and as written on the wire |
| `Srv.dfy` | SRV ordering |
| `Breaker.dfy`, `Trackers.dfy`, `Health.dfy`, `Sdes.dfy` | REGISTER breaker, bounded trackers, health history, SRTP state |
| `IngressFilter.dfy` | the BPF compiler of the private socket |
| `Bytes.dfy`, `Sequences.dfy`, `Text.dfy`, `Net.dfy`, `Options.dfy`, `Index.dfy`, `Sorting.dfy` | shared vocabulary |

Reading notes:

- Records the program names by pointer are named here by a handle or, for a
  binding, by its token; the maps of handles are the program's heap.
- What the code does wins over its comments. `contentLength` says "a plain
  non-negative number" but accepts what `strconv.Atoi` does, `+5` and `-0`
  included. The size test `end+n > f.max` adds in 64 bits: `OversizeIff` says
  exactly when it refuses, `OversizeMissed` which blocks it lets through.
- `ifindexFilter` cuts a jump to eight bits: `FilterCorrectIff` says exactly for
  which lists the program is right. The program's one caller passes two indexes.
- `commit` gives the media the peer's key before ours, and the media's side is an
  SRTP side from the first key tried. When the media refuses one, media and state
  part: `MediaAgreesIff` is the exact condition, `RefusedKeyDropsPlainMedia` and
  `RefusedKeyPartsSrtp` are its two kinds of input.
- `Location.SetOnRemove` promises the tokens of bindings that are removed. A
  REGISTER reads its flow's token while the binding lives; when the binding lapses
  before `Put`, `Put` removes it and stores it again under that token, and hands
  the token over: `LapsedRefreshHandsOverItsToken`. `HandedTokenStoredIff` says
  exactly when. `StoredAgainLosesRecords` shows what it costs, `EndedIffHandedOver`
  when it does, `FreshTokensSpared` when it cannot.
- `maskIdentity` collects a name's headers in any spelling and removes them under
  the first one's: `IdentityCleanIff` says exactly when no switch is left.
- Header names are compared without ASCII case. For the names the code compares,
  its Unicode folding accepts nothing more.
- An evaluation order the program leaves to a Go map is arbitrary here, and the
  result is proved not to depend on it.

## Model

| member | source | states |
|---|---|---|
| `SipFraming.ContentLength` | internal/edge/stream.go:679-703 | computes the length a header block declares: 0 with no Content-Length, none when two disagree or one spells no non-negative 64-bit number; continuation lines say nothing |
| `HeaderBlocks.BlockDeclares` | internal/edge/stream.go:679-703 | over whole blocks: Content-Length or l, in any ASCII case and with spaces, signs and leading zeros as written, is read wherever it stands; other lines say nothing; two numbers that differ, one past 64 bits or a value that is none leave none; no such line means 0 |
| `SipFraming.SipFramer.Feed` | internal/edge/stream.go:613-674 | one read takes the framer exactly where the byte-at-a-time automaton goes: same state, buffer, bytes left, violation, messages started; one charge per message, one for a read of blank bytes while idle |
| `SipFraming.SipFramer.FeedHead` | internal/edge/stream.go:631-662 | the search for CRLFCRLF from three bytes before the old end finds what the automaton finds, and cuts the block and the rest at the same place |
| `SipFraming.HeadNotFound` | internal/edge/stream.go:634-644 | a search that finds nothing means no terminator completes in this read; the block overflows or waits |
| `SipFraming.HeadFound` | internal/edge/stream.go:635-646 | the first hit of the windowed search is the first terminator of the whole block |
| `SipFraming.ChunkIndependence` | internal/edge/stream.go:613-674 | any sequence of reads ends as one read of all the bytes would: state, buffer, first violation, message starts; charges differ by one per keep-alive read alone |
| `SipFraming.SplitDoesNotMatter` | internal/edge/stream.go:613-674 | two ways of cutting the same bytes into reads end alike |
| `SipFraming.StopsForGood` | internal/edge/stream.go:644-653 | after a violation nothing more is read into the framer's outcome |
| `SipFraming.BufferBounded` | internal/edge/stream.go:634-644 | at every point the buffered head is shorter than the cap and holds no CRLFCRLF |
| `SipFraming.OversizeIff` | internal/edge/stream.go:634-653 | a message whose header block arrives is refused for size exactly when the block exceeds the cap, or block and body do and their sum fits 64 bits |
| `HeaderBlocks.OversizeMissed` | internal/edge/stream.go:651-653 | the sum wraps: the block of the one line "l: n" that fits the cap is let through for every n whose sum with its size exceeds 64 bits, and all of that body is waited for |
| `SipFraming.FramingRoundTrip` | internal/edge/stream.go:613-703 | messages that declare their body size, with any CR/LF runs between them, are accepted, start exactly at their offsets and leave the framer idle |
| `SipFraming.FramingRoundTripInReads` | internal/edge/stream.go:613-703 | the same for every way the wire is cut into reads, one charge per message and per keep-alive read |
| `HeaderBlocks.BlockOutcome` | internal/edge/stream.go:631-662 | a block between two messages makes the framer wait for exactly the body its lines declare, refuse it as malformed when they declare none, or for size |
| `HeaderBlocks.MessagesFramed` | internal/edge/stream.go:613-703 | messages written line by line whose lines declare their bodies are told apart in any reads, with any CR and LF between them |
| `StreamConns.StreamConn.Observe` | internal/edge/stream.go:498-536 | over either framing a read closes the connection for a framer violation, then for a charge the shield refuses, then for being idle too long; else it moves the clocks |
| `StreamConns.StreamConn.Read` | internal/edge/stream.go:465-494 | a read that times out closes the connection as too slow inside a unit, else as idle unless it is in use |
| `StreamConns.StreamConn.Serve` | internal/edge/stream.go:465-494 | the reading loop, reads that time out included, comes to what the reads one after another come to, and reads nothing once closed |
| `StreamConns.ClosedForGood` | internal/edge/stream.go:498-516 | reads after a closing change nothing |
| `StreamConns.FedConcat` | internal/edge/stream.go:613-834 | either framer reports of bytes fed in two pieces what it reports of them in one: where it is, whether a unit began, whether a message did |
| `StreamConns.ClocksPerMessage` | internal/edge/stream.go:517-526 | over either framing, on every open connection, however cut into reads: the slow bound runs from the read with the first byte of the very unit now open, the idle bound from that with the byte that made the last message known, or the first read |
| `StreamConns.DeadlineStays` | internal/edge/stream.go:452-460 | a unit that trickles in gains no time: its deadline stays as long as it is open |
| `StreamConns.ClosedIff` | internal/edge/stream.go:498-536 | over either framing when the next read closes an open connection, said of the stream so far and of when its bytes came: refusal, rate, idle, slow |
| `StreamConns.RefusedFor` | internal/edge/stream.go:498-503 | too big is the framer's size test and nothing else, bad data all else it refuses |
| `WsFraming.LongestIsLongest` | internal/edge/stream.go:753-763 | the number the matcher stands for: that many last bytes read begin CRLFCRLF, and of no more do |
| `WsFraming.MatchIsLongest` | internal/edge/stream.go:754-763 | the upgrade matcher always holds the longest suffix read that begins CRLFCRLF |
| `WsFraming.WsFramer.ReadLength` | internal/edge/stream.go:798-808 | reads the 7, 16 or 64 bit length big-endian, a 64-bit value past 2^63 - 1 coming out negative |
| `WsFraming.WsFramer.AcceptFrame` | internal/edge/stream.go:809-822 | accepts the frame, charging for a continuation or control frame, unless its length is negative or over the cap |
| `WsFraming.WsFramer.Feed` | internal/edge/stream.go:745-834 | one read takes the framer where the byte-at-a-time automaton goes, charges, began and data included; the 14-byte buffer is never overrun |
| `WsFraming.ChunkIndependence` | internal/edge/stream.go:745-834 | any sequence of reads ends as one read of all the bytes would, with the same total charges |
| `WsFraming.UpgradeProgress` | internal/edge/stream.go:746-768 | while the upgrade lasts the state is its length and the longest match, and it is within the cap |
| `WsFraming.UpgradeEnds` | internal/edge/stream.go:764-768 | the upgrade request ends exactly at its first CRLFCRLF |
| `WsFraming.UpgradeRefusedIff` | internal/edge/stream.go:746-771 | an upgrade request without its end is refused exactly when it exceeds 8192 bytes |
| `WsFraming.FramesRoundTrip` | internal/edge/stream.go:769-831 | frames whose header has the length and states the payload the framer computes are all accepted, counted by opcode, and leave it between frames |
| `WsFraming.FramesDecode` | internal/edge/stream.go:769-831 | frames as section 5.2 of RFC 6455 lays them out, masked or not, with 7, 16 or 64 bit lengths, are each noticed once under their opcode, nothing of one taken for the next |
| `WsFraming.FramesCharged` | internal/edge/stream.go:812-817 | of such frames just those that are neither text nor binary are charged |
| `WsFraming.FrameTooLong` | internal/edge/stream.go:809-811 | after any such frames one whose payload exceeds the cap closes the connection at its header |
| `WsFraming.ConnectionDecodes` | internal/edge/stream.go:745-834 | the upgrade request up to its first CRLFCRLF, then frames: one unit each |
| `WsFraming.FrameRefusedIff` | internal/edge/stream.go:809-811 | a frame is refused exactly when its unsigned length exceeds the cap, past 2^63 too |
| `CallRecord.Dialog.Track` | internal/edge/dialog.go:1013-1021 | records the attempt unless the call was given up on |
| `CallRecord.Dialog.MarkSent` | internal/edge/dialog.go:1026-1031 | marks the INVITE as on the wire and tells the sender to CANCEL when a canceller took it first |
| `CallRecord.Dialog.CancelSeries` | internal/edge/dialog.go:1062-1081 | gives up on the call and takes the attempt in flight at most once; who sends the CANCEL follows from whether the INVITE is out |
| `CallRecord.Dialog.Confirm` | internal/edge/dialog.go:1196-1208 | an early, not cancelled call with media becomes confirmed; any other is refused unchanged |
| `CallRecord.InvExec` | internal/edge/dialog.go:1013-1081 | over every interleaving: one INVITE per attempt that reached the wire, and CANCELs sent plus owed exactly one per attempt taken and sent |
| `CallRecord.CancelSafety` | internal/edge/invite_leg.go:535-565 | at most one INVITE and one CANCEL per attempt; a CANCEL only after its INVITE and only for an attempt a canceller took (section 9.1 of RFC 3261) |
| `CallRecord.CancelExactlyOnce` | internal/edge/dialog.go:1013-1081 | once things settle an attempt has exactly one CANCEL if it was taken and its INVITE went out, else none |
| `CallRecord.NothingAfterCancel` | internal/edge/invite.go:462-488 | after a call is given up on no attempt is tracked and no INVITE goes out but the one already tracked |
| `CallRecord.CancelledNeverConfirmed` | internal/edge/dialog.go:1196-1208 | a call cancelled before it was confirmed never is |
| `CallRecord.StateOnlyAdvances` | internal/edge/dialog.go:1196-1270 | the state only moves from early to confirmed to ended |
| `CallTraces.RecordTells` | internal/edge/dialog.go:1013-1270 | over every interleaving each field of the record as a fact about the steps: given up exactly when the caller or backstop gave up or an orphan CANCEL found an INVITE in flight, caller gone, media, state, and the attempt in flight |
| `CallTraces.GivenUpForGood` | internal/edge/dialog.go:1062-1081 | after someone has given up no INVITE goes out but one already tracked, and a call not confirmed by then never is |
| `CallTraces.TrackedIff` | internal/edge/dialog.go:1013-1021 | the next attempt is made if and only if nobody has given up |
| `CallTraces.TakenIff` | internal/edge/dialog.go:1062-1081 | an attempt is taken if and only if someone cancelled while it was in flight |
| `CallTraces.CancelledExactlyWhenTaken` | internal/edge/invite_leg.go:535-565 | once things settle an attempt was CANCELled once if its INVITE went out and someone cancelled while it was in flight, else never |
| `CallTraces.OrphanFindsNothing` | internal/edge/dialog.go:1066-1070 | an orphan CANCEL with nothing in flight changes nothing |
| `Dialogs.DialogTable.BeginDialog` | internal/edge/dialog.go:427-462 | refuses a closed table, a merged request and a full one in that order, else adds an early record and takes a slot |
| `Dialogs.DialogTable.EndBy` | internal/edge/dialog.go:1264-1309 | the first end of a record removes it from its group and frees its slot; later ones change nothing |
| `Dialogs.DialogTable.CloseAll` | internal/edge/dialog.go:649-659 | ends every record listed: run by itself it leaves no group, no slot and no live record |
| `Dialogs.CloseAllInterleaved` | internal/edge/dialog.go:639-659 | with any operations between its listing and its ends, only records made since the listing are live; none when the table was closed first |
| `Dialogs.BeginOutlivesListing` | internal/edge/dialog.go:636-659 | why the closing comes first: without it a call begun after the listing outlives closeAll |
| `Dialogs.MergeIff` | internal/edge/dialog.go:436-441 | the scan of the Call-ID's group sees every early record of that Call-ID and tag |
| `Dialogs.Conservation` | internal/edge/dialog.go:427-462 | over every run sessions equals the live records, each grouped once under its own Call-ID, and no two early ones share Call-ID and tag |
| `Dialogs.StartedIff` | internal/edge/dialog.go:1196-1208 | a call is in the log of started ones exactly when it was confirmed at some point of the run |
| `Dialogs.StartedAndEndedOnce` | internal/edge/dialog.go:1196-1309 | over every run a call is reported started exactly once if it was ever confirmed, else never, and ended exactly once if it then ended, however many ends race |
| `Dialogs.CapHolds` | internal/edge/dialog.go:427-462 | a begin admits exactly when the table is open, nothing merges and a slot is free; it never passes the cap |
| `Dialogs.MediaIff` | internal/edge/dialog.go:680-706 | over every run a call has media if and only if some was attached while it had not ended and the table was open |
| `Dialogs.StateOnlyAdvances` | internal/edge/dialog.go:1196-1309 | over any run a record keeps its identity and its state only advances |
| `Locations.Location.Put` | internal/edge/location.go:119-159 | sweeps the AoR's lapsed bindings, then refreshes the flow's binding under the token stored, or adds one, or refuses by the cap that is reached; exactly the AoR's lapsed tokens are handed over, each once |
| `Locations.DepartedTokenStoredIff` | internal/edge/location.go:119-159 | a token that departed, in this Put or before, is in the table after it exactly when the Put admits a new binding that brings such a token |
| `Locations.HandedTokenStoredIff` | internal/edge/location.go:130-158 | a token a Put hands over stays in the table exactly when it is the token brought and the flow has no live binding |
| `Locations.LapsedRefreshHandsOverItsToken` | internal/edge/register.go:108-111 | a refresh whose token was read while the binding lived, and whose binding lapsed before Put, is such an input: its token is handed over and stored |
| `Locations.Location.Remove` | internal/edge/location.go:163-175 | removes the binding of the flow and hands its token over, or finds there is none |
| `Locations.Location.RemoveBySource` | internal/edge/location.go:193-213 | removes exactly the bindings of the source and transport and counts them |
| `Locations.LeftBySource` | internal/edge/location.go:193-213 | what removing a source leaves: bindings of other sources and, if a transport is named, over others |
| `Locations.Location.Prune` | internal/edge/location.go:374-389 | removes exactly the lapsed bindings and counts them, in any order of the AoRs |
| `Locations.Location.PruneAOR` | internal/edge/location.go:391-402 | sweeping the list from its end while it is edited removes exactly the AoR's lapsed bindings |
| `Locations.Location.DeleteEntry` | internal/edge/location.go:296-309 | one entry leaves all four indexes, which still agree |
| `Locations.Location.FlushRemoved` | internal/edge/location.go:326-334 | hands over what was collected, and nothing twice |
| `Locations.Location.ByAOR` | internal/edge/location.go:351-362 | lists each live binding of the lower-cased AoR once, as a scan of all bindings would, whatever lower-casing is |
| `Locations.Location.HasSource` | internal/edge/location.go:219-229 | true exactly when some live binding came over the transport from the source |
| `Locations.Location.HasIP` | internal/edge/location.go:233-237 | true exactly when some binding came from the address |
| `Locations.Location.SourceBinding` | internal/edge/location.go:243-263 | the first live binding of the source that is the named user's, else the first live one; none exactly when the source has none |
| `Registrations.PutThenFind` | internal/edge/location.go:119-159 | a binding put is found by its token, under its AoR and by its source exactly as long as it has not expired, under the token it brought if its flow was new |
| `Registrations.RefreshKeepsToken` | internal/edge/location.go:133-158 | the same flow again: before expiry the token stays and everything else is taken over, after it the binding is new |
| `Locations.IndexSourceAgrees` | internal/edge/location.go:266-269 | a binding entered under its source keeps source index and per-address counts exact |
| `Locations.UnindexSourceAgrees` | internal/edge/location.go:273-292 | a binding taken out of them keeps them exact |
| `Locations.DeleteAgrees` | internal/edge/location.go:296-309 | a removal keeps the four indexes in agreement |
| `Locations.RefreshAgrees` | internal/edge/location.go:133-145 | a refresh in place, from a new source too, keeps them in agreement |
| `Locations.InsertAgrees` | internal/edge/location.go:152-158 | an insertion keeps them in agreement |
| `Locations.InsertKeeps` | internal/edge/location.go:146-158 | a new flow within the caps keeps one binding per flow and both caps |
| `Locations.RefreshKeeps` | internal/edge/location.go:133-145 | a refresh keeps one binding per flow and both caps |
| `Subscriptions.SubTable.Begin` | internal/edge/subscribe.go:133-155 | adds a pending record exactly when the table is open and both caps leave room, and says which one refuses |
| `Subscriptions.SubTable.Confirm` | internal/edge/subscribe.go:162-180 | makes a record active with the notifier's tag and the granted expiry, unless it is gone |
| `Subscriptions.SubTable.Lookup` | internal/edge/subscribe.go:193-222 | finds a record exactly when an open one of the Call-ID is named by the tags, plane and method, the first one of the list, and says which end sent the request |
| `Subscriptions.NamedIff` | internal/edge/subscribe.go:199-219 | which requests name a record: the subscriber's on its plane unless NOTIFY, the notifier's on the other unless SUBSCRIBE, a pending record's by the subscriber's tag alone until it learnt another |
| `Subscriptions.SubTable.End` | internal/edge/subscribe.go:269-290 | ends one record and takes it out of both indexes; again changes nothing |
| `Subscriptions.SubTable.DropTokens` | internal/edge/subscribe.go:303-311 | ends exactly the open records charged to the tokens |
| `Subscriptions.SubTable.Prune` | internal/edge/subscribe.go:314-327 | ends exactly the overdue records and counts them |
| `Subscriptions.LeftOpen` | internal/edge/subscribe.go:303-327 | what ending by token or by the clock leaves open: the records of other tokens, those whose deadline is to come |
| `Subscriptions.SubTable.CloseAll` | internal/edge/subscribe.go:337-346 | ends every record and admits no more |
| `Subscriptions.EndAgrees` | internal/edge/subscribe.go:275-290 | ending a record keeps both indexes and the total exact |
| `SubscriptionProtocol.RecordsFollowBindings` | internal/edge/subscribe.go:502-521 | an open record names a token of the table unless its second look is pending or the token awaits its hand-over |
| `SubscriptionProtocol.NoOrphanRecords` | internal/edge/location.go:311-334 | once no step is in flight no open subscription names a token the table lacks |
| `SubscriptionProtocol.HandedOverOnce` | internal/edge/location.go:326-334 | however removals, flushes and hand-overs interleave, each departure of a token is handed over once or still on its way, and each arrival ends in one departure or in the table |
| `SubscriptionProtocol.RemovalOvertakesInsertion` | internal/edge/subscribe.go:490-500 | the run that makes the second look necessary: removal and hand-over pass before the insertion |
| `SubscriptionProtocol.StoredAgainLosesRecords` | internal/edge/subscribe.go:303-311 | a token stored again before its hand-over runs takes the records of its new binding along |
| `SubscriptionProtocol.HandOverEndsIff` | internal/edge/subscribe.go:303-311 | a hand-over ends an open record if and only if it carries the record's token, whether the binding is in the table or not |
| `SubscriptionProtocol.LostIff` | internal/edge/location.go:326-334 | once the queue is taken up some hand-over ends an open record if and only if a removal of its token has yet to be handed over |
| `SubscriptionProtocol.AwaitedAndStored` | internal/edge/location.go:119-159 | on every run a token that is in the table while a removal of it is on its way entered the table at least twice |
| `SubscriptionProtocol.FreshTokensSpared` | internal/edge/subscribe.go:303-311 | on every run in which no token enters the table twice, no hand-over ends a record whose binding is in the table |
| `SubscriptionProtocol.EndedIffHandedOver` | internal/edge/subscribe.go:303-311 | over any run that does not end it otherwise, an open record is ended if and only if its token was handed over in the run |
| `SubscriptionProtocol.OtherRemovalsSpare` | internal/edge/subscribe.go:303-311 | no hand-over ends a record whose own binding stays |
| `Failover.OrderByAvailability` | internal/edge/topology.go:475-487 | the available names then the cooling ones in their order, or all of them when every one is cooling |
| `Failover.UpstreamDialOrder` | internal/edge/topology.go:445-456 | a permutation of the nodes: the pool in a ring from the node the hash picks, then the cooling ones in their order; none cooling before one available |
| `Failover.PumpInvite` | internal/edge/invite_leg.go:246-339 | relaying response by response, replays first, comes to what the first deciding response decides |
| `Failover.InviteSeries` | internal/edge/invite.go:416-535 | the attempt loop comes to the series' outcome for every script of attempts |
| `Failover.JudgeFinals` | internal/edge/invite_leg.go:254-298 | one attempt sends at most one final; a finalised one without any has seen the caller's own CANCEL |
| `Failover.ExactlyOneFinal` | internal/edge/invite.go:416-552 | the caller gets exactly one final, none only when its own CANCEL finalised it (section 16.7 of RFC 3261) |
| `Failover.RetryOnlyAfterSilence` | internal/edge/invite.go:501-530 | nodes are dialed in order, another only after one that gave no response to forward and failed below SIP; exactly those are penalised |
| `Failover.NoNodeTwice` | internal/edge/invite.go:416-430 | no node is dialed twice |
| `Failover.RecoveredAnswered` | internal/edge/invite.go:501-510 | a node leaves cooldown only as the last one dialed, its final being the caller's; any other final is FreeSBC's own 408, 483, 487, 488 or 503 |
| `Failover.EveryNodeTried` | internal/edge/invite.go:524-535 | when every node is silent and nobody gives up all are tried, then the caller gets 503 |
| `SeriesOutcomes.Answered` | internal/edge/invite_leg.go:246-339 | after any nodes passed over, a final that is relayed is the caller's only one, no other node is dialed, and its node is taken out of cooldown |
| `SeriesOutcomes.MediaFailed` | internal/edge/invite_leg.go:254-290 | a response whose media cannot be relayed ends the call with 488, or as given up if it was given up meanwhile |
| `SeriesOutcomes.TooLate` | internal/edge/invite_leg.go:254-275 | a response after the call was given up is not relayed and no other node is dialed |
| `SeriesOutcomes.Unanswered` | internal/edge/invite.go:501-535 | a node without a final ends the series unless it sent nothing beyond 100, failed below SIP and time remains |
| `SeriesOutcomes.NotDialed` | internal/edge/invite.go:416-500 | time up, 483 or a given-up call stop the series before the node is dialed |
| `SeriesOutcomes.NobodyReached` | internal/edge/invite.go:524-552 | every node passed over: the caller gets nothing after its own CANCEL, else 408, 487 or 503 |
| `Headers.DropOne` | internal/edge/arrival.go:175-183 | removing the first header of the first collected name removes the first header that is to go |
| `Headers.Message.RemoveCollected` | internal/edge/hide.go:321-331 | collecting names and removing one header for each leaves exactly the headers that were to stay, in order |
| `Headers.Message.RemoveHeaders` | internal/sip/header.go:28-31 | every header of the name goes, no other |
| `RouteSets.StripOwnRoutes` | internal/edge/forward.go:138-146 | exactly the leading Routes that name FreeSBC go |
| `Extensions.SanitizeExtensions` | internal/edge/extensions.go:40-94 | the Allow headers, in any spelling, become one with the accepted tokens, or none, or stay when all are accepted |
| `Extensions.SanitizedTokens` | internal/edge/extensions.go:56-94 | read again, Allow lists exactly the accepted tokens in their order; every other header is as it was |
| `Extensions.SanitizedTwice` | internal/edge/extensions.go:80-89 | a second pass changes nothing |
| `Extensions.WrittenReads` | internal/edge/extensions.go:70-76 | tokens with any white space around them and commas between are read back |
| `Extensions.AllowRead` | internal/edge/extensions.go:56-68 | Allow is read in any case, other headers are not |
| `RouteSets.PrepareForward` | internal/edge/forward.go:40-104 | fails exactly on a request with no hops left; else own Via over the annotated one, Record-Routes destination over origin, own Routes and internal headers gone, Allow reduced, one hop less, all else kept in order |
| `RouteSets.HopsAfter` | internal/edge/forward.go:60-79 | Max-Forwards leaves one lower than it came, 70 where there was none |
| `RouteSets.LoopEnds` | internal/edge/forward.go:60-79 | over repeated passes a request with n hops is forwarded exactly n times and then refused |
| `RouteSets.LoopEndsWithout` | internal/edge/forward.go:60-79 | one without the header 71 times |
| `RouteSets.OwnHeaders` | internal/edge/topology.go:105-152 | what FreeSBC writes of itself: URI, Record-Route with lr, Via with rport on UDP alone |
| `RouteSets.OwnWithoutPort` | internal/edge/topology.go:332-385 | without a port a URI is own at 5060, a Via at 5061, 80, 443 or 5060 by its transport |
| `RouteSets.NotOwn` | internal/edge/topology.go:332-360 | a URI at another address or port is not FreeSBC's |
| `RouteSets.SwitchHosts` | internal/edge/hide.go:139-156 | the switch's hosts are the private socket's and the switches' addresses, bare, bracketed or mapped, and no other |
| `RouteSets.InternalIs` | internal/edge/arrival.go:120-145 | an internal header is one whose name begins with X-FreeSBC- in any case |
| `RouteSets.AnnotatedReturns` | internal/edge/forward.go:111-132 | a response along an annotated Via goes to the host the request came from, unless the Via names that host and already carries another as received; to its port exactly when rport was asked for |
| `RouteSets.HideToPublic` | internal/edge/hide.go:363-384 | one Via, FreeSBC's Record-Route alone, no Route outside a dialog, From, To and Contact public; of the generic headers the identity ones masked, the internal ones gone and for a client those off the list |
| `RouteSets.HiddenLeaves` | internal/edge/hide.go:363-384 | an allowed header that is neither internal nor an identity header goes out as it came |
| `RouteSets.HiddenAllowed` | internal/edge/hide.go:363-384 | no internal header goes out, and to a client none off the list |
| `RouteSets.HiddenClean` | internal/edge/hide.go:363-384 | when a client's list has the identity headers, none that goes out names a switch if and only if under each name those that did were spelled as its first |
| `Identities.MaskIdentityHeaders` | internal/edge/hide.go:231-256 | the loop over the ten names comes to the passes for one name after another |
| `Identities.TenNames` | internal/edge/hide.go:128-129 | which headers are identity headers, in any case |
| `Identities.IdentityCleanIff` | internal/edge/hide.go:231-256 | after masking no identity header names a switch if and only if under each name every header that did was spelled as the first one |
| `Identities.MaskedGroup` | internal/edge/hide.go:235-256 | headers of a name all spelled alike keep their order and get their rewritten values |
| `Identities.MixedCaseStays` | internal/edge/hide.go:250-255 | of a Diversion and a diversion header the second goes out with the switch's host |
| `RouteSets.PopOwnVia` | internal/edge/forward.go:172-184 | removes the top Via exactly when it is FreeSBC's and something is left to route by |
| `RouteSets.ResponseToSwitch` | internal/edge/hide.go:389-404 | the switch's own Vias and From and To addresses come back |
| `RouteSets.AddressBack` | internal/edge/hide.go:398-403 | the request's From and To addresses come back under the tags of the answer |
| `RouteSets.AddPrivateRecordRoute` | internal/edge/hide.go:462-487 | the private entry goes right after the last public one, else to the end, all others kept in order |
| `RouteSets.HideRecordRoutes` | internal/edge/hide.go:443-455 | exactly the entries naming the private socket, and for a client a switch, are removed |
| `RouteSets.MaskRoundTrip` | internal/edge/hide.go:159-163 | a masked URI echoed by the far end gets its real host and port back |
| `RouteSets.MaskedIs` | internal/edge/hide.go:159-163 | masking puts the public address without a port and changes nothing else |
| `RouteSets.MaskedAddress` | internal/edge/hide.go:211-217 | From and To keep their tags and get the masked address |
| `RouteSets.MaskHides` | internal/edge/hide.go:159-163 | no switch address survives masking |
| `RouteSets.RouteSetRoundTrip` | internal/edge/hide.go:462-487 | a switch's route set is private, public, then the hops; a request along it leaves with exactly the hops in order if and only if the first of them is not FreeSBC again (section 12.1.2 of RFC 3261, RFC 5658) |
| `RouteSets.EchoWithoutPublic` | internal/edge/hide.go:458-462 | when no public entry is echoed the route set still starts at the private socket |
| `RouteSets.FarEndRouteSet` | internal/edge/forward.go:134-146 | along the far end's route set FreeSBC strips nothing exactly while the next hop is another's, and its own entry, the last, when it is the only one left (section 12.1.1 of RFC 3261) |
| `RouteSets.ClientRouteSet` | internal/edge/hide.go:438-455 | for a client's call the switch reaches the client's proxies in order exactly when the first is not FreeSBC, and the client is shown the list without the private entry exactly when no hop names the private socket or a switch |
| `RouteSets.TeardownReaches` | internal/sip/request.go:164-182 | an ACK or BYE FreeSBC sends itself takes the same hops as the dialog's requests |
| `Calls.SwitchCall` | internal/edge/forward.go:211-240 | a switch's call, message by message: one hop less on the way, own Vias, From and To back, the right route set, and a later request that leaves with exactly the hops if and only if the first of them is not FreeSBC again |
| `Calls.ClientCall` | internal/edge/forward.go:211-240 | a client's call: the switch sees the private entry first, then the public one, then the client's proxies; the client gets its own Vias back and the list without the private entry; the switch's later request leaves with exactly the proxies |
| `Calls.ResponseToClient` | internal/edge/hide.go:422-434 | toward a client own Record-Routes but the public one go, identity and Contact are FreeSBC's, and what is off the list |
| `Redaction.HeaderLines` | internal/edge/hepmirror.go:223-246 | shows the callback the lines of the header section at their offsets, without terminators, up to the empty line or the line it stops at, and returns where the body, or what follows that line, starts |
| `Redaction.RedactAuthHeaders` | internal/edge/hepmirror.go:287-314 | copying around the cursor yields the message with each credential header masked and its folds dropped |
| `RedactionWire.MessageRedacted` | internal/edge/hepmirror.go:282-314 | a message written line by line comes out as it was but for the value and continuations of each Authorization and Proxy-Authorization header, in any case, which read REDACTED |
| `Redaction.ReadsRedacted` | internal/edge/hepmirror.go:287-314 | the result reads back as the rewritten header section with the same empty line and body |
| `Redaction.OnlyCredentialsChange` | internal/edge/hepmirror.go:282-314 | body, start line and every line of another header come out byte for byte |
| `Redaction.NothingLeft` | internal/edge/hepmirror.go:282-314 | every credential header of the result reads REDACTED and no fold follows it |
| `Redaction.NoLeak` | internal/edge/hepmirror.go:282-314 | two messages that differ only in the value and folds of a credential header give the same result |
| `Redaction.Idempotent` | internal/edge/hepmirror.go:287-314 | redacting twice is redacting once |
| `Srv.OrderSRV` | internal/edge/carrierdns.go:427-479 | the targets come in the order the groups are drawn: by priority, zero weights first, each group drawn empty |
| `Srv.Pick` | internal/edge/carrierdns.go:454-471 | the loop over running sums finds the record the draw falls on |
| `Srv.OrderPermutes` | internal/edge/carrierdns.go:427-479 | for every random stream a permutation of the usable records in ascending priority |
| `Srv.UsableMembers` | internal/edge/carrierdns.go:430-433 | the usable records are those with a target and a port, each as often as it was listed |
| `Srv.ZerosComeFirst` | internal/edge/carrierdns.go:443-450 | records of weight zero come before the others of their priority |
| `Srv.DrawnAlike` | internal/edge/carrierdns.go:454-471 | without any weight each record is drawn alike, else the first whose running sum reaches the draw |
| `Srv.TargetsNamed` | internal/edge/carrierdns.go:430-474 | a target loses its last dot; "." alone or port 0 is none |
| `Srv.WinsByWeight` | internal/edge/carrierdns.go:450-471 | among the draws 0..total a record wins exactly as many as its weight, the first of the group one more (RFC 2782) |
| `Breakers.CooldownTable.RegisterUnanswered` | internal/edge/cooldown.go:116-139 | counts a silence, opens at the third or on a failed probe, for the window of the level, and warns at most once a window otherwise |
| `Breakers.CooldownTable.RegisterAllow` | internal/edge/cooldown.go:71-84 | closed allows; open admits one probe after its window and none while it is in flight |
| `Breakers.ClosedIsFresh` | internal/edge/cooldown.go:71-139 | over every run closed means level 0 and fewer than three failures |
| `Breakers.OpenIff` | internal/edge/cooldown.go:107-139 | over every run a breaker is open exactly from the third silence on until a response comes |
| `Breakers.AdmitsIff` | internal/edge/cooldown.go:71-84 | closed admits all; open admits a probe once its window and the last probe's time are over |
| `Breakers.ReleaseFrees` | internal/edge/cooldown.go:86-95 | a probe given up makes room for the next at once |
| `Breakers.WarnedIff` | internal/edge/cooldown.go:107-139 | over every run a silence is warned of exactly when it opens the breaker or no warning came in 30 seconds |
| `Breakers.OpenUntilOnlyGrows` | internal/edge/cooldown.go:71-139 | unless an answer comes an open breaker stays open, its window only moves forward, and nothing is dialed before it ends |
| `Breakers.KthOpening` | internal/edge/cooldown.go:62-64 | the k-th opening without an answer between lasts 30 s, 1 min, then 5 min |
| `Breakers.LateFailureOnlyCounted` | internal/edge/cooldown.go:113-115 | a failed attempt that was not the probe changes neither level nor window |
| `Breakers.OneProbeAtATime` | internal/edge/cooldown.go:66-84 | between two probes the first was answered, failed or given up, or its budget ran out |
| `Trackers.EnumLimiter.Rejected` | internal/edge/admission.go:452-483 | a rejection moves its source to the front, opens or continues its window, evicts the last source when full, and counts a new AoR |
| `Trackers.EnumLimiter.Blocked` | internal/edge/admission.go:438-447 | a source is blocked while its window lasts and it has ten AoRs |
| `Trackers.KeysSame` | internal/edge/admission.go:429-435 | IPv6 sources are told apart by their first 64 bits, IPv4 ones by all of theirs, mapped or not |
| `Trackers.EntryAfter` | internal/edge/admission.go:455-483 | a source's window restarts 600 seconds after it began and counts at most ten AoRs, each once; the tenth is reported |
| `Trackers.RejectedSound` | internal/edge/admission.go:452-483 | map and list hold the same keys, at most max; each entry at most ten different AoRs |
| `Trackers.TracksMostRecent` | internal/edge/admission.go:455-472 | the sources tracked are exactly the max most recently rejected ones |
| `Trackers.CountsDifferentAors` | internal/edge/admission.go:473-483 | an entry holds the first ten different AoRs of its window |
| `Trackers.ReachedByTheTenth` | internal/edge/admission.go:449-483 | the limit is reported exactly by the rejection that brings the window's tenth different AoR, so once a window |
| `Trackers.WarnOnce.First` | internal/edge/admission.go:365-381 | a key is first exactly when it is not remembered; the ring is the latest firsts, the set is the ring |
| `Health.WorstOfEach` | internal/admin/health.go:142-150 | an id is active if it was reported, with the worst of its severities |
| `Health.WorstIs` | internal/admin/health.go:142-150 | critical if any report of the id was, else degraded |
| `Health.HealthTracker.Evaluate` | internal/admin/health.go:130-193 | the active set becomes the live conditions, each keeping when it was first seen; one event per condition that moved, cleared ones last and by id; the list is worst first |
| `Health.SinceFirstSeen` | internal/admin/health.go:155-178 | a condition is active since it was first seen |
| `Health.MovesTell` | internal/admin/health.go:155-171 | the event of a condition that moved says whether it is new, and its severity and message |
| `Health.WorstFirst` | internal/admin/health.go:186-193 | in the list no critical condition comes after a degraded one, and those of one severity come by id |
| `Health.HealthTracker.Push` | internal/admin/health.go:117-125 | the ring stays the last 200 entries of the log |
| `Health.HealthTracker.History` | internal/admin/health.go:196-204 | the last 200 entries of the log in reverse |
| `Health.AgreeMoves` | internal/admin/health.go:155-171 | replaying the log after a condition was noted gives the active set |
| `Health.AgreeClears` | internal/admin/health.go:180-184 | replaying the log after a condition was cleared gives the active set |
| `Health.HealthStatus` | internal/admin/health.go:208-217 | critical exactly when some condition is, ok exactly when there is none |
| `Sdes.LegPolicy` | internal/edge/sdes.go:66-93 | a required policy is never weakened; keys travel only over secure signaling unless allowed otherwise |
| `Sdes.PolicyIs` | internal/edge/sdes.go:66-93 | the policy as set where signaling may carry keys; elsewhere impossible if required, else off |
| `Sdes.MediaSession.PlanAnswer` | internal/edge/sdes.go:182-213 | the plan for a far end's offer, which changes nothing |
| `Sdes.MediaSession.CheckAnswer` | internal/edge/sdes.go:219-253 | an answer takes a line that was offered, by tag and suite, exactly when it repeats one; else why it is refused |
| `Sdes.MediaSession.Commit` | internal/edge/sdes.go:259-285 | the state and the media after a plan takes effect, or after the media refused a key |
| `Sdes.MediaSession.SetRemote` | internal/media/sdes.go:120-135 | the first key tried makes the side an SRTP side, the key in force is taken without effect, a refused one leaves the previous |
| `Sdes.OfferAnswered` | internal/edge/sdes.go:148-285 | an offer answered with one of its lines puts the leg on SRTP with that line's key and the answer's, and the next offer repeats the line |
| `Sdes.OfferAnsweredPlain` | internal/edge/sdes.go:148-285 | answered plain, an optional leg settles on plain and offers nothing from then on; a required one refuses |
| `Sdes.OfferPlanned` | internal/edge/sdes.go:182-213 | a far end's offer is answered under its usable line's tag with the key in force or a new one, plain where plain is allowed |
| `Sdes.PolicyKept` | internal/edge/sdes.go:148-285 | over every interleaving never both on SRTP and plain; required never plain; impossible neither |
| `Sdes.NeverBackToPlain` | internal/edge/sdes.go:259-285 | once on SRTP a leg stays so, whatever is planned and committed |
| `Sdes.PlanningChangesNothing` | internal/edge/sdes.go:148-253 | offers and plans change no key in force and not the state; the first line set stays the same |
| `Sdes.KeyKept` | internal/edge/sdes.go:144-213 | a re-offer repeats the key in force and an answer of the same suite keeps it |
| `Sdes.MediaAgreesIff` | internal/edge/sdes.go:271-284 | a commit parts media and state if and only if the media refuses a key: on an SRTP leg our new one after taking the peer's new one, on any other leg either; then, and only on such a leg, packets are dropped |
| `Sdes.CommitRestores` | internal/edge/sdes.go:271-284 | a commit of keys that succeeds brings media and state together from any state |
| `Sdes.MediaAgreesOverRuns` | internal/edge/sdes.go:148-285 | over every interleaving media and state agree as long as the media refuses no key |
| `Sdes.RefusedKeyDropsPlainMedia` | internal/edge/sdes.go:271-284 | a leg settled on plain whose commit is refused a key stays plain in the state while the media drops its packets |
| `Sdes.RefusedKeyPartsSrtp` | internal/edge/sdes.go:271-284 | an SRTP leg refused our new key hears the peer under the new one while the state keeps the old |
| `IngressFilter.IfindexFilter` | internal/edge/privatefilter_linux.go:78-109 | compiles the list: load, one test per index, accept, drop |
| `IngressFilter.FilterAccepts` | internal/edge/privatefilter_linux.go:78-109 | a program of at least one index ends and accepts exactly the last 256 indexes |
| `IngressFilter.SmallFilterExact` | internal/edge/privatefilter_linux.go:75-109 | with up to 256 indexes it accepts exactly the listed ones |
| `IngressFilter.FilterCorrectIff` | internal/edge/privatefilter_linux.go:85-99 | it accepts exactly the listed ones if and only if there is one and each stands among the last 256 |
| `IngressFilter.FirstOf257Dropped` | internal/edge/privatefilter_linux.go:88-99 | with 257 different indexes the first is dropped |
| `IngressFilter.EmptyAcceptsAll` | internal/edge/privatefilter_linux.go:85-99 | with no index everything is accepted |

## Left out

- Sockets, TLS, the accept path and the per-connection counters of `stream.go` (`streamTable`): plumbing and one more pair of counters.
- SIP and SDP parsing, media, ICE, DTLS and the transaction layer: headers are already parsed, an SDP body is what the SRTP logic reads of it, a transaction is a script of responses.
- Logging, metrics and the text of log lines.
- Whether a CANCEL handed to the network arrives: sending it is one event.
- `dialogTable.lookup`, `lookupEarly`, fork and route bookkeeping of a dialog, the reporting of a call's terminator: independent reads and fields.
- `relayInviteResponse` and `prov.go`: what relaying a response comes to, and which provisionals are replayed before a final, are inputs of the pump.
- The checks of `inviteToUpstream` before the attempt loop (early-call cap, media offer, carrier pinning) and the drain after a CANCEL.
- Wire order of replayed provisionals relative to those already relayed.
- The hash of `hashUpstreamUser`: any number.
- The other parameters of a Via. Setting a parameter replaces it, as sipgo's `Params.Add` does; sipgo is not part of this model.
- The regular expression that finds hosts inside identity header values: what a value is rewritten to, if it names a switch, is an input. From and To are masked as URIs.
- The concrete client header allowlist: any predicate on names. `respToCarrier` is covered by its Record-Route step alone.
- How text is lower-cased and compared without case in `Location`: any such functions.
- Textual forms of addresses: any printer and reader that round-trip.
- The order of headers of different names in a message, which SIP does not use.
- `nextStreamMessage` and `callIDOf` of `hepmirror.go`: readers of the same lines.
- Lookup, caching and publishing of carrier addresses; `dedupeAddrPorts`.
- The passive cooldown (`Penalize`, `Recover`, `Available`) but for its use in the failover series.
- `dropSummary` and the admission decisions around the trackers.
- The media relay behind a committed SRTP plan: whether it takes a key is an input.
- Locations.Location.Put: where the flow has no binding left after the sweep, the token stored must not be another flow's, as tokens are random.
- SubscriptionProtocol.NoOrphanRecords: says nothing about how soon steps in flight finish.
- Failover.ExactlyOneFinal: counts finals FreeSBC sends; that a server transaction delivers only its first one is the transaction layer's.
- Sdes.PolicyKept: a newly made line set is not empty, as `sdp.OfferCrypto` makes one line per suite.
- Kernel limits on the length of a BPF program.
