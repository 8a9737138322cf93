# libnetconf2 in Dafny

libnetconf2 is a NETCONF library in C. This project models the parts in which state, buffers and
the order of messages interact, and proves what they are for: that what one end writes is what the
other reads, that locks exclude, that nothing is lost, duplicated or released twice, and where a
property fails, exactly when it holds.

Run `dafny verify dfyconfig.toml` to verify everything.

The modules, in the order in which they build on each other:

- `Text`, `SessionState`: C string and number functions; the states of a session.
- `Framing`: the two message framings of RFC 6242 (sections 4.2 and 4.3) as functions on byte strings.
- `Transport`, `Receiver`: a session over a transport that splits and delays bytes at will, and the read loops.
- `Escaping`, `Sender`, `Messages`: XML escaping, the writer with its 1024-byte buffer, and the rpc, reply and hello messages.
- `Handshake`: hello messages and version choice.
- `Traffic`: whole conversations, from the handshake of two ends on.
- `Lifecycle`: the states of a session over its whole life.
- `TicketLock`: the lock of a poll session as a state machine over any number of threads.
- `Demux`, `Pipeline`: the client's two message queues, and client, channels and server together.
- `RpcTraffic`: rpcs and replies with their message-ids, down to the bytes of two sessions.
- `SshRing`: the ring of NETCONF sessions on one SSH connection.
- `Calendar`, `DateTime`: civil dates and the date-and-time strings of RFC 3339.
- `Capability`: module capability URIs (section 5.6.4 of RFC 6020).
- `SwapRemoval`, `PollTable`, `Endpoints`, `DeleteLoops`: tables kept in arrays with removal by swapping.
- `CertToName`: the ordered cert-to-name list of RFC 7589 (section 7) and its lookup.

The transport is a script of events: data in pieces of any size, polls that find nothing,
interrupted calls, and at most one end of file or failure. A script that has run out stays idle for
ever. Threads, channels and poll events are steps of state machines. Clocks, XML parsing, digests,
listening sockets and the outcome of foreign calls are parameters. Heap structures (rings, lists)
are described by a sequence of their nodes that is passed along as a ghost argument.

Where a property the documentation or the design suggests is false, the code is kept as it is:

- The documentation of the three delete functions promises that a missing argument matches all
  entries. Their loops step past the entry they swap in (`DelTransportCanMiss`); they remove all m
  matching entries if and only if none of these is among the last m - 1 (`SweepClearsIff`).
- A waiter of the poll-session lock that times out drops the ticket at the head, which is its own if
  and only if it is first in line (`TimeOutDropsTheHead`, `TimeOutDropsOwnIff`). It returns with the
  mutex held, as does a thread that finds the ring full. Mutual exclusion and order survive this in
  all runs; progress holds if and only if neither happened before (`ProgressIff`).
- The hand-over of the SSH message callback finds an heir if and only if a running session is left;
  otherwise it runs off the end of the list if one session is left, and round the ring for ever if
  there are more (`HandOverSearchIff`). A failed handshake on a second channel is enough for the
  first (`OneFailedHandshake`), on a third for the second (`TwoFailedHandshakes`).
- A message is reported as sent whenever the session stays live. It went out whole if and only if
  every write call took all its bytes (`LostMessageIsSuccess`, `WriteMessage`).
- Clearing a poll session frees no session twice if and only if none that it frees was added twice
  (`AddedTwiceIsFreedTwice`, `Clear`).
- A poll event is taken although nothing is read if and only if the connection is not broken and the
  session cannot be locked in time (`LockTimeoutLosesEvent`, `EventLostIff`).
- Printed times with negative offsets that are not whole hours, and times outside the years 0 to
  9999, do not read back (`HalfHourWestIsLost`, `DateTimeRoundTripIff`). A zone "-00:mm" of any peer is
  read as if it lay east; every other zone of that form is read right (`MinutesWestAreEast`, `ZoneShiftIff`).
- A module arrives with all its features if and only if its URI fits the buffer of the server. If not
  even the first feature fits, the empty feature name is announced (`EmptyFeatureIsAnnounced`); if
  what comes before it does not fit, the buffer is overrun (`LongNamespaceOverruns`). The exact
  condition of each is `AnnouncedIsParsedIff`.

## Model

| member | source | states |
|---|---|---|
| `Text.NumberIsScanned` | src/session_client.c:558 | What a number is read as wherever strtoul() or strtol() reads one: white space, an optional sign and digits, up to the first other character |
| `Framing.ChunkedRoundTrip` | src/io.c:286-331 | For every list of non-empty chunks, whatever "\n#" or "##" they contain, the chunk loop reads back their concatenation and leaves the suffix unread; no chunk at all is refused |
| `Framing.AnyHeader` | src/io.c:287-330 | Whatever stands before a chunk header and in it: the end mark ends a message if there was a chunk, a header without a number or with 0 is malformed, one that announces too much waits for more, and any other takes that many bytes |
| `Framing.NoHeaderStarves` | src/io.c:288-295 | Without the start or the end of a header there is no message yet |
| `Framing.TaggedRoundTrip` | src/io.c:277-285 | Text followed by the end-of-message tag reads back as itself if and only if it neither contains the tag nor ends in "]]>" (and fits an int) |
| `Framing.TagBorder` | src/io.c:188-255 | "]]>" is the only proper border of the tag, so the only way in which text and tag can overlap |
| `Framing.WireRoundTrip` | src/io.c:276-334 | In either version a message survives framing if and only if that version can carry it |
| `Framing.TrafficRoundTrip` | src/io.c:276-334 | A sequence of messages is read as the sequence written, with whatever follows left unread |
| `Transport.Sleep` | src/io.c:133-149 | Neither 16-bit counter of a read wraps; the read gives up exactly when its patience is used up |
| `Transport.Session.Read` | src/io.c:33-156 | Exactly the next count bytes if and only if that many come before the timeout, however they are split; otherwise the session is invalid, as dropped if the peer closed in time and for another reason if not; nothing is read once it is not live |
| `Transport.Session.Collect` | src/io.c:51-155 | The read loop ends, by (bytes left, events left, seconds left, idle polls left), and depends on the bytes and the idle polls before them only |
| `Transport.Session.Write` | src/io.c:565-608 | A dead session is left alone; a peer that is gone makes it invalid, as dropped; otherwise the bytes the call takes go out, and a call that takes fewer or fails is a loss that leaves the session live |
| `Receiver.ReadUntil` | src/io.c:188-256 | Reads up to and including the first occurrence of the tag, byte by byte, and no further |
| `Receiver.ReadChunk` | src/io.c:158-186 | Reads exactly the announced number of bytes |
| `Receiver.ReadFrame` | src/io.c:287-330 | One chunk header with its body, or the end of the chunks, as decoding the pending bytes says |
| `Receiver.ReadMessage` | src/io.c:276-334 | The loops over any transport return what decoding the pending bytes returns, so the result does not depend on fragmentation; with a prompt peer reading fails exactly when the bytes run out, and what is left stays prompt |
| `Receiver.PollMessage` | src/io.c:397-515 | A message only if poll() finds input; a hang-up or an error makes the session invalid with the pending bytes unread, a timeout changes nothing |
| `Escaping.EscapeRoundTrip` | src/io.c:713-734 | Unescaping undoes escaping for every text |
| `Escaping.EscapedHasNoMarkup` | src/io.c:713-734 | Escaped text contains no "<" and no ">" |
| `Escaping.HelloIsTagFree` | src/io.c:999-1032 | Every hello, for all capability strings, can be sent with the end-of-message tag |
| `Sender.WriteFrame` | src/io.c:610-631 | A chunk with its header, or the bare bytes, by version: whole without a loss, short with one; a call that fails ends it |
| `Sender.Writer.constructor` | src/io.c:933-934 | A fresh writer has accepted nothing |
| `Sender.Writer.Flush` | src/io.c:647-660 | The buffer becomes one frame, never an empty one; what was accepted stays the same |
| `Sender.Writer.Put` | src/io.c:661-744 | Without a loss, what was accepted grows by the rendered piece, wherever flushes fall; the fill level stays within 1024 |
| `Sender.Writer.PutDirectly` | src/io.c:685-700 | The direct write happens with an empty buffer only and keeps the order of bytes |
| `Sender.Writer.PutEscaped` | src/io.c:701-740 | Character-wise escaping through the buffer is escaping the whole text |
| `Sender.Writer.Finish` | src/io.c:668-683 | Frames and end mark, whose concatenation is all that was accepted, have gone out whole if and only if there was no loss |
| `Messages.TransmittedIsReceived` | src/io.c:276-334 | What a writer transmits, a reader recovers: always with chunks, otherwise if and only if the text is tag free |
| `Messages.WriteMessage` | src/io.c:924-1049 | The result is 0 if and only if the session is still live; the frames and the end mark then went out whole if and only if every write call took all its bytes, and in that case they spell the pieces in order; before an end-of-message tag, the bytes that went out transmit the message itself if and only if every write call took all its bytes |
| `Messages.LostMessageIsSuccess` | src/io.c:1039-1049 | For every short text, a write call that fails sends nothing and yet the result is 0 |
| `Messages.WriteRpc` | src/io.c:938-957 | The rpc carries the next message-id modulo 2^64, used up even if the write fails |
| `Messages.WriteReply` | src/io.c:959-990 | The reply carries the attributes of the rpc it answers |
| `Messages.WriteHello` | src/io.c:999-1032 | Sends the hello text; refused on a session that already speaks chunks |
| `Messages.HelloIsReceived` | src/io.c:999-1032 | Whatever the capabilities, a hello that was sent is read back as sent if and only if its length fits an int |
| `Handshake.ParseCapabilities` | src/session.c:690-740 | The version is the highest one advertised, in any order and with duplicates; the list is that of the hello |
| `Handshake.ReceiveNode` | src/session.c:808-840 | What one child of a hello must be, and what it changes |
| `Handshake.SessionIdIff` | src/session.c:814-824 | For every content: a session-id is read if and only if it is a number from 1 to 2^32 - 1 without a minus and with nothing behind it, and it is then that number |
| `Handshake.ReceiveHello` | src/session.c:795-926 | A hello is accepted if and only if its children are good, the capabilities come once, and a client knows a session-id |
| `Handshake.HelloTextIsReadable` | src/io.c:999-1032 | A hello text determines its capabilities and session-id |
| `Handshake.AwaitHello` | src/session.c:795-926 | The hello is read after poll(): a hang-up makes the session invalid with the hello unread; otherwise an acceptable hello is accepted unless the transport fails |
| `Handshake.Establish` | src/session_server.c:517-525 | The session runs if and only if the handshake succeeded, and has then sent exactly its own hello if nothing was lost; with a peer's hello it succeeds with the highest version both ends have, for every list of the peer, and leaves what follows unread |
| `Handshake.HighestIsCommon` | src/session.c:690-740 | An end of this library, which looks at the peer's list only, holds the highest version of both lists, for every list in any order and with duplicates |
| `Traffic.WriteAll` | src/io.c:924-1049 | Any number of messages written without a loss go out whole and in order, each as frames that spell it |
| `Traffic.ReadAll` | src/io.c:490-515 | Any number of reads over any fragmentation return what decoding the pending bytes that often returns; they fail only if the bytes do not decode, poll() finds no input, or the session dies |
| `Traffic.Pass` | src/io.c:276-334 | What one session writes is what the other reads, in order, over any fragmentation, in either version |
| `Traffic.Meet` | src/session.c:742-949 | If each end is sent what the other writes, both come out running and neither reads beyond the hello; with prompt transports this cannot fail |
| `Traffic.HandshakeThenTraffic` | src/session.c:742-949 | A client and a server of this library: if what each writes comes in at the other in any pieces, both run with the highest version both have, and the messages each session then reads are those the other session wrote, in order; with prompt, lossless transports this cannot fail |
| `Lifecycle.Perform` | src/session_server.c:921-924 | The exact effect of every operation out of every state: after a reply the session is invalid if and only if it was so before or ran with a reason to end, and is unchanged otherwise; hang-up and error make it invalid with their reasons; reads and writes move exactly their bytes or make it invalid. None of them revives a session or makes it run |
| `Lifecycle.Live` | src/session_server.c:473-528 | Every life is a handshake, then each operation with its effect, in order, and the end |
| `Lifecycle.LifeIsOneWay` | src/io.c:43-45 | In every life: running only after a successful handshake and without a gap, dead for good and with no byte read or written, and invalid only with a reason |
| `Lifecycle.LastReplyEndsLife` | src/session_server.c:921-924 | In every life, a session that still runs has sent no reply while it had a reason to end: the reply to a close-session is its last one |
| `Lifecycle.HangUpEndsLife` | src/session_server.c:996-1013 | In every life, a hang-up or an error on the descriptor is the end, with its own reason, and no byte is read or written after it |
| `TicketLock.TicketQueue.Enqueue` | src/session_server.c:547-568 | Appends the successor of the last ticket to the queue the ring stands for; none if the ring is full |
| `TicketLock.TicketQueue.Dequeue` | src/session_server.c:607-609 | Drops the head of the queue the ring stands for |
| `TicketLock.TicketsDistinct` | src/session_p.h:274-287 | Consecutive 8-bit tickets in a queue are pairwise distinct |
| `TicketLock.StepKeepsInv` | src/session_server.c:530-620 | Every step of every thread, timeouts and a full ring included, keeps queue, threads and histories in order |
| `TicketLock.RingRefinesQueue` | src/session_server.c:547-609 | The ring buffer with 8-bit counters does what a queue does, step for step |
| `TicketLock.Perform` | src/session_server.c:530-620 | The queue updated in place goes through the same states as the ring of the state machine |
| `TicketLock.LockIsSafe` | src/session_server.c:530-620 | In every run at most one thread is between lock and unlock, and threads enter in order of arrival |
| `TicketLock.UnlockGivesUp` | src/session_server.c:597-618 | In every run an unlock lets its thread out, leaves nobody inside, and drops the head of the queue and of the ring; nothing else changes |
| `TicketLock.UnlockAdmitsNext` | src/session_server.c:570-590 | In every run, if a thread waits after an unlock and the mutex was not lost, the first in line is a waiter that can enter, and of all waiters it alone |
| `TicketLock.ArriveJoins` | src/session_server.c:547-568 | In every run a thread that arrives takes the next ticket and its place behind the queue, inside if and only if nobody was in line; at a full ring only the mutex changes |
| `TicketLock.WakeEnters` | src/session_server.c:570-590 | In every run a waiter that tests the head enters if it is first in line, and changes nothing if not |
| `TicketLock.TimeOutLeaves` | src/session_server.c:576-582 | In every run a waiter that gives up is outside, and the head of the queue is gone |
| `TicketLock.TicketsAreCounted` | src/session_server.c:547-609 | In every run that did not lose the mutex, as many threads arrived as there were arrivals, and as many tickets are queued as there were arrivals without an unlock |
| `TicketLock.QueuedTicketsDistinct` | src/session_server.c:547-568 | In every run without a timeout or an arrival at a full ring the queued tickets are consecutive and distinct |
| `TicketLock.LeakedIff` | src/session_server.c:558-583 | In every run the mutex is lost if and only if some thread timed out or arrived at a full ring before |
| `TicketLock.ProgressIff` | src/session_server.c:570-590 | In every run, with the lock free and a thread waiting, some waiter can enter if and only if no thread timed out or arrived at a full ring before |
| `TicketLock.NobodyEntersAfterLeak` | src/session_server.c:558-583 | After such a step no thread enters or takes a ticket at any later state of the run |
| `TicketLock.TimeOutDropsOwnIff` | src/session_server.c:576-582 | In every run the ticket a waiter drops when it gives up is its own if and only if it is first in line; otherwise its own stays in the queue |
| `TicketLock.TimeOutDropsTheHead` | src/session_server.c:576-582 | A concrete run in which a waiter's timeout drops another thread's ticket |
| `Demux.GetConserves` | src/session_client.c:472-567 | One call hands out the front of what is pending of a kind, or nothing, and leaves the rest in order |
| `Demux.DeliversIff` | src/session_client.c:472-567 | A call hands out a message if and only if it got the lock and one of the kind asked for is queued, or none is and one comes first on the wire; it is the first pending one, and its kind says whether the id matches |
| `Demux.UndeliveredKind` | src/session_client.c:498-586 | What a call that hands out nothing returns in each case, and where the message it read goes |
| `Demux.PendingIsDelivered` | src/session_client.c:472-500 | A pending message is handed out after at most as many calls as there are messages on the wire, whatever comes before it |
| `Demux.Client.GetMsg` | src/session_client.c:452-589 | In every interleaving, delivered, then queued, then on the wire is the original sequence of replies, and of notifications |
| `Pipeline.StepKeepsInv` | src/session_server.c:1081-1105 | Sending, serving, notifying and receiving keep the ids of replies and rpcs in transit equal to the ids sent |
| `Pipeline.RepliesMatchIff` | src/session_client.c:452-589 | In every interleaving a reply handed out has the id asked for if and only if that is the id of the first rpc without a reply handed out |
| `Pipeline.EveryRpcIsAnswered` | src/session_client.c:1801-1822 | When channels and queues are empty, every rpc has had its reply, in order |
| `Pipeline.RpcsAreCounted` | src/session_client.c:1801-1822 | In every run every send sends one rpc and every service answers one |
| `Pipeline.WrittenIsPending` | src/session_server.c:1081-1105 | A reply or a notification goes behind all that is pending of its kind, and nowhere else |
| `Pipeline.AllCanBeAnswered` | src/session_client.c:452-589 | From every state of every run, serving and asking for replies can go on until every rpc sent has had its reply |
| `RpcTraffic.SendAll` | src/session_client.c:1801-1822 | Any number of rpcs written without a loss go out whole and in order, with consecutive ids modulo 2^64, and the ids handed out are those in the bytes |
| `RpcTraffic.ServeAll` | src/session_server.c:1081-1105 | If rpcs with certain ids come in, in any pieces, their replies go out whole, in the same order and with the same ids, unless the transport fails; a prompt, lossless one cannot |
| `RpcTraffic.RpcsAreAnswered` | src/session_client.c:1801-1822 | A client sends any number of rpcs, a server reads and answers them, and the client reads the replies: if what each writes comes in at the other in any pieces, the id the client asks for is each time the one in the bytes it reads, and the text read is the reply to that rpc; with prompt, lossless transports this cannot fail |
| `RpcTraffic.ChunksCarryCalls` | src/io.c:286-331 | In chunks, every rpc and every reply can be carried, whatever is in them |
| `RpcTraffic.SomeParserReadsRpcs` | src/io.c:938-957 | The attributes can be read back from the text of an rpc, for every id and content |
| `RpcTraffic.SomeParserReadsReplies` | src/io.c:959-990 | The id can be read back from the text of a reply, for every id and body |
| `SshRing.HandOverSearchIff` | src/session.c:444-454 | The search for a new callback owner meets a running session if and only if the ring holds one, and the end of the list if and only if one session is left |
| `SshRing.Connection.constructor` | src/session_server_ssh.c:1107-1109 | A connection starts with one session that has the callback |
| `SshRing.Connection.ChannelSubsystem` | src/session_server_ssh.c:667-722 | Exactly when a request is granted; a further channel gets a session inserted behind the callback owner, and the sessions stay one ring with one owner |
| `SshRing.Connection.Free` | src/session.c:403-486 | A leaving session leaves one ring of exactly the others, the callback with one of them; the last one past its start releases the SSH session and the lock once, and name references balance; the call does not come back exactly when the owner of the callback leaves others of which one is past its start and none runs: off the end of the list with one other session, for ever with more |
| `SshRing.Connection.DropOthers` | src/session.c:413-429 | Unlinking the starting sessions one by one ends, and gives back their references |
| `SshRing.OthersActive` | src/session.c:403-411 | The walk round the ring finds out whether another session is past its start |
| `SshRing.Unlink` | src/session.c:435-443 | Taking out one session leaves a ring of the others, or a single session with no successor |
| `SshRing.FindRunning` | src/session.c:444-454 | The search returns a running session of the ring if there is one; otherwise it runs off the end exactly if there is one session, and for ever exactly if there are more |
| `SshRing.OneFailedHandshake` | src/session.c:435-454 | A connection whose second session failed its handshake: freeing the first one runs off the end of the list |
| `SshRing.TwoFailedHandshakes` | src/session.c:439-454 | A connection whose second and third session failed their handshakes: freeing the first one runs for ever |
| `SshRing.Serve` | src/session.c:403-486 | Under every sequence of channel requests, handshakes, accepts and frees the sessions stay one ring with one owner of the callback, and everything is released once, with the last session past its start; unless a free does not come back, and then none of the sessions left runs |
| `SshRing.Handle` | src/session.c:403-486 | One request keeps all this, and changes the set of sessions in its own way only: a released session goes, with all others if it takes the connection with it; a subsystem request adds one at most; nothing else adds or removes any |
| `SshRing.AcceptChannel` | src/session_server_ssh.c:1170-1226 | The first waiting session in ring order is found; its handshake leaves it running, starting or invalid, and in the ring |
| `Calendar.NumberOfCivil` | src/time.c:58 | timegm() undoes gmtime(): the day formula gives back the number of days walked |
| `Calendar.CivilOfNumber` | src/time.c:121-124 | gmtime() undoes timegm() for every valid date |
| `DateTime.DateTimeToTime` | src/time.c:24-90 | The step-by-step parser computes the parse function; a string that is too short or lacks one of four separators is refused |
| `DateTime.StampIsParsed` | src/time.c:24-90 | For every stamp, its fields in range or not: its time without an offset, its time less the offset of any zone of the form sign, hh, colon, mm, and a refusal of a zone without the colon |
| `DateTime.ZoneShiftIff` | src/time.c:76-84 | A zone of that form is read as the offset it stands for if and only if it lies east, has an hour, or has no minutes; otherwise as if it lay east |
| `DateTime.MinutesWestAreEast` | src/time.c:76-84 | "-00:30" is read as half an hour east |
| `DateTime.MonthsCarry` | src/time.c:50-58 | Months beyond the year carry into the next one |
| `DateTime.TimegmUndoesGmtime` | src/time.c:50-58 | Broken-down time reads back as the same time, for every time |
| `DateTime.ShiftIff` | src/time.c:66-84 | The offset read back is the one printed if and only if it is a whole number of minutes and above -1 hour or a whole number of hours |
| `DateTime.ShiftOfPrinted` | src/time.c:130-150 | What every printed offset reads back as: its whole minutes, but beyond -1 hour the minutes count the wrong way |
| `DateTime.DateTimeRoundTripIff` | src/time.c:130-176 | A time printed with an offset reads back as itself if and only if the local year is 0 to 9999 and the offset is as above |
| `DateTime.HalfHourWestIsLost` | src/time.c:79-83 | A time and an offset that do not read back |
| `DateTime.FractionIsIgnored` | src/time.c:60-65 | A fraction of a second does not change the result |
| `Capability.PrintModule` | src/session.c:652-671 | For every module: the buffer is overrun if and only if the module part, with the key if there are features, does not fit; otherwise the longest prefix of the features of which each passes the length test is printed, nothing if and only if the first does not fit, everything if and only if the whole URI does |
| `Capability.EnableFeatures` | src/session_client.c:106-143 | Cutting the string in place enables exactly the parts between commas, in order |
| `Capability.JoinRoundTrip` | src/session.c:657-670 | Cutting at commas undoes joining with commas |
| `Capability.ModuleRoundTrip` | src/session_client.c:66-146 | Parsing a printed URI recovers name and revision, and enables exactly the printed features in order |
| `Capability.AnnouncedIsParsedIff` | src/session_client.c:66-146 | For every module: the server overruns its buffer if and only if what comes before the features does not fit; the client recovers the module with all its features if and only if the whole URI fits, and is told to enable the empty feature if and only if there are features and the first is what does not fit |
| `Capability.EmptyFeatureIsAnnounced` | src/session.c:654-661 | A module with one long feature, for which the empty feature is announced |
| `Capability.LongNamespaceOverruns` | src/session.c:652-653 | A module with a long namespace and no features, for which the buffer is overrun |
| `SwapRemoval.SwapRemoveIsRemoval` | src/session_server.c:715-741 | Removal by swapping takes out exactly one entry |
| `SwapRemoval.SweepClearsIff` | src/session_server.c:1378-1421 | The delete loop removes all m matching entries if and only if none is among the last m - 1 |
| `SwapRemoval.SweepHalves` | src/session_server.c:1378-1421 | The delete loop leaves at most half of the matching entries |
| `SwapRemoval.SweepKeepsOthers` | src/session_server.c:1378-1421 | The delete loop keeps every other entry, as often as it was there |
| `SwapRemoval.DeleteMatching` | src/session_server_ssh.c:379-394 | The loop computes the sweep, and reports whether anything matched |
| `PollTable.PollSession.AddSession` | src/session_server.c:657-712 | A new entry of both arrays, without an event |
| `PollTable.PollSession.DelSession` | src/session_server.c:714-741 | Exactly the first entry of a session goes; every other session keeps its descriptor and its event |
| `PollTable.PollSession.Poll` | src/session_server.c:929-1127 | poll() runs if and only if all sessions run and no event is left over; exactly when the call fails or times out; otherwise the first event is dealt with: it stays if the connection is broken and is taken if not, also when the session cannot be locked and nothing is read; all others stay, and PENDING goes with a processed rpc exactly when one is left |
| `PollTable.EventLostIff` | src/session_server.c:1064-1088 | An event is taken without a read of its session if and only if the connection is not broken and the session lock fails or times out |
| `PollTable.LockTimeoutLosesEvent` | src/session_server.c:1081-1088 | Input on a session whose lock times out: the event is gone and nothing was read |
| `PollTable.PollSession.Process` | src/session_server.c:1074-1121 | Serving a session takes its event only, and reports its end exactly when it no longer runs |
| `PollTable.PollSession.ClearDead` | src/session_server.c:1154-1164 | Exactly the entries whose session does not run are dropped, the others keep their events; no session is freed twice if and only if none that does not run was in the table twice |
| `PollTable.PollSession.Clear` | src/session_server.c:1129-1169 | With `all` the table is emptied, otherwise the running sessions stay; freed and kept entries are those of before, and none is freed twice if and only if none that is freed was in the table twice |
| `PollTable.AddedTwiceIsFreedTwice` | src/session_server.c:1154-1164 | A session that does not run, added twice, is freed twice |
| `CertToName.InsertKeepsOrder` | src/session_server_tls.c:1362-1374 | Insertion behind the same and smaller ids keeps the list sorted and stable |
| `CertToName.CtnList.Add` | src/session_server_tls.c:1333-1376 | The list stays a proper list in order, with one more entry; bad arguments change nothing |
| `CertToName.CtnList.Del` | src/session_server_tls.c:1408-1457 | Exactly the entries go that differ in no field asked for, in place, and the order stays |
| `CertToName.FoundIsLeast` | src/session_server_tls.c:297-464 | An entry is found if and only if it fits and no lesser one, by id and then by order of insertion, fits or lacks its digest; an error means that the first to stop at lacks its digest, no match that there is none |
| `CertToName.FitsIff` | src/session_server_tls.c:297-464 | An entry fits if and only if its first two characters number an algorithm and the rest behind one more character, read as hexadecimal bytes in either case, is the digest of that algorithm |
| `CertToName.DigestTextSpells` | src/session_server_tls.c:70-84 | The text of a digest has byte i in hexadecimal at 3 * i and colons between bytes, nothing else |
| `CertToName.SameTextIff` | src/session_server_tls.c:330 | Comparing with the text of a digest without case is reading the digest |
| `CertToName.LookUpCached` | src/session_server_tls.c:297-464 | The lookup with cached digests returns what a lookup without caches would |
| `Endpoints.EndpointTable.Find` | src/session_server.c:44-71 | Lookup agrees with the map from transport and name |
| `Endpoints.EndpointTable.Add` | src/session_server.c:1173-1269 | Adds one entry to the map under a new key; refused arguments, a known key or a failure to listen change nothing; open sockets are those of the table |
| `Endpoints.EndpointTable.SetAddressPort` | src/session_server.c:1271-1334 | Changes address or port of one entry of the map, and its socket; the old one is closed |
| `Endpoints.EndpointTable.Del` | src/session_server.c:1336-1430 | Named deletion removes one key from the map, deletion without arguments all, deletion by transport what the sweep takes; sockets are closed with their entries |
| `Endpoints.DelTransportClearsIff` | src/session_server.c:1378-1421 | Deletion by transport keeps the other transports, and clears its own if and only if none of its m endpoints is among the last m - 1 |
| `Endpoints.DelTransportCanMiss` | src/session_server.c:1378-1421 | Of two endpoints on one transport the second survives |
| `DeleteLoops.AuthKeys.Del` | src/session_server_ssh.c:362-400 | Deletion of authorized keys, and exactly when it removes all that match |
| `DeleteLoops.CallHomeBinds.Del` | src/session_client.c:941-974 | Deletion of call-home binds, and exactly when it removes all that match |

## Left out

- libssh, OpenSSL and libyang; sockets, poll and files: what they return is a parameter or an event.
- XML parsing: a parser is a parameter that is expected to read hellos, rpcs or replies as this library prints them; `SomeParserReadsHellos`, `SomeParserReadsRpcs` and `SomeParserReadsReplies` show that such parsers exist.
- Receiver.ReadMessage: lengths above 2^31 - 1, which pass through an int, are left open (`Overflow`, `Undetermined`); the reply to malformed messages and the classification of messages by their root element are not modelled.
- Traffic.HandshakeThenTraffic: messages without a byte, which chunked framing cannot carry, and a server hello of 2^31 bytes or more; a hello without capabilities keeps version 1.0 and is covered by `ReceiveHello`.
- The sending of close-session by a client that frees its session, and how long poll() waits.
- Receiver.ReadUntil: the limit argument, which no caller uses.
- Messages.WriteMessage: in chunks, the only-if half speaks of the frames the writer cut; that no other way of cutting the message spells the same bytes after a loss is not claimed.
- RpcTraffic.RpcsAreAnswered: malformed rpcs and notifications in between; order and matching with notifications, in every interleaving, are the subject of `Pipeline`.
- Sender.Writer.Put: markup pieces above 2^31 - 1 bytes, and the byte counts returned.
- PollTable.PollSession.Poll: sessions over SSH, the idle timeout and the SESSION_ERROR bit.
- PollTable.PollSession.AddSession: a session without a transport, for which the source leaves its count and its arrays at odds.
- SshRing.Connection.ChannelSubsystem: authentication and the other message types.
- TicketLock.LockIsSafe: the clock behind the timed waits; a waiter may time out whenever it holds the mutex, and spurious wake-ups are included.
- Capability.ModuleRoundTrip: namespaces that contain one of the three keywords.
- Capability.AnnouncedIsParsedIff: namespaces that contain one of the three keywords; what an overrun does to the memory behind the buffer.
- DateTime.DateTimeRoundTripIff: offsets of 100 hours and more, which no time zone has; leap seconds.
- DateTime.DateTimeToTime: numbers beyond the range of an int, and reading behind the end of a string, which gives a NUL.
- CertToName.LookUpCached: fingerprints shorter than three characters have an empty hash part.
- Endpoints.EndpointTable.Add: the 16-bit count of endpoints, which wraps at 65536, and failing allocations.
- Locks around the endpoint table and the options, dictionary references other than those of the SSH ring, notification writing, call home, option setters, and message constructors: they would add easy members only.
- Allocation failure and logging everywhere.
