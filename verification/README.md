# A verified model of the KCP transport and of RapidJSON

The repository carries two third-party libraries that everything else stands on: KCP, a selective-repeat
ARQ protocol over datagrams (`3rd/kcp`), and RapidJSON, a JSON parser, printer and document model
(`3rd/rapidjson`). This project models both in Dafny 4.11 and proves what they are for.
`dafny verify dfyconfig.toml` checks everything.

## KCP

One endpoint is the class `KcpControlBlock.Kcp`. Its methods follow `ikcp_send`, `ikcp_recv`,
`ikcp_input`, `ikcp_flush`, `ikcp_update` and `ikcp_check` with their loops, counters, growing
acknowledgement array and datagram buffer. Each method is proved equal to a function of `KcpSpec` on the
value `Cb` of the control block: sequence numbers, timestamps and windows are 32-bit words, compared by
the sign of their wrapped difference.

`KcpNetwork` puts two endpoints on a network that loses, repeats, reorders and delays datagrams. An
`Execution` is a list of actions (either user sends or reads, either side flushes or updates its clock, a
datagram is delivered, lost or repeated) with the states it goes through. Beside the control block every
endpoint has a history: the fragments it numbered, the fragments its user took, the buffers accepted and
returned. Packets carry the unbounded numbers their 32-bit numbers stand for. The history only watches:
`DeliveredIsInput` shows that the control block evolves by `ikcp_input` on the bytes alone.

The network makes one assumption, `Timely`: a number is read while less than 2^31 away from the number of
the endpoint it is compared with. `AheadIsAutomatic` shows that the half of it about numbers ahead of the
reader holds by itself, turn by turn inside a datagram, when each sending window and the window it sends
into add up to less than 2^31, so that only a datagram delayed by 2^31 numbers can break it (`KcpTimely`).

`KcpEndToEnd` keeps an inductive invariant over both endpoints and everything in flight. `KcpTheorems`
draws from it, for every execution and every moment of it: delivery in order and exactly once through
wrap-around, nothing lost, messages returned one by one, bytes in order in stream mode, reading that cannot
stall, completeness once nothing is outstanding.

These are about what cannot happen. That the transfer can always be brought to its end is proved in
`KcpLiveness`: from every state of every execution, whatever the network holds or has lost, ticks of clocks that
only run forward, deliveries and reads alone lead to a state in which everything accepted has been read in both directions
(`EverythingGetsRead`). `KcpExchange` has the facts about single flushes and datagrams, and `KcpProgress`
puts them together to rounds: the oldest segment goes over and its acknowledgement comes back, or, when the
peer's window was closed, a window probe and its answer. The condition is on the receive window, which a
segment carries in 16 bits: `KcpStuck` proves that progress is guaranteed if and only if the remainder of
`rcv_wnd` by 65536 is at least 127, the longest message (at least 1 for a sender in stream mode), and
otherwise constructs an execution that no action can bring to an end.

`KcpEndpoint` needs no honest peer: it states what holds after any calls with any input bytes. `KcpSending` and
`KcpFeedback` say what a single flush and a single datagram do to every field: how many fragments are numbered,
which segments are written and when they are due again, which acknowledgement counts skips, and how timeouts, the
round-trip estimate, the probe timer and the congestion window move. `KcpTiming` is about batching into datagrams, the
flush timer, and the agreement of `ikcp_update` and `ikcp_check`. `IQueue` proves the intrusive queue macros on linked
nodes.

## RapidJSON

`JsonText` and `JsonParse` say what the reader does: white space and comments, strings, numbers, the
recursive parser, and the table-driven machine with its stack of (state, count) pairs. Both parsers depend
on the flags for comments, trailing commas, NaN and infinity and stopping early, on a handler that may refuse
any event, and on which integers beyond 64 bits are too large for a double. `JsonEquivalence` proves that they agree; `JsonTrace` proves
that the machine's stack stands for the containers open in what has been reported, and that reports are
well formed.

`JsonGrammar` defines the documents themselves, with the extensions the flags allow, as trees: gaps and comments and
the spellings of strings (`JsonLexemes`), numbers (`JsonNumbers`), containers with or without a trailing comma.
A tree has a text and denotes events. Both parsers accept a text if and only if it is the text of a document, and
report exactly what that document denotes (`ReadsDocuments`, `IterativeReadsDocuments`); so no text has two meanings.

`JsonReader.Reader` is the reader as it runs, on a buffer with a read cursor and a write cursor
(`JsonStream`): with or without in-place decoding, recursive or iterative, it does exactly what the
functions say, and strings handed over in place stay where they are to the end of the parse.

`JsonWriter` models Writer and PrettyWriter, `JsonRoundTrip` reads their output back, `JsonDocument` and
`JsonBuild` build a document from events and replay it, `JsonParseStream` does so from any text the reader
accepts, and `JsonBuild.DocumentRoundTrip` goes from a document through text to the identical document. `Encodings` relates the UTF-8 decoder to the grammar of
section 4 of RFC 3629, `PointerCodec`, `PointerParser` and `PointerEval` treat JSON Pointers (RFC 6901),
and `PoolAllocator` the memory pool.

## Where the code differs from its description

- `3rd/rapidjson/pointer.h:92-94` says that a token whose number is out of bounds has no index. The overflow
  test at line 909 misses some wraps: `OverflowMissed` shows `10000000000` becoming index 1410065408. Below
  2^32 - 1 the index is right (`IndexIsValue`); `IndexExact` says exactly when it is beyond that, and
  `FirstWrongIndices` gives the first range of numbers that get a wrong one, 4772185884 to 8589934590.
- `ikcp_wndsize` (`3rd/kcp/ikcp.c:1261-1272`) takes any window that is not too small, but the header has 16
  bits for it (line 906). A receive window of 65536 is advertised as 0 as soon as everything has been read,
  and window probes are answered with 0 forever: `CanGetStuck` constructs such a connection, and
  `ProgressExactly` says which windows are safe.
- `3rd/rapidjson/pointer.h:401-447` creates what it does not find, but a "-" token that has an index, which the
  public constructor admits, makes Create report an existing value as new: `IndexedDash` is such a pointer, and
  `LawsExact` proves that without one Create and Get agree on every tree.
- `3rd/rapidjson/reader.h:155` lets kParseNanAndInfFlag allow NaN, Inf, Infinity and the negative infinities. The code
  (lines 1187-1201) keeps the letters of a broken "NaN" when it tries "Inf", so it also takes "NInf" and
  "NaInfinity", and it goes on to a fraction or an exponent behind any such word: `StrayLetters`. `IsWord` lists the
  words it takes, exactly.
- The two JSON parsers give different error codes for a text that begins with `}`, `]`, `,` or `:`:
  `SameCodes` proves that this is the only difference.

## Model

| member | source | states |
|---|---|---|
| Wrap32.DiffIsExact | 3rd/kcp/ikcp.c:135-138 | The signed difference of two wrapped numbers is the difference of the numbers themselves if and only if they are less than 2^31 apart (2^31 itself on one side). |
| Wrap32.WrapInjective | 3rd/kcp/ikcp.c:135-138 | Numbers less than 2^32 apart with the same 32-bit form are equal. |
| KcpWire.HeaderRoundTrip | 3rd/kcp/ikcp.c:53-118 | The header fields and the length read from an encoded segment are the ones written. |
| KcpWire.HeaderLayout | 3rd/kcp/ikcp.c:903-917 | The header holds conv, cmd, frg, wnd, ts, sn, una and the length at these places, the least significant byte first. |
| KcpWire.ParseStep | 3rd/kcp/ikcp.c:757-865 | One turn of the receive loop on an encoded segment of the same conversation consumes exactly that segment. |
| KcpWire.ParseEncodeAll | 3rd/kcp/ikcp.c:757-865 | The receive loop works through exactly the encoded segments, in order, leaves nothing over and gives 0. |
| KcpWire.ParseBehind | 3rd/kcp/ikcp.c:757-865 | Behind good segments the receive loop stops at what comes next as if that stood alone. |
| KcpWire.ParseStops | 3rd/kcp/ikcp.c:764-784 | Less than a header stops it without an error, another conversation with -1, a length beyond the end or 31 bits with -2, an unknown command with -3. |
| KcpWire.CutsTile | 3rd/kcp/ikcp.c:950-1006 | The datagrams of a flush cover all segments once and in order, none is empty, none longer than the mtu. |
| KcpInvariants.CreatedOk | 3rd/kcp/ikcp.c:232-293 | A fresh control block satisfies the sender and receiver invariants. |
| KcpInvariants.InWindow | 3rd/kcp/ikcp.c:686-690 | The two wrapped comparisons accept a number exactly when it lies in [rcv_nxt, rcv_nxt + rcv_wnd). |
| KcpInvariants.AckRemovesExactly | 3rd/kcp/ikcp.c:570-590 | An acknowledgement, whatever its number, removes the segment of that number and no other. |
| KcpInvariants.FindsAcked | 3rd/kcp/ikcp.c:578-589 | Leaving the search early at a larger number skips no match. |
| KcpInvariants.LocateFinds | 3rd/kcp/ikcp.c:692-702 | The backward scan finds the one place that keeps rcv_buf sorted, or the duplicate. |
| KcpInvariants.InsertKeeps | 3rd/kcp/ikcp.c:692-710 | Inserting keeps rcv_buf sorted and free of duplicates; it gains exactly the new number, and a segment already there keeps its content. |
| KcpInvariants.ReleaseOk | 3rd/kcp/ikcp.c:718-729 | Moving available segments restores the receiver invariant. |
| KcpInvariants.InputOk | 3rd/kcp/ikcp.c:745-896 | Whatever bytes arrive, both invariants hold afterwards, snd_nxt stays and snd_una does not move back. |
| KcpInvariants.RecvOk | 3rd/kcp/ikcp.c:353-429 | Reading, peeking or failing to read keeps both invariants. |
| KcpInvariants.SendOk | 3rd/kcp/ikcp.c:462-536 | Sending, or refusing to, keeps both invariants. |
| KcpInvariants.FlushOk | 3rd/kcp/ikcp.c:925-1132 | A flush keeps both invariants. |
| KcpInvariants.UpdateOk | 3rd/kcp/ikcp.c:1139-1164 | An update keeps both invariants. |
| KcpInvariants.BuffersBounded | 3rd/kcp/ikcp.c:680-729 | Neither buffer is longer than its window. |
| KcpEndpoint.OrderInEveryUsage | 3rd/kcp/ikcp.c:353-1164 | After any calls with any input bytes: snd_buf and rcv_buf are strictly sorted inside their windows and no longer, snd_buf starts at snd_una and is empty exactly when snd_una = snd_nxt, rcv_queue is contiguous up to rcv_nxt and within the window, and rcv_nxt waits in rcv_buf only behind a full rcv_queue. |
| KcpEndpoint.NumbersOnlyGrow | 3rd/kcp/ikcp.c:559-568 | Between any two states of a usage with any input bytes, snd_una and snd_nxt are the wrapped forms of unbounded numbers that never fall and are never more than snd_wnd apart. |
| KcpHistory.DropsExactly | 3rd/kcp/ikcp.c:592-606 | A cumulative acknowledgement of number u, read in time, removes exactly the segments numbered below u. |
| KcpHistory.UnaReleases | 3rd/kcp/ikcp.c:784-786 | The una field takes out of snd_buf only what lies below it; the rest keeps number and content. |
| KcpHistory.AckReleases | 3rd/kcp/ikcp.c:788-793 | An acknowledgement of number a takes out of snd_buf at most the fragment numbered a. |
| KcpHistory.AdmitExtends | 3rd/kcp/ikcp.c:1015-1036 | Fragments that get a number are appended to the history in order and wait in snd_buf. |
| KcpHistory.ReleaseDelivers | 3rd/kcp/ikcp.c:718-729 | Moving segments to rcv_queue delivers them in order and loses none. |
| KcpHistory.PushArrives | 3rd/kcp/ikcp.c:823-842 | When fragment k arrives in time, what is in order stays a prefix of what was sent, nothing held is lost, and k is held afterwards unless it lies beyond the window. |
| KcpHistory.TakeDelivers | 3rd/kcp/ikcp.c:378-404 | Reading a message moves its fragments from rcv_queue to the history and loses nothing. |
| KcpMessages.SplitWhole | 3rd/kcp/ikcp.c:502-534 | Cutting a buffer into fragments loses nothing, fragments are at most mss long, and fragment numbers count down to 0 in message mode. |
| KcpMessages.SendAppends | 3rd/kcp/ikcp.c:462-536 | ikcp_send appends exactly the first `ret` bytes of its buffer to the bytes waiting in snd_queue, nothing when it refuses, and changes nothing else. |
| KcpMessages.SendCuts | 3rd/kcp/ikcp.c:502-534 | In message mode the buffer becomes segments behind those waiting, each but the last as long as the mtu with its header, with fragment numbers counting down to 0. |
| KcpMessages.SendRefuses | 3rd/kcp/ikcp.c:502-510 | Message mode refuses exactly the buffers of more than 127 fragments and otherwise takes all of it; stream mode refuses such a buffer exactly when the last segment has no room. |
| KcpMessages.SendKeepsStreamed | 3rd/kcp/ikcp.c:471-536 | In stream mode every waiting segment but the last stays exactly mss long across the tail replacement. |
| KcpMessages.HeadIsMessage | 3rd/kcp/ikcp.c:378-404 | The fragments at the head of rcv_queue are the beginning of the next message; once complete, they are that message. |
| KcpMessages.RecvMatchesPeek | 3rd/kcp/ikcp.c:378-406 | The bytes ikcp_recv copies are as many as ikcp_peeksize announced: the assertion cannot fail. |
| KcpMessages.RecvReports | 3rd/kcp/ikcp.c:353-429 | -1, -2 and -3 come exactly when nothing waits, fragments are missing and the buffer is too small, without a change; otherwise the message comes out, and the new window is to be told exactly when the queue was full and no longer is. |
| KcpNetwork.DeliveredIsInput | 3rd/kcp/ikcp.c:745-896 | The control block of an endpoint with a history evolves by ikcp_input alone. |
| KcpNetwork.FlushWires | 3rd/kcp/ikcp.c:925-1108 | What a flush writes: acknowledgements owed, window probes, and segments of snd_buf with their numbers and contents. |
| KcpNetwork.FlushEncodable | 3rd/kcp/ikcp.c:1089-1108 | Every segment a flush writes belongs to the conversation, has a non-negative length and fits the mtu. |
| KcpEndToEnd.TurnKeeps | 3rd/kcp/ikcp.c:757-865 | Reading one honest, timely segment keeps the invariant that links both endpoints. |
| KcpEndToEnd.FlushHonest | 3rd/kcp/ikcp.c:925-1108 | Every segment a flush writes tells the truth about the endpoint after the flush, under its unbounded numbers. |
| KcpEndToEnd.DeliverStep | 3rd/kcp/ikcp.c:745-896 | Delivering a datagram keeps the invariant. |
| KcpEndToEnd.FlushStep | 3rd/kcp/ikcp.c:925-1132 | Flushing keeps the invariant, with the new datagrams in flight. |
| KcpEndToEnd.RecvStep | 3rd/kcp/ikcp.c:353-429 | A user's reading keeps the invariant. |
| KcpEndToEnd.SendStep | 3rd/kcp/ikcp.c:462-536 | A user's sending keeps the invariant. |
| KcpEndToEnd.NextInv | 3rd/kcp/ikcp.c:353-1164 | Every action of the system keeps the invariant. |
| KcpEndToEnd.RunInv | 3rd/kcp/ikcp.c:353-1164 | The invariant holds at every moment of every execution. |
| KcpTheorems.InOrderExactlyOnce | 3rd/kcp/ikcp.c:680-729 | At every moment of every execution the fragments taken by the receiver's user followed by those in rcv_queue are a prefix of the fragments the sender numbered. |
| KcpTheorems.NothingLost | 3rd/kcp/ikcp.c:570-606 | A numbered fragment that no longer waits in the sender's snd_buf has been read, or is in the receiver's rcv_queue or rcv_buf. |
| KcpTheorems.BytesInOrder | 3rd/kcp/ikcp.c:353-536 | The bytes read on one side are a prefix of the bytes accepted on the other, in message and in stream mode. |
| KcpTheorems.MessagesInOrder | 3rd/kcp/ikcp.c:353-536 | In message mode the buffers returned are, one by one, the first buffers accepted. |
| KcpTheorems.StreamSegmentsFull | 3rd/kcp/ikcp.c:471-536 | In stream mode all waiting segments but the last are exactly mss long. |
| KcpTheorems.FullQueueIsReadable | 3rd/kcp/ikcp.c:435-457 | Whenever rcv_queue is full a complete message is at its head, so reading cannot stall. |
| KcpTheorems.QuietMeansComplete | 3rd/kcp/ikcp.c:353-1164 | When the sender has nothing waiting and rcv_queue is empty, everything accepted has been read. |
| KcpTimely.UnaWithinWindow | 3rd/kcp/ikcp.c:570-606 | snd_una is never more than the receiver's window beyond what the receiver has in order. |
| KcpTimely.NoneLateIsTimely | 3rd/kcp/ikcp.c:757-865 | When the windows of each direction add up to less than 2^31, honest segments none of which is 2^31 behind the reader at its turn are timely, turn by turn. |
| KcpTimely.RecentIsTimely | 3rd/kcp/ikcp.c:757-865 | Under the same windows, honest segments whose numbers are less than 2^31 behind everything numbered so far are timely. |
| KcpTheorems.AheadIsAutomatic | 3rd/kcp/ikcp.c:135-138 | In every execution with such windows a datagram in flight may be delivered whenever none of its segments is 2^31 behind the reader at its turn. |
| KcpExchange.AckSheds | 3rd/kcp/ikcp.c:788-793 | Reading the acknowledgement of the oldest segment makes snd_buf shorter, whatever else the datagram holds. |
| KcpExchange.FlushHead | 3rd/kcp/ikcp.c:1043-1103 | The oldest segment is among the segments a flush writes when it is new, timed out or skipped often enough, and otherwise waits on unchanged. |
| KcpExchange.FlushAsks | 3rd/kcp/ikcp.c:964-999 | With a closed window and an expired probe timer a flush writes a window probe. |
| KcpExchange.FlushWindow | 3rd/kcp/ikcp.c:895-919 | Every segment of a flush advertises the free part of the receive window, reduced to 16 bits. |
| KcpProgress.PushIsOwed | 3rd/kcp/ikcp.c:823-829 | A segment the reader has already, or expects next, is acknowledged, wherever it stands in a datagram. |
| KcpProgress.Exchange | 3rd/kcp/ikcp.c:745-1164 | While segments are in flight, forward clock ticks, deliveries and reads lead to a state in which the sender has less to get over and knows the receiver's free window. |
| KcpProgress.AskWindow | 3rd/kcp/ikcp.c:964-1008 | A sender with nothing in flight and a closed window gets to know the receiver's free window by a probe and its answer. |
| KcpProgress.Round | 3rd/kcp/ikcp.c:745-1164 | In every reachable state a sender with work gets some of it over, unless it waits behind a window that the receiver can only advertise as 0. |
| KcpLiveness.EverythingGetsRead | 3rd/kcp/ikcp.c:353-1164 | From every state of every execution whose windows can be told, forward clock ticks, deliveries and reads alone lead to a state in which everything accepted has been read in both directions. |
| KcpStuck.StuckForever | 3rd/kcp/ikcp.c:895-1008 | A sender waiting behind a receiver that can only advertise 0, with no other datagram in flight, waits forever: no sequence of actions gets everything read. |
| KcpStuck.CanGetStuck | 3rd/kcp/ikcp.c:895-1008 | Wherever a window cannot be told there is an execution that gets stuck. |
| KcpStuck.ProgressExactly | 3rd/kcp/ikcp.c:353-1164 | Every execution can be brought to a state in which everything has been read if and only if both receive windows leave a remainder by 65536 of at least 127, or 1 for a stream. |
| KcpTiming.FlushBatches | 3rd/kcp/ikcp.c:950-1108 | The datagrams of a flush hold all its segments once and in order; none is empty or longer than the mtu. |
| KcpTiming.FlushFillsDatagrams | 3rd/kcp/ikcp.c:950-1103 | A datagram is sent only when the next segment would not have fitted into it. |
| KcpTiming.PacketsAreDatagrams | 3rd/kcp/ikcp.c:950-1108 | The packets with unbounded numbers are, byte for byte and in order, the datagrams of the flush. |
| KcpTiming.PeerReadsBatch | 3rd/kcp/ikcp.c:757-865 | A peer of the same conversation applies exactly the segments of a datagram, in order, with nothing left over, and returns 0. |
| KcpTiming.DueAreSent | 3rd/kcp/ikcp.c:1043-1103 | A flush transmits every segment that is new, timed out or skipped often enough; afterwards a segment is not timed out if and only if it was kept or its delay lies in (0, 2^31]. |
| KcpTiming.UpdateSteps | 3rd/kcp/ikcp.c:1139-1164 | An update flushes exactly on the first call, at or after the timer, or with the timer 10 seconds off; the timer then moves one interval on from where it stood if that is still to come, else from now. |
| KcpTiming.OneFlushPerInterval | 3rd/kcp/ikcp.c:1139-1164 | In any run of updates at times that do not go back every flush has an interval of its own: m flushes later at least m intervals have begun, and more than m - 1 have passed. |
| KcpTiming.TimerLeftAlone | 3rd/kcp/ikcp.c:353-1132 | No other operation moves the flush timer. |
| KcpSending.FlushFillsWindow | 3rd/kcp/ikcp.c:1010-1036 | A flush numbers fragments in order until snd_queue is empty or as many are in flight as snd_wnd, rmt_wnd and, unless turned off, cwnd allow. |
| KcpSending.FlushTreatsSegments | 3rd/kcp/ikcp.c:1038-1107 | By its own fields each segment is left alone, or stamped, counted and rescheduled after its first transmission, an expiry or enough skips. |
| KcpSending.TimeoutGrows | 3rd/kcp/ikcp.c:1058-1064 | An expiry at least doubles the timeout without nodelay, lengthens it by half with nodelay 1 and by half the estimate beyond, exactly as long as the sum stays within 32 bits. |
| KcpSending.FlushWritesDue | 3rd/kcp/ikcp.c:1043-1108 | The data segments written are exactly the new ones and those due, each once, in the order of snd_buf, with the fields they have afterwards. |
| KcpSending.FlushWritesControl | 3rd/kcp/ikcp.c:936-1008 | One acknowledgement for each pair owed, with its number and timestamp, then a probe when the timer has expired and an answer when asked; nothing is owed afterwards. |
| KcpSending.FlushSetsProbe | 3rd/kcp/ikcp.c:964-986 | While the peer's window is closed the probe wait starts at 7 seconds and grows by half each time it has passed, up to 2 minutes. |
| KcpSending.FlushCongests | 3rd/kcp/ikcp.c:1110-1131 | An expiry sets the threshold to half the window and the congestion window to one segment, skips alone to half of what is in flight and beyond it; otherwise both stay. A segment sent dead_link times marks the connection. |
| KcpSending.FirstUpdate | 3rd/kcp/ikcp.c:232-293 | The first update of a fresh control block numbers from 0 what snd_wnd and the 128 assumed of the peer allow, or nothing under congestion control, with a timeout of 200 ms, and leaves a congestion window of one segment. |
| KcpFeedback.Remembers | 3rd/kcp/ikcp.c:795-811 | An acknowledgement replaces the remembered one exactly if its number and its timestamp are both later. |
| KcpFeedback.InputCountsSkips | 3rd/kcp/ikcp.c:608-630 | After a datagram read to its end, exactly the segments left that were sent no later than the highest acknowledgement says and have smaller numbers have one skip more, if its number is in flight. |
| KcpFeedback.NothingSkipped | 3rd/kcp/ikcp.c:869-871 | A datagram without an acknowledgement, or a malformed one, counts no skip. |
| KcpFeedback.AckTimes | 3rd/kcp/ikcp.c:540-557 | A sample moves the smoothed round trip by an eighth and its variation by a quarter, as in section 2 of RFC 6298, and the timeout follows within its limits. |
| KcpFeedback.InputOpensWindow | 3rd/kcp/ikcp.c:873-893 | The congestion window opens only when something new was acknowledged and not beyond the peer's: by a segment below the threshold, by credit from there on. |
| KcpFeedback.InputCodes | 3rd/kcp/ikcp.c:745-896 | After any good segments a bad header gives -1, -2 or -3 with the good segments applied and nothing else. |
| KcpTiming.UpdateArmsTimer | 3rd/kcp/ikcp.c:1139-1164 | After every update ts_flush is 1 to 10000 ms ahead of the clock, at most `interval` when it flushed. |
| KcpTiming.CheckIsSafe | 3rd/kcp/ikcp.c:1175-1211 | An update at any time before the answer of ikcp_check sends nothing and only sets the clock; the answer is at most `interval` ahead. |
| KcpTiming.CheckIsTight | 3rd/kcp/ikcp.c:1175-1211 | At the answer of ikcp_check the flush timer has run out, a segment is due, or `interval` has passed. |
| KcpControlBlock.Kcp.constructor | 3rd/kcp/ikcp.c:232-293 | A fresh control block is the initial value and satisfies the invariants. |
| KcpControlBlock.Kcp.PeekSize | 3rd/kcp/ikcp.c:435-457 | The loop computes the size of the next message, or -1. |
| KcpControlBlock.Kcp.MoveAvailable | 3rd/kcp/ikcp.c:718-729 | The loop moves the available segments and keeps the counters exact. |
| KcpControlBlock.Kcp.Recv | 3rd/kcp/ikcp.c:353-429 | ikcp_recv: code, bytes copied and new control block are those of the specification. |
| KcpControlBlock.Kcp.Send | 3rd/kcp/ikcp.c:462-536 | ikcp_send: code and new control block are those of the specification. |
| KcpControlBlock.Kcp.ShrinkBuf | 3rd/kcp/ikcp.c:559-568 | snd_una becomes the number at the head of snd_buf, or snd_nxt. |
| KcpControlBlock.Kcp.ParseUna | 3rd/kcp/ikcp.c:592-606 | The loop drops the acknowledged head of snd_buf and counts it. |
| KcpControlBlock.Kcp.ParseAck | 3rd/kcp/ikcp.c:570-590 | The search removes the acknowledged segment and counts it. |
| KcpControlBlock.Kcp.ParseFastack | 3rd/kcp/ikcp.c:608-630 | The loop counts a skip for the segments before sn. |
| KcpControlBlock.Kcp.AckPush | 3rd/kcp/ikcp.c:635-669 | The pair is appended to the acknowledgements; when the array is full it gets the first size of 8, 16, 32 and so on that has room. |
| KcpControlBlock.Kcp.ParseData | 3rd/kcp/ikcp.c:680-740 | The backward scan, insertion and moving do what the specification says. |
| KcpControlBlock.Kcp.TakeSegment | 3rd/kcp/ikcp.c:784-861 | One turn of the receive loop. |
| KcpControlBlock.Kcp.Input | 3rd/kcp/ikcp.c:745-896 | ikcp_input on any bytes: code and new control block are those of the specification. |
| KcpControlBlock.Kcp.Emit | 3rd/kcp/ikcp.c:1089-1103 | A segment is encoded behind those in the buffer, after sending the buffer when it has no room. |
| KcpControlBlock.Kcp.FlushAcks | 3rd/kcp/ikcp.c:947-960 | The acknowledgements owed are written in order. |
| KcpControlBlock.Kcp.AdmitSegments | 3rd/kcp/ikcp.c:1015-1036 | The loop numbers as many fragments as the window admits. |
| KcpControlBlock.Kcp.TransmitSegments | 3rd/kcp/ikcp.c:1043-1103 | The loop decides about every segment of snd_buf and writes those to transmit. |
| KcpControlBlock.Kcp.Flush | 3rd/kcp/ikcp.c:925-1132 | ikcp_flush: the datagrams output and the new control block are those of the specification. |
| KcpControlBlock.Kcp.Update | 3rd/kcp/ikcp.c:1139-1164 | ikcp_update likewise. |
| KcpControlBlock.Kcp.Check | 3rd/kcp/ikcp.c:1175-1211 | The loop computes the answer of the specification. |
| IQueue.Init | 3rd/kcp/ikcp.h:147-148 | A head linked to itself is the empty ring. |
| IQueue.IsEmpty | 3rd/kcp/ikcp.h:178-178 | The test tells whether the ring has no entries. |
| IQueue.Add | 3rd/kcp/ikcp.h:160-162 | The node goes right behind the given place; the rest of the ring is as before. |
| IQueue.AddTail | 3rd/kcp/ikcp.h:164-166 | The node becomes the last entry. |
| IQueue.Del | 3rd/kcp/ikcp.h:170-173 | The entry leaves the ring, the others keep their order, and its links are cleared. |
| IQueue.MoveFirst | 3rd/kcp/ikcp.c:1020-1022 | Taking the first entry of one queue to the tail of another changes nothing else in either. |
| IQueue.AddThenDel | 3rd/kcp/ikcp.h:160-173 | Adding and then deleting an entry leaves the ring as it was. |
| IQueue.RingUnique | 3rd/kcp/ikcp.h:134-136 | The links determine the sequence of entries. |
| JsonEquivalence.ParsersAgree | 3rd/rapidjson/reader.h:1482-1854 | For every text, flags, bound on integers and handler, the iterative and the recursive parser report the same events in the same order, with the same counts, accept the same texts and stop at the same position. |
| JsonEquivalence.SameCodes | 3rd/rapidjson/reader.h:485-516 | Their results are identical, error codes included, if and only if the text does not begin with a closing bracket, a comma or a colon. |
| JsonEquivalence.ValueFollows | 3rd/rapidjson/reader.h:1822-1854 | From any state in which a value may begin, the machine does what ParseValue does and goes on behind it. |
| JsonEquivalence.MembersFollow | 3rd/rapidjson/reader.h:604-654 | The machine simulates the member loop of ParseObject. |
| JsonEquivalence.ElementsFollow | 3rd/rapidjson/reader.h:673-702 | The machine simulates the element loop of ParseArray. |
| JsonParse.Turn | 3rd/rapidjson/reader.h:1649-1799 | A token keeps the machine's invariant and moves its position forward, so the machine terminates. |
| JsonTrace.StackIsOpenContainers | 3rd/rapidjson/reader.h:1656-1770 | After any number of turns the stack holds one (saved state, count) pair per container opened and not closed in the events reported, with the right state and count. |
| JsonTrace.LeaveTracks | 3rd/rapidjson/reader.h:1706-1770 | A container is closed with the number of its children, modulo 2^32. |
| JsonTrace.ReportsAreWellFormed | 3rd/rapidjson/reader.h:1822-1854 | A successful parse reports the complete trace of one value, a failing one the beginning of a trace. |
| JsonStream.InsituStringStream.Take | 3rd/rapidjson/stream.h:150-151 | Reading moves the read cursor and changes nothing unread. |
| JsonStream.InsituStringStream.Put | 3rd/rapidjson/stream.h:155-155 | Writing behind the read cursor changes one byte already read and nothing unread. |
| JsonStream.InsituStringStream.PutBegin | 3rd/rapidjson/stream.h:157-157 | The write cursor starts at the read cursor. |
| JsonReader.Reader.SkipWhitespaceAndComments | 3rd/rapidjson/reader.h:560-586 | The loops skip what the specification skips, or report a malformed comment. |
| JsonReader.Reader.ParseHex4 | 3rd/rapidjson/reader.h:755-774 | The loop computes the value of four hexadecimal digits. |
| JsonReader.Reader.ParseStringToStream | 3rd/rapidjson/reader.h:840-905 | In place or onto a stack, the output is the decoded string and a NUL, the position is the same, nothing before the string and nothing unread changes. |
| JsonReader.Reader.DecodeString | 3rd/rapidjson/reader.h:815-833 | Both ways of decoding give the same bytes, end and error; in place, the string then lies in the buffer with its NUL. |
| JsonReader.Reader.ParseString | 3rd/rapidjson/reader.h:808-836 | The event and position are those of the specification, and strings handed over earlier stay. |
| JsonReader.Reader.TakeInteger | 3rd/rapidjson/reader.h:1154-1237 | The digit loops find the value without wrap, whether it needs 64 bits, and exactly when 64 bits are not enough. |
| JsonReader.Reader.TakeFraction | 3rd/rapidjson/reader.h:1240-1285 | The two loops take all digits of a fraction and count those that enter the significand. |
| JsonReader.Reader.TakeExponent | 3rd/rapidjson/reader.h:1287-1328 | An exponent is taken to its end; a missing one is an error, and so is a positive one beyond 308 and the digits that count. |
| JsonReader.Reader.TakeWord | 3rd/rapidjson/reader.h:1187-1201 | The chain of tests takes exactly the words of the specification. |
| JsonReader.Reader.ParseNumber | 3rd/rapidjson/reader.h:1133-1389 | An integer is reported by value in the narrowest class of its sign; with a fraction, an exponent or too many digits, and for the words, the event carries the text; every error has its own code. |
| JsonNumbers.NumeralRead | 3rd/rapidjson/reader.h:1133-1389 | Every number of the grammar that the next byte does not continue is taken whole: as its value if it is an integer of at most 64 bits, as its text otherwise. |
| JsonNumbers.NumeralFound | 3rd/rapidjson/reader.h:1133-1389 | Whatever ParseNumber accepts is a number of the grammar, and is reported as such. |
| JsonNumbers.NumberFails | 3rd/rapidjson/reader.h:1231-1328 | Behind a good beginning, a point without a digit, an exponent without one, and one beyond the limit each give their own error. |
| JsonNumbers.NoNumber | 3rd/rapidjson/reader.h:1187-1204 | Where neither a digit nor a word stands, the value is invalid. |
| JsonNumbers.ScaleIs | 3rd/rapidjson/reader.h:1247-1284 | The digits of a fraction count until the significand reaches 2^53 and then until 17 are significant. |
| JsonNumbers.StrayLetters | 3rd/rapidjson/reader.h:1187-1201 | Under kParseNanAndInfFlag "NInf" and "NaN.9" are each taken as one number. |
| JsonLexemes.GapRead | 3rd/rapidjson/reader.h:560-586 | White space and comments of any kind and number are skipped. |
| JsonLexemes.GapFound | 3rd/rapidjson/reader.h:560-586 | Whatever is skipped is white space and comments, the last of them possibly ended by the end of the text. |
| JsonLexemes.CharsRead | 3rd/rapidjson/reader.h:840-905 | Every string of plain bytes, escapes and surrogate pairs is decoded to the bytes it stands for. |
| JsonLexemes.CharsFound | 3rd/rapidjson/reader.h:840-905 | Whatever is decoded is such a string. |
| JsonLexemes.CharsWrong | 3rd/rapidjson/reader.h:840-905 | Behind any characters of the grammar, the first place where a string goes wrong decides its error code. |
| JsonLexemes.WrongFound | 3rd/rapidjson/reader.h:840-905 | Every error of a string comes about that way. |
| JsonLexemes.HexTable | 3rd/rapidjson/reader.h:755-774 | A hexadecimal digit is worth its place among the sixteen, in upper and in lower case, and no other byte is one. |
| JsonLexemes.EscapeTable | 3rd/rapidjson/reader.h:842-856 | The eight one-letter escapes and what they stand for, and no others. |
| JsonLexemes.SpaceTable | 3rd/rapidjson/reader.h:263-272 | White space is the space, the tab, the line feed and the carriage return. |
| JsonGrammar.TreeRead | 3rd/rapidjson/reader.h:1391-1406 | Every value of the grammar is taken whole and reported as what it denotes. |
| JsonGrammar.TreeFound | 3rd/rapidjson/reader.h:1391-1406 | Whatever ParseValue accepts is a value of the grammar, and is reported as what it denotes. |
| JsonGrammar.ReadsDocuments | 3rd/rapidjson/reader.h:485-516 | The recursive parser accepts a text if and only if the part up to its NUL is a document of the grammar under the flags, and reports exactly what it denotes, provided that the handler agrees to it. |
| JsonGrammar.IterativeReadsDocuments | 3rd/rapidjson/reader.h:1822-1854 | So does the iterative parser. |
| JsonGrammar.ReadsFirstValue | 3rd/rapidjson/reader.h:485-516 | With kParseStopWhenDoneFlag a text is accepted if and only if it begins with a gap and a value that the next byte does not continue; the parse stops there. |
| JsonGrammar.OneMeaning | 3rd/rapidjson/reader.h:485-516 | No text is a document in two ways that denote different events. |
| JsonReader.Reader.ParseObject | 3rd/rapidjson/reader.h:589-654 | The loop does what the specification says, from any state of the buffer that decoding in place has left. |
| JsonReader.Reader.ParseArray | 3rd/rapidjson/reader.h:657-702 | Likewise for arrays. |
| JsonReader.Reader.Parse | 3rd/rapidjson/reader.h:485-516 | The recursive parse of a buffer, in place or not, ends as the specification on the original text, and every string handed over in place still lies in the buffer. |
| JsonReader.Reader.Move | 3rd/rapidjson/reader.h:1649-1799 | Transit changes the stack, the cursor and the state as the machine does. |
| JsonReader.Reader.IterativeParse | 3rd/rapidjson/reader.h:1822-1854 | The iterative parse of a buffer, in place or not, ends as the specification on the original text, with all strings still in place. |
| JsonText.Decode | 3rd/rapidjson/reader.h:840-905 | A decoded string is shorter than its source, so its bytes and its NUL fit where it stood. |
| JsonText.Narrowest | 3rd/rapidjson/reader.h:1371-1384 | The value is unchanged and the class is the narrowest of its sign. |
| JsonText.Negate32 | 3rd/rapidjson/reader.h:1378-1383 | `~i + 1` read as a signed word is the negative. |
| JsonWriter.Writer.WriteString | 3rd/rapidjson/writer.h:345-417 | The loop writes the string quoted and escaped. |
| JsonWriter.Writer.Prefix | 3rd/rapidjson/writer.h:437-455 | The punctuation before a value, and the level's count. |
| JsonWriter.Writer.PrettyPrefix | 3rd/rapidjson/prettywriter.h:190-232 | The punctuation, line break and indentation before a value. |
| JsonWriter.Writer.WriteEnd | 3rd/rapidjson/prettywriter.h:125-165 | The line break, indentation and bracket that close a container. |
| JsonWriter.Writer.WriteAll | 3rd/rapidjson/writer.h:170-232 | On any trace the writer's assertions hold throughout and its output is the specified text. |
| JsonWriter.WriteTracks | 3rd/rapidjson/writer.h:437-455 | The levels count the names and values of the open containers. |
| JsonLayout.EveryEventLaidOut | 3rd/rapidjson/prettywriter.h:190-237 | The printed text has at the place of every event its line break, its indentation by the containers open, its comma or colon, and then its spelling, and nothing else. |
| JsonLayout.EscapesChosen | 3rd/rapidjson/writer.h:345-417 | Control characters, quotation marks and backslashes are escaped, by their letter where there is one and by two upper-case digits otherwise; every other byte is written as it is. |
| JsonRoundTrip.DecodeEscapes | 3rd/rapidjson/writer.h:345-417 | Any byte string, NUL included, written by WriteString is decoded to itself. |
| JsonRoundTrip.IntegerRead | 3rd/rapidjson/reader.h:1146-1200 | The decimal text of an integer is read as that integer, up to where it ends. |
| JsonRoundTrip.NumberRead | 3rd/rapidjson/reader.h:1133-1389 | An integer printed from any class is reported by value in the narrowest class. |
| JsonRoundTrip.LeadSplits | 3rd/rapidjson/prettywriter.h:190-232 | What a writer puts before an event is the punctuation the parser expects, then white space. |
| JsonRoundTrip.ReadsBack | 3rd/rapidjson/reader.h:1822-1854 | After any number of events the machine has reported their normal forms and stands behind their text. |
| JsonRoundTrip.RoundTrip | 3rd/rapidjson/writer.h:345-455 | What Writer or PrettyWriter prints for the trace of one value, both parsers read back as that trace, up to the end of the text; a double comes back as its text, which has a fraction, an exponent, too many digits or is a word. |
| JsonDocument.FlagsAreRanges | 3rd/rapidjson/document.h:634-670 | Whichever constructor made it, a number's flags tell exactly which integer classes its value fits. |
| JsonDocument.AnnouncesValue | 3rd/rapidjson/document.h:1798-1804 | Accept sends an integer by its value in the first class that fits. |
| JsonDocument.AcceptReplays | 3rd/rapidjson/document.h:1768-1805 | Accept sends any handler the events of the value in order, up to the first it refuses. |
| JsonBuild.FlatStep | 3rd/rapidjson/document.h:2333-2373 | Pushing and popping the document's stack keeps it in step with the open containers. |
| JsonBuild.BuildsOne | 3rd/rapidjson/document.h:2333-2373 | The trace of one value leaves exactly that value, and the value replays the trace. |
| JsonBuild.GenericDocument.EndObject | 3rd/rapidjson/document.h:2361-2365 | The members are taken off the stack and become the object below them. |
| JsonBuild.GenericDocument.EndArray | 3rd/rapidjson/document.h:2369-2373 | The elements are taken off the stack and become the array below them. |
| JsonBuild.GenericDocument.Populate | 3rd/rapidjson/document.h:2135-2142 | No assertion fails, one value is left, and it becomes the document. |
| JsonBuild.DocumentRoundTrip | 3rd/rapidjson/document.h:1768-1805 | A document printed through either writer and parsed by either parser is built again as the identical value. |
| JsonParseStream.ParseBuildsOne | 3rd/rapidjson/document.h:2155-2164 | For every text of less than 2^32 bytes that a parser accepts, exactly one value is left on the document's stack, and it replays what was parsed. |
| JsonParseStream.FewChildren | 3rd/rapidjson/reader.h:589-702 | A container never has more children than events were reported, so its count does not wrap on such texts. |
| Encodings.DecodeIsGrammar | 3rd/rapidjson/encodings.h:146-177 | The decoder accepts exactly the UTF8-char of RFC 3629, takes exactly its bytes and finds its code point. |
| Encodings.EncodeDecoded | 3rd/rapidjson/encodings.h:102-120 | Encoding what was decoded gives back the bytes, and it is a scalar value. |
| Encodings.DecodeEncoded | 3rd/rapidjson/encodings.h:146-177 | Decoding what was encoded gives back the scalar value. |
| Encodings.DecodeAllIsGrammar | 3rd/rapidjson/encodings.h:146-177 | Decoding to the end succeeds on exactly the UTF8-octets of RFC 3629, and encoding the result reproduces the bytes. |
| Encodings.ValidateAgrees | 3rd/rapidjson/encodings.h:179-202 | Validate gives the verdict of Decode and copies exactly the bytes Decode takes. |
| Encodings.MaskRanges | 3rd/rapidjson/encodings.h:204-220 | What each mask of the byte classes lets pass. |
| Encodings.Decode16Encoded | 3rd/rapidjson/encodings.h:276-322 | UTF-16 decoding inverts encoding, surrogate pairs included. |
| Encodings.TranscodingRoundTrip | 3rd/rapidjson/encodings.h:658-676 | UTF-8 to UTF-16 and back is the identity on exactly the accepted strings. |
| Encodings.ByteStream.Decode | 3rd/rapidjson/encodings.h:146-177 | The decoder as it runs, byte by byte. |
| PointerCodec.PointerRoundTrip | 3rd/rapidjson/pointer.h:941-972 | Parsing the string form of any tokens, or the URI fragment form of any UTF-8 tokens, gives back the names, each with the index that follows from it; the URI form exists exactly for UTF-8 names. |
| PointerCodec.NameReads | 3rd/rapidjson/pointer.h:840-894 | Parsing the text of a name gives back the name and stops behind it. |
| PointerCodec.PercentCharRead | 3rd/rapidjson/pointer.h:980-1037 | A percent-encoded UTF-8 character is decoded to its bytes. |
| PointerCodec.UnreservedTable | 3rd/rapidjson/pointer.h:785-792 | Exactly the unreserved characters of section 2.3 of RFC 3986 need no percent-encoding. |
| PointerCodec.UnreservedReads | 3rd/rapidjson/pointer.h:840-894 | A fragment whose name consists of unreserved characters but the tilde parses to that name. |
| PointerCodec.WritesChars | 3rd/rapidjson/pointer.h:941-972 | A tilde is written as ~0, a solidus as ~1, what a fragment must encode in triplets, the rest as it is. |
| PointerCodec.PercentDigits | 3rd/rapidjson/pointer.h:1025-1037 | A triplet is a percent sign and two upper-case hexadecimal digits. |
| PointerCodec.ReadsChars | 3rd/rapidjson/pointer.h:840-884 | ~0 and ~1 are read back, any other tilde and any byte that must be encoded are errors, the rest stands for itself. |
| PointerCodec.ReadsTriplets | 3rd/rapidjson/pointer.h:844-864 | Triplets of a UTF-8 character give its bytes, an encoded tilde begins an escape, anything else is an error. |
| PointerCodec.PointerFails | 3rd/rapidjson/pointer.h:826-932 | Parsing fails with the error of the first bad character, whatever good tokens stand before it. |
| PointerCodec.NoPointer | 3rd/rapidjson/pointer.h:818-832 | A pointer begins with a solidus, or with a hash sign and a solidus, or is empty. |
| PointerCodec.IndexIsValue | 3rd/rapidjson/pointer.h:895-917 | A canonical decimal token below 2^32 - 1 gets its value as index, any other form none. |
| PointerCodec.IndexExact | 3rd/rapidjson/pointer.h:904-917 | The index is the value, or none from 2^32 - 1 on, if and only if the value is below 2^32, the overflow test fires, or the low 32 bits are the invalid index. |
| PointerCodec.IndexByRange | 3rd/rapidjson/pointer.h:904-917 | Below 10 * 2^32 the index of a decimal token is the remainder by 2^32, or none from 2^32 on when that is below a tenth of the value. |
| PointerCodec.FirstWrongIndices | 3rd/rapidjson/pointer.h:904-917 | Below 9544371768 the index is right exactly outside 4772185884 to 8589934590. |
| PointerCodec.OverflowMissed | 3rd/rapidjson/pointer.h:904-917 | The overflow test lets 10000000000 through as index 1410065408. |
| PointerParser.GenericPointer.TakeName | 3rd/rapidjson/pointer.h:840-894 | The inner loop writes the decoded name into the buffer. |
| PointerParser.GenericPointer.Parse | 3rd/rapidjson/pointer.h:802-932 | The tokens or the error are those of the specification, and the name cursor never passes the end of the buffer. |
| PointerEval.Walk | 3rd/rapidjson/pointer.h:479-507 | Get returns the value, or the index of the first token that does not resolve. |
| PointerEval.CreateFindsExisting | 3rd/rapidjson/pointer.h:401-447 | For tokens of any names and indices, if no "-" has an index, Create reports an existing value exactly when Get resolved before, and then changes nothing. |
| PointerEval.CreateThenGet | 3rd/rapidjson/pointer.h:401-447 | Under the same condition, after Create, Get resolves to the new Null or the old value, except exactly where a "-" token met an array. |
| PointerEval.LawsExact | 3rd/rapidjson/pointer.h:401-447 | For given tokens both laws hold of every tree if and only if no "-" token has an index. |
| PointerEval.IndexedBare | 3rd/rapidjson/pointer.h:895-917 | The tokens the parser makes satisfy that condition. |
| PointerEval.IndexedDash | 3rd/rapidjson/pointer.h:401-447 | On an array of one Null, the token "-" with index 0 resolves by Get, and Create reports it as new. |
| PointerEval.EraseRemoves | 3rd/rapidjson/pointer.h:711-749 | Erase returns true exactly when the pointer is not empty and Get resolves; then the parent has that child no more, those behind it have moved up and the others are where they were; otherwise nothing changes. |
| PointerEval.EraseLeavesOthers | 3rd/rapidjson/pointer.h:711-749 | Whatever a path got that leaves the erased one, other than elements that move up, it still gets. |
| PointerEval.CreateShapes | 3rd/rapidjson/pointer.h:401-447 | An index leads into an array or by its name into an object, any other token into an object; a value of another kind gives way; new places hold Null, and every other child stays. |
| PointerEval.CreateLeavesOthers | 3rd/rapidjson/pointer.h:401-447 | Whatever a path got that leaves the created one, it still gets. |
| PoolAllocator.MemoryPoolAllocator.Malloc | 3rd/rapidjson/allocators.h:176-189 | A new block overlaps no live one and has the aligned size; it lies right behind what the head chunk uses if there is room, else at the beginning of a new chunk of the usual capacity, or larger if it must be. |
| PoolAllocator.MemoryPoolAllocator.Realloc | 3rd/rapidjson/allocators.h:191-222 | A null pointer gets a new block; the original size may be smaller than the block, as after shrinking; the bytes of that size, aligned, are kept whether the block stays, grows in place, which the last one with room does, or moves; no other live block is touched. |
| PoolAllocator.MemoryPoolAllocator.Grow | 3rd/rapidjson/allocators.h:208-214 | The last block grows in place into memory that no block has. |
| PoolAllocator.MemoryPoolAllocator.AddChunk | 3rd/rapidjson/allocators.h:237-249 | A new chunk goes to the head of the list and keeps all blocks. |
| PoolAllocator.MemoryPoolAllocator.Size | 3rd/rapidjson/allocators.h:168-173 | The sum of the used sizes, at most the capacity. |
| PoolAllocator.MemoryPoolAllocator.Capacity | 3rd/rapidjson/allocators.h:158-163 | The sum of the sizes of the chunks. |
| PoolAllocator.GrowOk | 3rd/rapidjson/allocators.h:208-214 | Growing the last block keeps all blocks disjoint and inside their chunks. |

## Left out

- KcpControlBlock.Kcp: the four queues are sequences; the links between segments are modelled only in IQueue. The fields of pacing and congestion control are one record, `pace`.
- KcpControlBlock.Kcp.AckPush: a failing allocation of the acknowledgement array is not modelled, nor is the width of its `int` counters.
- KcpTheorems.InOrderExactlyOnce: assumes that a number is read while less than 2^31 away from the endpoint's own.
- KcpLiveness.EverythingGetsRead: says that a continuation exists, not that a fair network takes it; the sending window and the peer's receive window together stay below 2^31.
- KcpTiming.CheckIsSafe: sums such as `current + minimal` wrap as in the source; a flush timer more than 10000 ms off is reset as in the source.
- KcpFeedback.AckTimes: speaks of estimates and samples below 2^27 ms, where nothing overflows; beyond, signed overflow is taken to wrap.
- KcpFeedback.InputOpensWindow: speaks of windows below 2^16 segments and an mtu below 2^14, where no product leaves 32 bits.
- ikcp_setmtu, ikcp_wndsize, ikcp_nodelay and the stream flag are fixed before first use; windows are below 2^31.
- KCP logging, allocator hooks, failing allocation, ikcp_release and NULL buffers.
- JsonReader.Reader.ParseNumber: the value of a double is not computed, the event carries its text; which integers beyond 64 bits are too large for a double is a parameter, `huge`; the exponent limit follows the 64-bit build.
- JsonReader.Reader.ParseString: lengths are unbounded, where the source keeps 32 bits of them.
- JsonReader.Reader: error offsets, the flags for validating encodings, full precision and numbers as strings, and encodings other than UTF-8. Its one stack is modelled as one of bytes and one of pairs.
- JsonReader.Reader.TakeDigits: the four integer loops of ParseNumber are one method with four bounds.
- JsonWriter.Writer: Writer and PrettyWriter are one class with a style; raw values and output encodings without Unicode are left out. How a double is printed is a parameter, its text. Integers print as canonical decimals, each token but a string at once.
- JsonRoundTrip.RoundTrip: a double is its text, and comes back as the same text if that is a number of the grammar that is not an integer of at most 64 bits (`Floats`); that printing and parsing keep its value is not modelled.
- JsonBuild.DocumentRoundTrip: doubles as in RoundTrip.
- JsonBuild.BuildsOne: containers have fewer than 2^32 children, as their counts are 32 bits wide.
- JsonDocument: the storage of short strings, flags other than the integer ones, and moving of values; the other accessors of values.
- PointerEval: Create and Erase are functions on values, so updating a tree in place and aliasing into it are not captured.
- PoolAllocator.MemoryPoolAllocator: sizes do not wrap at 2^64; whether the base allocator has memory is a parameter; freeing of all chunks is left out.
- SIMD variants, schema validation, regular expressions, streams over files, byte order marks and encoding detection.
- The gateway, the Go and JavaScript programs, the generated protobuf code and the database tools.
