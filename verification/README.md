# lyrebird-rs: a verified model

A Dafny 4.11 project that models the protocol state machines and the table and parser
algorithms of lyrebird-rs, a pluggable-transport client and server for Tor, and proves what
they promise. `dafny verify dfyconfig.toml` checks everything.

The code that changes state step by step is modelled as classes and loops, each proved against
a function of its inputs; the theorems are about those functions, and so about the loops.

- **KCP** (`Kcp*.dfy`, `Words.dfy`): the ARQ endpoint. `KcpSpec` says what each operation
  computes, `KcpClass` computes it in place, `KcpInvariant` holds the per-endpoint invariant
  (arbitrary input bytes, arbitrary clock, 32-bit wraparound). `KcpReceipt` and `KcpEmission`
  say what `input`, `recv`, `flush` and `send` come to, and nothing else: which segments are
  kept, acknowledged, released, sent and sent again. `KcpSystem` to `KcpRuns` put two
  endpoints on a network that keeps every datagram ever emitted and may deliver any of them any
  number of times in any order; the end-to-end theorems hold for every run with one
  conversation id, 32 <= `rcv_wnd` <= 65535 and fewer than 2^31 - 65536 segments per direction;
  `KcpProgress` has runs in which a message arrives, at once or after a loss, and is released.
  `KcpSession` adds reads with a pending tail, the input of datagrams and chunked writes, and
  `KcpSessions` puts two sessions together. `TurboTunnel` shows that the packet connection
  below drops packets and alters none that fits its 1500-byte buffers; `KcpSessions.NothingCut`
  says when all do.
- **smux** (`Smux*.dfy`): the multiplexer as a step system over all interleavings of writers,
  the send loop's heap, the receive loop, readers and closers; the token bucket; and the
  version 2 credit window of one stream.
- **obfs4** (`Obfs4*.dfy`, `Bits.dfy`): frames on a nonce counter and a mask stream, the
  incremental decoder, packets, and the writer and reader with their padding and splitting.
  The cipher is any pair of functions where opening undoes sealing and sealing adds 16 bytes;
  the mask is any sequence of 16-bit values.
- **Tables and parsers**: Vose's alias method in exact reals (`ProbDist`), Go's rejection
  sampling and shuffle (`Gorand`), the two argument parsers of one language, section 3.5 of
  the Tor pt-spec (`PtArgs`, `SocksArgs`, and `PtLanguage` for all they answer, with `Utf8`
  after section 4 of RFC 3629), the replay filter (`ReplayFilter`) and the chunk codec
  (`Encapsulation`).

Where the code and its documentation disagree, the model follows the code:

- the comment on `pad_burst` (conn.rs:211) says that the last segment becomes `to_pad_to` bytes
  long; a gap of 1 to 21 bytes ends 21 bytes past it, which `Obfs4Conn.PaddedLength` states
  exactly;
- stream-mode `send` may absorb bytes into the last queued segment and then return -2
  (kcp.rs:227-246), so delivery is about accepted bytes, and `KcpSession.ShortSend` shows that
  session writes never meet this case;
- the heap order of smux is by age only while the requests of a class pending together span
  less than 2^31 (`SmuxFrames.BeforeIsAge`, `SmuxFrames.BeforeNeedsNear`); stream order on the
  wire does not need that, because a stream never has two data requests pending, and the step
  system lets the heap yield anything once the bound is passed;
- the comment on smux's `read` (smux.rs:693) says that zero bytes mean that the peer sent FIN and
  everything was read; once its own side has begun to close the stream, zero bytes may come
  before either (`SmuxDelivery.LostAtClose`), and only then (`SmuxDelivery.EndOfStream`);
- `Config::verify` (smux.rs:59-84) lets `max_receive_buffer` be anything positive, but the bucket
  it fills is an `i32`: tokens are conserved exactly when it is below 2^31 - 65535
  (`SmuxTokens.TokenConservation`, `SmuxTokens.Overflows`). The additions of the bucket are
  modelled as wrapping, as they are without overflow checks.

## Model

| member | source | states |
|---|---|---|
| KcpRuns.PrefixDelivery | src/transports/snowflake/domain/kcp.rs:183-262 | In every run of two endpoints over a network that drops, duplicates and reorders what `flush` emitted, the bytes out of `recv` and out of the session read are a prefix of the bytes the other side's `send` accepted |
| KcpRuns.MessageDelivery | src/transports/snowflake/domain/kcp.rs:222-262 | When the sender is in message mode, the messages returned by `recv`, one per call, are a prefix of the messages for which `send` returned 0 |
| KcpRuns.NoEarlyRelease | src/transports/snowflake/domain/kcp.rs:286-334 | At every reachable state each assigned sequence number is below the peer's `rcv_nxt`, in its `rcv_buf`, or in the sender's `snd_buf` unacknowledged with its fragment intact |
| KcpRuns.NoOverrun | src/transports/snowflake/domain/kcp.rs:559-576 | `snd_una <= peer.rcv_nxt <= snd_nxt <= peer.rcv_nxt + peer.rcv_wnd` at every reachable state, however stale the window advertisements |
| KcpRuns.NothingRefused | src/transports/snowflake/domain/kcp.rs:365-394 | `input` returns 0 on any datagram either side ever emitted, at any later time and under any clock, window and timeout |
| KcpRuns.NextSafe | src/transports/snowflake/domain/kcp.rs:365-676 | One step of either endpoint keeps the whole two-endpoint invariant |
| KcpProgress.MessageArrives | src/transports/snowflake/domain/kcp.rs:183-262 | A run: the first message of up to one segment is sent and flushed, its datagram delivered, and the peer's `recv` returns it |
| KcpProgress.LossRecovers | src/transports/snowflake/domain/kcp.rs:598-627 | The same when the first datagram is lost: a flush after the timer has run out sends the segment again, and that one arrives |
| KcpProgress.AckReleases | src/transports/snowflake/domain/kcp.rs:286-334 | The peer's ACK comes back and the sender has nothing buffered any more |
| KcpSteps.FlushPair | src/transports/snowflake/domain/kcp.rs:485-676 | `flush` keeps the link between the two endpoints while the segments numbered stay within the limit: books, windows and everything in flight |
| KcpSteps.InputPair | src/transports/snowflake/domain/kcp.rs:365-473 | `input` of any datagram the peer ever emitted, followed by the flush it triggers, keeps the link |
| KcpSteps.RecvPair | src/transports/snowflake/domain/kcp.rs:183-208 | `recv`, with the segments it lets move up, keeps the link |
| KcpSteps.SendPair | src/transports/snowflake/domain/kcp.rs:222-262 | `send` keeps the link: nothing is numbered yet |
| KcpDelivery.ParsePushPair | src/transports/snowflake/domain/kcp.rs:412-428 | A data segment in flight, new or repeated, leaves the receiver with fragments the sender really assigned to those numbers, and every number it will acknowledge is one it keeps |
| KcpDelivery.ParseAckPair | src/transports/snowflake/domain/kcp.rs:293-308 | A selective ACK in flight marks only segments the receiver keeps |
| KcpDelivery.AcknowledgePair | src/transports/snowflake/domain/kcp.rs:286-291 | A cumulative ACK in flight releases only segments the receiver has moved past |
| KcpFlush.RefilledPair | src/transports/snowflake/domain/kcp.rs:559-576 | Numbering and admitting queued segments never passes the receiver's window |
| KcpInvariant.InputKeeps | src/transports/snowflake/domain/kcp.rs:365-473 | For arbitrary bytes and across wraparound: `snd_buf` stays numbered contiguously from `snd_una` to `snd_nxt` within `snd_wnd`, `rcv_buf` sorted, duplicate-free and inside the window, `rcv_queue` within `rcv_wnd` |
| KcpInvariant.FlushKeeps | src/transports/snowflake/domain/kcp.rs:485-676 | `flush` keeps the same structural invariant, for any clock, congestion window and timeout |
| KcpInvariant.RecvKeeps | src/transports/snowflake/domain/kcp.rs:183-208 | `recv` keeps the structural invariant |
| KcpInvariant.SendKeeps | src/transports/snowflake/domain/kcp.rs:222-262 | `send` keeps the structural invariant |
| KcpInvariant.ParsePushKeeps | src/transports/snowflake/domain/kcp.rs:337-362 | Inserting a segment keeps `rcv_buf` strictly ordered by distance above `rcv_nxt` and nothing ready is left behind |
| KcpInvariant.RepeatedIsKnown | src/transports/snowflake/domain/kcp.rs:344-356 | In an ordered window, inserting changes nothing exactly when the number is already there, wherever it is |
| KcpInvariant.AcknowledgeKeeps | src/transports/snowflake/domain/kcp.rs:323-334 | `parse_una` then `shrink_buf` leave a suffix of the send buffer and advance `snd_una` by exactly the number of segments dropped, across the wrap |
| KcpInvariant.MoveReadyKeeps | src/transports/snowflake/domain/kcp.rs:210-220 | Moving ready segments keeps the window and stops only when nothing more can move |
| KcpInvariant.AdmitKeeps | src/transports/snowflake/domain/kcp.rs:564-576 | Admitted segments continue the numbering of `snd_buf` and stay within the window |
| KcpInvariant.NumberedOrder | src/transports/snowflake/domain/kcp.rs:293-308 | In a contiguously numbered buffer the signed comparison with a segment orders exactly as the positions do, across the wrap |
| KcpReceipt.PushTaken | src/transports/snowflake/domain/kcp.rs:337-428 | A data segment inside the window is acknowledged with its timestamp and kept exactly once, the first copy winning; the next one expected goes to the queue at once if there is room, with all that follows on |
| KcpReceipt.PushRefused | src/transports/snowflake/domain/kcp.rs:412-428 | Outside the window nothing is kept; what lies up to 2^31 past it is not acknowledged, and everything old is acknowledged again |
| KcpReceipt.OthersReceive | src/transports/snowflake/domain/kcp.rs:429-432 | Other commands leave the receiving side alone but for the note that the window was asked for |
| KcpReceipt.UnaTaken | src/transports/snowflake/domain/kcp.rs:323-334 | The header of any segment takes over the advertised window and releases exactly the segments below `una`, counted by number |
| KcpReceipt.NonAckSends | src/transports/snowflake/domain/kcp.rs:397-402 | A segment that is not an ACK does nothing more to the sending side |
| KcpReceipt.AckTaken | src/transports/snowflake/domain/kcp.rs:293-321 | An ACK marks the one segment it names, frees its data, and counts once against every earlier one sent no later than its timestamp; all others stay as they were |
| KcpReceipt.ProcessFrames | src/transports/snowflake/domain/kcp.rs:397-432 | A segment changes nothing else about the endpoint |
| KcpReceipt.InputAnswers | src/transports/snowflake/domain/kcp.rs:365-473 | A datagram that parses leads to a full flush if it released something, else to an ACK flush if asked for and due, else to nothing; a remainder shorter than a header does not count |
| KcpReceipt.InputRefuses | src/transports/snowflake/domain/kcp.rs:365-394 | Segments before a malformed one keep their effect, the code is -1, -2 or -3 in the order of the checks, and nothing is emitted |
| KcpReceipt.SlidesIsRelease | src/transports/snowflake/domain/kcp.rs:397-402 | The window slides exactly if something is released |
| KcpReceipt.RecvTakes | src/transports/snowflake/domain/kcp.rs:183-220 | `recv` gives all bytes of the message in front, moves up exactly what follows on and fits, and asks to tell the window if a full queue has room again; -2 changes nothing |
| KcpReceipt.RecvWaits | src/transports/snowflake/domain/kcp.rs:161-208 | Without a whole message `recv` is -1 and does nothing |
| KcpEmission.FlushSends | src/transports/snowflake/domain/kcp.rs:485-653 | What a full flush emits is the ACKs that still matter, the probes that are due and the due segments, in order; every segment sent is stamped and rearmed exactly, and the others are unchanged |
| KcpEmission.DueGoesOut | src/transports/snowflake/domain/kcp.rs:598-627 | A segment of the refilled buffer is in some datagram with its number and data if and only if it is not acknowledged and was never sent, or enough or (with nothing admitted) some later ones were acknowledged, or its timer ran out; then its count goes up by one and its timer is the clock plus the new timeout |
| KcpEmission.AckFlushSends | src/transports/snowflake/domain/kcp.rs:502-515 | An ACK flush emits those ACKs and only forgets them |
| KcpEmission.FlushFrames | src/transports/snowflake/domain/kcp.rs:485-676 | A flush touches nothing but the send buffer, queue and number, the pending ACKs, the flags and the probe timer |
| KcpEmission.ProbeTimer | src/transports/snowflake/domain/kcp.rs:520-539 | The probe timer is off while the peer has a window, else 7 s at first, half as long again each time it runs out, at most 120 s |
| KcpEmission.FlushFills | src/transports/snowflake/domain/kcp.rs:496-500 | No datagram of a flush had room for the segment that begins the next |
| KcpEmission.SendIs | src/transports/snowflake/domain/kcp.rs:222-262 | `send` fills the last queued segment in stream mode, then queues pieces of exactly `mss` bytes but for the last, counted down in message mode, or refuses more than 255 with -2 |
| Words.TimeDiffIsOffset | src/transports/snowflake/domain/kcp.rs:41-43 | `timediff` of two wrapped words is the integer difference whenever that is within 2^31 |
| Words.WindowTest | src/transports/snowflake/domain/kcp.rs:339-343 | The two signed window comparisons are one test of the offset above the window's start |
| KcpWire.DecodeEncode | src/transports/snowflake/domain/kcp.rs:66-77 | Parsing an encoded segment gives back every field that travels, the data and the rest |
| KcpWire.EncodeDecode | src/transports/snowflake/domain/kcp.rs:375-389 | Encoding what was parsed gives back the bytes: the format has no second spelling |
| KcpWire.HeaderLayout | src/transports/snowflake/domain/kcp.rs:66-77 | Every header field is at its offset, low byte first |
| KcpDatagram.FlushRoundTrip | src/transports/snowflake/domain/kcp.rs:485-556 | Every datagram `flush` emits is between 24 and `mtu` bytes, and any endpoint of the conversation parses it into exactly the segments it was made of and returns 0 |
| KcpDatagram.InputLoopParses | src/transports/snowflake/domain/kcp.rs:374-434 | The input loop over encoded segments processes those segments in order |
| KcpTheorems.SendQueues | src/transports/snowflake/domain/kcp.rs:222-262 | The fragments of `send` concatenate to exactly the accepted bytes, also when stream mode fills the last queued segment first |
| KcpMessages.TakeMessage | src/transports/snowflake/domain/kcp.rs:161-208 | The countdown of fragment ids makes `peek_size` and `recv` take exactly one message |
| KcpTheorems.ReadHears | src/transports/snowflake/domain/kcp_session.rs:101-131 | Session reads of any buffer sizes, with the pending tail, give out the received bytes in order |
| KcpClass.Kcp.constructor | src/transports/snowflake/domain/kcp.rs:118-155 | A new endpoint satisfies the invariant |
| KcpClass.Kcp.TakeOutput | src/transports/snowflake/domain/kcp.rs:157-159 | Hands over the emitted datagrams and leaves none |
| KcpClass.Kcp.PeekSize | src/transports/snowflake/domain/kcp.rs:162-180 | Returns the size of the next complete message as an `i32`, -1 when there is none |
| KcpClass.Kcp.Recv | src/transports/snowflake/domain/kcp.rs:183-208 | Copies exactly one message to the front of the buffer, moves segments up and asks to tell the window when it reopens; -1 and -2 change nothing. Required is only that the source does not panic on a message whose size does not fit an `i32` |
| KcpClass.Kcp.MoveReadySegments | src/transports/snowflake/domain/kcp.rs:210-220 | The loop moves exactly the ready segments that fit |
| KcpClass.Kcp.Send | src/transports/snowflake/domain/kcp.rs:222-262 | Queues the fragments, or absorbs and then refuses with -2 |
| KcpClass.Kcp.AbsorbTail | src/transports/snowflake/domain/kcp.rs:227-234 | Stream mode fills the last queued segment up to `mss` |
| KcpClass.Kcp.QueueFragments | src/transports/snowflake/domain/kcp.rs:247-260 | Appends the fragments with their countdown ids |
| KcpClass.Kcp.ParseUna | src/transports/snowflake/domain/kcp.rs:323-334 | Drops exactly the segments before `una` and reports whether any went |
| KcpClass.Kcp.ShrinkBuf | src/transports/snowflake/domain/kcp.rs:286-291 | `snd_una` becomes the first number still buffered |
| KcpClass.Kcp.ParseAck | src/transports/snowflake/domain/kcp.rs:293-308 | Marks exactly the segment with that number and frees its data |
| KcpClass.Kcp.ParseFastack | src/transports/snowflake/domain/kcp.rs:310-321 | Counts exactly the earlier segments sent no later than `ts` |
| KcpClass.Kcp.FindSlot | src/transports/snowflake/domain/kcp.rs:344-356 | The backward scan finds the insertion point or the repeated segment |
| KcpClass.Kcp.ParseData | src/transports/snowflake/domain/kcp.rs:337-362 | Inserts a new in-window segment once, at its place, then moves ready segments; reports as repeated what is outside the window or changes nothing |
| KcpClass.Kcp.ProcessSegment | src/transports/snowflake/domain/kcp.rs:397-432 | One parsed segment: window, cumulative ACK, then the command |
| KcpClass.Kcp.Input | src/transports/snowflake/domain/kcp.rs:365-473 | The parse loop with its -1, -2 and -3 exits, and the flush a sliding window or pending ACK triggers |
| KcpClass.Kcp.WndUnused | src/transports/snowflake/domain/kcp.rs:475-481 | The advertised window is the free room of the receive queue |
| KcpClass.Kcp.MakeSpace | src/transports/snowflake/domain/kcp.rs:496-500 | A full datagram goes out before a segment that would not fit is written |
| KcpClass.Kcp.PutAcks | src/transports/snowflake/domain/kcp.rs:502-511 | Writes the ACKs that still matter and always the last one |
| KcpClass.Kcp.RunProbeTimer | src/transports/snowflake/domain/kcp.rs:520-539 | The window probe timer with its back-off |
| KcpClass.Kcp.PutProbes | src/transports/snowflake/domain/kcp.rs:547-557 | Writes the window question and answer that are due and clears both flags |
| KcpClass.Kcp.Refill | src/transports/snowflake/domain/kcp.rs:564-576 | Numbers and admits queued segments while the window allows |
| KcpClass.Kcp.Schedule | src/transports/snowflake/domain/kcp.rs:598-627 | First send, fast resend, early resend or timeout: whether a segment is due and its new timer |
| KcpClass.Kcp.Retransmit | src/transports/snowflake/domain/kcp.rs:584-653 | Sweeps the send buffer, packing each due segment with header and data |
| KcpClass.Kcp.Flush | src/transports/snowflake/domain/kcp.rs:485-676 | What `flush` leaves and emits, as a function of the state, the clock, the congestion window and the timeout; with `ack_only` the ACKs alone |
| KcpClass.Kcp.FlushAcks | src/transports/snowflake/domain/kcp.rs:485-515 | Writes the pending ACKs and forgets them, leaving the last control segment for the probes |
| KcpClass.Kcp.FlushRest | src/transports/snowflake/domain/kcp.rs:518-676 | Probes, admission and retransmission continue the datagram the ACKs began |
| KcpSession.KcpSession.Read | src/transports/snowflake/domain/kcp_session.rs:101-131 | The pending tail first, else one whole message cut at the buffer with the rest kept, else nothing: as the system's read step has it |
| KcpSession.KcpSession.ReadSays | src/transports/snowflake/domain/kcp_session.rs:101-131 | The three cases of the read step: the front of the pending tail, nothing while there is no message, or the front of the whole message with the rest kept |
| KcpSession.KcpSession.WriteBuffers | src/transports/snowflake/domain/kcp_session.rs:140-171 | Waits exactly while as many segments wait as one of the two windows holds; else queues every byte in pieces of `mss`, and flushes exactly when a window is full then or delay is off |
| KcpSession.KcpSession.Transmit | src/transports/snowflake/domain/kcp_session.rs:93-99 | Sends exactly the datagrams of at least a header's length, in order |
| KcpSession.KcpSession.Input | src/transports/snowflake/domain/kcp_session.rs:192-207 | A received datagram is given to the endpoint, what that emits is sent, and readers and writers are woken exactly when there is a message or room |
| KcpSession.SizeFits | src/transports/snowflake/domain/kcp_session.rs:101-131 | With received datagrams of at most 1500 bytes and a receive window below 2^31 / 1476, no message outgrows the `i32` of `peek_size` |
| KcpSession.SizeFitsWindow | src/transports/snowflake/domain/kcp.rs:727-734 | `peek_size` tells the size of every message a peer may build, if and only if the receive window is below 2^31 / 1476 |
| KcpSession.SendBuffersQueues | src/transports/snowflake/domain/kcp_session.rs:152-158 | Chunks of `mss` are always accepted by `send`: every byte of every buffer is queued in order |
| KcpSession.ShortSend | src/transports/snowflake/domain/kcp_session.rs:152-158 | A chunk of at most `mss` bytes never meets the -2 exit |
| KcpSession.FlushLarge | src/transports/snowflake/domain/kcp_session.rs:93-99 | No datagram of a flush is shorter than a header, so `transmit` drops none |
| KcpSessions.SessionDelivery | src/transports/snowflake/domain/kcp_session.rs:101-171 | In every conversation of two sessions, with any writes, reads, received datagrams and updates, the bytes read from one are a prefix of the bytes its peer's `write_buffers` took |
| KcpSessions.WriteIsRun | src/transports/snowflake/domain/kcp_session.rs:140-171 | A session write is a run of `send` calls that accept exactly its bytes, and a flush when one is due |
| KcpSessions.NothingCut | src/transports/snowflake/domain/turbotunnel.rs:157-169 | Read buffers of a given size, 1500 in the source, cut no datagram of any run if and only if `mtu` is at most that size |
| TurboTunnel.RedialPacketConn.Send | src/transports/snowflake/domain/turbotunnel.rs:110-116 | Queues a packet, drops it when the queue is full, refuses when closed |
| TurboTunnel.RedialPacketConn.Recv | src/transports/snowflake/domain/turbotunnel.rs:91-107 | Takes the oldest packet, cut to the buffer; a closed connection answers its latched error |
| TurboTunnel.RedialPacketConn.Arrive | src/transports/snowflake/domain/turbotunnel.rs:158-169 | A carrier's packet is queued or dropped; what was and will be received stays a subsequence of what arrived |
| TurboTunnel.RedialPacketConn.Pump | src/transports/snowflake/domain/turbotunnel.rs:170-177 | A failing carrier loses the packet in hand; what carriers get stays a subsequence of what was sent |
| TurboTunnel.RedialPacketConn.CloseWithError | src/transports/snowflake/domain/turbotunnel.rs:61-70 | Only the first close leaves its reason |
| TurboTunnel.SubMember | src/transports/snowflake/domain/turbotunnel.rs:110-116 | A packet that comes out of a lossy queue went into it unaltered, and no more come out than went in |
| SmuxDelivery.StreamDelivery | src/transports/snowflake/domain/smux.rs:451-711 | In every interleaving the acceptor's reader has a prefix of what the opener's writer wrote on that stream, and all of it once end-of-stream was reported on a stream its own side had not begun to close |
| SmuxDelivery.EndOfStream | src/transports/snowflake/domain/smux.rs:669-711 | That an end told of comes after FIN and every byte, in every run, holds for the ends told before the reader's own side shut the stream and fails for those told after, unless the bucket starts empty and nothing is ever received |
| SmuxDelivery.LostAtClose | src/transports/snowflake/domain/smux.rs:805-820 | The run that shows it: SYN, one byte and FIN are written, the byte is received, the acceptor's side closes, and a reader that got nothing is told of the end |
| SmuxDelivery.CutDelivery | src/transports/snowflake/domain/smux.rs:411-519 | In every run, and wherever the byte stream is cut, each stream's received frames begin what was said on it, and are all of it once they end in FIN |
| SmuxDelivery.WireOrder | src/transports/snowflake/domain/smux.rs:411-449 | On the wire each stream is SYN, then data in write order, then FIN |
| SmuxTokens.TokenConservation | src/transports/snowflake/domain/smux.rs:353-367 | Bucket + buffered bytes + tokens on their way equals the limit at every step of every run if and only if the limit + 65535 is below 2^31 |
| SmuxTokens.TokensModulo | src/transports/snowflake/domain/smux.rs:353-357 | For every limit the `i32` bucket is what the other tokens leave of it, modulo 2^32 |
| SmuxTokens.BufferBound | src/transports/snowflake/domain/smux.rs:451-519 | Where tokens are conserved at most the limit and one frame is buffered, and an idle session has its full bucket back |
| SmuxTokens.Overflows | src/transports/snowflake/domain/smux.rs:229-235 | From 2^31 - 65535 on, which `verify` accepts, there is a run after which the tokens do not add up |
| SmuxCredit.CreditBound | src/transports/snowflake/domain/smux.rs:754-803 | Bytes written and not yet read never exceed max(262144, peer `max_stream_buffer`), also when a writer runs between the two stores of an update |
| SmuxCredit.WindowReopens | src/transports/snowflake/domain/smux.rs:754-803 | Once everything written is read and every update stored, the window the writer computes is positive |
| SmuxCredit.WriterGoesOn | src/transports/snowflake/domain/smux.rs:754-803 | No deadlock, to the end: with everything read and every update stored, a writer that wants to gets a positive grant and hands over the next byte |
| SmuxCredit.GrantExact | src/transports/snowflake/domain/smux.rs:772-790 | A load of the window grants exactly as much of what is wanted as the peer's window leaves above the bytes not known to be consumed |
| SmuxCredit.GrantIsSpent | src/transports/snowflake/domain/smux.rs:772-803 | A grant lasts to its last byte, in frames of any sizes |
| SmuxCredit.AnnouncesInTime | src/transports/snowflake/domain/smux.rs:653-667 | A read announces the count on the first read and once half a window has been read since the last, and otherwise says nothing |
| SmuxCredit.InflightExact | src/transports/snowflake/domain/smux.rs:762-771 | The wrapping in-flight count is the exact number of unconsumed bytes and never negative against an honest peer |
| SmuxFrames.BeforeIsAge | src/transports/snowflake/domain/smux.rs:188-195 | While tickets are within 2^31 the wrapping order is control first, then age |
| SmuxFrames.BeforeNeedsNear | src/transports/snowflake/domain/smux.rs:188-195 | Two requests of one class exactly 2^31 apart are not ordered at all: the bound is sharp |
| SmuxFrames.NextIsOldest | src/transports/snowflake/domain/smux.rs:427-427 | While pending requests span less than 2^31, a pop yields the oldest control request if there is one, else the oldest data request |
| SmuxFrames.NextExists | src/transports/snowflake/domain/smux.rs:427-427 | A non-empty heap of near requests has such a next request |
| SmuxFrames.DecodeEncode | src/transports/snowflake/domain/smux.rs:428-433 | A frame parses back to itself and the rest |
| SmuxFrames.DecodeAnswers | src/transports/snowflake/domain/smux.rs:455-545 | What is made of any bytes: another version or an unknown command is refused once the header is there; PSH has as much data as it says, UPD two words, the others none |
| SmuxFrames.FrameLayout | src/transports/snowflake/domain/smux.rs:428-433 | Version, command, length and stream id are at their offsets, low byte first, then the data |
| SmuxFrames.UpdateHeard | src/transports/snowflake/domain/smux.rs:716-722 | The window update a reader sends carries the count and the window that the peer takes out of it |
| SmuxFrames.StreamPrefix | src/transports/snowflake/domain/smux.rs:461-518 | At every cut of the byte stream the frames received are exactly those that are complete before it |
| SmuxSession.Session.HandleFrame | src/transports/snowflake/domain/smux.rs:479-519 | What a received frame does to the stream table, the buffers, the bucket, the accept queue and the peer's credit; an empty data frame does nothing |
| SmuxSession.Session.Account | src/transports/snowflake/domain/smux.rs:653-663 | Read counts and the update that is due |
| SmuxSession.Session.TryRead | src/transports/snowflake/domain/smux.rs:638-673 | Data from the front buffer with its tokens given back, else end-of-stream exactly when the stream is shut, else nothing; version 2 counts the read; also through a handle that outlives the registration |
| SmuxSession.Session.Read | src/transports/snowflake/domain/smux.rs:675-711 | Zero bytes into a buffer with room are returned exactly when nothing is buffered and the stream is shut or FIN has come; otherwise data if there is any, with the count to announce when an update is due |
| SmuxSession.Session.Shut | src/transports/snowflake/domain/smux.rs:805-808 | The first close marks the stream before anything else; later ones are refused |
| SmuxSession.Session.TakeFront | src/transports/snowflake/domain/smux.rs:644-652 | At most one buffer is touched: its front goes to the caller, the rest stays in front |
| SmuxSession.Session.StreamClosed | src/transports/snowflake/domain/smux.rs:359-367 | Unregisters the stream and returns the tokens of everything unread |
| Obfs4Decoding.FramesDelivered | src/transports/obfs4/domain/framing.rs:98-175 | For every list of payloads and every split of the encoder's output into arrivals, the decoder has yielded exactly the payloads whose frames have arrived in full, waits for the next length or frame, and holds exactly the bytes past them |
| Obfs4Decoding.PayloadsDecoded | src/transports/obfs4/domain/framing.rs:140-175 | A decoder fed the first n bytes yields exactly the payloads whose frames are complete in them and keeps exactly the tail |
| Obfs4Decoding.ChunkingInsensitive | src/transports/obfs4/domain/framing.rs:140-175 | Arbitrary arrivals yield what one arrival of their concatenation yields |
| Obfs4Decoding.DrainMore | src/transports/obfs4/domain/framing.rs:140-175 | Draining a buffer and then draining with more bytes is draining everything at once, for arbitrary bytes |
| Obfs4Decoding.BadLengthPoisons | src/transports/obfs4/domain/framing.rs:150-156 | A length out of range returns no frame and marks the decoder |
| Obfs4Decoding.PoisonedForever | src/transports/obfs4/domain/framing.rs:161-171 | A marked decoder never returns a frame again, whatever arrives |
| Obfs4Framing.NoncesDistinct | src/transports/obfs4/domain/framing.rs:59-67 | The nonces of any two frames of a connection differ, up to the counter's wrap |
| Obfs4Framing.EncodeStep | src/transports/obfs4/domain/framing.rs:98-113 | The n-th encode appends the n-th frame and steps nonce and mask together |
| Obfs4Framing.MaskTwice | src/transports/obfs4/domain/framing.rs:149-150 | Masking the length a second time undoes it |
| Obfs4Framing.MaskHides | src/transports/obfs4/domain/framing.rs:98-113 | For every length each value of the field comes from exactly one mask, so a uniform mask gives a uniform field |
| Obfs4Framing.MaskBits | src/transports/obfs4/domain/framing.rs:98-113 | Each bit of the field is the sum modulo 2 of that bit of the length and of the mask |
| Obfs4Framing.FieldOnWire | src/transports/obfs4/domain/framing.rs:98-113 | The two bytes before the sealed ones are, high byte first, the sealed length masked bit by bit with the next mask |
| Obfs4Stream.Buf.Extend | src/transports/obfs4/domain/buf.rs:22-28 | Appends to the contents, whatever is dropped from the storage |
| Obfs4Stream.Buf.Consume | src/transports/obfs4/domain/buf.rs:30-38 | Removes exactly the first n bytes |
| Obfs4Stream.Buf.ReadInto | src/transports/obfs4/domain/buf.rs:40-45 | Moves the first bytes that fit into the caller's buffer |
| Obfs4Stream.Buf.Clear | src/transports/obfs4/domain/buf.rs:47-50 | Leaves nothing |
| Obfs4Stream.Encoder.Encode | src/transports/obfs4/domain/framing.rs:98-113 | The object steps as the encoder function does; errors append nothing |
| Obfs4Stream.Decoder.Decode | src/transports/obfs4/domain/framing.rs:140-175 | The object steps as the decoder function does, consuming exactly what that takes |
| Obfs4Packet.ParseMake | src/transports/obfs4/domain/packet.rs:33-65 | A packet parses back to its type and data; padding disappears |
| Obfs4Packet.PacketLayout | src/transports/obfs4/domain/packet.rs:33-53 | A packet is its kind, the length of its data high byte first, the data and zeros |
| Obfs4Packet.ParseAnswers | src/transports/obfs4/domain/packet.rs:55-65 | What is made of any bytes: the announced data whatever the kind, the rest being padding; too short a packet and too long an announcement are told apart |
| Obfs4Packet.BodiesDeliver | src/transports/obfs4/domain/packet.rs:33-65 | The bodies of any packets parse, and payload packets deliver exactly their data in order |
| Obfs4Conn.Writer.PutPacket | src/transports/obfs4/domain/packet.rs:33-53 | A packet within the limit is framed and appended; the only error is the wrapped nonce |
| Obfs4Conn.Writer.PadBurst | src/transports/obfs4/domain/conn.rs:212-246 | Appends exactly the padding packets for the gap; their sizes never exceed a packet's limit |
| Obfs4Conn.PaddedLength | src/transports/obfs4/domain/conn.rs:218-244 | A padded burst is congruent mod 1448 to the target, or to target + 21 when the gap is 1 to 21 |
| Obfs4Conn.CutPieces | src/transports/obfs4/domain/conn.rs:259-281 | A write is cut into packets of 1427 bytes but for the last, each 21 bytes longer on the wire |
| Obfs4Conn.Writer.Write | src/transports/obfs4/domain/conn.rs:259-317 | A finished write has put whole frames on the wire that carry exactly the bytes; plain mode writes once, standard mode in segments, paranoid mode as drawn; the padded burst ends on the sample, or 21 bytes past it, modulo a segment; a paranoid write is left unfinished only when its samples have run out, and any only when the nonces have |
| Obfs4Conn.Writer.SendParanoid | src/transports/obfs4/domain/conn.rs:283-315 | Every write is as long as the first sample that is not passed over: zeros are, up to 64, and so are samples that padding overshoots; the 65th zero is an MTU-bounded write; it stops only when all is written or samples or nonces run out |
| Obfs4Conn.Writer.ParanoidTurn | src/transports/obfs4/domain/conn.rs:283-311 | One turn of the loop: skip a zero, pad and resample, or write the target or the fallback; the zeros counted and the length written are exact |
| Obfs4Conn.Writer.SendSegments | src/transports/obfs4/domain/conn.rs:281-315 | Standard mode cuts the burst into 1448-byte writes |
| Obfs4Reader.Reader.ProcessBuffered | src/transports/obfs4/domain/conn.rs:124-149 | Decodes every complete frame and delivers what the packets carry; an error is stashed exactly when a frame or packet is refused |
| Obfs4Reader.ProcessMore | src/transports/obfs4/domain/conn.rs:118-149 | Processing, then more bytes, then processing again gives and refuses what processing it all at once does |
| Obfs4Reader.Reader.ReadSome | src/transports/obfs4/domain/conn.rs:151-186 | What a read returns, exactly: decoded bytes first, then a stashed error, then the end; else arrivals are taken one by one, only while what is there gives nothing and is not refused, and the answer is what all of it together decodes to; given + decoded bytes stay what the frames carried |
| Obfs4Reader.Reader.Refill | src/transports/obfs4/domain/conn.rs:168-184 | One turn: decodes what is buffered, and only if that gives nothing takes one arrival and decodes again |
| Obfs4Reader.Reader.TakeDecoded | src/transports/obfs4/domain/conn.rs:156-158 | The caller gets as much of the front of what was decoded as fits, and that is removed |
| Obfs4Reader.WriterIsGood | src/transports/obfs4/domain/conn.rs:259-317 | Any prefix of what a writer put on the wire decodes without error to exactly the text of the packets that are complete in it |
| Obfs4Reader.ConnectionDelivers | src/transports/obfs4/domain/conn.rs:124-186 | Fed from the writer, the reader never fails; given, decoded and still decodable bytes are exactly the text of the packets complete in what arrived, all of it at the end |
| Obfs4Reader.EndDelivers | src/transports/obfs4/domain/conn.rs:151-186 | After the end of the network's bytes the caller has exactly the text of the packets that arrived whole, and everything written if all of the wire was fed |
| ProbDist.WeightedDist.GenTables | src/shared/domain/crypto/probdist.rs:83-123 | Vose's tables stand for the weights: each index keeps or is given exactly its share n*w[i]/sum; with no weight at all every index keeps itself |
| ProbDist.WeightedDist.FillQueues | src/shared/domain/crypto/probdist.rs:90-101 | Scales the weights and queues every index once, by whether its share is below 1 |
| ProbDist.WeightedDist.PairQueues | src/shared/domain/crypto/probdist.rs:103-114 | The two-queue loop keeps every index's share accounted for |
| ProbDist.WeightedDist.DrainLarge | src/shared/domain/crypto/probdist.rs:115-117 | Every index left in the large queue gets prob 1 and no other prob changes; the shares stay accounted for |
| ProbDist.Leftover | src/shared/domain/crypto/probdist.rs:115-121 | When one queue runs dry it is the small one, and every leftover large entry is exactly 1: the last loop is unreachable |
| ProbDist.TurnKeeps | src/shared/domain/crypto/probdist.rs:103-114 | One turn finishes one index with its prob and keeps shares, queues and the average of 1 |
| ProbDist.InProportion | src/shared/domain/crypto/probdist.rs:135-143 | With the slot drawn uniformly an index comes up with probability weight / total |
| ProbDist.SharesAverageOne | src/shared/domain/crypto/probdist.rs:92-101 | The scaled weights sum to n |
| ProbDist.WeightedDist.GenValues | src/shared/domain/crypto/probdist.rs:59-66 | 1 to min(100, max+1-min) distinct offsets, the first entries of a permutation |
| ProbDist.ChosenAre | src/shared/domain/crypto/probdist.rs:59-66 | The values are the first so many entries of the permutation of all offsets, so many being drawn after it; choosing fails only where a draw runs dry |
| ProbDist.WeightedDist.GenBiasedWeights | src/shared/domain/crypto/probdist.rs:68-77 | Each weight is a drawn part of what is left of 1; none is negative and the sum is at most 1 |
| ProbDist.PartIs | src/shared/domain/crypto/probdist.rs:68-77 | A part is the raw value over 2^63 of what is left of 1 |
| ProbDist.WeightedDist.GenUniformWeights | src/shared/domain/crypto/probdist.rs:79-81 | One drawn fraction per value |
| ProbDist.WeightedDist.Reset | src/shared/domain/crypto/probdist.rs:48-57 | Values, weights and tables, each built from what the one before left of the source, fit each other |
| ProbDist.WeightedDist.Sample | src/shared/domain/crypto/probdist.rs:135-143 | Every sample lies in the support and within [min, max] |
| ProbDist.WeightedDist.ContainsIsSupport | src/shared/domain/crypto/probdist.rs:126-133 | `contains` is membership in `support` |
| Gorand.Unbiased | src/shared/domain/crypto/gorand.rs:31-36 | The accepted values hit every residue below n equally often |
| Gorand.UnbiasedDraws | src/shared/domain/crypto/gorand.rs:26-50 | Of all raw 63-bit values, the narrow sampler answers each residue r < n on exactly 2^32 * (2^31 / n) and the wide one on 2^63 / n, powers of two by their mask included |
| Gorand.SamplesFirst | src/shared/domain/crypto/gorand.rs:31-50 | Every raw value before the one used reads as no less than the largest multiple of n in the range, that one reads as less, its remainder is the answer, and what follows it is left |
| Gorand.ReadingIs | src/shared/domain/crypto/gorand.rs:39-50 | The wide sampler reads all 63 bits, the narrow one the top 31 |
| Gorand.HalfAccepted | src/shared/domain/crypto/gorand.rs:31-35 | At least half of all raw values are accepted |
| Gorand.MaskIsRemainder | src/shared/domain/crypto/gorand.rs:28-30 | For a power of two the mask is the remainder |
| Gorand.Rand.Int63n | src/shared/domain/crypto/gorand.rs:26-37 | Both paths return the remainder of the first accepted raw value, as `Gorand.SamplesFirst` describes it, and consume exactly up to it |
| Gorand.Rand.Int31n | src/shared/domain/crypto/gorand.rs:39-50 | The same on the top 31 bits |
| Gorand.Rand.Intn | src/shared/domain/crypto/gorand.rs:53-60 | Narrow for bounds below 2^31, wide above |
| Gorand.Rand.Float64 | src/shared/domain/crypto/gorand.rs:62-69 | A fraction in [0, 1) |
| Gorand.FractionIs | src/shared/domain/crypto/gorand.rs:62-69 | The fraction is the raw value over 2^63 |
| Gorand.Rand.Perm | src/shared/domain/crypto/gorand.rs:71-79 | The in-place loop builds the permutation its draws stand for |
| Gorand.DrawIs | src/shared/domain/crypto/gorand.rs:71-79 | Draw i is what the sampler answers for i + 1 on what the draws before it left |
| Gorand.DrawsStop | src/shared/domain/crypto/gorand.rs:71-79 | The draws fail only where the sampler runs dry |
| Gorand.PlacedAt | src/shared/domain/crypto/gorand.rs:71-79 | Each step puts the new index at the drawn place and what was there at the end |
| Gorand.Built | src/shared/domain/crypto/gorand.rs:71-79 | Any draws build a permutation of 0..n |
| Gorand.BuiltInjective | src/shared/domain/crypto/gorand.rs:71-79 | Different draws build different permutations |
| Gorand.BuiltSurjective | src/shared/domain/crypto/gorand.rs:71-79 | Every permutation is built by some draws, so uniform draws make uniform permutations |
| SocksArgs.SameLanguage | src/shared/adapters/socks5.rs:258-313 | The strict parser accepts exactly the UTF-8 strings that goptlib's accepts and in which every backslash escapes `\`, `=` or `;`, and then both give the same arguments |
| SocksArgs.ParseClientParameters | src/shared/adapters/socks5.rs:259-313 | The flag-driven pass computes the machine, with its errors and their positions, and succeeds exactly on that language |
| SocksArgs.RunPairs | src/shared/adapters/socks5.rs:268-304 | The single pass is the pair-by-pair parse with strict scans |
| SocksArgs.AcceptedIsUtf8 | src/shared/adapters/socks5.rs:264-264 | Checking each key and value is checking the whole string |
| SocksArgs.EncodeParses | src/shared/adapters/socks5.rs:258-313 | Any non-empty list of escaped and joined pairs is read back by both parsers |
| PtLanguage.SocksIs | src/shared/adapters/socks5.rs:259-313 | The same for the strict parser, with the position each error names |
| PtLanguage.SocksCovers | src/shared/adapters/socks5.rs:259-313 | Every string is a list of strictly escaped pairs and a tail, so that is the whole strict parser |
| PtArgs.ParseClientParameters | src/shared/domain/pt/args.rs:64-97 | The index loop computes the pairs, with its errors in order |
| PtArgs.ScanUnescaped | src/shared/domain/pt/args.rs:38-61 | `index_unescaped`: text up to the first unescaped terminator, or the error |
| PtArgs.StringsStayText | src/shared/domain/pt/args.rs:59-59 | On a `&str` no piece is ever bad UTF-8, whatever is escaped |
| PtLanguage.GoptlibIs | src/shared/domain/pt/args.rs:64-97 | The answer on a list of whole pairs and a tail, spelled with any escapes: the pairs in order, or the one error the tail stands for |
| PtLanguage.GoptlibCovers | src/shared/domain/pt/args.rs:38-97 | Every string is such a list and tail, so that is the whole parser: which strings it accepts, what they mean, and every error |
| PtArgs.Args.Add | src/shared/domain/pt/args.rs:21-26 | Values accumulate per key in order; the first value of a key never changes |
| PtArgs.Args.Get | src/shared/domain/pt/args.rs:17-19 | However the table was built by adding pairs, the value of the first pair with that key, if there was one |
| PtArgs.FirstStays | src/shared/domain/pt/args.rs:17-26 | Adding any pairs never changes a key's first value; for a new key the first pair added decides it |
| PtArgs.AddedInOrder | src/shared/domain/pt/args.rs:21-26 | Adding pairs appends to each key the values it has among them, in order, and adds no other key |
| Utf8.Cut | src/shared/adapters/socks5.rs:264-264 | Cutting a string at an ASCII byte leaves UTF-8 pieces exactly when it was UTF-8 |
| Utf8.ValidMeans | src/shared/adapters/socks5.rs:264-264 | Well-formed is exactly what encodes a list of Unicode scalar values |
| ReplayFilter.AnswerIsMemory | src/shared/domain/crypto/replayfilter.rs:44-57 | Under a clock that never goes back, the answer is true exactly when the digest was recorded less than `ttl` ago and fewer than MAX_FILTER_SIZE records were made from it on |
| ReplayFilter.NoFalseReplay | src/shared/domain/crypto/replayfilter.rs:44-57 | Whatever the clock does, an answer of true means an earlier call recorded that digest |
| ReplayFilter.CompactedTail | src/shared/domain/crypto/replayfilter.rs:59-75 | Compacting keeps exactly the records still remembered |
| ReplayFilter.CompactedFront | src/shared/domain/crypto/replayfilter.rs:59-75 | Under any clock: the old and the excess records at the front go, and all of them if the clock is then behind the front |
| ReplayFilter.Filter.TestAndSet | src/shared/domain/crypto/replayfilter.rs:44-57 | Map and queue hold the same digests, none twice, at most MAX_FILTER_SIZE; a replay records nothing |
| ReplayFilter.Filter.Compact | src/shared/domain/crypto/replayfilter.rs:59-75 | Drops old and excess records from both, and everything when the clock went back |
| Encapsulation.ChunksAreRead | src/transports/snowflake/domain/encapsulation.rs:52-81 | For every interleaving of data and padding, successive reads find exactly the data chunks cut to the caller's buffers, then clean ends |
| Encapsulation.ExpectedIsData | src/transports/snowflake/domain/encapsulation.rs:52-81 | The k-th answer is the k-th data chunk cut to the buffer, and a clean end after the last |
| Encapsulation.ReadData | src/transports/snowflake/domain/encapsulation.rs:52-81 | Whatever way the reader splits its reads, one call finds what the stream holds next, or reports the reader's own failure |
| Encapsulation.ReadExact | src/transports/snowflake/domain/encapsulation.rs:27-37 | Fills the buffer however the reads split, or finds the end |
| Encapsulation.Discard | src/transports/snowflake/domain/encapsulation.rs:39-47 | Skips exactly n bytes |
| Encapsulation.PrefixParses | src/transports/snowflake/domain/encapsulation.rs:83-100 | Every length below 2^20 parses back from its prefix |
| Encapsulation.PrefixShape | src/transports/snowflake/domain/encapsulation.rs:83-100 | A length is written with as few bytes as it takes: one below 2^6, two below 2^13, three below 2^20 |
| Encapsulation.PrefixRule | src/transports/snowflake/domain/encapsulation.rs:52-81 | How any prefix reads: kind and six bits, then seven bits a byte, an end inside it or a fourth byte being an error |
| Encapsulation.DataIsRead | src/transports/snowflake/domain/encapsulation.rs:103-107 | An encoded chunk is read back, cut to the buffer, with the rest of the stream intact |
| Encapsulation.PaddingIsSkipped | src/transports/snowflake/domain/encapsulation.rs:110-132 | Padding is invisible to the reader |
| Encapsulation.Padding | src/transports/snowflake/domain/encapsulation.rs:110-132 | n bytes of padding are exactly n bytes |
| Encapsulation.EncodePadding | src/transports/snowflake/domain/encapsulation.rs:110-132 | The loop writes that padding; its third branch is unreachable |
| Encapsulation.Truncated | src/transports/snowflake/domain/encapsulation.rs:27-37 | A stream that ends inside a data chunk is an unexpected end, never a clean one |

## Left out

- Liveness: retransmission eventually succeeding, dead-link detection, `update` and the delay `flush` suggests.
- Congestion window and round-trip estimation (kcp.rs:264-284, 436-465, 658-674): both are arbitrary inputs of every `flush`, so the safety theorems hold for any values they could take.
- `release_tx`, `set_mtu` and `nodelay` during a run; `release_tx` empties the send buffer on close and is not part of the invariant.
- KcpRuns.PrefixDelivery: assumes windows and `mtu` that stay as configured; runs of 2^31 - 65536 segments and more are outside it, because `timediff` no longer agrees with the integers there.
- KcpClass.Kcp.Input: leaves round-trip times and the congestion window, which `input` updates from ACKs, out of the state; they enter as the arbitrary inputs above.
- KcpClass.Kcp.Flush: leaves out the returned delay, the congestion-window update and the dead-link flag.
- KcpClass.Kcp.FlushRest: leaves out the same.
- KcpClass.Kcp.Retransmit: leaves out the dead-link flag, the counters of lost and resent segments that feed the congestion window, and the next delay.
- KcpClass.Kcp.Recv: requires the buffer to hold the message when its size wraps as an `i32`, because the source's copy panics there; `KcpSession.SizeFits` shows that a session never meets this.
- Messages longer than `rcv_wnd` fragments becoming readable: the code does not promise it.
- KcpSession.KcpSession.Read: one turn of the loop; waiting, closing and the dead-peer error are not modelled.
- KcpSession.KcpSession.WriteBuffers: one turn of the loop; waiting, closing and the dead-peer error are not modelled.
- KcpSession.SizeFits: for receive windows below 2^31 / 1476 segments, which the invariant of the session class also asks; `KcpSession.SizeFitsWindow` shows that larger ones, which `wnd_size` accepts, do not have the property.
- KcpSessions.SessionDelivery: datagrams arrive whole or not at all, which `KcpSessions.NothingCut` ties to `mtu`; closing a session is outside.
- KcpSession.KcpSession.Input: datagrams of at most 1500 bytes, the size of the read loop's buffer.
- TurboTunnel: dialing and the scheduling of `exchange`; a carrier is an arbitrary source and sink of packets.
- smux: channels are sets from which any request may be taken next, which allows more orders than the code; keep-alive, version mismatch errors and read and write errors that end a session are the step that stops the sender.
- SmuxDelivery.StreamDelivery: for the direction from the opener to the acceptor, with one writing task per stream and `close` after the last write returned, as `ConnHalf` uses it; the opener's own stream is registered only after its SYN is on the wire. A read that fails while announcing its window has taken its bytes, and they count as read.
- SmuxSession.Session.HandleFrame: waiting for room in the accept queue, and the errors that end a session. A stream id used again by a dishonest peer is one stream to readers here, where the source keeps the old handle apart.
- SmuxSession.Session.Read: one turn of the loop; waiting, wake-ups and the session's errors are not modelled.
- SmuxCredit.CreditBound: for streams of less than 2^32 bytes.
- The tasks, sockets, timers, locks and atomics of the runtime: concurrency is steps, time is an argument, and each step is atomic.
- Cryptography: the secretbox, the DRBG, SipHash and the handshake are functions with the stated round trip and nothing more; no strength is claimed. The replay filter takes the digest as its argument.
- Obfs4Conn.Writer.Write: takes the list of length samples it will draw and reports that it is still waiting when the list runs out before the burst is empty; that the paranoid loop ends is only probable. Inter-arrival delays change no bytes.
- Obfs4Reader: the table reset on a PRNG-seed packet changes only later samples, which are arbitrary anyway.
- Gorand.Rand.Int63n: the source is a finite list of raw values and running dry is an outcome; that rejection sampling ends is only probable. The same holds for the other draws.
- ProbDist.WeightedDist.GenTables: exact reals; the rounding of `f64` and bit-for-bit agreement with Go are outside. Division by a zero sum is modelled as what `f64` does there: no quotient compares below 1.
- Gorand.Rand.Float64: over reals no draw rounds up to 1, so the retry of the source never happens.
- PtArgs: server transport options and the SMETHOD encoder (args.rs:99-165), which repeat the same scan.
- Encapsulation: the reader's failures are one error kind.
- Handshakes, key derivation, Elligator 2, rendezvous, broker messages, TLS, WebRTC, STUN, configuration and logging.
