# A verified model of the zportal tunnel

zportal joins two TUN devices through one connected byte stream. A *session* reads packets from its TUN
device into a pool of buffers shared with the kernel (`io_uring`), frames each one with a 16-byte big-endian header
and a CRC32C, and sends it; in the other direction it receives stream bytes into a second pool, reassembles frames
without copying, and writes the packets to the TUN device. No payload is copied in either direction, sends and receives
complete in pieces of any size, and both directions pause ("cool down") when the kernel finds no free buffer.

This project models that machine and proves what it is for: **the packets written on one side are, byte for byte and
in order, an initial part of the packets read on the other, whatever the two kernels do within their contract**
(`EndToEnd.PacketsGetThrough`), **and with pools that are large enough everything under way gets through**
(`TunnelProgress.TunnelDrains`), together with the ownership, zero-copy, resumption, error and progress properties
this rests on. Three smaller parts are modelled the same way: CRC32C, CIDR masks and the SOCKS5 chain.

## How it is built

* **Handlers.** Each object whose methods update its fields is a class (`Receiver`, `Transmitter`, `TunnelSession`,
  `BufferGroup`, `IoUring`, `FrameHeader`, `Socket`). Its methods have the program's loops and branches, and each one
  is proved equal to a function on values (`ReceiverSpec`, `TransmitterSpec`) through `View()`: the contract fixes the
  whole new state and the reported error.
* **Kernel.** `ReceiveSystem` and `TransmitSystem` add the other player as a state machine. The kernel may, at any
  step and in any order: overwrite every buffer it owns; complete a receive or a read into a buffer it owns, keeping
  the operation armed or not; end it with `ENOBUFS`, only when it owns no buffer, or with another error; take any
  non-empty part of the bytes a send offers, reading them from memory at that moment; write a frame, gathered from
  memory at that moment; fail. Completions are queued first in, first out. A run is any finite sequence of such steps
  and of handler calls from the initial state; the theorems are about every state of every run.
* **Session and tunnel.** `SessionSystem` merges both halves onto one completion queue with the dispatch of the
  session's loop, adds the timer's and typeless completions, and proves that this adds no behaviour;
  `TunnelSession.Serve` ties the objects to it. `EndToEnd` connects two sessions by a stream in each
  direction: bytes arrive in the order they were sent, cut in any way. `Refusals` and `TunnelProgress` say which
  packets this tunnel refuses and that it drains.
* **Numbers.** Header fields are 32-bit numbers as sums of bytes; checksums are bit vectors; `int32` reference counts
  are integers with a proof that they stay below 2^31; packet lengths are below 2^32 because buffer sizes are 32-bit.

Three facts about the program that the model makes explicit:

* With **one** transmit buffer the transmit direction can stall for ever although nothing went wrong: the read's
  `ENOBUFS` can be handled after the only send's completion. With two or more it cannot
  (`TransmitProgress.TransmitterStallsIff`).
* The receive direction can stall for ever although nothing went wrong **exactly if its pool has fewer than
  `2 * mtu + 16` buffers** (`ReceiveStall.ReceiverStallsIff`, for every buffer size from one byte on): a frame that
  lies in up to `mtu` buffers is written while one more, still unfinished in up to `mtu + 15` others, takes the rest,
  and the report that no buffer was left is handled after that write. With more buffers a whole frame is always waiting
  behind the write under way (`ReceiveProgress.ReceiverNeverAsleep`). The daemon's pool of 4096 buffers
  (`app/main.cpp:92`) is therefore safe exactly for MTUs up to 2040, while MTUs up to 65535 are accepted.
* The sender frames whatever it reads, and the receiver ends its session at the header of a packet that is empty or
  exceeds its own MTU: **exactly these packets are refused** (`Refusals.PacketRefusedIff`). Each side's MTU is configured
  on its own (68 to 65535), and without empty packets the stream can be refused exactly if the sending side's MTU is the
  greater one (`Refusals.MismatchRefusesIff`). What was written before is unharmed; packets
  accepted and still waiting to be written are lost with the session.

## Model

| member | source | states |
|---|---|---|
| EndToEnd.PacketsGetThrough | src/session/session.cpp:74-123 | for every run of two connected sessions, in both directions and for all packets: those written are a prefix of those read on the other side before the first one the receiver refuses; the only error the stream causes is the refusal of that packet's header, as soon as it is handled and never otherwise; and once nothing is under way everything read has been written and was acceptable |
| EndToEnd.OneDirection | src/session/receiver.cpp:144-391 | the same for one sending and one receiving half, from their own runs and the order of the stream alone |
| Refusals.PacketRefusedIff | src/session/receiver.cpp:284-293 | some run that reads just this packet ends with the other side refusing the stream, exactly if the packet is empty or exceeds the receiving side's MTU |
| Refusals.UnsendableRefused | src/session/receiver.cpp:284-293 | an actual run of the tunnel, for every such packet, that ends the receiving session with `InvalidSize` |
| Refusals.MismatchRefusesIff | src/session/receiver.cpp:290-293 | without empty packets some run ends in a refusal exactly if the sending side's MTU exceeds the receiving side's |
| Refusals.MatchingMtus | src/session/receiver.cpp:290-293 | if it does not, every packet read in any run is acceptable and the stream is never refused |
| TunnelProgress.TunnelDrains | src/session/session.cpp:95-120 | from every reachable state without failures or queued errors, with roomy receive pools and acceptable packets, steps that read nothing lead within a computed bound to a state where both sides have written all that the other has read |
| TunnelProgress.UsefulRunsEnd | src/session/session.cpp:95-120 | from every reachable state, sending, receiving, writing and handling come to an end within that bound, however they are chosen |
| TunnelProgress.NextStep | src/session/session.cpp:95-120 | in every reachable state without a failure one of these steps can be taken unless both directions have settled |
| TunnelProgress.UsefulRunsKeepWell | src/session/session.cpp:95-120 | while packets are acceptable and no queued completion reports an error, no such run fails |
| TunnelProgress.SettledReadsOn | src/session/transmitter.cpp:298-306 | with two transmit buffers, a settled tunnel can read any next packet on either side |
| TunnelRuns.TunnelSends | src/session/session.cpp:95-120 | every run of one side's transmitter is a run of the tunnel while that side's receiver has nothing queued |
| TunnelRuns.TunnelReceives | src/session/session.cpp:95-120 | every run of the other side's receiver on bytes already sent is a run of the tunnel, with the same failure |
| SessionSystem.SessionProjects | src/session/session.cpp:95-120 | every run of a session on one shared queue, with timer and typeless completions in between, is a run of its receiver and one of its transmitter, and an error that ends it is one of theirs |
| SessionSystem.InternalErrorsAreDead | src/session/session.cpp:95-120 | no run of a session reaches an internal-error branch: only kernel errors and malformed streams end it |
| Sessions.TunnelSession.Dispatch | src/session/session.cpp:101-119 | each completion type reaches its own half with that half's exact effect, leaves the other half untouched, and an unknown type is refused |
| Sessions.TunnelSession.Serve | src/session/session.cpp:95-120 | one round of the loop takes the fields of the real objects exactly where the state machine's step leads, with the same error, and keeps the run invariant |
| Sessions.TunnelSession.Arm | src/session/session.cpp:75-93 | one receive, one read and the monitor's timer are submitted; a session just created becomes the start of every run |
| Sessions.TunnelSession.CreateSession | src/session/session.cpp:13-38 | refused exactly for empty queues, zero buffer sizes or failed setups, with the error of the half created first; otherwise, on a fresh ring, every field of both halves has its initial value and every buffer is the kernel's |
| ReceiveTheorems.WrittenIsDecoded | src/session/receiver.cpp:144-391 | in every run, also a failed one, what was written is a prefix of what the arrived bytes decode to, and all of it when nothing is queued or waiting |
| ReceiveTheorems.FailureExplained | src/session/receiver.cpp:144-391 | a run fails only with an error of the kernel or with exactly the error at which the bytes handled stop decoding, and once they stop decoding that is its failure |
| ReceiveTheorems.OneOutstanding | src/session/receiver.cpp:193-249 | exactly one receive is armed or about to be handled unless cooling down; exactly one write is outstanding or about to be handled while frames wait |
| ReceiveTheorems.BuffersConserved | src/session/receiver.cpp:178-189 | every buffer always has exactly one owner, each reference count is the number of pending references, and the in-use counter counts the buffers with a positive count |
| ReceiveTheorems.RefcountsBounded | src/session/receiver.cpp:306-319 | a buffer with k references has at least 17k - 16 bytes, so counts are never negative and never reach 2^31 for 32-bit buffer sizes |
| ReceiveTheorems.ZeroCopy | src/session/receiver.cpp:295-336 | from any reachable state on, frames not yet written keep their place and every byte they denote, and what the partial frame had stays, byte for byte, the beginning of the frame with its number, assembled further or waiting, although the kernel overwrites its own buffers |
| ReceiveTheorems.KernelKeepsFrames | src/session/receiver.cpp:301-319 | no step of the kernel changes a byte of a waiting frame or of the partial frame |
| ReceiveSafety.HandleKeeps | src/session/receiver.cpp:120-250 | handling a completion reports exactly the error that the kernel's result and the stream so far call for, and otherwise keeps the run invariant |
| ReceiveCooldown.CooldownEnds | src/session/receiver.cpp:193-199 | cooling down with frames to write and a partial frame in fewer than half the buffers ends no later than the write that drains the queue |
| ReceiveCooldown.CooldownLasts | src/session/receiver.cpp:193-199 | in every other case it never ends and no byte ever arrives again |
| ReceiveCooldown.AsleepExactly | src/session/receiver.cpp:193-216 | nothing is outstanding or queued exactly when the receiver is cooling down with nothing to write |
| ReceiveCooldown.AsleepForever | src/session/receiver.cpp:204-217 | once nothing is outstanding or queued, the receiver never changes again |
| ReceiveProgress.ReceiverNeverAsleep | src/session/receiver.cpp:193-217 | with 2 * mtu + 16 buffers or more, in every reachable state something is outstanding or queued, and a cooldown always meets the condition under which `CooldownEnds` ends it |
| ReceiveProgress.OutOfBuffersBehind | src/session/receiver.cpp:213-216 | in such a pool, the kernel owning no buffer means that the stream holds a whole frame more than the writes handled or completed |
| ReceiveStall.ReceiverFallsAsleep | src/session/receiver.cpp:213-217 | for every smaller pool, an actual run on a well-formed stream that stalls the receive direction without any error |
| ReceiveStall.ReceiverStallsIff | src/session/receiver.cpp:193-217 | some run stalls exactly if the pool has fewer than 2 * mtu + 16 buffers |
| ReceiverDecoding.ParseRefines | src/session/receiver.cpp:252-355 | the resumable parser accepts the packets of the whole-stream decoder and stops at the same point with the same error; its saved progress is the undecoded rest of the stream |
| ReceiverInvariant.ParseKeeps | src/session/receiver.cpp:252-355 | a successful parse empties the input queue, keeps all bookkeeping, and moves buffers only between the receiver and the kernel |
| ReceiverInvariant.PopKeeps | src/session/receiver.cpp:178-191 | releasing a written frame never trips the reference count assertion, returns exactly the buffers no frame needs, and keeps all bookkeeping |
| ReceiverInvariant.RefcountBound | src/session/receiver.cpp:274-319 | references into one buffer are at least a header apart, which bounds their number |
| ReceiverSpec.StepConsumes | src/session/receiver.cpp:257-352 | every successful iteration of the parsing loop consumes at least one byte of input |
| Receivers.Receiver.KickParse | src/session/receiver.cpp:252-355 | the loop over the input queue computes the parse function, with the real checksum code on the frame's segments |
| Receivers.Receiver.TakeHeader | src/session/receiver.cpp:264-293 | the header branch's whole new state and its error, including a header split over several buffers |
| Receivers.Receiver.TakePayload | src/session/receiver.cpp:295-336 | the payload branch's whole new state and its error |
| Receivers.Receiver.RetireFront | src/session/receiver.cpp:341-351 | a used-up buffer leaves the queue and goes back to the kernel exactly when no frame needs it |
| Receivers.Receiver.ReleaseFront | src/session/receiver.cpp:178-189 | the loop that drops one reference per listed buffer, with its assertion |
| Receivers.Receiver.HandleWriteCqe | src/session/receiver.cpp:144-202 | the write handler's whole new state, its errors, and the operations it submits |
| Receivers.Receiver.HandleRecvCqe | src/session/receiver.cpp:204-250 | the receive handler's whole new state, its errors, and the operations it submits |
| Receivers.Receiver.KickWrite | src/session/receiver.cpp:357-391 | submits a write exactly when none is under way and a frame waits |
| Receivers.Receiver.ArmRecv | src/session/receiver.cpp:80-118 | submits one receive and changes nothing else |
| Receivers.Receiver.HandleCqe | src/session/receiver.cpp:120-134 | sends a completion to its handler and refuses other types |
| ReceiverSpec.AnswersWithoutBytes | src/session/receiver.cpp:120-249 | the exact answer to every completion that carries no stream bytes, also to those the kernel should not send |
| ReceiverSpec.AnswersToBadInput | src/session/receiver.cpp:252-300 | the exact answer to stream bytes in an unknown buffer, to more bytes than a buffer holds, and in an unknown state |
| Receivers.Receiver.CreateReceiver | src/session/receiver.cpp:17-43 | refuses an empty queue or zero-sized buffers; otherwise starts empty with every buffer the kernel's |
| FrameCodec.ChunkIndependence | src/session/receiver.cpp:252-355 | decoding any split of a stream chunk by chunk, keeping only the undecoded rest, gives the packets and the ending of the whole stream |
| FrameCodec.DecodeResumes | src/session/receiver.cpp:252-355 | stopping anywhere and resuming on the saved rest is decoding in one go, also for malformed streams |
| FrameCodec.DecodeEncodeAll | src/session/transmitter.cpp:170-181 | a stream of encoded packets decodes to those packets, whatever follows it |
| FrameCodec.DecodePrefix | src/session/receiver.cpp:252-355 | any initial part of any encoded packets decodes to an initial part of those before the first refused one, and breaks exactly if it holds that one's whole header |
| FrameCodec.DecodesIff | src/session/receiver.cpp:284-293 | encoded packets decode to the end exactly if each has 1 byte up to the MTU |
| FrameCodec.FramedDecodes | src/session/receiver.cpp:284-326 | a stream of acceptable frames, with any flags, decodes to their payloads |
| FrameCodec.DecodedFramed | src/session/receiver.cpp:284-326 | whatever the decoder accepts is a stream of acceptable frames: magic, size in range, matching checksum |
| FrameCodec.FrameOnWire | src/session/transmitter.cpp:176-180 | a frame byte by byte: magic, zero flags, size and checksum most significant byte first, then the packet |
| FrameCodec.WrongMagicRefused | src/session/receiver.cpp:284-288 | sixteen bytes that start with any other four bytes end the stream with `InvalidMagic` |
| FrameCodec.BurstRefused | src/session/receiver.cpp:324-326 | a frame whose payload is corrupted only within 32 consecutive bits is always refused |
| FrameCodec.OddErrorsRefused | src/session/receiver.cpp:324-326 | a frame with an odd number of flipped payload bits is always refused |
| FrameHeaders.EncodeDecodes | include/zportal/session/frame_header.inl:17-70 | magic, size and checksum survive the trip through the sixteen header bytes |
| FrameHeaders.GetPut | include/zportal/session/frame_header.inl:57-70 | reading a 32-bit field gives the number that was written |
| FrameHeaders.MagicValidIff | include/zportal/session/frame_header.inl:21-23 | a header's magic is valid exactly if its first four bytes are 5A 50 52 54 |
| FrameHeaders.FieldsAre | include/zportal/session/frame_header.inl:33-45 | size and checksum are the sums of bytes 8 to 11 and 12 to 15, most significant first, whatever the other bytes are |
| FrameHeaders.WordValueIs | include/zportal/session/frame_header.inl:57-63 | the number read from a word's four bytes is the word's value |
| FrameHeaders.FrameHeader.SetU32 | include/zportal/session/frame_header.inl:65-70 | writes four bytes in place, most significant first, and no others |
| FrameHeaders.FrameHeader.constructor | include/zportal/session/frame_header.inl:17-19 | a new header holds the magic and zeros |
| TransmitTheorems.SentIsEncoded | src/session/transmitter.cpp:125-309 | in every run, also a failed one, the bytes the socket took are a prefix of the encoded packets read, in order, and all of them when nothing is queued or waiting |
| TransmitTheorems.OffersTheRest | src/session/transmitter.cpp:211-233 | an outstanding send offers exactly the unsent rest of the oldest packet's frame, and everything before it was sent |
| TransmitTheorems.BuffersConserved | src/session/transmitter.cpp:287-296 | every buffer always has exactly one owner; it leaves the queue only after its frame's last byte was sent, and until then its packet is unchanged |
| TransmitTheorems.OneOutstanding | src/session/transmitter.cpp:161-308 | exactly one read is armed or about to be handled unless cooling down; exactly one send, of the queue's front, is outstanding or about to be handled while frames wait |
| TransmitTheorems.FailureExplained | src/session/transmitter.cpp:125-309 | the only errors a run reports are the kernel's |
| TransmitSafety.HandleKeeps | src/session/transmitter.cpp:101-168 | handling a completion reports exactly the error the kernel's result calls for, and otherwise keeps the run invariant |
| TransmitRuns.OfferedIsRest | src/session/transmitter.cpp:221-229 | the segment list denotes the frame's bytes from the first unsent one, wherever in header or payload that is |
| TransmitProgress.NeverAsleep | src/session/transmitter.cpp:134-141 | with two buffers or more, every reachable state has a read or a send outstanding or about to be handled, and a transmitter cooling down has a frame to send |
| TransmitProgress.CooldownEnds | src/session/transmitter.cpp:298-306 | a cooldown ends before as many sends are handled as bytes were unsent when it was observed |
| TransmitProgress.RearmsExactly | src/session/transmitter.cpp:298-306 | handling a send ends the cooldown exactly if at most half the buffers still wait, and then one read is armed |
| TransmitProgress.TransmitterStallsIff | src/session/transmitter.cpp:134-141 | some run stalls exactly if the pool has a single buffer |
| TransmitProgress.TransmitterFallsAsleep | src/session/transmitter.cpp:134-141 | with one buffer, a run of six steps that stalls the transmit direction without any error |
| Transmitters.Transmitter.KickSend | src/session/transmitter.cpp:183-253 | the whole new state and error of starting or continuing a send, including where it resumes |
| Transmitters.Transmitter.CreateFrameHeader | src/session/transmitter.cpp:170-181 | fills a header object with the frame's size and the checksum of its buffer, or reports a bad buffer or size |
| TransmitterSpec.HeaderOfFrame | src/session/transmitter.cpp:170-181 | the header created is the first sixteen bytes of the packet's frame, with the checksum's four bytes, most significant first, at 12 |
| Transmitters.Transmitter.HandleReadCqe | src/session/transmitter.cpp:125-168 | the read handler's whole new state, its errors, and the operations it submits |
| Transmitters.Transmitter.HandleSendCqe | src/session/transmitter.cpp:255-309 | the send handler's whole new state, its errors, and the operations it submits |
| Transmitters.Transmitter.ArmRead | src/session/transmitter.cpp:60-99 | submits one read and changes nothing else |
| Transmitters.Transmitter.HandleCqe | src/session/transmitter.cpp:101-115 | sends a completion to its handler and refuses other types |
| TransmitterSpec.AnswersWithErrors | src/session/transmitter.cpp:101-281 | the exact error for every completion that is refused, also for those the kernel should not send |
| Transmitters.Transmitter.CreateTransmitter | src/session/transmitter.cpp:18-34 | refuses an empty queue or a zero MTU; otherwise starts empty with every buffer the kernel's |
| BufferGroups.Pool.GetBuffer | src/iouring/buffer_group.cpp:32-49 | succeeds exactly for known buffers and sizes that fit, and then lies inside the buffer |
| BufferGroups.BuffersDisjoint | src/iouring/buffer_group.cpp:46-48 | different buffers never overlap |
| BufferGroups.BufferGroup.ReturnBuffer | src/iouring/buffer_group.cpp:51-69 | hands exactly one buffer to the kernel, or refuses an unknown one |
| BufferGroups.IoUring.CreateBufferGroup | src/iouring/iouring.cpp:110-196 | a new group owns its memory and hands every buffer to the kernel exactly once; group numbers wrap at 16 bits |
| Crc32c.Software | src/tools/crc.cpp:16-27 | the bitwise loop is the register update, for every start value |
| Crc32c.Hardware | src/tools/crc.cpp:30-64 | the instruction path, with alignment, 8-, 4- and 1-byte loops, is the same register update, for every data, alignment and start value |
| Crc32c.HardwareWords | src/tools/crc.cpp:37-52 | the 64-bit part leaves fewer than eight bytes, and the register of those it consumed |
| Crc32c.ShiftFeeds | src/tools/crc.cpp:30-64 | mixing in a whole word and shifting is feeding its bits one by one |
| Crc32c.UpdateConcat | src/tools/crc.cpp:80-92 | the register after two pieces is the register after their concatenation |
| Crc32c.OfSpan | src/tools/crc.cpp:68-78 | both paths give the checksum of the bytes |
| Crc32c.OfSpans | src/tools/crc.cpp:80-92 | any list of segments, empty ones included, has the checksum of its concatenation |
| Crc32c.OfIoVecs | src/tools/crc.cpp:94-102 | a scatter/gather list has the checksum of the memory it denotes |
| CrcDetection.ChecksumDetectsBurst | src/tools/crc.cpp:16-27 | payloads that differ only within 32 consecutive bits have different checksums |
| CrcDetection.ChecksumDetectsWindow | src/tools/crc.cpp:16-27 | replacing at most four consecutive bytes by others changes the checksum |
| CrcDetection.ChecksumDetectsOddWeight | src/tools/crc.cpp:16-27 | an odd number of flipped bits changes the checksum |
| CrcDetection.SameChecksumIff | src/tools/crc.cpp:16-27 | payloads of one length share their checksum exactly if their difference leaves an empty register empty |
| CrcDetection.ChecksumIff | src/tools/crc.cpp:68-78 | the checksum is the one word that, appended least significant byte first, leaves the residue B798B438: its value is fixed for every message |
| CrcDetection.KnownChecksums | src/tools/crc.cpp:68-92 | the checksums of nothing and of five zero bytes are 0 and 45727635 |
| CrcDetection.FiveBytesCanEscape | src/tools/crc.cpp:16-27 | four bytes is the limit: two five-byte windows with the same checksum |
| Cidrs.GetNetwork | src/net/address/cidr.cpp:53-112 | the 32-bit mask and the byte loops compute the network, or the invalid block |
| Cidrs.MaskInPlace | src/net/address/cidr.cpp:92-103 | the in-place loop clears every bit behind the prefix and no other |
| Cidrs.IsInNetwork | src/net/address/cidr.cpp:114-181 | the comparison loops decide agreement on the prefix, and false for other or mixed families |
| Cidrs.MaskedRounds | src/net/address/cidr.cpp:71-108 | masking is rounding the address down to a multiple of 2^(width - prefix) |
| Cidrs.NetworkRounds | src/net/address/cidr.cpp:53-112 | the network is the rounded address with the same family, port and prefix |
| Cidrs.NetworkIdempotent | src/net/address/cidr.cpp:53-112 | a network is its own network and has the block's members |
| Cidrs.ContainsIff | src/net/address/cidr.cpp:139-177 | membership holds exactly if both addresses have the same quotient by the block size |
| Cidrs.BlockIsInterval | src/net/address/cidr.cpp:139-177 | a block is the interval of 2^(width - prefix) addresses from its network on |
| Cidrs.MembershipIsEquivalence | src/net/address/cidr.cpp:114-181 | for a fixed prefix, membership is reflexive, symmetric and transitive |
| Cidrs.LongerPrefixNests | src/net/address/cidr.cpp:139-177 | members under a longer prefix are members under a shorter one |
| Cidrs.Make | src/net/address/cidr.cpp:11-23 | refuses exactly other families and prefixes that are too long |
| Socks5.SocketRecv | src/net/connection/socks5.cpp:10-36 | on success exactly the next bytes of the stream were consumed and stored, for any split of reads |
| Socks5.SocketSend | src/net/connection/socks5.cpp:38-64 | on success exactly the data was sent, for any split of writes; on failure a part of it |
| Socks5.RequestParses | src/net/connection/socks5.cpp:93-129 | a proxy reads a request back as exactly the target asked for, and nothing behind it |
| Socks5.FillRequest | src/net/connection/socks5.cpp:93-129 | fills the fixed buffer with the request, or refuses a family SOCKS5 cannot name |
| Socks5.ConsumeReply | src/net/connection/socks5.cpp:136-167 | consumes exactly one variable-length command reply, or reports the refusal it holds |
| Socks5.ReplyParses | src/net/connection/socks5.cpp:136-167 | a reply with any code, address and port is a success exactly if the code is 0, and then all of it is consumed and nothing behind it |
| Socks5.ReplyWaits | src/net/connection/socks5.cpp:136-167 | a successful reply is not recognised before its last byte |
| Socks5.AnswerParses | src/net/connection/socks5.cpp:74-167 | the same with the reply to the method offer in front, which must choose method 0 |
| Socks5.Socks5Connect | src/net/connection/socks5.cpp:66-170 | success means the offer and the request were sent and exactly the proxy's two replies consumed; a refusal is the one in the stream |
| Socks5.ChainParses | src/net/connection/connect.cpp:33-38 | what a chain sends reads back as its hops, in order |
| Socks5.ConnectTo | src/net/connection/connect.cpp:10-41 | success means every proxy was asked for the next hop, the last for the target, and each one's replies were consumed exactly; the first proxy, or without proxies the target, is the only peer dialed; every refusal is one a proxy sent or names a hop that cannot be asked for |

## Left out

- The endless loop of the session: its body is `TunnelSession.Dispatch`, and its runs are the finite runs of `SessionSystem`.
- Failures to get or submit a submission entry, waiting failures, failed allocations and the validity checks of moved-from objects: these end the session at once and are assumed not to happen.
- Recv without multishot support: a single-shot operation is a multishot one that completes once, so both are runs of the same machine.
- The monitor's output and a failure to read its statistics: a `TIMEOUT` completion changes neither half.
- A short write to the TUN device: its positive result ends the session as a failed write does, and the run's record counts the packet as not written.
- The kernel's buffer ring, page sizes and group registration: a group is its memory and the multiset of buffers handed over.
- `IOV_MAX`: a frame in more segments than one `writev` takes is a kernel error.
- Address parsing and printing, name resolution, listening sockets, TUN and netlink calls: the work is done by libraries.
- IPv6 flow labels and scope identifiers: `get_network` copies them unchanged.
- Move operations, file descriptor ownership, configuration, error printing and operation serialisation: one-branch facts.
- ReceiveCooldown.CooldownEnds: is conditional, because the program does not receive again in the other cases, as `CooldownLasts` shows; `ReceiverNeverAsleep` says which pools always meet the condition.
- Socks5.ConnectTo: resolving and connecting are done by libraries, so the sockets they yield are a parameter.
- Sockets that fail inside the handshake: errors of `recv` and `send` are reported without the error number.
