# CC3000 driver core, modelled in Dafny

This project models the host side of the driver for the TI CC3000 Wi-Fi
co-processor. It covers three parts.

- **The SPI link** (`cc3000_spi.c`). The link has seven states. The
  peer-ready interrupt handler and the reader worker thread share them with
  whichever caller is writing a frame. Writes are framed with a 5-byte header
  and an odd-length padding rule. Reads fetch a fixed header and then a body
  whose length depends on the packet type. A sentinel byte (0xDE) at the end
  of each buffer halts the driver when it is overwritten.
- **The asynchronous event record** (`async_handler.c`). This is the callback
  the host library invokes for unsolicited events. It updates a flat record
  and, on a TCP close notification, frees a socket-table slot.
- **The socket proxy** (`cc3000_ifc.c`):
  - the four-slot descriptor table;
  - the chunked send loop (64-byte pieces) and receive loop (32-byte pieces);
  - the readiness check, and `recvfrom` with its wait loop;
  - `sockaddr` packing and unpacking;
  - the arithmetic and table upkeep inside the natives `recv_into`,
    `recvfrom_into`, `send`, `select`, `socket`, `close`, `accept` and
    `set_info`.

Everything is pure functions over immutable datatypes. The bus, the OS and
TI's host library are not modelled. Whatever they answer is a parameter, or
an oracle sequence with one entry per call. A loop that would need more
answers than supplied yields `None`.

Modules:

| file | module | contents |
|---|---|---|
| basics.dfy | `Basics` | `byte`, `Option`, C integer conversions |
| spi_link.dfy | `SpiLink` | link states, handler table, atomic actions of the three actors, hand-off invariant |
| spi_frames.dfy | `SpiFrames` | padding, header, transfer lengths, buffers and sentinels, write and read paths |
| async_events.dfy | `AsyncEvents` | `cc3000AsyncData` and `CC3000AsyncCb` |
| socket_table.dfy | `SocketTable` | `sockets`, `cc3000_is_socket_valid`, `cc3000_handle_socket` |
| addresses.dfy | `Addresses` | `sockaddr` layout, `BLTSWAP32`, `OAL_MAKE_IP` / `OAL_IP_AT` |
| socket_proxy.dfy | `SocketProxy` | `cc3000_net_send`, `cc3000_net_recv`, `cc3000_net_available`, `cc3000_net_recvfrom` |
| natives.dfy | `Natives` | the natives' argument arithmetic, result mapping and table upkeep |

Some constants come from headers that are not part of this model. They take
the TI host driver's values:

- `SPI_HEADER_SIZE` = 5;
- `HCI_TYPE_DATA` = 2 and `HCI_TYPE_EVNT` = 4;
- HCI packet-type offset 0, and length offset 3 for both data and event
  frames;
- `STREAM_TO_UINT16` is little-endian;
- `sizeof(tNetappDhcpParams)` = 20 and `sizeof(netapp_pingreport_args_t)` = 20.

`RECV_TIMED_OUT` is a stand-in value (-57). The proofs use only the fact
that it is negative, except the concrete example `RecvIntoTimeoutExample`.

## Model

| member | source | states |
|---|---|---|
| SpiLink.CodeRoundTrip | csrc/drv/cc3000_spi.c:74-80 | the seven state codes are distinct and exactly 0..6 name a state |
| SpiLink.PeerReady | csrc/drv/cc3000_spi.c:217-234 | the handler only moves to a granted state (Initialized, ReadRequested, WritePermitted); it posts the read (write) semaphore exactly when it grants the link to the reader (writer); unrecognised states are left alone |
| SpiLink.PeerReadyTable | csrc/drv/cc3000_spi.c:222-232 | PowerUp→Initialized, Idle→ReadRequested with read post, WriteRequested→WritePermitted with write post, every other state unchanged without post |
| SpiLink.PeerReadyTwiceIsOnce | csrc/drv/cc3000_spi.c:217-234 | a second peer-ready signal before anyone acts changes nothing and posts nothing |
| SpiLink.OpenLink | csrc/drv/cc3000_spi.c:277 | the opened link is powering up with empty semaphores and satisfies the hand-off invariant |
| SpiLink.Interrupt | csrc/drv/cc3000_spi.c:221-233 | PowerUp becomes Initialized; Idle becomes ReadRequested and the read semaphore gains exactly one token; WriteRequested becomes WritePermitted and the write semaphore gains exactly one token; any other link is left as it is; the hand-off invariant is kept |
| SpiLink.WorkerWake | csrc/drv/cc3000_spi.c:245-250 | the worker blocks on an empty read semaphore; once woken it consumes one token and moves ReadRequested to ReadPermitted, leaving any other state untouched |
| SpiLink.StepPreservesInv | csrc/drv/cc3000_spi.c:217-258 | every atomic action preserves the invariant: at most one token per semaphore, held exactly while the link is granted to that semaphore's thread |
| SpiLink.RunPreservesInv | csrc/drv/cc3000_spi.c:217-258 | any run of actions from an invariant link ends in an invariant link |
| SpiLink.WokenThreadsFindTheirState | csrc/drv/cc3000_spi.c:245-250 | in every link reachable from the opened one, a woken worker finds ReadRequested and a woken writer finds WritePermitted |
| SpiLink.ReadCycle | csrc/drv/cc3000_spi.c:245-258 | from Idle, peer-ready then the worker's round returns to the same idle link |
| SpiLink.WriteCycle | csrc/drv/cc3000_spi.c:363-383 | from Idle, claim, peer grant and transfer return to the same idle link |
| SpiLink.StartupCycle | csrc/drv/cc3000_spi.c:306-324 | after power-up, the first peer-ready signal and the first write leave the link idle with no token |
| SpiFrames.PaddedLength | csrc/drv/cc3000_spi.c:330-332 | the announced length is odd, equals the input when it is odd, and is the input plus one when it is even |
| SpiFrames.WriteHeader | csrc/drv/cc3000_spi.c:338-342 | header is [OP_WRITE, HI, LO, BUSY, BUSY] and HI*256+LO gives the length back for lengths below 65536 |
| SpiFrames.TransferLength | csrc/drv/cc3000_spi.c:344 | the bytes clocked out are the padded length plus the 5-byte header, which is even, as a 16-bit value |
| SpiFrames.SpiOpen | csrc/drv/cc3000_spi.c:270-277 | both buffers zero except the sentinel 0xDE at their last index, async record cleared, link powering up |
| SpiFrames.PrepareWrite | csrc/drv/cc3000_spi.c:330-349 | a write halts exactly when the transmit sentinel is overwritten; otherwise the header is in place, the payload untouched and the transfer length padded length plus header |
| SpiFrames.WriteProceed | csrc/drv/cc3000_spi.c:352-370 | an Initialized link takes the first write (to Idle); an Idle link is claimed (to WriteRequested); in any other state the writer waits |
| SpiFrames.WriteTransfer | csrc/drv/cc3000_spi.c:375-382 | the claimed writer blocks until the write semaphore is posted, then sends the first `len` bytes in one transfer and releases the link to Idle |
| SpiFrames.WriteHaltsOnCorruptSentinel | csrc/drv/cc3000_spi.c:346-349 | a write that finds the transmit sentinel changed halts |
| SpiFrames.FirstWriteSendsWholeFrame | csrc/drv/cc3000_spi.c:306-324 | the first write sends 4 bytes and then the remaining length-4, together exactly the framed frame, and ends Idle |
| SpiFrames.HandshakeWriteSendsWholeFrame | csrc/drv/cc3000_spi.c:359-383 | a later write claims the idle link, is granted by the peer and sends the whole framed frame in one transfer, ending in the link it started from |
| SpiFrames.WriteWaitsForPowerUp | csrc/drv/cc3000_spi.c:352-360 | a write while powering up waits and becomes the first write once the peer signals |
| SpiFrames.ReadSync | csrc/drv/cc3000_spi.c:395-402 | a read clocks out the 3-byte read command first, deposits the peer's bytes in the exchanged range and touches nothing else |
| SpiFrames.BodyLength | csrc/drv/cc3000_spi.c:421-451 | data frames: the 16-bit length, plus one exactly when needed to make header plus body odd; event frames: the length byte minus one, plus one exactly when needed to make header plus body even; other types read nothing |
| SpiFrames.ShortEventHasNoBody | csrc/drv/cc3000_spi.c:435-449 | an event whose length byte is 0 or 1 has no second read |
| SpiFrames.ReadFrame | csrc/drv/cc3000_spi.c:404-452 | the header read and the body read leave the peer's header and body in the receive buffer and touch nothing beyond them |
| SpiFrames.ReadFrameFits | csrc/drv/cc3000_spi.c:404-452 | a frame that fits before the sentinel lands in the receive buffer byte for byte, and the sentinel byte is untouched |
| SpiFrames.ReaderStep | csrc/drv/cc3000_spi.c:245-258 | a round blocks on an empty semaphore, skips any state but ReadRequested, halts on an overwritten receive sentinel, and otherwise dispatches the buffer from offset 5 and ends Idle |
| SpiFrames.FittingFrameIsDispatched | csrc/drv/cc3000_spi.c:479-483 | a frame that fits before the sentinel is dispatched and the callback sees the HCI header and body exactly as sent |
| SpiFrames.ReaderStepDispatches | csrc/drv/cc3000_spi.c:479-483 | with an intact receive sentinel and a frame that fits, the round dispatches the filled buffer from offset 5 |
| SpiFrames.CorruptRxSentinelHalts | csrc/drv/cc3000_spi.c:479-482 | a receive sentinel already overwritten halts the round before dispatch |
| AsyncEvents.Cleared | csrc/drv/cc3000_spi.c:272 | the zeroed record: every flag false, payload bytes zero, payloads of their struct sizes |
| AsyncEvents.OnEvent | csrc/drv/async_handler.c:66-158 | the callback keeps payload sizes, only close-wait touches the table (and then not the record), and payloads change only on a length-checked DHCP or ping event |
| AsyncEvents.ConnectSetsOnlyConnected | csrc/drv/async_handler.c:92-96 | connect sets `connected` and nothing else |
| AsyncEvents.DisconnectWithdrawsLease | csrc/drv/async_handler.c:109-115 | disconnect clears `connected`, sets `disconnected`, marks the lease absent, keeps its bytes and every other field |
| AsyncEvents.DhcpStoresOnlyValidLease | csrc/drv/async_handler.c:117-139 | the lease is stored and present exactly when length is params+1 and the status byte is 0; otherwise absent with old bytes; nothing else changes |
| AsyncEvents.PingStoresOnlyExactReport | csrc/drv/async_handler.c:98-107 | a report of exactly the report size is stored; any other length leaves the record entirely unchanged |
| AsyncEvents.CloseWaitFreesSlot | csrc/drv/async_handler.c:141-147 | close-wait frees the slot of descriptor `data[0]`, which is then no longer valid; the record is unchanged |
| AsyncEvents.FlagEventsSetOneFlag | csrc/drv/async_handler.c:149-152 | shutdown-ready sets only `shutdownOk`; simple-config-done only `smartConfigFinished` |
| AsyncEvents.IgnoredEventsChangeNothing | csrc/drv/async_handler.c:71-90 | keepalive, unsolicited init, transmit complete and unrecognised events change neither record nor table |
| AsyncEvents.DeliverTwiceIsOnce | csrc/drv/async_handler.c:66-158 | delivering an event twice leaves the record as delivering it once; the table too when its descriptors are distinct |
| SocketTable.Initial | csrc/drv/cc3000_ifc.c:26-27 | the table starts as four free (-1) slots |
| SocketTable.FindFrom | csrc/drv/cc3000_ifc.c:41-50 | the front-to-back search finds the first slot holding the value, or reports that none does |
| SocketTable.IsSocketValid | csrc/drv/cc3000_ifc.c:32-39 | valid exactly when some slot holds the descriptor; asking about -1 asks whether a slot is free |
| SocketTable.HandleSocket | csrc/drv/cc3000_ifc.c:41-50 | only the first slot holding the value is replaced and its index returned; with no match -1 and the table unchanged |
| SocketTable.AssignKeepsDistinct | csrc/drv/cc3000_ifc.c:633 | installing a new descriptor keeps descriptors distinct, places it when a slot is free and otherwise changes nothing |
| SocketTable.ReleaseKeepsDistinct | csrc/drv/cc3000_ifc.c:783 | freeing a descriptor keeps descriptors distinct, makes it invalid, and keeps every other descriptor |
| SocketTable.ReleaseThenAssignReuses | csrc/drv/cc3000_ifc.c:41-50 | the next install lands in the freed slot or an earlier free one |
| Addresses.PrepareAddr | csrc/drv/cc3000_ifc.c:19-23 | family AF_INET, port in `sa_data[0..1]`, IP in `sa_data[2..5]`, remaining bytes as before |
| Addresses.ReadAddr | csrc/drv/cc3000_ifc.c:151-152 | the address read back is a 32-bit IP and a 16-bit port |
| Addresses.AddressRoundTrip | csrc/drv/cc3000_ifc.c:19-23 | reading a prepared `sockaddr` back gives the address |
| Addresses.ByteSwapInvolution | csrc/drv/cc3000_ifc.c:739 | swapping the bytes twice gives the value back |
| Addresses.MakeIp | csrc/drv/cc3000_ifc.c:827 | a dotted address fits in 32 bits |
| Addresses.MakeIpOctets | csrc/drv/cc3000_ifc.c:833 | the octets of a built address are the ones it was built from |
| SocketProxy.FullChunksShape | csrc/drv/cc3000_ifc.c:56-58 | reference pieces of a loop in which each piece is taken whole: each is between 1 and the piece size, and they add up to the length |
| SocketProxy.FullChunksCount | csrc/drv/cc3000_ifc.c:56-58 | there are ceil(len / size) such pieces |
| SocketProxy.SendLoop | csrc/drv/cc3000_ifc.c:52-68 | the loop runs out of answers only while bytes remain; it sends at most one piece per answer and never lowers the count |
| SocketProxy.SendLoopSpec | csrc/drv/cc3000_ifc.c:52-68 | pieces of 1..64 bytes, each exactly min(64, bytes still unsent) so none reaches past `buf + len`; the result is the count before plus the sum of the accepted pieces; every reply but the last was positive; stopping short means the last piece was refused |
| SocketProxy.SendLoopAsks | csrc/drv/cc3000_ifc.c:57-60 | the piece handed to `send` at each call is min(64, len minus the bytes accepted before it) |
| SocketProxy.SendWithinLength | csrc/drv/cc3000_ifc.c:56-64 | when no reply exceeds its piece, the result lies in [0, len] |
| SocketProxy.SendAllAccepted | csrc/drv/cc3000_ifc.c:56-64 | when each piece is taken whole, the loop asks for exactly the full pieces and returns len |
| SocketProxy.SendTwoHundred | csrc/drv/cc3000_ifc.c:56-64 | 200 bytes go out as 64, 64, 64, 8; a refused second piece returns 64 |
| SocketProxy.RecvLoop | csrc/drv/cc3000_ifc.c:88-101 | one `recv` per answer at most; the count never drops; the loop completes exactly when len is reached; only a failure touches the table, and then it frees the socket's slot |
| SocketProxy.RecvLoopSpec | csrc/drv/cc3000_ifc.c:88-101 | pieces of 1..32 bytes, each exactly min(32, bytes still unread) so none reaches past `buf + len`; the count is the sum of the non-negative replies; an incomplete run ended on its first negative reply, and it timed out exactly when that reply was the timeout code |
| SocketProxy.RecvLoopAsks | csrc/drv/cc3000_ifc.c:88-91 | the piece asked of `recv` at each call is min(32, len minus the bytes read before it) |
| SocketProxy.RecvZeroDoesNotAdvance | csrc/drv/cc3000_ifc.c:88-101 | a zero-byte reply changes nothing but the number of calls |
| SocketProxy.RecvAllDelivered | csrc/drv/cc3000_ifc.c:88-101 | when every reply fills its piece, len bytes are read in ceil(len / 32) calls and the table is untouched |
| SocketProxy.NetRecv | csrc/drv/cc3000_ifc.c:83-104 | the result is never negative; after a timeout it is the timeout code's magnitude, otherwise the bytes read |
| SocketProxy.NetRecvIntended | csrc/drv/cc3000_ifc.c:94-96 | corrected: the result is the timeout code exactly after a timeout, otherwise the bytes read |
| SocketProxy.NetAvailable | csrc/drv/cc3000_ifc.c:106-126 | 1 exactly when `select` reports the socket ready; -1 exactly when not ready and the descriptor is in no slot; otherwise 0 |
| SocketProxy.AwaitReadable | csrc/drv/cc3000_ifc.c:135-138 | the wait loop stops at the first poll with a non-zero readiness result and all earlier polls were 0 |
| SocketProxy.FreedSlotEndsWait | csrc/drv/cc3000_ifc.c:135-138 | once a close notification has freed the socket's slot, the wait ends at that poll at the latest |
| SocketProxy.NetRecvFrom | csrc/drv/cc3000_ifc.c:139-153 | negative exactly on the timeout code; another error frees the slot and reads as 0; the sender address is read from the `sockaddr` |
| Natives.EffectiveLength | csrc/drv/cc3000_ifc.c:505-507 | the asked length is the smaller of the size and the room behind the offset |
| Natives.WindowInsideBuffer | csrc/drv/cc3000_ifc.c:469-471 | with an offset inside the buffer and a non-negative size, the asked window lies inside the buffer |
| Natives.MapRecvResult | csrc/drv/cc3000_ifc.c:476-480 | the timeout code raises a timeout, any other negative an I/O error, a count is returned |
| Natives.RecvInto | csrc/drv/cc3000_ifc.c:466-484 | `recv_into` decides exactly when the receive loop does, and as written always returns a count: the timeout code's magnitude after a timeout, otherwise the bytes read; the table is the one the loop leaves |
| Natives.RecvIntoNeverRaises | csrc/drv/cc3000_ifc.c:476-480 | as written, `recv_into` never raises: a timeout returns the code's magnitude as a count, a failure the bytes read |
| Natives.RecvIntoTimeoutExample | csrc/drv/cc3000_ifc.c:94-96 | 10 bytes asked, first `recv` times out: the native returns 57 while the corrected helper raises a timeout |
| Natives.RecvIntoIntended | csrc/drv/cc3000_ifc.c:466-484 | over the corrected helper, `recv_into` decides exactly when the receive loop does, raises a timeout after a timed-out loop and otherwise returns the bytes read |
| Natives.RecvIntoIntendedReportsTimeout | csrc/drv/cc3000_ifc.c:476-480 | over the corrected helper a timeout is raised exactly when a `recv` timed out, and counts are returned otherwise |
| Natives.RecvFromInto | csrc/drv/cc3000_ifc.c:511-525 | a returned pair carries the address read from the `sockaddr`; the table is the one `recvfrom` leaves |
| Natives.RecvFromIntoNeverIoError | csrc/drv/cc3000_ifc.c:514-518 | `recvfrom_into` raises a timeout exactly on the timeout code and never an I/O error; a failed read returns 0 and frees the slot |
| Natives.Send | csrc/drv/cc3000_ifc.c:411-418 | `send` decides exactly when the send loop does and returns the loop's count, never an I/O error |
| Natives.SendNeverRaises | csrc/drv/cc3000_ifc.c:412-417 | `send` never raises and returns the sum of accepted pieces |
| Natives.SplitTimeout | csrc/drv/cc3000_ifc.c:552-556 | a negative timeout is a type error; otherwise seconds*1000 + usec/1000 gives the milliseconds back, with usec a whole number of milliseconds below one second |
| Natives.MaxIn | csrc/drv/cc3000_ifc.c:565-572 | a non-integer element fails; otherwise the largest descriptor of the list, or the start value |
| Natives.MaxFd | csrc/drv/cc3000_ifc.c:560-572 | a non-integer element in any list is a type error; otherwise the largest descriptor over all three lists, starting from -1 |
| Natives.Reported | csrc/drv/cc3000_ifc.c:586-601 | the reported descriptors are exactly those below the bound still in the set, in increasing order |
| Natives.SelectResult | csrc/drv/cc3000_ifc.c:576-601 | a negative `select` result is an I/O error; otherwise one list per set |
| Natives.HighestDescriptorNeverReported | csrc/drv/cc3000_ifc.c:589 | the largest descriptor passed in is never reported ready, as written |
| Natives.Socket | csrc/drv/cc3000_ifc.c:619-636 | a bad type raises a type error, then a bad family unsupported, then a negative descriptor an I/O error; on success the descriptor is installed in the first free slot (UDP for datagram, TCP otherwise) |
| Natives.SocketRegisters | csrc/drv/cc3000_ifc.c:633 | the created descriptor becomes valid exactly when a slot was free; a full table is left unchanged |
| Natives.Close | csrc/drv/cc3000_ifc.c:780-785 | close returns the descriptor and frees its first slot whatever the library answered |
| Natives.CloseThenSocket | csrc/drv/cc3000_ifc.c:780-783 | after close the descriptor is invalid, and a following `socket` always finds a slot |
| Natives.AcceptAddress | csrc/drv/cc3000_ifc.c:737-739 | accept's peer port is read as written; its IP is the byte-swap of the IP read back |
| Natives.SetInfo | csrc/drv/cc3000_ifc.c:826-843 | non-zero mask, gateway and DNS are kept; the stored mask, gateway and DNS are never zero; the IP is kept; the info counts as set exactly when the IP is non-zero |
| Natives.SetInfoDnsDefault | csrc/drv/cc3000_ifc.c:826-828 | a zero DNS becomes 8.8.8.8 octet by octet, whatever the other fields are |
| Natives.SetInfoMaskDefault | csrc/drv/cc3000_ifc.c:829-831 | a zero mask becomes 255.255.255.255 octet by octet, whatever the other fields are |
| Natives.SetInfoGatewayDefault | csrc/drv/cc3000_ifc.c:832-834 | a zero gateway becomes the IP's first three octets and 1, octet by octet, whatever the other fields are |

## Left out

- Hardware and OS: SPI peripheral calls, pins, chip select, sleeps, locks and thread creation. The peer-ready interrupt and the writer's request are abstract actions. Each actor's critical section is one atomic step.
- TI host library calls (`send`, `recv`, `recvfrom`, `select`, `socket`, `closesocket`, `accept`, `wlan_*`, `netapp_*`, `gethostbyname`). They are foreign code; their results are parameters or oracle sequences.
- The scripting-runtime marshalling in the natives (argument parsing, tuple and object construction, the global interpreter lock, the `nargs` checks).
- `cc3000_scan`: it decodes a library struct whose layout is not part of this model.
- The polling loops of `cc3000_accept` and `cc3000_wifi_link`. They are timing-driven, and accept's loop has no bound. Only accept's address conversion is modelled.
- `select`'s `None` timeout branch. It compares the still-uninitialised `timeout` variable, so its outcome is undefined. Only the integer-timeout branch is modelled, and the result loop is modelled as written, including its bound.
- `cc3000_sendall`. It is not one of the modelled natives. Its loop does not end when `cc3000_net_send` returns 0.
- `cc3000_sendto`, `bind`, `listen`, `connect`, `sockopt`, `resolve`, `info`, `init`, `done` and `wifi_unlink`. Apart from the address packing they only forward calls.
- SpiFrames.Patch and SpiFrames.Slice: bytes the C code would move past the end of a buffer are not modelled, and transfers are clipped at the buffer's end.
- SocketProxy.SendLoop and SocketProxy.RecvLoop: the running counts are unbounded integers. The 32-bit overflow of `int` counters beyond 2^31 bytes is not modelled. Lengths are taken as `uint32_t` via `ToU32`, as the natives convert them.
- SocketProxy.AwaitReadable: `cc3000_net_available` is modelled after its `select` call. Its 1 ms sleep and the `timeout * 1000` microsecond argument are not modelled.
- AsyncEvents.OnEvent: event codes are a datatype of kinds rather than the `HCI_EVNT_*` numbers, whose header is not part of this model. The close-notification descriptor is `data[0]` read as an unsigned byte.
- Addresses.PrepareAddr: the memory image of `memcpy` is taken to be little-endian, as on the driver's ARM targets. The round trips do not depend on that choice.
- The contents of `cc3000_api.h`, `cc3000_spi.h`, `fix_defines.h` and `debug.h`. They supply only field layouts, prototypes and macros.

## Findings

| source | as written | input that shows it | evidently intended | confidence | as-written member | corrected member |
|---|---|---|---|---|---|---|
| csrc/drv/cc3000_ifc.c:94-96 | on `RECV_TIMED_OUT`, `cc3000_net_recv` sets its count to `-rb` and returns it. That is a positive number, so `recv_into`'s timeout branch at :476-478 can never fire. The native returns the code's magnitude as a byte count and drops the bytes read before the timeout | `recv_into` asking 10 bytes, with the first `recv` returning `RECV_TIMED_OUT` | hand the timeout code back, so that `recv_into` raises a timeout | not executed | Natives.RecvIntoTimeoutExample | Natives.RecvIntoIntendedReportsTimeout |
