# Verification of the simple Winsock wrapper

A model of the wrapper's packet buffer, its transfer of packets and raw buffers over sockets, the
life cycle of its sockets and the printing of addresses, with proofs of what they promise.

- `Bytes.dfy`: bytes, little-endian integers, and calls that return or throw.
- `PacketSpec.dfy`: each packet operation as a closed form on packet values, and the laws of those
  forms: invariants over whole runs, the capacity law, first in first out, patching in place.
- `Typed.dfy`: values written with `<<` and read with `>>`: round trips, a packet as a queue of
  values, packets nested in packets.
- `Packet.dfy`: the class, which updates its fields in place and rewrites its header by re-entering
  its own writer, proved equal to the closed forms.
- `Network.dfy`: the operating system as an oracle that answers each native call as a schedule says.
- `Streams.dfy`: the loops of `send_all` and `receive_all`, alone and at the two ends of a
  connection.
- `Framing.dfy`: sending and receiving packets over TCP, framing, datagrams, and the path from
  values to values.
- `Handles.dfy`: the life cycle of sockets over every run, and who owns which handle.
- `Sockets.dfy`: the class that does all of it, proved against `Handles`, `Framing` and `Streams`.
- `Addresses.dfy`: `is_numeric` and `to_string`.

Conventions. A failed `enforce`, or any other C++ exception, is the outcome `Threw`, and the state it
leaves is part of every specification. A native call answers -1, 0, or any number of bytes up to what
was asked, with an arbitrary error code for `WSAGetLastError`, stale or not; theorems hold for all
such schedules. A schedule that is used up answers "would block" for ever, so a loop that has not
returned by its end never returns; the loop methods require a schedule on which they return, and
`Streams.LoopReturns` and `Framing.SendReturns` say which schedules those are. A packet is `Coherent` in every
state its operations can leave, thrown or not (`PacketSpec.CaughtRunStaysCoherent`), and `Readable` when
a read would stay in bounds. Integers are
little-endian and two's complement, as on Windows. Lengths of buffers are unbounded integers: no
object is large enough for `write_pos_ + size` to wrap. `memcpy` of no bytes at the end of the buffer
is taken to do nothing. A string is read by passing a pointer to characters that no zero byte follows
to a constructor that looks for one (sws/Packet.cpp:133); when the characters hold none, the search
runs past their buffer, and the model takes the result to be all the characters.

Where the code and its documentation or intent part, the model follows the code:

- The capacity constant is 65536, but a buffer of that size cannot have its header rewritten, so the
  usable limit is 65535 (`PacketSpec.CapacityLaw`). The throw leaves a full buffer with the write
  cursor at 0.
- `resize` does not look at the read cursor. It can leave that cursor past the end, from where a
  read is out of bounds (`PacketSpec.ResizeCanStrandReader`); `PacketSpec.WholeRunValidity` says that
  nothing else breaks a packet.
- A string that holds a zero byte is written and consumed in full but reads as what comes before that
  byte (`Typed.ZeroByteCutsString`), and an empty string can be written but not read back. These two
  are all that does not survive (`Typed.RoundTrip`, `Typed.KeptAllIntact`); what the bytes of a packet
  stand for, before the cut, is `Typed.Take`.
- A write that throws is not undone: a string can leave its length behind, over another field if the
  write cursor was sought back, and a buffer that fills up stays jammed;
  `Typed.ThrowingPutIsAtomicExactly` says for every coherent packet when nothing is left behind, and
  `Typed.ThrowingGetIsAtomicExactly` says the same of reads.
- `send` is documented to return `done` on success. It also returns `done` when the first native call
  fails, and when a later one falls short while the last error code happens to be harmless
  (`Framing.SendSoundness`, `Framing.DoneMayMeanNothingSent`).
- The result of `receive` is the state of the last error code and does not say whether a packet is
  complete (`Framing.ReceiveStep`, `Framing.DoneMayMeanNoPacket`). A header or a body that arrives in
  parts is not put together (`Framing.SplitBodyIsLost`), and that is the only thing that breaks
  framing (`Framing.FramingStaysInStep`). A length above 65533 makes it throw, and every receive
  after it (`Framing.StuckForever`).
- Printing an address can be ambiguous (`Addresses.PrintingIsAmbiguousOtherwise`); `Addresses.PrintingLaw`
  says exactly when.

## Model

| member | source | states |
|---|---|---|
| Bytes.LeThenFromLe | sws/Packet.cpp:545-549 | an integer survives being stored in and loaded from its bytes |
| Bytes.LeBytes | include/sws/Packet.h:434-444 | the memory images of 1, 2, 4 and 8 bytes, byte by byte, low byte first |
| Network.StateTellsError | include/sws/SocketError.h:119-143 | the state derived from an error is done, in progress or closed exactly for the listed codes |
| PacketSpec.ResizeExactly | sws/Packet.cpp:551-576 | when a resize of any packet returns, the clamped size, which bytes it keeps and zeroes, and where the write cursor is after a throw; nothing else changes |
| PacketSpec.ResizeCanStrandReader | sws/Packet.cpp:551-556 | a concrete valid packet whose read cursor a returning resize leaves past the end |
| PacketSpec.WholeRunValidity | sws/Packet.cpp:7-18 | over every run of returning writes, reads, seeks, clears and resizes, size, header and both cursors stay right after every call if and only if no resize cuts below the read cursor |
| PacketSpec.CaughtRunStaysCoherent | sws/Packet.cpp:510-516 | however many calls throw and are caught, a packet that is not full keeps a right header and a write cursor inside it, and clear makes any such packet valid again |
| PacketSpec.CapacityLaw | sws/Packet.cpp:208-242 | on every coherent packet that is not full, a write returns its size if and only if it ends at 65535 or before; past 65536 a whole write returns 0 and changes nothing; everything else throws, with the buffer filled to 65536 and the write cursor at 0, so no normal return is a partial write |
| PacketSpec.WriteLaysBytes | sws/Packet.cpp:208-242 | a successful write lays its bytes at the old cursor and changes nothing else but the header, which is right afterwards |
| PacketSpec.LaysTwice | sws/Packet.cpp:208-242 | two writes in a row, wherever they lie, are one write of both |
| PacketSpec.WriteAtZero | sws/Packet.cpp:208-242 | a write at position 0 lays its bytes over the header too and does not rewrite it |
| PacketSpec.ReadSeekLands | sws/Packet.cpp:614-649 | for a valid packet, the byte each kind of seek moves the read cursor to, that it returns exactly when that lies in the payload, and that nothing else changes |
| PacketSpec.WriteSeekLands | sws/Packet.cpp:614-649 | the same for the write cursor |
| PacketSpec.SeekThereAndBack | sws/Packet.cpp:50-70 | a relative seek that returns keeps the packet valid and is undone by the opposite one |
| PacketSpec.SeekBothLands | sws/Packet.cpp:614-649 | the bytes a seek of both cursors moves them to, that it returns exactly when both lie in the payload, and that it throws with the read cursor moved when only the write cursor cannot |
| PacketSpec.TransferStep | sws/Packet.cpp:87-104 | with the write cursor at the end, a write never moves the read cursor, a read changes nothing but the read cursor, each keeps the queue, and a whole read that cannot deliver all delivers and changes nothing |
| PacketSpec.FirstInFirstOut | sws/Packet.cpp:87-104 | over any interleaving of appending writes and reads, the bytes pending and written equal the bytes read followed by the bytes pending at the end |
| PacketSpec.InPlacePatch | sws/Packet.cpp:50-85 | seeking back, writing over a field and seeking to the end keeps size, header, read cursor and every byte outside the field |
| Typed.PutLays | sws/Packet.cpp:249-259 | wherever the write cursor is, a value, string or not, is written if and only if it is storable and ends at 65535 or before, and then its image lies at the old cursor with every other payload byte unchanged |
| Typed.PutAllLays | sws/Packet.cpp:333-499 | the same for a list of values, whose images lie there one after the other |
| Typed.PutReadsBack | sws/Packet.cpp:50-85 | a value written anywhere, over a field too, reads back from where it was written, a string as far as its first zero byte; an empty string throws; the value itself comes back if and only if it is no empty string and holds no zero byte |
| Typed.PutReadsAsUnsigned | include/sws/Packet.h:434-444 | a boolean written anywhere is 1 or 0 when read as an unsigned byte, and a signed integer is its residue modulo the power of 256 of its width when read as unsigned |
| Typed.PutLaysBits | sws/Packet.cpp:249-259 | a floating-point value lies in the packet as its bit pattern, and a string as its length in two bytes, low byte first, and then all its characters |
| Typed.PutExactly | sws/Packet.cpp:249-259 | with the write cursor at the end, a value is written if and only if it is storable and fits, and the packet is then the old one with the image appended |
| Typed.StringThrowLeavesPrefix | sws/Packet.cpp:249-259 | on any coherent packet with room, a string whose length fits but whose characters do not throws and leaves its length at the old write cursor, over what was there |
| Typed.ThrowingPutIsAtomicExactly | sws/Packet.cpp:249-259 | on every coherent packet, wherever its cursors are, a throwing write leaves it as it was if and only if it is full already, or a fixed-width value would end past 65536, or a string is too long for any packet, or the write cursor is at 65535 and the string is not one character long |
| Typed.ThrowingGetIsAtomicExactly | sws/Packet.cpp:333-419 | a throwing read leaves the packet as it was if and only if the fixed-width value, or the length of the string, is not there in full, and otherwise moves past just that |
| Typed.PutAllExactly | sws/Packet.cpp:333-499 | with the write cursor at the end, a list of values is written if and only if all of it is storable and fits, and is then appended |
| Typed.GetExactly | sws/Packet.cpp:111-135 | reading at the image of a value moves past it and yields the value, a string cut at its first zero byte; for an empty string it throws after the length; it yields the value itself if and only if that is no empty string and holds no zero byte |
| Typed.ReadStringExactly | sws/Packet.cpp:111-135 | on any packet whose reader is in bounds, by its pending bytes: when reading a string reports nothing, throws or keeps characters, which ones, and how far the cursor goes |
| Typed.GetAllExactly | sws/Packet.cpp:333-419 | reading a list of values back succeeds if and only if no string in it is empty, returns it with every string cut at its first zero byte, and so returns the list itself if and only if also no string holds one |
| Typed.GetIsCanonical | sws/Packet.cpp:333-419 | the bytes a read consumes are exactly the image of a value of the type asked for, and the read returns that value, a string cut at its first zero byte |
| Typed.GetAllIsCanonical | sws/Packet.cpp:333-419 | the bytes that reads consume from any packet are exactly the encoding of a list of values of the types asked for, and the reads return that list with the strings cut |
| Typed.RoundTrip | include/sws/Packet.h:422-444 | writing any list of values to a cleared packet succeeds if and only if every string is at most 32767 bytes long and 2 plus the encoded size is at most 65535; reading the same types then succeeds and reaches the end if and only if no string is empty, and returns the list, every string cut at its first zero byte: the list itself if and only if none holds one |
| Typed.UpToZero | sws/Packet.cpp:133 | the cut of a string is the prefix of it without a zero byte that ends at its end or before a zero byte |
| Typed.KeptAllIntact | sws/Packet.cpp:133 | cutting the strings of a list changes nothing if and only if none holds a zero byte |
| Typed.ZeroByteCutsString | sws/Packet.cpp:111-135 | a concrete string with a zero byte in the middle that is written in full, consumed in full and read as its first byte |
| Typed.PacketRefinesQueue | sws/Packet.cpp:333-499 | any interleaving of typed puts and gets behaves on a packet as on a queue of values whose gets cut strings at the first zero byte, if and only if everything ever written fits, no string is too long and no empty string is read; it reads exactly what the queue gives if and only if no string read holds a zero byte |
| Typed.PutPacketExactly | sws/Packet.cpp:323-331 | appending a packet appends its payload, if and only if it fits |
| Typed.PutPacketLays | sws/Packet.cpp:323-331 | wherever the write cursor is, appending a packet lays its payload there if and only if it ends at 65535 or before; an empty packet changes nothing and a full one takes no other |
| Typed.NestedPacketIsFlat | sws/Packet.cpp:501-508 | appending a packet built from values is the same as writing the values |
| Typed.NestingIsFlattening | sws/Packet.cpp:501-508 | packets nested to any depth make the packet that holds the same values written flat, and building them succeeds exactly when that does |
| Typed.PatchKeepsOtherFields | sws/Packet.cpp:50-85 | a value decoded from bytes outside a patch is decoded the same after the patch |
| PacketBuffer.Packet.constructor | sws/Packet.cpp:7-11 | a new packet is valid and empty |
| PacketBuffer.Packet.SeekImpl | sws/Packet.cpp:614-649 | the three seek modes and their checks are one rule, and the byte each mode lands on: `value` after the header, `value` from the cursor, `value` before the end |
| PacketBuffer.Packet.Seek | sws/Packet.cpp:50-70 | one cursor or both, with the state a throw leaves, as ReadSeekLands, WriteSeekLands and SeekBothLands say |
| PacketBuffer.Packet.ReadData | sws/Packet.cpp:87-104 | the bytes delivered and the new read cursor |
| PacketBuffer.Packet.WriteData | sws/Packet.cpp:208-242 | the re-entrant writer terminates and equals the flat form, also when it throws |
| PacketBuffer.Packet.UpdateSize | sws/Packet.cpp:568-576 | rewriting the header through the writer restores the write cursor and changes only the first two bytes |
| PacketBuffer.Packet.PutLength | sws/Packet.cpp:459-463 | the 16-bit overload used on the header |
| PacketBuffer.Packet.WriteEnforced | include/sws/Packet.h:440-444 | all the bytes or an exception |
| PacketBuffer.Packet.Resize | sws/Packet.cpp:551-556 | clamping, the new contents and the rewritten header |
| PacketBuffer.Packet.Clear | sws/Packet.cpp:510-516 | clear never fails, whatever state it starts from: two zero bytes, both cursors behind them, send and receive positions kept |
| PacketBuffer.Packet.WriteString | sws/Packet.cpp:249-259 | length, then characters even if the length was refused, then the check of both |
| PacketBuffer.Packet.ReadString | sws/Packet.cpp:111-135 | nothing, the characters before the first zero byte with all characters consumed, or a throw on a negative length |
| PacketBuffer.Packet.Put | sws/Packet.cpp:421-499 | writing a value of any wire type |
| PacketBuffer.Packet.Get | sws/Packet.cpp:333-419 | reading a value of any wire type, with the range check of booleans |
| PacketBuffer.Packet.Append | sws/Packet.cpp:501-508 | appending another packet |
| Streams.LoopResult | sws/TcpSocket.cpp:45-72 | a loop reports success if and only if exactly the length crossed, and otherwise moved a strict prefix |
| Streams.LoopErrors | sws/TcpSocket.cpp:58-66 | a loop uses its schedule from the front, and the error it leaves is that of the last answer used that reported a failure, or the one before if none did |
| Streams.LoopReturns | sws/TcpSocket.cpp:79-106 | a loop returns once it got as many answers other than would-block as bytes are left, and uses no more of them |
| Streams.ConcurrentTransfer | sws/TcpSocket.cpp:45-106 | under every interleaving, fragmentation and blocking the receiver's filled prefix is the prefix of the sender's data; when both ends succeed on equal lengths the buffers are equal and nothing is in flight |
| Streams.TransferCanProceed | sws/TcpSocket.cpp:45-106 | while no end has failed, a transfer that is not over has a turn that moves a byte |
| Streams.TransferCompletes | sws/TcpSocket.cpp:45-106 | in any interleaving without a failing answer, once the sender has had as many turns answered with bytes as it has bytes, and then the receiver as many as it has, both ends succeed and the receiver holds the data |
| Framing.SentPrefix | sws/Socket.cpp:145-191 | what a send hands over is one prefix of the buffer, never past its end |
| Framing.SendAnswers | sws/Socket.cpp:170-190 | the answers a returning send used, from the front of the schedule: without one in its loop it returns done and keeps the error; otherwise error and state are those of the last one, and all before it meant in_progress; the first call leaves no trace in either |
| Framing.SendSoundness | sws/Socket.cpp:160-190 | in_progress means the whole packet was handed over; done means it exactly when the first call took a byte and no later call, by count and error code, fell short without an error |
| Framing.DoneMayMeanNothingSent | sws/Socket.cpp:160-176 | a concrete schedule on which send reports done with nothing sent |
| Framing.SendReturns | sws/Socket.cpp:172-187 | the send loop returns once it got as many answers that do not stall as bytes are left |
| Framing.ReceiveStep | sws/Socket.cpp:193-238 | one receive keeps the receive state consistent, completes a packet exactly when one call delivers the whole body, throws exactly on lengths above 65533, and otherwise answers with done, in_progress, closed or error exactly as the last native error code says |
| Framing.HeaderRead | sws/Socket.cpp:206-215 | a receive without a length takes it from the next two bytes, low byte first, if both are delivered and it is not 0 |
| Framing.PartialReceive | sws/Socket.cpp:222-235 | the whole packet a receive leaves that got only a part of the body or nothing of it, byte by byte, with its positions |
| Framing.ReceivesStayConsistent | sws/Socket.cpp:193-238 | the same over any number of receives and any answers, as long as none throws |
| Framing.CaughtReceives | sws/Socket.cpp:193-238 | the same with exceptions caught: the receive state is consistent, or it is stuck on a length above 65533 |
| Framing.StuckForever | sws/Socket.cpp:206-223 | over any number of receives, a stuck one stays stuck on the same length and takes not a byte from the stream |
| Framing.StuckReceiveThrows | sws/Socket.cpp:206-223 | a stuck receive throws before any native call, and clear does not release it |
| Framing.DoneMayMeanNoPacket | sws/Socket.cpp:206-220 | a concrete receive that reports done with half a header taken and no packet |
| Framing.SplitBodyIsLost | sws/Socket.cpp:222-235 | a body that arrives in two parts leaves the packet incomplete, the second part over the first |
| Framing.FramesArrive | sws/Socket.cpp:201-237 | receiving from the concatenated buffers of any packets yields those buffers in order and uses up exactly their bytes |
| Framing.FramesAreUnique | sws/Packet.cpp:545-549 | two lists of packet buffers that make the same stream are the same list |
| Framing.FramePrefixIsUnique | sws/Packet.cpp:545-549 | a stream of packet buffers can be cut into buffers in one way only, also when just a part of it is cut |
| Framing.CompletedReceive | sws/Socket.cpp:201-237 | a receive that starts and completes a packet consumed exactly that packet's buffer |
| Framing.StepStaysInStep | sws/Socket.cpp:193-238 | one receive in step with the frames of the stream stays in step if and only if no native call of it takes only a part of what it asked for; it never throws, and completes nothing but the next frame |
| Framing.FramingStaysInStep | sws/Socket.cpp:193-238 | over any number of receives, from the beginning of a frame or from its body, the receiver stays in step if and only if no native call is short; then the completed packets are the first frames in order, however often calls block or fail in between |
| Framing.EndToEnd | sws/Socket.cpp:145-238 | lists of values written to packets, sent and received with full native receives read back with every string cut at its first zero byte, if and only if no string is empty; they read back value for value if and only if also no string holds a zero byte; nothing is left in the stream |
| Framing.MessagesSurviveUnlessShort | sws/Socket.cpp:145-238 | with blocked and failed calls anywhere but none short, the messages that have arrived are the first ones sent, in order, and all of them once the stream is used up; each reads back as in EndToEnd |
| Framing.DatagramAcceptance | sws/Socket.cpp:350-364 | a datagram is accepted if and only if it is 2 to 65535 bytes long and its header is its length minus 2 |
| Framing.DatagramRoundTrip | sws/UdpSocket.cpp:56-76 | what a native send of a valid non-empty packet puts on the wire is accepted at the other end and rebuilds a valid packet with the same payload, read from its start and written at its end |
| Framing.DatagramMessage | sws/UdpSocket.cpp:56-76 | values written to a packet, sent as one datagram and rebuilt read back with every string cut at its first zero byte, if and only if no string is empty, and value for value if and only if also none holds one |
| Handles.StepConserves | sws/Socket.cpp:27-61 | every life-cycle call keeps the open handles exactly those of live sockets, each owned once |
| Handles.StepTouchesNamed | sws/Socket.cpp:39-61 | a life-cycle call touches no socket but those it names and closes no handle but theirs |
| Handles.StepPerforms | sws/Socket.cpp:15-61 | what creating, destroying, move construction, closing, setting the mode, binding and connecting leave of the named sockets and the handle table |
| Handles.StepMoves | sws/Socket.cpp:39-56 | after a move assignment the target is what the source was, the source has no handle, connection or error, and what the target owned is closed |
| Handles.StepAccepts | sws/TcpSocket.cpp:25-43 | after an accept the target is the connection in the mode of the listener, with the errors of both; exactly what it owned is closed, the listening handle too when it is the listener; a refused accept only notes its error |
| Handles.SetBlockingLaw | sws/Socket.cpp:378-395 | the mode is stored even when the system refuses it; a refusal is the error and its state, and otherwise there is none |
| Handles.InitSocketLaw | sws/Socket.cpp:274-291 | when a socket can be opened, the handle it keeps when it then throws, and the error it is left with |
| Handles.BindLaw | sws/Socket.cpp:86-103 | exactly when bind returns, throws or changes nothing; a failing native call is the error and its state; a returning bind that succeeded answers done without an error; nothing is connected |
| Handles.ConnectLaw | sws/Socket.cpp:105-123 | exactly when connect returns, throws or changes nothing; a failing native call is the error and its state and leaves the socket unconnected; a socket becomes connected exactly when the native call succeeds; a returning connect that succeeded answers done without an error |
| Handles.AcceptedLaw | sws/TcpSocket.cpp:34-40 | an accepted connection is a connected TCP socket in the mode of the listener, with the error of setting it |
| Handles.CloseLaw | sws/Socket.cpp:240-252 | closing gives up handle and connection and nothing else, closes the handle once, and is idempotent |
| Handles.HandlesConserved | sws/Socket.cpp:86-123 | the same over every run, with connected sockets holding a handle and no close of a handle that is not open |
| Handles.NoHandleLeaks | sws/Socket.cpp:58-61 | once every socket is destroyed no handle is open and each was closed as often as opened |
| Sockets.Socket.constructor | sws/Socket.cpp:15-25 | a new socket has no handle, and a UDP socket has a datagram buffer of 65536 bytes |
| Sockets.Socket.SetBlocking | sws/Socket.cpp:378-395 | the stored mode, the state and the error |
| Sockets.Socket.InitSocket | sws/Socket.cpp:274-291 | opening a handle, and keeping it when the mode cannot be set and the call throws |
| Sockets.Socket.Bind | sws/Socket.cpp:86-103 | every outcome of bind with the socket and handle table it leaves, as BindLaw says |
| Sockets.Socket.Connect | sws/Socket.cpp:105-123 | every outcome of connect with the socket and handle table it leaves, as ConnectLaw says |
| Sockets.Socket.Close | sws/Socket.cpp:240-252 | the handle is closed once and given up |
| Sockets.Socket.Move | sws/Socket.cpp:27-37 | the new socket owns all, the old one nothing |
| Sockets.Socket.MoveAssign | sws/Socket.cpp:39-56 | what the target owned is closed first; moving to itself does nothing |
| Sockets.Socket.Accept | sws/TcpSocket.cpp:25-43 | the accepted handle replaces what the target owned, also when the target is the listener |
| Sockets.Socket.SendAll | sws/TcpSocket.cpp:45-72 | the wire grows by exactly the prefix the run says, in order, with no gap or repeat; the error is that of the last answer used that reported a failure |
| Sockets.Socket.ReceiveInto | sws/Socket.cpp:135-138 | the raw receive: the bytes of the stream that land in the buffer, and nothing else |
| Sockets.Socket.ReceiveAll | sws/TcpSocket.cpp:79-106 | the buffer's prefix becomes the next bytes of the stream, the rest is untouched; the error is that of the last answer used that reported a failure |
| Sockets.Socket.SendRest | sws/Socket.cpp:172-187 | one pass of the send loop |
| Sockets.Socket.Send | sws/Socket.cpp:145-191 | over TCP the wire grows by one stretch of the buffer from the send position, every native call stays inside it, the bytes are unchanged and the send position is reset; state and error are those of the last answer the loop used, or done and the old error; over UDP the buffer goes out in one call, whose error is the answer |
| Sockets.Socket.SendTo | sws/UdpSocket.cpp:56-71 | an empty packet is not sent; otherwise one native call for the buffer, and its error unless it took a byte |
| Sockets.Socket.ReceiveHeader | sws/Socket.cpp:206-215 | the header phase of a receive |
| Sockets.Socket.ReceiveBody | sws/Socket.cpp:223-235 | the body phase of a receive |
| Sockets.Socket.Receive | sws/Socket.cpp:193-238 | one receive, with the state it leaves when it throws; a returning one answers as the last native error code says |
| Sockets.Socket.ReceiveDatagramPacket | sws/Socket.cpp:350-371 | a failed or malformed datagram leaves the packet alone, an accepted one rebuilds it with the read cursor at 2 and the write cursor at the end |
| Addresses.IsNumeric | sws/Address.cpp:274-337 | the scans accept exactly digits and dots with a digit first, and exactly hexadecimal digits and colons with a digit somewhere |
| Addresses.ToString | sws/Address.cpp:339-366 | the text printed for each family and port, in brackets only for a numeric IPv6 address with a port |
| Addresses.PrintedText | sws/Address.cpp:339-366 | the same of the printed form the laws below speak of, with concrete addresses: a name is never bracketed |
| Addresses.DecimalDenotes | sws/Address.cpp:339-366 | a printed port denotes that port and has no leading zero |
| Addresses.PrintingLaw | sws/Address.cpp:339-366 | over all addresses, two print alike if and only if their ports are equal and their texts are shown alike, or one port is 0 and that address is itself the other's text with its port |
| Addresses.PrintingIsInjective | sws/Address.cpp:339-366 | two numeric addresses of one family that print alike are equal, port included |
| Addresses.PrintingIsAmbiguousOtherwise | sws/Address.cpp:339-366 | concrete addresses that print alike across families, and within a family when one is not numeric |

## Left out

- Sockets.Socket.SendAll: requires a schedule on which it returns, because the code loops for ever when every call would block.
- Sockets.Socket.ReceiveAll: requires a schedule on which it returns, for the same reason.
- Sockets.Socket.Send: requires a schedule on which it returns, because the code loops for ever when every call is in progress.
- Sockets.Socket.constructor: an invalid protocol, which makes the source throw, is excluded by a precondition.
- Sockets.Socket.Receive: only the TCP branch; the UDP branch hands the bytes received to ReceiveDatagramPacket.
- Sockets.Socket.ReceiveDatagramPacket: takes the outcome of the native receive as arguments, with the bytes already in the datagram buffer.
- PacketBuffer.Packet.Append: a packet appended to itself is not modelled, because the source reads through a pointer that the resize may invalidate.
- PacketBuffer.Packet.WriteString: the order of the two writes, which C++ leaves open, is taken as length first.
- Framing.FramesArrive: each native receive is assumed to return all it is asked for, because the code does not reassemble a header or a body that arrives in parts; FramingStaysInStep needs only that none takes a part.
- The Winsock calls themselves: they are the oracle's answers and the handle table.
- Address resolution and conversion (`get_addresses`, `get_name`, `from_native`, `to_native`) and the stored local and remote addresses: only whether a conversion throws matters to the life cycle.
- Sockets.Socket.SendTo: the conversion of the address, which may throw before anything is sent, is not modelled.
- `listen` and the raw one-line wrappers: they only pass a native result on.
- The overloads that return a size instead of throwing, other than those for raw data and strings, and the one overload per integer type: one pair per wire type stands for them.
- Floating-point meaning: a float or a double is its bit pattern.
- Copied and moved packets, `reserve` and `shrink_to_fit`: no behaviour beyond copying fields or capacity.
- Overflow of the signed sum in an enormous relative seek: undefined in the source.
- Exception texts, hashing and Winsock start-up: opaque or without state the rest depends on.
