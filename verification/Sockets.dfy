/** The socket as the library implements it: its life cycle, and the transfer of packets and of raw
    buffers. Every method is proved to do what Handles, Framing and Streams say. */
module Sockets {
  import opened Bytes
  import opened Network
  import opened PacketSpec
  import opened PacketBuffer
  import H = Handles
  import F = Framing
  import S = Streams

  class Socket {
    var handle: Option<H.Handle>
    var protocol: H.Protocol
    var blocking: bool
    var connected: bool
    var nativeError: SocketError

    // The buffer datagrams are received into; only UDP sockets have one.
    var datagram: array?<byte>

    function State(): H.Sock
      reads this
    {
      H.Sock(handle, protocol, blocking, connected, nativeError)
    }

    constructor (protocol: H.Protocol, blocking: bool)
      requires protocol != H.InvalidProtocol
      ensures State() == H.Sock(None, protocol, blocking, false, NoError)
      ensures protocol == H.Udp ==>
                datagram != null && datagram.Length == DATAGRAM_SIZE && fresh(datagram)
      ensures protocol != H.Udp ==> datagram == null
    {
      this.handle, this.protocol, this.blocking := None, protocol, blocking;
      this.connected, this.nativeError := false, NoError;
      if protocol == H.Udp {
        this.datagram := new byte[DATAGRAM_SIZE];
      } else {
        this.datagram := null;
      }
    }

    // -------------------------------------------------------------------------
    // Life cycle

    method SetBlocking(value: bool, ioctl: H.Call) returns (state: SocketState)
      modifies this`blocking, this`nativeError
      ensures (state, State()) == H.SetBlocking(old(State()), value, ioctl)
    {
      blocking := value;
      if handle.None? {
        nativeError := NoError;
        return Done;
      }
      match ioctl {
        case Fails(e) =>
          nativeError := e;
          return ToState(e);
        case Succeeds =>
          nativeError := NoError;
          return Done;
      }
    }

    method InitSocket(os: H.Os, r: H.Replies) returns (outcome: Outcome<SocketState>)
      requires H.FreshHandle(os.State(), r)
      modifies this`handle, this`blocking, this`nativeError, os
      ensures H.Effect(outcome, State(), os.State()) == H.InitSocket(old(State()), old(os.State()), r)
    {
      if handle.Some? { return Returned(Done); }
      handle := r.handle;
      if handle.None? {
        nativeError := r.handleError;
        return Threw;
      }
      os.Open(handle.value);
      var state := SetBlocking(blocking, r.ioctl);
      return if state == Done then Returned(Done) else Threw;
    }

    method Bind(os: H.Os, r: H.Replies) returns (outcome: Outcome<SocketState>)
      requires H.FreshHandle(os.State(), r)
      modifies this`handle, this`blocking, this`nativeError, os
      ensures H.Effect(outcome, State(), os.State()) == H.Bind(old(State()), old(os.State()), r)
    {
      if handle.Some? { return Threw; }
      if !r.address { return Threw; }
      var init := InitSocket(os, r);
      if init.Threw? { return Threw; }
      if r.call.Fails? {
        nativeError := r.call.error;
        return Returned(ToState(nativeError));
      }
      if !r.names { return Threw; }
      nativeError := NoError;
      return Returned(Done);
    }

    method Connect(os: H.Os, r: H.Replies) returns (outcome: Outcome<SocketState>)
      requires H.FreshHandle(os.State(), r)
      modifies this`handle, this`blocking, this`nativeError, this`connected, os
      ensures H.Effect(outcome, State(), os.State()) == H.Connect(old(State()), old(os.State()), r)
    {
      if connected { return Threw; }
      if !r.address { return Threw; }
      var init := InitSocket(os, r);
      if init.Threw? { return Threw; }
      if r.call.Fails? {
        nativeError := r.call.error;
        return Returned(ToState(nativeError));
      }
      connected := true;
      if !r.names { return Threw; }
      nativeError := NoError;
      return Returned(Done);
    }

    method Close(os: H.Os)
      modifies this`handle, this`connected, os
      ensures (State(), os.State()) == H.Close(old(State()), old(os.State()))
    {
      if handle.Some? {
        os.CloseSocket(handle.value);
        handle := None;
      }
      connected := false;
    }

    constructor Move(rhs: Socket)
      modifies rhs
      ensures State() == old(rhs.State()) && datagram == old(rhs.datagram)
      ensures rhs.State() == H.MovedFrom(old(rhs.State())) && rhs.datagram == null
    {
      handle, protocol, blocking := rhs.handle, rhs.protocol, rhs.blocking;
      connected, nativeError, datagram := rhs.connected, rhs.nativeError, rhs.datagram;
      new;
      rhs.handle, rhs.connected, rhs.nativeError, rhs.datagram := None, false, NoError, null;
    }

    /** Move assignment: what this socket owned is closed first; a socket moved to itself is left
        alone. */
    method MoveAssign(rhs: Socket, os: H.Os)
      modifies this, rhs, os
      ensures rhs == this ==> State() == old(State()) && os.State() == old(os.State())
      ensures rhs != this ==>
                && os.State() == H.Close(old(State()), old(os.State())).1
                && State() == old(rhs.State()) && datagram == old(rhs.datagram)
                && rhs.State() == H.MovedFrom(old(rhs.State())) && rhs.datagram == null
    {
      hide H.CloseHandle;
      if rhs != this {
        Close(os);
        handle, protocol, blocking := rhs.handle, rhs.protocol, rhs.blocking;
        connected, nativeError, datagram := rhs.connected, rhs.nativeError, rhs.datagram;
        rhs.handle, rhs.connected, rhs.nativeError, rhs.datagram := None, false, NoError, null;
      }
    }

    /** Accepting into `s`, which may be this very socket. */
    method Accept(s: Socket, os: H.Os, r: H.Replies) returns (outcome: Outcome<SocketState>)
      requires H.FreshHandle(os.State(), r)
      modifies this, s, os
      ensures r.handle.None? ==>
                && outcome == Returned(ToState(r.handleError)) && os.State() == old(os.State())
                && State() == old(State()).(error := r.handleError)
                && (s != this ==> s.State() == old(s.State()))
      ensures r.handle.Some? ==>
                var accepted := H.Accepted(r.handle.value, old(blocking), r.ioctl);
                && os.State() == H.OpenHandle(H.Close(old(s.State()), old(os.State())).1, r.handle.value)
                && outcome == (if r.names then Returned(Done) else Threw)
                && s.State() == (if s == this && r.names then accepted.(error := NoError) else accepted)
                && (s != this ==>
                      State() == if r.names then old(State()).(error := NoError) else old(State()))
    {
      hide ToState, H.OpenHandle, H.SetBlocking;
      if r.handle.None? {
        nativeError := r.handleError;
        return Returned(ToState(nativeError));
      }
      var mode := blocking;
      var empty := new Socket(H.Tcp, mode);
      s.MoveAssign(empty, os);
      os.Open(r.handle.value);
      s.handle, s.connected := r.handle, true;
      var state := s.SetBlocking(mode, r.ioctl);
      if !r.names { return Threw; }
      nativeError := NoError;
      return Returned(Done);
    }

    // -------------------------------------------------------------------------
    // Raw buffers

    /** `send_all`, on a schedule on which it returns. */
    method SendAll(native: Native, data: array<byte>, length: int) returns (ok: bool)
      requires length <= data.Length
      requires S.SendAllRun(length, nativeError, native.script).0.status != S.Running
      modifies this`nativeError, native
      ensures var (l, rest) := S.SendAllRun(length, old(nativeError), old(native.script));
              && ok == (l.status == S.Succeeded) && nativeError == l.error
              && l.total <= data.Length && native.wire == old(native.wire) + data[..l.total]
              && native.script == rest && native.inbound == old(native.inbound)
      ensures nativeError == S.LastFailure(old(nativeError), Used(old(native.script), native.script))
    {
      hide S.RunLoop, S.SentSoFar;
      var total := 0;
      ghost var start, run := native.State(), S.SendAllRun(length, nativeError, native.script);
      ghost var l := S.Resume(0, length, nativeError);
      S.SendStarts(length, nativeError, data[..], start);
      S.LoopErrors(l, length, Max(length, 0), native.script);
      while total < length
        invariant 0 <= total && l == S.Resume(total, length, nativeError)
        invariant S.SentSoFar(run, length, l, data[..], start, native.State())
        decreases |native.script|
      {
        S.SendTurn(run, length, l, data[..], start, native.State());
        l := S.Turn(l, length, length - total, native.script[0]);
        var sent := native.Send(data[..][total..length]);
        S.SendReturns(run, length, l, data[..], start, native.State());
        if sent == 0 { return false; }
        if sent < 0 {
          nativeError := native.error;
          if nativeError == WouldBlock { continue; }
          return false;
        }
        total := total + sent;
      }
      S.SendReturns(run, length, l, data[..], start, native.State());
      return true;
    }

    /** The raw `receive`: the system fills part of a buffer. */
    method ReceiveInto(native: Native, data: array<byte>, pos: nat, room: nat) returns (received: int)
      requires pos + room <= data.Length
      modifies native, data
      ensures var (count, bytes, next) := RecvBytes(old(native.State()), room);
              && received == count && native.State() == next
              && data[..] == Overlay(old(data[..]), pos, bytes)
    {
      var bytes;
      received, bytes := native.Recv(room);
      forall i | 0 <= i < |bytes| { data[pos + i] := bytes[i]; }
    }

    /** `receive_all`, on a schedule on which it returns. */
    method ReceiveAll(native: Native, data: array<byte>, length: int) returns (ok: bool)
      requires length <= data.Length
      requires S.ReceiveAllRun(length, |native.inbound|, nativeError, native.script).0.status != S.Running
      modifies this`nativeError, native, data
      ensures var (l, rest) := S.ReceiveAllRun(length, |old(native.inbound)|, old(nativeError), old(native.script));
              && ok == (l.status == S.Succeeded) && nativeError == l.error
              && l.total <= data.Length && l.total <= |old(native.inbound)|
              && data[..] == old(native.inbound)[..l.total] + old(data[..])[l.total..]
              && native.inbound == old(native.inbound)[l.total..]
              && native.script == rest && native.wire == old(native.wire)
      ensures nativeError == S.LastFailure(old(nativeError), Used(old(native.script), native.script))
    {
      hide S.RunLoop, S.ReceivedSoFar, RecvBytes, Overlay;
      var total := 0;
      ghost var start, before := native.State(), data[..];
      ghost var run := S.ReceiveAllRun(length, |start.inbound|, nativeError, native.script);
      ghost var l := S.Resume(0, length, nativeError);
      S.ReceiveStarts(length, nativeError, before, start);
      S.LoopErrors(l, length, |start.inbound|, native.script);
      while total < length
        invariant 0 <= total && l == S.Resume(total, length, nativeError)
        invariant S.ReceivedSoFar(run, length, l, before, data[..], start, native.State())
        decreases |native.script|
      {
        S.ReceiveTurn(run, length, l, before, data[..], start, native.State());
        l := S.Turn(l, length, Min(length - total, |native.inbound|), native.script[0]);
        var received := ReceiveInto(native, data, total, length - total);
        S.ReceiveReturns(run, length, l, before, data[..], start, native.State());
        if received == 0 { return false; }
        if received < 0 {
          nativeError := native.error;
          if nativeError == WouldBlock { continue; }
          return false;
        }
        total := total + received;
      }
      S.ReceiveReturns(run, length, l, before, data[..], start, native.State());
      return true;
    }

    // -------------------------------------------------------------------------
    // Packets

    /** One pass of the send loop: the rest of the buffer is offered to the system. */
    method SendRest(packet: Packet, native: Native) returns (state: SocketState)
      requires 1 <= packet.sendPos < |packet.data|
      modifies this`nativeError, packet`sendPos, native
      ensures var pos := old(packet.sendPos);
              var (count, next) := SendBytes(old(native.State()), packet.data[pos..]);
              && packet.sendPos == pos + Max(count, 0) && native.State() == next
              && nativeError == next.error && state == ToState(next.error)
    {
      var pos, room := packet.sendPos, packet.SendRemainder();
      assert packet.data[pos..pos + room] == packet.data[pos..];
      var sent := native.Send(packet.data[pos..pos + room]);
      if sent > 0 { packet.sendPos := packet.sendPos + sent; }
      nativeError := native.error;
      state := ToState(nativeError);
    }

    /** `send`, on a schedule on which it returns. Over TCP the bytes handed over are one contiguous
        stretch of the buffer from the send position on; over UDP the buffer is one datagram. */
    method Send(packet: Packet, native: Native) returns (state: SocketState)
      requires packet.WorkSize() > 0 && protocol != H.Udp ==>
                 F.SendRun(|packet.data|, packet.sendPos, nativeError, native.script).0.returned
      modifies this`nativeError, packet`sendPos, native
      ensures packet.State() == old(packet.State()).(sendPos := packet.sendPos)
      ensures packet.sendPos == if packet.WorkSize() > 0 && protocol == H.Udp then old(packet.sendPos) else -1
      ensures native.inbound == old(native.inbound)
      ensures if packet.WorkSize() == 0 then
                state == Done && nativeError == NoError && native.State() == old(native.State())
              else if protocol == H.Udp then
                native.State() == SendBytes(old(native.State()), packet.data).1
                && nativeError == native.error && Tells(state, native.error)
              else
                var (l, rest) := F.SendRun(|packet.data|, old(packet.sendPos), old(nativeError), old(native.script));
                && state == l.state && nativeError == l.error && native.script == rest
                && F.Noted(Used(F.Looped(old(packet.sendPos), old(native.script)), native.script),
                           Done, old(nativeError), state, nativeError)
                && native.wire == old(native.wire) + F.Handed(packet.data, old(packet.sendPos), l.pos)
    {
      hide ToState, F.Noted, F.Looped, Used, Tells;
      if packet.WorkSize() == 0 {
        packet.SendReset();
        nativeError := NoError;
        return Done;
      }
      if protocol == H.Udp {
        var _ := native.Send(packet.data);
        nativeError := native.error;
        StateTellsError(nativeError);
        return ToState(nativeError);
      }
      ghost var start, run := native.State(), F.SendRun(|packet.data|, packet.sendPos, nativeError, native.script);
      ghost var data, from := packet.data, packet.sendPos;
      F.SendStarts(data, from, nativeError, start);
      F.SendAnswers(|data|, from, nativeError, start.script);
      if packet.sendPos == -1 {
        var sent := native.Send(packet.data);
        if sent > 0 { packet.sendPos := sent; }
      }
      state := Done;
      ghost var l := F.SendLoop(false, packet.sendPos, state, nativeError);
      hide F.SentSoFar, F.SendRun, F.SendOn;
      while true
        invariant packet.State() == old(packet.State()).(sendPos := packet.sendPos)
        invariant l == F.SendLoop(false, packet.sendPos, state, nativeError)
        invariant F.SentSoFar(run, data, from, l, start, native.State())
        decreases |native.script|
      {
        F.SendReturned(run, data, from, l, start, native.State());
        if packet.SendRemainder() <= 0 { break; }
        F.SendTurn(run, data, from, l, start, native.State());
        l := F.Pass(|data|, l, native.script[0]);
        state := SendRest(packet, native);
        F.SendReturned(run, data, from, l, start, native.State());
        if state != InProgress { break; }
      }
      packet.SendReset();
    }

    /** `send_to` of a UDP socket, once the address is converted: one native call for the buffer. */
    method SendTo(packet: Packet, native: Native) returns (state: SocketState)
      requires protocol == H.Udp
      modifies this`nativeError, native
      ensures if packet.WorkSize() == 0 then
                native.State() == old(native.State()) && state == Done && nativeError == NoError
              else
                var (count, next) := SendBytes(old(native.State()), packet.data);
                && native.State() == next
                && nativeError == (if count > 0 then NoError else next.error)
                && Tells(state, nativeError)
    {
      if packet.WorkSize() == 0 {
        nativeError := NoError;
        return Done;
      }
      var sent := native.Send(packet.data);
      if sent == 0 || sent == -1 {
        nativeError := native.error;
        return ToState(nativeError);
      }
      nativeError := NoError;
      return Done;
    }

    /** The first half of `receive`: ask for the header unless it is known. */
    method ReceiveHeader(packet: Packet, native: Native)
      modifies packet`recvTarget, native
      ensures (packet.recvTarget, native.State())
              == F.HeaderPhase(old(packet.recvTarget), old(native.State()))
    {
      if packet.recvTarget < 0 {
        var received, header := native.Recv(HEADER);
        if received == HEADER && FromLe(header) > 0 {
          packet.recvTarget := FromLe(header);
        }
      }
    }

    /** The second half: one call for the whole body, into the buffer behind the header. */
    method ReceiveBody(packet: Packet, native: Native)
      requires packet.recvTarget > 0 && |packet.data| == packet.recvTarget + HEADER
      modifies packet`data, packet`recvPos, packet`recvTarget, native
      ensures var (_, bytes, next) := RecvBytes(old(native.State()), old(packet.recvTarget));
              packet.State() == F.BodyPhase(old(packet.State()), bytes) && native.State() == next
    {
      packet.recvPos := HEADER;
      var pos, room := packet.recvPos, packet.RecvRemainder();
      var received, bytes := native.Recv(room);
      packet.data := packet.data[..pos] + bytes + packet.data[pos + |bytes|..];
      if received > 0 {
        packet.recvPos := packet.recvPos + received;
      }
      if packet.RecvRemainder() == 0 {
        packet.RecvReset();
      }
    }

    /** `receive` over TCP. */
    method Receive(packet: Packet, native: Native) returns (r: Outcome<SocketState>)
      requires protocol == H.Tcp
      modifies this`nativeError, packet, native
      ensures F.Reception(r, packet.State(), native.State())
              == F.Receive(old(packet.State()), old(native.State()))
      ensures nativeError == if r.Returned? then native.error else old(nativeError)
      ensures r.Returned? ==> Tells(r.value, native.error)
    {
      hide Resize, F.HeaderPhase, F.BodyPhase;
      if packet.recvPos < 0 && packet.recvTarget < 0 {
        packet.Clear();
      }
      ReceiveHeader(packet, native);
      if packet.recvTarget <= 0 {
        nativeError := native.error;
        return Returned(ToState(nativeError));
      }
      var resized := packet.Resize(packet.recvTarget + HEADER);
      if resized.Threw? { return Threw; }
      ReceiveBody(packet, native);
      nativeError := native.error;
      return Returned(ToState(nativeError));
    }

    /** `receive_datagram_packet`: the system has put `received` bytes into the datagram buffer, or
        reports 0 or -1 with an error code. */
    method ReceiveDatagramPacket(packet: Packet, received: int, error: SocketError)
      returns (r: Outcome<SocketState>)
      requires datagram != null && datagram.Length == DATAGRAM_SIZE
      requires -1 <= received <= DATAGRAM_SIZE
      modifies this`nativeError, packet
      ensures received <= 0 ==>
                r.Returned? && Tells(r.value, error) && nativeError == error
                && packet.State() == old(packet.State())
      ensures received > 0 && !F.AcceptsDatagram(datagram[..received]) ==>
                r == Threw && nativeError == old(nativeError) && packet.State() == old(packet.State())
      ensures received > 0 && F.AcceptsDatagram(datagram[..received]) ==>
                r == Returned(Done) && nativeError == NoError
                && packet.State() == F.Rebuilt(old(packet.State()), datagram[..received])
                && packet.data == datagram[..received]
                && packet.readPos == 2 && packet.writePos == received
    {
      if received <= 0 {
        nativeError := error;
        return Returned(ToState(error));
      }
      if received < HEADER { return Threw; }
      var bytes := datagram[..received];
      assert datagram[..HEADER] == bytes[..HEADER];
      if FromLe(datagram[..HEADER]) != F.ExpectedHeader(received) { return Threw; }
      F.DatagramAcceptance(bytes);
      packet.Clear();
      var resized := packet.Resize(received);
      assert resized.Returned?;
      packet.writePos := 0;
      var written := packet.WriteData(bytes, true);
      assert packet.data == bytes;
      nativeError := NoError;
      return Returned(Done);
    }
  }
}
