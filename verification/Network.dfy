/** The operating system under a connected socket, as an oracle: it answers each native call as a
    schedule says, and a byte stream records what crossed. */
module Network {
  import opened Bytes

  /** The native error codes; only those the library tells apart have names. */
  datatype SocketError =
    | NoError
    | WouldBlock
    | AlreadyInProgress
    | ConnectionAborted
    | ConnectionReset
    | TimedOut
    | NetworkReset
    | NotConnected
    | IsConnected
    | OtherError(code: int)

  datatype SocketState = Done | InProgress | Closed | Error

  function ToState(error: SocketError): SocketState {
    match error
    case WouldBlock => InProgress
    case AlreadyInProgress => InProgress
    case ConnectionAborted => Closed
    case ConnectionReset => Closed
    case TimedOut => Closed
    case NetworkReset => Closed
    case NotConnected => Closed
    case IsConnected => Done
    case NoError => Done
    case OtherError(_) => Error
  }

  /** What a state promises about the error code it was derived from: `Done` that there was no error
      or that a connection had completed, `InProgress` that the call would block or goes on, `Closed`
      that the connection is gone, and `Error` everything else. */
  ghost predicate Tells(state: SocketState, error: SocketError) {
    && (state == Done <==> error in {NoError, IsConnected})
    && (state == InProgress <==> error in {WouldBlock, AlreadyInProgress})
    && (state == Closed <==>
        error in {ConnectionAborted, ConnectionReset, TimedOut, NetworkReset, NotConnected})
  }

  lemma StateTellsError(error: SocketError)
    ensures Tells(ToState(error), error)
  {
  }

  /** One answer of the schedule: how many bytes the call is willing to move (negative for a
      failure) and the error code that `WSAGetLastError` reports after it, stale or not. */
  datatype Answer = Answer(count: int, error: SocketError)

  /** What a native call returns that could move up to `room` bytes: -1, 0, or 1..room. */
  function Grant(a: Answer, room: nat): (count: int)
    ensures -1 <= count <= room
  {
    if a.count < 0 then -1 else Min(a.count, room)
  }

  /** When the schedule is used up, every further call would block. */
  function Head(script: seq<Answer>): Answer {
    if script == [] then Answer(-1, WouldBlock) else script[0]
  }

  function Rest(script: seq<Answer>): seq<Answer> {
    if script == [] then [] else script[1..]
  }

  /** The part of a schedule that was used, when `rest` of it is left. */
  function Used(script: seq<Answer>, rest: seq<Answer>): seq<Answer> {
    if |rest| <= |script| then script[..|script| - |rest|] else []
  }

  /** A connection: the answers to come, the bytes handed over for sending, the bytes the peer
      sends before it closes, and the last error code. */
  datatype Link = Link(script: seq<Answer>, wire: seq<byte>, inbound: seq<byte>, error: SocketError)

  function SendBytes(l: Link, bytes: seq<byte>): (int, Link) {
    var count := Grant(Head(l.script), |bytes|);
    (count, Link(Rest(l.script), l.wire + bytes[..Max(count, 0)], l.inbound, Head(l.script).error))
  }

  /** `recv`: at the end of the stream a call willing to deliver returns 0. */
  function RecvBytes(l: Link, room: nat): (r: (int, seq<byte>, Link))
    ensures r.0 == Grant(Head(l.script), Min(room, |l.inbound|)) && |r.1| == Max(r.0, 0) <= room
    ensures r.2.script == Rest(l.script) && r.2.error == Head(l.script).error && r.2.wire == l.wire
  {
    var count := Grant(Head(l.script), Min(room, |l.inbound|));
    var n := Max(count, 0);
    (count, l.inbound[..n], Link(Rest(l.script), l.wire, l.inbound[n..], Head(l.script).error))
  }

  class Native {
    var script: seq<Answer>
    var wire: seq<byte>
    var inbound: seq<byte>
    var error: SocketError

    function State(): Link
      reads this
    {
      Link(script, wire, inbound, error)
    }

    method Send(bytes: seq<byte>) returns (count: int)
      modifies this
      ensures (count, State()) == SendBytes(old(State()), bytes)
    {
      var a := Head(script);
      count := Grant(a, |bytes|);
      wire := wire + bytes[..Max(count, 0)];
      script, error := Rest(script), a.error;
    }

    method Recv(room: nat) returns (count: int, bytes: seq<byte>)
      modifies this
      ensures (count, bytes, State()) == RecvBytes(old(State()), room)
    {
      var a := Head(script);
      count := Grant(a, Min(room, |inbound|));
      var n := Max(count, 0);
      bytes, inbound := inbound[..n], inbound[n..];
      script, error := Rest(script), a.error;
    }
  }
}
