/** Packets on the wire: what `Socket::send`, `Socket::receive` and the datagram path do to a packet
    and a connection, and what arrives of what was sent. */
module Framing {
  import opened Bytes
  import opened Network
  import opened PacketSpec
  import opened Typed

  // The largest payload a packet can receive: the buffer may not reach 65536 bytes.
  const MAX_PAYLOAD: int := 65533

  // ---------------------------------------------------------------------------
  // Sending over TCP

  /** Where the send loop stands: the send position, the state of the last native call that asked
      for it, and the error noted with it. */
  datatype SendLoop = SendLoop(returned: bool, pos: int, state: SocketState, error: SocketError)

  /** One pass: the rest of the buffer is offered, and only `in_progress` leads to another. */
  function Pass(size: nat, l: SendLoop, a: Answer): SendLoop
    requires SendRemainder(size, l.pos) > 0
  {
    var state := ToState(a.error);
    SendLoop(state != InProgress, l.pos + Max(Grant(a, SendRemainder(size, l.pos)), 0), state, a.error)
  }

  /** The loop from a given position on a schedule, and the unused part of the schedule. */
  function SendOn(size: nat, l: SendLoop, script: seq<Answer>): (SendLoop, seq<Answer>)
    decreases |script|
  {
    if l.returned then (l, script)
    else if SendRemainder(size, l.pos) <= 0 then (l.(returned := true), script)
    else if script == [] then (l, [])
    else SendOn(size, Pass(size, l, script[0]), script[1..])
  }

  /** Sending a packet of `size` bytes whose send position is `pos`: a first native call for the
      whole buffer if nothing was sent yet, then the loop. */
  function SendRun(size: nat, pos: int, error: SocketError, script: seq<Answer>)
    : (SendLoop, seq<Answer>)
  {
    if pos == -1 then
      var count := Grant(Head(script), size);
      SendOn(size, SendLoop(false, if count > 0 then count else -1, Done, error), Rest(script))
    else
      SendOn(size, SendLoop(false, pos, Done, error), script)
  }

  /** The part of the buffer handed over between two send positions. */
  function Handed(data: seq<byte>, from: int, to: int): seq<byte> {
    var start := if from == -1 then 0 else from;
    if 0 <= start <= to <= |data| then data[start..to] else []
  }

  /** The send loop in progress: what was handed over so far lies in one piece from the first send
      position on, and what the whole run still is. */
  ghost predicate SentSoFar(run: (SendLoop, seq<Answer>), data: seq<byte>, from: int, l: SendLoop,
                            start: Link, now: Link)
  {
    && (from == -1 || from == l.pos || 1 <= from <= l.pos)
    && now.wire == start.wire + Handed(data, from, l.pos) && now.inbound == start.inbound
    && run == SendOn(|data|, l, now.script)
  }

  /** After the first native call, if there is one. */
  lemma SendStarts(data: seq<byte>, from: int, error: SocketError, start: Link)
    ensures var run := SendRun(|data|, from, error, start.script);
            if from == -1 then
              var (count, next) := SendBytes(start, data);
              SentSoFar(run, data, from, SendLoop(false, if count > 0 then count else -1, Done, error), start, next)
            else SentSoFar(run, data, from, SendLoop(false, from, Done, error), start, start)
  {
    assert Handed(data, from, from) == [];
    assert start.wire + [] == start.wire;
  }

  lemma SendOnOnce(size: nat, l: SendLoop, script: seq<Answer>)
    requires !l.returned && SendRemainder(size, l.pos) > 0
    ensures if script == [] then SendOn(size, l, script) == (l, [])
            else SendOn(size, l, script) == SendOn(size, Pass(size, l, script[0]), script[1..])
  {
  }

  lemma HandedMore(data: seq<byte>, from: int, pos: nat, n: nat)
    requires 1 <= pos && pos + n <= |data| && (from == -1 || 0 <= from <= pos)
    ensures Handed(data, from, pos) + data[pos..][..n] == Handed(data, from, pos + n)
  {
    assert data[pos..][..n] == data[pos..pos + n];
  }

  lemma SendTurn(run: (SendLoop, seq<Answer>), data: seq<byte>, from: int, l: SendLoop,
                 start: Link, now: Link)
    requires SentSoFar(run, data, from, l, start, now)
    requires !l.returned && run.0.returned && SendRemainder(|data|, l.pos) > 0
    ensures now.script != []
    ensures SentSoFar(run, data, from, Pass(|data|, l, now.script[0]), start,
                      SendBytes(now, data[l.pos..]).1)
  {
    SendOnOnce(|data|, l, now.script);
    hide SendOn, Handed, ToState;
    var n := Max(SendBytes(now, data[l.pos..]).0, 0);
    HandedMore(data, from, l.pos, n);
    var handed, more := Handed(data, from, l.pos), data[l.pos..][..n];
    assert (start.wire + handed) + more == start.wire + (handed + more);
  }

  lemma SendReturned(run: (SendLoop, seq<Answer>), data: seq<byte>, from: int, l: SendLoop,
                     start: Link, now: Link)
    requires SentSoFar(run, data, from, l, start, now)
    ensures l.returned || SendRemainder(|data|, l.pos) <= 0 ==>
              && run == (l.(returned := true), now.script)
              && now.wire == start.wire + Handed(data, from, l.pos) && now.inbound == start.inbound
  {
  }

  lemma {:induction false} SendOnAdvances(size: nat, l: SendLoop, script: seq<Answer>)
    ensures var r := SendOn(size, l, script).0;
            && l.pos <= r.pos && (1 <= l.pos <= size ==> r.pos <= size)
            && (l.pos < 1 || size <= l.pos ==> r.pos == l.pos)
    decreases |script|
  {
    if l.returned || SendRemainder(size, l.pos) <= 0 || script == [] {
    } else {
      SendOnAdvances(size, Pass(size, l, script[0]), script[1..]);
    }
  }

  /** Whatever the schedule, a send that returns handed over one contiguous stretch that starts at
      the beginning of the buffer and never runs past its end. */
  lemma SentPrefix(data: seq<byte>, error: SocketError, script: seq<Answer>)
    ensures var pos := SendRun(|data|, -1, error, script).0.pos;
            && -1 <= pos <= |data|
            && Handed(data, -1, pos) == data[..Max(pos, 0)]
  {
    var count := Grant(Head(script), |data|);
    SendOnAdvances(|data|, SendLoop(false, if count > 0 then count else -1, Done, error), Rest(script));
  }

  /** What a state and an error have become after answers: without any they are as they were;
      otherwise the error is that of the last answer and the state is what that error means. */
  ghost predicate Noted(used: seq<Answer>, state: SocketState, error: SocketError,
                        newState: SocketState, newError: SocketError)
  {
    if used == [] then newState == state && newError == error
    else newError == used[|used| - 1].error && Tells(newState, newError)
  }

  lemma UsedFront(script: seq<Answer>, rest: seq<Answer>)
    requires script != [] && script[1..] == Used(script[1..], rest) + rest
    ensures script == Used(script, rest) + rest
    ensures Used(script, rest) == [script[0]] + Used(script[1..], rest)
  {
    assert script == [script[0]] + script[1..];
  }

  lemma UsedNone(script: seq<Answer>)
    ensures Used(script, script) == [] && script == Used(script, script) + script
  {
  }

  /** The send loop takes its answers from the front of the schedule and notes the last one; every
      answer before it meant `in_progress`. */
  lemma {:induction false} SendOnAnswers(size: nat, l: SendLoop, script: seq<Answer>)
    requires !l.returned && SendOn(size, l, script).0.returned
    ensures var (r, rest) := SendOn(size, l, script);
            var used := Used(script, rest);
            && script == used + rest
            && Noted(used, l.state, l.error, r.state, r.error)
            && (forall i | 0 <= i < |used| - 1 :: used[i].error in {WouldBlock, AlreadyInProgress})
    decreases |script|
  {
    hide ToState, Tells, Grant, Used;
    UsedNone(script);
    if SendRemainder(size, l.pos) > 0 && script != [] {
      var next := Pass(size, l, script[0]);
      StateTellsError(script[0].error);
      UsedNone(script[1..]);
      if !next.returned {
        SendOnAnswers(size, next, script[1..]);
      }
      UsedFront(script, SendOn(size, next, script[1..]).1);
    }
  }

  /** The schedule of the send loop: what the first call, if there is one, leaves of it. */
  function Looped(pos: int, script: seq<Answer>): seq<Answer> {
    if pos == -1 && script != [] then script[1..] else script
  }

  /** The same for a whole send. The first call for a packet that was not partly sent leaves no trace
      in state or error, however it ends. */
  lemma SendAnswers(size: nat, pos: int, error: SocketError, script: seq<Answer>)
    requires SendRun(size, pos, error, script).0.returned
    ensures var (r, rest) := SendRun(size, pos, error, script);
            var used := Used(Looped(pos, script), rest);
            && Looped(pos, script) == used + rest
            && Noted(used, Done, error, r.state, r.error)
            && (forall i | 0 <= i < |used| - 1 :: used[i].error in {WouldBlock, AlreadyInProgress})
  {
    hide SendOn, Noted;
    var count := Grant(Head(script), size);
    if pos == -1 {
      SendOnAnswers(size, SendLoop(false, if count > 0 then count else -1, Done, error), Rest(script));
    } else {
      SendOnAnswers(size, SendLoop(false, pos, Done, error), script);
    }
  }

  /** From position `pos` on, no call is both short of what was asked and reported with an error code
      that means `done`; a call that is short with one that ends the loop is the last. */
  ghost predicate NoQuietShortfall(size: nat, pos: int, script: seq<Answer>)
    decreases |script|
  {
    pos >= size || script == [] ||
    (var a, next := script[0], pos + Max(Grant(script[0], size - pos), 0);
     next < size ==>
       && a.error !in {NoError, IsConnected}
       && (a.error in {WouldBlock, AlreadyInProgress} ==> NoQuietShortfall(size, next, script[1..])))
  }

  lemma {:induction false} SendOnSound(size: nat, l: SendLoop, script: seq<Answer>)
    requires 1 <= l.pos <= size && !l.returned && l.state in {Done, InProgress}
    requires SendOn(size, l, script).0.returned
    ensures var r := SendOn(size, l, script).0;
            && (r.state == InProgress ==> r.pos == size)
            && (r.state == Done ==> (r.pos == size <==> NoQuietShortfall(size, l.pos, script)))
    decreases |script|
  {
    if SendRemainder(size, l.pos) <= 0 || script == [] {
    } else {
      var next := Pass(size, l, script[0]);
      if !next.returned {
        SendOnSound(size, next, script[1..]);
      }
    }
  }

  /** What a result of `Socket::send` says about a packet that was not partly sent before.
      `in_progress` always means that every byte was handed over. `done` means it exactly when the
      first call took at least one byte and no later call fell short quietly. */
  lemma SendSoundness(size: nat, error: SocketError, script: seq<Answer>)
    requires size > 0 && SendRun(size, -1, error, script).0.returned
    ensures var r, first := SendRun(size, -1, error, script).0, Grant(Head(script), size);
            && (r.state == InProgress ==> r.pos == size)
            && (r.state == Done ==>
                (r.pos == size <==>
                 first > 0 && NoQuietShortfall(size, first, Rest(script))))
  {
    var first := Grant(Head(script), size);
    if first > 0 {
      SendOnSound(size, SendLoop(false, first, Done, error), Rest(script));
    }
  }

  /** A concrete schedule on which `send` reports `done` with nothing handed over. */
  lemma DoneMayMeanNothingSent()
    ensures var r := SendRun(10, -1, NoError, [Answer(-1, ConnectionReset)]).0;
            r.returned && r.state == Done && r.pos == -1
  {
  }

  /** An answer that neither moves a byte nor ends the loop. */
  predicate Stalled(a: Answer) {
    a.count <= 0 && ToState(a.error) == InProgress
  }

  function Unstalled(script: seq<Answer>): nat {
    if script == [] then 0 else (if Stalled(script[0]) then 0 else 1) + Unstalled(script[1..])
  }

  /** The send loop has returned once the schedule has given as many answers that do not stall as
      there are bytes left. */
  lemma {:induction false} SendReturns(size: nat, l: SendLoop, script: seq<Answer>)
    requires SendRemainder(size, l.pos) <= Unstalled(script)
    ensures SendOn(size, l, script).0.returned
    decreases |script|
  {
    if l.returned || SendRemainder(size, l.pos) <= 0 || script == [] {
    } else {
      var next := Pass(size, l, script[0]);
      if !next.returned {
        SendReturns(size, next, script[1..]);
      }
    }
  }

  // ---------------------------------------------------------------------------
  // Receiving over TCP

  /** How a receive ended, and what it left. */
  datatype Reception = Reception(outcome: Outcome<SocketState>, packet: PacketState, link: Link)

  /** A receive that is not in the middle of a packet starts from a cleared one. */
  function Ready(p: PacketState): PacketState {
    if p.recvPos < 0 && p.recvTarget < 0 then Cleared(p) else p
  }

  /** The payload length a receive works towards (negative when there is none), and the connection
      once the header, if it was due, has been asked for. */
  function HeaderPhase(target: int, l: Link): (int, Link) {
    if target >= 0 then (target, l) else
    var (count, bytes, next) := RecvBytes(l, HEADER);
    (if count == HEADER && FromLe(bytes) > 0 then FromLe(bytes) else target, next)
  }

  /** The packet after the body call delivered `bytes`: they lie right behind the header, wherever
      an earlier call had stopped, and the packet is complete when they fill it. */
  function BodyPhase(p: PacketState, bytes: seq<byte>): PacketState
    requires HEADER + |bytes| <= |p.data|
  {
    var filled := p.(data := p.data[..HEADER] + bytes + p.data[HEADER + |bytes|..]);
    if |bytes| == p.recvTarget then filled.(recvPos := -1, recvTarget := -1)
    else filled.(recvPos := HEADER + |bytes|)
  }

  function Receive(p: PacketState, l: Link): Reception {
    var (target, l1) := HeaderPhase(Ready(p).recvTarget, l);
    var ready := Ready(p).(recvTarget := target);
    if target <= 0 then Reception(Returned(ToState(l1.error)), ready, l1) else
    var resized := Resize(ready, target + HEADER);
    if resized.outcome.Threw? then Reception(Threw, resized.next, l1) else
    var (_, bytes, l2) := RecvBytes(l1, target);
    Reception(Returned(ToState(l2.error)), BodyPhase(resized.next, bytes), l2)
  }

  ghost predicate Idle(p: PacketState) {
    p.recvPos == -1 && p.recvTarget == -1
  }

  /** Between two receives: not in the middle of a packet, or in the middle of one whose length the
      header and the buffer agree on. */
  ghost predicate Receiving(p: PacketState) {
    Idle(p) ||
    (&& 0 < p.recvTarget <= MAX_PAYLOAD
     && |p.data| == p.recvTarget + HEADER
     && FromLe(p.data[..HEADER]) == p.recvTarget
     && HEADER <= p.recvPos < |p.data|
     && p.readPos == HEADER && p.writePos == HEADER)
  }

  function Target(p: PacketState, l: Link): int {
    HeaderPhase(Ready(p).recvTarget, l).0
  }

  /** The body bytes a receive is given. */
  function Body(p: PacketState, l: Link): seq<byte> {
    var (target, l1) := HeaderPhase(Ready(p).recvTarget, l);
    if target <= 0 then [] else RecvBytes(l1, target).1
  }

  /** The packet a whole body makes. */
  function Framed(p: PacketState, body: seq<byte>): PacketState {
    PacketState(Le(HEADER, |body|) + body, HEADER, HEADER, p.sendPos, -1, -1)
  }

  lemma TargetRange(p: PacketState, l: Link)
    requires Receiving(p)
    ensures Target(p, l) == -1 || 0 < Target(p, l) < 0x1_0000
    ensures p.recvTarget > 0 ==> Target(p, l) == p.recvTarget
  {
    Pow256Values();
    FromLeThenLe(RecvBytes(l, HEADER).1);
  }

  lemma ResizedForBody(p: PacketState, target: nat)
    requires Receiving(p) && 0 < target <= MAX_PAYLOAD && (p.recvTarget > 0 ==> target == p.recvTarget)
    ensures var ready := Ready(p).(recvTarget := target);
            var r := Resize(ready, target + HEADER);
            && r.outcome.Returned?
            && r.next == ready.(data := r.next.data)
            && |r.next.data| == target + HEADER
            && r.next.data[..HEADER] == Le(HEADER, target)
            && r.next.readPos == HEADER && r.next.writePos == HEADER
  {
  }

  lemma BodyPhaseExactly(p: PacketState, bytes: seq<byte>)
    requires 0 < p.recvTarget <= MAX_PAYLOAD && |p.data| == p.recvTarget + HEADER
    requires p.data[..HEADER] == Le(HEADER, p.recvTarget) && |bytes| <= p.recvTarget
    requires p.readPos == HEADER && p.writePos == HEADER
    ensures Receiving(BodyPhase(p, bytes))
    ensures if |bytes| == p.recvTarget then BodyPhase(p, bytes) == Framed(p, bytes)
            else BodyPhase(p, bytes).recvTarget == p.recvTarget && !Idle(BodyPhase(p, bytes))
    ensures BodyPhase(p, bytes).data[HEADER..HEADER + |bytes|] == bytes
  {
    Pow256Values();
    LeThenFromLe(HEADER, p.recvTarget);
    var data := BodyPhase(p, bytes).data;
    assert data[..HEADER] == p.data[..HEADER];
    if |bytes| == p.recvTarget {
      assert p.data[HEADER + |bytes|..] == [];
    }
  }

  /** One receive. It throws exactly when the length in the header leaves no room for the header
      itself in 65535 bytes. Otherwise it keeps the receive state consistent, and a packet is
      completed exactly when the body call delivers all of it at once, and then holds just that. The
      result says nothing about completion: it is the state of the last error code. */
  lemma ReceiveStep(p: PacketState, l: Link)
    requires Receiving(p)
    ensures var r, target, body := Receive(p, l), Target(p, l), Body(p, l);
            && (r.outcome.Threw? <==> target > MAX_PAYLOAD)
            && (r.outcome.Returned? ==>
                Receiving(r.packet) && Tells(r.outcome.value, r.link.error))
            && (target > MAX_PAYLOAD ==> r.packet.Full() && r.packet.recvTarget == target)
            && (target < 0 ==> r.packet == Cleared(p) && Idle(r.packet))
            && (0 < target <= MAX_PAYLOAD ==>
                if |body| == target then r.packet == Framed(p, body)
                else r.packet.recvTarget == target && !Idle(r.packet)
                     && |r.packet.data| == target + HEADER
                     && r.packet.data[HEADER..HEADER + |body|] == body)
  {
    TargetRange(p, l);
    StateTellsError(Receive(p, l).link.error);
    hide ToState, Tells;
    var target := Target(p, l);
    if 0 < target <= MAX_PAYLOAD {
      ResizedForBody(p, target);
      BodyPhaseExactly(Resize(Ready(p).(recvTarget := target), target + HEADER).next, Body(p, l));
    }
  }

  /** The length a receive works towards when it has none yet: the one in the next two bytes of the
      stream, low byte first, if both are delivered and it is not 0. */
  lemma HeaderRead(p: PacketState, l: Link)
    requires Idle(p)
    ensures var count := Grant(Head(l.script), Min(2, |l.inbound|));
            Target(p, l) ==
            if count < 2 then -1 else
            var length := l.inbound[0] as int + 256 * l.inbound[1] as int;
            if length > 0 then length else -1
  {
    if Grant(Head(l.script), Min(2, |l.inbound|)) == 2 {
      TwoBytes(l.inbound[..2]);
    }
  }

  /** A receive that is given only a part of the body, or nothing of it: that part lies right behind
      the header, and behind it zeroes if the packet was begun by this call and otherwise what was
      there. */
  lemma PartialReceive(p: PacketState, l: Link)
    requires Receiving(p) && 0 < Target(p, l) <= MAX_PAYLOAD && |Body(p, l)| < Target(p, l)
    ensures var q, body, target := Receive(p, l).packet, Body(p, l), Target(p, l);
            && q == PacketState(q.data, 2, 2, p.sendPos, 2 + |body|, target)
            && |q.data| == target + 2 && q.data[..2] == Le(2, target)
            && q.data[2..2 + |body|] == body
            && forall i | 2 + |body| <= i < |q.data| :: q.data[i] == if Idle(p) then 0 else p.data[i]
  {
    TargetRange(p, l);
    ResizedForBody(p, Target(p, l));
    var ready := Ready(p).(recvTarget := Target(p, l));
    ResizeExactly(ready, Target(p, l) + HEADER);
    BodyPhaseExactly(Resize(ready, Target(p, l) + HEADER).next, Body(p, l));
    hide Resize;
  }

  /** The packets left by receives in a row, and where the last one left the connection. */
  datatype Session = Session(packets: seq<PacketState>, last: PacketState, link: Link)

  /** `n` receives in a row, unless one throws. */
  function Receives(p: PacketState, l: Link, n: nat): Option<Session>
    decreases n
  {
    if n == 0 then Some(Session([], p, l)) else
    var r := Receive(p, l);
    if r.outcome.Threw? then None else
    var rest := Receives(r.packet, r.link, n - 1);
    if rest.None? then None
    else Some(rest.value.(packets := [r.packet] + rest.value.packets))
  }

  /** Over any number of receives and any answers of the system, as long as none throws, the receive
      state is consistent after every one of them. */
  lemma {:induction false} ReceivesStayConsistent(p: PacketState, l: Link, n: nat)
    requires Receiving(p) && Receives(p, l, n).Some?
    ensures Receiving(Receives(p, l, n).value.last)
    ensures forall q | q in Receives(p, l, n).value.packets :: Receiving(q)
    decreases n
  {
    hide Receive, Receiving;
    if n == 0 {
    } else {
      ReceiveStep(p, l);
      var r := Receive(p, l);
      ReceivesStayConsistent(r.packet, r.link, n - 1);
    }
  }

  /** A receive that has read a length for which there is no room is stuck: every further one throws
      before it asks for anything, and neither it nor `clear` forgets the length. */
  ghost predicate Stuck(p: PacketState) {
    p.recvTarget > MAX_PAYLOAD
  }

  lemma StuckReceiveThrows(p: PacketState, l: Link)
    requires Stuck(p)
    ensures var r := Receive(p, l);
            && r.outcome.Threw? && r.link == l && r.packet.recvTarget == p.recvTarget
            && r.packet.Full() && Stuck(Cleared(r.packet))
  {
  }

  lemma ReceiveOrStuck(p: PacketState, l: Link)
    requires Receiving(p)
    ensures Receiving(Receive(p, l).packet) || Stuck(Receive(p, l).packet)
  {
    hide Receive, Receiving;
    ReceiveStep(p, l);
  }

  /** `n` receives in a row whose exceptions the caller catches. */
  function ReceivesCaught(p: PacketState, l: Link, n: nat): (PacketState, Link)
    decreases n
  {
    if n == 0 then (p, l) else
    var r := Receive(p, l);
    ReceivesCaught(r.packet, r.link, n - 1)
  }

  /** A stuck receive stays stuck, on the same length, and takes not another byte from the stream. */
  lemma {:induction false} StuckForever(p: PacketState, l: Link, n: nat)
    requires Stuck(p)
    ensures var (q, m) := ReceivesCaught(p, l, n);
            Stuck(q) && q.recvTarget == p.recvTarget && m == l
    decreases n
  {
    if n == 0 {
    } else {
      StuckReceiveThrows(p, l);
      var r := Receive(p, l);
      StuckForever(r.packet, r.link, n - 1);
    }
  }

  /** Over any number of receives, any answers and any bytes, exceptions caught, the receive state is
      consistent, or it is stuck on a length above 65533. */
  lemma {:induction false} CaughtReceives(p: PacketState, l: Link, n: nat)
    requires Receiving(p)
    ensures Receiving(ReceivesCaught(p, l, n).0) || Stuck(ReceivesCaught(p, l, n).0)
    decreases n
  {
    hide Receive, Receiving;
    if n == 0 {
    } else {
      ReceiveOrStuck(p, l);
      var r := Receive(p, l);
      if Receiving(r.packet) {
        CaughtReceives(r.packet, r.link, n - 1);
      } else {
        StuckForever(r.packet, r.link, n - 1);
      }
    }
  }

  /** A concrete receive that reports `done` with nothing received but half a header. */
  lemma DoneMayMeanNoPacket()
    ensures var r := Receive(NewPacket(), Link([Answer(1, NoError)], [], [5, 0, 7], NoError));
            && r.outcome == Returned(Done) && r.packet.Empty() && Idle(r.packet)
            && r.link.inbound == [0, 7]
  {
    assert [5, 0, 7][1..] == [0, 7];
  }

  /** A body that arrives in two parts is not put together: after both, the packet is still
      incomplete, and the second part lies where the first one was. */
  lemma SplitBodyIsLost(p: PacketState, l: Link, first: Reception, second: Reception)
    requires Receiving(p) && first == Receive(p, l) && second == Receive(first.packet, first.link)
    requires 0 < |Body(p, l)| < Target(p, l) <= MAX_PAYLOAD
    requires 0 < |Body(first.packet, first.link)| == Target(p, l) - |Body(p, l)|
    ensures var part := Body(first.packet, first.link);
            && !Idle(second.packet) && second.packet.recvTarget == Target(p, l)
            && |second.packet.data| == Target(p, l) + HEADER
            && second.packet.data[HEADER..HEADER + |part|] == part
  {
    ReceiveStep(p, l);
    hide Receive, BodyPhase, Framed, Resize;
    TargetRange(first.packet, first.link);
    ReceiveStep(first.packet, first.link);
  }

  // ---------------------------------------------------------------------------
  // Framing

  /** The buffer of a valid packet with a payload of 1 to 65533 bytes. */
  ghost predicate IsFrame(f: seq<byte>) {
    HEADER < |f| <= MAX_PAYLOAD + HEADER && FromLe(f[..HEADER]) == |f| - HEADER
  }

  ghost predicate AreFrames(fs: seq<seq<byte>>) {
    forall i | 0 <= i < |fs| :: IsFrame(fs[i])
  }

  function Concat(fs: seq<seq<byte>>): seq<byte> {
    if fs == [] then [] else fs[0] + Concat(fs[1..])
  }

  /** The next `n` native calls each return all they are asked for, as far as the stream goes. */
  predicate Generous(script: seq<Answer>, n: nat) {
    n <= |script| && forall i | 0 <= i < n :: script[i].count >= DATAGRAM_SIZE
  }

  /** A received packet that holds the buffer `f`, ready to be read from the start. */
  predicate Carries(q: PacketState, f: seq<byte>) {
    q.data == f && q.readPos == q.writePos == HEADER && q.recvPos == q.recvTarget == -1
  }

  lemma FrameArrives(p: PacketState, l: Link, f: seq<byte>, rest: seq<byte>)
    requires Idle(p) && IsFrame(f) && l.inbound == f + rest && Generous(l.script, 2)
    ensures var r := Receive(p, l);
            && r.outcome.Returned? && Carries(r.packet, f)
            && r.link.inbound == rest && r.link.script == l.script[2..]
  {
    var (count, bytes, l1) := RecvBytes(l, HEADER);
    assert l.inbound[..HEADER] == f[..HEADER];
    assert l1.inbound == f[HEADER..] + rest;
    var target := |f| - HEADER;
    assert HeaderPhase(-1, l) == (target, l1);
    assert l1.inbound[..target] == f[HEADER..] && l1.inbound[target..] == rest;
    ReceiveStep(p, l);
    FromLeThenLe(f[..HEADER]);
    assert f == Le(HEADER, target) + f[HEADER..];
  }

  /** Framing is decodable: receiving from the concatenated buffers of any packets, each native call
      returning the full count asked for, yields the same buffers in order, uses up exactly their
      bytes, and leaves no packet half received. */
  lemma {:induction false} FramesArrive(p: PacketState, l: Link, fs: seq<seq<byte>>, rest: seq<byte>)
    requires Idle(p) && AreFrames(fs) && l.inbound == Concat(fs) + rest
    requires Generous(l.script, 2 * |fs|)
    ensures var run := Receives(p, l, |fs|);
            && run.Some? && |run.value.packets| == |fs|
            && (forall i | 0 <= i < |fs| :: Carries(run.value.packets[i], fs[i]))
            && Idle(run.value.last) && run.value.link.inbound == rest
    decreases |fs|
  {
    hide Receive, IsFrame;
    if fs == [] {
    } else {
      assert l.inbound == fs[0] + (Concat(fs[1..]) + rest);
      FrameArrives(p, l, fs[0], Concat(fs[1..]) + rest);
      var r := Receive(p, l);
      FramesArrive(r.packet, r.link, fs[1..], rest);
    }
  }

  lemma FirstFrameIsUnique(f: seq<byte>, g: seq<byte>, rest1: seq<byte>, rest2: seq<byte>)
    requires IsFrame(f) && IsFrame(g) && f + rest1 == g + rest2
    ensures f == g && rest1 == rest2
  {
    assert (f + rest1)[..HEADER] == f[..HEADER] && (g + rest2)[..HEADER] == g[..HEADER];
    assert |f| == |g|;
    hide FromLe, IsFrame;
    assert (f + rest1)[..|f|] == f && (g + rest2)[..|g|] == g;
    assert (f + rest1)[|f|..] == rest1 && (g + rest2)[|g|..] == rest2;
  }

  lemma NoFramesNoBytes(fs: seq<seq<byte>>)
    requires AreFrames(fs)
    ensures Concat(fs) == [] <==> fs == []
    ensures fs != [] ==> Concat(fs) == fs[0] + Concat(fs[1..]) && IsFrame(fs[0]) && AreFrames(fs[1..])
  {
    if fs != [] {
      assert IsFrame(fs[0]) && |Concat(fs)| >= |fs[0]|;
    }
  }

  lemma AppendAssociates(a: seq<byte>, b: seq<byte>, c: seq<byte>)
    ensures (a + b) + c == a + (b + c)
  {
  }

  lemma BytesMeanFrames(got: seq<seq<byte>>, rest: seq<byte>, fs: seq<seq<byte>>)
    requires AreFrames(got) && got != [] && Concat(got) + rest == Concat(fs)
    ensures fs != []
  {
    NoFramesNoBytes(got);
    hide IsFrame;
    assert |Concat(fs)| >= |Concat(got)| > 0;
  }

  lemma FrontFrameIsUnique(got: seq<seq<byte>>, rest: seq<byte>, fs: seq<seq<byte>>)
    requires AreFrames(got) && AreFrames(fs) && got != [] && Concat(got) + rest == Concat(fs)
    ensures fs != [] && got[0] == fs[0] && Concat(got[1..]) + rest == Concat(fs[1..])
  {
    BytesMeanFrames(got, rest, fs);
    NoFramesNoBytes(got);
    NoFramesNoBytes(fs);
    hide IsFrame, AreFrames, Concat;
    AppendAssociates(got[0], Concat(got[1..]), rest);
    FirstFrameIsUnique(got[0], fs[0], Concat(got[1..]) + rest, Concat(fs[1..]));
  }

  /** A stream of frames can be cut into frames in one way only, from the front. */
  lemma {:induction false} FramePrefixIsUnique(got: seq<seq<byte>>, rest: seq<byte>, fs: seq<seq<byte>>)
    requires AreFrames(got) && AreFrames(fs) && Concat(got) + rest == Concat(fs)
    ensures |got| <= |fs| && got == fs[..|got|] && rest == Concat(fs[|got|..])
    decreases |got|
  {
    hide IsFrame;
    if got == [] {
      assert fs[0..] == fs && [] + rest == rest;
    } else {
      FrontFrameIsUnique(got, rest, fs);
      FramePrefixIsUnique(got[1..], rest, fs[1..]);
      hide Concat;
      assert got == [got[0]] + got[1..];
      assert fs[..|got|] == [fs[0]] + fs[1..][..|got| - 1];
      assert fs[|got|..] == fs[1..][|got| - 1..];
    }
  }

  /** Framing is uniquely decodable: two lists of frames that make the same stream are the same. */
  lemma FramesAreUnique(a: seq<seq<byte>>, b: seq<seq<byte>>)
    requires AreFrames(a) && AreFrames(b) && Concat(a) == Concat(b)
    ensures a == b
  {
    hide IsFrame, Concat;
    assert Concat(a) + [] == Concat(b) && Concat(b) + [] == Concat(a);
    FramePrefixIsUnique(a, [], b);
    FramePrefixIsUnique(b, [], a);
    assert b[..|b|] == b;
  }

  ghost predicate Completed(q: PacketState) {
    Idle(q) && !q.Empty()
  }

  lemma HeaderTaken(l: Link)
    requires RecvBytes(l, HEADER).0 == HEADER
    ensures var (_, header, l1) := RecvBytes(l, HEADER);
            && header == Le(HEADER, FromLe(header)) && FromLe(header) < 0x1_0000
            && l.inbound == header + l1.inbound
  {
    var (_, header, l1) := RecvBytes(l, HEADER);
    Pow256Values();
    FromLeThenLe(header);
    assert l.inbound == l.inbound[..HEADER] + l.inbound[HEADER..];
  }

  lemma BodyTaken(l: Link, room: nat)
    ensures var (_, bytes, next) := RecvBytes(l, room);
            l.inbound == bytes + next.inbound
  {
    var n := |RecvBytes(l, room).1|;
    assert l.inbound == l.inbound[..n] + l.inbound[n..];
  }

  lemma FramedIsFrame(p: PacketState, body: seq<byte>)
    requires 0 < |body| <= MAX_PAYLOAD
    ensures IsFrame(Framed(p, body).data) && Carries(Framed(p, body), Framed(p, body).data)
  {
    Pow256Values();
    LeThenFromLe(HEADER, |body|);
    assert (Le(HEADER, |body|) + body)[..HEADER] == Le(HEADER, |body|);
  }

  /** A receive that starts and completes a packet has consumed exactly that packet's buffer. */
  lemma CompletedReceive(p: PacketState, l: Link)
    requires Idle(p) && Receive(p, l).outcome.Returned? && Completed(Receive(p, l).packet)
    ensures var r := Receive(p, l);
            && l.inbound == r.packet.data + r.link.inbound && IsFrame(r.packet.data)
            && Carries(r.packet, r.packet.data)
  {
    TargetRange(p, l);
    ReceiveStep(p, l);
    var target, l1 := Target(p, l), HeaderPhase(-1, l).1;
    HeaderTaken(l);
    BodyTaken(l1, target);
    FramedIsFrame(p, Body(p, l));
    assert Receive(p, l).link == RecvBytes(l1, target).2;
    hide Receive, IsFrame, Carries, Le, FromLe, RecvBytes;
    assert Le(HEADER, target) + (Body(p, l) + Receive(p, l).link.inbound)
           == (Le(HEADER, target) + Body(p, l)) + Receive(p, l).link.inbound;
  }

  // ---------------------------------------------------------------------------
  // Staying in step with the stream

  /** The stream from the header of the packet in hand on. */
  function Outstanding(p: PacketState, l: Link): seq<byte> {
    if p.recvTarget > 0 then Le(HEADER, p.recvTarget) + l.inbound else l.inbound
  }

  /** The receiver stands at the beginning of the frames `fs`, or at the body of the first one. */
  ghost predicate InStep(p: PacketState, l: Link, fs: seq<seq<byte>>) {
    AreFrames(fs) && Receiving(p) && Outstanding(p, l) == Concat(fs)
  }

  /** A native receive of the call takes some of what it asked for but not all of it: one byte of
      the header, or a part of the body. A call that would block or fails takes nothing. */
  ghost predicate Short(p: PacketState, l: Link) {
    || (Ready(p).recvTarget < 0 && RecvBytes(l, HEADER).0 == 1)
    || 0 < |Body(p, l)| < Target(p, l)
  }

  /** The frames still to come after a receive left `q`. */
  function Left(q: PacketState, fs: seq<seq<byte>>): seq<seq<byte>> {
    if q.recvPos == q.recvTarget == -1 && !q.Empty() && fs != [] then fs[1..] else fs
  }

  /** A body call at the body of the first frame. */
  lemma BodyInStep(target: nat, l: Link, fs: seq<seq<byte>>)
    requires AreFrames(fs) && 0 < target < 0x1_0000 && Le(HEADER, target) + l.inbound == Concat(fs)
    ensures fs != [] && target == |fs[0]| - HEADER <= MAX_PAYLOAD
    ensures var (_, body, next) := RecvBytes(l, target);
            if |body| == target then Le(HEADER, target) + body == fs[0] && next.inbound == Concat(fs[1..])
            else Le(HEADER, target) + next.inbound == Concat(fs) <==> body == []
  {
    NoFramesNoBytes(fs);
    var (_, body, next) := RecvBytes(l, target);
    BodyTaken(l, target);
    var header, f, tail := Le(HEADER, target), fs[0], Concat(fs[1..]);
    assert FromLe(header) == target by {
      Pow256Values();
      LeThenFromLe(HEADER, target);
    }
    assert (header + l.inbound)[..HEADER] == header && (f + tail)[..HEADER] == f[..HEADER];
    assert |f| == target + HEADER;
    hide IsFrame, Le, FromLe, RecvBytes, Concat;
    if |body| == target {
      assert header + l.inbound == (header + body) + next.inbound;
      assert (header + body + next.inbound)[..|f|] == header + body && (f + tail)[..|f|] == f;
      assert (header + body + next.inbound)[|f|..] == next.inbound && (f + tail)[|f|..] == tail;
    } else if body == [] {
      assert [] + next.inbound == next.inbound;
    } else {
      assert |header + next.inbound| < |header + l.inbound|;
    }
  }

  /** Receiving stays in step with the frames of the stream exactly as long as no native receive is
      short. Calls that would block or fail, at the header or at the body, any number of times, do
      no harm; and no receive that was in step completes anything but the next frame. */
  lemma StepStaysInStep(p: PacketState, l: Link, fs: seq<seq<byte>>)
    requires InStep(p, l, fs)
    ensures var r := Receive(p, l);
            && r.outcome.Returned?
            && (InStep(r.packet, r.link, Left(r.packet, fs)) <==> !Short(p, l))
            && (Completed(r.packet) ==> fs != [] && Carries(r.packet, fs[0]))
  {
    if p.recvTarget > 0 {
      MidStepStaysInStep(p, l, fs);
    } else if RecvBytes(l, HEADER).0 == HEADER {
      FullHeaderStaysInStep(p, l, fs);
    } else {
      NoHeaderStaysInStep(p, l, fs);
    }
  }

  lemma NoHeaderStaysInStep(p: PacketState, l: Link, fs: seq<seq<byte>>)
    requires InStep(p, l, fs) && Idle(p) && RecvBytes(l, HEADER).0 != HEADER
    ensures var r := Receive(p, l);
            && r.outcome.Returned? && r.packet == Cleared(p) && !Completed(r.packet)
            && Left(r.packet, fs) == fs
            && (InStep(r.packet, r.link, fs) <==> !Short(p, l))
  {
    ReceiveStep(p, l);
    BodyTaken(l, HEADER);
    var next := Receive(p, l).link;
    assert next == RecvBytes(l, HEADER).2;
    assert |l.inbound| == |RecvBytes(l, HEADER).1| + |next.inbound|;
    assert RecvBytes(l, HEADER).1 == [] ==> next.inbound == l.inbound;
  }

  /** The body half of a receive, in step, for a packet whose length is known. */
  lemma BodyHalfStaysInStep(p: PacketState, target: nat, l: Link, l1: Link, fs: seq<seq<byte>>)
    requires Receiving(p) && AreFrames(fs) && 0 < target < 0x1_0000
    requires HeaderPhase(Ready(p).recvTarget, l) == (target, l1)
    requires Le(HEADER, target) + l1.inbound == Concat(fs)
    ensures var r, body := Receive(p, l), Body(p, l);
            && r.outcome.Returned?
            && (InStep(r.packet, r.link, Left(r.packet, fs)) <==> !(0 < |body| < target))
            && (Completed(r.packet) ==> fs != [] && Carries(r.packet, fs[0]))
  {
    BodyInStep(target, l1, fs);
    NoFramesNoBytes(fs);
    ReceiveStep(p, l);
    var r, body := Receive(p, l), Body(p, l);
    assert r.link == RecvBytes(l1, target).2 && body == RecvBytes(l1, target).1;
    hide Receive, Body, IsFrame, Le, FromLe, RecvBytes, Concat;
    if |body| == target {
      assert r.packet == Framed(p, body) && Completed(r.packet);
      assert Outstanding(r.packet, r.link) == r.link.inbound;
    } else {
      assert Outstanding(r.packet, r.link) == Le(HEADER, target) + r.link.inbound;
      assert Left(r.packet, fs) == fs;
    }
  }

  lemma MidStepStaysInStep(p: PacketState, l: Link, fs: seq<seq<byte>>)
    requires InStep(p, l, fs) && p.recvTarget > 0
    ensures var r := Receive(p, l);
            && r.outcome.Returned?
            && (InStep(r.packet, r.link, Left(r.packet, fs)) <==> !Short(p, l))
            && (Completed(r.packet) ==> fs != [] && Carries(r.packet, fs[0]))
  {
    hide Receive, Body, IsFrame, Le, FromLe, RecvBytes, Concat;
    BodyHalfStaysInStep(p, p.recvTarget, l, l, fs);
  }

  lemma FullHeaderStaysInStep(p: PacketState, l: Link, fs: seq<seq<byte>>)
    requires InStep(p, l, fs) && Idle(p) && RecvBytes(l, HEADER).0 == HEADER
    ensures var r := Receive(p, l);
            && r.outcome.Returned?
            && (InStep(r.packet, r.link, Left(r.packet, fs)) <==> !Short(p, l))
            && (Completed(r.packet) ==> fs != [] && Carries(r.packet, fs[0]))
  {
    HeaderTaken(l);
    var (count, header, l1) := RecvBytes(l, HEADER);
    NoFramesNoBytes(fs);
    var f, tail := fs[0], Concat(fs[1..]);
    assert (header + l1.inbound)[..HEADER] == header && (f + tail)[..HEADER] == f[..HEADER];
    assert FromLe(header) == |f| - HEADER > 0;
    hide Receive, Body, IsFrame, Le, FromLe, RecvBytes, Concat;
    BodyHalfStaysInStep(p, FromLe(header), l, l1, fs);
  }

  /** No call of `n` receives is short. */
  ghost predicate NoShort(p: PacketState, l: Link, n: nat)
    decreases n
  {
    n == 0 || (!Short(p, l) && NoShort(Receive(p, l).packet, Receive(p, l).link, n - 1))
  }

  /** The receiver is in step before and after every one of `n` receives. */
  ghost predicate StaysInStep(p: PacketState, l: Link, fs: seq<seq<byte>>, n: nat)
    decreases n
  {
    && InStep(p, l, fs)
    && (n == 0 ||
        var r := Receive(p, l);
        StaysInStep(r.packet, r.link, Left(r.packet, fs), n - 1))
  }

  /** Those packets of a session that were completed. */
  ghost function Arrived(qs: seq<PacketState>): seq<PacketState> {
    if qs == [] then [] else (if Completed(qs[0]) then [qs[0]] else []) + Arrived(qs[1..])
  }

  /** The packets hold the first frames, in order. */
  ghost predicate HoldFirst(qs: seq<PacketState>, fs: seq<seq<byte>>) {
    |qs| <= |fs| && forall i | 0 <= i < |qs| :: Carries(qs[i], fs[i])
  }

  lemma HoldOneMore(q: PacketState, qs: seq<PacketState>, fs: seq<seq<byte>>)
    requires fs != [] && Carries(q, fs[0]) && HoldFirst(qs, fs[1..])
    ensures HoldFirst([q] + qs, fs) && fs[1..][|qs|..] == fs[|[q] + qs|..]
  {
    forall i | 0 <= i < |[q] + qs| ensures Carries(([q] + qs)[i], fs[i]) {
      if i > 0 {
        assert ([q] + qs)[i] == qs[i - 1] && fs[i] == fs[1..][i - 1];
      }
    }
  }

  lemma CompletedLeft(q: PacketState, fs: seq<seq<byte>>)
    ensures Left(q, fs) == if Completed(q) && fs != [] then fs[1..] else fs
  {
  }

  lemma NotInStep(p: PacketState, l: Link, fs: seq<seq<byte>>, n: nat)
    requires !InStep(p, l, fs)
    ensures !StaysInStep(p, l, fs, n)
  {
  }

  /** `n` receives have not thrown; the packets they completed are the first frames in order; and the
      receiver is in step with the other frames. */
  ghost predicate Brought(p: PacketState, l: Link, fs: seq<seq<byte>>, n: nat) {
    && Receives(p, l, n).Some?
    && var run := Receives(p, l, n).value;
       var arrived := Arrived(run.packets);
       HoldFirst(arrived, fs) && InStep(run.last, run.link, fs[|arrived|..])
  }

  lemma BroughtNothing(p: PacketState, l: Link, fs: seq<seq<byte>>)
    requires InStep(p, l, fs)
    ensures Brought(p, l, fs, 0)
  {
    assert fs[0..] == fs;
  }

  /** One more receive in front of a session. */
  lemma BroughtOneMore(p: PacketState, l: Link, fs: seq<seq<byte>>, n: nat)
    requires var r := Receive(p, l);
             && n > 0 && r.outcome.Returned?
             && Brought(r.packet, r.link, Left(r.packet, fs), n - 1)
             && (Completed(r.packet) ==> fs != [] && Carries(r.packet, fs[0]))
    ensures Brought(p, l, fs, n)
  {
    hide Receive, InStep, Carries, HoldFirst, Completed, Left;
    var r := Receive(p, l);
    var rest := Receives(r.packet, r.link, n - 1).value;
    var arrived := Arrived(rest.packets);
    CompletedLeft(r.packet, fs);
    assert ([r.packet] + rest.packets)[1..] == rest.packets;
    if Completed(r.packet) {
      HoldOneMore(r.packet, arrived, fs);
    } else {
      assert [] + arrived == arrived;
    }
  }

  /** Framing over whole runs. From any state in step with the frames of the stream, the receiver
      stays in step over `n` receives if and only if none of their native calls is short. It then
      never throws, the packets completed so far are the first frames in order, however often calls
      would block or fail in between, and the receiver is in step with the other frames. */
  lemma {:induction false} FramingStaysInStep(p: PacketState, l: Link, fs: seq<seq<byte>>, n: nat)
    requires InStep(p, l, fs)
    ensures StaysInStep(p, l, fs, n) <==> NoShort(p, l, n)
    ensures NoShort(p, l, n) ==> Brought(p, l, fs, n)
    decreases n
  {
    hide Receive, InStep, Short, Completed, Carries, Brought, Left, Receives, Arrived;
    if n == 0 {
      BroughtNothing(p, l, fs);
    } else {
      StepStaysInStep(p, l, fs);
      var r := Receive(p, l);
      if Short(p, l) {
        NotInStep(r.packet, r.link, Left(r.packet, fs), n - 1);
      } else {
        FramingStaysInStep(r.packet, r.link, Left(r.packet, fs), n - 1);
        if NoShort(r.packet, r.link, n - 1) {
          BroughtOneMore(p, l, fs, n);
        }
      }
    }
  }

  // ---------------------------------------------------------------------------
  // From values to values

  /** The connection after packets are sent one after the other, if each send hands over its whole
      packet. */
  function SendFrames(l: Link, fs: seq<seq<byte>>): Option<Link>
    decreases |fs|
  {
    if fs == [] then Some(l) else
    var (sent, script) := SendRun(|fs[0]|, -1, l.error, l.script);
    if !sent.returned || sent.pos != |fs[0]| then None else
    SendFrames(Link(script, l.wire + Handed(fs[0], -1, sent.pos), l.inbound, sent.error), fs[1..])
  }

  lemma {:induction false} SentFramesConcatenate(l: Link, fs: seq<seq<byte>>)
    requires SendFrames(l, fs).Some?
    ensures SendFrames(l, fs).value.wire == l.wire + Concat(fs)
    decreases |fs|
  {
    hide SendRun;
    if fs == [] {
    } else {
      var (sent, script) := SendRun(|fs[0]|, -1, l.error, l.script);
      assert Handed(fs[0], -1, sent.pos) == fs[0];
      SentFramesConcatenate(Link(script, l.wire + fs[0], l.inbound, sent.error), fs[1..]);
      assert (l.wire + fs[0]) + Concat(fs[1..]) == l.wire + (fs[0] + Concat(fs[1..]));
    }
  }

  /** Values that fill a packet. */
  ghost predicate IsMessage(vs: seq<Value>) {
    && vs != [] && AllWellTyped(vs) && AllStorable(vs)
    && |Images(vs)| <= MAX_PAYLOAD
  }

  /** The buffer of a fresh packet into which a message was written. */
  ghost function Packed(vs: seq<Value>): (f: seq<byte>)
    requires IsMessage(vs)
    ensures IsFrame(f)
  {
    PackedIsFrame(vs);
    PutAll(NewPacket(), vs).next.data
  }

  lemma ImageNonempty(v: Value)
    requires v.WellTyped()
    ensures |Image(v)| > 0
  {
  }

  lemma ImagesNonempty(vs: seq<Value>)
    requires vs != [] && AllWellTyped(vs)
    ensures |Images(vs)| > 0
  {
    ImageNonempty(vs[0]);
  }

  lemma PackedIsFrame(vs: seq<Value>)
    requires IsMessage(vs)
    ensures Coherent(NewPacket()) && PutAll(NewPacket(), vs).outcome.Returned?
    ensures var f := PutAll(NewPacket(), vs).next.data;
            IsFrame(f) && f[HEADER..] == Images(vs)
  {
    ImagesNonempty(vs);
    ClearedIsValid(NewPacket());
    hide PutAll, Images, Appended, Stamp;
    PutAllExactly(NewPacket(), vs);
    BuiltPayload(vs);
  }

  lemma CarriesValid(q: PacketState, f: seq<byte>)
    requires IsFrame(f) && Carries(q, f)
    ensures Valid(q) && Pending(q) == f[HEADER..]
  {
  }

  lemma PackedMessageReads(q: PacketState, vs: seq<Value>)
    requires IsMessage(vs) && Carries(q, Packed(vs))
    ensures ReadsBack(q, vs)
  {
    PackedIsFrame(vs);
    CarriesValid(q, Packed(vs));
    hide Packed, Images, PutAll, ReadsBack, Valid, Carries, IsFrame;
    ImagesReadBack(q, vs);
  }

  ghost predicate AreMessages(messages: seq<seq<Value>>) {
    forall i | 0 <= i < |messages| :: IsMessage(messages[i])
  }

  ghost function AllPacked(messages: seq<seq<Value>>): (fs: seq<seq<byte>>)
    requires AreMessages(messages)
    ensures |fs| == |messages| && AreFrames(fs)
    ensures forall i | 0 <= i < |messages| :: fs[i] == Packed(messages[i])
  {
    seq(|messages|, i requires 0 <= i < |messages| => Packed(messages[i]))
  }

  /** End to end: messages written to packets, sent one by one and received from the bytes that
      crossed, read back as they would from the packets they were written to: value for value, if and
      only if no string in them is empty or holds a zero byte. */
  lemma EndToEnd(messages: seq<seq<Value>>, sender: Link, p: PacketState, receiver: Link)
    requires AreMessages(messages)
    requires sender.wire == [] && SendFrames(sender, AllPacked(messages)).Some?
    requires receiver.inbound == SendFrames(sender, AllPacked(messages)).value.wire
    requires Idle(p) && Generous(receiver.script, 2 * |messages|)
    ensures var run := Receives(p, receiver, |messages|);
            && run.Some? && |run.value.packets| == |messages|
            && (forall i | 0 <= i < |messages| :: ReadsBack(run.value.packets[i], messages[i]))
            && run.value.link.inbound == []
  {
    hide IsMessage, Packed, Receives, SendFrames, ReadsBack, IsFrame;
    var fs := AllPacked(messages);
    SentFramesConcatenate(sender, fs);
    assert receiver.inbound == Concat(fs) + [];
    FramesArrive(p, receiver, fs, []);
    var packets := Receives(p, receiver, |messages|).value.packets;
    forall i | 0 <= i < |messages| ensures ReadsBack(packets[i], messages[i]) {
      assert Carries(packets[i], fs[i]);
      PackedMessageReads(packets[i], messages[i]);
    }
  }

  /** The packets read back as the first messages, in order. */
  ghost predicate ReadFirst(qs: seq<PacketState>, messages: seq<seq<Value>>) {
    |qs| <= |messages| && forall i | 0 <= i < |qs| :: ReadsBack(qs[i], messages[i])
  }

  /** `n` receives have not thrown; the packets they completed are the first messages; and when the
      stream is used up and no packet is in hand, they are all of them. */
  ghost predicate Delivers(p: PacketState, l: Link, messages: seq<seq<Value>>, n: nat) {
    && Receives(p, l, n).Some?
    && var run := Receives(p, l, n).value;
       var arrived := Arrived(run.packets);
       && ReadFirst(arrived, messages)
       && (run.link.inbound == [] && Idle(run.last) ==> |arrived| == |messages|)
  }

  lemma HeldMessagesRead(qs: seq<PacketState>, messages: seq<seq<Value>>)
    requires AreMessages(messages) && HoldFirst(qs, AllPacked(messages))
    ensures ReadFirst(qs, messages)
  {
    var fs := AllPacked(messages);
    hide IsMessage, Packed, ReadsBack, IsFrame, Carries;
    forall i | 0 <= i < |qs| ensures ReadsBack(qs[i], messages[i]) {
      assert Carries(qs[i], fs[i]);
      PackedMessageReads(qs[i], messages[i]);
    }
  }

  lemma NothingLeft(p: PacketState, l: Link, fs: seq<seq<byte>>)
    requires InStep(p, l, fs) && l.inbound == [] && Idle(p)
    ensures fs == []
  {
    NoFramesNoBytes(fs);
  }

  lemma BroughtDelivers(p: PacketState, l: Link, messages: seq<seq<Value>>, n: nat)
    requires AreMessages(messages) && Brought(p, l, AllPacked(messages), n)
    ensures Delivers(p, l, messages, n)
  {
    hide Receives, Arrived, InStep, ReadFirst;
    var run := Receives(p, l, n).value;
    var arrived := Arrived(run.packets);
    HeldMessagesRead(arrived, messages);
    if run.link.inbound == [] && Idle(run.last) {
      NothingLeft(run.last, run.link, AllPacked(messages)[|arrived|..]);
    }
  }

  /** The same with calls that would block or fail anywhere, any number of times, as long as no
      native receive is short: the messages that have arrived are the first ones sent, in order, and
      when the stream is used up and no packet is in hand, they are all of them. */
  lemma MessagesSurviveUnlessShort(messages: seq<seq<Value>>, sender: Link, p: PacketState,
                                   receiver: Link, n: nat)
    requires AreMessages(messages)
    requires sender.wire == [] && SendFrames(sender, AllPacked(messages)).Some?
    requires receiver.inbound == SendFrames(sender, AllPacked(messages)).value.wire
    requires Idle(p) && NoShort(p, receiver, n)
    ensures Delivers(p, receiver, messages, n)
  {
    hide SendFrames, NoShort, Brought, Delivers, Concat, IsFrame, IsMessage, Packed;
    var fs := AllPacked(messages);
    SentFramesConcatenate(sender, fs);
    FramingStaysInStep(p, receiver, fs, n);
    BroughtDelivers(p, receiver, messages, n);
  }

  // ---------------------------------------------------------------------------
  // Datagrams

  /** The length check of a datagram, in the widths the code uses: the count is truncated to 16
      bits, then 2 is taken off in 64-bit unsigned arithmetic. */
  function ExpectedHeader(received: nat): int {
    (received % 0x1_0000 - HEADER) % 0x1_0000_0000_0000_0000
  }

  predicate AcceptsDatagram(d: seq<byte>) {
    |d| >= HEADER && FromLe(d[..HEADER]) == ExpectedHeader(|d|)
  }

  /** The packet a datagram makes of another packet. */
  function Rebuilt(p: PacketState, d: seq<byte>): PacketState {
    p.(data := d, readPos := HEADER, writePos := |d|)
  }

  lemma HeaderRange(header: seq<byte>)
    requires |header| == HEADER
    ensures FromLe(header) < 0x1_0000
  {
    Pow256Values();
    FromLeThenLe(header);
  }

  /** A datagram is accepted if and only if it is 2 to 65535 bytes long and its header says so. */
  lemma DatagramAcceptance(d: seq<byte>)
    requires |d| <= DATAGRAM_SIZE
    ensures AcceptsDatagram(d) <==>
            HEADER <= |d| <= 65535 && FromLe(d[..HEADER]) == |d| - HEADER
  {
    hide FromLe;
    if |d| >= HEADER {
      HeaderRange(d[..HEADER]);
    }
  }

  /** The bytes a native send adds to the wire. */
  function Datagram(l: Link, data: seq<byte>): seq<byte> {
    SendBytes(l, data).1.wire[|l.wire|..]
  }

  /** A valid packet that is not empty, sent whole as one datagram, is accepted at the other end, and
      rebuilds in any packet a valid one with the same payload, to be read from its start. */
  lemma DatagramRoundTrip(sent: PacketState, l: Link, target: PacketState)
    requires Valid(sent) && !sent.Empty() && SendBytes(l, sent.data).0 == |sent.data|
    ensures var d := Datagram(l, sent.data);
            && AcceptsDatagram(d) && AtEnd(Rebuilt(target, d))
            && Rebuilt(target, d).Payload() == Pending(Rebuilt(target, d)) == sent.Payload()
            && Rebuilt(target, d)
               == PacketState(sent.data, 2, |sent.data|, target.sendPos, target.recvPos, target.recvTarget)
  {
    assert sent.data[..|sent.data|] == sent.data;
    assert (l.wire + sent.data)[|l.wire|..] == sent.data;
    DatagramAcceptance(sent.data);
  }

  /** Messages survive datagrams: values written to a packet, sent whole as one datagram and rebuilt
      at the other end read back, value for value if and only if no string is empty or holds a zero
      byte. */
  lemma DatagramMessage(vs: seq<Value>, l: Link, target: PacketState)
    requires IsMessage(vs) && SendBytes(l, Packed(vs)).0 == |Packed(vs)|
    ensures var d := Datagram(l, Packed(vs));
            AcceptsDatagram(d) && ReadsBack(Rebuilt(target, d), vs)
  {
    PackedIsFrame(vs);
    ClearedIsValid(NewPacket());
    PutAllExactly(NewPacket(), vs);
    var sent := PutAll(NewPacket(), vs).next;
    hide PutAll, Images, GetAll, Appended, Stamp, ReadsBack;
    DatagramRoundTrip(sent, l, target);
    ImagesReadBack(Rebuilt(target, Datagram(l, Packed(vs))), vs);
  }
}
