/** The loops of `send_all` and `receive_all`, one native call at a time, and the transfer they
    perform when they run at the two ends of one connection. */
module Streams {
  import opened Bytes
  import opened Network

  datatype Status = Running | Succeeded | Failed

  /** Where a loop stands: how many bytes it has moved, and the last failure it noted. */
  datatype Loop = Loop(status: Status, total: nat, error: SocketError)

  function Resume(total: nat, length: int, error: SocketError): Loop {
    Loop(if total < length then Running else Succeeded, total, error)
  }

  /** One turn of either loop: one native call that can move up to `room` bytes. */
  function Turn(l: Loop, length: int, room: nat, a: Answer): Loop {
    var count := Grant(a, room);
    if count == 0 then
      l.(status := Failed)
    else if count < 0 then
      Loop(if a.error == WouldBlock then Running else Failed, l.total, a.error)
    else
      Resume(l.total + count, length, l.error)
  }

  /** The loop on a schedule, with `available` bytes left that could ever move. It also returns the
      unused part of the schedule; a loop still running has used all of it. */
  function RunLoop(l: Loop, length: int, available: nat, script: seq<Answer>): (r: (Loop, seq<Answer>))
    requires l.status == Running ==> l.total < length
    ensures l.total <= r.0.total <= l.total + available
    decreases |script|
  {
    if l.status != Running || script == [] then (l, script) else
    var next := Turn(l, length, Min(length - l.total, available), script[0]);
    RunLoop(next, length, available - (next.total - l.total), script[1..])
  }

  function SendAllRun(length: int, error: SocketError, script: seq<Answer>): (Loop, seq<Answer>) {
    RunLoop(Resume(0, length, error), length, Max(length, 0), script)
  }

  function ReceiveAllRun(length: int, available: nat, error: SocketError, script: seq<Answer>)
    : (Loop, seq<Answer>)
  {
    RunLoop(Resume(0, length, error), length, available, script)
  }

  /** A running loop takes one turn and goes on with the rest of the schedule. */
  lemma LoopOnce(l: Loop, length: int, available: nat, script: seq<Answer>)
    requires l.status == Running && l.total < length && script != []
    ensures var next := Turn(l, length, Min(length - l.total, available), script[0]);
            RunLoop(l, length, available, script)
            == RunLoop(next, length, available - (next.total - l.total), script[1..])
  {
  }

  lemma LoopStays(l: Loop, length: int, available: nat, script: seq<Answer>)
    requires l.status != Running || script == []
    requires l.status == Running ==> l.total < length
    ensures RunLoop(l, length, available, script) == (l, script)
  {
  }

  lemma TurnMoves(l: Loop, length: int, room: nat, a: Answer)
    requires l.status == Running && l.total < length && room <= length - l.total
    ensures var next := Turn(l, length, room, a);
            && next.total == l.total + Max(Grant(a, room), 0)
            && (next.status == Running ==> next.total < length)
  {
  }

  /** The error code of the last answer that reported a failure, or `error` if none did. */
  function LastFailure(error: SocketError, used: seq<Answer>): SocketError
    decreases |used|
  {
    if used == [] then error else
    LastFailure(if used[0].count < 0 then used[0].error else error, used[1..])
  }

  lemma UsedOneMore(script: seq<Answer>, rest: seq<Answer>)
    requires |rest| < |script| && rest == script[1..][|script| - 1 - |rest|..]
    ensures rest == script[|script| - |rest|..]
    ensures Used(script, rest) != [] && Used(script, rest)[0] == script[0]
    ensures Used(script, rest)[1..] == Used(script[1..], rest)
  {
  }

  lemma TurnNotes(l: Loop, length: int, room: nat, a: Answer)
    ensures Turn(l, length, room, a).error == if a.count < 0 then a.error else l.error
  {
  }

  /** A loop uses its schedule from the front, and the error it leaves is that of the last answer it
      used that reported a failure; answers that moved bytes or ended the stream leave it alone. */
  lemma {:induction false} LoopErrors(l: Loop, length: int, available: nat, script: seq<Answer>)
    requires l.status == Running ==> l.total < length
    ensures var (r, rest) := RunLoop(l, length, available, script);
            && |rest| <= |script| && rest == script[|script| - |rest|..]
            && r.error == LastFailure(l.error, Used(script, rest))
    decreases |script|
  {
    hide RunLoop, Turn;
    if l.status != Running || script == [] {
      LoopStays(l, length, available, script);
    } else {
      var room := Min(length - l.total, available);
      var next := Turn(l, length, room, script[0]);
      LoopOnce(l, length, available, script);
      TurnMoves(l, length, room, script[0]);
      TurnNotes(l, length, room, script[0]);
      var left := available - (next.total - l.total);
      LoopErrors(next, length, left, script[1..]);
      UsedOneMore(script, RunLoop(next, length, left, script[1..]).1);
    }
  }

  // ---------------------------------------------------------------------------
  // The loops in progress, over a buffer and a connection

  /** `send_all` at `l`: what it handed over, and what its whole run comes to from here. */
  ghost predicate SentSoFar(run: (Loop, seq<Answer>), length: int, l: Loop, data: seq<byte>,
                            start: Link, now: Link)
  {
    && (l.status == Running ==> l.total < length)
    && l.total <= Max(length, 0) <= |data|
    && now.wire == start.wire + data[..l.total] && now.inbound == start.inbound
    && run == RunLoop(l, length, Max(length, 0) - l.total, now.script)
  }

  lemma SendTurn(run: (Loop, seq<Answer>), length: int, l: Loop, data: seq<byte>, start: Link, now: Link)
    requires SentSoFar(run, length, l, data, start, now)
    requires l.status == Running && run.0.status != Running
    ensures now.script != []
    ensures SentSoFar(run, length, Turn(l, length, length - l.total, now.script[0]), data, start,
                      SendBytes(now, data[l.total..length]).1)
  {
    hide RunLoop, Turn, Grant;
    if now.script == [] {
      LoopStays(l, length, length - l.total, now.script);
    }
    LoopOnce(l, length, length - l.total, now.script);
    TurnMoves(l, length, length - l.total, now.script[0]);
    var n := Max(SendBytes(now, data[l.total..length]).0, 0);
    var sent, more := data[..l.total], data[l.total..length][..n];
    assert sent + more == data[..l.total + n];
    assert (start.wire + sent) + more == start.wire + (sent + more);
  }

  /** `receive_all` at `l`: what its buffer holds, what is still to come, and what its whole run
      comes to from here. */
  ghost predicate ReceivedSoFar(run: (Loop, seq<Answer>), length: int, l: Loop, before: seq<byte>,
                                data: seq<byte>, start: Link, now: Link)
  {
    && (l.status == Running ==> l.total < length)
    && l.total <= Max(length, 0) <= |before| && l.total <= |start.inbound|
    && data == Overlay(before, 0, start.inbound[..l.total])
    && now.inbound == start.inbound[l.total..] && now.wire == start.wire
    && run == RunLoop(l, length, |start.inbound| - l.total, now.script)
  }

  lemma ChunkArrived(inbound: seq<byte>, before: seq<byte>, total: nat, n: nat)
    requires total + n <= |inbound| && total + n <= |before|
    ensures Overlay(Overlay(before, 0, inbound[..total]), total, inbound[total..][..n])
            == Overlay(before, 0, inbound[..total + n])
    ensures inbound[total..][n..] == inbound[total + n..]
  {
    assert inbound[..total] + inbound[total..][..n] == inbound[..total + n];
  }

  lemma ReceiveTurn(run: (Loop, seq<Answer>), length: int, l: Loop, before: seq<byte>,
                    data: seq<byte>, start: Link, now: Link)
    requires ReceivedSoFar(run, length, l, before, data, start, now)
    requires l.status == Running && run.0.status != Running
    ensures now.script != []
    ensures var (count, bytes, next) := RecvBytes(now, length - l.total);
            && l.total + |bytes| <= |data|
            && ReceivedSoFar(run, length,
                             Turn(l, length, Min(length - l.total, |now.inbound|), now.script[0]), before,
                             Overlay(data, l.total, bytes), start, next)
  {
    hide RunLoop, Turn, Grant, Overlay;
    var (count, bytes, next) := RecvBytes(now, length - l.total);
    ChunkArrived(start.inbound, before, l.total, |bytes|);
    assert |start.inbound| - l.total == |now.inbound|;
    if now.script == [] {
      LoopStays(l, length, |now.inbound|, now.script);
    }
    LoopOnce(l, length, |now.inbound|, now.script);
    TurnMoves(l, length, Min(length - l.total, |now.inbound|), now.script[0]);
  }

  lemma SendStarts(length: int, error: SocketError, data: seq<byte>, start: Link)
    requires length <= |data|
    ensures SentSoFar(SendAllRun(length, error, start.script), length, Resume(0, length, error), data,
                      start, start)
  {
    assert start.wire + data[..0] == start.wire;
  }

  lemma SendReturns(run: (Loop, seq<Answer>), length: int, l: Loop, data: seq<byte>, start: Link, now: Link)
    requires SentSoFar(run, length, l, data, start, now)
    ensures l.status != Running ==>
              && run == (l, now.script) && l.total <= |data|
              && now.wire == start.wire + data[..l.total] && now.inbound == start.inbound
  {
  }

  lemma ReceiveStarts(length: int, error: SocketError, before: seq<byte>, start: Link)
    requires length <= |before|
    ensures ReceivedSoFar(ReceiveAllRun(length, |start.inbound|, error, start.script), length,
                          Resume(0, length, error), before, before, start, start)
  {
    assert Overlay(before, 0, start.inbound[..0]) == before;
  }

  lemma ReceiveReturns(run: (Loop, seq<Answer>), length: int, l: Loop, before: seq<byte>,
                       data: seq<byte>, start: Link, now: Link)
    requires ReceivedSoFar(run, length, l, before, data, start, now)
    ensures l.status != Running ==>
              && run == (l, now.script) && l.total <= |before| && l.total <= |start.inbound|
              && data == start.inbound[..l.total] + before[l.total..]
              && now.inbound == start.inbound[l.total..] && now.wire == start.wire
  {
  }

  // ---------------------------------------------------------------------------
  // Results and termination

  ghost predicate Consistent(l: Loop, length: int) {
    && (l.status == Running ==> l.total < length)
    && (l.status == Succeeded <==> l.total >= length)
    && l.total <= Max(length, 0)
  }

  lemma TurnKeepsConsistent(l: Loop, length: int, room: nat, a: Answer)
    requires Consistent(l, length) && l.status == Running && room <= length - l.total
    ensures Consistent(Turn(l, length, room, a), length)
    ensures l.total <= Turn(l, length, room, a).total <= l.total + room
    ensures Blocked(a) ==> Turn(l, length, room, a).status == Running
                           && Turn(l, length, room, a).total == l.total
    ensures !Blocked(a) ==> Turn(l, length, room, a).status != Running
                            || Turn(l, length, room, a).total > l.total
  {
  }

  /** A loop reports success if and only if exactly `length` bytes crossed; otherwise it moved a
      strict prefix. */
  lemma {:induction false} LoopResult(l: Loop, length: int, available: nat, script: seq<Answer>)
    requires Consistent(l, length)
    ensures var r := RunLoop(l, length, available, script).0;
            && (r.status == Succeeded <==> r.total == Max(length, 0))
            && (r.status != Succeeded ==> r.total < length)
    decreases |script|
  {
    hide RunLoop, Turn;
    if l.status != Running || script == [] {
      LoopStays(l, length, available, script);
    } else {
      var room := Min(length - l.total, available);
      var next := Turn(l, length, room, script[0]);
      LoopOnce(l, length, available, script);
      TurnKeepsConsistent(l, length, room, script[0]);
      LoopResult(next, length, available - (next.total - l.total), script[1..]);
    }
  }

  predicate Blocked(a: Answer) {
    a.count < 0 && a.error == WouldBlock
  }

  /** How many answers of a schedule are something else than `would_block`. */
  function Unblocked(script: seq<Answer>): nat {
    if script == [] then 0 else (if Blocked(script[0]) then 0 else 1) + Unblocked(script[1..])
  }

  /** Termination: whatever the fragmentation, the loop has returned once the schedule has given as
      many answers other than `would_block` as there are bytes left, so it returns whenever runs of
      `would_block` are finite; and it never uses more of them than that. */
  lemma {:induction false} LoopReturns(l: Loop, length: int, available: nat, script: seq<Answer>)
    requires Consistent(l, length)
    ensures var (r, rest) := RunLoop(l, length, available, script);
            && (l.status != Running || Unblocked(script) >= length - l.total ==> r.status != Running)
            && (l.status == Running ==> Unblocked(script) - Unblocked(rest) <= length - l.total)
    decreases |script|
  {
    hide RunLoop, Turn;
    if l.status != Running || script == [] {
      LoopStays(l, length, available, script);
    } else {
      var room := Min(length - l.total, available);
      var next := Turn(l, length, room, script[0]);
      LoopOnce(l, length, available, script);
      TurnKeepsConsistent(l, length, room, script[0]);
      if next.status != Running {
        LoopStays(next, length, available - (next.total - l.total), script[1..]);
      }
      LoopReturns(next, length, available - (next.total - l.total), script[1..]);
    }
  }

  // ---------------------------------------------------------------------------
  // Both ends at once

  /** `send_all` on one end, `receive_all` on the other, and the bytes in flight. */
  datatype Duplex = Duplex(
    data: seq<byte>, sender: Loop, channel: seq<byte>, receiver: Loop, buffer: seq<byte>)

  /** Either end makes its next native call, which the system answers. */
  datatype Event = SenderTurn(a: Answer) | ReceiverTurn(a: Answer)

  function StartDuplex(data: seq<byte>, buffer: seq<byte>): Duplex {
    Duplex(data, Resume(0, |data|, NoError), [], Resume(0, |buffer|, NoError), buffer)
  }

  ghost predicate WellFormed(d: Duplex) {
    Consistent(d.sender, |d.data|) && Consistent(d.receiver, |d.buffer|)
  }

  /** One turn of one end. An end that has returned does nothing, and a receive that finds nothing
      in flight is not answered with bytes. */
  function DuplexStep(d: Duplex, e: Event): (r: Duplex)
    requires WellFormed(d)
    ensures WellFormed(r)
  {
    match e
    case SenderTurn(a) =>
      if d.sender.status != Running then d else
      var sender := Turn(d.sender, |d.data|, |d.data| - d.sender.total, a);
      d.(sender := sender, channel := d.channel + d.data[d.sender.total..sender.total])
    case ReceiverTurn(a) =>
      if d.receiver.status != Running || (a.count > 0 && d.channel == []) then d else
      var before := d.receiver.total;
      var receiver := Turn(d.receiver, |d.buffer|, Min(|d.buffer| - before, |d.channel|), a);
      var n := receiver.total - before;
      d.(receiver := receiver, channel := d.channel[n..],
         buffer := d.buffer[..before] + d.channel[..n] + d.buffer[before + n..])
  }

  function RunDuplex(d: Duplex, events: seq<Event>): (r: Duplex)
    requires WellFormed(d)
    ensures WellFormed(r)
    decreases |events|
  {
    if events == [] then d else RunDuplex(DuplexStep(d, events[0]), events[1..])
  }

  /** What the receiver has is a prefix of what the sender handed over, and the rest is in flight;
      beyond that prefix the receiving buffer `original` is untouched. */
  ghost predicate InStep(d: Duplex, data: seq<byte>, original: seq<byte>) {
    && WellFormed(d)
    && d.data == data
    && d.receiver.total <= d.sender.total <= |data|
    && d.receiver.total <= |original|
    && d.channel == data[d.receiver.total..d.sender.total]
    && d.buffer == data[..d.receiver.total] + original[d.receiver.total..]
  }

  lemma SenderKeepsInStep(d: Duplex, a: Answer, data: seq<byte>, original: seq<byte>)
    requires InStep(d, data, original)
    ensures InStep(DuplexStep(d, SenderTurn(a)), data, original)
  {
    var next := DuplexStep(d, SenderTurn(a));
    assert next.channel == data[d.receiver.total..next.sender.total];
  }

  lemma ReceiverKeepsInStep(d: Duplex, a: Answer, data: seq<byte>, original: seq<byte>)
    requires InStep(d, data, original)
    ensures InStep(DuplexStep(d, ReceiverTurn(a)), data, original)
  {
    var next := DuplexStep(d, ReceiverTurn(a));
    var before, after := d.receiver.total, next.receiver.total;
    if before < after {
      assert d.channel[..after - before] == data[before..after];
      assert data[..before] + data[before..after] == data[..after];
      assert d.buffer[after..] == original[after..];
    }
  }

  /** Concurrent stream transfer. However the two loops interleave, however the bytes are
      fragmented and however often either end would block, the receiver's filled prefix is always
      the same-length prefix of the sender's data; when the receiver succeeds it holds the first
      bytes of that data, and when both succeed on equal lengths the buffers are equal. */
  lemma ConcurrentTransfer(data: seq<byte>, original: seq<byte>, events: seq<Event>)
    ensures var d := RunDuplex(StartDuplex(data, original), events);
            && InStep(d, data, original)
            && d.buffer[..d.receiver.total] == data[..d.receiver.total]
            && (d.receiver.status == Succeeded ==>
                |original| <= |data| && d.buffer == data[..|original|])
            && (d.sender.status == d.receiver.status == Succeeded && |original| == |data| ==>
                d.buffer == data && d.channel == [])
  {
    var start := StartDuplex(data, original);
    assert original[0..] == original && data[..0] == [] == data[0..0];
    assert InStep(start, data, original);
    RunKeepsInStep(start, events, data, original);
  }

  lemma {:induction false} RunKeepsInStep(d: Duplex, events: seq<Event>, data: seq<byte>,
                                          original: seq<byte>)
    requires InStep(d, data, original)
    ensures InStep(RunDuplex(d, events), data, original)
    decreases |events|
  {
    if events == [] {
    } else {
      match events[0] {
        case SenderTurn(a) => SenderKeepsInStep(d, a, data, original);
        case ReceiverTurn(a) => ReceiverKeepsInStep(d, a, data, original);
      }
      RunKeepsInStep(DuplexStep(d, events[0]), events[1..], data, original);
    }
  }

  /** No deadlock: while neither end has failed and the receiver asks for no more than is sent, any
      reachable state with an end still running has a turn that moves at least one byte. */
  lemma TransferCanProceed(d: Duplex, data: seq<byte>, original: seq<byte>)
    requires InStep(d, data, original) && |original| <= |data|
    requires d.sender.status != Failed && d.receiver.status != Failed
    requires d.sender.status == Running || d.receiver.status == Running
    ensures exists e: Event :: var next := DuplexStep(d, e);
              next.sender.total + next.receiver.total > d.sender.total + d.receiver.total
  {
    var a := Answer(1, NoError);
    var e := if d.sender.status == Running then SenderTurn(a) else ReceiverTurn(a);
    var next := DuplexStep(d, e);
    if d.sender.status != Running {
      assert d.sender.total == |data| && d.channel != [];
    }
    assert next.sender.total + next.receiver.total > d.sender.total + d.receiver.total;
  }

  /** The answer does not make an end give up. */
  predicate Harmless(a: Answer) {
    a.count > 0 || Blocked(a)
  }

  ghost predicate AllHarmless(events: seq<Event>) {
    forall e | e in events :: Harmless(e.a)
  }

  /** How many turns of the sender, or of the receiver, are answered with bytes. */
  function SenderTurns(events: seq<Event>): nat {
    if events == [] then 0 else
    (if events[0].SenderTurn? && events[0].a.count > 0 then 1 else 0) + SenderTurns(events[1..])
  }

  function ReceiverTurns(events: seq<Event>): nat {
    if events == [] then 0 else
    (if events[0].ReceiverTurn? && events[0].a.count > 0 then 1 else 0) + ReceiverTurns(events[1..])
  }

  ghost predicate Unfailed(d: Duplex) {
    d.sender.status != Failed && d.receiver.status != Failed
  }

  /** A harmless turn fails no end, takes nothing back, and moves a byte if it is answered with bytes
      and there is one to move. */
  lemma HarmlessTurn(d: Duplex, e: Event)
    requires WellFormed(d) && Unfailed(d) && Harmless(e.a)
    ensures var next := DuplexStep(d, e);
            && Unfailed(next)
            && d.sender.total <= next.sender.total && d.receiver.total <= next.receiver.total
            && (e.SenderTurn? && e.a.count > 0 && d.sender.status == Running ==>
                d.sender.total < next.sender.total)
            && (e.ReceiverTurn? && e.a.count > 0 && d.receiver.status == Running && d.channel != [] ==>
                d.receiver.total < next.receiver.total)
            && (d.sender.status == Succeeded ==> next.sender == d.sender)
            && |next.data| == |d.data| && |next.buffer| == |d.buffer|
  {
  }

  lemma {:induction false} SenderFinishes(d: Duplex, events: seq<Event>)
    requires WellFormed(d) && Unfailed(d) && AllHarmless(events)
    requires |d.data| <= d.sender.total + SenderTurns(events)
    ensures Unfailed(RunDuplex(d, events)) && RunDuplex(d, events).sender.status == Succeeded
    decreases |events|
  {
    if events == [] {
    } else {
      HarmlessTurn(d, events[0]);
      hide DuplexStep;
      SenderFinishes(DuplexStep(d, events[0]), events[1..]);
    }
  }

  lemma {:induction false} ReceiverFinishes(d: Duplex, events: seq<Event>, data: seq<byte>,
                                            original: seq<byte>)
    requires InStep(d, data, original) && Unfailed(d) && AllHarmless(events)
    requires d.sender.status == Succeeded && |original| <= |data|
    requires |original| <= d.receiver.total + ReceiverTurns(events)
    ensures var r := RunDuplex(d, events);
            Unfailed(r) && r.sender.status == Succeeded && r.receiver.status == Succeeded
    decreases |events|
  {
    if events == [] {
    } else {
      HarmlessTurn(d, events[0]);
      assert d.receiver.status == Running ==> d.channel != [];
      RunKeepsInStep(d, [events[0]], data, original);
      assert RunDuplex(d, [events[0]]) == DuplexStep(d, events[0]) by {
        assert [events[0]][1..] == [];
      }
      hide DuplexStep;
      ReceiverFinishes(DuplexStep(d, events[0]), events[1..], data, original);
    }
  }

  lemma {:induction false} RunsCompose(d: Duplex, a: seq<Event>, b: seq<Event>)
    requires WellFormed(d)
    ensures RunDuplex(d, a + b) == RunDuplex(RunDuplex(d, a), b)
    decreases |a|
  {
    if a == [] {
      assert a + b == b;
    } else {
      assert (a + b)[0] == a[0] && (a + b)[1..] == a[1..] + b;
      RunsCompose(DuplexStep(d, a[0]), a[1..], b);
    }
  }

  lemma StartsUnfailed(data: seq<byte>, original: seq<byte>)
    ensures var start := StartDuplex(data, original);
            WellFormed(start) && Unfailed(start) && start.data == data && start.sender.total == 0
  {
  }

  lemma FinishedTransfer(d: Duplex, data: seq<byte>, original: seq<byte>)
    requires InStep(d, data, original) && |original| <= |data|
    requires d.sender.status == Succeeded && d.receiver.status == Succeeded
    ensures d.buffer == data[..|original|] && d.channel == data[|original|..]
  {
    assert d.sender.total == |data| && d.receiver.total == |original|;
  }

  /** The joint transfer ends. In any interleaving without a failing answer, blocked turns included,
      both ends succeed and the receiver holds the data, once the sender has had as many turns
      answered with bytes as it has bytes to send, and after that the receiver as many as it has
      bytes to receive; the turns of the other end may lie anywhere between. */
  lemma TransferCompletes(data: seq<byte>, original: seq<byte>, first: seq<Event>, second: seq<Event>)
    requires |original| <= |data| && AllHarmless(first) && AllHarmless(second)
    requires |data| <= SenderTurns(first) && |original| <= ReceiverTurns(second)
    ensures var d := RunDuplex(StartDuplex(data, original), first + second);
            && d.sender.status == Succeeded && d.receiver.status == Succeeded
            && d.buffer == data[..|original|] && d.channel == data[|original|..]
  {
    hide RunDuplex, DuplexStep, StartDuplex, InStep, SenderTurns, ReceiverTurns;
    var start := StartDuplex(data, original);
    StartsUnfailed(data, original);
    ConcurrentTransfer(data, original, first);
    ConcurrentTransfer(data, original, first + second);
    SenderFinishes(start, first);
    RunsCompose(start, first, second);
    ReceiverFinishes(RunDuplex(start, first), second, data, original);
    FinishedTransfer(RunDuplex(start, first + second), data, original);
  }
}
