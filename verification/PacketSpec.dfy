/** What each packet operation does to a packet, in closed form, and the laws those forms obey.

    The class in Packet.dfy performs the same operations the way the library does, in place and
    by mutual recursion, and is proved against the functions of this module. */
module PacketSpec {
  import opened Bytes

  // sizeof(packetlen_t)
  const HEADER: int := 2

  // Socket::datagram_size
  const DATAGRAM_SIZE: int := 65536

  /** The fields of a packet. */
  datatype PacketState = PacketState(
    data: seq<byte>, readPos: int, writePos: int, sendPos: int, recvPos: int, recvTarget: int)
  {
    function WorkSize(): nat {
      if |data| > HEADER then |data| - HEADER else 0
    }

    predicate Full() {
      |data| == DATAGRAM_SIZE
    }

    predicate Empty() {
      WorkSize() == 0
    }

    predicate End() {
      readPos == |data|
    }

    predicate VerifySize() {
      |data| >= HEADER && FromLe(data[..HEADER]) == WorkSize() % 0x1_0000
    }

    /** The bytes between the header and the end of the buffer. */
    function Payload(): seq<byte> {
      if |data| > HEADER then data[HEADER..] else []
    }
  }

  /** How an operation ended, and the packet it left behind, also when it threw. */
  datatype Step<+T> = Step(outcome: Outcome<T>, next: PacketState)

  /** The bytes of a buffer not sent yet; none before the first send has taken any. */
  function SendRemainder(size: nat, sendPos: int): int {
    if sendPos < 1 then 0 else size - sendPos
  }

  // ---------------------------------------------------------------------------
  // Operations

  /** The buffer with its header rewritten to its own payload length. */
  function Stamp(data: seq<byte>): (stamped: seq<byte>)
    requires |data| >= HEADER
    ensures |stamped| == |data| && stamped[HEADER..] == data[HEADER..]
    ensures forall i | HEADER <= i < |data| :: stamped[i] == data[i]
  {
    Le(HEADER, |data| - HEADER) + data[HEADER..]
  }

  /** The buffer with `bytes` laid over it at `pos`, grown when they reach past its end. */
  function Splice(data: seq<byte>, pos: nat, bytes: seq<byte>): (spliced: seq<byte>)
    requires pos <= |data|
    ensures |spliced| == Max(|data|, pos + |bytes|)
    ensures forall i | 0 <= i < |data| && !(pos <= i < pos + |bytes|) :: spliced[i] == data[i]
  {
    data[..pos] + bytes + (if pos + |bytes| < |data| then data[pos + |bytes|..] else [])
  }

  /** `vector::resize`: drop the tail or append zeroes. */
  function Fit(data: seq<byte>, size: nat): (fitted: seq<byte>)
    ensures |fitted| == size
  {
    if size <= |data| then data[..size] else data + seq(size - |data|, i => 0)
  }

  /** Growing a buffer to make room and copying into it is splicing. */
  lemma GrowThenCopy(data: seq<byte>, pos: nat, bytes: seq<byte>)
    requires pos <= |data|
    ensures var end := pos + |bytes|;
            Overlay(if end > |data| then Fit(data, end) else data, pos, bytes) == Splice(data, pos, bytes)
  {
  }

  /** The size `resize` really uses. */
  function Clamp(size: nat): nat {
    Max(HEADER, Min(DATAGRAM_SIZE, size))
  }

  /** Rewriting the header succeeds unless the buffer is full, and then keeps the write cursor
      unless the cursor lies outside the buffer. */
  function UpdateSize(s: PacketState): Step<()>
    requires |s.data| >= HEADER
  {
    if s.Full() then
      Step(Threw, s.(writePos := 0))
    else if HEADER <= s.writePos <= |s.data| then
      Step(Returned(()), s.(data := Stamp(s.data)))
    else
      Step(Threw, s.(data := Stamp(s.data), writePos := HEADER))
  }

  function Resize(s: PacketState, size: nat): (r: Step<()>)
    ensures |r.next.data| == Clamp(size)
    ensures r.outcome.Returned? ==> Clamp(size) < DATAGRAM_SIZE && r.next == s.(data := r.next.data)
  {
    UpdateSize(s.(data := Fit(s.data, Clamp(size))))
  }

  /** The packet `clear` leaves, whatever it was given. */
  function Cleared(s: PacketState): PacketState {
    s.(data := [0, 0], readPos := HEADER, writePos := HEADER)
  }

  predicate Writable(s: PacketState) {
    HEADER <= |s.data| <= DATAGRAM_SIZE && (s.writePos == 0 || HEADER <= s.writePos <= |s.data|)
  }

  function WriteData(s: PacketState, bytes: seq<byte>, whole: bool): (r: Step<nat>)
    requires Writable(s)
    ensures r.outcome.Returned? ==> r.outcome.value <= |bytes|
    ensures r.next.readPos == s.readPos && |r.next.data| >= |s.data|
  {
    if s.Full() || (whole && s.writePos + |bytes| > DATAGRAM_SIZE) then
      Step(Returned(0), s)
    else
      var n := Min(DATAGRAM_SIZE - s.writePos, |bytes|);
      var written := s.(data := Splice(s.data, s.writePos, bytes[..n]), writePos := s.writePos + n);
      if s.writePos == 0 then
        Step(Returned(n), written)
      else if written.Full() then
        Step(Threw, written.(writePos := 0))
      else
        Step(Returned(n), written.(data := Stamp(written.data)))
  }

  predicate Readable(s: PacketState) {
    HEADER <= s.readPos <= |s.data|
  }

  /** The bytes a read delivers; none when it fails. */
  function ReadData(s: PacketState, size: nat, whole: bool): (r: (seq<byte>, PacketState))
    requires Readable(s)
    ensures Readable(r.1) && r.1 == s.(readPos := r.1.readPos)
  {
    var n := Min(|s.data| - s.readPos, size);
    if s.Empty() || (whole && n < size) then
      ([], s)
    else
      (s.data[s.readPos..s.readPos + n], s.(readPos := s.readPos + n))
  }

  datatype SeekCursor = ReadCursor | WriteCursor | BothCursors

  datatype SeekType = FromStart | Relative | FromEnd

  /** Where a seek lands, counted from the start of the payload. */
  function SeekTarget(kind: SeekType, pos: int, workSize: nat, value: int): int {
    match kind
    case FromStart => value
    case Relative => pos - HEADER + value
    case FromEnd => workSize - value
  }

  function SeekPos(kind: SeekType, pos: int, workSize: nat, value: int): Outcome<int> {
    var target := SeekTarget(kind, pos, workSize, value);
    if 0 <= target <= workSize then Returned(target + HEADER) else Threw
  }

  function Seek(s: PacketState, cursor: SeekCursor, kind: SeekType, value: int): Step<()> {
    match cursor
    case ReadCursor =>
      var r := SeekPos(kind, s.readPos, s.WorkSize(), value);
      if r.Threw? then Step(Threw, s) else Step(Returned(()), s.(readPos := r.value))
    case WriteCursor =>
      var w := SeekPos(kind, s.writePos, s.WorkSize(), value);
      if w.Threw? then Step(Threw, s) else Step(Returned(()), s.(writePos := w.value))
    case BothCursors =>
      var r := SeekPos(kind, s.readPos, s.WorkSize(), value);
      if r.Threw? then Step(Threw, s) else
      var s' := s.(readPos := r.value);
      var w := SeekPos(kind, s.writePos, s.WorkSize(), value);
      if w.Threw? then Step(Threw, s') else Step(Returned(()), s'.(writePos := w.value))
  }

  // ---------------------------------------------------------------------------
  // Invariants

  /** What a packet promises to its users. */
  ghost predicate Valid(s: PacketState) {
    && HEADER <= |s.data| < DATAGRAM_SIZE
    && s.VerifySize()
    && HEADER <= s.readPos <= |s.data|
    && HEADER <= s.writePos <= |s.data|
  }

  /** What is left of that promise when exceptions are caught and reads stay in bounds:
      a packet that is not full still has a right header and a write cursor inside it. */
  ghost predicate Coherent(s: PacketState) {
    && Writable(s)
    && HEADER <= s.readPos
    && (!s.Full() ==> s.VerifySize() && HEADER <= s.writePos)
  }

  /** A coherent packet that is not full; its read cursor may be anywhere. */
  ghost predicate HasRoom(s: PacketState) {
    Coherent(s) && !s.Full()
  }

  lemma StampVerifies(data: seq<byte>)
    requires HEADER <= |data| <= DATAGRAM_SIZE
    ensures FromLe(Stamp(data)[..HEADER]) == |data| - HEADER
    ensures Stamp(data)[HEADER..] == data[HEADER..]
  {
    Pow256Values();
    LeThenFromLe(HEADER, |data| - HEADER);
    assert Stamp(data)[..HEADER] == Le(HEADER, |data| - HEADER);
  }

  /** A header that already agrees with the buffer is rewritten to itself. */
  lemma StampIsIdempotent(data: seq<byte>)
    requires HEADER <= |data| <= DATAGRAM_SIZE
    requires FromLe(data[..HEADER]) == |data| - HEADER
    ensures Stamp(data) == data
  {
    FromLeThenLe(data[..HEADER]);
  }

  lemma ClearedIsValid(s: PacketState)
    ensures Valid(Cleared(s)) && Cleared(s).Empty() && AtEnd(Cleared(s))
  {
    assert [0, 0][..HEADER] == [0, 0];
    assert [0, 0][1..] == [0];
    assert FromLe([0, 0]) == 0;
  }

  // ---------------------------------------------------------------------------
  // Runs

  datatype Op =
    | OpWrite(bytes: seq<byte>, whole: bool)
    | OpRead(size: nat, whole: bool)
    | OpSeek(cursor: SeekCursor, kind: SeekType, value: int)
    | OpClear
    | OpResize(size: nat)

  /** A read copies from the read cursor on, so the cursor must not lie past the end. */
  predicate Defined(s: PacketState, op: Op) {
    op.OpRead? ==> Readable(s)
  }

  function Apply(s: PacketState, op: Op): Step<()>
    requires Writable(s) && Defined(s, op)
  {
    match op
    case OpWrite(bytes, whole) =>
      var w := WriteData(s, bytes, whole);
      Step(if w.outcome.Returned? then Returned(()) else Threw, w.next)
    case OpRead(size, whole) => Step(Returned(()), ReadData(s, size, whole).1)
    case OpSeek(cursor, kind, value) => Seek(s, cursor, kind, value)
    case OpClear => Step(Returned(()), Cleared(s))
    case OpResize(size) => Resize(s, size)
  }

  /** The packet after a run in which every call returns normally, if the run is one. */
  function Run(s: PacketState, ops: seq<Op>): Option<PacketState>
    decreases |ops|
  {
    if ops == [] then Some(s)
    else if !Writable(s) || !Defined(s, ops[0]) || Apply(s, ops[0]).outcome.Threw? then None
    else Run(Apply(s, ops[0]).next, ops[1..])
  }

  /** The packet after a run whose exceptions the caller catches before going on. */
  function RunCatching(s: PacketState, ops: seq<Op>): Option<PacketState>
    decreases |ops|
  {
    if ops == [] then Some(s)
    else if !Writable(s) || !Defined(s, ops[0]) then None
    else RunCatching(Apply(s, ops[0]).next, ops[1..])
  }

  /** No resize of the run cuts the buffer below the read cursor. */
  predicate ResizesSpareReader(s: PacketState, ops: seq<Op>)
    requires Run(s, ops).Some?
    decreases |ops|
  {
    ops == [] ||
    ((ops[0].OpResize? ==> s.readPos <= Clamp(ops[0].size)) &&
     ResizesSpareReader(Apply(s, ops[0]).next, ops[1..]))
  }

  ghost predicate ValidThroughout(s: PacketState, ops: seq<Op>)
    requires Run(s, ops).Some?
    decreases |ops|
  {
    Valid(s) && (ops == [] || ValidThroughout(Apply(s, ops[0]).next, ops[1..]))
  }

  /** One call that returns keeps a packet valid, unless it is a resize below the read cursor. */
  lemma StepKeepsValid(s: PacketState, op: Op)
    requires Valid(s) && Apply(s, op).outcome.Returned?
    ensures Valid(Apply(s, op).next) <==> (op.OpResize? ==> s.readPos <= Clamp(op.size))
  {
    match op
    case OpWrite(bytes, whole) =>
      CapacityLaw(s, bytes, whole);
      if WriteData(s, bytes, whole).outcome == Returned(|bytes|) {
        WriteLaysBytes(s, bytes, whole);
      }
    case OpRead(_, _) =>
    case OpSeek(_, _, _) =>
    case OpClear => ClearedIsValid(s);
    case OpResize(size) => ResizeExactly(s, size);
  }

  /** Whole-run invariant, exactly: a run of returning calls keeps the packet valid after every
      one of them if and only if no resize in it cuts below the read cursor. */
  lemma {:induction false} WholeRunValidity(s: PacketState, ops: seq<Op>)
    requires Valid(s) && Run(s, ops).Some?
    ensures ValidThroughout(s, ops) <==> ResizesSpareReader(s, ops)
    ensures ResizesSpareReader(s, ops) ==> Valid(Run(s, ops).value)
    decreases |ops|
  {
    if ops == [] {
    } else {
      StepKeepsValid(s, ops[0]);
      var next := Apply(s, ops[0]).next;
      if Valid(next) {
        WholeRunValidity(next, ops[1..]);
      } else {
        assert !ValidThroughout(next, ops[1..]);
      }
    }
  }

  lemma WriteKeepsCoherent(s: PacketState, bytes: seq<byte>, whole: bool)
    requires Coherent(s)
    ensures Coherent(WriteData(s, bytes, whole).next)
  {
    if !s.Full() && !(whole && s.writePos + |bytes| > DATAGRAM_SIZE) {
      var n := Min(DATAGRAM_SIZE - s.writePos, |bytes|);
      StampVerifies(Splice(s.data, s.writePos, bytes[..n]));
    }
    hide Splice, Stamp, FromLe;
  }

  lemma StepKeepsCoherent(s: PacketState, op: Op)
    requires Coherent(s) && Defined(s, op)
    ensures Coherent(Apply(s, op).next)
  {
    match op
    case OpWrite(bytes, whole) => WriteKeepsCoherent(s, bytes, whole);
    case OpRead(_, _) =>
    case OpSeek(_, _, _) =>
    case OpClear => ClearedIsValid(s);
    case OpResize(size) => StampVerifies(Fit(s.data, Clamp(size)));
  }

  /** However many calls throw and are caught, the packet stays coherent, and one `clear`
      makes it valid and empty again. */
  lemma {:induction false} CaughtRunStaysCoherent(s: PacketState, ops: seq<Op>)
    requires Coherent(s) && RunCatching(s, ops).Some?
    ensures Coherent(RunCatching(s, ops).value)
    ensures Valid(Cleared(RunCatching(s, ops).value))
    decreases |ops|
  {
    if ops == [] {
      ClearedIsValid(s);
    } else {
      StepKeepsCoherent(s, ops[0]);
      CaughtRunStaysCoherent(Apply(s, ops[0]).next, ops[1..]);
    }
  }

  /** When a resize of any packet returns, and what it leaves: the kept bytes, then zeroes. */
  lemma ResizeExactly(s: PacketState, size: nat)
    ensures var r, n := Resize(s, size), if size < 2 then 2 else if size > 65536 then 65536 else size;
            && (r.outcome.Returned? <==> 2 <= s.writePos <= n < 65536)
            && r.next == s.(data := r.next.data,
                            writePos := if r.outcome.Returned? then s.writePos
                                        else if n == 65536 then 0 else 2)
            && |r.next.data| == n
            && (forall i | HEADER <= i < n ::
                  r.next.data[i] == if i < |s.data| then s.data[i] else 0)
            && (n < DATAGRAM_SIZE ==> r.next.VerifySize())
  {
    var fitted := Fit(s.data, Clamp(size));
    StampVerifies(fitted);
    forall i | HEADER <= i < |fitted| ensures Stamp(fitted)[i] == fitted[i] {
      assert Stamp(fitted)[i] == Stamp(fitted)[HEADER..][i - HEADER];
    }
  }

  /** A concrete packet whose read cursor a returning resize leaves past the end of the buffer. */
  lemma ResizeCanStrandReader()
    ensures exists s: PacketState, op: Op ::
              Valid(s) && op.OpResize? && Apply(s, op).outcome.Returned? && !Readable(Apply(s, op).next)
  {
    var s := PacketState(Stamp([0, 0, 7, 7]), 4, 2, -1, -1, -1);
    StampVerifies([0, 0, 7, 7]);
    assert Valid(s);
    var op := OpResize(3);
    assert !Readable(Apply(s, op).next);
  }

  // ---------------------------------------------------------------------------
  // Capacity

  /** The exact capacity law. The constant is 65536, but a buffer that reaches it cannot have its
      header rewritten, so a write succeeds exactly when it ends at 65535 or before. */
  lemma CapacityLaw(s: PacketState, bytes: seq<byte>, whole: bool)
    requires HasRoom(s)
    ensures var w, end := WriteData(s, bytes, whole), s.writePos + |bytes|;
            && (w.outcome == Returned(|bytes|) <==> end < DATAGRAM_SIZE)
            && (w.outcome == Threw <==> end == DATAGRAM_SIZE || (end > DATAGRAM_SIZE && !whole))
            && (end > DATAGRAM_SIZE && whole ==> w == Step(Returned(0), s))
            && (w.outcome.Threw? ==>
                w.next == s.(data := s.data[..s.writePos] + bytes[..65536 - s.writePos], writePos := 0))
  {
  }

  /** A write at position 0 lays its bytes over the header too and does not rewrite it. */
  lemma WriteAtZero(s: PacketState, bytes: seq<byte>, whole: bool)
    requires Writable(s) && s.writePos == 0 && !s.Full() && |bytes| <= 65536
    ensures var w := WriteData(s, bytes, whole);
            && w.outcome == Returned(|bytes|)
            && w.next == s.(data := w.next.data, writePos := |bytes|)
            && w.next.data == bytes + (if |bytes| < |s.data| then s.data[|bytes|..] else [])
  {
    assert bytes[..|bytes|] == bytes;
  }

  lemma SpliceLays(data: seq<byte>, pos: nat, bytes: seq<byte>)
    requires pos <= |data|
    ensures var spliced := Splice(data, pos, bytes);
            && spliced[..pos] == data[..pos]
            && spliced[pos..pos + |bytes|] == bytes
            && (pos + |bytes| <= |data| ==> spliced[pos + |bytes|..] == data[pos + |bytes|..])
  {
  }

  lemma SpliceKeepsOutside(data: seq<byte>, pos: nat, bytes: seq<byte>, from: nat, to: nat)
    requires pos + |bytes| <= |data| && from <= to <= |data|
    requires to <= pos || pos + |bytes| <= from
    ensures Splice(data, pos, bytes)[from..to] == data[from..to]
  {
  }

  lemma StampKeepsSlices(data: seq<byte>, from: nat, to: nat)
    requires HEADER <= from <= to <= |data|
    ensures Stamp(data)[from..to] == data[from..to]
  {
  }

  lemma StampedSpliceLays(data: seq<byte>, pos: nat, bytes: seq<byte>)
    requires HEADER <= pos <= |data|
    ensures var d, end := Stamp(Splice(data, pos, bytes)), pos + |bytes|;
            && d[pos..end] == bytes
            && d[HEADER..pos] == data[HEADER..pos]
            && (end <= |data| ==> d[end..] == data[end..])
  {
    var spliced, end := Splice(data, pos, bytes), pos + |bytes|;
    SpliceLays(data, pos, bytes);
    StampKeepsSlices(spliced, pos, end);
    StampKeepsSlices(spliced, HEADER, pos);
    StampKeepsSlices(spliced, end, |spliced|);
    hide Splice, Stamp;
    assert spliced[HEADER..pos] == spliced[..pos][HEADER..];
  }

  lemma StampedSpliceVerifies(data: seq<byte>, pos: nat, bytes: seq<byte>)
    requires HEADER <= pos <= |data| <= DATAGRAM_SIZE && pos + |bytes| <= DATAGRAM_SIZE
    ensures var d := Stamp(Splice(data, pos, bytes));
            |d| == Max(|data|, pos + |bytes|) && FromLe(d[..HEADER]) == |d| - HEADER
  {
    hide Splice, Stamp, FromLe, Le;
    StampVerifies(Splice(data, pos, bytes));
  }

  lemma WrittenWhole(s: PacketState, bytes: seq<byte>, whole: bool)
    requires HasRoom(s) && WriteData(s, bytes, whole).outcome == Returned(|bytes|)
    ensures s.writePos + |bytes| < DATAGRAM_SIZE
    ensures WriteData(s, bytes, whole).next
            == s.(data := Stamp(Splice(s.data, s.writePos, bytes)), writePos := s.writePos + |bytes|)
  {
    CapacityLaw(s, bytes, whole);
    hide Stamp, Splice;
    assert bytes[..|bytes|] == bytes;
  }

  /** `t` is `s` with `bytes` laid at the write cursor, the cursor moved past them, the header right,
      and nothing else changed. */
  ghost predicate Lays(s: PacketState, t: PacketState, bytes: seq<byte>)
    requires HEADER <= s.writePos <= |s.data|
  {
    var pos, end := s.writePos, s.writePos + |bytes|;
    && t == s.(data := t.data, writePos := end)
    && |t.data| == Max(|s.data|, end)
    && t.data[pos..end] == bytes
    && t.data[HEADER..pos] == s.data[HEADER..pos]
    && (end <= |s.data| ==> t.data[end..] == s.data[end..])
    && t.VerifySize()
  }

  /** A successful write leaves exactly `bytes` at the old write cursor, moves that cursor past
      them, and changes nothing else but the header. */
  lemma WriteLaysBytes(s: PacketState, bytes: seq<byte>, whole: bool)
    requires HasRoom(s) && WriteData(s, bytes, whole).outcome == Returned(|bytes|)
    ensures Lays(s, WriteData(s, bytes, whole).next, bytes)
    ensures HasRoom(WriteData(s, bytes, whole).next)
  {
    hide WriteData, Splice, Stamp, FromLe, Le;
    WrittenWhole(s, bytes, whole);
    StampedSpliceVerifies(s.data, s.writePos, bytes);
    StampedSpliceLays(s.data, s.writePos, bytes);
  }

  lemma LaysNothing(s: PacketState)
    requires HasRoom(s)
    ensures Lays(s, s, [])
  {
  }

  lemma SplitSlices(a: seq<byte>, b: seq<byte>, from: nat, mid: nat, to: nat)
    requires from <= mid <= to <= |a| && to <= |b|
    requires a[from..to] == b[from..to]
    ensures a[from..mid] == b[from..mid] && a[mid..to] == b[mid..to]
  {
    forall i | from <= i < to ensures a[i] == b[i] {
      assert a[i] == a[from..to][i - from] && b[i] == b[from..to][i - from];
    }
  }

  /** Laying `a`, then `b`, is laying both. */
  lemma LaysTwice(s: PacketState, t: PacketState, u: PacketState, a: seq<byte>, b: seq<byte>)
    requires HEADER <= s.writePos <= |s.data| && Lays(s, t, a) && Lays(t, u, b)
    ensures Lays(s, u, a + b)
  {
    hide FromLe;
    var pos, mid, end := s.writePos, s.writePos + |a|, s.writePos + |a| + |b|;
    SplitSlices(u.data, t.data, HEADER, pos, mid);
    assert u.data[pos..end] == u.data[pos..mid] + u.data[mid..end];
    if end <= |s.data| {
      assert t.data[end..] == t.data[mid..][|b|..] == s.data[mid..][|b|..] == s.data[end..];
    }
  }

  /** What a write at the end of the buffer leaves when it succeeds. */
  function Appended(s: PacketState, bytes: seq<byte>): (r: PacketState)
    requires |s.data| >= HEADER
    ensures |r.data| == |s.data| + |bytes| && r == s.(data := r.data, writePos := |r.data|)
  {
    s.(data := Stamp(s.data + bytes), writePos := |s.data| + |bytes|)
  }

  ghost predicate AtEnd(s: PacketState) {
    Valid(s) && s.writePos == |s.data|
  }

  lemma AppendExactly(s: PacketState, bytes: seq<byte>)
    requires AtEnd(s)
    ensures var w := WriteData(s, bytes, true);
            if |s.data| + |bytes| < DATAGRAM_SIZE then
              w == Step(Returned(|bytes|), Appended(s, bytes)) && AtEnd(w.next)
            else if |s.data| + |bytes| == DATAGRAM_SIZE then w.outcome == Threw
            else w == Step(Returned(0), s)
  {
    assert bytes[..|bytes|] == bytes;
    if |s.data| + |bytes| < DATAGRAM_SIZE {
      assert Splice(s.data, s.writePos, bytes) == s.data + bytes;
      StampVerifies(s.data + bytes);
    }
  }

  /** Two appends are one append of both. */
  lemma AppendedTwice(s: PacketState, a: seq<byte>, b: seq<byte>)
    requires HEADER <= |s.data|
    ensures Appended(Appended(s, a), b) == Appended(s, a + b)
  {
    var once := Appended(s, a);
    assert once.data[HEADER..] == (s.data + a)[HEADER..];
    assert once.data + b == Le(HEADER, |s.data + a| - HEADER) + ((s.data + a)[HEADER..] + b);
    assert (once.data + b)[HEADER..] == (s.data + a)[HEADER..] + b == (s.data + (a + b))[HEADER..];
  }

  // ---------------------------------------------------------------------------
  // Seeking

  /** Where the read cursor goes: to `value` bytes after the header, to `value` bytes from where it
      was, or to `value` bytes before the end, if that lies in the payload; otherwise the seek throws
      and changes nothing. */
  lemma ReadSeekLands(s: PacketState, value: int)
    requires Valid(s)
    ensures Seek(s, ReadCursor, FromStart, value) ==
            if 0 <= value <= |s.data| - 2 then Step(Returned(()), s.(readPos := 2 + value))
            else Step(Threw, s)
    ensures Seek(s, ReadCursor, Relative, value) ==
            if 2 <= s.readPos + value <= |s.data| then Step(Returned(()), s.(readPos := s.readPos + value))
            else Step(Threw, s)
    ensures Seek(s, ReadCursor, FromEnd, value) ==
            if 0 <= value <= |s.data| - 2 then Step(Returned(()), s.(readPos := |s.data| - value))
            else Step(Threw, s)
  {
  }

  /** The same for the write cursor. */
  lemma WriteSeekLands(s: PacketState, value: int)
    requires Valid(s)
    ensures Seek(s, WriteCursor, FromStart, value) ==
            if 0 <= value <= |s.data| - 2 then Step(Returned(()), s.(writePos := 2 + value))
            else Step(Threw, s)
    ensures Seek(s, WriteCursor, Relative, value) ==
            if 2 <= s.writePos + value <= |s.data| then Step(Returned(()), s.(writePos := s.writePos + value))
            else Step(Threw, s)
    ensures Seek(s, WriteCursor, FromEnd, value) ==
            if 0 <= value <= |s.data| - 2 then Step(Returned(()), s.(writePos := |s.data| - value))
            else Step(Threw, s)
  {
  }

  /** A relative seek that returns is undone by the opposite one. */
  lemma SeekThereAndBack(s: PacketState, cursor: SeekCursor, value: int)
    requires Valid(s) && Seek(s, cursor, Relative, value).outcome.Returned?
    ensures var there := Seek(s, cursor, Relative, value).next;
            && Valid(there)
            && Seek(there, cursor, Relative, -value) == Step(Returned(()), s)
  {
  }

  /** A seek of both cursors is a seek of the read cursor and then one of the write cursor. It is not
      atomic: when only the write cursor cannot move, the call throws with the read cursor already
      moved. */
  lemma SeekBothLands(s: PacketState, kind: SeekType, value: int)
    requires Valid(s)
    ensures var n, r := |s.data|, Seek(s, BothCursors, kind, value);
            var reader, writer := if kind == Relative then s.readPos + value
                                  else if kind == FromStart then 2 + value else n - value,
                                  if kind == Relative then s.writePos + value
                                  else if kind == FromStart then 2 + value else n - value;
            && Valid(r.next)
            && (r.outcome.Returned? <==> 2 <= reader <= n && 2 <= writer <= n)
            && r.next == s.(readPos := if 2 <= reader <= n then reader else s.readPos,
                            writePos := if r.outcome.Returned? then writer else s.writePos)
  {
  }

  // ---------------------------------------------------------------------------
  // First in, first out

  /** The bytes still to be read. */
  function Pending(s: PacketState): seq<byte>
    requires Readable(s)
  {
    s.data[s.readPos..]
  }

  predicate IsTransfer(op: Op) {
    op.OpRead? || op.OpWrite?
  }

  /** The bytes one operation takes into the packet. */
  function Accepted(s: PacketState, op: Op): seq<byte>
    requires Writable(s) && Defined(s, op) && Apply(s, op).outcome.Returned?
  {
    match op
    case OpWrite(bytes, whole) => bytes[..WriteData(s, bytes, whole).outcome.value]
    case _ => []
  }

  /** The bytes one operation hands to the caller. */
  function Delivered(s: PacketState, op: Op): seq<byte>
    requires Defined(s, op)
  {
    match op
    case OpRead(size, whole) => ReadData(s, size, whole).0
    case _ => []
  }

  /** All bytes the writes of a run accepted, in order. */
  function AllAccepted(s: PacketState, ops: seq<Op>): seq<byte>
    requires Run(s, ops).Some?
    decreases |ops|
  {
    if ops == [] then [] else Accepted(s, ops[0]) + AllAccepted(Apply(s, ops[0]).next, ops[1..])
  }

  /** All bytes the reads of a run delivered, in order. */
  function AllDelivered(s: PacketState, ops: seq<Op>): seq<byte>
    requires Run(s, ops).Some?
    decreases |ops|
  {
    if ops == [] then [] else Delivered(s, ops[0]) + AllDelivered(Apply(s, ops[0]).next, ops[1..])
  }

  lemma AppendedPending(s: PacketState, bytes: seq<byte>)
    requires AtEnd(s) && |s.data| + |bytes| < DATAGRAM_SIZE
    ensures Readable(Appended(s, bytes)) && Pending(Appended(s, bytes)) == Pending(s) + bytes
  {
    var t := Appended(s, bytes);
    StampVerifies(s.data + bytes);
    assert Pending(t) == t.data[HEADER..][s.readPos - HEADER..];
    assert (s.data + bytes)[s.readPos..] == Pending(s) + bytes;
  }

  lemma ReadTakesFront(s: PacketState, size: nat, whole: bool)
    requires Readable(s)
    ensures var (bytes, t) := ReadData(s, size, whole);
            && Pending(s) == bytes + Pending(t)
            && |bytes| == (if size <= |Pending(s)| then size else if whole then 0 else |Pending(s)|)
            && (bytes == [] ==> t == s)
  {
    var (bytes, t) := ReadData(s, size, whole);
    assert s.data[s.readPos..] == s.data[s.readPos..t.readPos] + s.data[t.readPos..];
    assert bytes == s.data[s.readPos..t.readPos];
  }

  /** A write never moves the read cursor, a read never moves the write cursor or changes a byte,
      and either way the queue of pending bytes is kept. A read delivers all it is asked for when
      there is as much; otherwise a whole read delivers nothing and changes nothing. */
  lemma TransferStep(s: PacketState, op: Op)
    requires AtEnd(s) && IsTransfer(op) && Apply(s, op).outcome.Returned?
    ensures var t := Apply(s, op).next;
            && AtEnd(t)
            && Pending(s) + Accepted(s, op) == Delivered(s, op) + Pending(t)
            && (op.OpWrite? ==> t.readPos == s.readPos)
            && (op.OpRead? ==>
                && t == s.(readPos := t.readPos)
                && (op.size <= |Pending(s)| ==> |Delivered(s, op)| == op.size)
                && (op.size > |Pending(s)| && op.whole ==> Delivered(s, op) == [] && t == s))
  {
    match op
    case OpWrite(bytes, whole) =>
      CapacityLaw(s, bytes, whole);
      AppendExactly(s, bytes);
      assert bytes[..|bytes|] == bytes;
      if |s.data| + |bytes| < DATAGRAM_SIZE {
        AppendedPending(s, bytes);
        assert WriteData(s, bytes, whole) == WriteData(s, bytes, true);
      }
    case OpRead(size, whole) =>
      ReadTakesFront(s, size, whole);
      assert Pending(s) + [] == Pending(s);
  }

  /** Two stretches of queue traffic, one after the other, are one stretch. */
  lemma QueuesCompose<T>(q0: seq<T>, in0: seq<T>, out0: seq<T>, q1: seq<T>,
                         in1: seq<T>, out1: seq<T>, q2: seq<T>)
    requires q0 + in0 == out0 + q1
    requires q1 + in1 == out1 + q2
    ensures q0 + (in0 + in1) == (out0 + out1) + q2
  {
    calc {
      q0 + (in0 + in1);
      (q0 + in0) + in1;
      out0 + (q1 + in1);
      (out0 + out1) + q2;
    }
  }

  /** A packet used as a queue: over any interleaving of returning writes and reads, starting with
      the write cursor at the end, what was pending and what was written comes out in order, the
      rest still pending. */
  lemma {:induction false} FirstInFirstOut(s: PacketState, ops: seq<Op>)
    requires AtEnd(s) && Run(s, ops).Some?
    requires forall op | op in ops :: IsTransfer(op)
    ensures var t := Run(s, ops).value;
            && AtEnd(t)
            && Pending(s) + AllAccepted(s, ops) == AllDelivered(s, ops) + Pending(t)
    decreases |ops|
  {
    if ops == [] {
    } else {
      var next, rest := Apply(s, ops[0]).next, ops[1..];
      TransferStep(s, ops[0]);
      FirstInFirstOut(next, rest);
      QueuesCompose(Pending(s), Accepted(s, ops[0]), Delivered(s, ops[0]), Pending(next),
                    AllAccepted(next, rest), AllDelivered(next, rest), Pending(Run(s, ops).value));
    }
  }

  /** Reading bytes that are next takes exactly those bytes off the front of the queue. */
  lemma TakeExactly(s: PacketState, bytes: seq<byte>, rest: seq<byte>)
    requires Valid(s) && Pending(s) == bytes + rest
    ensures var after := s.(readPos := s.readPos + |bytes|);
            && ReadData(s, |bytes|, true) == (bytes, after)
            && Valid(after) && Pending(after) == rest
  {
    var after := s.(readPos := s.readPos + |bytes|);
    assert Pending(s)[..|bytes|] == bytes && Pending(s)[|bytes|..] == rest;
    assert s.data[s.readPos..s.readPos + |bytes|] == Pending(s)[..|bytes|];
    assert Pending(after) == Pending(s)[|bytes|..];
  }

  /** A whole read that delivers depends only on the bytes it delivers. */
  lemma ReadIsLocal(s: PacketState, t: PacketState, size: nat)
    requires Readable(s) && Readable(t) && |s.data| == |t.data| && s.readPos == t.readPos
    requires s.readPos + size <= |s.data| && !s.Empty()
    requires s.data[s.readPos..s.readPos + size] == t.data[s.readPos..s.readPos + size]
    ensures ReadData(t, size, true) == (ReadData(s, size, true).0, t.(readPos := s.readPos + size))
    ensures ReadData(s, size, true).1 == s.(readPos := s.readPos + size)
  {
  }

  // ---------------------------------------------------------------------------
  // Patching a field in place

  /** Seek to `k`, write over what is there, seek back to the end. */
  function PatchOps(k: nat, bytes: seq<byte>): seq<Op> {
    [OpSeek(WriteCursor, FromStart, k), OpWrite(bytes, true), OpSeek(WriteCursor, FromEnd, 0)]
  }

  lemma RunOfThree(s0: PacketState, s1: PacketState, s2: PacketState, s3: PacketState,
                   a: Op, b: Op, c: Op)
    requires Writable(s0) && Defined(s0, a) && Apply(s0, a).outcome.Returned? && Apply(s0, a).next == s1
    requires Writable(s1) && Defined(s1, b) && Apply(s1, b).outcome.Returned? && Apply(s1, b).next == s2
    requires Writable(s2) && Defined(s2, c) && Apply(s2, c).outcome.Returned? && Apply(s2, c).next == s3
    ensures Run(s0, [a, b, c]) == Some(s3)
  {
    assert [a, b, c][1..] == [b, c] && [b, c][1..] == [c] && [c][1..] == [];
    assert Run(s2, [c]) == Some(s3);
    assert Run(s1, [b, c]) == Some(s3);
  }

  lemma WriteInPlace(s: PacketState, bytes: seq<byte>)
    requires HasRoom(s) && s.writePos + |bytes| <= |s.data|
    ensures var spliced := Splice(s.data, s.writePos, bytes);
            && WriteData(s, bytes, true)
               == Step(Returned(|bytes|), s.(data := spliced, writePos := s.writePos + |bytes|))
            && spliced[..HEADER] == s.data[..HEADER]
  {
    hide WriteData, Splice, Stamp, FromLe, Le;
    var spliced := Splice(s.data, s.writePos, bytes);
    CapacityLaw(s, bytes, true);
    WrittenWhole(s, bytes, true);
    SpliceKeepsOutside(s.data, s.writePos, bytes, 0, HEADER);
    assert spliced[0..HEADER] == s.data[0..HEADER];
    StampIsIdempotent(spliced);
  }

  /** Patching keeps the size, the header, the read cursor and every byte outside the patch. */
  lemma InPlacePatch(s: PacketState, k: nat, bytes: seq<byte>)
    requires Valid(s) && k + |bytes| <= s.WorkSize()
    ensures Run(s, PatchOps(k, bytes)) ==
            Some(s.(data := Splice(s.data, HEADER + k, bytes), writePos := |s.data|))
    ensures Splice(s.data, HEADER + k, bytes)[..HEADER] == s.data[..HEADER]
  {
    var s1 := s.(writePos := HEADER + k);
    var s2 := WriteData(s1, bytes, true).next;
    WriteInPlace(s1, bytes);
    hide WriteData, Splice, Stamp;
    RunOfThree(s, s1, s2, s2.(writePos := |s.data|), PatchOps(k, bytes)[0], PatchOps(k, bytes)[1],
               PatchOps(k, bytes)[2]);
  }
}
