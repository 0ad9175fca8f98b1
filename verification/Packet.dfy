/** The packet as the library implements it: one growing buffer, five positions, and a writer that
    re-enters itself to keep the length header up to date. Every method is proved to do what the
    closed forms of PacketSpec and Typed say. */
module PacketBuffer {
  import opened Bytes
  import opened Spec = PacketSpec
  import opened Typed

  class Packet {
    var data: seq<byte>
    var readPos: int
    var writePos: int
    var sendPos: int
    var recvPos: int
    var recvTarget: int

    function State(): PacketState
      reads this
    {
      PacketState(data, readPos, writePos, sendPos, recvPos, recvTarget)
    }

    constructor ()
      ensures State() == NewPacket()
      ensures Valid(State())
    {
      data, readPos, writePos := [], HEADER, HEADER;
      sendPos, recvPos, recvTarget := -1, -1, -1;
      new;
      Clear();
      ClearedIsValid(NewPacket());
    }

    function WorkSize(): nat
      reads this
    {
      State().WorkSize()
    }

    /** A cursor counted from the start of the payload. */
    function Tell(cursor: SeekCursor): int
      reads this
    {
      match cursor
      case ReadCursor => readPos - HEADER
      case WriteCursor => writePos - HEADER
      case BothCursors => -1
    }

    /** Where a seek moves the cursor that stands at `pos`. */
    method SeekImpl(kind: SeekType, pos: int, value: int) returns (r: Outcome<int>)
      ensures r == SeekPos(kind, pos, WorkSize(), value)
      ensures |data| >= HEADER ==>
                var target := match kind
                  case FromStart => 2 + value
                  case Relative => pos + value
                  case FromEnd => |data| - value;
                r == if 2 <= target <= |data| then Returned(target) else Threw
    {
      var workPos := pos - HEADER;
      match kind {
        case FromStart =>
          if value < 0 || value > WorkSize() { return Threw; }
          return Returned(value + HEADER);
        case Relative =>
          var result := workPos + value;
          if result < 0 || result > WorkSize() { return Threw; }
          return Returned(result + HEADER);
        case FromEnd =>
          if value < 0 { return Threw; }
          var result := WorkSize() - value;
          if result < 0 { return Threw; }
          return Returned(result + HEADER);
      }
    }

    method Seek(cursor: SeekCursor, kind: SeekType, value: int) returns (r: Outcome<()>)
      modifies this
      ensures Step(r, State()) == Spec.Seek(old(State()), cursor, kind, value)
    {
      if cursor != WriteCursor {
        var pos := SeekImpl(kind, readPos, value);
        if pos.Threw? { return Threw; }
        readPos := pos.value;
      }
      if cursor != ReadCursor {
        var pos := SeekImpl(kind, writePos, value);
        if pos.Threw? { return Threw; }
        writePos := pos.value;
      }
      return Returned(());
    }

    method ReadData(size: nat, whole: bool) returns (bytes: seq<byte>)
      requires Readable(State())
      modifies this`readPos
      ensures (bytes, State()) == Spec.ReadData(old(State()), size, whole)
    {
      if WorkSize() == 0 { return []; }
      var readSize := Min(|data| - readPos, size);
      assert data[readPos..readPos] == [];
      if readSize == 0 || (whole && readSize < size) { return []; }
      bytes := data[readPos..readPos + readSize];
      readPos := readPos + readSize;
    }

    /** The writer. It re-enters itself through `UpdateSize` to rewrite the header, with the write
        cursor at 0, and a write at 0 leaves the header alone: that is why it terminates. */
    method WriteData(bytes: seq<byte>, whole: bool) returns (r: Outcome<nat>)
      requires Writable(State())
      modifies this
      ensures Step(r, State()) == Spec.WriteData(old(State()), bytes, whole)
      decreases if writePos > 0 then 4 else 0
    {
      hide Fit, Overlay, Splice, Stamp;
      if |data| == DATAGRAM_SIZE { return Returned(0); }
      var writeEnd := writePos + |bytes|;
      if whole && writeEnd > DATAGRAM_SIZE { return Returned(0); }
      var writeSize := Min(DATAGRAM_SIZE - writePos, |bytes|);
      writeEnd := writePos + writeSize;
      GrowThenCopy(data, writePos, bytes[..writeSize]);
      if writeEnd > |data| {
        data := Fit(data, writeEnd);
      }
      data := Overlay(data, writePos, bytes[..writeSize]);
      var oldPos := writePos;
      writePos := writePos + writeSize;
      if oldPos > 0 {
        var updated := UpdateSize();
        if updated.Threw? { return Threw; }
      }
      return Returned(writeSize);
    }

    /** Rewrite the header by writing the payload length at position 0, then put the write cursor
        back. A normal return changes the first two bytes and nothing else. */
    method UpdateSize() returns (r: Outcome<()>)
      requires HEADER <= |data| <= DATAGRAM_SIZE
      modifies this
      ensures Step(r, State()) == Spec.UpdateSize(old(State()))
      ensures r.Returned? ==> data[HEADER..] == old(data)[HEADER..] && writePos == old(writePos)
      decreases 3
    {
      var lastWrite := Tell(WriteCursor);
      writePos := 0;
      var written := PutLength(WorkSize());
      if written.Threw? { return Threw; }
      r := Seek(WriteCursor, FromStart, lastWrite);
    }

    /** `operator<<` for the 16-bit length type. */
    method PutLength(length: nat) returns (r: Outcome<()>)
      requires Writable(State())
      modifies this
      ensures var w := Spec.WriteData(old(State()), Le(HEADER, length), true);
              State() == w.next && r == if w.outcome == Returned(2) then Returned(()) else Threw
      decreases if writePos > 0 then 6 else 2
    {
      r := WriteEnforced(Le(HEADER, length));
    }

    method WriteEnforced(bytes: seq<byte>) returns (r: Outcome<()>)
      requires Writable(State())
      modifies this
      ensures var w := Spec.WriteData(old(State()), bytes, true);
              State() == w.next && r == if w.outcome == Returned(|bytes|) then Returned(()) else Threw
      decreases if writePos > 0 then 5 else 1
    {
      var n := WriteData(bytes, true);
      return if n == Returned(|bytes|) then Returned(()) else Threw;
    }

    method Resize(size: nat) returns (r: Outcome<()>)
      modifies this
      ensures Step(r, State()) == Spec.Resize(old(State()), size)
    {
      var clamped := Max(HEADER, Min(DATAGRAM_SIZE, size));
      data := Fit(data, clamped);
      r := UpdateSize();
    }

    /** Clearing works on every packet, whatever an exception left in it. */
    method Clear()
      modifies this
      ensures State() == Cleared(old(State()))
      ensures data == [0, 0] && readPos == 2 && writePos == 2
      ensures sendPos == old(sendPos) && recvPos == old(recvPos) && recvTarget == old(recvTarget)
    {
      readPos, writePos := HEADER, HEADER;
      var resized := Resize(HEADER);
      assert resized.Returned?;
      assert data == [0, 0];
    }

    // -------------------------------------------------------------------------
    // Typed access

    /** `write(const std::string&)`: the length is written, then the characters even if the length
        was refused; anything short of both is an exception. */
    method WriteString(chars: seq<byte>) returns (r: Outcome<()>)
      requires Coherent(State())
      modifies this
      ensures Step(r, State()) == PutString(old(State()), chars)
    {
      if |chars| > MAX_STRING { return Threw; }
      WriteKeepsCoherent(State(), Le(2, |chars|), true);
      var prefix := WriteData(Le(2, |chars|), true);
      if prefix.Threw? { return Threw; }
      var body := WriteData(chars, true);
      if body.Threw? { return Threw; }
      return if prefix.value + body.value == 2 + |chars| then Returned(()) else Threw;
    }

    /** `operator<<` for a value of any wire type. */
    method Put(v: Value) returns (r: Outcome<()>)
      requires Coherent(State()) && v.WellTyped()
      modifies this
      ensures Step(r, State()) == Typed.Put(old(State()), v)
    {
      if v.StringV? {
        r := WriteString(v.chars);
      } else {
        r := WriteEnforced(Image(v));
      }
    }

    /** `operator<<` for a packet: its payload, all of it or an exception. A packet is never
        appended to itself. */
    method Append(packet: Packet) returns (r: Outcome<()>)
      requires packet != this && Coherent(State())
      modifies this
      ensures Step(r, State()) == PutPacket(old(State()), packet.State())
    {
      var written := Returned(0);
      if packet.WorkSize() != 0 {
        written := WriteData(packet.data[HEADER..], true);
      }
      return if written == Returned(packet.WorkSize()) then Returned(()) else Threw;
    }

    /** `read(std::string&)`: nothing when it reports 0 bytes and leaves the string alone. What it
        makes of the characters ends at the first zero byte. */
    method ReadString() returns (r: Outcome<Option<seq<byte>>>)
      requires Readable(State())
      modifies this`readPos
      ensures Step(r, State()) == Typed.ReadString(old(State()))
    {
      var prefix := ReadData(2, true);
      if prefix == [] { return Returned(None); }
      var size := ToSigned(2, FromLe(prefix));
      if size < 0 { return Threw; }
      var chars := ReadData(size, true);
      return Returned(if chars == [] then None else Some(UpToZero(chars)));
    }

    /** `operator>>` for a value of any wire type. */
    method Get(t: WireType) returns (r: Outcome<Value>)
      requires Readable(State()) && Proper(t)
      modifies this`readPos
      ensures Step(r, State()) == Typed.Get(old(State()), t)
    {
      if t.StringT? {
        var chars := ReadString();
        if chars.Threw? || chars.value.None? { return Threw; }
        return Returned(StringV(chars.value.value));
      }
      var bytes := ReadData(Width(t), true);
      if |bytes| != Width(t) { return Threw; }
      var meaning := Meaning(t, bytes);
      return if meaning.None? then Threw else Returned(meaning.value);
    }

    // -------------------------------------------------------------------------
    // Send and receive positions

    function SendRemainder(): int
      reads this
    {
      Spec.SendRemainder(|data|, sendPos)
    }

    function RecvRemainder(): int
      reads this
    {
      if recvTarget < 0 || recvPos < HEADER then 0 else recvTarget - (recvPos - HEADER)
    }

    method SendReset()
      modifies this`sendPos
      ensures State() == old(State()).(sendPos := -1)
    {
      sendPos := -1;
    }

    method RecvReset()
      modifies this`recvPos, this`recvTarget
      ensures State() == old(State()).(recvPos := -1, recvTarget := -1)
    {
      recvPos, recvTarget := -1, -1;
    }
  }
}
