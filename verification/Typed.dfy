/** The typed layer: booleans, fixed-width integers, floating-point bit patterns, strings and
    packets, written with `<<` and read with `>>`. */
module Typed {
  import opened Bytes
  import opened PacketSpec

  // The length limit of a string in a packet.
  const MAX_STRING: int := 32767

  datatype WireType =
    | BoolT
    | UnsignedT(width: nat)
    | SignedT(width: nat)
    | FloatT(width: nat)
    | StringT

  /** A floating-point value is its bit pattern. */
  datatype Value =
    | BoolV(b: bool)
    | UnsignedV(width: nat, n: nat)
    | SignedV(width: nat, i: int)
    | FloatV(bits: seq<byte>)
    | StringV(chars: seq<byte>)
  {
    function Type(): WireType {
      match this
      case BoolV(_) => BoolT
      case UnsignedV(width, _) => UnsignedT(width)
      case SignedV(width, _) => SignedT(width)
      case FloatV(bits) => FloatT(|bits|)
      case StringV(_) => StringT
    }

    /** The value is one of its C++ type. */
    predicate WellTyped() {
      match this
      case BoolV(_) => true
      case UnsignedV(width, n) => width in {1, 2, 4, 8} && n < Pow256(width)
      case SignedV(width, i) =>
        width in {1, 2, 4, 8} && 0 <= 2 * i + Pow256(width) < 2 * Pow256(width)
      case FloatV(bits) => |bits| in {4, 8}
      case StringV(_) => true
    }

    predicate Storable() {
      StringV? ==> |chars| <= MAX_STRING
    }

    predicate EmptyString() {
      this == StringV([])
    }

    predicate HoldsZero() {
      StringV? && 0 in chars
    }
  }

  predicate Proper(t: WireType) {
    match t
    case BoolT => true
    case UnsignedT(width) => width in {1, 2, 4, 8}
    case SignedT(width) => width in {1, 2, 4, 8}
    case FloatT(width) => width in {4, 8}
    case StringT => true
  }

  function Width(t: WireType): nat {
    match t
    case BoolT => 1
    case UnsignedT(width) => width
    case SignedT(width) => width
    case FloatT(width) => width
    case StringT => 2
  }

  /** The bytes that stand for a value in a packet. */
  function Image(v: Value): seq<byte>
    requires v.WellTyped()
  {
    match v
    case BoolV(b) => [if b then 1 else 0]
    case UnsignedV(width, n) => Le(width, n)
    case SignedV(width, i) => Le(width, ToUnsigned(width, i))
    case FloatV(bits) => bits
    case StringV(chars) => Le(2, |chars|) + chars
  }

  predicate AllWellTyped(vs: seq<Value>) {
    forall v | v in vs :: v.WellTyped()
  }

  predicate AllStorable(vs: seq<Value>) {
    forall v | v in vs :: v.Storable()
  }

  predicate NoEmptyString(vs: seq<Value>) {
    forall v | v in vs :: !v.EmptyString()
  }

  predicate NoZeroByte(vs: seq<Value>) {
    forall v | v in vs :: !v.HoldsZero()
  }

  predicate AllProper(ts: seq<WireType>) {
    forall t | t in ts :: Proper(t)
  }

  /** What holds of all the values holds of the first one and of the others. */
  lemma SplitValues(vs: seq<Value>)
    requires vs != []
    ensures AllWellTyped(vs) <==> vs[0].WellTyped() && AllWellTyped(vs[1..])
    ensures AllStorable(vs) <==> vs[0].Storable() && AllStorable(vs[1..])
    ensures NoEmptyString(vs) <==> !vs[0].EmptyString() && NoEmptyString(vs[1..])
    ensures NoZeroByte(vs) <==> !vs[0].HoldsZero() && NoZeroByte(vs[1..])
  {
    assert forall v :: v in vs <==> v == vs[0] || v in vs[1..];
  }

  lemma HeadAndTail<T>(items: seq<T>)
    requires items != []
    ensures [items[0]] + items[1..] == items
  {
  }

  function Images(vs: seq<Value>): seq<byte>
    requires AllWellTyped(vs)
  {
    if vs == [] then [] else Image(vs[0]) + Images(vs[1..])
  }

  function Types(vs: seq<Value>): (ts: seq<WireType>)
    ensures |ts| == |vs|
  {
    seq(|vs|, i requires 0 <= i < |vs| => vs[i].Type())
  }

  lemma {:induction false} ImagesConcat(a: seq<Value>, b: seq<Value>)
    requires AllWellTyped(a) && AllWellTyped(b)
    ensures Images(a + b) == Images(a) + Images(b)
  {
    hide Image;
    if a == [] {
      assert a + b == b;
    } else {
      ImagesConcat(a[1..], b);
      assert (a + b)[0] == a[0] && (a + b)[1..] == a[1..] + b;
      var image, ia, ib := Image(a[0]), Images(a[1..]), Images(b);
      assert image + (ia + ib) == (image + ia) + ib;
    }
  }

  // ---------------------------------------------------------------------------
  // Writing

  /** `write_enforced`: all the bytes or an exception. */
  function PutFixed(s: PacketState, bytes: seq<byte>): (r: Step<()>)
    requires Coherent(s)
    ensures Coherent(r.next) && r.next.readPos == s.readPos && |r.next.data| >= |s.data|
  {
    WriteKeepsCoherent(s, bytes, true);
    var w := WriteData(s, bytes, true);
    Step(if w.outcome == Returned(|bytes|) then Returned(()) else Threw, w.next)
  }

  /** A string goes out as a signed 16-bit length, then its characters. */
  function PutString(s: PacketState, chars: seq<byte>): (r: Step<()>)
    requires Coherent(s)
    ensures Coherent(r.next) && r.next.readPos == s.readPos && |r.next.data| >= |s.data|
  {
    if |chars| > MAX_STRING then Step(Threw, s) else
    WriteKeepsCoherent(s, Le(2, |chars|), true);
    var l := WriteData(s, Le(2, |chars|), true);
    if l.outcome.Threw? then Step(Threw, l.next) else
    WriteKeepsCoherent(l.next, chars, true);
    var c := WriteData(l.next, chars, true);
    if c.outcome.Threw? || l.outcome.value + c.outcome.value != 2 + |chars|
    then Step(Threw, c.next)
    else Step(Returned(()), c.next)
  }

  function Put(s: PacketState, v: Value): (r: Step<()>)
    requires Coherent(s) && v.WellTyped()
    ensures Coherent(r.next) && r.next.readPos == s.readPos && |r.next.data| >= |s.data|
  {
    if v.StringV? then PutString(s, v.chars) else PutFixed(s, Image(v))
  }

  /** Writing a packet into a packet writes its payload. */
  function PutPacket(s: PacketState, q: PacketState): (r: Step<()>)
    requires Coherent(s)
    ensures Coherent(r.next)
  {
    if q.Empty() then Step(Returned(()), s) else PutFixed(s, q.Payload())
  }

  function PutAll(s: PacketState, vs: seq<Value>): (r: Step<()>)
    requires Coherent(s) && AllWellTyped(vs)
    ensures Coherent(r.next)
    decreases |vs|
  {
    if vs == [] then Step(Returned(()), s) else
    var p := Put(s, vs[0]);
    if p.outcome.Threw? then p else PutAll(p.next, vs[1..])
  }

  lemma PutFixedLays(s: PacketState, bytes: seq<byte>)
    requires HasRoom(s) && bytes != []
    ensures var p := PutFixed(s, bytes);
            && (p.outcome.Returned? <==> s.writePos + |bytes| < DATAGRAM_SIZE)
            && (p.outcome.Returned? ==> Lays(s, p.next, bytes) && HasRoom(p.next))
  {
    CapacityLaw(s, bytes, true);
    hide WriteData, Lays;
    if s.writePos + |bytes| < DATAGRAM_SIZE {
      WriteLaysBytes(s, bytes, true);
    }
  }

  lemma PutStringUnfolds(s: PacketState, chars: seq<byte>)
    requires Coherent(s) && |chars| <= MAX_STRING
    requires WriteData(s, Le(2, |chars|), true).outcome == Returned(2)
    requires Coherent(WriteData(s, Le(2, |chars|), true).next)
    ensures var t := WriteData(s, Le(2, |chars|), true).next;
            && PutString(s, chars).next == WriteData(t, chars, true).next
            && (PutString(s, chars).outcome.Returned? <==>
                WriteData(t, chars, true).outcome == Returned(|chars|))
  {
    hide WriteData, Le, Stamp, Splice, FromLe;
  }

  /** What the two writes of a string do, when the length fits. */
  lemma PutStringParts(s: PacketState, chars: seq<byte>)
    requires HasRoom(s) && |chars| <= MAX_STRING && s.writePos + 2 < DATAGRAM_SIZE
    ensures var t := WriteData(s, Le(2, |chars|), true).next;
            && Lays(s, t, Le(2, |chars|)) && HasRoom(t)
            && PutString(s, chars).next == WriteData(t, chars, true).next
            && (PutString(s, chars).outcome.Returned? <==>
                WriteData(t, chars, true).outcome == Returned(|chars|))
  {
    hide WriteData, Le, Lays, PutString, Stamp, Splice, FromLe;
    CapacityLaw(s, Le(2, |chars|), true);
    WriteLaysBytes(s, Le(2, |chars|), true);
    PutStringUnfolds(s, chars);
  }

  lemma PutStringLays(s: PacketState, chars: seq<byte>)
    requires HasRoom(s)
    ensures var p, image := PutString(s, chars), Le(2, |chars|) + chars;
            && (p.outcome.Returned? <==>
                |chars| <= MAX_STRING && s.writePos + |image| < DATAGRAM_SIZE)
            && (p.outcome.Returned? ==> Lays(s, p.next, image) && HasRoom(p.next))
  {
    var prefix := Le(2, |chars|);
    if |chars| <= MAX_STRING {
      if s.writePos + 2 < DATAGRAM_SIZE {
        PutStringParts(s, chars);
        var t := WriteData(s, prefix, true).next;
        assert t.writePos == s.writePos + 2;
        CapacityLaw(t, chars, true);
        hide WriteData, Le, Lays, PutString;
        if t.writePos + |chars| < DATAGRAM_SIZE {
          WriteLaysBytes(t, chars, true);
          LaysTwice(s, t, WriteData(t, chars, true).next, prefix, chars);
        }
      } else {
        CapacityLaw(s, prefix, true);
        CapacityLaw(s, chars, true);
      }
    }
  }

  /** Writing anywhere in a packet: a value is written if and only if it is storable and ends at 65535
      or before, and then its image lies at the old write cursor, over what was there, and nothing
      else but the header changes. */
  lemma PutLays(s: PacketState, v: Value)
    requires HasRoom(s) && v.WellTyped()
    ensures var p := Put(s, v);
            && (p.outcome.Returned? <==> v.Storable() && s.writePos + |Image(v)| < DATAGRAM_SIZE)
            && (p.outcome.Returned? ==> Lays(s, p.next, Image(v)) && HasRoom(p.next))
  {
    hide PutFixed, PutString, Lays;
    if v.StringV? {
      PutStringLays(s, v.chars);
    } else {
      MeaningOfImage(v);
      PutFixedLays(s, Image(v));
    }
  }

  /** The same for a list of values: their images lie there one after the other. */
  lemma {:induction false} PutAllLays(s: PacketState, vs: seq<Value>)
    requires HasRoom(s) && AllWellTyped(vs)
    ensures var p := PutAll(s, vs);
            && (p.outcome.Returned? <==>
                AllStorable(vs) && s.writePos + |Images(vs)| < DATAGRAM_SIZE)
            && (p.outcome.Returned? ==> Lays(s, p.next, Images(vs)) && HasRoom(p.next))
    decreases |vs|
  {
    hide Put, Image, Lays;
    if vs == [] {
      LaysNothing(s);
    } else {
      PutLays(s, vs[0]);
      SplitValues(vs);
      var t := Put(s, vs[0]).next;
      if Put(s, vs[0]).outcome.Returned? {
        LaysAdvances(s, t, Image(vs[0]));
        PutAllLays(t, vs[1..]);
        if PutAll(t, vs[1..]).outcome.Returned? {
          LaysTwice(s, t, PutAll(t, vs[1..]).next, Image(vs[0]), Images(vs[1..]));
        }
      }
    }
  }

  lemma LaysAdvances(s: PacketState, t: PacketState, bytes: seq<byte>)
    requires HEADER <= s.writePos <= |s.data| && Lays(s, t, bytes)
    ensures t.writePos == s.writePos + |bytes| <= |t.data|
  {
  }

  /** A value is written at the end if and only if it fits, and then lands there as its image. */
  lemma PutExactly(s: PacketState, v: Value)
    requires AtEnd(s) && v.WellTyped()
    ensures var p := Put(s, v);
            && (p.outcome.Returned? <==> v.Storable() && |s.data| + |Image(v)| < DATAGRAM_SIZE)
            && (p.outcome.Returned? ==> p.next == Appended(s, Image(v)) && AtEnd(p.next))
  {
    hide WriteData, Appended, Le, Stamp;
    AppendExactly(s, Image(v));
    if v.StringV? && v.Storable() {
      var prefix := Le(2, |v.chars|);
      AppendExactly(s, prefix);
      if |s.data| + 2 < DATAGRAM_SIZE {
        AppendExactly(Appended(s, prefix), v.chars);
        AppendedTwice(s, prefix, v.chars);
      }
    }
  }

  lemma AppendedNothing(s: PacketState)
    requires AtEnd(s)
    ensures Appended(s, []) == s
  {
    assert s.data + [] == s.data;
    StampIsIdempotent(s.data);
  }

  /** A list of values is written at the end if and only if the buffer then ends at 65535 or before. */
  lemma {:induction false} PutAllExactly(s: PacketState, vs: seq<Value>)
    requires AtEnd(s) && AllWellTyped(vs)
    ensures var p := PutAll(s, vs);
            && (p.outcome.Returned? <==>
                AllStorable(vs) && |s.data| + |Images(vs)| < DATAGRAM_SIZE)
            && (p.outcome.Returned? ==> p.next == Appended(s, Images(vs)) && AtEnd(p.next))
    decreases |vs|
  {
    if vs == [] {
      AppendedNothing(s);
    } else {
      PutExactly(s, vs[0]);
      SplitValues(vs);
      if Put(s, vs[0]).outcome.Returned? {
        PutAllExactly(Put(s, vs[0]).next, vs[1..]);
        AppendedTwice(s, Image(vs[0]), Images(vs[1..]));
      }
    }
  }

  // ---------------------------------------------------------------------------
  // Reading

  /** What a fixed-width image means; a byte other than 0 and 1 is no boolean. */
  function Meaning(t: WireType, bytes: seq<byte>): Option<Value>
    requires Proper(t) && !t.StringT? && |bytes| == Width(t)
  {
    match t
    case BoolT => if bytes[0] <= 1 then Some(BoolV(bytes[0] == 1)) else None
    case UnsignedT(width) => Some(UnsignedV(width, FromLe(bytes)))
    case SignedT(width) => Some(SignedV(width, ToSigned(width, FromLe(bytes))))
    case FloatT(_) => Some(FloatV(bytes))
  }

  /** The part of a C string that counts: what comes before its first zero byte. */
  function UpToZero(chars: seq<byte>): (r: seq<byte>)
    ensures r <= chars && 0 !in r
    ensures r == chars || chars[|r|] == 0
  {
    if chars == [] || chars[0] == 0 then [] else [chars[0]] + UpToZero(chars[1..])
  }

  /** What a read makes of a value that lies in the packet: a string is cut at its first zero byte. */
  function Kept(v: Value): Value {
    if v.StringV? then StringV(UpToZero(v.chars)) else v
  }

  function KeptAll(vs: seq<Value>): seq<Value> {
    if vs == [] then [] else [Kept(vs[0])] + KeptAll(vs[1..])
  }

  lemma KeptIntact(v: Value)
    ensures Kept(v) == v <==> !v.HoldsZero()
  {
  }

  /** The values come through a read unchanged if and only if no string holds a zero byte. */
  lemma {:induction false} KeptAllIntact(vs: seq<Value>)
    ensures KeptAll(vs) == vs <==> NoZeroByte(vs)
  {
    if vs == [] {
    } else {
      KeptIntact(vs[0]);
      SplitValues(vs);
      KeptAllIntact(vs[1..]);
      HeadAndTail(vs);
      hide NoZeroByte;
      assert KeptAll(vs)[0] == Kept(vs[0]) && KeptAll(vs)[1..] == KeptAll(vs[1..]);
    }
  }

  /** The characters of the string that lies next, or nothing when the length or the characters
      cannot be read. A negative length throws. */
  function TakeString(s: PacketState): (r: Step<Option<seq<byte>>>)
    requires Readable(s)
    ensures Readable(r.next) && r.next == s.(readPos := r.next.readPos)
  {
    var (prefix, s1) := ReadData(s, 2, true);
    if prefix == [] then Step(Returned(None), s) else
    var size := ToSigned(2, FromLe(prefix));
    if size < 0 then Step(Threw, s1) else
    var (chars, s2) := ReadData(s1, size, true);
    Step(Returned(if chars == [] then None else Some(chars)), s2)
  }

  /** `read(std::string&)`: it consumes all the characters but keeps those before the first zero
      byte, because it builds its result from a pointer to them. */
  function ReadString(s: PacketState): (r: Step<Option<seq<byte>>>)
    requires Readable(s)
    ensures Readable(r.next) && r.next == s.(readPos := r.next.readPos)
  {
    var r := TakeString(s);
    if r.outcome.Threw? || r.outcome.value.None? then r
    else Step(Returned(Some(UpToZero(r.outcome.value.value))), r.next)
  }

  /** The value that lies next, uncut, and the packet after it. */
  function Take(s: PacketState, t: WireType): (r: Step<Value>)
    requires Readable(s) && Proper(t)
    ensures Readable(r.next) && r.next == s.(readPos := r.next.readPos)
  {
    if t.StringT? then
      var r := TakeString(s);
      if r.outcome.Threw? || r.outcome.value.None? then Step(Threw, r.next)
      else Step(Returned(StringV(r.outcome.value.value)), r.next)
    else
      var (bytes, next) := ReadData(s, Width(t), true);
      if |bytes| != Width(t) || Meaning(t, bytes).None? then Step(Threw, next)
      else Step(Returned(Meaning(t, bytes).value), next)
  }

  function TakeAll(s: PacketState, ts: seq<WireType>): (r: Step<seq<Value>>)
    requires Readable(s) && AllProper(ts)
    ensures Readable(r.next)
    decreases |ts|
  {
    if ts == [] then Step(Returned([]), s) else
    var g := Take(s, ts[0]);
    if g.outcome.Threw? then Step(Threw, g.next) else
    var rest := TakeAll(g.next, ts[1..]);
    if rest.outcome.Threw? then rest
    else Step(Returned([g.outcome.value] + rest.outcome.value), rest.next)
  }

  /** `operator>>`: what lies next, a string cut at its first zero byte. */
  function Get(s: PacketState, t: WireType): (r: Step<Value>)
    requires Readable(s) && Proper(t)
    ensures Readable(r.next) && r.next == s.(readPos := r.next.readPos)
  {
    var g := Take(s, t);
    Step(if g.outcome.Threw? then Threw else Returned(Kept(g.outcome.value)), g.next)
  }

  function GetAll(s: PacketState, ts: seq<WireType>): (r: Step<seq<Value>>)
    requires Readable(s) && AllProper(ts)
    ensures Readable(r.next)
    decreases |ts|
  {
    if ts == [] then Step(Returned([]), s) else
    var g := Get(s, ts[0]);
    if g.outcome.Threw? then Step(Threw, g.next) else
    var rest := GetAll(g.next, ts[1..]);
    if rest.outcome.Threw? then rest
    else Step(Returned([g.outcome.value] + rest.outcome.value), rest.next)
  }

  /** Reading a list of values is taking them and cutting the strings. */
  lemma {:induction false} GetAllKeepsTaken(s: PacketState, ts: seq<WireType>)
    requires Readable(s) && AllProper(ts)
    ensures var g, taken := GetAll(s, ts), TakeAll(s, ts);
            && g.next == taken.next
            && g.outcome == if taken.outcome.Threw? then Threw
                            else Returned(KeptAll(taken.outcome.value))
    decreases |ts|
  {
    hide Take, Kept;
    if ts == [] {
    } else {
      var g := Take(s, ts[0]);
      if g.outcome.Returned? {
        GetAllKeepsTaken(g.next, ts[1..]);
        var tail := TakeAll(g.next, ts[1..]).outcome;
        if tail.Returned? {
          assert ([g.outcome.value] + tail.value)[1..] == tail.value;
        }
      }
    }
  }

  lemma MeaningOfImage(v: Value)
    requires v.WellTyped() && !v.StringV?
    ensures Proper(v.Type()) && |Image(v)| == Width(v.Type()) > 0
    ensures Meaning(v.Type(), Image(v)) == Some(v)
  {
    match v
    case BoolV(_) =>
    case UnsignedV(width, n) => LeThenFromLe(width, n);
    case SignedV(width, i) => LeThenFromLe(width, ToUnsigned(width, i));
    case FloatV(_) =>
  }

  lemma TakeFixedExactly(s: PacketState, v: Value, rest: seq<byte>)
    requires Valid(s) && v.WellTyped() && !v.StringV? && Pending(s) == Image(v) + rest
    ensures Proper(v.Type())
    ensures Take(s, v.Type()) == Step(Returned(v), s.(readPos := s.readPos + |Image(v)|))
  {
    MeaningOfImage(v);
    TakeExactly(s, Image(v), rest);
  }

  lemma LengthPrefix(n: nat)
    requires n <= MAX_STRING
    ensures ToSigned(2, FromLe(Le(2, n))) == n
  {
    Pow256Values();
    LeThenFromLe(2, n);
  }

  lemma TakeStringExactly(s: PacketState, prefix: seq<byte>, chars: seq<byte>, rest: seq<byte>)
    requires Valid(s) && Pending(s) == prefix + (chars + rest)
    requires |prefix| == 2 && ToSigned(2, FromLe(prefix)) == |chars|
    ensures Take(s, StringT) == Step(if chars == [] then Threw else Returned(StringV(chars)),
                                    s.(readPos := s.readPos + 2 + |chars|))
  {
    TakeExactly(s, prefix, chars + rest);
    TakeExactly(s.(readPos := s.readPos + 2), chars, rest);
  }

  lemma TakeValueExactly(s: PacketState, v: Value, rest: seq<byte>)
    requires Valid(s) && v.WellTyped() && v.Storable() && Pending(s) == Image(v) + rest
    ensures Proper(v.Type())
    ensures var after := s.(readPos := s.readPos + |Image(v)|);
            && Take(s, v.Type()) == Step(if v.EmptyString() then Threw else Returned(v), after)
            && Valid(after) && Pending(after) == rest
  {
    TakeExactly(s, Image(v), rest);
    if v.StringV? {
      LengthPrefix(|v.chars|);
      assert Image(v) + rest == Le(2, |v.chars|) + (v.chars + rest);
      TakeStringExactly(s, Le(2, |v.chars|), v.chars, rest);
    } else {
      TakeFixedExactly(s, v, rest);
    }
  }

  /** Reading back an image yields its value, cut at its first zero byte if it is a string; an empty
      string cannot be read: it is reported as a failure after its length has been consumed. */
  lemma GetExactly(s: PacketState, v: Value, rest: seq<byte>)
    requires Valid(s) && v.WellTyped() && v.Storable() && Pending(s) == Image(v) + rest
    ensures Proper(v.Type())
    ensures var g, after := Get(s, v.Type()), s.(readPos := s.readPos + |Image(v)|);
            && g == Step(if v.EmptyString() then Threw else Returned(Kept(v)), after)
            && (g.outcome == Returned(v) <==> !v.EmptyString() && !v.HoldsZero())
            && Valid(after) && Pending(after) == rest
  {
    hide Take, Image, Kept;
    TakeValueExactly(s, v, rest);
    KeptIntact(v);
  }

  lemma ReadDataExactly(s: PacketState, size: nat)
    requires Readable(s)
    ensures if size <= |Pending(s)| then
              ReadData(s, size, true) == (Pending(s)[..size], s.(readPos := s.readPos + size))
            else ReadData(s, size, true) == ([], s)
  {
    if size <= |Pending(s)| {
      assert Pending(s)[..size] == s.data[s.readPos..s.readPos + size];
    }
  }

  lemma LengthTaken(s: PacketState)
    requires Readable(s) && |Pending(s)| >= 2
    ensures var prefix, after := Pending(s)[..2], s.(readPos := s.readPos + 2);
            var length := prefix[0] as int + 0x100 * prefix[1] as int;
            && ReadData(s, 2, true) == (prefix, after) && Readable(after)
            && ToSigned(2, FromLe(prefix)) == if length <= 32767 then length else length - 0x1_0000
  {
    Pow256Values();
    ReadDataExactly(s, 2);
    TwoBytes(Pending(s)[..2]);
    hide ReadData, FromLe;
  }

  lemma CharsTaken(s: PacketState, length: nat)
    requires Readable(s) && |Pending(s)| >= 2
    ensures var after := s.(readPos := s.readPos + 2);
            && Readable(after)
            && ReadData(after, length, true) ==
               if 2 + length <= |Pending(s)| then
                 (Pending(s)[2..2 + length], s.(readPos := s.readPos + 2 + length))
               else ([], after)
  {
    var after := s.(readPos := s.readPos + 2);
    ReadDataExactly(after, length);
    if 2 + length <= |Pending(s)| {
      assert Pending(after)[..length] == Pending(s)[2..2 + length];
    }
    hide ReadData;
  }

  lemma ReadStringUnfolds(s: PacketState, prefix: seq<byte>, s1: PacketState, size: int)
    requires Readable(s) && Readable(s1) && ReadData(s, 2, true) == (prefix, s1)
    requires |prefix| == 2 && ToSigned(2, FromLe(prefix)) == size
    ensures if size < 0 then ReadString(s) == Step(Threw, s1)
            else var (chars, s2) := ReadData(s1, size, true);
                 ReadString(s)
                 == Step(Returned(if |chars| == 0 then None else Some(UpToZero(chars))), s2)
  {
    hide ReadData, FromLe, UpToZero, ToSigned;
  }

  lemma NoLengthRead(s: PacketState)
    requires Readable(s) && |Pending(s)| < 2
    ensures ReadString(s) == Step(Returned(None), s)
  {
    ReadDataExactly(s, 2);
    hide ReadData, FromLe, UpToZero, ToSigned;
  }

  /** `read(std::string&)` on any packet whose reader is in bounds. It reports nothing when the length
      is not there, and after the length when that is 0 or the characters are not all there; it throws
      after a length above 32767; else it keeps the characters before the first zero byte. */
  lemma ReadStringExactly(s: PacketState)
    requires Readable(s)
    ensures var pending, r := Pending(s), ReadString(s);
            if |pending| < 2 then r == Step(Returned(None), s) else
            var length := pending[0] as int + 0x100 * pending[1] as int;
            var after := s.(readPos := s.readPos + 2);
            if length > 32767 then r == Step(Threw, after)
            else if length == 0 || |pending| < 2 + length then r == Step(Returned(None), after)
            else r == Step(Returned(Some(UpToZero(pending[2..2 + length]))),
                           s.(readPos := s.readPos + 2 + length))
  {
    if |Pending(s)| < 2 {
      NoLengthRead(s);
    } else {
      LengthTaken(s);
      var pending, after := Pending(s), s.(readPos := s.readPos + 2);
      var length := pending[0] as int + 0x100 * pending[1] as int;
      hide Pending, ReadString, ReadData, FromLe, UpToZero, ToSigned;
      if length <= 32767 {
        ReadStringUnfolds(s, pending[..2], after, length);
        CharsTaken(s, length);
      } else {
        ReadStringUnfolds(s, pending[..2], after, length - 0x1_0000);
      }
    }
  }

  lemma TypesProper(vs: seq<Value>)
    requires AllWellTyped(vs)
    ensures AllProper(Types(vs))
    ensures vs != [] ==> Types(vs)[0] == vs[0].Type() && Types(vs)[1..] == Types(vs[1..])
  {
    forall t | t in Types(vs) ensures Proper(t) {
      var i :| 0 <= i < |vs| && Types(vs)[i] == t;
      assert vs[i].WellTyped();
    }
  }

  lemma NoValues(s: PacketState)
    requires Readable(s)
    ensures TakeAll(s, []) == Step(Returned([]), s) && NoEmptyString([]) && Types([]) == []
  {
  }

  lemma TakeAllOnce(s: PacketState, ts: seq<WireType>)
    requires Readable(s) && AllProper(ts) && ts != []
    ensures Proper(ts[0]) && AllProper(ts[1..])
    ensures var g := Take(s, ts[0]);
            TakeAll(s, ts) ==
            if g.outcome.Threw? then Step(Threw, g.next) else
            var rest := TakeAll(g.next, ts[1..]);
            if rest.outcome.Threw? then rest
            else Step(Returned([g.outcome.value] + rest.outcome.value), rest.next)
  {
  }

  lemma TakeAllFront(s: PacketState, vs: seq<Value>)
    requires Readable(s) && vs != [] && AllWellTyped(vs)
    requires Proper(vs[0].Type()) && AllProper(Types(vs)) && AllProper(Types(vs[1..]))
    requires Take(s, vs[0].Type()).outcome == if vs[0].EmptyString() then Threw else Returned(vs[0])
    ensures var next := Take(s, vs[0].Type()).next;
            var rest, all := TakeAll(next, Types(vs[1..])), TakeAll(s, Types(vs));
            if vs[0].EmptyString() then all.outcome == Threw
            else if rest.outcome == Returned(vs[1..]) then all == Step(Returned(vs), rest.next)
            else rest.outcome == Threw ==> all.outcome == Threw
  {
    hide Take, TakeAll, Types, AllProper, AllWellTyped, Proper, Readable;
    TypesProper(vs);
    TakeAllOnce(s, Types(vs));
    HeadAndTail(vs);
  }

  lemma ImagesFront(vs: seq<Value>, rest: seq<byte>)
    requires AllWellTyped(vs)
    ensures if vs == [] then |Images(vs)| == 0 else
            && |Images(vs)| == |Image(vs[0])| + |Images(vs[1..])|
            && Images(vs) + rest == Image(vs[0]) + (Images(vs[1..]) + rest)
  {
    hide Image;
  }

  lemma {:induction false} TakeAllExactly(s: PacketState, vs: seq<Value>, rest: seq<byte>)
    requires Valid(s) && AllWellTyped(vs) && AllStorable(vs)
    requires Pending(s) == Images(vs) + rest
    ensures AllProper(Types(vs))
    ensures var g := TakeAll(s, Types(vs));
            if NoEmptyString(vs) then
              g == Step(Returned(vs), s.(readPos := s.readPos + |Images(vs)|))
            else g.outcome == Threw
    decreases |vs|
  {
    TypesProper(vs);
    hide Take, TakeAll, Image, Images, Pending, Valid, Types, AllWellTyped, AllStorable, NoEmptyString,
         AllProper;
    ImagesFront(vs, rest);
    if vs == [] {
      NoValues(s);
    } else {
      SplitValues(vs);
      var v, tail := vs[0], vs[1..];
      TakeValueExactly(s, v, Images(tail) + rest);
      TakeAllExactly(s.(readPos := s.readPos + |Image(v)|), tail, rest);
      TakeAllFront(s, vs);
    }
  }

  /** Reading a list of values back succeeds if and only if none is an empty string. It returns the
      list with every string cut at its first zero byte, so the list itself if and only if no string
      holds one. */
  lemma GetAllExactly(s: PacketState, vs: seq<Value>, rest: seq<byte>)
    requires Valid(s) && AllWellTyped(vs) && AllStorable(vs)
    requires Pending(s) == Images(vs) + rest
    ensures AllProper(Types(vs))
    ensures var g := GetAll(s, Types(vs));
            && (if NoEmptyString(vs) then
                  g == Step(Returned(KeptAll(vs)), s.(readPos := s.readPos + |Images(vs)|))
                else g.outcome == Threw)
            && (g.outcome == Returned(vs) <==> NoEmptyString(vs) && NoZeroByte(vs))
  {
    TypesProper(vs);
    hide GetAll, TakeAll, Images, Types, AllProper, AllWellTyped, KeptAll, NoEmptyString, NoZeroByte;
    TakeAllExactly(s, vs, rest);
    GetAllKeepsTaken(s, Types(vs));
    KeptAllIntact(vs);
  }

  lemma MeaningIsCanonical(t: WireType, bytes: seq<byte>)
    requires Proper(t) && !t.StringT? && |bytes| == Width(t) && Meaning(t, bytes).Some?
    ensures var v := Meaning(t, bytes).value;
            v.WellTyped() && v.Type() == t && Image(v) == bytes
  {
    FromLeThenLe(bytes);
  }

  lemma PrefixIsCanonical(prefix: seq<byte>)
    requires |prefix| == 2 && ToSigned(2, FromLe(prefix)) >= 0
    ensures ToSigned(2, FromLe(prefix)) <= MAX_STRING && Le(2, ToSigned(2, FromLe(prefix))) == prefix
  {
    Pow256Values();
    FromLeThenLe(prefix);
  }

  lemma StringIsCanonical(s: PacketState)
    requires Readable(s) && Take(s, StringT).outcome.Returned?
    ensures var chars, next := Take(s, StringT).outcome.value.chars, Take(s, StringT).next;
            && 0 < |chars| <= MAX_STRING
            && Pending(s) == Le(2, |chars|) + chars + Pending(next)
  {
    hide Le, FromLe, ToSigned;
    var (prefix, s1) := ReadData(s, 2, true);
    ReadTakesFront(s, 2, true);
    PrefixIsCanonical(prefix);
    var size := ToSigned(2, FromLe(prefix));
    ReadTakesFront(s1, size, true);
    var (chars, next) := ReadData(s1, size, true);
    assert prefix + (chars + Pending(next)) == (prefix + chars) + Pending(next);
  }

  lemma TakeIsCanonical(s: PacketState, t: WireType)
    requires Readable(s) && Proper(t) && Take(s, t).outcome.Returned?
    ensures var v, next := Take(s, t).outcome.value, Take(s, t).next;
            && v.WellTyped() && v.Storable() && !v.EmptyString() && v.Type() == t
            && Pending(s) == Image(v) + Pending(next)
  {
    if t.StringT? {
      StringIsCanonical(s);
    } else {
      ReadTakesFront(s, Width(t), true);
      MeaningIsCanonical(t, ReadData(s, Width(t), true).0);
    }
  }

  /** Only images decode: the bytes a read consumes are the image of a value of the type asked for,
      and the read returns that value, cut at its first zero byte if it is a string. */
  lemma GetIsCanonical(s: PacketState, t: WireType)
    requires Readable(s) && Proper(t) && Get(s, t).outcome.Returned?
    ensures Take(s, t).outcome.Returned?
    ensures var v, next := Take(s, t).outcome.value, Get(s, t).next;
            && v.WellTyped() && v.Storable() && !v.EmptyString() && v.Type() == t
            && Pending(s) == Image(v) + Pending(next)
            && Get(s, t).outcome.value == Kept(v)
  {
    hide Take, Image, Pending;
    TakeIsCanonical(s, t);
  }

  lemma {:induction false} TakeAllIsCanonical(s: PacketState, ts: seq<WireType>)
    requires Readable(s) && AllProper(ts) && TakeAll(s, ts).outcome.Returned?
    ensures var vs, next := TakeAll(s, ts).outcome.value, TakeAll(s, ts).next;
            && AllWellTyped(vs) && Types(vs) == ts && NoEmptyString(vs)
            && Pending(s) == Images(vs) + Pending(next)
    decreases |ts|
  {
    hide Take, Image, Pending;
    if ts == [] {
    } else {
      TakeIsCanonical(s, ts[0]);
      var v, next := Take(s, ts[0]).outcome.value, Take(s, ts[0]).next;
      TakeAllIsCanonical(next, ts[1..]);
      var tail := TakeAll(next, ts[1..]).outcome.value;
      assert ([v] + tail)[1..] == tail && ts == [ts[0]] + ts[1..];
      assert Types([v] + tail) == [v.Type()] + Types(tail);
    }
  }

  /** Reading is the inverse of writing in the other direction too: what reads consume from a packet,
      whoever made it, is the encoding of a list of values of the types asked for, and they return
      that list with the strings cut. */
  lemma GetAllIsCanonical(s: PacketState, ts: seq<WireType>)
    requires Readable(s) && AllProper(ts) && GetAll(s, ts).outcome.Returned?
    ensures TakeAll(s, ts).outcome.Returned?
    ensures var vs, next := TakeAll(s, ts).outcome.value, GetAll(s, ts).next;
            && AllWellTyped(vs) && Types(vs) == ts && NoEmptyString(vs)
            && Pending(s) == Images(vs) + Pending(next)
            && GetAll(s, ts).outcome.value == KeptAll(vs)
  {
    hide TakeAll, GetAll, Images, Pending, KeptAll, NoEmptyString, AllWellTyped, Types;
    GetAllKeepsTaken(s, ts);
    TakeAllIsCanonical(s, ts);
  }

  /** A packet that was written with these values can be read with their types if and only if no
      string is empty. The reads return the values with every string cut at its first zero byte and
      reach the end; they return the values themselves if and only if no string holds a zero byte. */
  ghost predicate ReadsBack(s: PacketState, vs: seq<Value>) {
    && Readable(s) && AllProper(Types(vs))
    && var g := GetAll(s, Types(vs));
       && (if NoEmptyString(vs) then g.outcome == Returned(KeptAll(vs)) && g.next.End()
           else g.outcome == Threw)
       && (g.outcome == Returned(vs) <==> NoEmptyString(vs) && NoZeroByte(vs))
  }

  lemma ImagesReadBack(s: PacketState, vs: seq<Value>)
    requires Valid(s) && AllWellTyped(vs) && AllStorable(vs) && Pending(s) == Images(vs)
    ensures ReadsBack(s, vs)
  {
    assert Pending(s) == Images(vs) + [];
    hide Images, GetAll, KeptAll, Types;
    GetAllExactly(s, vs, []);
  }

  /** Typed round trip. Writing a list of values to a cleared packet succeeds if and only if every
      string is short enough and 2 plus the encoded size is at most 65535; then the packet reads back
      as `ReadsBack` says. */
  lemma RoundTrip(s: PacketState, vs: seq<Value>)
    requires AllWellTyped(vs)
    ensures Valid(Cleared(s))
    ensures var p := PutAll(Cleared(s), vs);
            && (p.outcome.Returned? <==>
                AllStorable(vs) && HEADER + |Images(vs)| <= 65535)
            && (p.outcome.Returned? ==>
                Valid(p.next) && Pending(p.next) == Images(vs) && ReadsBack(p.next, vs))
  {
    ClearedIsValid(s);
    var c := Cleared(s);
    PutAllExactly(c, vs);
    var p := PutAll(c, vs);
    if p.outcome.Returned? {
      AppendedPending(c, Images(vs));
      hide PutAll, Images, ReadsBack;
      ImagesReadBack(p.next, vs);
    }
  }

  lemma CutExample()
    ensures var v := StringV([97, 0, 98]);
            Image(v) == [3, 0, 97, 0, 98] && Kept(v) == StringV([97])
  {
    assert Le(1, 0) == [0] && Le(2, 3) == [3] + Le(1, 0);
    assert UpToZero([0, 98]) == [] && [97, 0, 98][1..] == [0, 98];
  }

  /** Not every string survives: 97, 0, 98 is written in full and consumed in full, and reads as 97. */
  lemma ZeroByteCutsString()
    ensures var v := StringV([97, 0, 98]);
            && Valid(NewPacket())
            && var p := Put(NewPacket(), v);
               && p.outcome.Returned? && p.next.Payload() == [3, 0, 97, 0, 98]
               && Readable(p.next)
               && Get(p.next, StringT).outcome == Returned(StringV([97]))
               && Get(p.next, StringT).next.End()
  {
    var v, c := StringV([97, 0, 98]), NewPacket();
    CutExample();
    ClearedIsValid(c);
    PutExactly(c, v);
    hide Put, Get, Image, Kept, Appended, UpToZero;
    AppendedPayload(c, Image(v));
    AppendedPending(c, Image(v));
    GetExactly(Put(c, v).next, v, []);
  }

  lemma LaidBytes(s: PacketState, t: PacketState, bytes: seq<byte>)
    requires HasRoom(s) && HasRoom(t) && Lays(s, t, bytes)
    ensures var there, end := t.(readPos := s.writePos), t.writePos;
            && Valid(there) && end == s.writePos + |bytes| <= |t.data|
            && Pending(there) == bytes + t.data[end..]
  {
    hide FromLe;
    var pos, end := s.writePos, s.writePos + |bytes|;
    assert t.data[pos..] == t.data[pos..end] + t.data[end..];
  }

  /** What is written anywhere in a packet can be read back from where it was written, a string as far
      as its first zero byte. */
  lemma PutReadsBack(s: PacketState, v: Value)
    requires HasRoom(s) && v.WellTyped() && Put(s, v).outcome.Returned?
    ensures var there := Put(s, v).next.(readPos := s.writePos);
            && Readable(there) && Proper(v.Type())
            && var g := Get(there, v.Type());
               && g.outcome == (if v.EmptyString() then Threw else Returned(Kept(v)))
               && (g.outcome == Returned(v) <==> !v.EmptyString() && !v.HoldsZero())
               && g.next.readPos == Put(s, v).next.writePos
  {
    PutLays(s, v);
    hide Put, Get, Image, Lays, Pending;
    var t := Put(s, v).next;
    LaidBytes(s, t, Image(v));
    GetExactly(t.(readPos := s.writePos), v, t.data[t.writePos..]);
  }

  /** The number a boolean or an integer is on the wire: 1 or 0, the integer, or its residue. */
  function AsUnsigned(v: Value): int
    requires v.WellTyped() && !v.FloatV? && !v.StringV?
  {
    match v
    case BoolV(b) => if b then 1 else 0
    case UnsignedV(_, n) => n
    case SignedV(1, i) => i % 0x100
    case SignedV(2, i) => i % 0x1_0000
    case SignedV(4, i) => i % 0x1_0000_0000
    case SignedV(_, i) => i % 0x1_0000_0000_0000_0000
  }

  lemma ImageAsUnsigned(v: Value)
    requires v.WellTyped() && !v.FloatV? && !v.StringV?
    ensures FromLe(Image(v)) == AsUnsigned(v)
  {
    match v
    case BoolV(_) =>
    case UnsignedV(width, n) => LeThenFromLe(width, n);
    case SignedV(width, i) =>
      Residue(i, Pow256(width));
      LeThenFromLe(width, ToUnsigned(width, i));
      Pow256Values();
      hide Le, FromLe, Pow256;
  }

  lemma Residue(i: int, m: nat)
    requires m > 0 && 0 <= 2 * i + m < 2 * m
    ensures i % m == if i < 0 then i + m else i
  {
    if i < 0 {
      assert (i + m) % m == i + m;
      assert i == -1 * m + (i + m);
    }
  }

  lemma GetAsUnsigned(s: PacketState, v: Value, rest: seq<byte>)
    requires Valid(s) && v.WellTyped() && !v.FloatV? && !v.StringV? && Pending(s) == Image(v) + rest
    ensures var width := Width(v.Type());
            && Proper(UnsignedT(width)) && AsUnsigned(v) >= 0
            && Get(s, UnsignedT(width))
               == Step(Returned(UnsignedV(width, AsUnsigned(v))), s.(readPos := s.readPos + width))
  {
    MeaningOfImage(v);
    ImageAsUnsigned(v);
    hide Image, FromLe;
    TakeExactly(s, Image(v), rest);
  }

  /** The wire form of booleans and integers: whatever was written anywhere, an unsigned integer of
      the same width read from there is 1 or 0 for a boolean, and the two's complement residue for a
      signed integer. */
  lemma PutReadsAsUnsigned(s: PacketState, v: Value)
    requires HasRoom(s) && v.WellTyped() && !v.FloatV? && !v.StringV?
    requires Put(s, v).outcome.Returned?
    ensures var width := Width(v.Type());
            var there := Put(s, v).next.(readPos := s.writePos);
            && Readable(there) && Proper(UnsignedT(width)) && AsUnsigned(v) >= 0
            && Get(there, UnsignedT(width)).outcome == Returned(UnsignedV(width, AsUnsigned(v)))
  {
    PutLays(s, v);
    hide Put, Get, Image, Lays, Pending, AsUnsigned;
    var t := Put(s, v).next;
    LaidBytes(s, t, Image(v));
    GetAsUnsigned(t.(readPos := s.writePos), v, t.data[t.writePos..]);
  }

  lemma ImageBits(v: Value)
    requires v.WellTyped()
    ensures v.FloatV? ==> Image(v) == v.bits
    ensures v.StringV? ==> Image(v) == Le(2, |v.chars|) + v.chars
  {
  }

  /** The wire form of the rest: a floating-point value is its bit pattern, and a string is its length
      in two bytes, low byte first, and then all its characters. */
  lemma PutLaysBits(s: PacketState, v: Value)
    requires HasRoom(s) && v.WellTyped() && Put(s, v).outcome.Returned?
    ensures var t := Put(s, v).next;
            && s.writePos <= t.writePos <= |t.data|
            && var laid := t.data[s.writePos..t.writePos];
               && (v.FloatV? ==> laid == v.bits)
               && (v.StringV? ==> laid == [|v.chars| % 0x100, |v.chars| / 0x100 % 0x100] + v.chars)
  {
    hide Put, Image, Le, FromLe;
    PutLays(s, v);
    ImageBits(v);
    if v.StringV? { LeBytes(|v.chars|); }
  }

  /** A string whose length fits but whose characters do not throws, and leaves its length at the old
      write cursor, over what was there. */
  lemma StringThrowLeavesPrefix(s: PacketState, chars: seq<byte>)
    requires HasRoom(s) && |chars| <= MAX_STRING
    requires s.writePos + 2 < DATAGRAM_SIZE < s.writePos + 2 + |chars|
    ensures PutString(s, chars).outcome == Threw
    ensures Lays(s, PutString(s, chars).next, Le(2, |chars|))
  {
    PutStringParts(s, chars);
    CapacityLaw(WriteData(s, Le(2, |chars|), true).next, chars, true);
  }

  lemma StringThrowAtomicity(s: PacketState, chars: seq<byte>)
    requires HasRoom(s) && PutString(s, chars).outcome.Threw?
    ensures PutString(s, chars).next == s <==>
            |chars| > MAX_STRING || (s.writePos == DATAGRAM_SIZE - 1 && |chars| != 1)
  {
    var prefix := Le(2, |chars|);
    if |chars| <= MAX_STRING {
      if s.writePos + 2 < DATAGRAM_SIZE {
        PutStringParts(s, chars);
        var t := WriteData(s, prefix, true).next;
        assert t.writePos == s.writePos + 2;
        CapacityLaw(t, chars, true);
      } else {
        CapacityLaw(s, prefix, true);
        CapacityLaw(s, chars, true);
        if chars == [] {
          WriteInPlace(s, chars);
          assert Splice(s.data, s.writePos, []) == s.data;
        }
      }
    }
  }

  lemma FullPutThrows(s: PacketState, v: Value)
    requires Coherent(s) && s.Full() && v.WellTyped()
    ensures Put(s, v).outcome.Threw? && Put(s, v).next == s
  {
    if !v.StringV? {
      MeaningOfImage(v);
    }
  }

  /** When a throwing write leaves the packet as it was, for every coherent packet and wherever its
      cursors are: exactly when the packet is full already; or, for a fixed-width value, when it would
      end past 65536, and not at it; or, for a string, when it is too long for any packet, or the
      write cursor is one byte short of the limit and the string is not one character long. In every
      other case a length, a character or a jammed full buffer stays behind. */
  lemma ThrowingPutIsAtomicExactly(s: PacketState, v: Value)
    requires Coherent(s) && v.WellTyped() && Put(s, v).outcome.Threw?
    ensures Put(s, v).next == s <==>
            || s.Full()
            || if v.StringV? then |v.chars| > MAX_STRING || (s.writePos == 65535 && |v.chars| != 1)
               else s.writePos + |Image(v)| > DATAGRAM_SIZE
  {
    if s.Full() {
      FullPutThrows(s, v);
    } else if v.StringV? {
      StringThrowAtomicity(s, v.chars);
    } else {
      CapacityLaw(s, Image(v), true);
    }
  }

  /** When a throwing read leaves the packet as it was: exactly when the fixed-width value, or the
      length of the string, is not there in full. Otherwise just that is consumed. */
  lemma ThrowingGetIsAtomicExactly(s: PacketState, t: WireType)
    requires Readable(s) && Proper(t) && Get(s, t).outcome.Threw?
    ensures Get(s, t).next == s <==> |Pending(s)| < Width(t)
    ensures Get(s, t).next != s ==> Get(s, t).next == s.(readPos := s.readPos + Width(t))
  {
  }

  // ---------------------------------------------------------------------------
  // A packet as a queue of values

  datatype TypedOp = PutOp(v: Value) | GetOp(t: WireType)

  ghost predicate UsesWellTypedValues(ops: seq<TypedOp>) {
    forall op | op in ops ::
      if op.PutOp? then op.v.WellTyped() else Proper(op.t)
  }

  /** The values a run reads and the packet it leaves, if no call of it throws. */
  ghost function TypedRun(s: PacketState, ops: seq<TypedOp>): Option<(seq<Value>, PacketState)>
    requires Coherent(s) && Readable(s) && UsesWellTypedValues(ops)
    decreases |ops|
  {
    if ops == [] then Some(([], s)) else
    match ops[0]
    case PutOp(v) =>
      var p := Put(s, v);
      if p.outcome.Threw? then None else TypedRun(p.next, ops[1..])
    case GetOp(t) =>
      var g := Get(s, t);
      if g.outcome.Threw? then None else
      var rest := TypedRun(g.next, ops[1..]);
      if rest.None? then None else Some(([g.outcome.value] + rest.value.0, rest.value.1))
  }

  /** The same run on a queue of values: what it takes out and what it leaves, if every get finds
      a value of the type it asks for. */
  ghost function QueueRun(queue: seq<Value>, ops: seq<TypedOp>): Option<(seq<Value>, seq<Value>)>
    decreases |ops|
  {
    if ops == [] then Some(([], queue)) else
    match ops[0]
    case PutOp(v) => QueueRun(queue + [v], ops[1..])
    case GetOp(t) =>
      if queue == [] || queue[0].Type() != t then None else
      var rest := QueueRun(queue[1..], ops[1..]);
      if rest.None? then None else Some(([queue[0]] + rest.value.0, rest.value.1))
  }

  /** The total size of the images a run writes. */
  ghost function PutSize(ops: seq<TypedOp>): nat
    requires UsesWellTypedValues(ops)
    decreases |ops|
  {
    if ops == [] then 0 else
    (if ops[0].PutOp? then |Image(ops[0].v)| else 0) + PutSize(ops[1..])
  }

  ghost predicate PutsStorable(ops: seq<TypedOp>) {
    forall op | op in ops :: op.PutOp? ==> op.v.Storable()
  }

  ghost predicate Holds(s: PacketState, queue: seq<Value>) {
    && AtEnd(s) && AllWellTyped(queue)
    && AllStorable(queue)
    && Pending(s) == Images(queue)
  }

  lemma PutRefinesEnqueue(s: PacketState, queue: seq<Value>, v: Value)
    requires Holds(s, queue) && v.WellTyped() && Put(s, v).outcome.Returned?
    ensures Holds(Put(s, v).next, queue + [v])
  {
    PutExactly(s, v);
    AppendedPending(s, Image(v));
    ImagesConcat(queue, [v]);
    assert Images([v]) == Image(v) + Images([v][1..]);
  }

  lemma GetRefinesDequeue(s: PacketState, queue: seq<Value>)
    requires Holds(s, queue) && queue != []
    ensures Proper(queue[0].Type())
    ensures var g := Get(s, queue[0].Type());
            && g.outcome == (if queue[0].EmptyString() then Threw else Returned(Kept(queue[0])))
            && g.next.data == s.data && Holds(g.next, queue[1..])
  {
    GetExactly(s, queue[0], Images(queue[1..]));
  }

  lemma NothingDequeued()
    ensures KeptAll([]) == [] && NoEmptyString([])
  {
  }

  lemma Dequeued(v: Value, tail: seq<Value>)
    ensures NoEmptyString([v] + tail) <==> !v.EmptyString() && NoEmptyString(tail)
    ensures KeptAll([v] + tail) == [Kept(v)] + KeptAll(tail)
  {
    SplitValues([v] + tail);
    assert ([v] + tail)[1..] == tail;
  }

  lemma {:induction false} RunFollowsQueue(s: PacketState, queue: seq<Value>, ops: seq<TypedOp>)
    requires Holds(s, queue) && UsesWellTypedValues(ops) && QueueRun(queue, ops).Some?
    ensures var run, ref := TypedRun(s, ops), QueueRun(queue, ops).value;
            && (run.Some? <==>
                |s.data| + PutSize(ops) < DATAGRAM_SIZE && PutsStorable(ops) && NoEmptyString(ref.0))
            && (run.Some? ==>
                run.value.0 == KeptAll(ref.0) && Holds(run.value.1, ref.1))
    decreases |ops|
  {
    hide Put, Get, Image, Images, Pending, Kept, KeptAll, NoEmptyString, AllStorable, AllWellTyped;
    if ops == [] {
      NothingDequeued();
    } else {
      var rest := ops[1..];
      assert forall op | op in ops :: op == ops[0] || op in rest;
      match ops[0]
      case PutOp(v) =>
        PutExactly(s, v);
        if Put(s, v).outcome.Returned? {
          PutRefinesEnqueue(s, queue, v);
          RunFollowsQueue(Put(s, v).next, queue + [v], rest);
        }
      case GetOp(t) =>
        GetRefinesDequeue(s, queue);
        Dequeued(queue[0], QueueRun(queue[1..], rest).value.0);
        if !queue[0].EmptyString() {
          RunFollowsQueue(Get(s, t).next, queue[1..], rest);
        }
    }
  }

  /** Typed refinement: any interleaving of puts and gets whose gets ask for the type that is next
      runs on a packet exactly as on a queue of values, if and only if everything ever written fits
      (bytes already read are not reclaimed), no string is too long, and no empty string is read. The
      strings it reads are cut at their first zero byte, so that it reads just what the queue gives if
      and only if none of them holds one. */
  lemma PacketRefinesQueue(s: PacketState, queue: seq<Value>, ops: seq<TypedOp>)
    requires Holds(s, queue) && UsesWellTypedValues(ops) && QueueRun(queue, ops).Some?
    ensures var run, ref := TypedRun(s, ops), QueueRun(queue, ops).value;
            && (run.Some? <==>
                |s.data| + PutSize(ops) < DATAGRAM_SIZE && PutsStorable(ops) && NoEmptyString(ref.0))
            && (run.Some? ==>
                && run.value.0 == KeptAll(ref.0) && Holds(run.value.1, ref.1)
                && (run.value.0 == ref.0 <==> NoZeroByte(ref.0)))
  {
    hide TypedRun, QueueRun, Holds, KeptAll, NoZeroByte, NoEmptyString;
    RunFollowsQueue(s, queue, ops);
    KeptAllIntact(QueueRun(queue, ops).value.0);
  }

  // ---------------------------------------------------------------------------
  // Packets in packets

  /** What a program streams into a packet: values, and packets it builds first. */
  datatype Item = Leaf(v: Value) | Nest(items: seq<Item>)

  ghost predicate ItemsWellTyped(items: seq<Item>) {
    items == [] ||
    ((match items[0]
      case Leaf(v) => v.WellTyped()
      case Nest(inner) => ItemsWellTyped(inner))
     && ItemsWellTyped(items[1..]))
  }

  function NewPacket(): PacketState {
    PacketState([0, 0], HEADER, HEADER, -1, -1, -1)
  }

  /** Building packets inside out: each nested packet is built on its own, then appended. */
  ghost function Build(s: PacketState, items: seq<Item>): (r: Step<()>)
    requires Coherent(s) && ItemsWellTyped(items)
    ensures Coherent(r.next)
    decreases items
  {
    if items == [] then Step(Returned(()), s) else
    ClearedIsValid(NewPacket());
    var first := match items[0]
      case Leaf(v) => Put(s, v)
      case Nest(inner) =>
        var q := Build(NewPacket(), inner);
        if q.outcome.Threw? then Step(Threw, s) else PutPacket(s, q.next);
    if first.outcome.Threw? then first else Build(first.next, items[1..])
  }

  /** The values of a tree of items, left to right. */
  ghost function Flatten(items: seq<Item>): seq<Value> {
    if items == [] then [] else
    (match items[0]
     case Leaf(v) => [v]
     case Nest(inner) => Flatten(inner))
    + Flatten(items[1..])
  }

  lemma {:induction false} FlattenWellTyped(items: seq<Item>)
    requires ItemsWellTyped(items)
    ensures AllWellTyped(Flatten(items))
  {
    if items == [] {
    } else {
      match items[0]
      case Leaf(_) => FlattenWellTyped(items[1..]);
      case Nest(inner) =>
        FlattenWellTyped(inner);
        FlattenWellTyped(items[1..]);
    }
  }

  lemma AppendedPayload(s: PacketState, bytes: seq<byte>)
    requires AtEnd(s)
    ensures Appended(s, bytes).Payload() == s.Payload() + bytes
  {
    hide Le, FromLe;
    assert (s.data + bytes)[HEADER..] == s.data[HEADER..] + bytes;
    assert Appended(s, bytes).data[HEADER..] == (s.data + bytes)[HEADER..];
  }

  /** Appending a packet wherever the write cursor is: its payload is laid there if and only if it
      ends at 65535 or before. An empty packet changes nothing, and a full one takes no other. */
  lemma PutPacketLays(s: PacketState, q: PacketState)
    requires Coherent(s)
    ensures var p := PutPacket(s, q);
            && (p.outcome.Returned? <==>
                q.Empty() || (!s.Full() && s.writePos + |q.Payload()| <= 65535))
            && (p.outcome.Returned? && HasRoom(s) ==>
                Lays(s, p.next, q.Payload()) && HasRoom(p.next))
            && (q.Empty() || s.Full() || s.writePos + |q.Payload()| > 65536 ==> p.next == s)
  {
    if HasRoom(s) {
      if q.Empty() {
        LaysNothing(s);
      } else {
        CapacityLaw(s, q.Payload(), true);
        PutFixedLays(s, q.Payload());
      }
    }
    hide WriteData, Lays;
  }

  /** Appending a packet appends its payload, if and only if the payload fits. */
  lemma PutPacketExactly(s: PacketState, q: PacketState)
    requires AtEnd(s) && Valid(q)
    ensures var p := PutPacket(s, q);
            && (p.outcome.Returned? <==> |s.data| + q.WorkSize() < DATAGRAM_SIZE)
            && (p.outcome.Returned? ==>
                && p.next == Appended(s, q.Payload()) && AtEnd(p.next)
                && p.next.Payload() == s.Payload() + q.Payload())
  {
    hide WriteData, Le, FromLe, Stamp;
    AppendExactly(s, q.Payload());
    AppendedNothing(s);
    AppendedPayload(s, q.Payload());
  }

  lemma {:induction false} PutAllConcat(s: PacketState, a: seq<Value>, b: seq<Value>)
    requires Coherent(s) && AllWellTyped(a) && AllWellTyped(b)
    ensures var p := PutAll(s, a);
            PutAll(s, a + b) == if p.outcome.Threw? then p else PutAll(p.next, b)
    decreases |a|
  {
    if a == [] {
      assert a + b == b;
    } else {
      assert (a + b)[0] == a[0] && (a + b)[1..] == a[1..] + b;
      if Put(s, a[0]).outcome.Returned? {
        PutAllConcat(Put(s, a[0]).next, a[1..], b);
      }
    }
  }

  lemma BuiltPayload(vs: seq<Value>)
    requires AllWellTyped(vs) && Coherent(NewPacket()) && PutAll(NewPacket(), vs).outcome.Returned?
    ensures var q := PutAll(NewPacket(), vs).next;
            Valid(q) && q.Payload() == Images(vs) && q.WorkSize() == |Images(vs)|
  {
    ClearedIsValid(NewPacket());
    PutAllExactly(NewPacket(), vs);
    StampVerifies([0, 0] + Images(vs));
    assert ([0, 0] + Images(vs))[HEADER..] == Images(vs);
  }

  lemma PutPacketOfImages(s: PacketState, q: PacketState, vs: seq<Value>)
    requires AtEnd(s) && Valid(q) && AllWellTyped(vs) && AllStorable(vs)
    requires q.Payload() == Images(vs) && q.WorkSize() == |Images(vs)|
    ensures PutPacket(s, q).outcome.Returned? <==> PutAll(s, vs).outcome.Returned?
    ensures PutAll(s, vs).outcome.Returned? ==> PutPacket(s, q).next == PutAll(s, vs).next
  {
    PutAllExactly(s, vs);
    PutPacketExactly(s, q);
  }

  /** One nested packet is the same as its values written in place. */
  lemma NestedPacketIsFlat(s: PacketState, vs: seq<Value>)
    requires AtEnd(s) && AllWellTyped(vs)
    ensures Coherent(NewPacket())
    ensures var q, flat := PutAll(NewPacket(), vs), PutAll(s, vs);
            && (flat.outcome.Returned? <==>
                q.outcome.Returned? && PutPacket(s, q.next).outcome.Returned?)
            && (flat.outcome.Returned? ==> PutPacket(s, q.next).next == flat.next)
  {
    ClearedIsValid(NewPacket());
    PutAllExactly(NewPacket(), vs);
    if PutAll(NewPacket(), vs).outcome.Returned? {
      BuiltPayload(vs);
      PutPacketOfImages(s, PutAll(NewPacket(), vs).next, vs);
    } else {
      PutAllExactly(s, vs);
    }
  }

  /** However deeply packets are nested, the result is the packet that holds the same values
      written flat, and building succeeds exactly when writing them flat does. */
  lemma {:induction false} NestingIsFlattening(s: PacketState, items: seq<Item>)
    requires AtEnd(s) && ItemsWellTyped(items)
    ensures AllWellTyped(Flatten(items))
    ensures var built, flat := Build(s, items), PutAll(s, Flatten(items));
            && (built.outcome.Returned? <==> flat.outcome.Returned?)
            && (flat.outcome.Returned? ==> built.next == flat.next)
    decreases items
  {
    FlattenWellTyped(items);
    if items == [] {
    } else {
      var head := if items[0].Leaf? then [items[0].v] else Flatten(items[0].items);
      var tail := Flatten(items[1..]);
      assert AllWellTyped(head) && AllWellTyped(tail) by {
        FlattenWellTyped(items[1..]);
        if items[0].Nest? { FlattenWellTyped(items[0].items); }
      }
      PutAllConcat(s, head, tail);
      PutAllExactly(s, head);
      match items[0]
      case Leaf(v) =>
        assert PutAll(s, [v]) == Put(s, v) by { assert [v][1..] == []; }
        if Put(s, v).outcome.Returned? { NestingIsFlattening(Put(s, v).next, items[1..]); }
      case Nest(inner) =>
        NestedPacketIsFlat(s, head);
        NestingIsFlattening(NewPacket(), inner);
        if PutAll(s, head).outcome.Returned? {
          NestingIsFlattening(PutAll(s, head).next, items[1..]);
        }
    }
  }

  // ---------------------------------------------------------------------------
  // Fields outside a patch

  lemma TakeStringIsLocal(s: PacketState, t: PacketState, size: nat)
    requires Readable(s) && Readable(t) && |s.data| == |t.data| && s.readPos == t.readPos
    requires Take(s, StringT).outcome.Returned?
    requires size == |Take(s, StringT).outcome.value.chars|
    requires s.readPos + 2 + size <= |s.data|
    requires s.data[s.readPos..s.readPos + 2] == t.data[s.readPos..s.readPos + 2]
    requires s.data[s.readPos + 2..s.readPos + 2 + size] == t.data[s.readPos + 2..s.readPos + 2 + size]
    ensures Take(t, StringT) == Step(Take(s, StringT).outcome, t.(readPos := s.readPos + 2 + size))
  {
    ReadIsLocal(s, t, 2);
    ReadIsLocal(s.(readPos := s.readPos + 2), t.(readPos := s.readPos + 2), size);
  }

  /** What a successful read returns depends only on the bytes it consumes. */
  lemma TakeIsLocal(s: PacketState, t: PacketState, kind: WireType)
    requires Readable(s) && Readable(t) && Proper(kind)
    requires Take(s, kind).outcome.Returned?
    requires |s.data| == |t.data| && s.readPos == t.readPos
    requires var end := Take(s, kind).next.readPos;
             s.readPos <= end <= |s.data| && s.data[s.readPos..end] == t.data[s.readPos..end]
    ensures Take(t, kind) == Step(Take(s, kind).outcome, t.(readPos := Take(s, kind).next.readPos))
  {
    var pos, end := s.readPos, Take(s, kind).next.readPos;
    if kind.StringT? {
      SplitSlices(s.data, t.data, pos, pos + 2, end);
      TakeStringIsLocal(s, t, end - pos - 2);
    } else {
      ReadIsLocal(s, t, Width(kind));
    }
  }

  lemma GetAdvances(s: PacketState, kind: WireType)
    requires Readable(s) && Proper(kind)
    ensures s.readPos <= Get(s, kind).next.readPos
  {
  }

  lemma SplicedFieldsKept(s: PacketState, pos: nat, bytes: seq<byte>, kind: WireType)
    requires Readable(s) && pos + |bytes| <= |s.data| && Proper(kind) && Get(s, kind).outcome.Returned?
    requires Get(s, kind).next.readPos <= pos || pos + |bytes| <= s.readPos
    ensures Get(s.(data := Splice(s.data, pos, bytes), writePos := |s.data|), kind).outcome
            == Get(s, kind).outcome
  {
    GetAdvances(s, kind);
    SpliceKeepsOutside(s.data, pos, bytes, s.readPos, Get(s, kind).next.readPos);
    TakeIsLocal(s, s.(data := Splice(s.data, pos, bytes), writePos := |s.data|), kind);
  }

  /** A patch leaves every field it does not touch as it was: a value decoded at `pos` from bytes
      that all lie before or all lie after the patch is decoded the same afterwards. */
  lemma PatchKeepsOtherFields(s: PacketState, k: nat, bytes: seq<byte>, pos: nat, kind: WireType)
    requires Valid(s) && k + |bytes| <= s.WorkSize() && Proper(kind)
    requires HEADER <= pos <= |s.data| && Get(s.(readPos := pos), kind).outcome.Returned?
    requires Get(s.(readPos := pos), kind).next.readPos <= HEADER + k || HEADER + k + |bytes| <= pos
    ensures var t := s.(data := Splice(s.data, HEADER + k, bytes), writePos := |s.data|);
            && Run(s, PatchOps(k, bytes)) == Some(t)
            && Get(t.(readPos := pos), kind).outcome == Get(s.(readPos := pos), kind).outcome
  {
    SplicedFieldsKept(s.(readPos := pos), HEADER + k, bytes, kind);
    InPlacePatch(s, k, bytes);
  }
}
