/** Bytes, little-endian integers, and the two ways a C++ call can end. */
module Bytes {

  type byte = b: int | 0 <= b < 256

  /** A call either returns a value or throws, as `enforce` does when its condition fails. */
  datatype Outcome<+T> = Returned(value: T) | Threw

  datatype Option<+T> = None | Some(value: T)

  function Min(a: int, b: int): int {
    if a <= b then a else b
  }

  function Max(a: int, b: int): int {
    if a >= b then a else b
  }

  /** `bytes` copied over `data` at `pos`. */
  function Overlay(data: seq<byte>, pos: nat, bytes: seq<byte>): (r: seq<byte>)
    requires pos + |bytes| <= |data|
    ensures |r| == |data|
  {
    data[..pos] + bytes + data[pos + |bytes|..]
  }

  function Pow256(width: nat): nat {
    if width == 0 then 1 else 256 * Pow256(width - 1)
  }

  /** The memory image of `n` truncated to `width` bytes, low byte first. */
  function Le(width: nat, n: nat): (bytes: seq<byte>)
    ensures |bytes| == width
  {
    if width == 0 then [] else [n % 256] + Le(width - 1, n / 256)
  }

  function FromLe(bytes: seq<byte>): nat {
    if bytes == [] then 0 else bytes[0] + 256 * FromLe(bytes[1..])
  }

  lemma {:induction false} LeThenFromLe(width: nat, n: nat)
    requires n < Pow256(width)
    ensures FromLe(Le(width, n)) == n
  {
    if width == 0 {
    } else {
      LeThenFromLe(width - 1, n / 256);
      assert Le(width, n)[1..] == Le(width - 1, n / 256);
    }
  }

  lemma {:induction false} FromLeThenLe(bytes: seq<byte>)
    ensures FromLe(bytes) < Pow256(|bytes|)
    ensures Le(|bytes|, FromLe(bytes)) == bytes
  {
    if bytes == [] {
    } else {
      FromLeThenLe(bytes[1..]);
      assert FromLe(bytes) % 256 == bytes[0] && FromLe(bytes) / 256 == FromLe(bytes[1..]);
    }
  }

  lemma DivideTwice(n: nat)
    ensures n / 0x100 / 0x100 == n / 0x1_0000
  {
  }

  lemma LeTwoFront(width: nat, n: nat)
    ensures Le(width + 2, n) == [n % 0x100, n / 0x100 % 0x100] + Le(width, n / 0x1_0000)
  {
    DivideTwice(n);
    assert Le(width + 2, n) == [n % 0x100] + ([n / 0x100 % 0x100] + Le(width, n / 0x100 / 0x100));
  }

  lemma LeHalves(n: nat)
    ensures Le(4, n) == Le(2, n) + Le(2, n / 0x1_0000)
  {
    LeTwoFront(0, n);
    LeTwoFront(2, n);
  }

  lemma LeEight(n: nat)
    ensures Le(8, n) == Le(4, n) + Le(4, n / 0x1_0000 / 0x1_0000)
  {
    var k := n / 0x1_0000;
    LeTwoFront(0, n);
    LeTwoFront(6, n);
    LeTwoFront(4, k);
    LeTwoFront(2, n);
    LeTwoFront(0, k);
    hide Le;
  }

  /** The memory images of the widths in use, byte by byte. */
  lemma LeBytes(n: nat)
    ensures Le(1, n) == [n % 0x100]
    ensures Le(2, n) == [n % 0x100, n / 0x100 % 0x100]
    ensures Le(4, n) == Le(2, n) + Le(2, n / 0x1_0000)
    ensures Le(8, n) == Le(4, n) + Le(4, n / 0x1_0000_0000)
  {
    assert Le(1, n) == [n % 0x100] + Le(0, n / 0x100);
    LeTwoFront(0, n);
    LeHalves(n);
    LeEight(n);
    assert n / 0x1_0000 / 0x1_0000 == n / 0x1_0000_0000;
  }

  lemma TwoBytes(bytes: seq<byte>)
    requires |bytes| == 2
    ensures FromLe(bytes) == bytes[0] as int + 256 * bytes[1] as int
  {
    assert FromLe(bytes[1..]) == bytes[1] as int + 256 * FromLe([]) by {
      assert bytes[1..][1..] == [];
    }
  }

  lemma Pow256Values()
    ensures Pow256(1) == 0x100 && Pow256(2) == 0x1_0000
    ensures Pow256(4) == 0x1_0000_0000 && Pow256(8) == 0x1_0000_0000_0000_0000
  {
    assert Pow256(3) == 0x100_0000;
    assert Pow256(5) == 0x100_0000_0000;
    assert Pow256(6) == 0x1_0000_0000_0000;
    assert Pow256(7) == 0x100_0000_0000_0000;
  }

  /** Two's complement: the unsigned pattern of a signed integer of `width` bytes. */
  function ToUnsigned(width: nat, i: int): nat
    requires 0 <= 2 * i + Pow256(width) < 2 * Pow256(width)
  {
    if i < 0 then i + Pow256(width) else i
  }

  function ToSigned(width: nat, n: nat): int {
    if 2 * n < Pow256(width) then n else n - Pow256(width)
  }
}
