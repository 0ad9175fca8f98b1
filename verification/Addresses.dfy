/** Printing an address, and why numeric addresses of one family never print alike. */
module Addresses {

  datatype AddressFamily = NoFamily | Inet | Inet6 | AnyFamily

  type port = p: int | 0 <= p < 0x1_0000

  datatype Address = Address(address: string, port: port, family: AddressFamily)

  predicate IsDigit(c: char) {
    '0' <= c <= '9'
  }

  predicate IsHexDigit(c: char) {
    IsDigit(c) || 'a' <= c <= 'f' || 'A' <= c <= 'F'
  }

  /** What the scan of an IPv4 address accepts: digits and dots, a digit first. */
  predicate NumericInet(s: string) {
    s != "" && IsDigit(s[0]) && forall i | 0 <= i < |s| :: IsDigit(s[i]) || s[i] == '.'
  }

  /** What the scan of an IPv6 address accepts: hexadecimal digits and colons, at least one digit. */
  predicate NumericInet6(s: string) {
    && (exists i | 0 <= i < |s| :: IsHexDigit(s[i]))
    && (forall i | 0 <= i < |s| :: IsHexDigit(s[i]) || s[i] == ':')
  }

  predicate Numeric(a: Address) {
    match a.family
    case Inet => NumericInet(a.address)
    case Inet6 => NumericInet6(a.address)
    case _ => false
  }

  /** `is_numeric`, with the loops of the source. */
  method IsNumeric(a: Address) returns (numeric: bool)
    ensures numeric <==> Numeric(a)
  {
    var s := a.address;
    if s == "" { return false; }
    match a.family {
      case Inet =>
        var hasNumber := false;
        for i := 0 to |s|
          invariant forall j | 0 <= j < i :: IsDigit(s[j]) || s[j] == '.'
          invariant i > 0 ==> IsDigit(s[0])
          invariant hasNumber <==> i > 0
        {
          if s[i] == '.' {
            if !hasNumber { return false; }
          } else if IsDigit(s[i]) {
            hasNumber := true;
          } else {
            return false;
          }
        }
        return hasNumber;
      case Inet6 =>
        var hasNumber := false;
        for i := 0 to |s|
          invariant forall j | 0 <= j < i :: IsHexDigit(s[j]) || s[j] == ':'
          invariant hasNumber <==> exists j | 0 <= j < i :: IsHexDigit(s[j])
        {
          if IsHexDigit(s[i]) {
            hasNumber := true;
          } else if s[i] != ':' {
            return false;
          }
        }
        return hasNumber;
      case _ => return false;
    }
  }

  /** A number as the stream prints it. */
  function Decimal(n: nat): (s: string)
    ensures s != "" && forall i | 0 <= i < |s| :: IsDigit(s[i])
  {
    var digit := [('0' as int + n % 10) as char];
    if n < 10 then digit else Decimal(n / 10) + digit
  }

  function Printed(a: Address): string {
    if a.port == 0 then a.address
    else if a.family == Inet6 && Numeric(a) then "[" + a.address + "]:" + Decimal(a.port)
    else a.address + ":" + Decimal(a.port)
  }

  /** `to_string`, piece by piece. */
  method ToString(a: Address) returns (s: string)
    ensures s == Printed(a)
    ensures a.port == 0 ==> s == a.address
    ensures a.port != 0 && a.family == Inet6 && NumericInet6(a.address) ==>
              s == "[" + a.address + "]:" + Decimal(a.port)
    ensures a.port != 0 && !(a.family == Inet6 && NumericInet6(a.address)) ==>
              s == a.address + ":" + Decimal(a.port)
  {
    var numeric := IsNumeric(a);
    s := "";
    if a.family != Inet6 || !numeric {
      s := s + a.address;
      if a.port != 0 {
        s := s + ":" + Decimal(a.port);
      }
      return;
    }
    if a.port != 0 {
      s := s + "[" + a.address + "]:" + Decimal(a.port);
    } else {
      s := s + a.address;
    }
  }

  lemma DecimalParts(n: nat)
    ensures var s := Decimal(n);
            && s[|s| - 1] == ('0' as int + n % 10) as char
            && (n < 10 ==> |s| == 1)
            && (n >= 10 ==> |s| > 1 && s[..|s| - 1] == Decimal(n / 10))
  {
  }

  lemma {:induction false} DecimalInjective(m: nat, n: nat)
    requires Decimal(m) == Decimal(n)
    ensures m == n
  {
    DecimalParts(m);
    DecimalParts(n);
    if m >= 10 && n >= 10 {
      DecimalInjective(m / 10, n / 10);
    }
  }

  /** The number a string of decimal digits denotes. */
  function Denoted(s: string): int {
    if s == "" then 0 else 10 * Denoted(s[..|s| - 1]) + (s[|s| - 1] as int - '0' as int)
  }

  /** A printed number denotes that number and has no leading zero. */
  lemma {:induction false} DecimalDenotes(n: nat)
    ensures Denoted(Decimal(n)) == n
    ensures n > 0 ==> Decimal(n)[0] != '0'
  {
    DecimalParts(n);
    if n >= 10 {
      DecimalDenotes(n / 10);
    } else {
      assert Decimal(n)[..0] == "";
    }
  }

  /** Two strings split at the last occurrence of a character that the right parts do not hold. */
  lemma SplitAtLastMark(a: string, x: string, b: string, y: string, mark: char)
    requires mark !in x && mark !in y
    requires a + [mark] + x == b + [mark] + y
    ensures a == b && x == y
  {
    var s, t := a + [mark] + x, b + [mark] + y;
    assert s[|a|] == mark && t[|b|] == mark;
    assert forall i | |a| < i < |s| :: s[i] == x[i - |a| - 1];
    assert forall i | |b| < i < |t| :: t[i] == y[i - |b| - 1];
    assert |a| == |b|;
    assert s[..|a|] == a && t[..|b|] == b;
    assert s[|a| + 1..] == x && t[|b| + 1..] == y;
  }

  /** The address text as it is printed: in brackets when a numeric IPv6 address has a port. */
  function Shown(a: Address): string {
    if a.port != 0 && a.family == Inet6 && Numeric(a) then "[" + a.address + "]" else a.address
  }

  lemma PrintedParts(a: Address)
    ensures a.port == 0 ==> Printed(a) == a.address == Shown(a)
    ensures a.port != 0 ==> Printed(a) == Shown(a) + [':'] + Decimal(a.port) && ':' !in Decimal(a.port)
  {
  }

  /** When two addresses print alike, over all addresses, numeric or not and of any families: with
      equal ports exactly when their texts are shown alike; with two different ports that are not 0
      never; and with one port 0, exactly when that address is itself written as the other one
      followed by its port. */
  lemma PrintingLaw(a: Address, b: Address)
    ensures Printed(a) == Printed(b) <==>
            || (a.port == b.port && Shown(a) == Shown(b))
            || (a.port == 0 != b.port && a.address == Shown(b) + ":" + Decimal(b.port))
            || (b.port == 0 != a.port && b.address == Shown(a) + ":" + Decimal(a.port))
  {
    PrintedParts(a);
    PrintedParts(b);
    if a.port != 0 && b.port != 0 && Printed(a) == Printed(b) {
      SplitAtLastMark(Shown(a), Decimal(a.port), Shown(b), Decimal(b.port), ':');
      DecimalInjective(a.port, b.port);
    }
  }

  lemma NumericHasNoMarks(a: Address)
    requires Numeric(a)
    ensures ']' !in a.address && '[' !in a.address && (a.family == Inet ==> ':' !in a.address)
  {
  }

  lemma NumericIsNoPrintedPort(a: Address, b: Address)
    requires Numeric(a) && Numeric(b) && a.family == b.family && b.port != 0
    ensures a.address != Shown(b) + ":" + Decimal(b.port)
  {
    NumericHasNoMarks(a);
    var printed := Shown(b) + ":" + Decimal(b.port);
    if a.family == Inet {
      assert printed[|Shown(b)|] == ':';
    } else {
      assert printed[0] == '[';
    }
  }

  /** What is printed in each case: a port of 0 is left out, and only a numeric IPv6 address with a
      port is put in brackets. A name is not, whatever its family. */
  lemma PrintedText(a: Address)
    ensures a.port == 0 ==> Printed(a) == a.address
    ensures a.port != 0 && a.family == Inet6 && NumericInet6(a.address) ==>
              Printed(a) == "[" + a.address + "]:" + Decimal(a.port)
    ensures a.port != 0 && (a.family != Inet6 || !NumericInet6(a.address)) ==>
              Printed(a) == a.address + ":" + Decimal(a.port)
    ensures Printed(Address("::1", 80, Inet6)) == "[::1]:80"
    ensures Printed(Address("host", 80, Inet6)) == "host:80"
    ensures Printed(Address("10.0.0.1", 80, Inet)) == "10.0.0.1:80"
  {
    assert Decimal(80) == Decimal(8) + "0" && Decimal(8) == "8";
    assert IsHexDigit("::1"[2]);
    assert !IsHexDigit("host"[0]);
  }

  /** Printing is injective on the numeric addresses of a family. */
  lemma PrintingIsInjective(a: Address, b: Address)
    requires Numeric(a) && Numeric(b) && a.family == b.family
    requires Printed(a) == Printed(b)
    ensures a == b
  {
    PrintingLaw(a, b);
    if a.port == b.port {
      assert ("[" + a.address + "]")[1..|a.address| + 1] == a.address;
      assert ("[" + b.address + "]")[1..|b.address| + 1] == b.address;
    } else if a.port == 0 {
      NumericIsNoPrintedPort(a, b);
    } else if b.port == 0 {
      NumericIsNoPrintedPort(b, a);
    }
  }

  /** Addresses of two families, or of one family when one of them is not numeric, can print alike. */
  lemma PrintingIsAmbiguousOtherwise()
    ensures exists a, b ::
              Numeric(a) && Numeric(b) && a.family != b.family && Printed(a) == Printed(b)
    ensures exists a, b ::
              !Numeric(a) && Numeric(b) && a.family == b.family && a != b && Printed(a) == Printed(b)
  {
    var v4, v6, name := Address("1", 2, Inet), Address("1:2", 0, Inet6), Address("1:2", 0, Inet);
    assert Decimal(2) == "2";
    assert Printed(v4) == "1:2";
    assert IsHexDigit("1:2"[0]);
    assert Numeric(v4) && Numeric(v6);
    assert !Numeric(name) by { assert "1:2"[1] == ':'; }
    assert Printed(v6) == Printed(v4) && Printed(name) == Printed(v4);
  }
}
