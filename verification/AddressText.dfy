/**
 * What the node's address checks accept: exactly the dotted-decimal texts that the
 * control plane writes (qarax-node/src/networking/mod.rs).
 */
module AddressText {
  import opened Common
  import opened IptablesKernel
  import opened Validation

  function Dotted(a: nat, b: nat, c: nat, d: nat): string {
    Decimal(a) + "." + Decimal(b) + "." + Decimal(c) + "." + Decimal(d)
  }

  /* ---- numbers ---- */

  lemma DigitIs(n: nat)
    requires n < 10
    ensures IsDigit(Digit(n)) && Digit(n) as int - '0' as int == n
  {
  }

  lemma DigitsOf(s: string, c: char)
    requires Digits(s) && IsDigit(c)
    ensures Digits(s + [c]) && Value(s + [c]) == 10 * Value(s) + (c as int - '0' as int)
  {
    assert (s + [c])[..|s|] == s;
  }

  lemma {:induction false} DecimalValue(n: nat)
    ensures Digits(Decimal(n)) && Value(Decimal(n)) == n
    ensures |Decimal(n)| > 1 ==> Decimal(n)[0] != '0'
    ensures n == 0 <==> Decimal(n) == "0"
    ensures n < 10 <==> |Decimal(n)| == 1
  {
    DigitIs(n % 10);
    if n < 10 {
      assert Decimal(n)[..0] == "";
    } else {
      DecimalValue(n / 10);
      DigitsOf(Decimal(n / 10), Digit(n % 10));
      assert Decimal(n)[0] == Decimal(n / 10)[0];
    }
  }

  lemma CharIs(c: char)
    requires IsDigit(c)
    ensures Digit(c as int - '0' as int) == c
  {
  }

  lemma DecimalStep(m: nat, d: nat)
    requires m > 0 && d < 10
    ensures Decimal(10 * m + d) == Decimal(m) + [Digit(d)]
  {
    assert (10 * m + d) / 10 == m && (10 * m + d) % 10 == d;
  }

  /** A text that is printed for its own value. */
  predicate Canonical(s: string) {
    Digits(s) && Decimal(Value(s)) == s && (s[0] != '0' ==> Value(s) > 0)
  }

  lemma OneMoreDigit(front: string, last: char)
    requires Digits(front) && IsDigit(last) && Value(front) > 0 && Decimal(Value(front)) == front
    ensures Canonical(front + [last])
  {
    DigitsOf(front, last);
    CharIs(last);
    var m, d: nat := Value(front), last as int - '0' as int;
    DecimalStep(m, d);
    assert Value(front + [last]) == 10 * m + d && Decimal(10 * m + d) == front + [last];
  }

  lemma OneDigit(c: char)
    requires IsDigit(c)
    ensures Canonical([c])
  {
    CharIs(c);
    assert [c][..0] == "";
  }

  lemma {:induction false} DigitsAreCanonical(s: string)
    requires Digits(s) && (|s| > 1 ==> s[0] != '0')
    ensures Canonical(s)
  {
    var front, last := s[..|s| - 1], s[|s| - 1];
    assert last in s && s == front + [last];
    if front == "" {
      OneDigit(last);
    } else {
      assert Digits(front) && front[0] == s[0];
      DigitsAreCanonical(front);
      OneMoreDigit(front, last);
    }
  }

  lemma DecimalOfValue(s: string)
    requires Digits(s) && (|s| > 1 ==> s[0] != '0')
    ensures Decimal(Value(s)) == s && (s[0] != '0' ==> Value(s) > 0)
  {
    DigitsAreCanonical(s);
  }

  lemma {:induction false} DecimalLength(n: nat)
    ensures |Decimal(n)| <= 3 <==> n < 1000
  {
    DecimalValue(n);
    if n >= 10 {
      DecimalValue(n / 10);
      if n >= 100 {
        DecimalValue(n / 100);
        assert n / 10 / 10 == n / 100;
      }
    }
  }

  /** An octet is accepted exactly when it is the text of a number below 256. */
  lemma OctetIff(s: string)
    ensures ValidOctet(s) <==> exists n: nat :: n < 256 && s == Decimal(n)
  {
    if ValidOctet(s) {
      DecimalOfValue(s);
    }
    if n: nat :| n < 256 && s == Decimal(n) {
      DecimalValue(n);
      DecimalLength(n);
    }
  }

  /* ---- addresses ---- */

  /** The text of four numbers is accepted exactly when each is below 256. */
  lemma DottedIff(a: nat, b: nat, c: nat, d: nat)
    ensures ValidIpv4Address(Dotted(a, b, c, d)) <==> a < 256 && b < 256 && c < 256 && d < 256
  {
    OctetTextIff(a);
    OctetTextIff(b);
    OctetTextIff(c);
    OctetTextIff(d);
    var s1 := Decimal(d);
    var s2 := Decimal(c) + "." + s1;
    var s3 := Decimal(b) + "." + s2;
    assert Dotted(a, b, c, d) == Decimal(a) + "." + s3;
    OctetsPeel(Decimal(a), s3, 3);
    OctetsPeel(Decimal(b), s2, 2);
    OctetsPeel(Decimal(c), s1, 1);
  }

  lemma OctetTextIff(n: nat)
    ensures ValidOctet(Decimal(n)) <==> n < 256
    ensures '.' !in Decimal(n) && '/' !in Decimal(n)
  {
    DecimalValue(n);
    DecimalLength(n);
  }

  lemma OctetsPeel(s: string, rest: string, n: nat)
    requires n >= 1 && '.' !in s
    ensures ValidOctets(s + "." + rest, n + 1) <==> ValidOctet(s) && ValidOctets(rest, n)
  {
    SplitAtFirst(s, '.', rest);
    assert s + ['.'] + rest == s + "." + rest;
  }

  lemma PeelOctet(s: string, n: nat) returns (a: nat, rest: string)
    requires n >= 1 && ValidOctets(s, n + 1)
    ensures s == Decimal(a) + "." + rest && ValidOctets(rest, n)
  {
    var parts := SplitOnce(s, '.').value;
    OctetIff(parts.0);
    a :| a < 256 && parts.0 == Decimal(a);
    rest := parts.1;
  }

  /** And nothing but such texts is accepted. */
  lemma AddressIsDotted(s: string) returns (a: nat, b: nat, c: nat, d: nat)
    requires ValidIpv4Address(s)
    ensures s == Dotted(a, b, c, d)
  {
    var s3, s2, s1: string;
    a, s3 := PeelOctet(s, 3);
    b, s2 := PeelOctet(s3, 2);
    c, s1 := PeelOctet(s2, 1);
    d := LastOctet(s1);
    Regroup(Decimal(a), Decimal(b), Decimal(c), Decimal(d));
  }

  lemma LastOctet(s: string) returns (d: nat)
    requires ValidOctets(s, 1)
    ensures s == Decimal(d)
  {
    OctetIff(s);
    d :| d < 256 && s == Decimal(d);
  }

  lemma Regroup(w: string, x: string, y: string, z: string)
    ensures w + "." + (x + "." + (y + "." + z)) == w + "." + x + "." + y + "." + z
  {
  }

  /** With a length in decimal, a subnet is accepted exactly when the address is and the length is at most 32. */
  lemma CidrIff(address: string, length: nat)
    requires '/' !in address
    ensures ValidIpv4Cidr(address + "/" + Decimal(length)) <==> ValidIpv4Address(address) && length <= 32
  {
    SplitAtFirst(address, '/', Decimal(length));
    assert address + ['/'] + Decimal(length) == address + "/" + Decimal(length);
    DecimalValue(length);
    assert Decimal(length)[0] in Decimal(length);
  }

  /** Interface names of letters, digits and hyphens are accepted when they have at most 15 of them. */
  lemma NameIff(s: string)
    requires s != "" && s[0] != '-' && forall c :: c in s ==> 'a' <= c <= 'z' || '0' <= c <= '9' || c == '-'
    ensures ValidIfaceName(s) <==> |s| <= 15
  {
    assert forall i :: 0 <= i < |s| ==> s[i] in s;
    AsciiLength(s);
  }
}
