/**
 * The checks the node agent runs on names and addresses before they reach a
 * command line (qarax-node/src/networking/mod.rs).
 */
module Validation {
  import opened Common

  /** Unicode White_Space, which is what Rust's char::is_whitespace tests. */
  predicate IsWhitespace(c: char) {
    || '\U{9}' <= c <= '\U{D}' || c == ' ' || c == '\U{85}' || c == '\U{A0}' || c == '\U{1680}'
    || '\U{2000}' <= c <= '\U{200A}' || c == '\U{2028}' || c == '\U{2029}' || c == '\U{202F}'
    || c == '\U{205F}' || c == '\U{3000}'
  }

  function Utf8Length(s: string): (n: nat)
    ensures n >= |s|
  {
    if s == "" then 0
    else
      (if s[0] < '\U{80}' then 1 else if s[0] < '\U{800}' then 2 else if s[0] < '\U{10000}' then 3 else 4)
      + Utf8Length(s[1..])
  }

  predicate ValidIfaceName(name: string) {
    && 1 <= Utf8Length(name) <= 15
    && name[0] != '-'
    && forall c :: c in name ==> c != '/' && c != '\0' && !IsWhitespace(c)
  }

  predicate IsDigit(c: char) {
    '0' <= c <= '9'
  }

  predicate StartsWithDigit(s: string) {
    s != "" && IsDigit(s[0])
  }

  lemma DigitPrefix(p: string, t: string)
    requires StartsWithDigit(p)
    ensures p <= t ==> StartsWithDigit(t)
  {
  }

  function Value(s: string): nat
    requires forall c :: c in s ==> IsDigit(c)
  {
    if s == "" then 0
    else
      var last := s[|s| - 1];
      assert IsDigit(last);
      Value(s[..|s| - 1]) * 10 + (last as int - '0' as int)
  }

  predicate Digits(s: string) {
    s != "" && forall c :: c in s ==> IsDigit(c)
  }

  /** The text before and after the first `sep`. */
  function SplitOnce(s: string, sep: char): (r: Option<(string, string)>)
    ensures r.None? <==> sep !in s
    ensures r.Some? ==> s == r.value.0 + [sep] + r.value.1 && sep !in r.value.0
  {
    if s == "" then None
    else if s[0] == sep then Some(("", s[1..]))
    else
      match SplitOnce(s[1..], sep)
      case None => None
      case Some(parts) => Some(([s[0]] + parts.0, parts.1))
  }

  /** One dotted-decimal octet: no sign and no leading zero. */
  predicate ValidOctet(s: string) {
    Digits(s) && |s| <= 3 && (|s| > 1 ==> s[0] != '0') && Value(s) <= 255
  }

  predicate ValidOctets(s: string, n: nat)
    requires n >= 1
    decreases n
  {
    if n == 1 then ValidOctet(s)
    else
      match SplitOnce(s, '.')
      case None => false
      case Some(parts) => ValidOctet(parts.0) && ValidOctets(parts.1, n - 1)
  }

  predicate ValidIpv4Address(s: string) {
    ValidOctets(s, 4)
  }

  /** u8::from_str: an optional plus sign and decimal digits. */
  predicate ValidPrefixLength(s: string) {
    var digits := if s != "" && s[0] == '+' then s[1..] else s;
    Digits(digits) && Value(digits) <= 32
  }

  predicate ValidIpv4Cidr(s: string) {
    match SplitOnce(s, '/')
    case None => false
    case Some(parts) => ValidIpv4Address(parts.0) && ValidPrefixLength(parts.1)
  }

  /** A validated address is written with digits and dots only. */
  lemma {:induction false} OctetsAlphabet(s: string, n: nat)
    requires n >= 1 && ValidOctets(s, n)
    ensures s != "" && forall c :: c in s ==> IsDigit(c) || c == '.'
    decreases n
  {
    if n > 1 {
      OctetsAlphabet(SplitOnce(s, '.').value.1, n - 1);
    }
  }

  lemma {:induction false} AsciiLength(s: string)
    requires forall i :: 0 <= i < |s| ==> s[i] < '\U{80}'
    ensures Utf8Length(s) == |s|
  {
    if s != "" {
      AsciiLength(s[1..]);
    }
  }

  lemma OneDigitOctet(d: char, rest: string)
    requires IsDigit(d)
    ensures SplitOnce([d, '.'] + rest, '.') == Some(([d], rest)) && ValidOctet([d])
  {
    var s := [d, '.'] + rest;
    assert s[1..] == ['.'] + rest && (['.'] + rest)[1..] == rest;
    assert SplitOnce(s[1..], '.') == Some(("", rest));
    assert [d] + "" == [d] && [d][..0] == "" && Value("") == 0;
  }

  /** Four single digits separated by dots are a valid address. */
  lemma ShortAddress(a: char, b: char, c: char, d: char)
    requires IsDigit(a) && IsDigit(b) && IsDigit(c) && IsDigit(d)
    ensures ValidIpv4Address([a, '.', b, '.', c, '.', d])
  {
    var s3, s2 := [c, '.', d], [b, '.', c, '.', d];
    assert [a, '.', b, '.', c, '.', d] == [a, '.'] + s2 && s2 == [b, '.'] + s3 && s3 == [c, '.'] + [d];
    OneDigitOctet(a, s2);
    OneDigitOctet(b, s3);
    OneDigitOctet(c, [d]);
    OneDigitOctet(d, "");
    assert ValidOctets([d], 1) && ValidOctets(s3, 2) && ValidOctets(s2, 3);
  }

  /** A validated subnet starts with a digit, contains its slash and has no blank. */
  lemma CidrAlphabet(s: string)
    requires ValidIpv4Cidr(s)
    ensures s != "" && IsDigit(s[0]) && '/' in s
    ensures forall c :: c in s ==> IsDigit(c) || c == '.' || c == '/' || c == '+'
  {
    var parts := SplitOnce(s, '/').value;
    OctetsAlphabet(parts.0, 4);
    assert s == parts.0 + ['/'] + parts.1;
    assert s[0] == parts.0[0] && parts.0[0] in parts.0;
    FirstIsDigit(parts.0);
    forall c | c in s ensures IsDigit(c) || c == '.' || c == '/' || c == '+' {
      assert c in parts.0 || c == '/' || c in parts.1;
    }
  }

  lemma FirstIsDigit(s: string)
    requires ValidIpv4Address(s) && s != ""
    ensures IsDigit(s[0])
  {
    var octet := SplitOnce(s, '.').value.0;
    assert s[0] == octet[0] && octet[0] in octet;
  }

  lemma {:induction false} SplitAtFirst(a: string, sep: char, b: string)
    requires sep !in a
    ensures SplitOnce(a + [sep] + b, sep) == Some((a, b))
  {
    var s := a + [sep] + b;
    if a == "" {
      assert s == [sep] + b;
    } else {
      assert s[1..] == a[1..] + [sep] + b && s[0] == a[0] && a[0] in a;
      SplitAtFirst(a[1..], sep, b);
      assert [a[0]] + a[1..] == a;
    }
  }

  /** The subnet d.d.d.d/8. */
  lemma ShortCidr(d: char)
    requires IsDigit(d)
    ensures ValidIpv4Cidr([d, '.', d, '.', d, '.', d, '/', '8'])
  {
    var address := [d, '.', d, '.', d, '.', d];
    ShortAddress(d, d, d, d);
    SplitAtFirst(address, '/', "8");
    assert address + ['/'] + "8" == [d, '.', d, '.', d, '.', d, '/', '8'];
    assert "8"[..0] == "";
  }
}
