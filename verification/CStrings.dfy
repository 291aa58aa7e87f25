/**
 The C library text routines the configuration engine relies on: strcmp, the
 strtoll/strtoull family on 64-bit integers, and the %lld and 0x%llx formats.
 */
module CStrings {

  const LLONG_MAX: int := 0x7fff_ffff_ffff_ffff
  const LLONG_MIN: int := -0x8000_0000_0000_0000
  const ULLONG_RANGE: int := 0x1_0000_0000_0000_0000

  /** The sign of strcmp. */
  function StrCmp(a: string, b: string): int {
    if a == [] && b == [] then 0
    else if a == [] then -1
    else if b == [] then 1
    else if a[0] < b[0] then -1
    else if a[0] > b[0] then 1
    else StrCmp(a[1..], b[1..])
  }

  lemma {:induction false} StrCmpZero(a: string, b: string)
    ensures StrCmp(a, b) == 0 <==> a == b
  {
    if a != [] && b != [] && a[0] == b[0] {
      StrCmpZero(a[1..], b[1..]);
      assert a == [a[0]] + a[1..] && b == [b[0]] + b[1..];
    }
  }

  /** a comes before b: it is a proper prefix of b, or smaller at the first place where they differ. */
  ghost predicate Before(a: string, b: string) {
    exists i: nat :: i <= |a| && i < |b| && a[..i] == b[..i] && (i == |a| || a[i] < b[i])
  }

  /** strcmp orders texts as a dictionary does. */
  lemma {:induction false} StrCmpOrder(a: string, b: string)
    ensures StrCmp(a, b) < 0 <==> Before(a, b)
    ensures StrCmp(a, b) > 0 <==> Before(b, a)
  {
    if a != [] && b != [] && a[0] == b[0] {
      StrCmpOrder(a[1..], b[1..]);
      BeforeTail(a, b);
      BeforeTail(b, a);
    } else {
      assert a[..0] == b[..0];
      BeforeHead(a, b);
      BeforeHead(b, a);
    }
  }

  lemma BeforeTail(a: string, b: string)
    requires a != [] && b != [] && a[0] == b[0]
    ensures Before(a, b) <==> Before(a[1..], b[1..])
  {
    if i: nat :| i <= |a| && i < |b| && a[..i] == b[..i] && (i == |a| || a[i] < b[i]) {
      assert i > 0 && a[1..][..i-1] == a[..i][1..] == b[..i][1..] == b[1..][..i-1];
    }
    var c, d := a[1..], b[1..];
    if i: nat :| i <= |c| && i < |d| && c[..i] == d[..i] && (i == |c| || c[i] < d[i]) {
      assert a[..i+1] == [a[0]] + a[1..][..i] && b[..i+1] == [b[0]] + b[1..][..i];
    }
  }

  lemma SameHead(a: string, b: string, i: nat)
    requires 0 < i <= |a| && i <= |b| && a[..i] == b[..i]
    ensures a[0] == b[0]
  {
    assert a[..i][0] == a[0] && b[..i][0] == b[0];
  }

  lemma BeforeHead(a: string, b: string)
    requires a == [] || b == [] || a[0] != b[0]
    ensures Before(a, b) <==> b != [] && (a == [] || a[0] < b[0])
  {
    if i: nat :| i <= |a| && i < |b| && a[..i] == b[..i] && (i == |a| || a[i] < b[i]) {
      if i > 0 { SameHead(a, b, i); }
    }
    if b != [] && (a == [] || a[0] < b[0]) { assert a[..0] == b[..0]; }
  }

  predicate IsSpace(c: char) { c in " \t\n\r" || c == '\U{0b}' || c == '\U{0c}' }
  predicate IsDigit(c: char) { '0' <= c <= '9' }
  predicate IsXDigit(c: char) { IsDigit(c) || 'a' <= c <= 'f' || 'A' <= c <= 'F' }

  /** The value of an alphanumeric digit; anything else is no digit in any base. */
  function DigitValue(c: char): nat {
    if '0' <= c <= '9' then c as int - '0' as int
    else if 'a' <= c <= 'z' then c as int - 'a' as int + 10
    else if 'A' <= c <= 'Z' then c as int - 'A' as int + 10
    else 36
  }

  /** Reads the longest run of base-`base` digits of `s` from `i`; returns its value and end. */
  function Digits(s: string, i: nat, base: nat, acc: nat): (r: (nat, nat))
    requires i <= |s|
    ensures i <= r.1 <= |s|
    decreases |s| - i
  {
    if i < |s| && DigitValue(s[i]) < base then
      Digits(s, i + 1, base, acc * base + DigitValue(s[i]))
    else (acc, i)
  }

  function SkipSpace(s: string, i: nat): (r: nat)
    requires i <= |s|
    ensures i <= r <= |s|
    decreases |s| - i
  {
    if i < |s| && IsSpace(s[i]) then SkipSpace(s, i + 1) else i
  }

  predicate HexPrefixAt(s: string, i: nat) {
    i + 2 < |s| && s[i] == '0' && (s[i+1] == 'x' || s[i+1] == 'X') && DigitValue(s[i+2]) < 16
  }

  /** What the strto* functions see: sign, magnitude and the end of the number, 0 when there is none. */
  datatype Number = Number(negative: bool, magnitude: nat, end: nat)

  function ScanNumber(s: string, base: nat): (r: Number)
    requires base in {0, 10, 16}
    ensures r.end <= |s|
  {
    var i := SkipSpace(s, 0);
    var negative := i < |s| && s[i] == '-';
    var j := if i < |s| && (s[i] == '-' || s[i] == '+') then i + 1 else i;
    var prefixed := base != 10 && HexPrefixAt(s, j);
    var actual :=
      if base != 0 then base
      else if prefixed then 16
      else if j < |s| && s[j] == '0' then 8
      else 10;
    var start := if prefixed then j + 2 else j;
    var (magnitude, end) := Digits(s, start, actual, 0);
    if end == start then Number(false, 0, 0) else Number(negative, magnitude, end)
  }

  /** strtoll saturates; `overflow` is errno == ERANGE. */
  datatype Conversion = Conversion(value: int, overflow: bool, end: nat)

  function StrToLL(s: string, base: nat): (r: Conversion)
    requires base in {0, 10, 16}
  {
    var n := ScanNumber(s, base);
    var value: int := if n.negative then 0 - n.magnitude else n.magnitude;
    if value > LLONG_MAX then Conversion(LLONG_MAX, true, n.end)
    else if value < LLONG_MIN then Conversion(LLONG_MIN, true, n.end)
    else Conversion(value, false, n.end)
  }

  /** strtoull negates a signed number modulo 2^64. */
  function StrToULL(s: string, base: nat): (r: Conversion)
    requires base in {0, 10, 16}
    ensures 0 <= r.value < ULLONG_RANGE
  {
    var n := ScanNumber(s, base);
    if n.magnitude >= ULLONG_RANGE then Conversion(ULLONG_RANGE - 1, true, n.end)
    else Conversion(if n.negative then (0 - n.magnitude) % ULLONG_RANGE else n.magnitude, false, n.end)
  }

  function DigitChar(d: nat): char
    requires d < 16
  {
    if d < 10 then '0' + d as char else 'a' + (d - 10) as char
  }

  /** Digits of `n`, most significant first, without leading zeros. */
  function NatText(n: nat, base: nat): (s: string)
    requires base == 10 || base == 16
    ensures |s| > 0 && forall i :: 0 <= i < |s| ==> DigitValue(s[i]) < base && IsXDigit(s[i])
    ensures base == 10 ==> forall i :: 0 <= i < |s| ==> IsDigit(s[i])
    ensures n > 0 ==> s[0] != '0'
    ensures n == 0 ==> s == "0"
    decreases n
  {
    if n < base then [DigitChar(n)] else NatText(n / base, base) + [DigitChar(n % base)]
  }

  /** printf("%lld") */
  function DecText(n: int): string {
    if n < 0 then "-" + NatText(-n, 10) else NatText(n, 10)
  }

  /** printf("0x%llx"): the two's complement pattern of a negative number. */
  function HexText(n: int): string {
    "0x" + NatText(n % ULLONG_RANGE, 16)
  }

  lemma {:induction false} DigitsSnoc(pre: string, s: string, c: char, base: nat, acc: nat)
    requires forall i :: 0 <= i < |s| ==> DigitValue(s[i]) < base
    requires DigitValue(c) < base
    ensures Digits(pre + s, |pre|, base, acc).1 == |pre + s|
    ensures Digits(pre + s + [c], |pre|, base, acc) ==
            (Digits(pre + s, |pre|, base, acc).0 * base + DigitValue(c), |pre + s| + 1)
    decreases |s|
  {
    if s == [] {
      assert pre + s == pre;
      assert (pre + [c])[|pre|] == c;
    } else {
      var pre' := pre + [s[0]];
      assert pre' + s[1..] == pre + s;
      DigitsSnoc(pre', s[1..], c, base, acc * base + DigitValue(s[0]));
      assert (pre + s)[|pre|] == s[0] && (pre + s + [c])[|pre|] == s[0];
    }
  }

  lemma {:induction false} DigitsOfNatText(pre: string, n: nat, base: nat)
    requires base == 10 || base == 16
    ensures Digits(pre + NatText(n, base), |pre|, base, 0) == (n, |pre + NatText(n, base)|)
    decreases n
  {
    if n < base {
      DigitsSnoc(pre, [], DigitChar(n), base, 0);
      assert pre + [] == pre;
      assert pre + [DigitChar(n)] == pre + [] + [DigitChar(n)];
    } else {
      DigitsOfNatText(pre, n / base, base);
      DigitsSnoc(pre, NatText(n / base, base), DigitChar(n % base), base, 0);
      assert pre + NatText(n, base) == pre + NatText(n / base, base) + [DigitChar(n % base)];
    }
  }

  /** Printing a 64-bit integer in decimal and scanning it back gives the integer. */
  lemma DecRoundTrip(n: int)
    requires LLONG_MIN <= n <= LLONG_MAX
    ensures StrToLL(DecText(n), 10) == Conversion(n, false, |DecText(n)|)
  {
    var s := DecText(n);
    if n < 0 {
      DigitsOfNatText("-", -n, 10);
      assert SkipSpace(s, 0) == 0;
    } else {
      DigitsOfNatText("", n, 10);
      assert "" + NatText(n, 10) == NatText(n, 10);
      assert !IsSpace(s[0]);
    }
  }

  /** A decimal print also scans back when the base is left to the text. */
  lemma DecRoundTripAuto(n: int)
    requires LLONG_MIN <= n <= LLONG_MAX
    ensures StrToLL(DecText(n), 0) == Conversion(n, false, |DecText(n)|)
  {
    var s := DecText(n);
    DecRoundTrip(n);
    if n < 0 {
      assert SkipSpace(s, 0) == 0 && s[1] == NatText(-n, 10)[0];
      assert s[1] != '0';
    } else {
      assert SkipSpace(s, 0) == 0;
      if n == 0 {
        assert s == "0";
        assert Digits(s, 0, 8, 0) == (0, 1);
      }
    }
  }

  /** The hexadecimal print of a non-negative 64-bit integer scans back to it. */
  lemma HexRoundTrip(n: int)
    requires 0 <= n <= LLONG_MAX
    ensures StrToLL(HexText(n), 16) == Conversion(n, false, |HexText(n)|)
  {
    var s := HexText(n);
    assert n % ULLONG_RANGE == n;
    DigitsOfNatText("0x", n, 16);
    assert SkipSpace(s, 0) == 0;
    assert HexPrefixAt(s, 0);
  }

  lemma HexUnsignedRoundTrip(n: nat)
    requires n < ULLONG_RANGE
    ensures StrToULL(HexText(n), 16) == Conversion(n, false, |HexText(n)|)
  {
    var s := HexText(n);
    assert n % ULLONG_RANGE == n;
    DigitsOfNatText("0x", n, 16);
    assert SkipSpace(s, 0) == 0;
    assert HexPrefixAt(s, 0);
  }

  /** The print of a negative bound does not scan back: strtoll saturates. */
  lemma HexNegativeSaturates(n: int)
    requires LLONG_MIN <= n < 0
    ensures StrToLL(HexText(n), 16) == Conversion(LLONG_MAX, true, |HexText(n)|)
  {
    var s := HexText(n);
    var u := n % ULLONG_RANGE;
    assert u == n + ULLONG_RANGE;
    DigitsOfNatText("0x", u, 16);
    assert SkipSpace(s, 0) == 0;
    assert HexPrefixAt(s, 0);
  }
}
