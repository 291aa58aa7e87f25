/** Validity, range tests and clamping of int and hex values (symbol.c). */
module Ranges {
  import opened CStrings
  import opened Exprs

  // ---- sym_string_valid ----

  predicate AllDigits(s: string) { forall i :: 0 <= i < |s| ==> IsDigit(s[i]) }
  predicate AllXDigits(s: string) { forall i :: 0 <= i < |s| ==> IsXDigit(s[i]) }

  predicate IntValid(s: string) {
    var digits := if |s| > 0 && s[0] == '-' then s[1..] else s;
    |digits| > 0 && AllDigits(digits) && (digits[0] == '0' ==> |digits| == 1)
  }

  function HexDigitsOf(s: string): string {
    if |s| >= 2 && s[0] == '0' && (s[1] == 'x' || s[1] == 'X') then s[2..] else s
  }

  predicate HexValid(s: string) {
    |HexDigitsOf(s)| > 0 && AllXDigits(HexDigitsOf(s))
  }

  predicate StringValid(typ: SymType, s: string) {
    match typ
    case SString => true
    case SInt => IntValid(s)
    case SHex => HexValid(s)
    case SBoolean => |s| > 0 && s[0] in "yYmMnN"
    case STristate => |s| > 0 && s[0] in "yYmMnN"
    case _ => false
  }

  lemma {:induction false} CanonicalDecimal(s: string) returns (n: nat)
    requires |s| > 0 && AllDigits(s) && (s[0] == '0' ==> |s| == 1)
    ensures NatText(n, 10) == s
  {
    var c := s[|s|-1];
    var d := c as int - '0' as int;
    assert DigitChar(d) == c;
    if |s| == 1 {
      n := d;
      assert s == [c];
    } else {
      var p := s[..|s|-1];
      var m := CanonicalDecimal(p);
      n := 10 * m + d;
      assert s == p + [c] && p[0] == s[0] && m > 0;
    }
  }

  /** The valid ints are exactly the decimal prints of the natural numbers, with or without a minus. */
  lemma IntValidExact(s: string)
    ensures IntValid(s) <==> exists n: nat :: s == NatText(n, 10) || s == "-" + NatText(n, 10)
  {
    if IntValid(s) {
      var digits := if s[0] == '-' then s[1..] else s;
      var n := CanonicalDecimal(digits);
      assert s[0] == '-' ==> s == "-" + s[1..];
    }
    if n: nat :| s == NatText(n, 10) || s == "-" + NatText(n, 10) {
      var t := NatText(n, 10);
      assert t[0] != '-' && (t[0] == '0' ==> n == 0);
      if s != t { assert s[0] == '-' && s[1..] == t; }
    }
  }

  predicate HexPrefix(p: string) { p == "" || p == "0x" || p == "0X" }

  lemma SplitHex(s: string) returns (p: string, d: string)
    requires HexValid(s)
    ensures HexPrefix(p) && s == p + d && |d| > 0 && AllXDigits(d)
  {
    d := HexDigitsOf(s);
    if |s| >= 2 && s[0] == '0' && (s[1] == 'x' || s[1] == 'X') {
      p := [s[0], s[1]];
      assert s == p + s[2..];
    } else {
      p := "";
    }
  }

  lemma JoinHex(p: string, d: string)
    requires HexPrefix(p) && |d| > 0 && AllXDigits(d)
    ensures HexValid(p + d)
  {
    var s := p + d;
    if p == "" {
      assert s == d;
      assert |d| >= 2 ==> IsXDigit(d[1]);
    } else {
      assert s[0] == p[0] && s[1] == p[1] && s[2..] == d;
    }
  }

  /** The valid hexes are exactly the non-empty texts of hexadecimal digits, with or without 0x or 0X before them. */
  lemma HexValidExact(s: string)
    ensures HexValid(s) <==> exists p: string, d: string :: HexPrefix(p) && s == p + d && |d| > 0 && AllXDigits(d)
  {
    if HexValid(s) { var p, d := SplitHex(s); }
    if p: string, d: string :| HexPrefix(p) && s == p + d && |d| > 0 && AllXDigits(d) { JoinHex(p, d); }
  }

  // ---- clamping ----

  function BaseOf(typ: SymType): nat
    requires typ == SInt || typ == SHex
    ensures BaseOf(typ) in {10, 16}
  {
    if typ == SInt then 10 else 16
  }

  /** A range bound: the number its value scans as, in its own base if it is int or hex. */
  function BoundValue(boundType: SymType, val: string, base: nat): int
    requires base in {10, 16}
  {
    StrToLL(val, if boundType == SInt then 10 else if boundType == SHex then 16 else base).value
  }

  function Print(typ: SymType, n: int): string
    requires typ == SInt || typ == SHex
  {
    if typ == SInt then DecText(n) else HexText(n)
  }

  function Number(typ: SymType, s: string): int
    requires typ == SInt || typ == SHex
  {
    StrToLL(s, BaseOf(typ)).value
  }

  /** The value sym_validate_range leaves. */
  function ClampText(typ: SymType, s: string, lo: int, hi: int): string
    requires typ == SInt || typ == SHex
  {
    var n := Number(typ, s);
    if n < lo then Print(typ, lo)
    else if n <= hi then s
    else Print(typ, hi)
  }

  /** sym_string_within_range for an active range. */
  predicate WithinRange(typ: SymType, s: string, lo: int, hi: int)
    requires typ == SInt || typ == SHex
  {
    StringValid(typ, s) && lo <= Number(typ, s) <= hi
  }

  /** What a bound is worth: the number it shows, in its own base, or in that of the ranged symbol for a constant. */
  lemma BoundMeaning(typ: SymType, n: int)
    requires typ == SInt || typ == SHex
    ensures Is64(n) ==> BoundValue(SInt, DecText(n), BaseOf(typ)) == n
    ensures 0 <= n <= LLONG_MAX ==> BoundValue(SHex, HexText(n), BaseOf(typ)) == n
    ensures Is64(n) && (typ == SHex ==> 0 <= n) ==> BoundValue(SUnknown, Print(typ, n), BaseOf(typ)) == n
  {
    if Is64(n) { DecRoundTrip(n); }
    if 0 <= n <= LLONG_MAX { HexRoundTrip(n); }
  }

  predicate Is64(n: int) { LLONG_MIN <= n <= LLONG_MAX }

  /** Scanned bounds always fit. */
  lemma BoundFits(boundType: SymType, val: string, base: nat)
    requires base in {10, 16}
    ensures Is64(BoundValue(boundType, val, base))
  {
  }

  lemma PrintValid(typ: SymType, n: int)
    requires (typ == SInt || typ == SHex) && Is64(n)
    ensures StringValid(typ, Print(typ, n))
    ensures Number(typ, Print(typ, n)) == if typ == SHex && n < 0 then LLONG_MAX else n
  {
    if typ == SInt {
      DecRoundTrip(n);
      var s := DecText(n);
      if n < 0 { assert s[1..] == NatText(-n, 10); }
    } else {
      if n < 0 { HexNegativeSaturates(n); } else { HexRoundTrip(n); }
      assert HexText(n)[2..] == NatText(n % ULLONG_RANGE, 16);
    }
  }

  /**
   Clamping lands in the range exactly when the bound it prints can be read back: always for
   an ordered int range, and for hex unless it prints a negative bound other than as the
   saturated maximum.
   */
  lemma ClampInRange(typ: SymType, s: string, lo: int, hi: int)
    requires (typ == SInt || typ == SHex) && Is64(lo) && Is64(hi) && lo <= hi
    ensures var n := Number(typ, s);
            var r := ClampText(typ, s, lo, hi);
            lo <= Number(typ, r) <= hi <==>
            !(typ == SHex && ((n < lo && lo < 0 && hi < LLONG_MAX) || (n > hi && hi < 0)))
  {
    PrintValid(typ, lo);
    PrintValid(typ, hi);
  }

  /** An ordered range, non-negative for hex, is met by every clamped value; clamping again changes nothing. */
  lemma ClampSound(typ: SymType, s: string, lo: int, hi: int)
    requires (typ == SInt || typ == SHex) && Is64(lo) && Is64(hi) && lo <= hi && (typ == SHex ==> 0 <= lo)
    ensures var r := ClampText(typ, s, lo, hi);
            && lo <= Number(typ, r) <= hi
            && ClampText(typ, r, lo, hi) == r
            && (r != s || StringValid(typ, s) ==> WithinRange(typ, r, lo, hi))
    ensures WithinRange(typ, s, lo, hi) ==> ClampText(typ, s, lo, hi) == s
    ensures var n, r := Number(typ, s), ClampText(typ, s, lo, hi);
            && (n < lo ==> Number(typ, r) == lo) && (n > hi ==> Number(typ, r) == hi)
            && (lo <= n <= hi ==> r == s)
    ensures !StringValid(typ, s) ==> !WithinRange(typ, s, lo, hi)
  {
    PrintValid(typ, lo);
    PrintValid(typ, hi);
  }

  /** With the bounds the wrong way round clamping swings between them. */
  lemma ClampUnorderedSwings(lo: int, hi: int)
    requires Is64(lo) && Is64(hi) && hi < lo
    ensures ClampText(SInt, DecText(lo), lo, hi) == DecText(hi)
    ensures ClampText(SInt, DecText(hi), lo, hi) == DecText(lo)
  {
    PrintValid(SInt, lo);
    PrintValid(SInt, hi);
  }
}
