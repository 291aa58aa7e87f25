/** Quoting of string values: sym_escape_string_value, and the unquoting of conf_set_sym_val. */
module ConfText {
  import opened Tristates
  import opened Exprs
  import opened Ranges

  predicate Special(c: char) { c == '"' || c == '\\' }

  /** Every quote and backslash gets a backslash before it. */
  function Escaped(s: string): string {
    if s == [] then []
    else (if Special(s[0]) then ['\\', s[0]] else [s[0]]) + Escaped(s[1..])
  }

  function Quoted(s: string): string { ['"'] + Escaped(s) + ['"'] }

  function Specials(s: string): nat {
    if s == [] then 0 else (if Special(s[0]) then 1 else 0) + Specials(s[1..])
  }

  /** strcspn(p, "\"\\") from position `i`: the end of the run of plain characters. */
  function PlainEnd(s: string, i: nat): (r: nat)
    requires i <= |s|
    ensures i <= r <= |s| && (r < |s| ==> Special(s[r])) && forall k :: i <= k < r ==> !Special(s[k])
    decreases |s| - i
  {
    if i < |s| && !Special(s[i]) then PlainEnd(s, i + 1) else i
  }

  lemma {:induction false} EscapedPlain(s: string, t: string)
    requires forall k :: 0 <= k < |s| ==> !Special(s[k])
    ensures Escaped(s + t) == s + Escaped(t) && Specials(s + t) == Specials(t)
  {
    if s == [] {
      assert s + t == t;
    } else {
      assert (s + t)[0] == s[0] && (s + t)[1..] == s[1..] + t;
      EscapedPlain(s[1..], t);
    }
  }

  /** Text without quotes and backslashes is quoted as it is. */
  lemma QuotedPlain(s: string)
    requires '"' !in s && '\\' !in s
    ensures Quoted(s) == "\"" + s + "\""
  {
    EscapedPlain(s, []);
    assert s + [] == s;
  }

  /** A quote or backslash in the text gets a backslash before it; nothing else changes. */
  lemma {:induction false} EscapedAt(s: string, c: char, t: string)
    ensures Escaped(s + [c] + t) ==
            Escaped(s) + (if c == '"' then "\\\"" else if c == '\\' then "\\\\" else [c]) + Escaped(t)
  {
    if s == [] {
      assert s + [c] + t == [c] + t;
      assert ([c] + t)[1..] == t;
    } else {
      assert (s + [c] + t)[0] == s[0] && (s + [c] + t)[1..] == s[1..] + [c] + t;
      EscapedAt(s[1..], c, t);
    }
  }

  /** The first walk: one more byte for every character to be escaped. */
  method MeasureEscaped(input: string) returns (reslen: nat)
    ensures reslen == |input| + 3 + Specials(input)
  {
    reslen := |input| + 2 + 1;
    var p := 0;
    while true
      invariant p <= |input|
      invariant reslen + Specials(input[p..]) == |input| + 3 + Specials(input)
      decreases |input| - p
    {
      var q := PlainEnd(input, p);
      assert input[p..] == input[p..q] + input[q..];
      EscapedPlain(input[p..q], input[q..]);
      p := q;
      if p == |input| { break; }
      assert input[p..][1..] == input[p+1..];
      reslen := reslen + 1;
      p := p + 1;
    }
  }

  /**
   Measures the buffer in a first walk and fills it in a second.  The result is the quoted
   string, and with its terminator it fills the buffer exactly.
   */
  method EscapeStringValue(input: string) returns (res: string, reslen: nat)
    ensures res == Quoted(input)
    ensures reslen == |res| + 1
  {
    reslen := MeasureEscaped(input);
    res := ['"'];
    var p := 0;
    while true
      invariant p <= |input|
      invariant res + Escaped(input[p..]) == ['"'] + Escaped(input)
      decreases |input| - p
    {
      var q := PlainEnd(input, p);
      EscapedStep(input, p, q, res);
      res := res + input[p..q];
      p := q;
      if p == |input| { break; }
      EscapedSpecial(input, p, res);
      res := res + ['\\'];
      res := res + [input[p]];
      p := p + 1;
    }
    assert input[p..] == [];
    res := res + ['"'];
    EscapedLength(input);
  }

  lemma EscapedStep(input: string, p: nat, q: nat, res: string)
    requires p <= q <= |input| && forall k :: p <= k < q ==> !Special(input[k])
    ensures res + Escaped(input[p..]) == (res + input[p..q]) + Escaped(input[q..])
  {
    assert input[p..] == input[p..q] + input[q..];
    EscapedPlain(input[p..q], input[q..]);
  }

  lemma EscapedSpecial(input: string, p: nat, res: string)
    requires p < |input| && Special(input[p])
    ensures res + Escaped(input[p..]) == ((res + ['\\']) + [input[p]]) + Escaped(input[p+1..])
  {
    assert input[p..][1..] == input[p+1..];
    assert Escaped(input[p..]) == ['\\', input[p]] + Escaped(input[p+1..]);
  }

  lemma {:induction false} EscapedLength(s: string)
    ensures |Escaped(s)| == |s| + Specials(s)
  {
    if s != [] { EscapedLength(s[1..]); }
  }

  // ---- unquoting ----

  function Prepend(pre: string, r: Option<string>): Option<string> {
    if r.Some? then Some(pre + r.value) else None
  }

  lemma PrependTwice(a: string, b: string, r: Option<string>)
    ensures Prepend(a, Prepend(b, r)) == Prepend(a + b, r)
  {
    if r.Some? { assert a + (b + r.value) == (a + b) + r.value; }
  }

  /** The text up to the closing quote, escapes resolved; None if there is no closing quote. */
  function Unescaped(s: string): Option<string> {
    if s == [] then None
    else if s[0] == '"' then Some([])
    else if s[0] == '\\' then
      if |s| == 1 then None else Prepend([s[1]], Unescaped(s[2..]))
    else Prepend([s[0]], Unescaped(s[1..]))
  }

  lemma {:induction false} UnescapedPlain(s: string, t: string)
    requires forall k :: 0 <= k < |s| ==> !Special(s[k])
    ensures Unescaped(s + t) == Prepend(s, Unescaped(t))
  {
    if s == [] {
      assert s + t == t;
      if Unescaped(t).Some? { assert s + Unescaped(t).value == Unescaped(t).value; }
    } else {
      assert (s + t)[0] == s[0] && (s + t)[1..] == s[1..] + t;
      UnescapedPlain(s[1..], t);
      PrependTwice([s[0]], s[1..], Unescaped(t));
      assert [s[0]] + s[1..] == s;
    }
  }

  /**
   The buffer behind the opening quote is scanned for quotes and backslashes; a backslash is
   cut out by moving the rest of the buffer down over it, and the character after it is skipped.
   */
  method UnescapeInPlace(text: string) returns (r: Option<string>)
    ensures r == Unescaped(text)
  {
    var buf := text;
    var p2 := 0;
    UnescapedPlain([], text);
    assert buf[0..] == text && buf[..0] == [] && [] + text == text;
    while true
      invariant p2 <= |buf|
      invariant Unescaped(text) == Prepend(buf[..p2], Unescaped(buf[p2..]))
      decreases |buf| - p2
    {
      var q := PlainEnd(buf, p2);
      SkipPlain(buf, p2, q);
      p2 := q;
      if p2 == |buf| { return None; }
      if buf[p2] == '"' {
        assert buf[p2..][0] == '"' && buf[..p2] + [] == buf[..p2];
        buf := buf[..p2];
        return Some(buf);
      }
      assert buf[p2..][0] == '\\';
      if p2 + 1 == |buf| { return None; }
      CutBackslash(buf, p2);
      buf := buf[..p2] + buf[p2+1..];
      p2 := p2 + 1;
    }
  }

  lemma SkipPlain(buf: string, p: nat, q: nat)
    requires p <= q <= |buf| && forall k :: p <= k < q ==> !Special(buf[k])
    ensures Prepend(buf[..p], Unescaped(buf[p..])) == Prepend(buf[..q], Unescaped(buf[q..]))
  {
    assert buf[p..] == buf[p..q] + buf[q..] && buf[..q] == buf[..p] + buf[p..q];
    UnescapedPlain(buf[p..q], buf[q..]);
    PrependTwice(buf[..p], buf[p..q], Unescaped(buf[q..]));
  }

  lemma CutBackslash(buf: string, p: nat)
    requires p + 1 < |buf| && buf[p] == '\\'
    ensures var cut := buf[..p] + buf[p+1..];
            Prepend(buf[..p], Unescaped(buf[p..])) == Prepend(cut[..p+1], Unescaped(cut[p+1..]))
  {
    var cut := buf[..p] + buf[p+1..];
    assert buf[p..][0] == '\\' && buf[p..][1] == buf[p+1] && buf[p..][2..] == buf[p+2..];
    assert cut[p+1..] == buf[p+2..] && cut[..p+1] == buf[..p] + [buf[p+1]];
    PrependTwice(buf[..p], [buf[p+1]], Unescaped(buf[p+2..]));
  }

  /** Unquoting undoes quoting, whatever follows the closing quote. */
  lemma {:induction false} QuoteRoundTrip(s: string, tail: string)
    ensures Unescaped(Escaped(s) + ['"'] + tail) == Some(s)
  {
    var text := Escaped(s) + ['"'] + tail;
    if s == [] {
      assert text[0] == '"';
    } else {
      QuoteRoundTrip(s[1..], tail);
      var rest := Escaped(s[1..]) + ['"'] + tail;
      assert s == [s[0]] + s[1..];
      if Special(s[0]) {
        assert text == ['\\', s[0]] + rest;
        assert text[0] == '\\' && text[1] == s[0] && text[2..] == rest;
      } else {
        assert text == [s[0]] + rest;
        assert text[0] == s[0] && text[1..] == rest;
      }
    }
  }

  lemma {:induction false} QuotedHasNo(s: string, c: char)
    requires c !in s && !Special(c)
    ensures c !in Quoted(s) && c !in Escaped(s)
  {
    if s != [] {
      QuotedHasNo(s[1..], c);
    }
  }

  // ---- conf_set_sym_val ----

  /** The value a line gives a symbol of type `typ`; None if the line is refused or ignored. */
  function ReadValue(typ: SymType, p: string): Option<Value> {
    if typ == STristate && |p| > 0 && p[0] == 'm' then Some(Value(MOD, ""))
    else if IsTriType(typ) then
      if |p| > 0 && p[0] == 'y' then Some(Value(YES, ""))
      else if |p| > 0 && p[0] == 'n' then Some(Value(NO, ""))
      else None
    else if typ == SString then
      if |p| == 0 || p[0] != '"' then None
      else
        var r := Unescaped(p[1..]);
        if r.Some? then Some(Value(NO, r.value)) else None
    else if (typ == SInt || typ == SHex) && StringValid(typ, p) then Some(Value(NO, p))
    else None
  }

  /** How a value is written after the equals sign. */
  function ValueText(typ: SymType, shown: string): string {
    if typ == SString then Quoted(shown) else shown
  }

  /** A value written for a symbol is read back as it was. */
  lemma ValueRoundTrip(typ: SymType, shown: string)
    requires typ == STristate ==> shown in {"y", "m", "n"}
    requires typ == SBoolean ==> shown in {"y", "n"}
    requires typ == SInt || typ == SHex ==> StringValid(typ, shown)
    requires typ != SUnknown && typ != SOther
    ensures ReadValue(typ, ValueText(typ, shown)) ==
            Some(if IsTriType(typ) then Value(if shown == "y" then YES else if shown == "m" then MOD else NO, "")
                 else Value(NO, shown))
  {
    if typ == SString {
      QuoteRoundTrip(shown, []);
      assert Quoted(shown)[1..] == Escaped(shown) + ['"'] + [];
    }
  }

  /** A text without a closing quote is no string. */
  lemma {:induction false} NeverClosed(s: string)
    requires '"' !in s
    ensures Unescaped(s) == None
    decreases |s|
  {
    if s != [] {
      NeverClosed(s[1..]);
      if |s| >= 2 { NeverClosed(s[2..]); }
    }
  }
}
