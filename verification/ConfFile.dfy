/** Writing and reading .config style files: kconfig_print_symbol, conf_write_symbol, conf_read_simple. */
module ConfFile {
  import opened Tristates
  import opened Exprs
  import opened Ranges
  import opened ConfText

  /** A symbol to be written, with its string value. */
  datatype Entry = Entry(sym: Symbol, shown: string)

  const NOT_SET := "is not set"

  // ---- lines and files ----

  function FileText(lines: seq<string>): string {
    if lines == [] then [] else lines[0] + ['\n'] + FileText(lines[1..])
  }

  /** strchr as an index; the length when the character does not occur. */
  function IndexOf(s: string, c: char): (i: nat)
    ensures i <= |s| && c !in s[..i] && (i < |s| ==> s[i] == c)
  {
    if s == [] || s[0] == c then 0 else
      var i := 1 + IndexOf(s[1..], c);
      assert s[..i] == [s[0]] + s[1..][..i-1];
      i
  }

  lemma {:induction false} IndexOfFirst(s: string, c: char, t: string)
    requires c !in s
    ensures IndexOf(s + [c] + t, c) == |s|
  {
    if s == [] {
      assert (s + [c] + t)[0] == c;
    } else {
      assert (s + [c] + t)[0] == s[0] && (s + [c] + t)[1..] == s[1..] + [c] + t;
      IndexOfFirst(s[1..], c, t);
    }
  }

  /** compat_getline until the end of the file; a last line may lack its newline. */
  function LinesOf(text: string): seq<string>
    decreases |text|
  {
    if text == [] then []
    else
      var i := IndexOf(text, '\n');
      if i == |text| then [text] else [text[..i]] + LinesOf(text[i+1..])
  }

  /** Lines without newlines survive the file. */
  lemma {:induction false} LinesRoundTrip(lines: seq<string>)
    requires forall l :: l in lines ==> '\n' !in l
    ensures LinesOf(FileText(lines)) == lines
  {
    if lines != [] {
      var rest := FileText(lines[1..]);
      var text := lines[0] + ['\n'] + rest;
      IndexOfFirst(lines[0], '\n', rest);
      assert text[..|lines[0]|] == lines[0] && text[|lines[0]|+1..] == rest;
      LinesRoundTrip(lines[1..]);
      assert lines == [lines[0]] + lines[1..];
    }
  }

  // ---- the printer ----

  predicate IsUnset(e: Entry) { IsTriType(e.sym.typ) && |e.shown| > 0 && e.shown[0] == 'n' }

  /** The lines written for a symbol: none for untyped ones, a comment or nothing for n. */
  function PrintEntry(prefix: string, e: Entry, skipUnset: bool): seq<string> {
    if e.sym.typ == SUnknown || e.sym.typ == SOther then []
    else if IsUnset(e) then
      if skipUnset then [] else ["# " + prefix + e.sym.name + " " + NOT_SET]
    else [prefix + e.sym.name + "=" + ValueText(e.sym.typ, e.shown)]
  }

  function PrintAll(prefix: string, entries: seq<Entry>, skipUnset: bool): seq<string> {
    if entries == [] then [] else PrintEntry(prefix, entries[0], skipUnset) + PrintAll(prefix, entries[1..], skipUnset)
  }

  /** The lines as they stand in a file. */
  lemma PrintedLines(prefix: string, s: Symbol, value: string)
    ensures IsTriType(s.typ) ==>
              && PrintEntry(prefix, Entry(s, "n"), false) == ["# " + prefix + s.name + " is not set"]
              && PrintEntry(prefix, Entry(s, "n"), true) == []
              && PrintEntry(prefix, Entry(s, "y"), false) == [prefix + s.name + "=y"]
              && PrintEntry(prefix, Entry(s, "m"), false) == [prefix + s.name + "=m"]
    ensures s.typ == SInt || s.typ == SHex ==>
            PrintEntry(prefix, Entry(s, value), false) == [prefix + s.name + "=" + value]
    ensures s.typ == SString && '"' !in value && '\\' !in value ==>
              PrintEntry(prefix, Entry(s, value), false) == [prefix + s.name + "=" + ("\"" + value + "\"")]
  {
    if '"' !in value && '\\' !in value { QuotedPlain(value); }
    var head, name := "# " + prefix + s.name, prefix + s.name;
    assert head + " " + NOT_SET == head + " is not set";
    assert name + "=" + "y" == name + "=y" && name + "=" + "m" == name + "=m";
  }

  // ---- the reader ----

  type Table = map<string, Symbol>
  type Values = map<Symbol, Value>

  /** The name and remainder of a "# PREFIXname rest" line. */
  function SplitComment(prefix: string, line: string): Option<(string, string)> {
    var rest := if |line| >= 2 then line[2..] else [];
    if !(prefix <= rest) then None
    else
      var body := rest[|prefix|..];
      var i := IndexOf(body, ' ');
      if i == |body| then None else Some((body[..i], body[i+1..]))
  }

  /** The name and value of a "PREFIXname=value" line, without a carriage return at its end. */
  function SplitAssignment(prefix: string, line: string): Option<(string, string)> {
    if !(prefix <= line) then None
    else
      var body := line[|prefix|..];
      var i := IndexOf(body, '=');
      if i == |body| then None
      else
        var p := body[i+1..];
        Some((body[..i], if |p| > 0 && p[|p|-1] == '\r' then p[..|p|-1] else p))
  }

  /** The effect of one line; unknown names and malformed lines have none. */
  function ReadLine(prefix: string, table: Table, line: string, vals: Values): Values {
    if |line| > 0 && line[0] == '#' then
      match SplitComment(prefix, line)
      case Some((name, rest)) =>
        if NOT_SET <= rest && name in table && IsTriType(table[name].typ)
        then vals[table[name] := Value(NO, "")] else vals
      case None => vals
    else
      match SplitAssignment(prefix, line)
      case Some((name, p)) =>
        if name in table && ReadValue(table[name].typ, p).Some?
        then vals[table[name] := ReadValue(table[name].typ, p).value] else vals
      case None => vals
  }

  function ReadAll(prefix: string, table: Table, lines: seq<string>, vals: Values): Values {
    if lines == [] then vals else ReadAll(prefix, table, lines[1..], ReadLine(prefix, table, lines[0], vals))
  }

  lemma {:induction false} ReadConcat(prefix: string, table: Table, a: seq<string>, b: seq<string>, vals: Values)
    ensures ReadAll(prefix, table, a + b, vals) == ReadAll(prefix, table, b, ReadAll(prefix, table, a, vals))
  {
    if a == [] {
      assert a + b == b;
    } else {
      assert (a + b)[0] == a[0] && (a + b)[1..] == a[1..] + b;
      ReadConcat(prefix, table, a[1..], b, ReadLine(prefix, table, a[0], vals));
    }
  }

  /** The symbols' saved values while a file is read, one table of values and flags per reader. */
  class Reader {
    const prefix: string
    const table: Table
    var vals: Values

    constructor (p: string, t: Table)
      ensures prefix == p && table == t && vals == map[]
    {
      prefix, table, vals := p, t, map[];
    }

    /** Old values and flags are dropped before the first line is read. */
    method ReadSimple(text: string)
      modifies this
      ensures vals == ReadAll(prefix, table, LinesOf(text), map[])
    {
      vals := map[];
      var lines := LinesOf(text);
      for i := 0 to |lines|
        invariant ReadAll(prefix, table, lines[i..], vals) == ReadAll(prefix, table, lines, map[])
      {
        assert lines[i..][0] == lines[i] && lines[i..][1..] == lines[i+1..];
        TakeLine(lines[i]);
      }
      assert lines[|lines|..] == [];
    }

    method TakeLine(line: string)
      modifies this
      ensures vals == ReadLine(prefix, table, line, old(vals))
    {
      if |line| > 0 && line[0] == '#' {
        var split := SplitComment(prefix, line);
        if split.None? { return; }
        var (name, rest) := split.value;
        if !(NOT_SET <= rest) || name !in table { return; }
        if IsTriType(table[name].typ) { vals := vals[table[name] := Value(NO, "")]; }
      } else {
        var split := SplitAssignment(prefix, line);
        if split.None? { return; }
        var (name, p) := split.value;
        if name !in table { return; }
        SetSymVal(table[name], p);
      }
    }

    method SetSymVal(s: Symbol, p: string)
      modifies this
      ensures vals == if ReadValue(s.typ, p).Some? then old(vals)[s := ReadValue(s.typ, p).value] else old(vals)
    {
      var first := if |p| > 0 then Some(p[0]) else None;
      match s.typ
      case STristate =>
        if first == Some('m') { vals := vals[s := Value(MOD, "")]; } else { SetBool(s, first); }
      case SBoolean => SetBool(s, first);
      case SString =>
        if first != Some('"') { return; }
        var r := UnescapeInPlace(p[1..]);
        if r.Some? { vals := vals[s := Value(NO, r.value)]; }
      case SInt => if StringValid(SInt, p) { vals := vals[s := Value(NO, p)]; }
      case SHex => if StringValid(SHex, p) { vals := vals[s := Value(NO, p)]; }
      case _ =>
    }

    /** The branch bools and tristates share; anything but y and n is refused. */
    method SetBool(s: Symbol, first: Option<char>)
      modifies this
      ensures vals == if first == Some('y') then old(vals)[s := Value(YES, "")]
                      else if first == Some('n') then old(vals)[s := Value(NO, "")] else old(vals)
    {
      if first == Some('y') {
        vals := vals[s := Value(YES, "")];
      } else if first == Some('n') {
        vals := vals[s := Value(NO, "")];
      }
    }
  }

  // ---- reading undoes writing ----

  /** Names are words, and no assignment line can be mistaken for a comment. */
  predicate NameOk(prefix: string, name: string) {
    && '=' !in name && ' ' !in name
    && |prefix + name| > 0 && (prefix + name)[0] != '#'
  }

  predicate EntryOk(prefix: string, table: Table, e: Entry) {
    && e.sym.name in table && table[e.sym.name] == e.sym && NameOk(prefix, e.sym.name)
    && e.sym.typ != SUnknown && e.sym.typ != SOther
    && (e.sym.typ == STristate ==> e.shown in {"y", "m", "n"})
    && (e.sym.typ == SBoolean ==> e.shown in {"y", "n"})
    && (e.sym.typ == SInt || e.sym.typ == SHex ==> StringValid(e.sym.typ, e.shown))
  }

  function TriOfText(shown: string): Tristate {
    if shown == "y" then YES else if shown == "m" then MOD else NO
  }

  /** The saved value an entry stands for. */
  function SavedValue(e: Entry): Value {
    if IsTriType(e.sym.typ) then Value(TriOfText(e.shown), "") else Value(NO, e.shown)
  }

  /** Stores the entries' values in order; with skipUnset those that are n are not stored. */
  function Store(entries: seq<Entry>, skipUnset: bool, vals: Values): Values {
    if entries == [] then vals
    else Store(entries[1..], skipUnset,
               if skipUnset && IsUnset(entries[0]) then vals else vals[entries[0].sym := SavedValue(entries[0])])
  }

  lemma CommentRoundTrip(prefix: string, name: string)
    requires ' ' !in name
    ensures SplitComment(prefix, "# " + prefix + name + " " + NOT_SET) == Some((name, NOT_SET))
  {
    var line := "# " + prefix + name + " " + NOT_SET;
    var body := name + [' '] + NOT_SET;
    assert line[2..] == prefix + body;
    assert (prefix + body)[|prefix|..] == body;
    IndexOfFirst(name, ' ', NOT_SET);
    assert body[..|name|] == name && body[|name|+1..] == NOT_SET;
  }

  lemma AssignmentRoundTrip(prefix: string, name: string, value: string)
    requires '=' !in name && (|value| > 0 ==> value[|value|-1] != '\r')
    ensures SplitAssignment(prefix, prefix + name + "=" + value) == Some((name, value))
  {
    var body := name + ['='] + value;
    assert prefix + name + "=" + value == prefix + body;
    assert (prefix + body)[|prefix|..] == body;
    IndexOfFirst(name, '=', value);
    assert body[..|name|] == name && body[|name|+1..] == value;
  }

  lemma NoCarriageReturn(typ: SymType, shown: string)
    requires typ != SUnknown && typ != SOther
    requires IsTriType(typ) ==> shown in {"y", "m", "n"}
    requires typ == SInt || typ == SHex ==> StringValid(typ, shown)
    ensures var v := ValueText(typ, shown); |v| > 0 && v[|v|-1] != '\r'
  {
  }

  lemma ReadOne(prefix: string, table: Table, line: string, vals: Values)
    ensures ReadAll(prefix, table, [line], vals) == ReadLine(prefix, table, line, vals)
  {
    assert [line][1..] == [];
  }

  lemma UnsetLine(prefix: string, table: Table, s: Symbol, vals: Values)
    requires s.name in table && table[s.name] == s && ' ' !in s.name && IsTriType(s.typ)
    ensures ReadLine(prefix, table, "# " + prefix + s.name + " " + NOT_SET, vals) == vals[s := Value(NO, "")]
  {
    var line := "# " + prefix + s.name + " " + NOT_SET;
    CommentRoundTrip(prefix, s.name);
    assert line[0] == '#';
  }

  lemma TakenAssignment(prefix: string, table: Table, s: Symbol, v: string, vals: Values)
    requires s.name in table && table[s.name] == s && NameOk(prefix, s.name)
    requires |v| > 0 && v[|v|-1] != '\r' && ReadValue(s.typ, v).Some?
    ensures ReadLine(prefix, table, prefix + s.name + "=" + v, vals) == vals[s := ReadValue(s.typ, v).value]
  {
    var line := prefix + s.name + "=" + v;
    AssignmentRoundTrip(prefix, s.name, v);
    assert line[0] == (prefix + s.name)[0];
  }

  lemma AssignmentLine(prefix: string, table: Table, e: Entry, vals: Values)
    requires EntryOk(prefix, table, e)
    ensures ReadLine(prefix, table, prefix + e.sym.name + "=" + ValueText(e.sym.typ, e.shown), vals) ==
            vals[e.sym := SavedValue(e)]
  {
    NoCarriageReturn(e.sym.typ, e.shown);
    ValueRoundTrip(e.sym.typ, e.shown);
    TakenAssignment(prefix, table, e.sym, ValueText(e.sym.typ, e.shown), vals);
  }

  lemma EntryRoundTrip(prefix: string, table: Table, e: Entry, skipUnset: bool, vals: Values)
    requires EntryOk(prefix, table, e)
    ensures ReadAll(prefix, table, PrintEntry(prefix, e, skipUnset), vals) ==
            if skipUnset && IsUnset(e) then vals else vals[e.sym := SavedValue(e)]
  {
    if IsUnset(e) {
      var line := "# " + prefix + e.sym.name + " " + NOT_SET;
      UnsetLine(prefix, table, e.sym, vals);
      ReadOne(prefix, table, line, vals);
    } else {
      var line := prefix + e.sym.name + "=" + ValueText(e.sym.typ, e.shown);
      AssignmentLine(prefix, table, e, vals);
      ReadOne(prefix, table, line, vals);
    }
  }

  /** Reading what was written stores exactly the entries' values, and nothing else. */
  lemma {:induction false} PrintReadRoundTrip(prefix: string, table: Table, entries: seq<Entry>, skipUnset: bool,
      vals: Values)
    requires forall e :: e in entries ==> EntryOk(prefix, table, e)
    ensures ReadAll(prefix, table, PrintAll(prefix, entries, skipUnset), vals) == Store(entries, skipUnset, vals)
  {
    if entries != [] {
      var first := PrintEntry(prefix, entries[0], skipUnset);
      EntryRoundTrip(prefix, table, entries[0], skipUnset, vals);
      ReadConcat(prefix, table, first, PrintAll(prefix, entries[1..], skipUnset), vals);
      PrintReadRoundTrip(prefix, table, entries[1..], skipUnset, ReadAll(prefix, table, first, vals));
    }
  }

  lemma {:induction false} PrintedWithoutNewlines(prefix: string, entries: seq<Entry>, skipUnset: bool)
    requires '\n' !in prefix && forall e :: e in entries ==> '\n' !in e.sym.name && '\n' !in e.shown
    ensures forall l :: l in PrintAll(prefix, entries, skipUnset) ==> '\n' !in l
  {
    if entries != [] {
      QuotedHasNo(entries[0].shown, '\n');
      assert entries[0] in entries;
      PrintedWithoutNewlines(prefix, entries[1..], skipUnset);
    }
  }

  /** The same through the text of a file, for values without newlines. */
  lemma FileRoundTrip(prefix: string, table: Table, entries: seq<Entry>, skipUnset: bool)
    requires forall e :: e in entries ==> EntryOk(prefix, table, e) && '\n' !in e.sym.name && '\n' !in e.shown
    requires '\n' !in prefix
    ensures ReadAll(prefix, table, LinesOf(FileText(PrintAll(prefix, entries, skipUnset))), map[]) ==
            Store(entries, skipUnset, map[])
  {
    PrintedWithoutNewlines(prefix, entries, skipUnset);
    LinesRoundTrip(PrintAll(prefix, entries, skipUnset));
    PrintReadRoundTrip(prefix, table, entries, skipUnset, map[]);
  }

  /** What a store of entries with distinct symbols holds: every entry, and only entries. */
  lemma {:induction false} StoreContents(entries: seq<Entry>, skipUnset: bool, vals: Values)
    requires forall i, j :: 0 <= i < j < |entries| ==> entries[i].sym != entries[j].sym
    requires forall e :: e in entries ==> e.sym !in vals
    ensures forall e :: e in entries && !(skipUnset && IsUnset(e)) ==>
              e.sym in Store(entries, skipUnset, vals) && Store(entries, skipUnset, vals)[e.sym] == SavedValue(e)
    ensures forall s :: s in vals ==>
              s in Store(entries, skipUnset, vals) && Store(entries, skipUnset, vals)[s] == vals[s]
    ensures forall s :: s in Store(entries, skipUnset, vals) ==>
              s in vals || exists e :: e in entries && e.sym == s && !(skipUnset && IsUnset(e))
  {
    if entries != [] {
      var e0 := entries[0];
      var next := if skipUnset && IsUnset(e0) then vals else vals[e0.sym := SavedValue(e0)];
      forall e | e in entries[1..]
        ensures e.sym !in next
      {
        var j :| 0 <= j < |entries| - 1 && entries[1..][j] == e;
        assert entries[j + 1] == e;
      }
      StoreContents(entries[1..], skipUnset, next);
      assert forall e :: e in entries <==> e == e0 || e in entries[1..];
    }
  }

  // ---- lines that store nothing, or the same ----

  /** Bools take y and n only, tristates m too; ints and hexes must be valid; strings must be quoted. */
  lemma RefusedValues(typ: SymType, p: string)
    ensures typ == SBoolean ==> (ReadValue(typ, p).Some? <==> |p| > 0 && p[0] in "yn")
    ensures typ == STristate ==> (ReadValue(typ, p).Some? <==> |p| > 0 && p[0] in "ymn")
    ensures typ == SInt || typ == SHex ==> (ReadValue(typ, p).Some? <==> StringValid(typ, p))
    ensures typ == SString && (|p| == 0 || p[0] != '"' || '"' !in p[1..]) ==> ReadValue(typ, p).None?
  {
    if |p| > 0 && '"' !in p[1..] { NeverClosed(p[1..]); }
  }

  function Stripped(p: string): string { if |p| > 0 && p[|p|-1] == '\r' then p[..|p|-1] else p }

  lemma SplitLine(prefix: string, name: string, p: string)
    requires '=' !in name
    ensures SplitAssignment(prefix, prefix + name + "=" + p) == Some((name, Stripped(p)))
  {
    var line := prefix + name + "=" + p;
    var body := name + "=" + p;
    assert line == prefix + body && line[|prefix|..] == body;
    IndexOfFirst(name, '=', p);
    assert name + ['='] + p == body;
    assert body[..|name|] == name && body[|name|+1..] == p;
  }

  /** What a line PREFIXname=p stores: the value p has for the symbol of that name, or nothing. */
  lemma LineStores(prefix: string, table: Table, name: string, p: string, vals: Values)
    requires NameOk(prefix, name)
    ensures ReadLine(prefix, table, prefix + name + "=" + p, vals) ==
            if name in table && ReadValue(table[name].typ, Stripped(p)).Some?
            then vals[table[name] := ReadValue(table[name].typ, Stripped(p)).value] else vals
  {
    SplitLine(prefix, name, p);
    assert (prefix + name + "=" + p)[0] == (prefix + name)[0];
  }

  /** A carriage return before the end of a line is not part of the value. */
  lemma CarriageReturn(prefix: string, table: Table, name: string, value: string, vals: Values)
    requires NameOk(prefix, name) && (value != [] ==> value[|value|-1] != '\r')
    ensures ReadLine(prefix, table, prefix + name + "=" + (value + "\r"), vals) ==
            ReadLine(prefix, table, prefix + name + "=" + value, vals)
  {
    LineStores(prefix, table, name, value, vals);
    LineStores(prefix, table, name, value + "\r", vals);
    assert Stripped(value + "\r") == value == Stripped(value);
  }

  /** A comment stores n for the bool or tristate it names if it goes on with "is not set", and else nothing. */
  lemma CommentStores(prefix: string, table: Table, name: string, rest: string, vals: Values)
    requires ' ' !in name
    ensures ReadLine(prefix, table, "# " + prefix + name + " " + rest, vals) ==
            if "is not set" <= rest && name in table && IsTriType(table[name].typ)
            then vals[table[name] := Value(NO, "")] else vals
  {
    var line := "# " + prefix + name + " " + rest;
    var body := name + " " + rest;
    assert line[2..] == prefix + body && (prefix + body)[|prefix|..] == body;
    IndexOfFirst(name, ' ', rest);
    assert name + [' '] + rest == body;
    assert body[..|name|] == name && body[|name|+1..] == rest;
    assert SplitComment(prefix, line) == Some((name, rest));
  }
}
