/**
 Saving and loading whole configurations: conf_write_defconfig, conf_write, and what a
 fresh load of their output evaluates to (confdata.c, symbol.c).
 */
module Saving {
  import opened Tristates
  import opened Exprs
  import opened Ranges
  import opened Configs
  import opened Evaluator
  import opened Setters
  import opened Outcomes
  import opened ConfFile

  // ---- sym_get_string_default ----

  function DefaultString(c: Config, s: Symbol, a: Assignment): string {
    if IsTriType(s.typ) then
      var v1 := OrTri(DefaultTri(DeclOf(c, s), ValuesOf(a)), a(s).revDep);
      var v2 := if v1 == MOD && a(c.modules).tri == NO then YES else v1;
      var v3 := if s.typ == SBoolean && v2 == MOD then YES else v2;
      Render(if v3 < a(s).implied then a(s).implied else v3)
    else DefaultText(DeclOf(c, s), a)
  }

  method StringDefault(e: Engine, s: Symbol) returns (r: string)
    requires e.Idle() && e.Settled(s) && IsTyped(s.typ)
    modifies e
    ensures e.Idle() && e.users == old(e.users) && e.sol == old(e.sol) && old(e.valid) <= e.valid
    ensures r == DefaultString(e.cfg, s, e.sol)
  {
    if IsTriType(s.typ) {
      var val := e.DefaultValue(s);
      val := OrTri(val, e.CellOf(s).revDep);
      if val == MOD && e.CellOf(e.cfg.modules).tri == NO { val := YES; }
      if s.typ == SBoolean && val == MOD { val := YES; }
      if val < e.CellOf(s).implied { val := e.CellOf(s).implied; }
      r := Render(val);
    } else {
      var ds := e.DefaultText(s);
      r := if ds.Some? then e.CellOf(ds.value).val else "";
    }
  }

  // ---- conf_write_defconfig ----

  /** A symbol the minimal configuration records: written, changeable and not at its default. */
  predicate Selected(c: Config, s: Symbol, a: Assignment) {
    && IsTyped(s.typ) && a(s).write && a(s).visible > a(s).revDep
    && Shown(s, a(s)) != DefaultString(c, s, a)
  }

  /** A symbol the full configuration records. */
  predicate IsWritten(s: Symbol, a: Assignment) { IsTyped(s.typ) && a(s).write }

  /** conf_write_defconfig or conf_write. */
  datatype Writer = Minimal | Full

  predicate Wanted(w: Writer, c: Config, s: Symbol, a: Assignment) {
    if w == Minimal then Selected(c, s, a) else IsWritten(s, a)
  }

  ghost predicate DistinctSymbols(entries: seq<Entry>) {
    forall i, j :: 0 <= i < j < |entries| ==> entries[i].sym != entries[j].sym
  }

  /** `entries` are the symbols of `order` that the writer wants, each once, as they are shown. */
  ghost predicate Lists(entries: seq<Entry>, w: Writer, c: Config, a: Assignment, order: seq<Symbol>) {
    && DistinctSymbols(entries)
    && (forall e :: e in entries ==> e == EntryOf(e.sym, a) && e.sym in order && Wanted(w, c, e.sym, a))
    && (forall s :: s in order && Wanted(w, c, s, a) ==> EntryOf(s, a) in entries)
  }

  function EntryOf(s: Symbol, a: Assignment): Entry { Entry(s, Shown(s, a(s))) }

  /** A symbol with the WRITE flag is recorded if it can be changed and is not at its default. */
  method Examine(e: Engine, s: Symbol) returns (x: Option<Entry>)
    requires e.Idle() && e.Settled(s) && IsTyped(s.typ) && e.CellOf(s).write
    modifies e
    ensures e.Idle() && e.users == old(e.users) && e.sol == old(e.sol)
    ensures x == if Selected(e.cfg, s, e.sol) then Some(EntryOf(s, e.sol)) else None
  {
    if e.CellOf(s).visible <= e.CellOf(s).revDep { return None; }
    var shown := e.StringValue(s);
    var default := StringDefault(e, s);
    x := if shown == default then None else Some(Entry(s, shown));
  }

  /** `entries` lists what the writer wants of `order`, whose symbols with the WRITE flag have been `cleared` of it. */
  ghost predicate Recording(entries: seq<Entry>, cleared: set<Symbol>, w: Writer, c: Config, a: Assignment,
      order: seq<Symbol>) {
    && Lists(entries, w, c, a, order)
    && (forall x :: x in entries ==> x.sym in cleared)
    && (forall s :: s in cleared ==> s in order)
  }

  /**
   Evaluates a symbol and records it if the writer wants it.  A symbol that occurs at several
   places is handled at the first, where its WRITE flag is cleared.
   */
  method Record(w: Writer, e: Engine, s: Symbol, entries: seq<Entry>, cleared: set<Symbol>, ghost order: seq<Symbol>)
    returns (entries': seq<Entry>, cleared': set<Symbol>)
    requires e.Idle() && Recording(entries, cleared, w, e.cfg, e.sol, order)
    modifies e
    ensures e.Idle() && e.users == old(e.users) && e.sol == old(e.sol)
    ensures Recording(entries', cleared', w, e.cfg, e.sol, order + [s])
  {
    entries', cleared' := entries, cleared;
    e.CalcValue(s);
    assert SolvedAt(e.cfg, e.users, e.sol, s);
    if e.CellOf(s).write && s !in cleared {
      var x := EntryFor(w, e, s);
      cleared' := cleared + {s};
      if x.Some? { entries' := entries + [x.value]; }
      RecordingGrows(entries, cleared, w, e.cfg, e.sol, order, s, x);
    }
  }

  /** What the writer records of a symbol with the WRITE flag. */
  method EntryFor(w: Writer, e: Engine, s: Symbol) returns (x: Option<Entry>)
    requires e.Idle() && e.Settled(s) && IsTyped(s.typ) && e.CellOf(s).write
    modifies e
    ensures e.Idle() && e.users == old(e.users) && e.sol == old(e.sol)
    ensures x == if Wanted(w, e.cfg, s, e.sol) then Some(EntryOf(s, e.sol)) else None
  {
    if w == Minimal {
      x := Examine(e, s);
    } else {
      var shown := e.StringValue(s);
      x := Some(Entry(s, shown));
    }
  }

  lemma RecordingGrows(entries: seq<Entry>, cleared: set<Symbol>, w: Writer, c: Config, a: Assignment,
      order: seq<Symbol>, s: Symbol, x: Option<Entry>)
    requires Recording(entries, cleared, w, c, a, order) && s !in cleared
    requires x == if Wanted(w, c, s, a) then Some(EntryOf(s, a)) else None
    ensures Recording(if x.Some? then entries + [x.value] else entries, cleared + {s}, w, c, a, order + [s])
  {
    if x.Some? {
      var entries' := entries + [x.value];
      assert entries'[|entries|] == x.value;
      assert forall y :: y in entries' <==> y in entries || y == x.value;
    }
  }

  // ---- values that a reload keeps ----

  /** Without a user value the string default is what a bool or tristate shows. */
  lemma DefaultShown(c: Config, u: Users, s: Symbol, a: Assignment)
    requires IsSolution(c, u, a) && IsTriType(s.typ)
    ensures var r := a(s);
            var m := BoolLike(s.typ, a(c.modules).tri);
            Render(TriResult(FrameIn(r), None, DefaultTri(DeclOf(c, s), ValuesOf(a)), m, DeclOf(c, s).auto).tri) ==
            DefaultString(c, s, a)
  {
    assert SolvedAt(c, u, a, s);
  }

  function FrameIn(r: Result): Frame { Frame(r.visible, r.dirDep, r.revDep, r.implied) }

  /** The user's choice is below the default, but visibility and select are both m: nothing records it. */
  predicate Pinned(r: Result, default: Tristate) {
    r.visible == MOD && r.revDep == MOD && r.implied != YES && default == YES
  }

  /** A result of a bool or tristate, from its own parts. */
  lemma TriParts(c: Config, u: Users, s: Symbol, a: Assignment)
    requires IsSolution(c, u, a) && IsTriType(s.typ)
    ensures a(s) == TriResult(FrameIn(a(s)), UserOf(u, s), DefaultTri(DeclOf(c, s), ValuesOf(a)),
                              BoolLike(s.typ, a(c.modules).tri), DeclOf(c, s).auto)
    ensures BoolLike(s.typ, a(c.modules).tri) ==> a(s).visible != MOD && a(s).revDep != MOD && a(s).implied != MOD
  {
    assert SolvedAt(c, u, a, s);
  }

  /** Another user value for s alone changes the meaning of s only through the tristate rule. */
  lemma TriSolved(c: Config, u: Users, u': Users, s: Symbol, a: Assignment)
    requires IsSolution(c, u, a) && IsTriType(s.typ)
    ensures SolvedAt(c, u', a, s) <==>
            a(s) == TriResult(FrameIn(a(s)), UserOf(u', s), DefaultTri(DeclOf(c, s), ValuesOf(a)),
                              BoolLike(s.typ, a(c.modules).tri), DeclOf(c, s).auto)
  {
    assert SolvedAt(c, u, a, s);
  }

  /** What a saved value needs in order to be set again: the text fits the range it is clamped to. */
  ghost predicate RangeOk(s: Symbol, d: Decl, a: Assignment) {
    var k := ActiveRange(d.ranges, 0, ValuesOf(a));
    (s.typ == SInt || s.typ == SHex) && k < |d.ranges| ==>
      var lo := BoundValue(d.ranges[k].lo.typ, a(d.ranges[k].lo).val, BaseOf(s.typ));
      var hi := BoundValue(d.ranges[k].hi.typ, a(d.ranges[k].hi).val, BaseOf(s.typ));
      lo <= hi && (s.typ == SHex ==> 0 <= lo)
  }

  /** Clamping twice is clamping once, and what clamping changes is valid. */
  lemma InRangeTwice(s: Symbol, d: Decl, text: string, a: Assignment)
    requires RangeOk(s, d, a)
    ensures InRange(s, d, InRange(s, d, text, a), a) == InRange(s, d, text, a)
    ensures InRange(s, d, text, a) != text || StringValid(s.typ, text) ==> StringValid(s.typ, InRange(s, d, text, a))
  {
    var k := ActiveRange(d.ranges, 0, ValuesOf(a));
    if (s.typ == SInt || s.typ == SHex) && k < |d.ranges| {
      var lo := BoundValue(d.ranges[k].lo.typ, a(d.ranges[k].lo).val, BaseOf(s.typ));
      var hi := BoundValue(d.ranges[k].hi.typ, a(d.ranges[k].hi).val, BaseOf(s.typ));
      BoundFits(d.ranges[k].lo.typ, a(d.ranges[k].lo).val, BaseOf(s.typ));
      BoundFits(d.ranges[k].hi.typ, a(d.ranges[k].hi).val, BaseOf(s.typ));
      ClampSound(s.typ, text, lo, hi);
    }
  }

  /** The clamped text of a string, int or hex symbol in its own frame. */
  function TextFor(c: Config, u: Users, s: Symbol, a: Assignment): string {
    var d := DeclOf(c, s);
    InRange(s, d, ChosenText(FrameIn(a(s)), UserOf(u, s), DefaultText(d, a)), a)
  }

  lemma TextSolved(c: Config, u: Users, u': Users, s: Symbol, a: Assignment)
    requires IsSolution(c, u, a) && IsTyped(s.typ) && !IsTriType(s.typ)
    ensures a(s).val == TextFor(c, u, s, a)
    ensures SolvedAt(c, u', a, s) <==>
            a(s).val == TextFor(c, u', s, a)
  {
    assert SolvedAt(c, u, a, s);
  }

  // ---- the minimal configuration ----

  /**
   The conditions under which the minimal configuration records enough: a user value that
   counts belongs to a symbol in the menus, not bound to the environment, that can be
   changed; ranges are ordered and user values valid.
   */
  ghost predicate Recordable(c: Config, u: Users, a: Assignment, order: seq<Symbol>, s: Symbol) {
    && (s in u && a(s).visible != NO ==> s in order && !DeclOf(c, s).auto)
    && (IsTriType(s.typ) && s in u ==> !Pinned(a(s), DefaultTri(DeclOf(c, s), ValuesOf(a))))
    && (!IsTriType(s.typ) && s in u && a(s).visible != NO ==> a(s).revDep == NO)
    && RangeOk(s, DeclOf(c, s), a)
    && (s in u && (s.typ == SInt || s.typ == SHex) ==> StringValid(s.typ, u[s].str))
  }

  /** u' holds the shown value of the symbols the writer wants, and no other. */
  ghost predicate Records(w: Writer, c: Config, a: Assignment, order: seq<Symbol>, u': Users) {
    forall s: Symbol :: RecordedAt(w, c, a, order, u', s)
  }

  ghost predicate RecordedAt(w: Writer, c: Config, a: Assignment, order: seq<Symbol>, u': Users, s: Symbol) {
    UserOf(u', s) == if s in order && Wanted(w, c, s, a) then Some(SavedValue(EntryOf(s, a))) else None
  }

  lemma TriOfRender(t: Tristate)
    ensures TriOfText(Render(t)) == t
  {
  }

  lemma RecordedTri(c: Config, u: Users, a: Assignment, order: seq<Symbol>, u': Users, s: Symbol)
    requires IsSolution(c, u, a) && IsTriType(s.typ) && Recordable(c, u, a, order, s) &&
             RecordedAt(Minimal, c, a, order, u', s)
    ensures SolvedAt(c, u', a, s)
  {
    TriParts(c, u, s, a);
    TriSolved(c, u, u', s, a);
    DefaultShown(c, u, s, a);
    TriOfRender(a(s).tri);
  }

  lemma RecordedText(c: Config, u: Users, a: Assignment, order: seq<Symbol>, u': Users, s: Symbol)
    requires IsSolution(c, u, a) && IsTyped(s.typ) && !IsTriType(s.typ)
    requires Recordable(c, u, a, order, s) && RecordedAt(Minimal, c, a, order, u', s)
    ensures SolvedAt(c, u', a, s)
  {
    var d := DeclOf(c, s);
    TextSolved(c, u, u', s, a);
    InRangeTwice(s, d, ChosenText(FrameIn(a(s)), UserOf(u, s), DefaultText(d, a)), a);
    assert SolvedAt(c, u, a, s);
    assert Shown(s, a(s)) == a(s).val;
  }

  /** The condition on pinned tristates is needed: no minimal configuration reproduces one. */
  lemma PinnedIsLost(c: Config, u: Users, a: Assignment, order: seq<Symbol>, u': Users, s: Symbol)
    requires IsSolution(c, u, a) && IsTriType(s.typ) && s in u && RecordedAt(Minimal, c, a, order, u', s)
    requires Pinned(a(s), DefaultTri(DeclOf(c, s), ValuesOf(a)))
    ensures a(s).tri == MOD && !IsSolution(c, u', a)
  {
    TriParts(c, u, s, a);
    TriSolved(c, u, u', s, a);
    assert !SolvedAt(c, u', a, s);
  }

  /** MODULES defaults to y; A is a tristate with a prompt visible at m, selected at m, with a default of y. */
  const PINNED_CONFIG := Config(
    map[EX_MODULES := EMPTY_DECL.(defaults := [Default(None, Sym(SYM_YES))]),
        EX_A := EMPTY_DECL.(prompts := [Some(Sym(SYM_MOD))], defaults := [Default(None, Sym(SYM_YES))],
          revDep := Some(Sym(SYM_MOD)))],
    EX_MODULES)

  /** The example can be evaluated, so it has exactly one solution for any user values. */
  lemma PinnedIsRanked()
    ensures Ranked(PINNED_CONFIG, ExRank())
  {
    forall s: Symbol
      ensures RankedAt(PINNED_CONFIG, ExRank(), s)
    {
      if s != EX_A && s != EX_MODULES { assert DeclOf(PINNED_CONFIG, s) == EMPTY_DECL; }
    }
  }

  /** Pinned symbols exist: the user's A is m, nothing records it, and without a user value A is y. */
  lemma PinnedHappens(a: Assignment, b: Assignment)
    requires IsSolution(PINNED_CONFIG, map[EX_A := Value(MOD, "m")], a) && IsSolution(PINNED_CONFIG, map[], b)
    ensures a(EX_A).tri == MOD && !Selected(PINNED_CONFIG, EX_A, a) && b(EX_A).tri == YES
  {
    PinnedParts(map[EX_A := Value(MOD, "m")], a);
    PinnedParts(map[], b);
  }

  lemma PinnedParts(u: Users, a: Assignment)
    requires IsSolution(PINNED_CONFIG, u, a) && EX_MODULES !in u
    ensures a(EX_A) == TriResult(Frame(MOD, YES, MOD, NO), UserOf(u, EX_A), YES, false, false)
  {
    assert SolvedAt(PINNED_CONFIG, u, a, SYM_YES) && SolvedAt(PINNED_CONFIG, u, a, SYM_MOD);
    assert SolvedAt(PINNED_CONFIG, u, a, EX_MODULES);
    assert a(EX_MODULES).tri == YES;
    assert SolvedAt(PINNED_CONFIG, u, a, EX_A);
    assert PromptTri([Some(Sym(SYM_MOD))], ValuesOf(a)) == MOD;
  }

  /** The old solution is the solution of the loaded minimal configuration. */
  lemma DefconfigReproduces(c: Config, u: Users, a: Assignment, order: seq<Symbol>, u': Users)
    requires IsSolution(c, u, a) && Records(Minimal, c, a, order, u')
    requires forall s: Symbol :: Recordable(c, u, a, order, s)
    ensures IsSolution(c, u', a)
  {
    forall s: Symbol
      ensures SolvedAt(c, u', a, s)
    {
      assert SolvedAt(c, u, a, s);
      assert Recordable(c, u, a, order, s) && RecordedAt(Minimal, c, a, order, u', s);
      if IsTriType(s.typ) {
        RecordedTri(c, u, a, order, u', s);
      } else if IsTyped(s.typ) {
        RecordedText(c, u, a, order, u', s);
      }
    }
  }

  // ---- the minimal configuration is minimal ----

  /** Without its user value a bool or tristate keeps its frame and takes its default. */
  lemma WithoutUser(c: Config, u: Users, s: Symbol, a: Assignment, b: Assignment, rank: Rank)
    requires Ranked(c, rank) && IsSolution(c, u, a) && IsSolution(c, u - {s}, b) && IsTriType(s.typ)
    ensures Render(b(s).tri) == DefaultString(c, s, a)
  {
    SolutionsAgree(c, u, u - {s}, a, b, rank, rank(s));
    PartsAgree(c, s, a, b, rank);
    assert SolvedAt(c, u, a, s) && SolvedAt(c, u - {s}, b, s);
    DefaultShown(c, u, s, a);
  }

  /**
   A bool or tristate is recorded exactly if it can be changed and would show something else without
   its user value.
   */
  lemma TriMinimal(c: Config, u: Users, s: Symbol, a: Assignment, b: Assignment, rank: Rank)
    requires Ranked(c, rank) && IsSolution(c, u, a) && IsSolution(c, u - {s}, b) && IsTriType(s.typ)
    ensures Selected(c, s, a) <==>
            !DeclOf(c, s).auto && a(s).visible > a(s).revDep && Shown(s, a(s)) != Shown(s, b(s))
  {
    WithoutUser(c, u, s, a, b, rank);
    TriBounds(c, u, a, s);
  }

  /** A string, int or hex is recorded exactly if it can be changed and its value is not the text of its default. */
  lemma TextMinimal(c: Config, u: Users, s: Symbol, a: Assignment, text: string)
    requires IsSolution(c, u, a) && IsTyped(s.typ) && !IsTriType(s.typ) && TextSource(c, u - {s}, a, s, text)
    ensures Selected(c, s, a) <==> !DeclOf(c, s).auto && a(s).visible > a(s).revDep && a(s).val != text
  {
    var ds, v := DeclOf(c, s).defaults, ValuesOf(a);
    TextWritten(c, u, a, s);
    if NoDefault(ds, v) && text == "" {
      NoActiveDefault(ds, 0, v);
    } else {
      var k: nat :| FirstDefault(ds, k, v) && text == if ds[k].value.Sym? then a(ds[k].value.sym).val else "";
      ActiveDefaultIsFirst(ds, 0, k, v);
    }
  }

  /** For a string this means: exactly if it would show something else without its user value. */
  lemma StringMinimal(c: Config, u: Users, s: Symbol, a: Assignment, b: Assignment, rank: Rank)
    requires Ranked(c, rank) && IsSolution(c, u, a) && IsSolution(c, u - {s}, b) && s.typ == SString
    ensures Selected(c, s, a) <==>
            !DeclOf(c, s).auto && a(s).visible > a(s).revDep && Shown(s, a(s)) != Shown(s, b(s))
  {
    SolutionsAgree(c, u, u - {s}, a, b, rank, rank(s));
    PartsAgree(c, s, a, b, rank);
    assert SolvedAt(c, u, a, s) && SolvedAt(c, u - {s}, b, s);
    TextWritten(c, u, a, s);
  }

  /**
   What the written minimal configuration holds: no bool, tristate or string that is the same without
   its user value.
   */
  lemma DefconfigMinimal(c: Config, u: Users, a: Assignment, order: seq<Symbol>, entries: seq<Entry>, e: Entry,
      b: Assignment, rank: Rank)
    requires Ranked(c, rank) && IsSolution(c, u, a) && Lists(entries, Minimal, c, a, order) && e in entries
    requires IsSolution(c, u - {e.sym}, b) && (IsTriType(e.sym.typ) || e.sym.typ == SString)
    ensures e.sym in u && a(e.sym).visible != NO && e.shown == Shown(e.sym, a(e.sym)) != Shown(e.sym, b(e.sym))
  {
    var s := e.sym;
    assert e == EntryOf(s, a) && Wanted(Minimal, c, s, a);
    if IsTriType(s.typ) { TriMinimal(c, u, s, a, b, rank); } else { StringMinimal(c, u, s, a, b, rank); }
    if s !in u {
      assert u - {s} == u;
      SolutionUnique(c, u, a, b, rank, s);
    }
  }

  // ---- through the file ----

  /** The names and texts of a file that can be read back. */
  ghost predicate Writable(prefix: string, table: Table, a: Assignment, s: Symbol) {
    && s.name in table && table[s.name] == s && NameOk(prefix, s.name)
    && '\n' !in s.name && '\n' !in Shown(s, a(s))
  }

  lemma ShownOk(c: Config, u: Users, a: Assignment, s: Symbol)
    requires IsSolution(c, u, a)
    ensures s.typ == STristate ==> Shown(s, a(s)) in {"y", "m", "n"}
    ensures s.typ == SBoolean ==> Shown(s, a(s)) in {"y", "n"}
  {
    SolutionWellTyped(c, u, a);
    assert ValuesOf(a)(s).tri == a(s).tri;
  }

  lemma SelectedValid(c: Config, u: Users, a: Assignment, order: seq<Symbol>, s: Symbol)
    requires IsSolution(c, u, a) && Recordable(c, u, a, order, s) && Selected(c, s, a)
    ensures s.typ == SInt || s.typ == SHex ==> StringValid(s.typ, Shown(s, a(s)))
  {
    if s.typ == SInt || s.typ == SHex {
      var d := DeclOf(c, s);
      TextSolved(c, u, u, s, a);
      InRangeTwice(s, d, ChosenText(FrameIn(a(s)), UserOf(u, s), DefaultText(d, a)), a);
    }
  }

  /** The users' values a fresh load of the written file gives. */
  function Loaded(prefix: string, table: Table, entries: seq<Entry>): Users {
    ReadAll(prefix, table, LinesOf(FileText(PrintAll(prefix, entries, false))), map[])
  }

  /** Reading a file of listed entries gives exactly their symbols exactly their values. */
  lemma ListedRead(prefix: string, table: Table, entries: seq<Entry>, w: Writer, c: Config, a: Assignment,
      order: seq<Symbol>)
    requires Lists(entries, w, c, a, order) && '\n' !in prefix
    requires forall e :: e in entries ==> EntryOk(prefix, table, e) && '\n' !in e.sym.name && '\n' !in e.shown
    ensures Records(w, c, a, order, Loaded(prefix, table, entries))
  {
    FileRoundTrip(prefix, table, entries, false);
    StoreContents(entries, false, map[]);
    var u' := Store(entries, false, map[]);
    forall s: Symbol
      ensures RecordedAt(w, c, a, order, u', s)
    {
      if s in order && Wanted(w, c, s, a) { assert EntryOf(s, a) in entries; }
    }
  }

  /** Entries of a solution can be written and read back. */
  lemma ListedOk(prefix: string, table: Table, entries: seq<Entry>, w: Writer, c: Config, u: Users, a: Assignment,
      order: seq<Symbol>)
    requires IsSolution(c, u, a) && Lists(entries, w, c, a, order)
    requires forall t :: t in order && Wanted(w, c, t, a) ==> Writable(prefix, table, a, t)
    requires forall t :: t in order && Wanted(w, c, t, a) && (t.typ == SInt || t.typ == SHex) ==>
             StringValid(t.typ, Shown(t, a(t)))
    ensures forall e :: e in entries ==> EntryOk(prefix, table, e) && '\n' !in e.sym.name && '\n' !in e.shown
  {
    forall e | e in entries
      ensures EntryOk(prefix, table, e) && '\n' !in e.sym.name && '\n' !in e.shown
    {
      assert e == EntryOf(e.sym, a) && e.sym in order && Wanted(w, c, e.sym, a);
      assert Writable(prefix, table, a, e.sym);
      ShownOk(c, u, a, e.sym);
    }
  }

  /**
   Writing the minimal configuration and loading it into a fresh state gives every symbol
   the value, visibility and WRITE flag it had.
   */
  lemma DefconfigRoundTrip(prefix: string, table: Table, c: Config, u: Users, a: Assignment, order: seq<Symbol>,
                           entries: seq<Entry>, b: Assignment, rank: Rank, s: Symbol)
    requires Ranked(c, rank) && IsSolution(c, u, a) && '\n' !in prefix
    requires forall t: Symbol :: Recordable(c, u, a, order, t)
    requires forall t :: t in order && Selected(c, t, a) ==> Writable(prefix, table, a, t)
    requires Lists(entries, Minimal, c, a, order)
    requires IsSolution(c, Loaded(prefix, table, entries), b)
    ensures b(s) == a(s)
  {
    forall t | t in order && Selected(c, t, a) && (t.typ == SInt || t.typ == SHex)
      ensures StringValid(t.typ, Shown(t, a(t)))
    {
      assert Recordable(c, u, a, order, t);
      SelectedValid(c, u, a, order, t);
    }
    ListedOk(prefix, table, entries, Minimal, c, u, a, order);
    ListedRead(prefix, table, entries, Minimal, c, a, order);
    var u' := Loaded(prefix, table, entries);
    DefconfigReproduces(c, u, a, order, u');
    SolutionUnique(c, u', a, b, rank, s);
  }

  // ---- conf_write: every symbol with the WRITE flag ----

  /** What a full save needs: counting user values belong to menu symbols, ranges are ordered, values valid. */
  ghost predicate Saveable(c: Config, u: Users, a: Assignment, order: seq<Symbol>, s: Symbol) {
    && (s in u && a(s).visible != NO ==> s in order && !DeclOf(c, s).auto)
    && RangeOk(s, DeclOf(c, s), a)
    && ((s.typ == SInt || s.typ == SHex) && a(s).write ==> StringValid(s.typ, a(s).val))
  }

  lemma SavedTri(c: Config, u: Users, a: Assignment, order: seq<Symbol>, u': Users, s: Symbol)
    requires IsSolution(c, u, a) && IsTriType(s.typ) && Saveable(c, u, a, order, s)
    requires RecordedAt(Full, c, a, order, u', s)
    ensures SolvedAt(c, u', a, s) <==> !(s in order && IsWritten(s, a) && Drops(a(s), s in u, a(s).tri))
  {
    TriParts(c, u, s, a);
    TriSolved(c, u, u', s, a);
    TriOfRender(a(s).tri);
  }

  lemma SavedText(c: Config, u: Users, a: Assignment, order: seq<Symbol>, u': Users, s: Symbol)
    requires IsSolution(c, u, a) && IsTyped(s.typ) && !IsTriType(s.typ) && Saveable(c, u, a, order, s)
    requires RecordedAt(Full, c, a, order, u', s)
    ensures SolvedAt(c, u', a, s)
  {
    var d := DeclOf(c, s);
    TextSolved(c, u, u', s, a);
    InRangeTwice(s, d, ChosenText(FrameIn(a(s)), UserOf(u, s), DefaultText(d, a)), a);
    assert SolvedAt(c, u, a, s);
    assert Shown(s, a(s)) == a(s).val;
  }

  /**
   Saving everything and loading it again reproduces the configuration exactly when no written
   tristate sits above its visibility by default: such a default of y comes back as a user's
   y, which visibility then limits to m.
   */
  lemma ConfigReload(prefix: string, table: Table, c: Config, u: Users, a: Assignment, order: seq<Symbol>,
      entries: seq<Entry>)
    requires IsSolution(c, u, a) && '\n' !in prefix
    requires forall t: Symbol :: Saveable(c, u, a, order, t)
    requires forall t :: t in order && IsWritten(t, a) ==> Writable(prefix, table, a, t)
    requires Lists(entries, Full, c, a, order)
    ensures IsSolution(c, Loaded(prefix, table, entries), a) <==>
            forall t :: t in order && IsWritten(t, a) && IsTriType(t.typ) ==> !Drops(a(t), t in u, a(t).tri)
  {
    forall t | t in order && IsWritten(t, a) && (t.typ == SInt || t.typ == SHex)
      ensures StringValid(t.typ, Shown(t, a(t)))
    {
      assert Saveable(c, u, a, order, t);
    }
    ListedOk(prefix, table, entries, Full, c, u, a, order);
    ListedRead(prefix, table, entries, Full, c, a, order);
    var u' := Loaded(prefix, table, entries);
    forall t: Symbol
      ensures SolvedAt(c, u', a, t) <==>
              !(t in order && IsWritten(t, a) && IsTriType(t.typ) && Drops(a(t), t in u, a(t).tri))
    {
      assert Saveable(c, u, a, order, t) && RecordedAt(Full, c, a, order, u', t);
      if IsTriType(t.typ) {
        SavedTri(c, u, a, order, u', t);
      } else if IsTyped(t.typ) {
        SavedText(c, u, a, order, u', t);
      } else {
        assert SolvedAt(c, u, a, t);
      }
    }
  }
}
