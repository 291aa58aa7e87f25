/**
 conf_write_autoconf and conf_split_config: auto.conf records the last build's values, and a
 sync touches the header of every symbol whose value differs from the recorded one.
 */
module AutoConf {
  import opened Tristates
  import opened Exprs
  import opened Ranges
  import opened Configs
  import opened Evaluator
  import opened ConfFile
  import opened Saving

  /** The symbols auto.conf is written for, in symbol table order. */
  function AutoEntries(syms: seq<Symbol>, a: Assignment): seq<Entry> {
    if syms == [] then []
    else (if IsWritten(syms[0], a) then [EntryOf(syms[0], a)] else []) + AutoEntries(syms[1..], a)
  }

  function AutoFile(prefix: string, syms: seq<Symbol>, a: Assignment): string {
    FileText(PrintAll(prefix, AutoEntries(syms, a), true))
  }

  /** Is the header of `s` touched, given the values read from auto.conf? */
  predicate Touched(c: Config, s: Symbol, a: Assignment, auto: Values) {
    if DeclOf(c, s).auto then false
    else if a(s).write then
      if s in auto then
        if IsTriType(s.typ) then a(s).tri != auto[s].tri
        else if IsTyped(s.typ) then Shown(s, a(s)) != auto[s].str
        else true
      else if IsTriType(s.typ) then a(s).tri != NO
      else true
    else s in auto
  }

  /** What a build sees of a symbol: a value, unless it is unset or n. */
  function Seen(s: Symbol, r: Result): Option<string> {
    if !r.write || (IsTriType(s.typ) && r.tri == NO) then None else Some(Shown(s, r))
  }

  lemma {:induction false} AutoEntriesContents(syms: seq<Symbol>, a: Assignment)
    requires forall i, j :: 0 <= i < j < |syms| ==> syms[i] != syms[j]
    ensures forall e :: e in AutoEntries(syms, a) <==> e == EntryOf(e.sym, a) && e.sym in syms && IsWritten(e.sym, a)
    ensures DistinctSymbols(AutoEntries(syms, a))
  {
    if syms != [] {
      var rest := AutoEntries(syms[1..], a);
      AutoEntriesContents(syms[1..], a);
      assert forall s :: s in syms <==> s == syms[0] || s in syms[1..];
      forall e | e in rest
        ensures e.sym != syms[0]
      {
        var j :| 0 <= j < |syms| - 1 && syms[1..][j] == e.sym;
        assert syms[j + 1] == e.sym;
      }
    }
  }

  /** The files of a table of symbols whose written int and hex values are valid can be read back. */
  ghost predicate AutoReadable(prefix: string, table: Table, syms: seq<Symbol>, a: Assignment) {
    && '\n' !in prefix
    && (forall i, j :: 0 <= i < j < |syms| ==> syms[i] != syms[j])
    && (forall s :: s in syms && IsWritten(s, a) ==> Writable(prefix, table, a, s))
    && (forall s :: s in syms && IsWritten(s, a) && (s.typ == SInt || s.typ == SHex) ==> StringValid(s.typ, a(s).val))
  }

  /** auto.conf read back: the seen values of the written symbols. */
  lemma AutoRead(prefix: string, table: Table, syms: seq<Symbol>, c: Config, u: Users, a: Assignment, s: Symbol)
    requires IsSolution(c, u, a) && AutoReadable(prefix, table, syms, a) && s in syms && IsTyped(s.typ)
    ensures var auto := ReadAll(prefix, table, LinesOf(AutoFile(prefix, syms, a)), map[]);
            UserOf(auto, s) == if Seen(s, a(s)).Some? then Some(SavedValue(EntryOf(s, a))) else None
  {
    var entries := AutoEntries(syms, a);
    AutoEntriesContents(syms, a);
    forall e | e in entries
      ensures EntryOk(prefix, table, e) && '\n' !in e.sym.name && '\n' !in e.shown
    {
      assert Writable(prefix, table, a, e.sym);
      ShownOk(c, u, a, e.sym);
    }
    FileRoundTrip(prefix, table, entries, true);
    StoreContents(entries, true, map[]);
    ShownOk(c, u, a, s);
    if IsWritten(s, a) { assert EntryOf(s, a) in entries; }
  }

  /**
   A sync touches exactly the headers of the symbols whose seen value differs from the one of
   the configuration that auto.conf was written for.
   */
  lemma SyncTouchesChanges(prefix: string, table: Table, syms: seq<Symbol>, c: Config, u0: Users, a0: Assignment,
                           u1: Users, a1: Assignment, s: Symbol)
    requires IsSolution(c, u0, a0) && IsSolution(c, u1, a1)
    requires AutoReadable(prefix, table, syms, a0) && s in syms && IsTyped(s.typ) && !DeclOf(c, s).auto
    ensures Touched(c, s, a1, ReadAll(prefix, table, LinesOf(AutoFile(prefix, syms, a0)), map[])) <==>
            Seen(s, a0(s)) != Seen(s, a1(s))
  {
    AutoRead(prefix, table, syms, c, u0, a0, s);
    TriOfRender(a0(s).tri);
    TriOfRender(a1(s).tri);
  }

  /** An unchanged configuration touches no header at all. */
  lemma SecondSyncIsQuiet(prefix: string, table: Table, syms: seq<Symbol>, c: Config, u: Users, a: Assignment,
      s: Symbol)
    requires IsSolution(c, u, a) && AutoReadable(prefix, table, syms, a) && s in syms && IsTyped(s.typ)
    ensures !Touched(c, s, a, ReadAll(prefix, table, LinesOf(AutoFile(prefix, syms, a)), map[]))
  {
    if !DeclOf(c, s).auto { SyncTouchesChanges(prefix, table, syms, c, u, a, u, a, s); }
  }

  /** The walk over the symbol table that decides which headers are touched. */
  method SplitConfig(e: Engine, reader: Reader, autoConf: string, syms: seq<Symbol>) returns (touched: seq<Symbol>)
    requires e.Idle()
    modifies e, reader
    ensures e.Idle() && e.users == old(e.users) && e.sol == old(e.sol)
    ensures forall s :: s in touched <==>
              s in syms && Touched(e.cfg, s, e.sol, ReadAll(reader.prefix, reader.table, LinesOf(autoConf), map[]))
  {
    reader.ReadSimple(autoConf);
    var auto := reader.vals;
    touched := [];
    for i := 0 to |syms|
      invariant e.Idle() && e.users == old(e.users) && e.sol == old(e.sol)
      invariant forall s :: s in touched <==> s in syms[..i] && Touched(e.cfg, s, e.sol, auto)
    {
      var s := syms[i];
      assert syms[..i+1] == syms[..i] + [s];
      e.CalcValue(s);
      if DeclOf(e.cfg, s).auto { continue; }
      if e.CellOf(s).write {
        if s in auto {
          if IsTriType(s.typ) {
            if e.CellOf(s).tri == auto[s].tri { continue; }
          } else if IsTyped(s.typ) {
            var shown := e.StringValue(s);
            if shown == auto[s].str { continue; }
          }
        } else if IsTriType(s.typ) {
          if e.CellOf(s).tri == NO { continue; }
        }
      } else if s !in auto {
        continue;
      }
      touched := touched + [s];
    }
    assert syms[..|syms|] == syms;
  }
}
