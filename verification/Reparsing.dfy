/** Parsing the same file twice: what a file depends on, and when a second parse
    gives all its symbols the values of the first. */
module Reparsing {
  import opened Text
  import opened SourceList
  import opened ExpansionLaws

  /** The symbols a line reads: its references, and the old value under `+=` and `?=`. */
  function Needs(line: string): set<string> {
    var c := Classify(line);
    if !c.Define? then {}
    else References(c.def.raw) + if c.def.op.Append? || c.def.op.AssignIfUnset? then {c.def.sym} else {}
  }

  function Defined(line: string): set<string> {
    var c := Classify(line);
    if c.Define? then {c.def.sym} else {}
  }

  /** The symbols set from nothing, with `=` or `:=`. */
  function DefinedAfresh(line: string): set<string> {
    var c := Classify(line);
    if c.Define? && (c.def.op.Assign? || c.def.op.AssignNow?) then {c.def.sym} else {}
  }

  function Collect(f: string -> set<string>, lines: seq<string>): set<string> {
    if lines == [] then {} else Collect(f, lines[..|lines| - 1]) + f(lines[|lines| - 1])
  }

  function Assigned(lines: seq<string>): set<string> {
    Collect(Defined, lines)
  }

  /** What a file takes from the files before it. */
  function Imports(lines: seq<string>): set<string> {
    Collect(Needs, lines) - Assigned(lines)
  }

  /** Every symbol of the file is set with `=` or `:=` before the file reads it. */
  predicate SelfContained(lines: seq<string>) {
    forall i | 0 <= i < |lines| ::
      Needs(lines[i]) * Assigned(lines) <= Collect(DefinedAfresh, lines[..i])
  }

  predicate AgreeOn(a: Table, b: Table, symbols: set<string>) {
    forall s | s in symbols :: (s in a <==> s in b) && (s in a ==> a[s] == b[s])
  }

  lemma {:induction false} CollectMember(f: string -> set<string>, lines: seq<string>, i: nat)
    requires i < |lines|
    ensures f(lines[i]) <= Collect(f, lines)
  {
    var n := |lines| - 1;
    if i < n {
      CollectMember(f, lines[..n], i);
    }
  }

  lemma {:induction false} FreshIsAssigned(lines: seq<string>)
    ensures Collect(DefinedAfresh, lines) <= Assigned(lines)
  {
    if lines != [] {
      FreshIsAssigned(lines[..|lines| - 1]);
    }
  }

  lemma {:induction false} ExpandDependsOnReferences(a: Table, b: Table, val: string)
    requires AgreeOn(a, b, References(val))
    ensures Expand(a, val) == Expand(b, val)
    decreases |val|
  {
    var d := NextDereference(val, 0);
    if d.At? {
      ExpandDependsOnReferences(a, b, val[d.end..]);
    }
  }

  /** A line has the same effect in tables that agree on what it reads. */
  lemma EffectDependsOnNeeds(a: Table, b: Table, line: string, symbols: set<string>)
    requires AgreeOn(a, b, symbols) && Needs(line) <= symbols
    ensures var x, y := Effect(a, line), Effect(b, line);
            && (x.Err? || y.Err? ==> x == y)
            && (x.Ok? && y.Ok? ==> AgreeOn(x.value, y.value, symbols + Defined(line)))
  {
    var c := Classify(line);
    if c.Define? {
      ExpandDependsOnReferences(a, b, c.def.raw);
    }
  }

  /** The lines fail alike in both tables, or leave tables that agree on `symbols`. */
  predicate SameOutcome(a: Table, b: Table, lines: seq<string>, symbols: set<string>) {
    var x, y := RunLines(a, lines), RunLines(b, lines);
    && x.failure == y.failure && x.done == y.done
    && (x.failure.None? ==> AgreeOn(x.table, y.table, symbols))
  }

  lemma OneMoreLine(a: Table, b: Table, p: seq<string>, line: string, symbols: set<string>)
    requires SameOutcome(a, b, p, symbols) && Needs(line) <= symbols
    ensures SameOutcome(a, b, p + [line], symbols + Defined(line))
  {
    assert (p + [line])[..|p|] == p;
    if RunLines(a, p).failure.None? {
      EffectDependsOnNeeds(RunLines(a, p).table, RunLines(b, p).table, line, symbols);
    }
  }

  /** The symbols on which the tables agree when the first `k` lines are done. */
  function AgreedSymbols(lines: seq<string>, k: nat): set<string>
    requires k <= |lines|
  {
    Imports(lines) + Assigned(lines[..k])
  }

  lemma NeededIsAgreed(lines: seq<string>, k: nat)
    requires SelfContained(lines) && k < |lines|
    ensures Needs(lines[k]) <= AgreedSymbols(lines, k)
  {
    CollectMember(Needs, lines, k);
    FreshIsAssigned(lines[..k]);
    assert Needs(lines[k]) * Assigned(lines) <= Collect(DefinedAfresh, lines[..k]);
    forall s | s in Needs(lines[k]) ensures s in AgreedSymbols(lines, k) {
      if s in Assigned(lines) {
        assert s in Collect(DefinedAfresh, lines[..k]);
      }
    }
  }

  lemma AgreedGrows(lines: seq<string>, k: nat)
    requires k < |lines|
    ensures lines[..k] + [lines[k]] == lines[..k + 1]
    ensures AgreedSymbols(lines, k + 1) == AgreedSymbols(lines, k) + Defined(lines[k])
  {
    assert lines[..k + 1][..k] == lines[..k];
  }

  lemma OneMoreAgreed(a: Table, b: Table, lines: seq<string>, k: nat, before: seq<string>, line: string)
    requires SelfContained(lines) && k < |lines| && before == lines[..k] && line == lines[k]
    requires SameOutcome(a, b, before, AgreedSymbols(lines, k))
    ensures SameOutcome(a, b, lines[..k + 1], AgreedSymbols(lines, k + 1))
  {
    NeededIsAgreed(lines, k);
    AgreedGrows(lines, k);
    OneMoreLine(a, b, before, line, AgreedSymbols(lines, k));
  }

  /** A file has the same outcome in tables that agree on its imports. */
  lemma {:induction false} OutcomeDependsOnImports(a: Table, b: Table, lines: seq<string>, k: nat)
    requires SelfContained(lines) && AgreeOn(a, b, Imports(lines)) && k <= |lines|
    ensures SameOutcome(a, b, lines[..k], AgreedSymbols(lines, k))
  {
    if k == 0 {
      assert lines[..0] == [];
    } else {
      OutcomeDependsOnImports(a, b, lines, k - 1);
      OneMoreAgreed(a, b, lines, k - 1, lines[..k - 1], lines[k - 1]);
    }
  }

  lemma FileDependsOnImports(a: Table, b: Table, lines: seq<string>)
    requires SelfContained(lines) && AgreeOn(a, b, Imports(lines)) && RunLines(a, lines).failure.None?
    ensures RunLines(b, lines).failure.None?
    ensures AgreeOn(RunLines(a, lines).table, RunLines(b, lines).table, Assigned(lines) + Imports(lines))
  {
    OutcomeDependsOnImports(a, b, lines, |lines|);
    assert lines[..|lines|] == lines;
  }

  /** A file changes only the symbols it assigns, even when it fails half way. */
  lemma {:induction false} OnlyAssignedChange(t: Table, lines: seq<string>, s: string)
    requires s !in Assigned(lines)
    ensures AgreeOn(t, RunLines(t, lines).table, {s})
  {
    if lines != [] {
      OnlyAssignedChange(t, lines[..|lines| - 1], s);
    }
  }

  function Touches(call: Call): set<string> {
    match call
    case AddSymbol(name, _) => {name}
    case Parse(_, lines) => if lines.None? then {} else Assigned(Logical(lines.value))
  }

  lemma {:induction false} CallsKeep(s: ParserState, calls: seq<Call>, symbols: set<string>)
    requires forall i | 0 <= i < |calls| :: Touches(calls[i]) !! symbols
    ensures AgreeOn(s.table, Run(s, calls).table, symbols)
  {
    if calls != [] {
      var n := |calls| - 1;
      CallsKeep(s, calls[..n], symbols);
      var t := Run(s, calls[..n]).table;
      if calls[n].Parse? && calls[n].lines.Some? {
        forall x | x in symbols
          ensures AgreeOn(t, RunLines(t, Logical(calls[n].lines.value)).table, {x})
        {
          OnlyAssignedChange(t, Logical(calls[n].lines.value), x);
        }
      }
    }
  }

  /** Parse a self-contained file, then do anything that does not assign what the file
      imports, then parse it again: all its symbols are as they were. If the file is still
      the current one, so that the second parse is skipped, its own symbols must not have
      been assigned either. */
  lemma ReparsingIsIdempotent(s: ParserState, file: string, lines: seq<string>, calls: seq<Call>)
    requires SelfContained(Logical(lines))
    requires s.file != Some(file) && Answer(s, Call.Parse(file, Some(lines))).Ok?
    requires forall i | 0 <= i < |calls| :: Touches(calls[i]) !! Imports(Logical(lines))
    requires var s1 := Step(s, Call.Parse(file, Some(lines)));
             Run(s1, calls).file == Some(file) ==>
               forall i | 0 <= i < |calls| :: Touches(calls[i]) !! Assigned(Logical(lines))
    ensures var s1 := Step(s, Call.Parse(file, Some(lines)));
            var s2 := Run(s1, calls);
            && Answer(s2, Call.Parse(file, Some(lines))).Ok?
            && AgreeOn(s1.table, Step(s2, Call.Parse(file, Some(lines))).table,
                       Assigned(Logical(lines)) + Imports(Logical(lines)))
  {
    var ls := Logical(lines);
    var s1 := Step(s, Call.Parse(file, Some(lines)));
    var s2 := Run(s1, calls);
    if s2.file == Some(file) {
      CallsKeep(s1, calls, Assigned(ls) + Imports(ls));
    } else {
      ParseRuns(s, file, lines);
      ImportsAreKept(s, s1, ls, calls);
      FileDependsOnImports(s.table, s2.table, ls);
      ParseRuns(s2, file, lines);
    }
  }

  lemma ParseRuns(s: ParserState, file: string, lines: seq<string>)
    requires s.file != Some(file)
    ensures Answer(s, Call.Parse(file, Some(lines))).Ok? <==> RunLines(s.table, Logical(lines)).failure.None?
    ensures Step(s, Call.Parse(file, Some(lines))).table == RunLines(s.table, Logical(lines)).table
  {
  }

  lemma ImportsAreKept(s: ParserState, s1: ParserState, ls: seq<string>, calls: seq<Call>)
    requires s1.table == RunLines(s.table, ls).table
    requires forall i | 0 <= i < |calls| :: Touches(calls[i]) !! Imports(ls)
    ensures AgreeOn(s.table, Run(s1, calls).table, Imports(ls))
  {
    CallsKeep(s1, calls, Imports(ls));
    forall x | x in Imports(ls)
      ensures AgreeOn(s.table, s1.table, {x})
    {
      OnlyAssignedChange(s.table, ls, x);
    }
  }
}
