/** The parser of scons/source_list.py, statement by statement, proved against
    the functions of SourceList. */
module SourceListParsing {
  import opened Text
  import opened SourceList

  class SourceListParser {
    var symbolTable: Table
    var fileName: Option<string>
    var lineNo: nat
    var lineCont: string

    function State(): ParserState
      reads this
    {
      ParserState(symbolTable, fileName, lineNo, lineCont)
    }

    constructor ()
      ensures State() == Initial()
    {
      symbolTable := map[];
      fileName, lineNo, lineCont := None, 1, "";
    }

    method Reset(file: Option<string>)
      modifies this
      ensures State() == ParserState(old(symbolTable), file, 1, "")
    {
      fileName := file;
      lineNo := 1;
      lineCont := "";
    }

    /** A single left-to-right pass: the text up to `cur` is already expanded. */
    method ExpandValue(val: string) returns (r: Result<string, Kind>)
      ensures r == Expand(symbolTable, val)
    {
      var expanded := "";
      var cur := 0;
      ExpandFromStart(symbolTable, val);
      while true
        invariant 0 <= cur <= |val|
        invariant Expanding(symbolTable, val, cur, expanded)
        decreases |val| - cur
      {
        match NextDereference(val, cur)
        case NoDereference =>
          ExpandEnds(symbolTable, val, cur, expanded);
          expanded := expanded + val[cur..];
          return Ok(expanded);
        case Malformed(e) =>
          ExpandEnds(symbolTable, val, cur, expanded);
          return Err(e);
        case At(start, end) =>
          var sym := val[start + 2..end - 1];
          ExpandRound(symbolTable, val, cur, expanded, start, end, sym);
          if sym !in symbolTable {
            return Err(KeyError(sym));
          }
          expanded := expanded + (val[cur..start] + symbolTable[sym]);
          cur := end;
      }
    }

    method ParseDefinitionLine(line: string) returns (r: Result<(), Kind>)
      modifies this`symbolTable
      ensures var d := ParseDefinition(line);
              var result := if d.Err? then Err(d.error) else Execute(old(symbolTable), d.value);
              && symbolTable == (if result.Ok? then result.value else old(symbolTable))
              && r == if result.Ok? then Ok(()) else Err(result.error)
    {
      var opPos := Find(line, '=');
      var opEnd := opPos + 1;
      if opPos < 0 {
        return Err(NotADefinition);
      }
      if opPos > 0 {
        if line[opPos - 1] in [':', '+', '?'] {
          opPos := opPos - 1;
        }
      } else {
        return Err(UnsupportedOperator);
      }

      OperatorAt(line, opPos, opEnd);
      ghost var d := ParseDefinition(line).value;
      var op := line[opPos..opEnd];
      var sym := Strip(line[..opPos]);
      var expansion := ExpandValue(LStrip(line[opEnd..]));
      if expansion.Err? {
        return Err(expansion.error);
      }
      r := Store(op, sym, expansion.value, d);
    }

    /** The branches of `_parse_definition` on the operator. */
    method Store(op: string, sym: string, val: string, ghost d: Definition) returns (r: Result<(), Kind>)
      requires sym == d.sym && Expand(symbolTable, d.raw) == Ok(val)
      requires op == OperatorText(d.op)
      modifies this`symbolTable
      ensures var result := Execute(old(symbolTable), d);
              && symbolTable == (if result.Ok? then result.value else old(symbolTable))
              && r == if result.Ok? then Ok(()) else Err(result.error)
    {
      if op == "=" || op == ":=" {
        symbolTable := symbolTable[sym := val];
      } else if op == "+=" {
        if sym !in symbolTable {
          return Err(KeyError(sym));
        }
        symbolTable := symbolTable[sym := symbolTable[sym] + " " + val];
      } else if op == "?=" {
        if sym !in symbolTable {
          symbolTable := symbolTable[sym := val];
        }
      }
      return Ok(());
    }

    /** The end of `_parse_line`: a completed logical line. */
    method ParseText(line: string) returns (r: Result<(), Kind>)
      modifies this`symbolTable
      ensures var result := Effect(old(symbolTable), line);
              && symbolTable == (if result.Ok? then result.value else old(symbolTable))
              && r == if result.Ok? then Ok(()) else Err(result.error)
    {
      if line != "" {
        var beginsWithTab := line[0] == '\t';
        var text := LStrip(line);
        if text == "" {
          return Err(IndexError);
        }
        if text[0] != '#' {
          if beginsWithTab {
            return Err(RecipeLine);
          } else {
            r := ParseDefinitionLine(text);
            return;
          }
        }
      }
      return Ok(());
    }

    /** The number of logical lines completed: 0 or 1. */
    method ParseLine(line: string) returns (r: Result<nat, Kind>, ghost text: string)
      modifies this`symbolTable, this`lineCont
      ensures Continued(line) ==>
                && r == Ok(0) && symbolTable == old(symbolTable)
                && lineCont == (if old(lineCont) == "" then RStrip(DropLast(line)) + " "
                                else old(lineCont) + Strip(DropLast(line)) + " ")
      ensures !Continued(line) ==>
                && lineCont == "" && text == (if old(lineCont) == "" then line else old(lineCont) + LStrip(line))
                && var result := Effect(old(symbolTable), text);
                   && symbolTable == (if result.Ok? then result.value else old(symbolTable))
                   && r == if result.Ok? then Ok(1) else Err(result.error)
    {
      text := line;
      if line != "" && line[|line| - 1] == '\\' {
        if lineCont != "" {
          lineCont := lineCont + Strip(line[..|line| - 1]) + " ";
        } else {
          lineCont := RStrip(line[..|line| - 1]) + " ";
        }
        return Ok(0), text;
      }

      var joined := line;
      if lineCont != "" {
        joined := lineCont + LStrip(line);
        lineCont := "";
      }
      text := joined;
      var p := ParseText(joined);
      r := if p.Ok? then Ok(1) else Err(p.error);
    }

    /** The first `i` lines are done, without a failure. */
    ghost predicate Done(t: Table, lines: seq<string>, i: nat)
      requires i <= |lines|
      reads this
    {
      DoneWith(t, lines, i, symbolTable, lineNo, lineCont)
    }

    /** The body of the loop of `parse`. */
    method ParseNumberedLine(ghost t: Table, lines: seq<string>, i: nat) returns (failure: Option<Kind>)
      requires i < |lines| && Done(t, lines, i)
      modifies this
      ensures fileName == old(fileName)
      ensures failure.None? ==> Done(t, lines, i + 1)
      ensures failure.Some? ==> lineNo >= 1 && RunLines(t, Logical(lines)) == Outcome(symbolTable, lineNo - 1, failure)
    {
      ghost var table, pending := symbolTable, lineCont;
      var completed, text := ParseLine(lines[i]);
      if Continued(lines[i]) {
        DoneContinued(t, lines, i, table, lineNo, pending, lineCont);
      } else {
        DoneCompleted(t, lines, i, table, lineNo, pending, text);
      }
      if completed.Err? {
        return Some(completed.error);
      }
      lineNo := lineNo + completed.value;
      return None;
    }

    /** The loop of `parse`: stops at the first line that fails. */
    method ParseLines(lines: seq<string>) returns (failure: Option<Kind>)
      requires lineNo == 1 && lineCont == ""
      modifies this
      ensures fileName == old(fileName) && lineNo >= 1
      ensures RunLines(old(symbolTable), Logical(lines)) == Outcome(symbolTable, lineNo - 1, failure)
      ensures failure.None? ==> lineCont == Open(Unfinished(lines))
    {
      ghost var t := symbolTable;
      assert lines[..0] == [];
      for i := 0 to |lines|
        invariant fileName == old(fileName) && Done(t, lines, i)
      {
        failure := ParseNumberedLine(t, lines, i);
        if failure.Some? {
          return;
        }
      }
      assert lines[..|lines|] == lines;
      return None;
    }

    /** Parsing a file runs its logical lines in order; the line number that an
        error reports counts logical lines, not physical ones. */
    method Parse(file: string, content: Option<seq<string>>) returns (r: Result<Table, Failure>)
      modifies this
      ensures State() == Step(old(State()), Call.Parse(file, content))
      ensures r == Answer(old(State()), Call.Parse(file, content))
    {
      if fileName != Some(file) {
        if content.None? {
          return Err(CannotOpen(file));
        }
        Reset(Some(file));
        var failure := ParseLines(content.value);
        if failure.Some? {
          r := Err(Failure(file, lineNo, failure.value));
          Reset(None);
          return;
        }
      }
      return Ok(symbolTable);
    }

    method AddSymbol(name: string, value: string)
      modifies this
      ensures State() == Step(old(State()), Call.AddSymbol(name, value))
    {
      symbolTable := symbolTable[name := value];
    }
  }

  // ------------------------------------------------------------------- lemmas

  function OperatorText(op: Op): string {
    match op
    case Assign => "="
    case AssignNow => ":="
    case Append => "+="
    case AssignIfUnset => "?="
  }

  /** The parts of a definition whose operator lies from `start` to `end`. */
  lemma OperatorAt(line: string, start: nat, end: nat)
    requires var pos := Find(line, '=');
             0 < pos && end == pos + 1 &&
             start == if line[pos - 1] == ':' || line[pos - 1] == '+' || line[pos - 1] == '?' then pos - 1 else pos
    ensures var d := ParseDefinition(line);
            && d.Ok? && d.value.sym == Strip(line[..start]) && d.value.raw == LStrip(line[end..])
            && line[start..end] == OperatorText(d.value.op)
  {
    assert line[start..end] == if start + 1 == end then ['='] else [line[start], '='];
  }

  lemma NextDereferenceInRest(val: string, cur: nat)
    requires cur <= |val|
    ensures NextDereference(val, cur) ==
            match NextDereference(val[cur..], 0)
            case At(start, end) => At(cur + start, cur + end)
            case d => d
  {
    FindInRest(val, '$', cur, 0);
    var start := FindFrom(val, '$', cur);
    if start >= 0 && start + 2 <= |val| {
      FindInRest(val, ')', cur, start - cur + 2);
    }
  }

  /** The expansion of a text whose first reference has the parts given. */
  lemma ExpandAt(t: Table, val: string, head: string, sym: string, tail: string)
    requires NextDereference(val, 0).At?
    requires var d := NextDereference(val, 0);
             head == val[..d.start] && sym == val[d.start + 2..d.end - 1] && tail == val[d.end..]
    ensures Expand(t, val) == if sym !in t then Err(KeyError(sym)) else Prepend(head + t[sym], Expand(t, tail))
  {
  }

  lemma ExpandRest(t: Table, val: string, cur: nat, start: nat, end: nat, rest: string)
    requires cur <= start && start + 3 <= end <= |val| && rest == val[cur..]
    requires NextDereference(rest, 0) == At(start - cur, end - cur)
    ensures Expand(t, rest) ==
            if val[start + 2..end - 1] !in t then Err(KeyError(val[start + 2..end - 1]))
            else Prepend(val[cur..start] + t[val[start + 2..end - 1]], Expand(t, val[end..]))
  {
    SlicesOfRest(val, cur, start, end);
    ExpandAt(t, rest, val[cur..start], val[start + 2..end - 1], val[end..]);
  }

  /** Expanding from `cur` on: copy up to the next reference, replace it, go on behind it. */
  lemma ExpandStep(t: Table, val: string, cur: nat)
    requires cur <= |val|
    ensures var d := NextDereference(val, cur);
            Expand(t, val[cur..]) ==
            if d.NoDereference? then Ok(val[cur..])
            else if d.Malformed? then Err(d.kind)
            else if val[d.start + 2..d.end - 1] !in t then Err(KeyError(val[d.start + 2..d.end - 1]))
            else Prepend(val[cur..d.start] + t[val[d.start + 2..d.end - 1]], Expand(t, val[d.end..]))
  {
    NextDereferenceInRest(val, cur);
    var d := NextDereference(val, cur);
    if d.At? {
      ExpandRest(t, val, cur, d.start, d.end, val[cur..]);
    }
  }

  /** The text up to `cur` has been expanded to `expanded`. */
  predicate Expanding(t: Table, val: string, cur: nat, expanded: string)
    requires cur <= |val|
  {
    Expand(t, val) == Prepend(expanded, Expand(t, val[cur..]))
  }

  lemma ExpandFromStart(t: Table, val: string)
    ensures Expanding(t, val, 0, "")
  {
    assert val[0..] == val;
    PrependNothing(Expand(t, val));
  }

  lemma ExpandEnds(t: Table, val: string, cur: nat, expanded: string)
    requires cur <= |val| && Expanding(t, val, cur, expanded) && !NextDereference(val, cur).At?
    ensures Expand(t, val) ==
            var d := NextDereference(val, cur);
            if d.Malformed? then Err(d.kind) else Ok(expanded + val[cur..])
  {
    ExpandStep(t, val, cur);
  }

  lemma ExpandRound(t: Table, val: string, cur: nat, expanded: string, start: nat, end: nat, sym: string)
    requires cur <= |val| && Expanding(t, val, cur, expanded)
    requires NextDereference(val, cur) == At(start, end) && sym == val[start + 2..end - 1]
    ensures if sym !in t then Expand(t, val) == Err(KeyError(sym))
            else Expanding(t, val, end, expanded + (val[cur..start] + t[sym]))
  {
    ExpandStep(t, val, cur);
    if sym in t {
      PrependTwice(expanded, val[cur..start] + t[sym], Expand(t, val[end..]));
    }
  }

  lemma SlicesOfRest(val: string, cur: nat, start: nat, end: nat)
    requires cur <= start && start + 3 <= end <= |val|
    ensures var rest := val[cur..];
            && rest[start - cur + 2..end - cur - 1] == val[start + 2..end - 1]
            && rest[..start - cur] == val[cur..start]
            && rest[end - cur..] == val[end..]
  {
  }

  /** The logical lines of a prefix are a prefix of the logical lines. */
  lemma {:induction false} LogicalPrefix(lines: seq<string>, i: nat)
    requires i <= |lines|
    ensures Logical(lines[..i]) <= Logical(lines)
    decreases |lines| - i
  {
    if i < |lines| {
      assert lines[..i + 1] == lines[..i] + [lines[i]];
      SpliceStep(lines[..i], lines[i]);
      LogicalPrefix(lines, i + 1);
    } else {
      assert lines[..i] == lines;
    }
  }

  lemma FailureInPrefix(t: Table, lines: seq<string>, i: nat)
    requires i <= |lines| && RunLines(t, Logical(lines[..i])).failure.Some?
    ensures RunLines(t, Logical(lines)) == RunLines(t, Logical(lines[..i]))
  {
    var a := Logical(lines[..i]);
    LogicalPrefix(lines, i);
    assert Logical(lines) == a + Logical(lines)[|a|..];
    RunStops(t, a, Logical(lines)[|a|..]);
  }

  /** A continued line only extends the pending text. */
  lemma ParseContinued(lines: seq<string>, i: nat)
    requires i < |lines| && Continued(lines[i])
    ensures Logical(lines[..i + 1]) == Logical(lines[..i])
    ensures Open(Unfinished(lines[..i + 1])) ==
            if Open(Unfinished(lines[..i])) == "" then RStrip(DropLast(lines[i])) + " "
            else Open(Unfinished(lines[..i])) + Strip(DropLast(lines[i])) + " "
  {
    assert lines[..i + 1] == lines[..i] + [lines[i]];
    PendingGrows(lines[..i], lines[i]);
  }

  lemma PendingGrows(before: seq<string>, line: string)
    requires Continued(line)
    ensures Logical(before + [line]) == Logical(before)
    ensures Open(Unfinished(before + [line])) ==
            if Open(Unfinished(before)) == "" then RStrip(DropLast(line)) + " "
            else Open(Unfinished(before)) + Strip(DropLast(line)) + " "
  {
    SpliceStep(before, line);
    OpenMore(Unfinished(before), line);
  }

  lemma OpenMore(rest: seq<string>, line: string)
    requires AllContinued(rest) && Continued(line)
    ensures AllContinued(rest + [line])
    ensures Open(rest + [line]) ==
            if Open(rest) == "" then RStrip(DropLast(line)) + " " else Open(rest) + Strip(DropLast(line)) + " "
  {
    if rest == [] {
      assert [] + [line] == [line];
      OpenFirst(line);
    } else {
      OpenSnoc(rest, line);
    }
  }

  /** Any other line completes a logical line: the pending text, then the line. */
  lemma ParseCompleted(lines: seq<string>, i: nat)
    requires i < |lines| && !Continued(lines[i])
    ensures Open(Unfinished(lines[..i + 1])) == ""
    ensures var pending := Open(Unfinished(lines[..i]));
            Logical(lines[..i + 1]) ==
            Logical(lines[..i]) + [if pending == "" then lines[i] else pending + LStrip(lines[i])]
  {
    var before, line := lines[..i], lines[i];
    assert lines[..i + 1] == before + [line];
    JoinPending(before, line);
    SpliceStep(before, line);
  }

  lemma JoinPending(lines: seq<string>, line: string)
    ensures Join(Unfinished(lines), line) ==
            var pending := Open(Unfinished(lines));
            if pending == "" then line else pending + LStrip(line)
  {
  }

  /** The logical line completed by `line` has its effect, or ends the run. */
  lemma RunCompleted(t: Table, lines: seq<string>, i: nat, line: string, table: Table, done: nat)
    requires i < |lines| && Logical(lines[..i + 1]) == Logical(lines[..i]) + [line]
    requires RunLines(t, Logical(lines[..i])) == Outcome(table, done, None)
    ensures var result := Effect(table, line);
            if result.Ok? then RunLines(t, Logical(lines[..i + 1])) == Outcome(result.value, done + 1, None)
            else RunLines(t, Logical(lines)) == Outcome(table, done, Some(result.error))
  {
    RunSnoc(t, Logical(lines[..i]), line);
    if RunLines(t, Logical(lines[..i + 1])).failure.Some? {
      FailureInPrefix(t, lines, i + 1);
    }
  }

  /** The first `i` lines have left this table, line number and pending text. */
  predicate DoneWith(t: Table, lines: seq<string>, i: nat, table: Table, lineNo: nat, pending: string)
    requires i <= |lines|
  {
    && lineNo >= 1
    && RunLines(t, Logical(lines[..i])) == Outcome(table, lineNo - 1, None)
    && pending == Open(Unfinished(lines[..i]))
  }

  lemma DoneContinued(t: Table, lines: seq<string>, i: nat, table: Table, lineNo: nat, pending: string, more: string)
    requires i < |lines| && DoneWith(t, lines, i, table, lineNo, pending) && Continued(lines[i])
    requires more == if pending == "" then RStrip(DropLast(lines[i])) + " " else pending + Strip(DropLast(lines[i])) + " "
    ensures DoneWith(t, lines, i + 1, table, lineNo, more)
  {
    ParseContinued(lines, i);
  }

  lemma DoneCompleted(t: Table, lines: seq<string>, i: nat, table: Table, lineNo: nat, pending: string, text: string)
    requires i < |lines| && DoneWith(t, lines, i, table, lineNo, pending) && !Continued(lines[i])
    requires text == if pending == "" then lines[i] else pending + LStrip(lines[i])
    ensures var result := Effect(table, text);
            if result.Ok? then DoneWith(t, lines, i + 1, result.value, lineNo + 1, "")
            else RunLines(t, Logical(lines)) == Outcome(table, lineNo - 1, Some(result.error))
  {
    ParseCompleted(lines, i);
    RunCompleted(t, lines, i, text, table, lineNo - 1);
  }
}
