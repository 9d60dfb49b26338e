/** The meaning of a source list file: a small subset of GNU Make.
    Everything here is a value; SourceListParsing.dfy holds the parser itself,
    which is proved to compute these functions. */
module SourceList {
  import opened Text

  type Table = map<string, string>

  /** Why a line is rejected: one constructor for each way the parser raises. */
  datatype Kind =
    | NonVariableDereference
    | UnterminatedDereference
    | IndexError
    | KeyError(name: string)
    | NotADefinition
    | UnsupportedOperator
    | RecipeLine

  // ------------------------------------------------------- variable expansion

  datatype Dereference = NoDereference | At(start: nat, end: nat) | Malformed(kind: Kind)

  /** The next `$(...)` of `val` at or behind `cur`. */
  function NextDereference(val: string, cur: nat): (d: Dereference)
    ensures d.At? ==> cur <= d.start && d.start + 3 <= d.end <= |val|
  {
    var start := FindFrom(val, '$', cur);
    if start < 0 then NoDereference
    else if start + 1 >= |val| then Malformed(IndexError)
    else if val[start + 1] != '(' then Malformed(NonVariableDereference)
    else
      var end := FindFrom(val, ')', start + 2);
      if end < 0 then Malformed(UnterminatedDereference) else At(start, end + 1)
  }

  /** It is the first `$` and the first `)` behind `$(`; otherwise the error says what
      is missing. */
  lemma NextDereferenceIsFirst(val: string, cur: nat)
    ensures var d := NextDereference(val, cur);
            var start := FindFrom(val, '$', cur);
            && (d.NoDereference? <==> forall k | cur <= k < |val| :: val[k] != '$')
            && (d.At? ==>
                  && val[d.start] == '$' && val[d.start + 1] == '(' && val[d.end - 1] == ')'
                  && (forall k | cur <= k < d.start :: val[k] != '$')
                  && forall k | d.start + 2 <= k < d.end - 1 :: val[k] != ')')
            && (d == Malformed(IndexError) <==> start >= 0 && start == |val| - 1)
            && (d == Malformed(NonVariableDereference) <==> 0 <= start < |val| - 1 && val[start + 1] != '(')
            && (d == Malformed(UnterminatedDereference) <==>
                  && 0 <= start < |val| - 1 && val[start + 1] == '('
                  && forall k | start + 2 <= k < |val| :: val[k] != ')')
  {
    FindFirst(val, '$', cur);
    var start := FindFrom(val, '$', cur);
    if start >= 0 {
      FindFirst(val, ')', start + 2);
    }
  }

  function Prepend(s: string, r: Result<string, Kind>): Result<string, Kind> {
    match r
    case Ok(v) => Ok(s + v)
    case Err(e) => Err(e)
  }

  lemma PrependNothing(r: Result<string, Kind>)
    ensures Prepend("", r) == r
  {
    if r.Ok? {
      assert "" + r.value == r.value;
    }
  }

  lemma PrependTwice(a: string, b: string, r: Result<string, Kind>)
    ensures Prepend(a, Prepend(b, r)) == Prepend(a + b, r)
  {
    if r.Ok? {
      assert a + (b + r.value) == (a + b) + r.value;
    }
  }

  lemma PrependAfter(s: string, head: string, v: string, r: Result<string, Kind>)
    ensures Prepend((s + head) + v, r) == Prepend(s, Prepend(head + v, r))
  {
    PrependTwice(s, head + v, r);
    assert (s + head) + v == s + (head + v);
  }

  /** `val` with every reference replaced by its value, in a single pass. */
  function Expand(t: Table, val: string): Result<string, Kind>
    decreases |val|
  {
    match NextDereference(val, 0)
    case NoDereference => Ok(val)
    case Malformed(e) => Err(e)
    case At(start, end) =>
      var sym := val[start + 2..end - 1];
      if sym !in t then Err(KeyError(sym))
      else Prepend(val[..start] + t[sym], Expand(t, val[end..]))
  }

  // -------------------------------------------------------------- definitions

  /** The operators `=`, `:=`, `+=` and `?=`. */
  datatype Op = Assign | AssignNow | Append | AssignIfUnset

  datatype Definition = Definition(op: Op, sym: string, raw: string)

  function ParseDefinition(line: string): Result<Definition, Kind> {
    var pos := Find(line, '=');
    if pos < 0 then Err(NotADefinition)
    else if pos == 0 then Err(UnsupportedOperator)
    else
      var raw := LStrip(line[pos + 1..]);
      match line[pos - 1]
      case ':' => Ok(Definition(AssignNow, Strip(line[..pos - 1]), raw))
      case '+' => Ok(Definition(Append, Strip(line[..pos - 1]), raw))
      case '?' => Ok(Definition(AssignIfUnset, Strip(line[..pos - 1]), raw))
      case _ => Ok(Definition(Assign, Strip(line[..pos]), raw))
  }

  function Execute(t: Table, d: Definition): Result<Table, Kind> {
    match Expand(t, d.raw)
    case Err(e) => Err(e)
    case Ok(val) =>
      match d.op
      case Assign => Ok(t[d.sym := val])
      case AssignNow => Ok(t[d.sym := val])
      case Append =>
        if d.sym in t then Ok(t[d.sym := t[d.sym] + " " + val]) else Err(KeyError(d.sym))
      case AssignIfUnset => Ok(if d.sym in t then t else t[d.sym := val])
  }

  // ------------------------------------------------------------ logical lines

  datatype Statement = Ignored | Define(def: Definition) | Rejected(kind: Kind)

  function Classify(line: string): Statement {
    if line == "" then Ignored
    else
      var text := LStrip(line);
      if text == "" then Rejected(IndexError)
      else if text[0] == '#' then Ignored
      else if line[0] == '\t' then Rejected(RecipeLine)
      else
        match ParseDefinition(text)
        case Ok(d) => Define(d)
        case Err(e) => Rejected(e)
  }

  function Effect(t: Table, line: string): Result<Table, Kind> {
    match Classify(line)
    case Ignored => Ok(t)
    case Rejected(e) => Err(e)
    case Define(d) => Execute(t, d)
  }

  /** `done` logical lines took effect; the next one failed if `failure` says so. */
  datatype Outcome = Outcome(table: Table, done: nat, failure: Option<Kind>)

  function RunLines(t: Table, lines: seq<string>): (o: Outcome)
    ensures if o.failure.None? then o.done == |lines| else o.done < |lines|
  {
    if lines == [] then Outcome(t, 0, None)
    else
      var n := |lines| - 1;
      var o := RunLines(t, lines[..n]);
      if o.failure.Some? then o
      else
        match Effect(o.table, lines[n])
        case Ok(t') => Outcome(t', n + 1, None)
        case Err(e) => Outcome(o.table, n, Some(e))
  }

  lemma RunSnoc(t: Table, lines: seq<string>, line: string)
    requires RunLines(t, lines).failure.None?
    ensures var o := RunLines(t, lines);
            RunLines(t, lines + [line]) ==
            match Effect(o.table, line)
            case Ok(t') => Outcome(t', o.done + 1, None)
            case Err(e) => Outcome(o.table, o.done, Some(e))
  {
    assert (lines + [line])[..|lines|] == lines;
  }

  /** When line `done` fails, the table is what the lines before it left, and
      the failure is the one that line has in that table. */
  lemma {:induction false} FailureIsAtomic(t: Table, lines: seq<string>)
    ensures var o := RunLines(t, lines);
            o.failure.Some? ==>
              && RunLines(t, lines[..o.done]) == Outcome(o.table, o.done, None)
              && Effect(o.table, lines[o.done]) == Err(o.failure.value)
  {
    if lines != [] {
      var n := |lines| - 1;
      var o := RunLines(t, lines[..n]);
      FailureIsAtomic(t, lines[..n]);
      if o.failure.Some? {
        assert lines[..n][..o.done] == lines[..o.done];
      }
    }
  }

  /** A run that has not failed goes on with the lines behind. */
  lemma {:induction false} RunConcat(t: Table, a: seq<string>, b: seq<string>)
    requires RunLines(t, a).failure.None?
    ensures var o := RunLines(RunLines(t, a).table, b);
            RunLines(t, a + b) == o.(done := |a| + o.done)
    decreases |b|
  {
    if b == [] {
      assert a + b == a;
    } else {
      var n := |b| - 1;
      assert (a + b)[..|a + b| - 1] == a + b[..n];
      assert (a + b)[|a + b| - 1] == b[n];
      RunConcat(t, a, b[..n]);
    }
  }

  /** Lines behind a failure change nothing. */
  lemma {:induction false} RunStops(t: Table, a: seq<string>, b: seq<string>)
    requires RunLines(t, a).failure.Some?
    ensures RunLines(t, a + b) == RunLines(t, a)
    decreases |b|
  {
    if b == [] {
      assert a + b == a;
    } else {
      assert (a + b)[..|a + b| - 1] == a + b[..|b| - 1];
      RunStops(t, a, b[..|b| - 1]);
    }
  }

  // ------------------------------------------- from physical to logical lines

  predicate Continued(line: string) {
    line != "" && line[|line| - 1] == '\\'
  }

  function DropLast(line: string): string
    requires line != ""
  {
    line[..|line| - 1]
  }

  /** The index of the first line without a trailing backslash. */
  function GroupEnd(lines: seq<string>): (k: nat)
    ensures k <= |lines|
    ensures AllContinued(lines[..k])
    ensures k < |lines| ==> !Continued(lines[k])
  {
    if lines == [] || !Continued(lines[0]) then 0
    else
      var k := GroupEnd(lines[1..]);
      assert lines[..k + 1] == [lines[0]] + lines[1..][..k];
      k + 1
  }

  predicate AllContinued(lines: seq<string>) {
    forall i | 0 <= i < |lines| :: Continued(lines[i])
  }

  /** The text a run of continued lines contributes: white space around each
      backslash becomes one space, and the first line keeps its leading white space. */
  function Open(lines: seq<string>): string
    requires AllContinued(lines)
  {
    var n := |lines| - 1;
    if n < 0 then ""
    else if n == 0 then RStrip(DropLast(lines[0])) + " "
    else Open(lines[..n]) + Strip(DropLast(lines[n])) + " "
  }

  /** The logical line made of `lines` and the line `last` that ends them. */
  function Join(lines: seq<string>, last: string): string
    requires AllContinued(lines)
  {
    if lines == [] then last else Open(lines) + LStrip(last)
  }

  /** The logical lines of a file. An unfinished continuation at its end is dropped. */
  function Logical(lines: seq<string>): seq<string> {
    var k := GroupEnd(lines);
    if k == |lines| then [] else [Join(lines[..k], lines[k])] + Logical(lines[k + 1..])
  }

  /** The physical lines of that unfinished continuation. */
  function Unfinished(lines: seq<string>): (rest: seq<string>)
    ensures AllContinued(rest)
  {
    var k := GroupEnd(lines);
    if k == |lines| then
      assert lines[..k] == lines;
      lines
    else Unfinished(lines[k + 1..])
  }

  function CountContinued(lines: seq<string>): nat {
    if lines == [] then 0 else (if Continued(lines[0]) then 1 else 0) + CountContinued(lines[1..])
  }

  // Reading a file line by line: what one more physical line does to the above.

  lemma OpenFirst(line: string)
    requires Continued(line)
    ensures Open([line]) == RStrip(DropLast(line)) + " "
  {
  }

  lemma OpenSnoc(lines: seq<string>, line: string)
    requires lines != [] && AllContinued(lines) && Continued(line)
    ensures AllContinued(lines + [line])
    ensures Open(lines + [line]) == Open(lines) + Strip(DropLast(line)) + " "
  {
    assert (lines + [line])[..|lines|] == lines;
  }

  lemma {:induction false} GroupEndSnoc(lines: seq<string>, line: string)
    ensures GroupEnd(lines + [line]) ==
            if GroupEnd(lines) == |lines| && Continued(line) then |lines| + 1 else GroupEnd(lines)
  {
    if lines != [] {
      assert (lines + [line])[1..] == lines[1..] + [line];
      if Continued(lines[0]) {
        GroupEndSnoc(lines[1..], line);
      }
    }
  }

  /** A continued line joins the unfinished ones; any other line ends them. */
  lemma {:induction false} SpliceStep(lines: seq<string>, line: string)
    ensures if Continued(line) then
              Logical(lines + [line]) == Logical(lines) && Unfinished(lines + [line]) == Unfinished(lines) + [line]
            else
              && Logical(lines + [line]) == Logical(lines) + [Join(Unfinished(lines), line)]
              && Unfinished(lines + [line]) == []
    decreases |lines|
  {
    var k, all := GroupEnd(lines), lines + [line];
    GroupEndSnoc(lines, line);
    if k == |lines| {
      if !Continued(line) {
        assert all[..k] == lines && all[k] == line && all[k + 1..] == [];
        assert Logical(all) == [Join(lines, line)] + Logical([]);
      }
    } else {
      assert all[..k] == lines[..k] && all[k + 1..] == lines[k + 1..] + [line];
      SpliceStep(lines[k + 1..], line);
    }
  }

  lemma {:induction false} CountContinuedConcat(a: seq<string>, b: seq<string>)
    ensures CountContinued(a + b) == CountContinued(a) + CountContinued(b)
  {
    if a == [] {
      assert a + b == b;
    } else {
      assert (a + b)[1..] == a[1..] + b;
      CountContinuedConcat(a[1..], b);
    }
  }

  lemma {:induction false} CountAllContinued(lines: seq<string>)
    requires AllContinued(lines)
    ensures CountContinued(lines) == |lines|
  {
    if lines != [] {
      CountAllContinued(lines[1..]);
    }
  }

  /** Every physical line either ends a logical line or is a continued one. */
  lemma {:induction false} LinesAreConserved(lines: seq<string>)
    ensures |Logical(lines)| + CountContinued(lines) == |lines|
    decreases |lines|
  {
    var k := GroupEnd(lines);
    if k == |lines| {
      assert lines[..k] == lines;
      CountAllContinued(lines);
    } else {
      CountAllContinued(lines[..k]);
      assert lines == lines[..k] + ([lines[k]] + lines[k + 1..]);
      CountContinuedConcat(lines[..k], [lines[k]] + lines[k + 1..]);
      assert ([lines[k]] + lines[k + 1..])[1..] == lines[k + 1..];
      LinesAreConserved(lines[k + 1..]);
    }
  }

  // ------------------------------------------------- a parser over many files

  datatype ParserState = ParserState(table: Table, file: Option<string>, lineNo: nat, lineCont: string)

  /** `parse` of a file, with the lines it has (None if it cannot be opened), or `add_symbol`. */
  datatype Call = Parse(file: string, lines: Option<seq<string>>) | AddSymbol(name: string, value: string)

  datatype Failure = CannotOpen(file: string) | Failure(file: string, lineNo: nat, kind: Kind)

  function Initial(): ParserState {
    ParserState(map[], None, 1, "")
  }

  /** `parse` does nothing for the file it parsed last; otherwise it starts afresh
      and, when a line fails, forgets everything but the table. */
  function Step(s: ParserState, call: Call): ParserState {
    match call
    case AddSymbol(name, value) => s.(table := s.table[name := value])
    case Parse(file, lines) =>
      if s.file == Some(file) || lines.None? then s
      else
        var o := RunLines(s.table, Logical(lines.value));
        if o.failure.None? then ParserState(o.table, Some(file), 1 + o.done, Open(Unfinished(lines.value)))
        else ParserState(o.table, None, 1, "")
  }

  function Answer(s: ParserState, call: Call): Result<Table, Failure>
    requires call.Parse?
  {
    if s.file == Some(call.file) then Ok(s.table)
    else if call.lines.None? then Err(CannotOpen(call.file))
    else
      var o := RunLines(s.table, Logical(call.lines.value));
      if o.failure.None? then Ok(o.table) else Err(Failure(call.file, 1 + o.done, o.failure.value))
  }

  function Run(s: ParserState, calls: seq<Call>): ParserState {
    if calls == [] then s else Step(Run(s, calls[..|calls| - 1]), calls[|calls| - 1])
  }

  /** After a failure nothing of the file is left but the table: the next parse, of the same
      file too, is like one of a new parser that was given this table. */
  lemma FailureLeavesNothing(s: ParserState, file: string, lines: seq<string>, next: Call)
    requires s.file != Some(file) && Answer(s, Call.Parse(file, Some(lines))).Err? && next.Parse?
    ensures var s', anew := Step(s, Call.Parse(file, Some(lines))), Initial().(table := Step(s, Call.Parse(file, Some(lines))).table);
            && s' == anew && Answer(s', next) == Answer(anew, next)
            && (next.lines.Some? ==> Step(s', next).table == RunLines(s'.table, Logical(next.lines.value)).table)
  {
  }

  /** Parsing the current file again changes nothing, whatever it has become. */
  lemma CurrentFileIsSkipped(s: ParserState, file: string, lines: seq<string>, again: Option<seq<string>>)
    requires s.file != Some(file) && Answer(s, Call.Parse(file, Some(lines))).Ok?
    ensures var s' := Step(s, Call.Parse(file, Some(lines)));
            s'.file == Some(file) && Step(s', Call.Parse(file, again)) == s' && Answer(s', Call.Parse(file, again)) == Ok(s'.table)
  {
  }

  /** Parsers with the same table parse another file alike: neither a pending
      continuation nor a line number leaks into it. */
  lemma NothingLeaks(s1: ParserState, s2: ParserState, file: string, lines: seq<string>)
    requires s1.table == s2.table && s1.file != Some(file) && s2.file != Some(file)
    ensures var call := Call.Parse(file, Some(lines));
            Step(s1, call) == Step(s2, call) && Answer(s1, call) == Answer(s2, call)
  {
  }

  /** After a file the line number has counted its logical lines: it is behind the
      physical lines by the number of continued ones. */
  lemma LineNumberCountsLogicalLines(s: ParserState, file: string, lines: seq<string>)
    requires s.file != Some(file) && Answer(s, Call.Parse(file, Some(lines))).Ok?
    ensures Step(s, Call.Parse(file, Some(lines))).lineNo - 1 + CountContinued(lines) == |lines|
  {
    LinesAreConserved(lines);
  }

  lemma PrefixOfPrefix(lines: seq<string>, m: nat, p: nat)
    requires p < m <= |lines|
    ensures lines[..m][..p] == lines[..p] && lines[..m][p] == lines[p]
  {
  }

  /** The physical line `p` that ends logical line `n`. */
  lemma {:induction false} EndLine(lines: seq<string>, n: nat) returns (p: nat)
    requires n < |Logical(lines)|
    ensures p < |lines| && !Continued(lines[p]) && |Logical(lines[..p])| == n
    ensures Logical(lines)[n] == Join(Unfinished(lines[..p]), lines[p])
    decreases |lines|
  {
    var m := |lines| - 1;
    var before, line := lines[..m], lines[m];
    assert lines == before + [line];
    SpliceStep(before, line);
    if |Logical(before)| == n {
      p := m;
    } else {
      p := EndLine(before, n);
      PrefixOfPrefix(lines, m, p);
    }
  }

  lemma {:induction false} NoneContinued(lines: seq<string>)
    ensures CountContinued(lines) == 0 <==> forall i | 0 <= i < |lines| :: !Continued(lines[i])
  {
    if lines != [] {
      NoneContinued(lines[1..]);
      assert forall i | 0 < i < |lines| :: lines[i] == lines[1..][i - 1];
    }
  }

  /** The unfinished lines start at line `q`; those before them are complete. */
  predicate UnfinishedFrom(lines: seq<string>, q: nat) {
    && q <= |lines| && lines[q..] == Unfinished(lines)
    && Logical(lines[..q]) == Logical(lines) && Unfinished(lines[..q]) == []
  }

  lemma {:induction false} UnfinishedIsLast(lines: seq<string>) returns (q: nat)
    ensures UnfinishedFrom(lines, q)
    decreases |lines|
  {
    q := |lines|;
    if lines != [] {
      var before, line := lines[..|lines| - 1], lines[|lines| - 1];
      assert lines == before + [line];
      if Continued(line) {
        q := UnfinishedIsLast(before);
        OneMoreUnfinished(before, line, q);
      } else {
        NoneUnfinished(before, line);
      }
    }
  }

  lemma OneMoreUnfinished(before: seq<string>, line: string, q: nat)
    requires UnfinishedFrom(before, q) && Continued(line)
    ensures UnfinishedFrom(before + [line], q)
  {
    SpliceStep(before, line);
    PrefixOfAll(before, line, q);
  }

  lemma NoneUnfinished(before: seq<string>, line: string)
    requires !Continued(line)
    ensures UnfinishedFrom(before + [line], |before + [line]|)
  {
    SpliceStep(before, line);
    var all := before + [line];
    assert all[..|all|] == all;
  }

  lemma PrefixOfAll(before: seq<string>, line: string, q: nat)
    requires q <= |before|
    ensures (before + [line])[..q] == before[..q] && (before + [line])[q..] == before[q..] + [line]
  {
  }

  /** The line number of an error, where the failing logical line goes from physical line
      `q` to `p`. Both numbers, `q + 1` and `p + 1`, are ahead of the one reported by the
      continued lines before them. So it is the first line's number exactly when no line
      before the logical one is continued, and the last line's when none before that is. */
  lemma ErrorLineNumber(s: ParserState, file: string, lines: seq<string>) returns (q: nat, p: nat)
    requires s.file != Some(file) && Answer(s, Call.Parse(file, Some(lines))).Err?
    ensures var done := RunLines(s.table, Logical(lines)).done;
            && done < |Logical(lines)| && q <= p < |lines| && AllContinued(lines[q..p])
            && Logical(lines)[done] == Join(lines[q..p], lines[p])
    ensures var lineNo := Answer(s, Call.Parse(file, Some(lines))).error.lineNo;
            && lineNo + CountContinued(lines[..q]) == q + 1
            && lineNo + CountContinued(lines[..p]) == p + 1
            && (lineNo == q + 1 <==> forall i | 0 <= i < q :: !Continued(lines[i]))
            && (lineNo == p + 1 <==> forall i | 0 <= i < p :: !Continued(lines[i]))
  {
    var done := RunLines(s.table, Logical(lines)).done;
    assert Answer(s, Call.Parse(file, Some(lines))).error.lineNo == 1 + done;
    q, p := LineSpan(lines, done);
    CountOfComplete(lines, q);
    CountOfComplete(lines, p);
  }

  /** The physical lines from `q` to `p` that logical line `n` is made of. */
  lemma LineSpan(lines: seq<string>, n: nat) returns (q: nat, p: nat)
    requires n < |Logical(lines)|
    ensures q <= p < |lines| && AllContinued(lines[q..p]) && Logical(lines)[n] == Join(lines[q..p], lines[p])
    ensures |Logical(lines[..q])| == n && |Logical(lines[..p])| == n
  {
    p := EndLine(lines, n);
    var before := lines[..p];
    q := UnfinishedIsLast(before);
    SliceOfPrefix(lines, q, p);
  }

  lemma SliceOfPrefix(lines: seq<string>, q: nat, p: nat)
    requires q <= p <= |lines|
    ensures lines[..p][..q] == lines[..q] && lines[..p][q..] == lines[q..p]
  {
  }

  lemma CountOfComplete(lines: seq<string>, n: nat)
    requires n <= |lines|
    ensures |Logical(lines[..n])| + CountContinued(lines[..n]) == n
    ensures CountContinued(lines[..n]) == 0 <==> forall i | 0 <= i < n :: !Continued(lines[i])
  {
    LinesAreConserved(lines[..n]);
    NoneContinued(lines[..n]);
    assert forall i | 0 <= i < n :: lines[..n][i] == lines[i];
  }
}
