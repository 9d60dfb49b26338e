/** Breaking a definition over several lines does not change the words in it:
    printing a word list with backslash-newlines and parsing it gives the list back. */
module Wrapping {
  import opened Text
  import opened SourceList
  import opened ExpansionLaws

  /** One physical line of the print: white space, then words. */
  datatype Piece = Piece(indent: string, words: seq<string>)

  predicate WordOk(w: string) {
    w != "" && NoSpace(w) && Free(w, '$') && Free(w, '\\')
  }

  predicate PieceOk(p: Piece) {
    AllSpace(p.indent) && forall i | 0 <= i < |p.words| :: WordOk(p.words[i])
  }

  predicate SymbolOk(s: string) {
    s != "" && Free(s, '=') && s[0] != '#' && !IsSpace(s[0]) && !IsSpace(s[|s| - 1])
  }

  function Spaced(words: seq<string>): string {
    if words == [] then "" else Spaced(words[..|words| - 1]) + " " + words[|words| - 1]
  }

  function PieceText(p: Piece): string {
    p.indent + Spaced(p.words)
  }

  /** The words of the first `n` pieces. */
  function Words(pieces: seq<Piece>, n: nat): seq<string>
    requires n <= |pieces|
  {
    if n == 0 then [] else Words(pieces, n - 1) + pieces[n - 1].words
  }

  function AllWords(pieces: seq<Piece>): seq<string> {
    Words(pieces, |pieces|)
  }

  function LineText(head: string, pieces: seq<Piece>, i: nat): string
    requires i < |pieces|
  {
    (if i == 0 then head else "") + PieceText(pieces[i])
  }

  /** The first `n` lines, each ending in a backslash; the first starts with `head`. */
  function ContinuedLines(head: string, pieces: seq<Piece>, n: nat): seq<string>
    requires n <= |pieces|
  {
    if n == 0 then []
    else ContinuedLines(head, pieces, n - 1) + [LineText(head, pieces, n - 1) + " \\"]
  }

  /** `head` and the words of `pieces`, broken after each piece. */
  function Printed(head: string, pieces: seq<Piece>): seq<string>
    requires pieces != []
  {
    ContinuedLines(head, pieces, |pieces| - 1) + [LineText(head, pieces, |pieces| - 1)]
  }

  // -------------------------------------------------------------------- pieces

  lemma {:induction false} SpacedWords(words: seq<string>)
    requires forall i | 0 <= i < |words| :: WordOk(words[i])
    ensures Split(Spaced(words)) == words && Free(Spaced(words), '$') && Free(Spaced(words), '\\')
  {
    if words == [] {
    } else {
      var before, w := words[..|words| - 1], words[|words| - 1];
      SpacedWords(before);
      WordBehind(Spaced(before), w);
      assert words == before + [w];
    }
  }

  lemma WordBehind(text: string, w: string)
    requires WordOk(w)
    ensures Split(text + " " + w) == Split(text) + [w]
  {
    SplitConcat(text, " ", w);
    ScanWord(w, "");
    assert "" + w == w;
  }

  lemma PieceWords(p: Piece)
    requires PieceOk(p)
    ensures Split(PieceText(p)) == p.words && Free(PieceText(p), '$') && Free(PieceText(p), '\\')
  {
    SpacedWords(p.words);
    ScanSpace(p.indent, Spaced(p.words));
    assert forall i | 0 <= i < |p.indent| :: IsSpace(p.indent[i]);
  }

  // ------------------------------------------------------- the pending prefix

  lemma RStripSpaceAfter(p: string)
    ensures RStrip(p + " ") == RStrip(p)
  {
    assert (p + " ")[..|p + " "| - 1] == p;
  }

  lemma PieceLine(head: string, p: string)
    requires head != "" && !IsSpace(head[|head| - 1])
    ensures var line := head + p + " \\";
            Continued(line) && RStrip(DropLast(line)) == head + RStrip(p)
  {
    var line := head + p + " \\";
    assert DropLast(line) == head + (p + " ");
    RStripAfterWord(head, p + " ");
    RStripSpaceAfter(p);
  }

  lemma NextPieceLine(p: string)
    ensures var line := "" + p + " \\";
            Continued(line) && Strip(DropLast(line)) == Strip(p)
  {
    var line := "" + p + " \\";
    assert DropLast(line) == p + " ";
    RStripSpaceAfter(p);
  }

  /** Stripped or not, a piece has its words. */
  lemma StrippedWords(p: Piece)
    requires PieceOk(p)
    ensures Split(RStrip(PieceText(p))) == p.words && Free(RStrip(PieceText(p)), '$')
    ensures Split(LStrip(PieceText(p))) == p.words && Free(LStrip(PieceText(p)), '$')
    ensures Split(Strip(PieceText(p))) == p.words && Free(Strip(PieceText(p)), '$')
  {
    var s := PieceText(p);
    PieceWords(p);
    SplitRStrip(s);
    SplitLStrip(s);
    SplitStrip(s);
    RStripFree(s, '$');
    LStripFree(s, '$');
    LStripFree(RStrip(s), '$');
  }

  lemma TwoTexts(a: string, b: string)
    requires Free(a, '$') && Free(b, '$')
    ensures Split(a + " " + b) == Split(a) + Split(b) && Free(a + " " + b, '$')
  {
    SplitConcat(a, " ", b);
  }

  /** The text of the first `n` lines behind `head`. */
  function Pending(pieces: seq<Piece>, n: nat): string
    requires 0 < n <= |pieces|
  {
    if n == 1 then RStrip(PieceText(pieces[0]))
    else Pending(pieces, n - 1) + " " + Strip(PieceText(pieces[n - 1]))
  }

  /** The unfinished lines amount to `head` and their text. */
  lemma {:induction false} OpenIsPending(head: string, pieces: seq<Piece>, n: nat)
    requires 0 < n <= |pieces| && head != "" && !IsSpace(head[|head| - 1])
    ensures ContinuedLines(head, pieces, n) != [] && AllContinued(ContinuedLines(head, pieces, n))
    ensures Open(ContinuedLines(head, pieces, n)) == head + Pending(pieces, n) + " "
  {
    var p := PieceText(pieces[n - 1]);
    if n == 1 {
      PieceLine(head, p);
      assert ContinuedLines(head, pieces, 1) == [head + p + " \\"];
      OpenFirst(head + p + " \\");
    } else {
      OpenIsPending(head, pieces, n - 1);
      NextPieceLine(p);
      OpenSnoc(ContinuedLines(head, pieces, n - 1), "" + p + " \\");
      ThreeTexts(head, Pending(pieces, n - 1), Strip(p));
    }
  }

  lemma ThreeTexts(a: string, b: string, c: string)
    ensures (a + b + " ") + c == a + (b + " " + c)
  {
  }

  /** That text has exactly the words of the pieces. */
  lemma {:induction false} PendingWords(pieces: seq<Piece>, n: nat)
    requires 0 < n <= |pieces| && forall i | 0 <= i < |pieces| :: PieceOk(pieces[i])
    ensures Split(Pending(pieces, n)) == Words(pieces, n) && Free(Pending(pieces, n), '$')
  {
    StrippedWords(pieces[n - 1]);
    if n == 1 {
      assert Words(pieces, 1) == [] + pieces[0].words == pieces[0].words;
    } else {
      PendingWords(pieces, n - 1);
      TwoTexts(Pending(pieces, n - 1), Strip(PieceText(pieces[n - 1])));
    }
  }

  /** The text of the whole print behind `head`. */
  function Body(pieces: seq<Piece>): string
    requires pieces != []
  {
    var n := |pieces| - 1;
    if n == 0 then PieceText(pieces[0]) else Pending(pieces, n) + " " + LStrip(PieceText(pieces[n]))
  }

  lemma BodyWords(pieces: seq<Piece>)
    requires pieces != [] && forall i | 0 <= i < |pieces| :: PieceOk(pieces[i])
    ensures Split(Body(pieces)) == AllWords(pieces) && Free(Body(pieces), '$')
  {
    var n := |pieces| - 1;
    if n == 0 {
      PieceWords(pieces[0]);
      assert Words(pieces, 1) == [] + pieces[0].words == pieces[0].words;
    } else {
      PendingWords(pieces, n);
      StrippedWords(pieces[n]);
      TwoTexts(Pending(pieces, n), LStrip(PieceText(pieces[n])));
    }
  }

  /** The print is one logical line: `head`, then the text. */
  lemma PrintedIsOneLine(head: string, pieces: seq<Piece>)
    requires pieces != [] && head != "" && !IsSpace(head[|head| - 1]) && head[|head| - 1] != '\\'
    requires PieceOk(pieces[|pieces| - 1])
    ensures Logical(Printed(head, pieces)) == [head + Body(pieces)]
  {
    var n := |pieces| - 1;
    var p := PieceText(pieces[n]);
    PieceWords(pieces[n]);
    if n == 0 {
      NotContinued(head, p);
      OneGroup([], head + p);
    } else {
      OpenIsPending(head, pieces, n);
      assert LineText(head, pieces, n) == p;
      OneGroup(ContinuedLines(head, pieces, n), p);
      ThreeTexts(head, Pending(pieces, n), LStrip(p));
    }
  }

  lemma NotContinued(head: string, p: string)
    requires head != "" && head[|head| - 1] != '\\' && Free(p, '\\')
    ensures !Continued(head + p)
  {
    var line := head + p;
    assert line[|line| - 1] == if p == "" then head[|head| - 1] else p[|p| - 1];
  }

  lemma OneGroup(lines: seq<string>, last: string)
    requires AllContinued(lines) && !Continued(last)
    ensures Logical(lines + [last]) == [Join(lines, last)]
  {
    AllContinuedLogical(lines);
    SpliceStep(lines, last);
  }

  lemma {:induction false} AllContinuedLogical(lines: seq<string>)
    requires AllContinued(lines)
    ensures GroupEnd(lines) == |lines|
    ensures Logical(lines) == [] && Unfinished(lines) == lines
  {
    if lines != [] {
      AllContinuedLogical(lines[1..]);
    }
  }

  // ------------------------------------------------------------ the definition

  lemma StripSymbol(sym: string)
    requires SymbolOk(sym)
    ensures Strip(sym + " ") == sym
  {
    RStripSpaceAfter(sym);
  }

  /** The first `=` of a line, and what stands before and behind it. */
  lemma SplitAtEquals(left: string, text: string)
    requires Free(left, '=')
    ensures var line := left + "=" + text;
            Find(line, '=') == |left| && line[..|left|] == left && line[|left| + 1..] == text
  {
    var line := left + "=" + text;
    assert line == left + ("=" + text);
    FindAfter(left, "=" + text, '=');
    assert Find("=" + text, '=') == 0;
  }

  lemma ParseAssignment(left: string, text: string)
    requires left != "" && Free(left, '=')
    requires left[|left| - 1] == ' ' || left[|left| - 1] == ':'
    ensures ParseDefinition(left + "=" + text) ==
            if left[|left| - 1] == ':' then Ok(Definition(AssignNow, Strip(left[..|left| - 1]), LStrip(text)))
            else Ok(Definition(Assign, Strip(left), LStrip(text)))
  {
    var line := left + "=" + text;
    SplitAtEquals(left, text);
    assert line[|left| - 1] == left[|left| - 1];
    assert line[..|left| - 1] == left[..|left| - 1];
  }

  function Head(sym: string, colon: bool): string {
    sym + if colon then " :=" else " ="
  }

  lemma ClassifyAssignment(left: string, text: string)
    requires left != "" && Free(left, '=') && !IsSpace(left[0]) && left[0] != '#'
    requires left[|left| - 1] == ' ' || left[|left| - 1] == ':'
    ensures ParseDefinition(left + "=" + text).Ok?
    ensures Classify(left + "=" + text) == Define(ParseDefinition(left + "=" + text).value)
  {
    assert (left + "=" + text)[0] == left[0];
    ParseAssignment(left, text);
  }

  lemma ClassifyDefinition(sym: string, colon: bool, text: string)
    requires SymbolOk(sym)
    ensures Classify(Head(sym, colon) + text) ==
            Define(Definition(if colon then AssignNow else Assign, sym, LStrip(text)))
  {
    StripSymbol(sym);
    if colon {
      var left := sym + " :";
      assert Head(sym, true) + text == left + "=" + text;
      assert left[..|left| - 1] == sym + " ";
      ClassifyAssignment(left, text);
      ParseAssignment(left, text);
    } else {
      var left := sym + " ";
      assert Head(sym, false) + text == left + "=" + text;
      ClassifyAssignment(left, text);
      ParseAssignment(left, text);
    }
  }

  /** Printing words behind `SYM =` or `SYM :=`, broken at any word boundaries and
      indented at will, and parsing the lines back sets SYM to a value whose words
      are exactly the ones printed, whatever the table was. */
  lemma WrappedWordsRoundTrip(t: Table, sym: string, colon: bool, pieces: seq<Piece>)
    requires SymbolOk(sym) && pieces != []
    requires forall i | 0 <= i < |pieces| :: PieceOk(pieces[i])
    ensures var o := RunLines(t, Logical(Printed(Head(sym, colon), pieces)));
            && o.failure.None? && o.table.Keys == t.Keys + {sym}
            && Split(o.table[sym]) == AllWords(pieces)
            && forall s | s in t && s != sym :: o.table[s] == t[s]
  {
    var text := Body(pieces);
    PrintedIsOneLine(Head(sym, colon), pieces);
    BodyWords(pieces);
    DefinitionRuns(t, sym, colon, text);
    SplitLStrip(text);
  }

  lemma DefinitionRuns(t: Table, sym: string, colon: bool, text: string)
    requires SymbolOk(sym) && Free(text, '$')
    ensures RunLines(t, [Head(sym, colon) + text]) == Outcome(t[sym := LStrip(text)], 1, None)
  {
    ClassifyDefinition(sym, colon, text);
    LStripFree(text, '$');
    FindFree(LStrip(text), '$');
    RunSnoc(t, [], Head(sym, colon) + text);
    assert [] + [Head(sym, colon) + text] == [Head(sym, colon) + text];
  }

  /** Where the lines are broken does not matter. */
  lemma WrappingIsInvariant(t: Table, sym: string, colon: bool, a: seq<Piece>, b: seq<Piece>)
    requires SymbolOk(sym) && a != [] && b != [] && AllWords(a) == AllWords(b)
    requires forall i | 0 <= i < |a| :: PieceOk(a[i])
    requires forall i | 0 <= i < |b| :: PieceOk(b[i])
    ensures var x := RunLines(t, Logical(Printed(Head(sym, colon), a))).table;
            var y := RunLines(t, Logical(Printed(Head(sym, colon), b))).table;
            sym in x && sym in y && Split(x[sym]) == Split(y[sym])
  {
    WrappedWordsRoundTrip(t, sym, colon, a);
    WrappedWordsRoundTrip(t, sym, colon, b);
  }
}
