/** What each form of a logical line does to the table, over the text of the line. */
module LineForms {
  import opened Text
  import opened SourceList
  import opened Wrapping

  /** White space, then a line that starts with a visible character. */
  lemma VisibleText(w: string, text: string)
    requires AllSpace(w) && text != "" && !IsSpace(text[0])
    ensures w + text != "" && LStrip(w + text) == text
    ensures (w + text)[0] == '\t' <==> w != "" && w[0] == '\t'
  {
    LStripSpaces(w, text);
    assert w == "" ==> w + text == text;
  }

  /** A comment does nothing, also behind a tab. */
  lemma CommentDoesNothing(t: Table, w: string, rest: string)
    requires AllSpace(w)
    ensures Effect(t, w + ("#" + rest)) == Ok(t)
  {
    VisibleText(w, "#" + rest);
  }

  /** So does an empty line; white space alone is an error. */
  lemma BlankLines(t: Table, w: string)
    requires AllSpace(w)
    ensures Effect(t, "") == Ok(t)
    ensures w != "" ==> Effect(t, w) == Err(IndexError)
  {
    LStripSpaces(w, "");
    assert w + "" == w;
  }

  /** A tab starts a recipe line, which is an error, unless a comment follows. */
  lemma TabStartsRecipe(t: Table, w: string, text: string)
    requires AllSpace(w) && text != "" && !IsSpace(text[0]) && text[0] != '#'
    ensures Effect(t, "\t" + w + text) == Err(RecipeLine)
  {
    VisibleText("\t" + w, text);
  }

  /** Text without `=`, or with nothing before it, is no definition. */
  lemma NoDefinition(t: Table, w: string, text: string)
    requires AllSpace(w) && (w == "" || w[0] != '\t')
    requires text != "" && !IsSpace(text[0]) && text[0] != '#'
    ensures Free(text, '=') ==> Effect(t, w + text) == Err(NotADefinition)
    ensures text[0] == '=' ==> Effect(t, w + text) == Err(UnsupportedOperator)
  {
    VisibleText(w, text);
    FindFree(text, '=');
  }

  /** What an operator does, with the value of the text behind it. */
  function Assigned(t: Table, sym: string, op: string, v: Result<string, Kind>): Result<Table, Kind> {
    if v.Err? then Err(v.error)
    else if op == "+=" then
      if sym in t then Ok(t[sym := t[sym] + " " + v.value]) else Err(KeyError(sym))
    else if op == "?=" && sym in t then Ok(t)
    else Ok(t[sym := v.value])
  }

  /** An operator is taken for a longer one only if the symbol stands right before it. */
  predicate Separated(sym: string, space: string, op: string) {
    op == "=" && space == "" && sym != "" ==> sym[|sym| - 1] != ':' && sym[|sym| - 1] != '+' && sym[|sym| - 1] != '?'
  }

  predicate IsOperator(op: string) {
    op == "=" || op == ":=" || op == "+=" || op == "?="
  }

  /** The first `=` of a definition is that of its operator. */
  lemma FirstEquals(left: string, text: string)
    requires Free(left, '=')
    ensures var line := left + ("=" + text);
            Find(line, '=') == |left| && line[..|left|] == left && line[|left| + 1..] == text
  {
    FindAfter(left, "=" + text, '=');
    assert Find("=" + text, '=') == 0;
  }

  /** An operator of two characters. */
  lemma LongOperator(name: string, c: char, text: string, line: string)
    requires Free(name, '=') && (c == ':' || c == '+' || c == '?') && line == (name + [c]) + ("=" + text)
    ensures ParseDefinition(line) ==
            Ok(Definition(if c == ':' then AssignNow else if c == '+' then Append else AssignIfUnset, Strip(name), LStrip(text)))
  {
    FirstEquals(name + [c], text);
    assert line[|name|] == c;
    assert line[..|name|] == name;
  }

  lemma PlainOperator(name: string, text: string, line: string)
    requires Free(name, '=') && name != "" && line == name + ("=" + text)
    requires var c := name[|name| - 1]; c != ':' && c != '+' && c != '?'
    ensures ParseDefinition(line) == Ok(Definition(Assign, Strip(name), LStrip(text)))
  {
    FirstEquals(name, text);
    assert line[|name| - 1] == name[|name| - 1];
  }

  lemma StripName(sym: string, space: string)
    requires SymbolOk(sym) && AllSpace(space)
    ensures Strip(sym + space) == sym && Free(sym + space, '=') && sym + space != ""
  {
    RStripSpaces(sym, space);
    LStripSpaces("", sym);
    assert "" + sym == sym;
  }

  function Operator(op: string): Op {
    if op == "=" then Assign else if op == ":=" then AssignNow else if op == "+=" then Append else AssignIfUnset
  }

  lemma DefinitionParts(sym: string, space: string, op: string, text: string, line: string)
    requires SymbolOk(sym) && AllSpace(space) && IsOperator(op) && Separated(sym, space, op)
    requires line == sym + space + op + text
    ensures ParseDefinition(line) == Ok(Definition(Operator(op), sym, LStrip(text)))
  {
    var name := sym + space;
    StripName(sym, space);
    if op == "=" {
      assert name[|name| - 1] == if space == "" then sym[|sym| - 1] else space[|space| - 1];
      assert line == name + ("=" + text);
      PlainOperator(name, text, line);
    } else {
      assert op == [op[0]] + "=";
      assert line == (name + [op[0]]) + ("=" + text);
      LongOperator(name, op[0], text, line);
    }
  }

  /** A definition: white space, a symbol, perhaps more white space, one of the four
      operators, and the text. */
  lemma DefinitionTakesEffect(t: Table, w: string, sym: string, space: string, op: string, text: string)
    requires AllSpace(w) && (w == "" || w[0] != '\t')
    requires SymbolOk(sym) && AllSpace(space) && IsOperator(op) && Separated(sym, space, op)
    ensures Effect(t, w + (sym + space + op + text)) == Assigned(t, sym, op, Expand(t, LStrip(text)))
  {
    var line := sym + space + op + text;
    assert line[0] == sym[0];
    DefinitionParts(sym, space, op, text, line);
    ClassifiedAs(w, line, Definition(Operator(op), sym, LStrip(text)));
  }

  lemma ClassifiedAs(w: string, line: string, d: Definition)
    requires AllSpace(w) && (w == "" || w[0] != '\t')
    requires line != "" && !IsSpace(line[0]) && line[0] != '#' && ParseDefinition(line) == Ok(d)
    ensures Classify(w + line) == Define(d)
  {
    VisibleText(w, line);
  }
}
