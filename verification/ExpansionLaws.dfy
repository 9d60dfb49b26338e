/** What single-pass expansion computes, and why one pass is enough. */
module ExpansionLaws {
  import opened Text
  import opened SourceList

  // ---------------------------------------------- expansion is a substitution

  /** A text as its parts: a literal, then perhaps a reference and another text. */
  datatype Template = Last(text: string) | Part(text: string, name: string, rest: Template)

  predicate WellFormed(p: Template) {
    && Free(p.text, '$')
    && (p.Part? ==> Free(p.name, ')') && WellFormed(p.rest))
  }

  function Render(p: Template): string {
    match p
    case Last(text) => text
    case Part(text, name, rest) => text + ("$(" + name + ")" + Render(rest))
  }

  /** The first undefined reference is the error. */
  function Substitute(t: Table, p: Template): Result<string, Kind> {
    match p
    case Last(text) => Ok(text)
    case Part(text, name, rest) =>
      if name in t then Prepend(text, Prepend(t[name], Substitute(t, rest))) else Err(KeyError(name))
  }

  /** Text without `$` in front only shifts the next reference. */
  lemma NextDereferenceAfter(s: string, rest: string)
    requires Free(s, '$')
    ensures var d, e := NextDereference(s + rest, 0), NextDereference(rest, 0);
            d == if e.At? then At(|s| + e.start, |s| + e.end) else e
  {
    FindAfter(s, rest, '$');
    var start := Find(rest, '$');
    if start >= 0 && start + 2 <= |rest| {
      FindInRest(s + rest, ')', |s|, start + 2);
      assert (s + rest)[|s|..] == rest;
    }
  }

  /** ... so the parts around that reference are the same. */
  lemma DereferenceAfterParts(s: string, rest: string)
    requires Free(s, '$') && NextDereference(rest, 0).At?
    ensures var val, d, e := s + rest, NextDereference(s + rest, 0), NextDereference(rest, 0);
            && d.At?
            && val[d.start + 2..d.end - 1] == rest[e.start + 2..e.end - 1]
            && val[..d.start] == s + rest[..e.start]
            && val[d.end..] == rest[e.end..]
  {
    NextDereferenceAfter(s, rest);
  }

  lemma ExpandLiteral(t: Table, s: string, rest: string)
    requires Free(s, '$')
    ensures Expand(t, s + rest) == Prepend(s, Expand(t, rest))
  {
    NextDereferenceAfter(s, rest);
    var e := NextDereference(rest, 0);
    if e.At? {
      DereferenceAfterParts(s, rest);
      var sym := rest[e.start + 2..e.end - 1];
      if sym in t {
        PrependAfter(s, rest[..e.start], t[sym], Expand(t, rest[e.end..]));
      }
    }
  }

  lemma ReferenceParts(name: string, rest: string)
    requires Free(name, ')')
    ensures var val := "$(" + name + ")" + rest;
            && NextDereference(val, 0) == At(0, |name| + 3)
            && val[2..|name| + 2] == name && val[|name| + 3..] == rest && val[..0] == ""
  {
    var val := "$(" + name + ")" + rest;
    assert val[0] == '$' && val[1] == '(' && val[|name| + 2] == ')';
    assert forall k | 2 <= k < |name| + 2 :: val[k] == name[k - 2];
    FindSkips(val, ')', 2, |name| + 2);
  }

  lemma ExpandReference(t: Table, name: string, rest: string)
    requires Free(name, ')')
    ensures Expand(t, "$(" + name + ")" + rest) ==
            if name in t then Prepend(t[name], Expand(t, rest)) else Err(KeyError(name))
  {
    ReferenceParts(name, rest);
    if name in t {
      assert "" + t[name] == t[name];
    }
  }

  /** Expanding a printed template puts the values in the places of the references
      and copies everything else, for every table and every template. */
  lemma {:induction false} ExpandIsSubstitution(t: Table, p: Template)
    requires WellFormed(p)
    ensures Expand(t, Render(p)) == Substitute(t, p)
  {
    match p
    case Last(text) =>
      FindFree(text, '$');
    case Part(text, name, rest) =>
      ExpandIsSubstitution(t, rest);
      ExpandLiteral(t, text, "$(" + name + ")" + Render(rest));
      ExpandReference(t, name, Render(rest));
  }

  /** The parts of a text, or what is wrong with it. */
  function Parse(val: string): Result<Template, Kind>
    decreases |val|
  {
    var d := NextDereference(val, 0);
    if d.NoDereference? then Ok(Last(val))
    else if d.Malformed? then Err(d.kind)
    else
      var rest := Parse(val[d.end..]);
      if rest.Err? then rest else Ok(Part(val[..d.start], val[d.start + 2..d.end - 1], rest.value))
  }

  lemma Cut(s: string, i: nat, j: nat)
    requires i <= j <= |s|
    ensures s[i..] == s[i..j] + s[j..]
  {
  }

  lemma CutReference(val: string, i: nat, e: nat)
    requires i + 3 <= e <= |val| && val[i] == '$' && val[i + 1] == '(' && val[e - 1] == ')'
    ensures val == val[..i] + ("$(" + val[i + 2..e - 1] + ")" + val[e..])
  {
    Cut(val, i, i + 2);
    Cut(val, i + 2, e - 1);
    Cut(val, e - 1, e);
    assert val[i..i + 2] == "$(" && val[e - 1..e] == ")";
    var name, rest := val[i + 2..e - 1], val[e..];
    assert "$(" + (name + (")" + rest)) == "$(" + name + ")" + rest;
    assert val == val[..i] + val[i..];
  }

  lemma DereferenceFree(val: string)
    requires NextDereference(val, 0).At?
    ensures var d := NextDereference(val, 0);
            Free(val[..d.start], '$') && Free(val[d.start + 2..d.end - 1], ')')
  {
    var d := NextDereference(val, 0);
    FindFirst(val, '$', 0);
    FindFirst(val, ')', d.start + 2);
  }

  lemma DereferenceText(val: string)
    requires NextDereference(val, 0).At?
    ensures var d := NextDereference(val, 0);
            val == val[..d.start] + ("$(" + val[d.start + 2..d.end - 1] + ")" + val[d.end..])
  {
    var d := NextDereference(val, 0);
    CutReference(val, d.start, d.end);
  }

  /** Every text that lexes is the print of a well-formed template. */
  lemma {:induction false} RenderParse(val: string)
    requires Parse(val).Ok?
    ensures WellFormed(Parse(val).value) && Render(Parse(val).value) == val
    decreases |val|
  {
    var d := NextDereference(val, 0);
    if d.At? {
      RenderParse(val[d.end..]);
      DereferenceFree(val);
      DereferenceText(val);
    } else {
      FindFree(val, '$');
    }
  }

  /** Expansion succeeds exactly on the texts that lex and name only defined symbols. */
  lemma {:induction false} ExpandSucceeds(t: Table, val: string)
    ensures Expand(t, val).Ok? <==> Parse(val).Ok? && forall s | s in References(val) :: s in t
    decreases |val|
  {
    var d := NextDereference(val, 0);
    if d.At? {
      ExpandSucceeds(t, val[d.end..]);
    }
  }

  /** The symbols named by the `$(...)` parts of a text. */
  function References(val: string): set<string>
    decreases |val|
  {
    var d := NextDereference(val, 0);
    if d.At? then {val[d.start + 2..d.end - 1]} + References(val[d.end..]) else {}
  }

  // ------------------------------------------------ the table stays expanded

  predicate DollarFree(t: Table) {
    forall s | s in t :: Free(t[s], '$')
  }

  /** Expanded text has no `$` left, so expanding it again changes nothing. */
  lemma {:induction false} ExpandIsIdempotent(t: Table, val: string)
    requires DollarFree(t) && Expand(t, val).Ok?
    ensures Free(Expand(t, val).value, '$')
    ensures Expand(t, Expand(t, val).value) == Expand(t, val)
    decreases |val|
  {
    var d := NextDereference(val, 0);
    FindFree(val, '$');
    if d.At? {
      DereferenceFree(val);
      ExpandIsIdempotent(t, val[d.end..]);
    }
    FindFree(Expand(t, val).value, '$');
  }

  lemma EffectKeepsDollarFree(t: Table, line: string)
    requires DollarFree(t) && Effect(t, line).Ok?
    ensures DollarFree(Effect(t, line).value)
  {
    var c := Classify(line);
    if c.Define? {
      ExpandIsIdempotent(t, c.def.raw);
    }
  }

  lemma {:induction false} LinesKeepDollarFree(t: Table, lines: seq<string>)
    requires DollarFree(t)
    ensures DollarFree(RunLines(t, lines).table)
  {
    if lines != [] {
      var n := |lines| - 1;
      LinesKeepDollarFree(t, lines[..n]);
      var o := RunLines(t, lines[..n]);
      if o.failure.None? && Effect(o.table, lines[n]).Ok? {
        EffectKeepsDollarFree(o.table, lines[n]);
      }
    }
  }

  predicate AddsOnlyDollarFree(calls: seq<Call>) {
    forall i | 0 <= i < |calls| && calls[i].AddSymbol? :: Free(calls[i].value, '$')
  }

  /** In every reachable state every stored value is fully expanded. */
  lemma {:induction false} ReachableTablesAreExpanded(calls: seq<Call>)
    requires AddsOnlyDollarFree(calls)
    ensures DollarFree(Run(Initial(), calls).table)
    ensures forall s | s in Run(Initial(), calls).table ::
              var t := Run(Initial(), calls).table; Expand(t, t[s]) == Ok(t[s])
  {
    if calls != [] {
      var n := |calls| - 1;
      ReachableTablesAreExpanded(calls[..n]);
      var s := Run(Initial(), calls[..n]);
      if calls[n].Parse? && calls[n].lines.Some? {
        LinesKeepDollarFree(s.table, Logical(calls[n].lines.value));
      }
    }
    var t := Run(Initial(), calls).table;
    forall s | s in t
      ensures Expand(t, t[s]) == Ok(t[s])
    {
      FindFree(t[s], '$');
    }
  }
}
