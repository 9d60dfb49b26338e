/** The parser expands values when it reads them. GNU Make defers: the text of
    `=`, `?=` and `+=` is stored as written and expanded, recursively, when it is
    needed. This module has such a reference interpreter and shows when the two
    agree (GNU Make manual, section 6.2, "The Two Flavors of Variables"). */
module DeferredExpansion {
  import opened Text
  import opened SourceList
  import opened ExpansionLaws

  // --------------------------------------------------- a deferred interpreter

  datatype Variable = Simple(text: string) | Recursive(raw: string)

  type Variables = map<string, Variable>

  /** `val` with its references expanded in depth. While a symbol is expanded it
      is not visible, so a variable that needs itself is an error, as in Make. */
  function Deep(t: Variables, val: string): Result<string, Kind>
    decreases |t|, |val|
  {
    match NextDereference(val, 0)
    case NoDereference => Ok(val)
    case Malformed(e) => Err(e)
    case At(start, end) =>
      var sym := val[start + 2..end - 1];
      match Meaning(t, sym)
      case Err(e) => Err(e)
      case Ok(v) => Prepend(val[..start] + v, Deep(t, val[end..]))
  }

  /** The value of one variable. */
  function Meaning(t: Variables, sym: string): Result<string, Kind>
    decreases |t|, 0
  {
    if sym !in t then Err(KeyError(sym))
    else
      match t[sym]
      case Simple(text) => Ok(text)
      case Recursive(raw) => FewerKeys(t, sym); Deep(t - {sym}, raw)
  }

  lemma FewerKeys(t: Variables, sym: string)
    requires sym in t
    ensures |t - {sym}| < |t|
  {
    assert (t - {sym}).Keys == t.Keys - {sym};
  }

  function Defer(t: Variables, d: Definition): Result<Variables, Kind> {
    match d.op
    case Assign => Ok(t[d.sym := Recursive(d.raw)])
    case AssignNow =>
      (match Deep(t, d.raw)
       case Err(e) => Err(e)
       case Ok(v) => Ok(t[d.sym := Simple(v)]))
    case AssignIfUnset => Ok(if d.sym in t then t else t[d.sym := Recursive(d.raw)])
    case Append =>
      if d.sym !in t then Err(KeyError(d.sym))
      else
        match t[d.sym]
        case Recursive(raw) => Ok(t[d.sym := Recursive(raw + (" " + d.raw))])
        case Simple(text) =>
          match Deep(t, d.raw)
          case Err(e) => Err(e)
          case Ok(v) => Ok(t[d.sym := Simple(text + " " + v)])
  }

  function DeferLine(t: Variables, line: string): Result<Variables, Kind> {
    match Classify(line)
    case Ignored => Ok(t)
    case Rejected(e) => Err(e)
    case Define(d) => Defer(t, d)
  }

  function DeferLines(t: Variables, lines: seq<string>): Result<Variables, Kind> {
    if lines == [] then Ok(t)
    else
      match DeferLines(t, lines[..|lines| - 1])
      case Err(e) => Err(e)
      case Ok(t') => DeferLine(t', lines[|lines| - 1])
  }

  /** Symbols given to the parser before a file is read have their final value. */
  function Given(t: Table): Variables {
    map s | s in t :: Simple(t[s])
  }

  // ---------------------------------------------------- when the two can agree

  function LineReferences(line: string): set<string> {
    var c := Classify(line);
    if c.Define? then References(c.def.raw) else {}
  }

  /** A `?=` line sets nothing that a reference before it could have seen. */
  predicate Sets(line: string, sym: string) {
    var c := Classify(line);
    c.Define? && c.def.sym == sym && c.def.op != AssignIfUnset
  }

  /** No line sets a symbol that it or an earlier line refers to. */
  predicate Settled(lines: seq<string>) {
    forall i, j | 0 <= i <= j < |lines| :: forall s | s in LineReferences(lines[i]) :: !Sets(lines[j], s)
  }

  /** `t` means what the eager table says. */
  predicate Agree(eager: Table, t: Variables) {
    t.Keys == eager.Keys && forall s | s in eager :: Meaning(t, s) == Ok(eager[s])
  }

  // ------------------------------------------------------- lemmas about `Deep`

  predicate Below(a: Variables, b: Variables) {
    forall s | s in a :: s in b && b[s] == a[s]
  }

  /** More variables never change a value that was already found. */
  lemma {:induction false} DeepMonotone(a: Variables, b: Variables, val: string)
    requires Below(a, b) && Deep(a, val).Ok?
    ensures Deep(b, val) == Deep(a, val)
    decreases |a|, |val|
  {
    var d := NextDereference(val, 0);
    if d.At? {
      MeaningMonotone(a, b, val[d.start + 2..d.end - 1]);
      DeepMonotone(a, b, val[d.end..]);
    }
  }

  lemma {:induction false} MeaningMonotone(a: Variables, b: Variables, sym: string)
    requires Below(a, b) && Meaning(a, sym).Ok?
    ensures Meaning(b, sym) == Meaning(a, sym)
    decreases |a|, 0
  {
    if a[sym].Recursive? {
      FewerKeys(a, sym);
      DeepMonotone(a - {sym}, b - {sym}, a[sym].raw);
    }
  }

  /** `sym` is named by no stored text. */
  predicate Unused(t: Variables, sym: string) {
    forall s | s in t && t[s].Recursive? :: sym !in References(t[s].raw)
  }

  /** A variable that nothing refers to can be taken away. */
  lemma {:induction false} DeepIrrelevant(t: Variables, sym: string, val: string)
    requires Unused(t, sym) && sym !in References(val)
    ensures Deep(t - {sym}, val) == Deep(t, val)
    decreases |t|, |val|
  {
    var d := NextDereference(val, 0);
    if d.At? {
      MeaningIrrelevant(t, sym, val[d.start + 2..d.end - 1]);
      DeepIrrelevant(t, sym, val[d.end..]);
    }
  }

  lemma {:induction false} MeaningIrrelevant(t: Variables, sym: string, s: string)
    requires Unused(t, sym) && s != sym
    ensures Meaning(t - {sym}, s) == Meaning(t, s)
    decreases |t|, 0
  {
    if s in t && t[s].Recursive? {
      FewerKeys(t, s);
      assert (t - {sym}) - {s} == (t - {s}) - {sym};
      DeepIrrelevant(t - {s}, sym, t[s].raw);
    }
  }

  lemma NextDereferenceInPrefix(a: string, b: string)
    requires NextDereference(a, 0).At?
    ensures NextDereference(a + b, 0) == NextDereference(a, 0)
  {
    FindInPrefix(a, b, '$', 0);
    FindInPrefix(a, b, ')', NextDereference(a, 0).start + 2);
  }

  /** Text appended behind a reference changes only what follows the reference. */
  lemma PrefixParts(a: string, b: string)
    requires NextDereference(a, 0).At?
    ensures var d, val := NextDereference(a, 0), a + b;
            && NextDereference(val, 0) == d
            && val[..d.start] == a[..d.start]
            && val[d.start + 2..d.end - 1] == a[d.start + 2..d.end - 1]
            && val[d.end..] == a[d.end..] + b
  {
    NextDereferenceInPrefix(a, b);
  }

  /** Deep expansion works through a concatenation from left to right. */
  lemma {:induction false} DeepConcat(t: Variables, a: string, b: string)
    requires Deep(t, a).Ok?
    ensures Deep(t, a + b) == Prepend(Deep(t, a).value, Deep(t, b))
    decreases |a|
  {
    var d := NextDereference(a, 0);
    if d.At? {
      PrefixParts(a, b);
      DeepConcat(t, a[d.end..], b);
      var head := a[..d.start] + Meaning(t, a[d.start + 2..d.end - 1]).value;
      PrependTwice(head, Deep(t, a[d.end..]).value, Deep(t, b));
    } else {
      FindFree(a, '$');
      DeepLiteral(t, a, b);
    }
  }

  /** The expansion of a text whose first reference has the parts given. */
  lemma DeepAt(t: Variables, val: string, head: string, sym: string, tail: string)
    requires NextDereference(val, 0).At?
    requires var d := NextDereference(val, 0);
             head == val[..d.start] && sym == val[d.start + 2..d.end - 1] && tail == val[d.end..]
    ensures |tail| < |val|
    ensures Deep(t, val) ==
            var m := Meaning(t, sym);
            if m.Ok? then Prepend(head + m.value, Deep(t, tail)) else m
  {
  }

  lemma DeepLiteralAt(t: Variables, s: string, rest: string)
    requires Free(s, '$') && NextDereference(rest, 0).At?
    ensures Deep(t, s + rest) == Prepend(s, Deep(t, rest))
  {
    var e := NextDereference(rest, 0);
    var head, sym, tail := rest[..e.start], rest[e.start + 2..e.end - 1], rest[e.end..];
    DereferenceAfterParts(s, rest);
    DeepAt(t, rest, head, sym, tail);
    DeepAt(t, s + rest, s + head, sym, tail);
    var m := Meaning(t, sym);
    if m.Ok? {
      PrependAfter(s, head, m.value, Deep(t, tail));
    }
  }

  lemma DeepLiteral(t: Variables, s: string, rest: string)
    requires Free(s, '$')
    ensures Deep(t, s + rest) == Prepend(s, Deep(t, rest))
  {
    NextDereferenceAfter(s, rest);
    if NextDereference(rest, 0).At? {
      DeepLiteralAt(t, s, rest);
    }
  }

  lemma ReferencesLiteral(s: string, rest: string)
    requires Free(s, '$')
    ensures References(s + rest) == References(rest)
  {
    NextDereferenceAfter(s, rest);
    if NextDereference(rest, 0).At? {
      DereferenceAfterParts(s, rest);
    }
  }

  lemma {:induction false} ReferencesConcat(t: Variables, a: string, b: string)
    requires Deep(t, a).Ok?
    ensures References(a + b) == References(a) + References(b)
    decreases |a|
  {
    var d := NextDereference(a, 0);
    if d.At? {
      PrefixParts(a, b);
      ReferencesConcat(t, a[d.end..], b);
    } else {
      FindFree(a, '$');
      ReferencesLiteral(a, b);
    }
  }

  /** One eager pass over `val` gives what deep expansion gives. */
  lemma {:induction false} EagerIsDeep(eager: Table, t: Variables, val: string)
    requires Agree(eager, t) && Expand(eager, val).Ok?
    ensures Deep(t, val) == Expand(eager, val)
    decreases |val|
  {
    var d := NextDereference(val, 0);
    if d.At? {
      EagerIsDeep(eager, t, val[d.end..]);
    }
  }

  // --------------------------------------------------------- one line, a file

  /** Storing a text under a symbol that nothing refers to changes no other value. */
  lemma OthersKeepTheirMeaning(t: Variables, sym: string, v: Variable, s: string)
    requires Unused(t, sym) && s != sym && Meaning(t, s).Ok?
    ensures Meaning(t[sym := v], s) == Meaning(t, s)
  {
    MeaningIrrelevant(t, sym, s);
    MeaningMonotone(t - {sym}, t[sym := v], s);
  }

  /** A text that does not refer to `sym` means the same inside `sym` as outside. */
  lemma StoredMeaning(t: Variables, sym: string, raw: string)
    requires Unused(t, sym) && sym !in References(raw)
    ensures Meaning(t[sym := Recursive(raw)], sym) == Deep(t, raw)
  {
    FewerKeys(t[sym := Recursive(raw)], sym);
    assert t[sym := Recursive(raw)] - {sym} == t - {sym};
    DeepIrrelevant(t, sym, raw);
  }

  /** Appending text: its deep value goes behind the old one. */
  lemma DeepAppended(eager: Table, t: Variables, a: string, va: string, raw: string)
    requires Agree(eager, t) && Deep(t, a) == Ok(va) && Expand(eager, raw).Ok?
    ensures Deep(t, a + (" " + raw)) == Ok(va + " " + Expand(eager, raw).value)
  {
    var v := Expand(eager, raw).value;
    EagerIsDeep(eager, t, raw);
    DeepLiteral(t, " ", raw);
    DeepConcat(t, a, " " + raw);
    PrependTwice(va, " ", Ok(v));
  }

  lemma AppendedReferences(t: Variables, a: string, raw: string)
    requires Deep(t, a).Ok?
    ensures References(a + (" " + raw)) == References(a) + References(raw)
  {
    ReferencesConcat(t, a, " " + raw);
    ReferencesLiteral(" ", raw);
  }

  lemma OwnMeaning(t: Variables, sym: string)
    requires Unused(t, sym) && sym in t && t[sym].Recursive?
    ensures Meaning(t, sym) == Deep(t, t[sym].raw)
  {
    FewerKeys(t, sym);
    DeepIrrelevant(t, sym, t[sym].raw);
  }

  lemma AppendedMeaning(eager: Table, t: Variables, sym: string, raw: string)
    requires Agree(eager, t) && Unused(t, sym) && sym !in References(raw)
    requires sym in t && t[sym].Recursive? && Expand(eager, raw).Ok?
    ensures Meaning(t[sym := Recursive(t[sym].raw + (" " + raw))], sym) ==
            Ok(eager[sym] + " " + Expand(eager, raw).value)
  {
    var before := t[sym].raw;
    OwnMeaning(t, sym);
    AppendedReferences(t, before, raw);
    StoredMeaning(t, sym, before + (" " + raw));
    DeepAppended(eager, t, before, eager[sym], raw);
  }

  /** One definition keeps the two interpreters in agreement. */
  lemma DeferAgrees(eager: Table, t: Variables, d: Definition)
    requires Agree(eager, t) && Execute(eager, d).Ok?
    requires d.op != AssignIfUnset || d.sym !in t ==> Unused(t, d.sym) && d.sym !in References(d.raw)
    ensures Defer(t, d).Ok? && Agree(Execute(eager, d).value, Defer(t, d).value)
  {
    EagerIsDeep(eager, t, d.raw);
    if d.op == AssignIfUnset && d.sym in t {
    } else {
      var t', eager' := Defer(t, d).value, Execute(eager, d).value;
      StoredMeaning(t, d.sym, d.raw);
      if d.op == Append && t[d.sym].Recursive? {
        AppendedMeaning(eager, t, d.sym, d.raw);
      }
      forall s | s in eager'
        ensures Meaning(t', s) == Ok(eager'[s])
      {
        if s != d.sym {
          OthersKeepTheirMeaning(t, d.sym, t'[d.sym], s);
        }
      }
    }
  }

  /** What the stored texts of `t` refer to is among `refs`. */
  predicate RefersTo(t: Variables, refs: set<string>) {
    forall s | s in t && t[s].Recursive? :: References(t[s].raw) <= refs
  }

  function AllReferences(lines: seq<string>): set<string> {
    if lines == [] then {}
    else AllReferences(lines[..|lines| - 1]) + LineReferences(lines[|lines| - 1])
  }

  lemma {:induction false} NotReferenced(lines: seq<string>, s: string)
    requires forall i | 0 <= i < |lines| :: s !in LineReferences(lines[i])
    ensures s !in AllReferences(lines)
  {
    if lines != [] {
      NotReferenced(lines[..|lines| - 1], s);
    }
  }

  lemma DeferRefersTo(t: Variables, d: Definition, refs: set<string>)
    requires RefersTo(t, refs) && Defer(t, d).Ok?
    requires d.op == Append && d.sym in t && t[d.sym].Recursive? ==> Deep(t, t[d.sym].raw).Ok?
    ensures RefersTo(Defer(t, d).value, refs + References(d.raw))
  {
    if d.op == Append && t[d.sym].Recursive? {
      AppendedReferences(t, t[d.sym].raw, d.raw);
    }
  }

  /** The symbol a line sets for the first time, or again, is not in use there. */
  lemma SetSymbolIsUnused(eager: Table, t: Variables, lines: seq<string>, d: Definition)
    requires lines != [] && Settled(lines) && Classify(lines[|lines| - 1]) == Define(d)
    requires Agree(eager, t) && Expand(eager, d.raw).Ok?
    requires RefersTo(t, AllReferences(lines[..|lines| - 1])) && AllReferences(lines[..|lines| - 1]) <= t.Keys
    ensures d.op != AssignIfUnset || d.sym !in t ==> Unused(t, d.sym) && d.sym !in References(d.raw)
  {
    var n := |lines| - 1;
    ExpandSucceeds(eager, d.raw);
    if d.op != AssignIfUnset {
      assert Sets(lines[n], d.sym);
      NotReferenced(lines[..n], d.sym);
    }
  }

  lemma LastLineAgrees(eager: Table, t: Variables, lines: seq<string>)
    requires lines != [] && Settled(lines)
    requires Agree(eager, t) && Effect(eager, lines[|lines| - 1]).Ok?
    requires RefersTo(t, AllReferences(lines[..|lines| - 1])) && AllReferences(lines[..|lines| - 1]) <= t.Keys
    ensures var t' := DeferLine(t, lines[|lines| - 1]);
            && t'.Ok? && Agree(Effect(eager, lines[|lines| - 1]).value, t'.value)
            && RefersTo(t'.value, AllReferences(lines)) && AllReferences(lines) <= t'.value.Keys
  {
    var n := |lines| - 1;
    var c := Classify(lines[n]);
    if c.Define? {
      SetSymbolIsUnused(eager, t, lines, c.def);
      DeferAgrees(eager, t, c.def);
      ExpandSucceeds(eager, c.def.raw);
      if c.def.op == Append && t[c.def.sym].Recursive? {
        FewerKeys(t, c.def.sym);
        DeepMonotone(t - {c.def.sym}, t, t[c.def.sym].raw);
      }
      DeferRefersTo(t, c.def, AllReferences(lines[..n]));
    }
  }

  /** For every file the parser accepts in which no symbol is set after its first
      reference, deferring every expansion to the end gives the parser's table. */
  lemma {:induction false} EagerAgreesWithDeferred(given: Table, lines: seq<string>)
    requires RunLines(given, lines).failure.None? && Settled(lines)
    ensures var t := DeferLines(Given(given), lines);
            && t.Ok? && Agree(RunLines(given, lines).table, t.value)
            && RefersTo(t.value, AllReferences(lines)) && AllReferences(lines) <= t.value.Keys
  {
    if lines != [] {
      var n := |lines| - 1;
      EagerAgreesWithDeferred(given, lines[..n]);
      var eager, t := RunLines(given, lines[..n]).table, DeferLines(Given(given), lines[..n]).value;
      LastLineAgrees(eager, t, lines);
    }
  }

  lemma DeferSnoc(t: Variables, lines: seq<string>, line: string)
    requires DeferLines(t, lines).Ok?
    ensures DeferLines(t, lines + [line]) == DeferLine(DeferLines(t, lines).value, line)
  {
    assert (lines + [line])[..|lines|] == lines;
  }

  // ------------------------------------------------ when the two agree, exactly

  /** Each text stored unexpanded expands in the eager table to its own eager value. */
  predicate Consistent(eager: Table, t: Variables)
    requires t.Keys == eager.Keys
  {
    forall s | s in t ::
      if t[s].Simple? then t[s].text == eager[s] else Expand(eager, t[s].raw) == Ok(eager[s])
  }

  /** References lead from higher to lower ranks. */
  predicate Ranked(t: Variables, rank: map<string, nat>) {
    rank.Keys == t.Keys &&
    forall s | s in t && t[s].Recursive? :: forall r | r in References(t[s].raw) && r in t :: rank[r] < rank[s]
  }

  /** No stored text refers to itself through others. */
  ghost predicate Acyclic(t: Variables) {
    exists rank :: Ranked(t, rank)
  }

  predicate AllBelow(t: Variables, rank: map<string, nat>, bound: nat, names: set<string>)
    requires rank.Keys == t.Keys
  {
    forall r | r in names :: r in t && rank[r] < bound
  }

  /** `u` has the variables of lower rank. */
  predicate HasLower(t: Variables, rank: map<string, nat>, bound: nat, u: Variables)
    requires rank.Keys == t.Keys
  {
    forall r | r in t && rank[r] < bound :: r in u && u[r] == t[r]
  }

  lemma {:induction false} DeepByRank(eager: Table, t: Variables, rank: map<string, nat>, bound: nat, u: Variables, val: string)
    requires t.Keys == eager.Keys && Consistent(eager, t) && Ranked(t, rank)
    requires HasLower(t, rank, bound, u) && AllBelow(t, rank, bound, References(val)) && Expand(eager, val).Ok?
    ensures Deep(u, val) == Expand(eager, val)
    decreases bound, |val|
  {
    var d := NextDereference(val, 0);
    if d.At? {
      var sym := val[d.start + 2..d.end - 1];
      assert sym in References(val);
      MeaningByRank(eager, t, rank, bound, u, sym);
      DeepByRank(eager, t, rank, bound, u, val[d.end..]);
    }
  }

  lemma {:induction false} MeaningByRank(eager: Table, t: Variables, rank: map<string, nat>, bound: nat, u: Variables, sym: string)
    requires t.Keys == eager.Keys && Consistent(eager, t) && Ranked(t, rank)
    requires HasLower(t, rank, bound, u) && sym in t && rank[sym] < bound
    ensures Meaning(u, sym) == Ok(eager[sym])
    decreases bound, 0
  {
    if t[sym].Recursive? {
      ExpandSucceeds(eager, t[sym].raw);
      FewerKeys(u, sym);
      DeepByRank(eager, t, rank, rank[sym], u - {sym}, t[sym].raw);
    }
  }

  /** How deep the references of a variable go. */
  function Depth(t: Variables, sym: string): nat
    decreases |t|, 0
  {
    if sym !in t || t[sym].Simple? then 0
    else
      FewerKeys(t, sym);
      1 + MaxDepth(t - {sym}, t[sym].raw)
  }

  function MaxDepth(t: Variables, val: string): nat
    decreases |t|, |val|
  {
    var d := NextDereference(val, 0);
    if !d.At? then 0
    else
      var a, b := Depth(t, val[d.start + 2..d.end - 1]), MaxDepth(t, val[d.end..]);
      if a > b then a else b
  }

  lemma {:induction false} DepthMonotone(a: Variables, b: Variables, sym: string)
    requires Below(a, b) && Meaning(a, sym).Ok?
    ensures Depth(b, sym) == Depth(a, sym)
    decreases |a|, 0
  {
    if a[sym].Recursive? {
      FewerKeys(a, sym);
      MaxDepthMonotone(a - {sym}, b - {sym}, a[sym].raw);
    }
  }

  lemma {:induction false} MaxDepthMonotone(a: Variables, b: Variables, val: string)
    requires Below(a, b) && Deep(a, val).Ok?
    ensures MaxDepth(b, val) == MaxDepth(a, val)
    decreases |a|, |val|
  {
    var d := NextDereference(val, 0);
    if d.At? {
      DepthMonotone(a, b, val[d.start + 2..d.end - 1]);
      MaxDepthMonotone(a, b, val[d.end..]);
    }
  }

  /** What a text refers to has a meaning, is defined and goes less deep. */
  lemma {:induction false} ReferenceDepth(t: Variables, val: string, r: string)
    requires Deep(t, val).Ok? && r in References(val)
    ensures Meaning(t, r).Ok? && r in t && Depth(t, r) <= MaxDepth(t, val)
    decreases |val|
  {
    var d := NextDereference(val, 0);
    if r != val[d.start + 2..d.end - 1] {
      ReferenceDepth(t, val[d.end..], r);
    }
  }

  lemma {:induction false} DeepLexes(t: Variables, val: string)
    requires Deep(t, val).Ok?
    ensures ExpansionLaws.Parse(val).Ok?
    decreases |val|
  {
    var d := NextDereference(val, 0);
    if d.At? {
      DeepLexes(t, val[d.end..]);
    }
  }

  /** A stored text of agreeing tables. */
  lemma StoredTextExpands(eager: Table, t: Variables, s: string)
    requires Agree(eager, t) && s in t && t[s].Recursive?
    ensures Expand(eager, t[s].raw) == Ok(eager[s])
    ensures forall r | r in References(t[s].raw) :: r in t && Depth(t, r) < Depth(t, s)
  {
    var u, raw := t - {s}, t[s].raw;
    FewerKeys(t, s);
    assert Deep(u, raw) == Ok(eager[s]);
    forall r | r in References(raw) ensures r in t && Depth(t, r) < Depth(t, s) {
      ReferenceDepth(u, raw, r);
      DepthMonotone(u, t, r);
    }
    DeepMonotone(u, t, raw);
    DeepLexes(t, raw);
    ExpandSucceeds(eager, raw);
    EagerIsDeep(eager, t, raw);
  }

  /** Two tables agree if and only if every text that was stored unexpanded still expands
      to the parser's value, and no text refers to itself. */
  lemma AgreeIfConsistent(eager: Table, t: Variables)
    requires t.Keys == eager.Keys
    ensures Agree(eager, t) <==> Consistent(eager, t) && Acyclic(t)
  {
    if Agree(eager, t) {
      forall s | s in t && t[s].Recursive?
        ensures Expand(eager, t[s].raw) == Ok(eager[s])
        ensures forall r | r in References(t[s].raw) :: r in t && Depth(t, r) < Depth(t, s)
      {
        StoredTextExpands(eager, t, s);
      }
      forall s | s in t && t[s].Simple? ensures t[s].text == eager[s] {
        assert Meaning(t, s) == Ok(eager[s]);
      }
      var rank := map s | s in t :: Depth(t, s);
      assert Ranked(t, rank);
    }
    if Consistent(eager, t) && Acyclic(t) {
      var rank :| Ranked(t, rank);
      forall s | s in eager ensures Meaning(t, s) == Ok(eager[s]) {
        MeaningByRank(eager, t, rank, rank[s] + 1, t, s);
      }
    }
  }

  lemma LineKeys(eager: Table, t: Variables, line: string)
    requires eager.Keys == t.Keys && Effect(eager, line).Ok? && DeferLine(t, line).Ok?
    ensures Effect(eager, line).value.Keys == DeferLine(t, line).value.Keys
  {
  }

  lemma {:induction false} SameKeys(given: Table, lines: seq<string>)
    requires RunLines(given, lines).failure.None? && DeferLines(Given(given), lines).Ok?
    ensures RunLines(given, lines).table.Keys == DeferLines(Given(given), lines).value.Keys
  {
    if lines != [] {
      var before, line := lines[..|lines| - 1], lines[|lines| - 1];
      SameKeys(given, before);
      LineKeys(RunLines(given, before).table, DeferLines(Given(given), before).value, line);
    }
  }

  /** For every file that both interpreters accept, they agree exactly on this condition
      on their final tables. */
  lemma FilesAgreeIfConsistent(given: Table, lines: seq<string>)
    requires RunLines(given, lines).failure.None? && DeferLines(Given(given), lines).Ok?
    ensures var eager, t := RunLines(given, lines).table, DeferLines(Given(given), lines).value;
            && t.Keys == eager.Keys
            && (Agree(eager, t) <==> Consistent(eager, t) && Acyclic(t))
  {
    SameKeys(given, lines);
    AgreeIfConsistent(RunLines(given, lines).table, DeferLines(Given(given), lines).value);
  }

  /** A file that is not settled: `a = x`, `b = $(a)`, `a = y` leaves `b` at `x` in the
      parser, and at `y` when it is deferred. */
  lemma ReassignmentIsSeenOnlyByDeferred(given: Table, a: string, b: string, x: string, y: string,
                                         first: string, second: string, third: string)
    requires a != b && x != y && Free(a, ')') && Free(x, '$') && Free(y, '$')
    requires Classify(first) == Define(Definition(Assign, a, x))
    requires Classify(second) == Define(Definition(Assign, b, "$(" + a + ")" + ""))
    requires Classify(third) == Define(Definition(Assign, a, y))
    ensures RunLines(given, [first, second, third]) == Outcome(given[a := x][b := x][a := y], 3, None)
    ensures var eager, t := RunLines(given, [first, second, third]).table, DeferLines(Given(given), [first, second, third]);
            t.Ok? && Meaning(t.value, b) == Ok(y) && !Agree(eager, t.value)
  {
    EagerReassignment(given, a, b, x, y, first, second, third);
    var raw := "$(" + a + ")" + "";
    DeferSnoc(Given(given), [], first);
    DeferSnoc(Given(given), [first], second);
    DeferSnoc(Given(given), [first, second], third);
    assert [] + [first] == [first] && [first] + [second] == [first, second];
    assert [first, second] + [third] == [first, second, third];
    var t := DeferLines(Given(given), [first, second, third]).value;
    assert t[b] == Recursive(raw) && t[a] == Recursive(y);
    FewerKeys(t, b);
    FindFree(y, '$');
    DeepReference(t - {b}, a, "");
    assert y + "" == y;
  }

  lemma EagerReassignment(given: Table, a: string, b: string, x: string, y: string,
                          first: string, second: string, third: string)
    requires a != b && Free(a, ')') && Free(x, '$') && Free(y, '$')
    requires Classify(first) == Define(Definition(Assign, a, x))
    requires Classify(second) == Define(Definition(Assign, b, "$(" + a + ")" + ""))
    requires Classify(third) == Define(Definition(Assign, a, y))
    ensures RunLines(given, [first, second, third]) == Outcome(given[a := x][b := x][a := y], 3, None)
  {
    var t1, raw := given[a := x], "$(" + a + ")" + "";
    FindFree(x, '$');
    FindFree(y, '$');
    assert Expand(t1, raw) == Ok(x) by {
      ExpandReference(t1, a, "");
      assert x + "" == x;
    }
    AssignEffect(given, first, a, x, x);
    AssignEffect(t1, second, b, raw, x);
    AssignEffect(t1[b := x], third, a, y, y);
    RunThree(given, first, second, third, t1, t1[b := x], t1[b := x][a := y]);
  }

  lemma AssignEffect(t: Table, line: string, sym: string, raw: string, val: string)
    requires Classify(line) == Define(Definition(Assign, sym, raw)) && Expand(t, raw) == Ok(val)
    ensures Effect(t, line) == Ok(t[sym := val])
  {
  }

  lemma RunThree(t: Table, first: string, second: string, third: string, t1: Table, t2: Table, t3: Table)
    requires Effect(t, first) == Ok(t1) && Effect(t1, second) == Ok(t2) && Effect(t2, third) == Ok(t3)
    ensures RunLines(t, [first, second, third]) == Outcome(t3, 3, None)
  {
    RunOne(t, [], first, [first], t, 0, t1);
    RunOne(t, [first], second, [first, second], t1, 1, t2);
    RunOne(t, [first, second], third, [first, second, third], t2, 2, t3);
  }

  lemma RunOne(t: Table, before: seq<string>, line: string, lines: seq<string>, t1: Table, n: nat, t2: Table)
    requires RunLines(t, before) == Outcome(t1, n, None) && lines == before + [line] && Effect(t1, line) == Ok(t2)
    ensures RunLines(t, lines) == Outcome(t2, n + 1, None)
  {
    RunSnoc(t, before, line);
  }

  lemma DeepReference(t: Variables, name: string, rest: string)
    requires Free(name, ')')
    ensures Deep(t, "$(" + name + ")" + rest) ==
            if Meaning(t, name).Ok? then Prepend(Meaning(t, name).value, Deep(t, rest)) else Meaning(t, name)
  {
    ReferenceParts(name, rest);
    if Meaning(t, name).Ok? {
      assert "" + Meaning(t, name).value == Meaning(t, name).value;
    }
  }
}
