/** From a source list file to the sources of a target: parse_source_list of
    scons/custom.py. */
module SourcePaths {
  import opened Text
  import opened SourceList
  import opened SourceListParsing
  import opened ExpansionLaws
  import opened Wrapping

  /** The current source directory and the top of source and build tree, absolute,
      with `/` as separator. */
  datatype Dirs = Dirs(cur: string, topSource: string, topBuild: string)

  /** Automake builds below `src`, SCons does not. */
  function MapBuild(d: Dirs, f: string): string {
    if StartsWith(f, d.topBuild + "/src") then d.topBuild + f[|d.topBuild| + 4..] else f
  }

  function Relativize(d: Dirs, f: string): string {
    if StartsWith(f, d.cur + "/") then f[|d.cur| + 1..] else f
  }

  predicate IsHeader(f: string) {
    EndsWith(f, ".h") || EndsWith(f, ".hpp") || EndsWith(f, ".inl")
  }

  function Convert(d: Dirs, f: string): string {
    Relativize(d, MapBuild(d, f))
  }

  /** The sources among the words: every word converted, headers left out. */
  function Sources(d: Dirs, words: seq<string>): seq<string> {
    if words == [] then []
    else
      var n := |words| - 1;
      Sources(d, words[..n]) + if IsHeader(Convert(d, words[n])) then [] else [Convert(d, words[n])]
  }

  function SourcesOf(d: Dirs, t: Table, sym: string): seq<string>
    requires sym in t
  {
    Sources(d, Split(t[sym]))
  }

  function Concatenated(d: Dirs, t: Table, names: seq<string>, n: nat): seq<string>
    requires n <= |names| && AllIn(names, t)
  {
    if n == 0 then [] else Concatenated(d, t, names, n - 1) + SourcesOf(d, t, names[n - 1])
  }

  datatype Error = ParseFailure(failure: Failure) | UnknownName(name: string)

  method ConvertPath(d: Dirs, word: string) returns (f: string)
    ensures f == Convert(d, word)
  {
    f := word;
    if StartsWith(f, d.topBuild + "/src") {
      f := d.topBuild + f[|d.topBuild + "/src"|..];
    }
    if StartsWith(f, d.cur + "/") {
      f := f[|d.cur + "/"|..];
    }
  }

  /** The loop over the words of one symbol. */
  method ConvertWords(d: Dirs, words: seq<string>) returns (srcs: seq<string>)
    ensures srcs == Sources(d, words)
  {
    srcs := [];
    for i := 0 to |words|
      invariant srcs == Sources(d, words[..i])
    {
      SourcesSnoc(d, words[..i], words[i]);
      assert words[..i + 1] == words[..i] + [words[i]];
      var f := ConvertPath(d, words[i]);
      if IsHeader(f) {
        continue;
      }
      srcs := srcs + [f];
    }
    assert words[..|words|] == words;
  }

  lemma SourcesSnoc(d: Dirs, words: seq<string>, w: string)
    ensures Sources(d, words + [w]) == Sources(d, words) + if IsHeader(Convert(d, w)) then [] else [Convert(d, w)]
  {
    assert (words + [w])[..|words|] == words;
  }

  /** The state of the parser that parse_source_list gives the file to. */
  function Given(d: Dirs): ParserState {
    Step(Step(Initial(), AddSymbol("top_srcdir", d.topSource)), AddSymbol("top_builddir", d.topBuild))
  }

  function Parsed(d: Dirs, file: string, content: Option<seq<string>>): Result<Table, Failure> {
    Answer(Given(d), Call.Parse(file, content))
  }

  method ParseTable(d: Dirs, file: string, content: Option<seq<string>>) returns (r: Result<Table, Failure>)
    ensures r == Parsed(d, file, content)
  {
    var parser := new SourceListParser();
    parser.AddSymbol("top_srcdir", d.topSource);
    parser.AddSymbol("top_builddir", d.topBuild);
    r := parser.Parse(file, content);
  }

  predicate AllIn(names: seq<string>, t: Table) {
    forall i | 0 <= i < |names| :: names[i] in t
  }

  predicate FirstUnknown(names: seq<string>, t: Table, i: nat)
    requires i < |names|
  {
    names[i] !in t && forall k | 0 <= k < i :: names[k] in t
  }

  /** The lists of the names, one after the other. */
  method ConvertNames(d: Dirs, table: Table, names: seq<string>) returns (r: Result<seq<string>, Error>)
    ensures AllIn(names, table) ==> r == Ok(Concatenated(d, table, names, |names|))
    ensures !AllIn(names, table) ==> exists i | 0 <= i < |names| :: FirstUnknown(names, table, i) && r == Err(UnknownName(names[i]))
  {
    var lists: map<string, seq<string>> := map[];
    for i := 0 to |names|
      invariant forall k | 0 <= k < i :: names[k] in table && names[k] in lists
      invariant forall s | s in lists :: s in table && lists[s] == SourcesOf(d, table, s)
    {
      if names[i] !in table {
        assert FirstUnknown(names, table, i);
        return Err(UnknownName(names[i]));
      }
      var srcs := ConvertWords(d, Split(table[names[i]]));
      lists := lists[names[i] := srcs];
    }

    var all := [];
    for i := 0 to |names|
      invariant all == Concatenated(d, table, names, i)
    {
      all := all + lists[names[i]];
    }
    return Ok(all);
  }

  /** parse_source_list with names. */
  method ParseSourceList(d: Dirs, file: string, content: Option<seq<string>>, names: seq<string>)
    returns (r: Result<seq<string>, Error>)
    requires names != []
    ensures var parsed := Parsed(d, file, content);
            && (parsed.Err? ==> r == Err(ParseFailure(parsed.error)))
            && (parsed.Ok? && AllIn(names, parsed.value) ==>
                  r == Ok(Concatenated(d, parsed.value, names, |names|)))
            && (parsed.Ok? && !AllIn(names, parsed.value) ==>
                  exists i | 0 <= i < |names| :: FirstUnknown(names, parsed.value, i) && r == Err(UnknownName(names[i])))
  {
    var parsed := ParseTable(d, file, content);
    if parsed.Err? {
      return Err(ParseFailure(parsed.error));
    }
    r := ConvertNames(d, parsed.value, names);
  }

  /** The list of every symbol. */
  method ConvertAll(d: Dirs, table: Table) returns (lists: map<string, seq<string>>)
    ensures lists.Keys == table.Keys && forall s | s in table :: lists[s] == SourcesOf(d, table, s)
  {
    lists := map[];
    var left := table.Keys;
    while left != {}
      invariant left <= table.Keys && lists.Keys == table.Keys - left
      invariant forall s | s in lists :: lists[s] == SourcesOf(d, table, s)
      decreases left
    {
      var sym :| sym in left;
      var srcs := ConvertWords(d, Split(table[sym]));
      lists := lists[sym := srcs];
      left := left - {sym};
    }
  }

  /** parse_source_list without names: also the two given symbols get a list. */
  method ParseAllSourceLists(d: Dirs, file: string, content: Option<seq<string>>)
    returns (r: Result<map<string, seq<string>>, Error>)
    ensures var parsed := Parsed(d, file, content);
            if parsed.Err? then r == Err(ParseFailure(parsed.error))
            else
              && r.Ok? && r.value.Keys == parsed.value.Keys
              && forall s | s in parsed.value :: r.value[s] == SourcesOf(d, parsed.value, s)
  {
    var parsed := ParseTable(d, file, content);
    if parsed.Err? {
      return Err(ParseFailure(parsed.error));
    }
    var lists := ConvertAll(d, parsed.value);
    return Ok(lists);
  }

  // ----------------------------------------------------------- what it means

  /** The file a source names, seen from the current source directory. */
  function Absolute(d: Dirs, f: string): string {
    if f != "" && f[0] == '/' then f else d.cur + "/" + f
  }

  lemma StartsWithMore(f: string, p: string, c: char)
    ensures StartsWith(f, p + [c]) <==> StartsWith(f, p) && |f| > |p| && f[|p|] == c
  {
    if |f| > |p| {
      assert f[..|p| + 1] == f[..|p|] + [f[|p|]];
    }
  }

  /** Making a path relative keeps its file exactly when what is left is not itself
      absolute, that is, unless an empty component follows the directory. */
  lemma RelativizeKeepsFile(d: Dirs, f: string)
    requires d.cur != "" && d.cur[0] == '/'
    ensures Absolute(d, Relativize(d, f)) == Absolute(d, f) <==> !StartsWith(f, d.cur + "//")
  {
    var p := d.cur + "/";
    assert d.cur + "//" == p + ['/'];
    StartsWithMore(f, p, '/');
    if StartsWith(f, p) {
      assert f == p + f[|p|..];
      assert f[0] == d.cur[0];
    }
  }

  /** The directory mapping that is meant: whole path components. */
  function BelowSrc(d: Dirs, f: string): string {
    if f == d.topBuild + "/src" || StartsWith(f, d.topBuild + "/src/") then d.topBuild + f[|d.topBuild| + 4..]
    else f
  }

  /** The mapping works on components exactly when `src` is not merely the beginning
      of a longer directory name such as `srcgen`. */
  lemma MapBuildOnComponents(d: Dirs, f: string)
    ensures MapBuild(d, f) == BelowSrc(d, f) <==>
            !(StartsWith(f, d.topBuild + "/src") && |f| > |d.topBuild| + 4 && f[|d.topBuild| + 4] != '/')
  {
    var p := d.topBuild + "/src";
    assert d.topBuild + "/src/" == p + ['/'];
    StartsWithMore(f, p, '/');
    if StartsWith(f, p) {
      assert |MapBuild(d, f)| < |f|;
      assert |f| == |p| ==> f == p;
    }
  }

  /** The last characters of a path. */
  function Last(f: string, n: nat): string {
    if n <= |f| then f[|f| - n..] else f
  }

  predicate HeaderBySuffix(f: string) {
    Last(f, 2) == ".h" || Last(f, 4) == ".hpp" || Last(f, 4) == ".inl"
  }

  lemma HeadersBySuffix(f: string)
    ensures IsHeader(f) <==> HeaderBySuffix(f)
  {
  }

  /** No source ends in one of the three suffixes. */
  lemma {:induction false} NoHeaders(d: Dirs, words: seq<string>)
    ensures forall i | 0 <= i < |Sources(d, words)| ::
              var f := Sources(d, words)[i];
              Last(f, 2) != ".h" && Last(f, 4) != ".hpp" && Last(f, 4) != ".inl"
  {
    if words != [] {
      var before, w := words[..|words| - 1], words[|words| - 1];
      NoHeaders(d, before);
      HeadersBySuffix(Convert(d, w));
    }
  }

  /** A word whose path ends in none of them is among the sources, at its place, and a word
      whose path ends in one of them is not. */
  lemma KeptAtItsPlace(d: Dirs, before: seq<string>, w: string, behind: seq<string>)
    ensures var f := Convert(d, w);
            Sources(d, before + [w] + behind) ==
            Sources(d, before) +
            (if Last(f, 2) == ".h" || Last(f, 4) == ".hpp" || Last(f, 4) == ".inl" then [] else [f]) +
            Sources(d, behind)
  {
    HeadersBySuffix(Convert(d, w));
    SourcesConcat(d, before + [w], behind);
    SourcesSnoc(d, before, w);
  }

  /** A path below the current directory becomes relative, and no other does. */
  lemma PathsBelowCurrent(d: Dirs, rest: string, f: string)
    ensures Relativize(d, d.cur + "/" + rest) == rest
    ensures |f| <= |d.cur| || f[..|d.cur|] != d.cur || f[|d.cur|] != '/' ==> Relativize(d, f) == f
  {
    var p := d.cur + "/";
    assert (p + rest)[..|p|] == p && (p + rest)[|p|..] == rest;
    StartsWithMore(f, d.cur, '/');
  }

  /** A path below `src` of the build tree loses that component. */
  lemma PathsBelowBuild(d: Dirs, rest: string)
    ensures MapBuild(d, d.topBuild + "/src" + rest) == d.topBuild + rest
  {
    var p := d.topBuild + "/src";
    assert (p + rest)[..|p|] == p && (p + rest)[|p|..] == rest;
  }

  /** The two symbols a list may use stand for the two directories. */
  lemma GivenDirectories(d: Dirs, rest: string)
    ensures var t := Given(d).table;
            && t == map["top_srcdir" := d.topSource, "top_builddir" := d.topBuild]
            && Expand(t, "$(" + "top_srcdir" + ")" + rest) == Prepend(d.topSource, Expand(t, rest))
            && Expand(t, "$(" + "top_builddir" + ")" + rest) == Prepend(d.topBuild, Expand(t, rest))
  {
    ReferenceTo(Given(d).table, "top_srcdir", d.topSource, rest);
    ReferenceTo(Given(d).table, "top_builddir", d.topBuild, rest);
  }

  lemma ReferenceTo(t: Table, name: string, value: string, rest: string)
    requires Free(name, ')') && name in t && t[name] == value
    ensures Expand(t, "$(" + name + ")" + rest) == Prepend(value, Expand(t, rest))
  {
    ExpandReference(t, name, rest);
  }

  lemma {:induction false} SourcesConcat(d: Dirs, a: seq<string>, b: seq<string>)
    ensures Sources(d, a + b) == Sources(d, a) + Sources(d, b)
    decreases |b|
  {
    if b == [] {
      assert a + b == a;
    } else {
      var n := |b| - 1;
      assert a + b == (a + b[..n]) + [b[n]] && b == b[..n] + [b[n]];
      SourcesConcat(d, a, b[..n]);
      SourcesSnoc(d, a + b[..n], b[n]);
      SourcesSnoc(d, b[..n], b[n]);
    }
  }

  lemma OneMoreName(d: Dirs, t: Table, names: seq<string>, n: nat)
    requires 0 < n <= |names| && AllIn(names, t)
    ensures Concatenated(d, t, names, n) == Concatenated(d, t, names, n - 1) + SourcesOf(d, t, names[n - 1])
  {
  }

  /** The first names of `c` are those of `a`. */
  lemma {:induction false} SameFirstNames(d: Dirs, t: Table, a: seq<string>, c: seq<string>, n: nat)
    requires AllIn(c, t) && AllIn(a, t) && n <= |a| <= |c|
    requires forall i | 0 <= i < |a| :: c[i] == a[i]
    ensures Concatenated(d, t, c, n) == Concatenated(d, t, a, n)
  {
    if n > 0 {
      SameFirstNames(d, t, a, c, n - 1);
      OneMoreName(d, t, c, n);
      OneMoreName(d, t, a, n);
    }
  }

  /** The result for the names `c` of two lists `a` and `b` is one result behind the other. */
  lemma {:induction false} NamesConcat(d: Dirs, t: Table, a: seq<string>, b: seq<string>, c: seq<string>, n: nat)
    requires AllIn(a, t) && AllIn(b, t) && AllIn(c, t) && |c| == |a| + |b| && n <= |b|
    requires (forall i | 0 <= i < |a| :: c[i] == a[i]) && forall i | 0 <= i < |b| :: c[|a| + i] == b[i]
    ensures Concatenated(d, t, c, |a| + n) == Concatenated(d, t, a, |a|) + Concatenated(d, t, b, n)
  {
    if n == 0 {
      SameFirstNames(d, t, a, c, |a|);
    } else {
      NamesConcat(d, t, a, b, c, n - 1);
      assert c[|a| + (n - 1)] == b[n - 1];
      OneMoreName(d, t, c, |a| + n);
      OneMoreName(d, t, b, n);
      var x, y, z := Concatenated(d, t, a, |a|), Concatenated(d, t, b, n - 1), SourcesOf(d, t, b[n - 1]);
      assert (x + y) + z == x + (y + z);
    }
  }

  lemma EndsWithRest(p: string, rest: string, suffix: string)
    requires p != "" && Free(suffix, p[|p| - 1])
    ensures EndsWith(p + rest, suffix) <==> EndsWith(rest, suffix)
  {
    var f, k := p + rest, |suffix|;
    if k <= |rest| {
      assert f[|f| - k..] == rest[|rest| - k..];
    } else if k <= |f| {
      // the last character of `p` would lie inside the suffix
      assert f[|f| - k..][|p| - 1 - (|f| - k)] == p[|p| - 1];
    }
  }

  /** Whether a path names a header does not depend on its directory. */
  lemma RelativizeKeepsHeaders(d: Dirs, f: string)
    ensures IsHeader(Relativize(d, f)) <==> IsHeader(f)
  {
    var p := d.cur + "/";
    if StartsWith(f, p) {
      var rest := f[|p|..];
      assert f == p + rest;
      EndsWithRest(p, rest, ".h");
      EndsWithRest(p, rest, ".hpp");
      EndsWithRest(p, rest, ".inl");
    }
  }

  /** `files` are, in order, the files of `srcs`. */
  predicate Denote(d: Dirs, srcs: seq<string>, files: seq<string>) {
    |srcs| == |files| && forall i | 0 <= i < |srcs| :: Absolute(d, srcs[i]) == files[i]
  }

  /** The files meant by the words, the headers among them left out. */
  function MeantFiles(d: Dirs, words: seq<string>): seq<string> {
    if words == [] then []
    else
      var n := |words| - 1;
      var f := MapBuild(d, words[n]);
      MeantFiles(d, words[..n]) + if IsHeader(f) then [] else [Absolute(d, f)]
  }

  /** The word is dropped as a header, or no empty component follows the current
      directory in its path. */
  predicate WordIsClean(d: Dirs, w: string) {
    IsHeader(MapBuild(d, w)) || !StartsWith(MapBuild(d, w), d.cur + "//")
  }

  lemma OneMoreDenotes(d: Dirs, srcs: seq<string>, files: seq<string>, src: string, file: string)
    requires |srcs| == |files|
    ensures Denote(d, srcs + [src], files + [file]) <==> Denote(d, srcs, files) && Absolute(d, src) == file
  {
    var more, moreFiles := srcs + [src], files + [file];
    assert forall i | 0 <= i < |srcs| :: more[i] == srcs[i] && moreFiles[i] == files[i];
    assert more[|srcs|] == src && moreFiles[|srcs|] == file;
  }

  lemma WordDenotes(d: Dirs, srcs: seq<string>, files: seq<string>, w: string)
    requires d.cur != "" && d.cur[0] == '/' && |srcs| == |files|
    ensures var f := MapBuild(d, w);
            var more := srcs + if IsHeader(Convert(d, w)) then [] else [Convert(d, w)];
            var moreFiles := files + if IsHeader(f) then [] else [Absolute(d, f)];
            && |more| == |moreFiles|
            && (Denote(d, more, moreFiles) <==> Denote(d, srcs, files) && WordIsClean(d, w))
  {
    var f := MapBuild(d, w);
    RelativizeKeepsHeaders(d, f);
    RelativizeKeepsFile(d, f);
    if IsHeader(f) {
      assert srcs + [] == srcs && files + [] == files;
    } else {
      OneMoreDenotes(d, srcs, files, Convert(d, w), Absolute(d, f));
    }
  }

  predicate AllClean(d: Dirs, words: seq<string>) {
    forall i | 0 <= i < |words| :: WordIsClean(d, words[i])
  }

  lemma AllCleanSnoc(d: Dirs, words: seq<string>, w: string)
    ensures AllClean(d, words + [w]) <==> AllClean(d, words) && WordIsClean(d, w)
  {
    var more := words + [w];
    assert more[|words|] == w && forall i | 0 <= i < |words| :: more[i] == words[i];
  }

  lemma MeantSnoc(d: Dirs, words: seq<string>, w: string)
    ensures var f := MapBuild(d, w);
            MeantFiles(d, words + [w]) == MeantFiles(d, words) + if IsHeader(f) then [] else [Absolute(d, f)]
  {
    assert (words + [w])[..|words|] == words;
  }

  lemma OneWordDenotes(d: Dirs, words: seq<string>, w: string, srcs: seq<string>, files: seq<string>)
    requires d.cur != "" && d.cur[0] == '/'
    requires srcs == Sources(d, words) && files == MeantFiles(d, words) && |srcs| == |files|
    requires Denote(d, srcs, files) <==> AllClean(d, words)
    ensures |Sources(d, words + [w])| == |MeantFiles(d, words + [w])|
    ensures Denote(d, Sources(d, words + [w]), MeantFiles(d, words + [w])) <==> AllClean(d, words + [w])
  {
    SourcesSnoc(d, words, w);
    MeantSnoc(d, words, w);
    WordDenotes(d, srcs, files, w);
    AllCleanSnoc(d, words, w);
  }

  /** The sources denote, in order, exactly the files the words mean, if and only if the
      words that are no headers have no empty component behind the current directory. */
  lemma {:induction false} SourcesDenoteTheirFiles(d: Dirs, words: seq<string>)
    requires d.cur != "" && d.cur[0] == '/'
    ensures |Sources(d, words)| == |MeantFiles(d, words)|
    ensures Denote(d, Sources(d, words), MeantFiles(d, words)) <==> AllClean(d, words)
  {
    if words != [] {
      var before, w := words[..|words| - 1], words[|words| - 1];
      assert words == before + [w];
      SourcesDenoteTheirFiles(d, before);
      OneWordDenotes(d, before, w, Sources(d, before), MeantFiles(d, before));
    }
  }

  /** From the makefile text to the sources: however the definition is broken over
      lines, the list of its symbol comes from exactly the words written. */
  lemma WrappedSources(d: Dirs, file: string, sym: string, colon: bool, pieces: seq<Piece>)
    requires SymbolOk(sym) && pieces != [] && forall i | 0 <= i < |pieces| :: PieceOk(pieces[i])
    ensures var parsed := Parsed(d, file, Some(Printed(Head(sym, colon), pieces)));
            && parsed.Ok? && sym in parsed.value
            && Concatenated(d, parsed.value, [sym], 1) == Sources(d, AllWords(pieces))
  {
    WrappedWordsRoundTrip(Given(d).table, sym, colon, pieces);
  }
}
