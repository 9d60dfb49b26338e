/** Strings as the Python 2 `str` methods see them: white space, stripping,
    searching and splitting. */
module Text {

  datatype Option<+T> = None | Some(value: T)

  datatype Result<+T, +E> = Ok(value: T) | Err(error: E)

  function Lookup<K, V>(m: map<K, V>, k: K): Option<V> {
    if k in m then Some(m[k]) else None
  }

  /** Space, tab, newline, vertical tab, form feed, carriage return. */
  predicate IsSpace(c: char) {
    c == ' ' || '\t' <= c <= '\r'
  }

  predicate AllSpace(s: string) {
    forall i | 0 <= i < |s| :: IsSpace(s[i])
  }

  predicate NoSpace(s: string) {
    forall i | 0 <= i < |s| :: !IsSpace(s[i])
  }

  /** `c` does not occur in `s`. */
  predicate Free(s: string, c: char) {
    forall i | 0 <= i < |s| :: s[i] != c
  }

  predicate StartsWith(s: string, prefix: string) {
    |prefix| <= |s| && s[..|prefix|] == prefix
  }

  predicate EndsWith(s: string, suffix: string) {
    |suffix| <= |s| && s[|s| - |suffix|..] == suffix
  }

  // ---------------------------------------------------------------- searching

  /** The least index of `c` in `s` that is at least `i`, or -1. */
  function FindFrom(s: string, c: char, i: nat): (p: int)
    ensures p == -1 || (i <= p < |s| && s[p] == c)
    decreases |s| - i
  {
    if i >= |s| then -1
    else if s[i] == c then i
    else FindFrom(s, c, i + 1)
  }

  function Find(s: string, c: char): int {
    FindFrom(s, c, 0)
  }

  /** The character found is the first one. */
  lemma {:induction false} FindFirst(s: string, c: char, i: nat)
    ensures var p := FindFrom(s, c, i);
            forall k | i <= k < (if p < 0 then |s| else p) :: s[k] != c
    decreases |s| - i
  {
    if i < |s| && s[i] != c {
      FindFirst(s, c, i + 1);
    }
  }

  /** Text in which `c` does not occur at or behind `i` is passed over. */
  lemma {:induction false} FindSkips(s: string, c: char, i: nat, j: nat)
    requires i <= j <= |s| && forall k | i <= k < j :: s[k] != c
    ensures FindFrom(s, c, i) == FindFrom(s, c, j)
    decreases j - i
  {
    if i < j {
      FindSkips(s, c, i + 1, j);
    }
  }

  /** Searching from `i` is searching the rest of the string. */
  lemma {:induction false} FindInRest(s: string, c: char, i: nat, j: nat)
    requires i + j <= |s|
    ensures FindFrom(s, c, i + j) == (var p := FindFrom(s[i..], c, j); if p < 0 then p else i + p)
    decreases |s| - j
  {
    if i + j < |s| && s[i + j] != c {
      FindInRest(s, c, i, j + 1);
    }
  }

  /** A search that succeeds is not changed by text appended behind. */
  lemma {:induction false} FindInPrefix(s: string, t: string, c: char, i: nat)
    requires FindFrom(s, c, i) >= 0
    ensures FindFrom(s + t, c, i) == FindFrom(s, c, i)
    decreases |s| - i
  {
    if s[i] != c {
      FindInPrefix(s, t, c, i + 1);
    }
  }

  /** Text without `c` in front only shifts the search. */
  lemma FindAfter(s: string, t: string, c: char)
    requires Free(s, c)
    ensures Find(s + t, c) == (var p := Find(t, c); if p < 0 then p else |s| + p)
  {
    assert forall k | 0 <= k < |s| :: (s + t)[k] == s[k];
    FindSkips(s + t, c, 0, |s|);
    FindInRest(s + t, c, |s|, 0);
    assert (s + t)[|s|..] == t;
  }

  lemma FindFree(s: string, c: char)
    ensures Free(s, c) <==> Find(s, c) < 0
  {
    FindFirst(s, c, 0);
  }

  // ---------------------------------------------------------------- stripping

  function LStrip(s: string): string {
    if s != "" && IsSpace(s[0]) then LStrip(s[1..]) else s
  }

  function RStrip(s: string): string {
    if s != "" && IsSpace(s[|s| - 1]) then RStrip(s[..|s| - 1]) else s
  }

  function Strip(s: string): string {
    LStrip(RStrip(s))
  }

  /** What is stripped is white space, and no more white space is left to strip. */
  lemma {:induction false} LStripParts(s: string)
    ensures var r := LStrip(s);
            && |r| <= |s| && r == s[|s| - |r|..] && AllSpace(s[..|s| - |r|])
            && (r != "" ==> !IsSpace(r[0]))
  {
    if s != "" && IsSpace(s[0]) {
      LStripParts(s[1..]);
      var r := LStrip(s[1..]);
      assert s[..|s| - |r|] == [s[0]] + s[1..][..|s| - 1 - |r|];
    }
  }

  lemma {:induction false} RStripParts(s: string)
    ensures var r := RStrip(s);
            && |r| <= |s| && r == s[..|r|] && AllSpace(s[|r|..])
            && (r != "" ==> !IsSpace(r[|r| - 1]))
  {
    if s != "" && IsSpace(s[|s| - 1]) {
      RStripParts(s[..|s| - 1]);
      var r := RStrip(s[..|s| - 1]);
      assert s[|r|..] == s[..|s| - 1][|r|..] + [s[|s| - 1]];
    }
  }

  /** Stripping on the right stops at a visible character. */
  lemma {:induction false} RStripAfterWord(s: string, t: string)
    requires s != "" && !IsSpace(s[|s| - 1])
    ensures RStrip(s + t) == s + RStrip(t)
    decreases |t|
  {
    if t == "" {
      assert s + t == s;
    } else if IsSpace(t[|t| - 1]) {
      assert (s + t)[..|s + t| - 1] == s + t[..|t| - 1];
      RStripAfterWord(s, t[..|t| - 1]);
    }
  }

  // ---------------------------------------------------------------- splitting

  /** Python's `s.split()`: the maximal runs of visible characters. */
  function Split(s: string): seq<string> {
    Scan(s, "")
  }

  /** The words of `word + s`, where `word` is the visible text read so far. */
  function Scan(s: string, word: string): seq<string> {
    if s == "" then Flush(word)
    else if IsSpace(s[0]) then Flush(word) + Scan(s[1..], "")
    else Scan(s[1..], word + [s[0]])
  }

  function Flush(word: string): seq<string> {
    if word == "" then [] else [word]
  }

  lemma {:induction false} ScanBefore(a: string, rest: string, word: string)
    requires rest == "" || IsSpace(rest[0])
    ensures Scan(a + rest, word) == Scan(a, word) + Scan(rest, "")
    decreases |a|
  {
    if a == "" {
      assert a + rest == rest;
    } else {
      assert (a + rest)[1..] == a[1..] + rest;
      ScanBefore(a[1..], rest, if IsSpace(a[0]) then "" else word + [a[0]]);
    }
  }

  lemma {:induction false} ScanSpace(w: string, s: string)
    requires AllSpace(w)
    ensures Split(w + s) == Split(s)
  {
    if w == "" {
      assert w + s == s;
    } else {
      assert (w + s)[1..] == w[1..] + s;
      ScanSpace(w[1..], s);
    }
  }

  lemma {:induction false} ScanWord(w: string, word: string)
    requires NoSpace(w)
    ensures Scan(w, word) == Flush(word + w)
  {
    if w == "" {
      assert word + w == word;
    } else {
      assert word + w == (word + [w[0]]) + w[1..];
      ScanWord(w[1..], word + [w[0]]);
    }
  }

  /** White space between two texts keeps their words apart. */
  lemma SplitConcat(a: string, w: string, b: string)
    requires w != "" && AllSpace(w)
    ensures Split(a + w + b) == Split(a) + Split(b)
  {
    assert a + w + b == a + (w + b);
    ScanBefore(a, w + b, "");
    ScanSpace(w, b);
  }

  lemma SplitLStrip(s: string)
    ensures Split(LStrip(s)) == Split(s)
  {
    var t := LStrip(s);
    LStripParts(s);
    ScanSpace(s[..|s| - |t|], t);
    assert s == s[..|s| - |t|] + t;
  }

  lemma {:induction false} SplitRStrip(s: string)
    ensures Split(RStrip(s)) == Split(s)
  {
    var r := RStrip(s);
    RStripParts(s);
    var w := s[|r|..];
    assert s == r + w;
    if w == "" {
      assert r == s;
    } else {
      SplitConcat(r, w, "");
      assert r + w + "" == s;
      assert Split("") == [];
    }
  }

  lemma SplitStrip(s: string)
    ensures Split(Strip(s)) == Split(s)
  {
    SplitLStrip(RStrip(s));
    SplitRStrip(s);
  }

  // -------------------------------------------------------- character freedom

  lemma SliceFree(s: string, c: char, i: nat, j: nat)
    requires Free(s, c) && i <= j <= |s|
    ensures Free(s[i..j], c)
  {
  }

  lemma LStripFree(s: string, c: char)
    requires Free(s, c)
    ensures Free(LStrip(s), c)
  {
    LStripParts(s);
    SliceFree(s, c, |s| - |LStrip(s)|, |s|);
  }

  lemma RStripFree(s: string, c: char)
    requires Free(s, c)
    ensures Free(RStrip(s), c)
  {
    RStripParts(s);
    SliceFree(s, c, 0, |RStrip(s)|);
  }

  // -------------------------------------------------------- which characters

  /** The six characters of white space, by their code points. */
  lemma SpaceCodes(c: char)
    ensures IsSpace(c) <==> c as int == 9 || c as int == 10 || c as int == 11 || c as int == 12 || c as int == 13 || c as int == 32
  {
  }

  /** White space in front of a visible character is stripped, and nothing else. */
  lemma {:induction false} LStripSpaces(w: string, s: string)
    requires AllSpace(w) && (s == "" || !IsSpace(s[0]))
    ensures LStrip(w + s) == s
  {
    if w == "" {
      assert w + s == s;
    } else {
      assert (w + s)[1..] == w[1..] + s;
      LStripSpaces(w[1..], s);
    }
  }

  lemma {:induction false} RStripSpaces(s: string, w: string)
    requires AllSpace(w) && (s == "" || !IsSpace(s[|s| - 1]))
    ensures RStrip(s + w) == s
    decreases |w|
  {
    if w == "" {
      assert s + w == s;
    } else {
      assert (s + w)[..|s + w| - 1] == s + w[..|w| - 1];
      RStripSpaces(s, w[..|w| - 1]);
    }
  }

  /** Tabs and newlines separate words and are stripped, as blanks are. */
  lemma TabsAndNewlines(a: string, b: string)
    requires a != "" && b != "" && NoSpace(a) && NoSpace(b)
    ensures Split(a + "\t" + b) == Split(a + "\n" + b) == Split(a + " " + b) == [a, b]
    ensures Strip("\t " + a + "\r\n") == a
  {
    ScanWord(a, "");
    ScanWord(b, "");
    assert "" + a == a && "" + b == b;
    SplitConcat(a, "\t", b);
    SplitConcat(a, "\n", b);
    SplitConcat(a, " ", b);
    RStripSpaces("\t " + a, "\r\n");
    LStripSpaces("\t ", a);
  }
}
