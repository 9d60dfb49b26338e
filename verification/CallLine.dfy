/** One line of a call chain in the output of `perf script`: white space, the address
    in hexadecimal, white space, the symbol, white space, and the module in parentheses
    at the end of the line. The symbol may be empty and may contain anything. */
module CallLine {
  import opened Text

  predicate IsHex(c: char) {
    '0' <= c <= '9' || 'a' <= c <= 'f' || 'A' <= c <= 'F'
  }

  /** Where the groups of a match lie: the address is [a, h), the symbol [s, e), and
      the module stands between the parenthesis at `p` and the end of the line. */
  datatype Split = Split(a: nat, h: nat, s: nat, e: nat, p: nat)

  /** The pattern, piece by piece. */
  predicate Matches(line: string, m: Split) {
    && 0 < m.a < m.h < m.s <= m.e < m.p && m.p + 1 < |line|
    && (forall i | 0 <= i < m.a :: IsSpace(line[i]))
    && (forall i | m.a <= i < m.h :: IsHex(line[i]))
    && (forall i | m.h <= i < m.s :: IsSpace(line[i]))
    && (forall i | m.e <= i < m.p :: IsSpace(line[i]))
    && line[m.p] == '(' && line[|line| - 1] == ')'
    && forall i | m.p < i < |line| - 1 :: line[i] != ')'
  }

  /** The end of the white space that starts at `i`. */
  function SpaceEnd(line: string, i: nat): (k: nat)
    requires i <= |line|
    ensures i <= k <= |line| && (k < |line| ==> !IsSpace(line[k]))
    decreases |line| - i
  {
    if i < |line| && IsSpace(line[i]) then SpaceEnd(line, i + 1) else i
  }

  function HexEnd(line: string, i: nat): (k: nat)
    requires i <= |line|
    ensures i <= k <= |line| && (k < |line| ==> !IsHex(line[k]))
    decreases |line| - i
  {
    if i < |line| && IsHex(line[i]) then HexEnd(line, i + 1) else i
  }

  /** A `(` behind white space. */
  predicate Opens(line: string, p: nat) {
    0 < p < |line| && line[p] == '(' && IsSpace(line[p - 1])
  }

  /** No `)` in (q, p]. */
  predicate NotClosed(line: string, q: nat, p: nat)
    requires p < |line|
  {
    forall k | q < k <= p :: line[k] != ')'
  }

  /** From `p` down to `low + 1`: the last `(` behind white space, unless a `)` comes first. */
  function LastParen(line: string, low: nat, p: nat): (r: Option<nat>)
    requires p < |line|
    ensures r.Some? ==> low < r.value <= p
    decreases p
  {
    if p <= low || line[p] == ')' then None
    else if Opens(line, p) then Some(p)
    else LastParen(line, low, p - 1)
  }

  /** The match that greedy groups with backtracking find. */
  function Match(line: string): Option<Split> {
    var a := SpaceEnd(line, 0);
    var h := HexEnd(line, a);
    var w := SpaceEnd(line, h);
    var n := |line|;
    if a == 0 || h == a || w == h || n < w + 2 || line[n - 1] != ')' then None
    else
      match LastParen(line, w, n - 2)
      case Some(p) => Some(Split(a, h, w, p - 1, p))
      case None =>
        // give one blank of the white space behind the address back to the last \s+
        if w - h >= 2 && line[w] == '(' && NotClosed(line, w, n - 2) then Some(Split(a, h, w - 1, w - 1, w))
        else None
  }

  lemma {:induction false} SpaceEndAll(line: string, i: nat)
    requires i <= |line|
    ensures forall k | i <= k < SpaceEnd(line, i) :: IsSpace(line[k])
    decreases |line| - i
  {
    if i < |line| && IsSpace(line[i]) {
      SpaceEndAll(line, i + 1);
    }
  }

  lemma {:induction false} HexEndAll(line: string, i: nat)
    requires i <= |line|
    ensures forall k | i <= k < HexEnd(line, i) :: IsHex(line[k])
    decreases |line| - i
  {
    if i < |line| && IsHex(line[i]) {
      HexEndAll(line, i + 1);
    }
  }

  /** What is found is a parenthesis, nothing closes between it and `p`, and no
      parenthesis that could have been chosen lies behind it. */
  lemma {:induction false} LastParenIsLast(line: string, low: nat, p: nat)
    requires p < |line|
    ensures var r := LastParen(line, low, p);
            r.Some? ==> Opens(line, r.value) && NotClosed(line, r.value, p)
    ensures forall q | low < q <= p && Opens(line, q) && NotClosed(line, q, p) ::
              LastParen(line, low, p).Some? && q <= LastParen(line, low, p).value
    decreases p
  {
    if p > low && line[p] != ')' && !Opens(line, p) {
      LastParenIsLast(line, low, p - 1);
    }
  }

  lemma MatchIsSound(line: string)
    requires Match(line).Some?
    ensures Matches(line, Match(line).value)
  {
    var a := SpaceEnd(line, 0);
    var h := HexEnd(line, a);
    var w := SpaceEnd(line, h);
    SpaceEndAll(line, 0);
    HexEndAll(line, a);
    SpaceEndAll(line, h);
    LastParenIsLast(line, w, |line| - 2);
  }

  /** The leading groups of any match are the ones the function takes. */
  lemma PrefixIsForced(line: string, m: Split)
    requires Matches(line, m)
    ensures m.a == SpaceEnd(line, 0) && m.h == HexEnd(line, m.a) && m.s <= SpaceEnd(line, m.h)
  {
    SpaceEndAll(line, 0);
    assert IsHex(line[m.a]) && IsSpace(line[m.h]);
    SpaceEndStops(line, 0, m.a);
    HexEndAll(line, m.a);
    HexEndStops(line, m.a, m.h);
    SpaceEndReaches(line, m.h, m.s);
  }

  lemma {:induction false} SpaceEndReaches(line: string, i: nat, j: nat)
    requires i <= j <= |line| && forall k | i <= k < j :: IsSpace(line[k])
    ensures SpaceEnd(line, i) >= j
    decreases j - i
  {
    if i < j {
      SpaceEndReaches(line, i + 1, j);
    }
  }

  lemma {:induction false} SpaceEndStops(line: string, i: nat, j: nat)
    requires i <= j < |line| && !IsSpace(line[j]) && forall k | i <= k < j :: IsSpace(line[k])
    ensures SpaceEnd(line, i) == j
    decreases j - i
  {
    if i < j {
      SpaceEndStops(line, i + 1, j);
    }
  }

  lemma {:induction false} HexEndStops(line: string, i: nat, j: nat)
    requires i <= j < |line| && !IsHex(line[j]) && forall k | i <= k < j :: IsHex(line[k])
    ensures HexEnd(line, i) == j
    decreases j - i
  {
    if i < j {
      HexEndStops(line, i + 1, j);
    }
  }

  /** Every line that the pattern accepts is matched, with the groups that the
      backtracking search tries first: the longest, from left to right. */
  lemma MatchIsGreedy(line: string, m: Split)
    requires Matches(line, m)
    ensures Match(line).Some?
    ensures var g := Match(line).value;
            && g.a == m.a && g.h == m.h
            && (m.s < g.s || (m.s == g.s && m.e <= g.e))
  {
    var n := |line|;
    PrefixIsForced(line, m);
    var w := SpaceEnd(line, m.h);
    assert Opens(line, m.p) && NotClosed(line, m.p, n - 2);
    LastParenIsLast(line, w, n - 2);
    SpaceEndAll(line, m.h);
    assert m.p >= w;
  }

  // ------------------------------------------------------------------ a call

  datatype Call = Call(address: string, symbol: string, module_: string)

  function ParseCall(line: string): Option<Call> {
    var m := Match(line);
    if m.None? then None
    else
      var g := m.value;
      if g.p < |line| then Some(Call(line[g.a..g.h], line[g.s..g.e], line[g.p + 1..|line| - 1])) else None
  }

  function HexDigit(c: char): nat {
    if '0' <= c <= '9' then (c - '0') as nat
    else if 'a' <= c <= 'f' then (c - 'a') as nat + 10
    else if 'A' <= c <= 'F' then (c - 'A') as nat + 10
    else 0
  }

  /** `int(digits, 16)` */
  function HexValue(digits: string): nat {
    if digits == "" then 0
    else 16 * HexValue(digits[..|digits| - 1]) + HexDigit(digits[|digits| - 1])
  }

  // ---------------------------------------------------------- what is printed

  const LOWER_DIGITS := "0123456789abcdef"

  const UPPER_DIGITS := "0123456789ABCDEF"

  predicate DigitOf(c: char, v: nat) {
    v < 16 && (c == LOWER_DIGITS[v] || c == UPPER_DIGITS[v])
  }

  /** The digits in both letter cases have their values. */
  lemma DigitValue(c: char, v: nat)
    requires DigitOf(c, v)
    ensures IsHex(c) && HexDigit(c) == v
  {
  }

  /** There are no others. */
  lemma HexDigits(c: char)
    ensures IsHex(c) <==> exists v: nat :: DigitOf(c, v)
  {
    if IsHex(c) {
      assert DigitOf(c, HexDigit(c));
    }
    forall v: nat | DigitOf(c, v) ensures IsHex(c) {
      DigitValue(c, v);
    }
  }

  /** A number in base 16, without leading zeros. */
  function HexText(n: nat, digits: string): string
    requires |digits| == 16
  {
    (if n < 16 then "" else HexText(n / 16, digits)) + [digits[n % 16]]
  }

  lemma {:induction false} HexTextLength(n: nat)
    ensures |HexText(n, LOWER_DIGITS)| == |HexText(n, UPPER_DIGITS)| >= 1
  {
    if n >= 16 {
      HexTextLength(n / 16);
    }
  }

  /** `text` is that number with `zeros` zeros in front, each letter in either case. */
  predicate HexPrint(text: string, n: nat, zeros: nat) {
    var low, up := HexText(n, LOWER_DIGITS), HexText(n, UPPER_DIGITS);
    && |text| == zeros + |low| && |low| == |up|
    && (forall i | 0 <= i < zeros :: text[i] == '0')
    && forall i | 0 <= i < |low| :: text[zeros + i] == low[i] || text[zeros + i] == up[i]
  }

  lemma {:induction false} ZerosAreNothing(text: string)
    requires forall i | 0 <= i < |text| :: text[i] == '0'
    ensures HexValue(text) == 0 && forall i | 0 <= i < |text| :: IsHex(text[i])
  {
    if text != "" {
      ZerosAreNothing(text[..|text| - 1]);
    }
  }

  lemma LastDigit(text: string, n: nat, zeros: nat)
    requires HexPrint(text, n, zeros)
    ensures text != "" && DigitOf(text[|text| - 1], n % 16)
    ensures n >= 16 ==> HexPrint(text[..|text| - 1], n / 16, zeros)
    ensures n < 16 ==> |text| == zeros + 1
  {
    var low, up, k := HexText(n, LOWER_DIGITS), HexText(n, UPPER_DIGITS), |text| - 1;
    HexTextLength(n);
    assert text[zeros + (|low| - 1)] == low[|low| - 1] || text[zeros + (|low| - 1)] == up[|low| - 1];
    assert low[|low| - 1] == LOWER_DIGITS[n % 16] && up[|up| - 1] == UPPER_DIGITS[n % 16];
    if n >= 16 {
      var low', up' := HexText(n / 16, LOWER_DIGITS), HexText(n / 16, UPPER_DIGITS);
      HexTextLength(n / 16);
      assert low == low' + [LOWER_DIGITS[n % 16]] && up == up' + [UPPER_DIGITS[n % 16]];
      assert forall i | 0 <= i < |low'| :: low'[i] == low[i] && up'[i] == up[i];
    }
  }

  /** Reading the text of a number in base 16 gives the number. */
  lemma {:induction false} HexRoundTrip(text: string, n: nat, zeros: nat)
    requires HexPrint(text, n, zeros)
    ensures HexValue(text) == n && forall i | 0 <= i < |text| :: IsHex(text[i])
    decreases n
  {
    var before, c := text[..|text| - 1], text[|text| - 1];
    LastDigit(text, n, zeros);
    if n < 16 {
      assert forall i | 0 <= i < |before| :: before[i] == '0';
      OneDigit(before, n);
    } else {
      HexRoundTrip(before, n / 16, zeros);
    }
    OneMoreDigit(before, c, n);
    assert text == before + [c];
  }

  lemma OneDigit(before: string, n: nat)
    requires n < 16 && forall i | 0 <= i < |before| :: before[i] == '0'
    ensures HexValue(before) == n / 16 && forall i | 0 <= i < |before| :: IsHex(before[i])
  {
    ZerosAreNothing(before);
  }

  lemma OneMoreDigit(before: string, c: char, n: nat)
    requires HexValue(before) == n / 16 && DigitOf(c, n % 16) && forall i | 0 <= i < |before| :: IsHex(before[i])
    ensures HexValue(before + [c]) == n && forall i | 0 <= i < |before + [c]| :: IsHex((before + [c])[i])
  {
    var text := before + [c];
    assert text[..|text| - 1] == before && text[|text| - 1] == c;
    DigitValue(c, n % 16);
  }

  /** A call as it is printed. */
  function CallText(left: string, c: Call, middle: string): string {
    left + c.address + middle + (c.symbol + " (" + c.module_ + ")")
  }

  /** The symbol may be anything that does not start with white space. */
  predicate CallOk(left: string, c: Call, middle: string) {
    && left != "" && AllSpace(left) && middle != "" && AllSpace(middle)
    && c.address != "" && (forall i | 0 <= i < |c.address| :: IsHex(c.address[i]))
    && (c.symbol == "" || !IsSpace(c.symbol[0]))
    && Free(c.module_, ')')
  }

  /** No parenthesis behind white space, which would be taken for the start of the module. */
  predicate ModuleOk(name: string) {
    forall i | 0 < i < |name| && name[i] == '(' :: !IsSpace(name[i - 1])
  }

  /** The groups of that text. */
  function CallSplit(left: string, c: Call, middle: string): Split {
    var a, h, s := |left|, |left| + |c.address|, |left| + |c.address| + |middle|;
    Split(a, h, s, s + |c.symbol|, s + |c.symbol| + 1)
  }

  /** The characters of the text, group by group. */
  predicate CallChars(left: string, c: Call, middle: string, line: string, g: Split) {
    && 0 < g.a < g.h < g.s <= g.e && g.p == g.e + 1 && |line| == g.p + 2 + |c.module_|
    && g.a == |left| && g.h - g.a == |c.address| && g.s - g.h == |middle| && g.e - g.s == |c.symbol|
    && (forall i | 0 <= i < g.a :: line[i] == left[i])
    && (forall i | g.a <= i < g.h :: line[i] == c.address[i - g.a])
    && (forall i | g.h <= i < g.s :: line[i] == middle[i - g.h])
    && (forall i | g.s <= i < g.e :: line[i] == c.symbol[i - g.s])
    && line[g.e] == ' ' && line[g.p] == '(' && line[|line| - 1] == ')'
    && forall i | g.p < i < |line| - 1 :: line[i] == c.module_[i - g.p - 1]
  }

  lemma CallHasChars(left: string, c: Call, middle: string)
    requires left != "" && middle != "" && c.address != ""
    ensures CallChars(left, c, middle, CallText(left, c, middle), CallSplit(left, c, middle))
  {
  }

  lemma CallSlices(left: string, c: Call, middle: string, line: string, g: Split)
    requires CallChars(left, c, middle, line, g)
    ensures GroupsAre(line, g, c)
  {
  }

  lemma CallMatches(left: string, c: Call, middle: string, line: string, g: Split)
    requires CallOk(left, c, middle) && CallChars(left, c, middle, line, g)
    ensures Matches(line, g)
    ensures SpaceEnd(line, g.h) == if c.symbol == "" then g.p else g.s
  {
    SpaceEndStops(line, g.h, if c.symbol == "" then g.p else g.s);
  }

  lemma OpeningsOfCall(left: string, c: Call, middle: string, line: string, g: Split)
    requires CallChars(left, c, middle, line, g)
    ensures ModuleOk(c.module_) <==> forall i | g.p < i < |line| - 1 :: !Opens(line, i)
  {
    var name := c.module_;
    if i :| 0 < i < |name| && name[i] == '(' && IsSpace(name[i - 1]) {
      assert line[g.p + 1 + i] == name[i] && line[g.p + i] == name[i - 1];
      assert Opens(line, g.p + 1 + i);
    }
    if i :| g.p < i < |line| - 1 && Opens(line, i) {
      var k := i - g.p - 1;
      assert line[i] == name[k] && line[g.p] == '(';
      assert k > 0 && line[i - 1] == name[k - 1];
    }
  }

  /** Printing a call and reading it gives the call back if and only if no parenthesis in
      the module stands behind white space. */
  lemma CallRoundTrip(left: string, c: Call, middle: string)
    requires CallOk(left, c, middle)
    ensures ParseCall(CallText(left, c, middle)) == Some(c) <==> ModuleOk(c.module_)
  {
    var line, m := CallText(left, c, middle), CallSplit(left, c, middle);
    CallHasChars(left, c, middle);
    CallMatches(left, c, middle, line, m);
    OpeningsOfCall(left, c, middle, line, m);
    if ModuleOk(c.module_) {
      OnlyMatch(line, m);
      CallSlices(left, c, middle, line, m);
      ReadGroups(line, m, c);
    } else {
      LaterParenWins(line, m);
    }
  }

  /** Another such parenthesis shortens the module. */
  lemma LaterParenWins(line: string, m: Split)
    requires Matches(line, m)
    requires exists i :: m.p < i < |line| - 1 && Opens(line, i)
    ensures ParseCall(line).Some? ==> |ParseCall(line).value.module_| < |line| - m.p - 2
  {
    PrefixIsForced(line, m);
    SpaceEndAll(line, m.h);
    LastParenIsLast(line, SpaceEnd(line, m.h), |line| - 2);
  }

  /** The groups of a match are those of the call. */
  predicate GroupsAre(line: string, g: Split, c: Call) {
    && g.a <= g.h <= g.s <= g.e < g.p && g.p + 1 < |line|
    && line[g.a..g.h] == c.address && line[g.s..g.e] == c.symbol && line[g.p + 1..|line| - 1] == c.module_
  }

  lemma ReadGroups(line: string, m: Split, c: Call)
    requires Match(line) == Some(m) && GroupsAre(line, m, c)
    ensures ParseCall(line) == Some(c)
  {
  }

  lemma OnlyMatch(line: string, m: Split)
    requires Matches(line, m) && m.p == m.e + 1
    requires SpaceEnd(line, m.h) == (if m.s == m.e then m.p else m.s)
    requires forall i | m.p < i < |line| - 1 :: !Opens(line, i)
    ensures Match(line) == Some(m)
  {
    MatchIsGreedy(line, m);
    MatchOfCall(line, m, Match(line).value);
  }

  /** No other parenthesis can open the module, and only one blank is left before it. */
  lemma MatchOfCall(line: string, m: Split, g: Split)
    requires Matches(line, m) && Match(line) == Some(g) && m.p == m.e + 1
    requires SpaceEnd(line, m.h) == (if m.s == m.e then m.p else m.s)
    requires forall i | m.p < i < |line| - 1 :: !Opens(line, i)
    ensures g == m
  {
    PrefixIsForced(line, m);
    var w := SpaceEnd(line, m.h);
    LastParenIsLast(line, w, |line| - 2);
    assert Opens(line, m.p) && NotClosed(line, m.p, |line| - 2);
    var r := LastParen(line, w, |line| - 2);
    assert r.Some? ==> Opens(line, r.value) && r.value <= m.p;
  }
}
