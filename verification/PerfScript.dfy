/** What bin/perf-annotate-jit.py counts: the parser's effect on a stream of lines,
    and what that means for records of `perf script` output. */
module PerfScript {
  import opened Text
  import opened CallLine

  // ------------------------------------------------------------------ the lines

  /** `line.rstrip('\r\n')` */
  function Chomp(line: string): string {
    if line != "" && (line[|line| - 1] == '\n' || line[|line| - 1] == '\r') then Chomp(line[..|line| - 1])
    else line
  }

  predicate IsComment(line: string) {
    line != "" && line[0] == '#'
  }

  /** The lines of the file from `pos` on as the parser sees them. */
  function Clean(file: seq<string>, pos: nat): seq<string>
    requires pos <= |file|
    decreases |file| - pos
  {
    if pos == |file| then []
    else
      var line := Chomp(file[pos]);
      (if IsComment(line) then [] else [line]) + Clean(file, pos + 1)
  }

  /** What is cut off a line are the line ends at its end, by their code points, and no more. */
  lemma {:induction false} ChompParts(line: string)
    ensures var r := Chomp(line);
            && |r| <= |line| && r == line[..|r|]
            && (forall i | |r| <= i < |line| :: line[i] as int == 10 || line[i] as int == 13)
            && (r != "" ==> r[|r| - 1] as int != 10 && r[|r| - 1] as int != 13)
  {
    if line != "" && (line[|line| - 1] == '\n' || line[|line| - 1] == '\r') {
      ChompParts(line[..|line| - 1]);
    }
  }

  /** A comment is a line that starts with `#`. */
  lemma CommentByText(line: string)
    ensures IsComment(Chomp(line)) <==> line != "" && line[0] as int == 35
  {
    ChompParts(line);
  }

  lemma {:induction false} CleanConcat(a: seq<string>, b: seq<string>, pos: nat)
    requires pos <= |a|
    ensures Clean(a + b, pos) == Clean(a, pos) + Clean(b, 0)
    decreases |a| - pos
  {
    var all := a + b;
    if pos < |a| {
      CleanConcat(a, b, pos + 1);
      assert all[pos] == a[pos];
      Associative(if IsComment(Chomp(a[pos])) then [] else [Chomp(a[pos])], Clean(a, pos + 1), Clean(b, 0));
    } else {
      assert all[|a|..] == b[0..];
      CleanShift(all, |a|, b, 0);
    }
  }

  lemma Associative(x: seq<string>, y: seq<string>, z: seq<string>)
    ensures x + (y + z) == (x + y) + z && [] + z == z
  {
  }

  /** Every other line is kept, without its line end, in its place. */
  lemma LinesAreKept(a: seq<string>, line: string, b: seq<string>)
    requires line == "" || line[0] != '#'
    ensures Clean(a + [line] + b, 0) == Clean(a, 0) + [Chomp(line)] + Clean(b, 0)
  {
    CommentByText(line);
    CleanConcat(a + [line], b, 0);
    CleanConcat(a, [line], 0);
    assert Clean([line], 1) == [];
    assert Clean([line], 0) == [Chomp(line)];
  }

  /** Comment lines make no difference, wherever they stand. */
  lemma CommentsAreIgnored(a: seq<string>, c: string, b: seq<string>)
    requires c != "" && c[0] == '#'
    ensures Clean(a + [c] + b, 0) == Clean(a + b, 0)
  {
    CommentByText(c);
    CommentIsIgnored(a, c, b, 0);
  }

  lemma {:induction false} CommentIsIgnored(a: seq<string>, c: string, b: seq<string>, pos: nat)
    requires IsComment(Chomp(c)) && pos <= |a|
    ensures Clean(a + [c] + b, pos) == Clean(a + b, pos)
    decreases |a| - pos
  {
    if pos < |a| {
      CommentIsIgnored(a, c, b, pos + 1);
      assert (a + [c] + b)[pos] == (a + b)[pos] == a[pos];
    } else {
      assert (a + [c] + b)[pos] == c;
      CleanShift(a + [c] + b, pos + 1, a + b, pos);
    }
  }

  lemma {:induction false} CleanShift(f: seq<string>, i: nat, g: seq<string>, j: nat)
    requires i <= |f| && j <= |g| && f[i..] == g[j..]
    ensures Clean(f, i) == Clean(g, j)
    decreases |f| - i
  {
    assert |f| - i == |f[i..]| == |g[j..]| == |g| - j;
    if i < |f| {
      assert f[i] == f[i..][0] == g[j..][0] == g[j];
      assert f[i + 1..] == f[i..][1..] == g[j..][1..] == g[j + 1..];
      CleanShift(f, i + 1, g, j + 1);
    }
  }

  // ------------------------------------------------------------------- one call

  datatype MapEntry = MapEntry(start: int, symbol: string)

  /** The symbol asked for, and the map files by name. */
  datatype Env = Env(symbol: string, maps: map<string, seq<MapEntry>>)

  datatype Tally = Tally(samples: map<int, nat>, mapFile: Option<string>)

  datatype Error = AssertionError | TypeError | CannotOpen(file: string)

  /** The first entry with the symbol. */
  function LookupMap(entries: seq<MapEntry>, symbol: string): Option<int> {
    if entries == [] then None
    else if entries[0].symbol == symbol then Some(entries[0].start)
    else LookupMap(entries[1..], symbol)
  }

  function Bump(samples: map<int, nat>, offset: int): map<int, nat> {
    samples[offset := 1 + if offset in samples then samples[offset] else 0]
  }

  function FunctionName(c: Call): string {
    if c.symbol == "" then c.address else c.symbol
  }

  datatype Sample = Sample(offset: int, file: string)

  function Add(t: Tally, s: Sample): Tally {
    Tally(Bump(t.samples, s.offset), Some(s.file))
  }

  /** The sample that a leaf call stands for, if it is in the symbol asked for. */
  function SampleOfCall(env: Env, c: Call): Result<Option<Sample>, Error> {
    if FunctionName(c) != env.symbol then Ok(None)
    else if c.module_ !in env.maps then Err(CannotOpen(c.module_))
    else
      var start := LookupMap(env.maps[c.module_], env.symbol);
      if start.None? then Err(TypeError) else Ok(Some(Sample(HexValue(c.address) - start.value, c.module_)))
  }

  function SampleOf(env: Env, line: string): Result<Option<Sample>, Error> {
    var c := ParseCall(line);
    if c.None? then Err(AssertionError) else SampleOfCall(env, c.value)
  }

  /** Entry `k` is the first with the symbol. */
  predicate FirstEntry(entries: seq<MapEntry>, symbol: string, k: nat) {
    k < |entries| && entries[k].symbol == symbol && forall i | 0 <= i < k :: entries[i].symbol != symbol
  }

  lemma {:induction false} LookupMapIsFirst(entries: seq<MapEntry>, symbol: string)
    ensures forall k: nat | FirstEntry(entries, symbol, k) :: LookupMap(entries, symbol) == Some(entries[k].start)
    ensures (forall i | 0 <= i < |entries| :: entries[i].symbol != symbol) <==> LookupMap(entries, symbol) == None
  {
    if entries != [] && entries[0].symbol != symbol {
      var rest := entries[1..];
      LookupMapIsFirst(rest, symbol);
      forall k: nat | FirstEntry(entries, symbol, k) ensures LookupMap(entries, symbol) == Some(entries[k].start) {
        assert FirstEntry(rest, symbol, k - 1) by {
          assert forall i | 0 <= i < k - 1 :: rest[i] == entries[i + 1];
        }
      }
      assert forall i | 0 < i < |entries| :: entries[i] == rest[i - 1];
    }
  }

  /** What a printed call counts for as a leaf, by the number its address is the text of: in
      the symbol asked for, the distance from the start of the first map entry. A call
      without a symbol goes by its address. */
  lemma LeafOffset(env: Env, left: string, c: Call, middle: string, n: nat, zeros: nat)
    requires CallOk(left, c, middle) && ModuleOk(c.module_) && HexPrint(c.address, n, zeros)
    ensures var s, name := SampleOf(env, CallText(left, c, middle)), if c.symbol != "" then c.symbol else c.address;
            && (name != env.symbol ==> s == Ok(None))
            && (name == env.symbol && c.module_ !in env.maps ==> s == Err(CannotOpen(c.module_)))
            && (name == env.symbol && c.module_ in env.maps ==>
                  var entries := env.maps[c.module_];
                  && (forall k: nat | FirstEntry(entries, name, k) ::
                        s == Ok(Some(Sample(n - entries[k].start, c.module_))))
                  && ((forall i | 0 <= i < |entries| :: entries[i].symbol != name) ==> s == Err(TypeError)))
  {
    CallRoundTrip(left, c, middle);
    LeafOfCall(env, c, n, zeros);
  }

  lemma LeafOfCall(env: Env, c: Call, n: nat, zeros: nat)
    requires HexPrint(c.address, n, zeros)
    ensures var s, name := SampleOfCall(env, c), if c.symbol != "" then c.symbol else c.address;
            && (name != env.symbol ==> s == Ok(None))
            && (name == env.symbol && c.module_ !in env.maps ==> s == Err(CannotOpen(c.module_)))
            && (name == env.symbol && c.module_ in env.maps ==>
                  var entries := env.maps[c.module_];
                  && (forall k: nat | FirstEntry(entries, name, k) ::
                        s == Ok(Some(Sample(n - entries[k].start, c.module_))))
                  && ((forall i | 0 <= i < |entries| :: entries[i].symbol != name) ==> s == Err(TypeError)))
  {
    HexRoundTrip(c.address, n, zeros);
    if c.module_ in env.maps {
      LookupMapIsFirst(env.maps[c.module_], env.symbol);
    }
  }

  /** All that the parser takes from a line: whether it is blank, and if not, what it counts
      for as the leaf of a chain and whether it is a call at all. */
  datatype Reading = BlankLine | Line(leaf: Result<Option<Sample>, Error>, isCall: bool)

  function Read(env: Env, line: string): Reading {
    if line == "" then BlankLine else Line(SampleOf(env, line), ParseCall(line).Some?)
  }

  function ReadAll(env: Env, lines: seq<string>): (rs: seq<Reading>)
    ensures |rs| == |lines|
  {
    if lines == [] then [] else [Read(env, lines[0])] + ReadAll(env, lines[1..])
  }

  lemma ReadFirst(env: Env, lines: seq<string>)
    requires lines != []
    ensures ReadAll(env, lines)[0] == Read(env, lines[0]) && ReadAll(env, lines)[1..] == ReadAll(env, lines[1..])
  {
  }

  // ---------------------------------------------------------------- the events

  function DropBlank(rest: seq<Reading>): seq<Reading> {
    if rest != [] && rest[0].BlankLine? then rest[1..] else rest
  }

  /** What the calls of a chain leave: the tally and the lines behind them. A chain whose
      leaf was counted swallows one more call; any other ends right behind its leaf. */
  function Calls(t: Tally, rest: seq<Reading>): Result<(Tally, seq<Reading>), Error> {
    if rest == [] || rest[0].BlankLine? then Ok((t, rest))
    else if rest[0].leaf.Err? then Err(rest[0].leaf.error)
    else if rest[0].leaf.value.None? then Ok((t, rest[1..]))
    else if |rest| == 1 || rest[1].BlankLine? then Ok((Add(t, rest[0].leaf.value.value), rest[1..]))
    else if !rest[1].isCall then Err(AssertionError)
    else Ok((Add(t, rest[0].leaf.value.value), rest[2..]))
  }

  /** parse_callchain also drops the blank line behind the calls. */
  function Chain(t: Tally, rest: seq<Reading>): Result<(Tally, seq<Reading>), Error> {
    var c := Calls(t, rest);
    if c.Err? then c else Ok((c.value.0, DropBlank(c.value.1)))
  }

  /** All events: the line at the front is taken for a header, whatever it is. */
  function Events(t: Tally, rest: seq<Reading>): Result<Tally, Error>
    decreases |rest|
  {
    if rest == [] then Ok(t)
    else if rest[0].BlankLine? then Err(AssertionError)
    else
      match Chain(t, rest[1..])
      case Err(e) => Err(e)
      case Ok(r) =>
        assert |r.1| < |rest| by { ChainShrinks(t, rest[1..]); }
        Events(r.0, r.1)
  }

  /** A chain never gives lines back. */
  lemma ChainShrinks(t: Tally, rest: seq<Reading>)
    ensures Chain(t, rest).Ok? ==> |Chain(t, rest).value.1| <= |rest|
  {
  }

  // -------------------------------------------------------------------- records

  /** One event: a header, then the calls from the leaf outwards. */
  datatype Record = Record(header: Reading, frames: seq<Reading>)

  predicate Visible(rs: seq<Reading>) {
    forall i | 0 <= i < |rs| :: rs[i].Line?
  }

  /** No line of a record is blank. */
  predicate Shaped(records: seq<Record>) {
    forall i | 0 <= i < |records| :: records[i].header.Line? && Visible(records[i].frames)
  }

  /** The sample a frame gives as a leaf. */
  function Leaf(r: Reading): Option<Sample> {
    if r.Line? && r.leaf.Ok? then r.leaf.value else None
  }

  /** The records as `perf script` prints them: a blank line ends each record, except
      perhaps the last one of the file. */
  function Print(records: seq<Record>, closed: bool): seq<Reading>
    decreases |records|, 1
  {
    if records == [] then []
    else [records[0].header] + (records[0].frames + Ending(records, closed))
  }

  function Ending(records: seq<Record>, closed: bool): seq<Reading>
    requires records != []
    decreases |records|, 0
  {
    if |records| == 1 && !closed then [] else [BlankLine] + Print(records[1..], closed)
  }

  /** The samples a chain of frames contributes, from frame `i` read as a leaf on.
      Behind the frames one event consumes, the next frame is read as a header and
      the one after it as a leaf. */
  function Counted(rs: seq<Reading>, i: nat): seq<Sample>
    decreases |rs| - i
  {
    if i >= |rs| then []
    else
      match Leaf(rs[i])
      case None => Counted(rs, i + 2)
      case Some(s) => [s] + Counted(rs, i + 3)
  }

  function AddAll(t: Tally, samples: seq<Sample>): Tally
    decreases |samples|
  {
    if samples == [] then t else AddAll(Add(t, samples[0]), samples[1..])
  }

  function AllCounted(records: seq<Record>): seq<Sample> {
    if records == [] then [] else Counted(records[0].frames, 0) + AllCounted(records[1..])
  }

  lemma {:induction false} AddAllConcat(t: Tally, a: seq<Sample>, b: seq<Sample>)
    ensures AddAll(t, a + b) == AddAll(AddAll(t, a), b)
    decreases |a|
  {
    if a == [] {
      assert a + b == b;
    } else {
      assert (a + b)[1..] == a[1..] + b;
      AddAllConcat(Add(t, a[0]), a[1..], b);
    }
  }

  /** The frame behind what the chain that starts at frame `i` consumes. */
  function ChainEnd(rs: seq<Reading>, i: nat): (j: nat)
    requires i < |rs|
    ensures i < j <= |rs|
  {
    if Leaf(rs[i]).None? || i + 1 == |rs| then i + 1 else i + 2
  }

  /** The chain that starts at frame `i` is read without an error: the leaf is a call, in a
      map file if it is in the symbol asked for, and the call read behind a counted one is
      a call too. */
  predicate ChainReads(rs: seq<Reading>, i: nat)
    requires i < |rs|
  {
    rs[i].Line? && rs[i].leaf.Ok? &&
    (rs[i].leaf.value.Some? && i + 1 < |rs| ==> rs[i + 1].Line? && rs[i + 1].isCall)
  }

  /** ... and so are the chains behind it. The frames in between are only headers, so any
      text will do there. */
  predicate Readable(rs: seq<Reading>, i: nat)
    decreases |rs| - i
  {
    i < |rs| ==> ChainReads(rs, i) && Readable(rs, ChainEnd(rs, i) + 1)
  }

  /** The lines from frame `i` on, with those behind the frames. */
  function Ahead(frames: seq<Reading>, i: nat, stop: seq<Reading>): seq<Reading>
    requires i <= |frames|
    decreases |frames| - i
  {
    if i == |frames| then stop else [frames[i]] + Ahead(frames, i + 1, stop)
  }

  lemma {:induction false} AheadIsRest(frames: seq<Reading>, i: nat, stop: seq<Reading>)
    requires i <= |frames|
    ensures Ahead(frames, i, stop) == frames[i..] + stop
    decreases |frames| - i
  {
    if i < |frames| {
      AheadIsRest(frames, i + 1, stop);
      assert frames[i..] == [frames[i]] + frames[i + 1..];
    }
  }

  lemma AheadStep(frames: seq<Reading>, i: nat, stop: seq<Reading>)
    requires i < |frames|
    ensures var rest := Ahead(frames, i, stop);
            |rest| > 0 && rest[0] == frames[i] && rest[1..] == Ahead(frames, i + 1, stop)
  {
  }

  lemma CallsOnFrames(t: Tally, frames: seq<Reading>, i: nat, stop: seq<Reading>)
    requires Visible(frames) && i < |frames|
    requires stop == [] || stop[0].BlankLine?
    ensures var c := Calls(t, Ahead(frames, i, stop));
            if ChainReads(frames, i) then c == Ok((Counting(t, frames[i]), Ahead(frames, ChainEnd(frames, i), stop)))
            else c.Err?
  {
    var rest := Ahead(frames, i, stop);
    AheadStep(frames, i, stop);
    if i + 1 < |frames| {
        AheadStep(frames, i + 1, stop);
      assert rest[1] == rest[1..][0] && rest[2..] == rest[1..][1..];
    } else {
      assert |rest| > 1 ==> rest[1] == stop[0];
    }
  }

  lemma EventStep(t: Tally, header: Reading, rest: seq<Reading>)
    requires header.Line? && Chain(t, rest).Ok?
    ensures Events(t, [header] + rest) ==
            Events(Chain(t, rest).value.0, Chain(t, rest).value.1)
  {
    assert ([header] + rest)[1..] == rest;
  }

  lemma CountedStep(t: Tally, rs: seq<Reading>, i: nat)
    requires i < |rs|
    ensures AddAll(t, Counted(rs, i)) == AddAll(Counting(t, rs[i]), Counted(rs, ChainEnd(rs, i) + 1))
  {
    var s := Leaf(rs[i]);
    if s.Some? {
      assert ([s.value] + Counted(rs, i + 3))[1..] == Counted(rs, i + 3);
      if i + 1 == |rs| {
        assert Counted(rs, i + 2) == Counted(rs, i + 3) == [];
      }
    }
  }

  function Counting(t: Tally, r: Reading): Tally {
    var s := Leaf(r);
    if s.None? then t else Add(t, s.value)
  }

  /** The outcome is that of the events behind, or an error if something was not readable. */
  predicate GoesOn(outcome: Result<Tally, Error>, readable: bool, behind: Result<Tally, Error>) {
    if readable then outcome == behind else outcome.Err?
  }

  lemma EventOnFrames(t: Tally, header: Reading, frames: seq<Reading>, i: nat, stop: seq<Reading>)
    requires header.Line? && i < |frames| && Visible(frames)
    requires stop == [] || stop[0].BlankLine?
    ensures GoesOn(Events(t, [header] + Ahead(frames, i, stop)), ChainReads(frames, i),
                   Events(Counting(t, frames[i]), DropBlank(Ahead(frames, ChainEnd(frames, i), stop))))
  {
    CallsOnFrames(t, frames, i, stop);
    var rest := Ahead(frames, i, stop);
    if ChainReads(frames, i) {
      EventStep(t, header, rest);
    } else {
      assert ([header] + rest)[1..] == rest;
    }
  }

  lemma NoFramesLeft(t: Tally, header: Reading, stop: seq<Reading>)
    requires header.Line? && (stop == [] || stop[0].BlankLine?)
    ensures Events(t, [header] + stop) == Events(t, DropBlank(stop))
  {
    EventStep(t, header, stop);
  }

  /** Wherever in a chain the parser starts an event, it gets back in step with the
      records at the blank line, having counted what `Counted` says, or fails. */
  lemma {:induction false} ChainResynchronises(t: Tally, header: Reading, frames: seq<Reading>,
                                               i: nat, stop: seq<Reading>)
    requires header.Line? && i <= |frames| && Visible(frames)
    requires stop == [] || stop[0].BlankLine?
    ensures GoesOn(Events(t, [header] + Ahead(frames, i, stop)), Readable(frames, i),
                   Events(AddAll(t, Counted(frames, i)), DropBlank(stop)))
    decreases |frames| - i
  {
    if i == |frames| {
      NoFramesLeft(t, header, stop);
    } else {
      EventOnFrames(t, header, frames, i, stop);
      CountedStep(t, frames, i);
      AfterChain(Counting(t, frames[i]), frames, ChainEnd(frames, i), stop);
    }
  }

  /** Behind a chain: the blank line, or a frame that is read as a header. */
  lemma {:induction false} AfterChain(t: Tally, frames: seq<Reading>, j: nat, stop: seq<Reading>)
    requires 0 < j <= |frames| && Visible(frames)
    requires stop == [] || stop[0].BlankLine?
    ensures GoesOn(Events(t, DropBlank(Ahead(frames, j, stop))), Readable(frames, j + 1),
                   Events(AddAll(t, Counted(frames, j + 1)), DropBlank(stop)))
    decreases |frames| - j
  {
    if j < |frames| {
      FrameIsHeader(frames, j, stop);
      ChainResynchronises(t, frames[j], frames, j + 1, stop);
    }
  }

  lemma FrameIsHeader(frames: seq<Reading>, j: nat, stop: seq<Reading>)
    requires j < |frames| && frames[j].Line?
    ensures DropBlank(Ahead(frames, j, stop)) == [frames[j]] + Ahead(frames, j + 1, stop)
  {
  }

  predicate AllReadable(records: seq<Record>) {
    forall i | 0 <= i < |records| :: Readable(records[i].frames, 0)
  }

  lemma AllReadableRest(records: seq<Record>)
    requires records != []
    ensures AllReadable(records) <==> Readable(records[0].frames, 0) && AllReadable(records[1..])
  {
    assert forall i | 0 < i < |records| :: records[i] == records[1..][i - 1];
  }

  /** The first record and the lines behind it. */
  lemma FirstRecord(t: Tally, r: Record, stop: seq<Reading>)
    requires r.header.Line? && Visible(r.frames)
    requires stop == [] || stop[0].BlankLine?
    ensures GoesOn(Events(t, [r.header] + (r.frames + stop)), Readable(r.frames, 0),
                   Events(AddAll(t, Counted(r.frames, 0)), DropBlank(stop)))
  {
    AheadIsRest(r.frames, 0, stop);
    assert r.frames[0..] == r.frames;
    ChainResynchronises(t, r.header, r.frames, 0, stop);
  }

  /** For every stream of records the parser ends in step, having counted exactly the
      samples of the records, if and only if all of them are readable. */
  lemma {:induction false} RecordsAreCounted(t: Tally, records: seq<Record>, closed: bool)
    requires Shaped(records)
    ensures var o := Events(t, Print(records, closed));
            if AllReadable(records) then o == Ok(AddAll(t, AllCounted(records))) else o.Err?
    decreases |records|
  {
    if records != [] {
      var r, rest, stop := records[0], records[1..], Ending(records, closed);
      FirstRecord(t, r, stop);
      assert DropBlank(stop) == Print(rest, closed);
      AllReadableRest(records);
      RecordsAreCounted(AddAll(t, Counted(r.frames, 0)), rest, closed);
      AddAllConcat(t, Counted(r.frames, 0), AllCounted(rest));
    }
  }

  // ------------------------------------------------------ any file at all

  datatype Stream = Stream(records: seq<Record>, closed: bool)

  /** The first blank line from `i` on, or the end. */
  function BlankFrom(lines: seq<Reading>, i: nat): (k: nat)
    requires i <= |lines|
    ensures i <= k <= |lines| && (k < |lines| ==> lines[k].BlankLine?)
    decreases |lines| - i
  {
    if i == |lines| || lines[i].BlankLine? then i else BlankFrom(lines, i + 1)
  }

  /** The records of a file; None if a blank line stands where a header should be. */
  function ToRecords(lines: seq<Reading>): Option<Stream> {
    if lines == [] then Some(Stream([], true))
    else if lines[0].BlankLine? then None
    else
      var k := BlankFrom(lines, 1);
      var r := Record(lines[0], lines[1..k]);
      if k == |lines| then Some(Stream([r], false))
      else
        var rest := ToRecords(lines[k + 1..]);
        if rest.None? then None else Some(Stream([r] + rest.value.records, rest.value.closed))
  }

  lemma {:induction false} NoneBlankBefore(lines: seq<Reading>, i: nat)
    requires i <= |lines|
    ensures Visible(lines[i..BlankFrom(lines, i)])
    decreases |lines| - i
  {
    var k := BlankFrom(lines, i);
    if k > i {
      NoneBlankBefore(lines, i + 1);
      assert lines[i..k] == [lines[i]] + lines[i + 1..k];
    }
  }

  lemma FirstRecordOf(lines: seq<Reading>)
    requires lines != [] && lines[0].Line?
    ensures var k := BlankFrom(lines, 1);
            Visible(lines[1..k]) && lines == [lines[0]] + (lines[1..k] + lines[k..])
  {
    NoneBlankBefore(lines, 1);
  }

  lemma BlankInFront(lines: seq<Reading>, k: nat)
    requires k < |lines| && lines[k].BlankLine?
    ensures lines[k..] == [BlankLine] + lines[k + 1..]
  {
  }

  predicate Prints(s: Stream, lines: seq<Reading>) {
    Shaped(s.records) && Print(s.records, s.closed) == lines && (s.records == [] ==> s.closed)
  }

  /** What is read as records is their print. */
  lemma {:induction false} ToRecordsPrints(lines: seq<Reading>)
    requires ToRecords(lines).Some?
    ensures Prints(ToRecords(lines).value, lines)
    decreases |lines|
  {
    if lines != [] {
      var k := BlankFrom(lines, 1);
      FirstRecordOf(lines);
      if k == |lines| {
        LastRecordPrints(lines, lines[1..]);
      } else {
        BlankInFront(lines, k);
        ToRecordsPrints(lines[k + 1..]);
        FirstRecordPrints(lines, lines[1..k], lines[k + 1..], ToRecords(lines[k + 1..]).value);
      }
    }
  }

  lemma LastRecordPrints(lines: seq<Reading>, frames: seq<Reading>)
    requires lines != [] && lines[0].Line? && Visible(frames) && lines == [lines[0]] + frames
    ensures Prints(Stream([Record(lines[0], frames)], false), lines)
  {
    assert frames + [] == frames;
  }

  lemma FirstRecordPrints(lines: seq<Reading>, frames: seq<Reading>, after: seq<Reading>, s: Stream)
    requires lines != [] && lines[0].Line? && Visible(frames) && lines == [lines[0]] + (frames + ([BlankLine] + after))
    requires Prints(s, after)
    ensures Prints(Stream([Record(lines[0], frames)] + s.records, s.closed), lines)
  {
    RecordInFront(Record(lines[0], frames), s);
  }

  lemma RecordInFront(r: Record, s: Stream)
    requires s.records == [] ==> s.closed
    ensures Print([r] + s.records, s.closed) == [r.header] + (r.frames + ([BlankLine] + Print(s.records, s.closed)))
    ensures r.header.Line? && Visible(r.frames) && Shaped(s.records) ==> Shaped([r] + s.records)
  {
    assert ([r] + s.records)[1..] == s.records;
  }

  /** A blank line in the place of a header is an error. */
  lemma {:induction false} NoRecordsNoEvents(t: Tally, lines: seq<Reading>)
    requires ToRecords(lines).None?
    ensures Events(t, lines).Err?
    decreases |lines|
  {
    if lines[0].Line? {
      var k := BlankFrom(lines, 1);
      var r := Record(lines[0], lines[1..k]);
      FirstRecordOf(lines);
      FirstRecord(t, r, lines[k..]);
      assert lines[k..][1..] == lines[k + 1..];
      NoRecordsNoEvents(AddAll(t, Counted(r.frames, 0)), lines[k + 1..]);
    }
  }

  /** Which files the parser reads: exactly those that are streams of readable records. */
  lemma EventsSucceed(t: Tally, lines: seq<Reading>)
    ensures var s, o := ToRecords(lines), Events(t, lines);
            if s.Some? && AllReadable(s.value.records) then o == Ok(AddAll(t, AllCounted(s.value.records)))
            else o.Err?
  {
    if ToRecords(lines).None? {
      NoRecordsNoEvents(t, lines);
    } else {
      ToRecordsPrints(lines);
      RecordsAreCounted(t, ToRecords(lines).value.records, ToRecords(lines).value.closed);
    }
  }

  // --------------------------------------------------------------- the histogram

  function LeafSamples(rs: seq<Reading>): seq<Sample> {
    if rs == [] || Leaf(rs[0]).None? then [] else [Leaf(rs[0]).value]
  }

  /** The first frame behind the leaf that is read as a leaf again. */
  function NextLeaf(rs: seq<Reading>): nat {
    if rs == [] || Leaf(rs[0]).None? then 2 else 3
  }

  /** Frame `i` and every second frame behind it is outside the symbol asked for. */
  predicate SilentFrom(rs: seq<Reading>, i: nat) {
    forall j | i <= j < |rs| && (j - i) % 2 == 0 :: Leaf(rs[j]) == None
  }

  /** As long as nothing is counted, every second frame is read as a leaf. */
  lemma {:induction false} NothingCounted(rs: seq<Reading>, i: nat)
    ensures Counted(rs, i) == [] <==> SilentFrom(rs, i)
    decreases |rs| - i
  {
    if i < |rs| {
      SilentStep(rs, i);
      if Leaf(rs[i]).None? {
        NothingCounted(rs, i + 2);
      }
    }
  }

  lemma SilentStep(rs: seq<Reading>, i: nat)
    requires i < |rs|
    ensures SilentFrom(rs, i) <==> Leaf(rs[i]).None? && SilentFrom(rs, i + 2)
  {
    if Leaf(rs[i]).None? && SilentFrom(rs, i + 2) {
      forall j | i <= j < |rs| && (j - i) % 2 == 0 ensures Leaf(rs[j]) == None {
        if j != i {
          assert (j - (i + 2)) % 2 == 0;
        }
      }
    }
    if SilentFrom(rs, i) {
      forall j | i + 2 <= j < |rs| && (j - (i + 2)) % 2 == 0 ensures Leaf(rs[j]) == None {
        assert (j - i) % 2 == 0;
      }
    }
  }

  lemma CountedParts(rs: seq<Reading>)
    ensures Counted(rs, 0) == LeafSamples(rs) + Counted(rs, NextLeaf(rs))
  {
  }

  /** A record counts for its leaf alone exactly when none of the callers that are read
      as leaves is in the symbol asked for: every second one, from the third frame on,
      or from the fourth if the leaf was counted. */
  lemma OnlyLeafIsCounted(rs: seq<Reading>)
    ensures Counted(rs, 0) == LeafSamples(rs) <==> SilentFrom(rs, NextLeaf(rs))
  {
    CountedParts(rs);
    NothingCounted(rs, NextLeaf(rs));
  }

  function AllLeaves(records: seq<Record>): seq<Sample> {
    if records == [] then [] else LeafSamples(records[0].frames) + AllLeaves(records[1..])
  }

  lemma {:induction false} NoFewerThanLeaves(records: seq<Record>)
    ensures |AllCounted(records)| >= |AllLeaves(records)|
  {
    if records != [] {
      CountedParts(records[0].frames);
      NoFewerThanLeaves(records[1..]);
    }
  }

  predicate CallersSilentIn(r: Record) {
    var rs := r.frames;
    SilentFrom(rs, NextLeaf(rs))
  }

  predicate CallersAreSilent(records: seq<Record>) {
    forall i | 0 <= i < |records| :: CallersSilentIn(records[i])
  }

  /** A whole stream counts exactly its leaves if and only if each of its records does:
      what one record counts too much no other makes up for. */
  lemma {:induction false} OnlyLeavesAreCounted(records: seq<Record>)
    ensures AllCounted(records) == AllLeaves(records) <==> CallersAreSilent(records)
  {
    if records != [] {
      var first, rest := records[0], records[1..];
      OnlyLeavesAreCounted(rest);
      NoFewerThanLeaves(rest);
      FirstCaller(first.frames, AllCounted(rest), AllLeaves(rest));
      assert CallersAreSilent(records) <==>
               CallersSilentIn(first) && CallersAreSilent(rest) by {
        assert forall i | 0 < i < |records| :: records[i] == rest[i - 1];
      }
    }
  }

  lemma FirstCaller(rs: seq<Reading>, counted: seq<Sample>, leaves: seq<Sample>)
    requires |counted| >= |leaves|
    ensures Counted(rs, 0) + counted == LeafSamples(rs) + leaves <==>
            SilentFrom(rs, NextLeaf(rs)) && counted == leaves
  {
    var a, x := LeafSamples(rs), Counted(rs, NextLeaf(rs));
    CountedParts(rs);
    NothingCounted(rs, NextLeaf(rs));
    if a + x + counted == a + leaves {
      assert |x| == 0;
      assert a + x == a;
      assert (a + counted)[|a|..] == counted && (a + leaves)[|a|..] == leaves;
    }
  }

  /** If the symbol is on no call but the leaf, a record counts for its leaf alone. */
  lemma LeavesAreCounted(rs: seq<Reading>)
    requires forall k | 1 <= k < |rs| :: Leaf(rs[k]) == None
    ensures Counted(rs, 0) == LeafSamples(rs)
  {
    OnlyLeafIsCounted(rs);
  }

  /** A caller that is counted: the third call of a chain whose leaf is elsewhere. */
  lemma CallersAreCountedToo(rs: seq<Reading>, s: Sample)
    requires |rs| == 3 && Leaf(rs[0]) == None && Leaf(rs[2]) == Some(s)
    ensures LeafSamples(rs) == [] && Counted(rs, 0) == [s]
  {
    assert Counted(rs, 5) == [];
    assert Counted(rs, 2) == [s] + Counted(rs, 5);
  }

  function Offsets(samples: seq<Sample>): multiset<int> {
    if samples == [] then multiset{} else multiset{samples[0].offset} + Offsets(samples[1..])
  }

  /** The table counts how often each offset was sampled. */
  ghost predicate Histogram(samples: map<int, nat>, offsets: multiset<int>) {
    forall x :: (x in samples <==> x in offsets) && (x in samples ==> samples[x] == offsets[x])
  }

  lemma {:induction false} AddAllIsHistogram(t: Tally, samples: seq<Sample>, before: multiset<int>)
    requires Histogram(t.samples, before)
    ensures Histogram(AddAll(t, samples).samples, before + Offsets(samples))
    decreases |samples|
  {
    if samples == [] {
      assert before + multiset{} == before;
    } else {
      var s := samples[0];
      AddAllIsHistogram(Add(t, s), samples[1..], before + multiset{s.offset});
      assert before + multiset{s.offset} + Offsets(samples[1..]) == before + Offsets(samples);
    }
  }

  lemma {:induction false} OffsetsSize(samples: seq<Sample>)
    ensures |Offsets(samples)| == |samples|
  {
    if samples != [] {
      OffsetsSize(samples[1..]);
    }
  }

  // ----------------------------------------------------------------- the listing

  datatype OutLine = OutLine(count: Option<nat>, address: int, instr: string)

  datatype Listing = Listing(lines: seq<OutLine>, total: nat)

  /** The addresses of the first `n` instructions. */
  function Addresses(asm: seq<(int, string)>, n: nat): set<int>
    requires n <= |asm|
  {
    if n == 0 then {} else Addresses(asm, n - 1) + {asm[n - 1].0}
  }

  /** The line of instruction `i`: the count is shown where its address first occurs. */
  function LineOf(samples: map<int, nat>, asm: seq<(int, string)>, i: nat): OutLine
    requires i < |asm|
  {
    var (address, instr) := asm[i];
    var shown := address in samples && address !in Addresses(asm, i);
    OutLine(if shown then Some(samples[address]) else None, address, instr)
  }

  function Listed(samples: map<int, nat>, asm: seq<(int, string)>, n: nat): seq<OutLine>
    requires n <= |asm|
  {
    if n == 0 then [] else Listed(samples, asm, n - 1) + [LineOf(samples, asm, n - 1)]
  }

  function Amount(l: OutLine): nat {
    if l.count.Some? then l.count.value else 0
  }

  function Total(lines: seq<OutLine>): nat {
    if lines == [] then 0 else Total(lines[..|lines| - 1]) + Amount(lines[|lines| - 1])
  }

  lemma TotalSnoc(lines: seq<OutLine>, l: OutLine)
    ensures Total(lines + [l]) == Total(lines) + Amount(l)
  {
    assert (lines + [l])[..|lines|] == lines;
  }

  /** What `parse` comes to: the listing, unless a sample lies outside of it. */
  function ParseResult(lines: seq<Reading>, asmFiles: map<string, seq<(int, string)>>): Result<Listing, Error> {
    match Events(Tally(map[], None), lines)
    case Err(e) => Err(e)
    case Ok(t) =>
      if t.mapFile.None? then Err(TypeError)
      else if t.mapFile.value !in asmFiles then Err(CannotOpen(t.mapFile.value))
      else
        var asm := asmFiles[t.mapFile.value];
        var out := Listed(t.samples, asm, |asm|);
        if t.samples.Keys <= Addresses(asm, |asm|) then Ok(Listing(out, Total(out))) else Err(AssertionError)
  }

  /** Popping the count of one address. */
  lemma PopOne(samples: map<int, nat>, left: multiset<int>, a: int)
    requires Histogram(samples, left)
    ensures Histogram(samples - {a}, left[a := 0])
    ensures |left[a := 0]| + (if a in samples then samples[a] else 0) == |left|
  {
  }

  /** A line shows what is popped from the counts that are left. */
  lemma LinePops(samples: map<int, nat>, asm: seq<(int, string)>, i: nat)
    requires i < |asm|
    ensures var rest, a := samples - Addresses(asm, i), asm[i].0;
            && Amount(LineOf(samples, asm, i)) == (if a in rest then rest[a] else 0)
            && samples - Addresses(asm, i + 1) == rest - {a}
  {
  }

  /** The samples not yet shown after `n` lines. */
  function Unshown(offsets: multiset<int>, asm: seq<(int, string)>, n: nat): multiset<int>
    requires n <= |asm|
  {
    if n == 0 then offsets else Unshown(offsets, asm, n - 1)[asm[n - 1].0 := 0]
  }

  lemma {:induction false} UnshownIsLeft(samples: map<int, nat>, offsets: multiset<int>, asm: seq<(int, string)>, n: nat)
    requires Histogram(samples, offsets) && n <= |asm|
    ensures Histogram(samples - Addresses(asm, n), Unshown(offsets, asm, n))
  {
    if n == 0 {
      assert samples - {} == samples;
    } else {
      UnshownIsLeft(samples, offsets, asm, n - 1);
      LinePops(samples, asm, n - 1);
      PopOne(samples - Addresses(asm, n - 1), Unshown(offsets, asm, n - 1), asm[n - 1].0);
    }
  }

  function Shown(samples: map<int, nat>, asm: seq<(int, string)>, n: nat): nat
    requires n <= |asm|
  {
    if n == 0 then 0 else Shown(samples, asm, n - 1) + Amount(LineOf(samples, asm, n - 1))
  }

  lemma {:induction false} TotalIsShown(samples: map<int, nat>, asm: seq<(int, string)>, n: nat)
    requires n <= |asm|
    ensures Total(Listed(samples, asm, n)) == Shown(samples, asm, n)
  {
    if n > 0 {
      TotalIsShown(samples, asm, n - 1);
      TotalSnoc(Listed(samples, asm, n - 1), LineOf(samples, asm, n - 1));
    }
  }

  /** Counts shown and samples not shown add up to the events counted. */
  lemma {:induction false} CountsAreConserved(samples: map<int, nat>, offsets: multiset<int>, asm: seq<(int, string)>, n: nat)
    requires Histogram(samples, offsets) && n <= |asm|
    ensures Shown(samples, asm, n) + |Unshown(offsets, asm, n)| == |offsets|
  {
    if n > 0 {
      CountsAreConserved(samples, offsets, asm, n - 1);
      UnshownIsLeft(samples, offsets, asm, n - 1);
      LinePops(samples, asm, n - 1);
      PopOne(samples - Addresses(asm, n - 1), Unshown(offsets, asm, n - 1), asm[n - 1].0);
    }
  }

  /** If the listing has every sampled offset, the total is the number of samples. */
  lemma TotalIsNumberOfSamples(samples: map<int, nat>, offsets: multiset<int>, asm: seq<(int, string)>)
    requires Histogram(samples, offsets) && samples.Keys <= Addresses(asm, |asm|)
    ensures Total(Listed(samples, asm, |asm|)) == |offsets|
  {
    var n := |asm|;
    TotalIsShown(samples, asm, n);
    CountsAreConserved(samples, offsets, asm, n);
    UnshownIsLeft(samples, offsets, asm, n);
    assert samples - Addresses(asm, n) == map[];
    NothingLeft(Unshown(offsets, asm, n));
  }

  lemma NothingLeft(left: multiset<int>)
    requires Histogram(map[], left)
    ensures left == multiset{}
  {
    assert forall x :: x !in left;
  }

  /** Every sampled offset in the listing is shown once, with its count. */
  lemma {:induction false} ShownOnce(samples: map<int, nat>, asm: seq<(int, string)>, n: nat, x: int) returns (i: nat)
    requires n <= |asm| && x in samples && x in Addresses(asm, n)
    ensures i < n && LineOf(samples, asm, i) == OutLine(Some(samples[x]), x, asm[i].1)
    ensures forall j | 0 <= j < n && j != i && asm[j].0 == x :: LineOf(samples, asm, j).count == None
  {
    if x in Addresses(asm, n - 1) {
      i := ShownOnce(samples, asm, n - 1, x);
    } else {
      i := n - 1;
      forall j | 0 <= j < n - 1 ensures asm[j].0 in Addresses(asm, n - 1) {
        AddressIn(asm, n - 1, j);
      }
    }
  }

  lemma {:induction false} AddressIn(asm: seq<(int, string)>, n: nat, j: nat)
    requires j < n <= |asm|
    ensures asm[j].0 in Addresses(asm, n)
  {
    if j < n - 1 {
      AddressIn(asm, n - 1, j);
    }
  }

  /** The final assertion holds exactly when no sample lies outside the listing. */
  lemma FinalAssertion(samples: map<int, nat>, offsets: multiset<int>, asm: seq<(int, string)>)
    requires Histogram(samples, offsets)
    ensures samples.Keys <= Addresses(asm, |asm|) <==> forall x | x in offsets :: x in Addresses(asm, |asm|)
    ensures samples.Keys <= Addresses(asm, |asm|) ==> Total(Listed(samples, asm, |asm|)) == |offsets|
  {
    if samples.Keys <= Addresses(asm, |asm|) {
      TotalIsNumberOfSamples(samples, offsets, asm);
    }
    if forall x | x in offsets :: x in Addresses(asm, |asm|) {
      forall x | x in samples ensures x in Addresses(asm, |asm|) {
        assert x in offsets;
      }
    }
  }

  /** The listing `parse` will print against, if it gets that far. */
  function ListingFile(samples: seq<Sample>, asmFiles: map<string, seq<(int, string)>>): Option<seq<(int, string)>> {
    var file := AddAll(Tally(map[], None), samples).mapFile;
    if file.Some? && file.value in asmFiles then Some(asmFiles[file.value]) else None
  }

  /** The listing is that of the module sampled last. */
  lemma {:induction false} ListingIsLast(t: Tally, samples: seq<Sample>)
    ensures AddAll(t, samples).mapFile == if samples == [] then t.mapFile else Some(samples[|samples| - 1].file)
    decreases |samples|
  {
    if samples != [] {
      ListingIsLast(Add(t, samples[0]), samples[1..]);
    }
  }

  /** When `parse` succeeds, for every file at all, with comment lines anywhere: exactly
      when it is a stream of readable records, there is a listing, and every sample lies in
      it. Its total is then the number of samples. */
  lemma ParseCountsSamples(env: Env, file: seq<string>, asmFiles: map<string, seq<(int, string)>>)
    ensures var lines := ReadAll(env, Clean(file, 0));
            var s, r := ToRecords(lines), ParseResult(lines, asmFiles);
            && (r.Ok? <==>
                  && s.Some? && AllReadable(s.value.records)
                  && var samples := AllCounted(s.value.records);
                     var asm := ListingFile(samples, asmFiles);
                     asm.Some? && forall x | x in Offsets(samples) :: x in Addresses(asm.value, |asm.value|))
            && (r.Ok? ==> r.value.total == |AllCounted(s.value.records)|)
  {
    var t0, lines := Tally(map[], None), ReadAll(env, Clean(file, 0));
    var s := ToRecords(lines);
    EventsSucceed(t0, lines);
    if s.Some? && AllReadable(s.value.records) {
      var samples := AllCounted(s.value.records);
      AddAllIsHistogram(t0, samples, multiset{});
      assert multiset{} + Offsets(samples) == Offsets(samples);
      OffsetsSize(samples);
      var asm := ListingFile(samples, asmFiles);
      if asm.Some? {
        FinalAssertion(AddAll(t0, samples).samples, Offsets(samples), asm.value);
      }
    }
  }
}
