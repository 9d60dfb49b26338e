/** The parser object of bin/perf-annotate-jit.py: one line of lookahead over a file,
    a histogram it fills and then drains. */
module PerfParsing {
  import opened Text
  import opened CallLine
  import opened PerfScript

  class PerfParser {
    const file: seq<string>
    const env: Env
    var pos: nat
    var line: Option<string>
    var atEnd: bool
    var lineNo: nat
    var samples: map<int, nat>
    var mapFile: Option<string>

    /** A line read from a file is never empty: it has at least its newline. */
    predicate Valid()
      reads this
    {
      && pos <= |file| && lineNo == pos
      && (forall i | 0 <= i < |file| :: file[i] != "")
      && (atEnd ==> line == Some("") && pos == |file|)
      && (!atEnd && line.Some? ==> !IsComment(line.value))
    }

    /** The lines still to be parsed, the lookahead first. */
    ghost function Rest(): seq<string>
      requires Valid()
      reads this
    {
      (if atEnd || line.None? then [] else [line.value]) + Clean(file, pos)
    }

    /** What the parser takes from them. */
    ghost function Readings(): (rs: seq<Reading>)
      requires Valid()
      reads this
      ensures |rs| == |Rest()|
    {
      ReadAll(env, Rest())
    }

    function Counts(): Tally
      reads this
    {
      Tally(samples, mapFile)
    }

    constructor (file: seq<string>, env: Env)
      requires forall i | 0 <= i < |file| :: file[i] != ""
      ensures this.file == file && this.env == env
      ensures Valid() && line == None && Rest() == Clean(file, 0) && Counts() == Tally(map[], None)
    {
      this.file, this.env := file, env;
      pos, line, atEnd, lineNo := 0, None, false, 0;
      samples, mapFile := map[], None;
    }

    /** LineParser.readline */
    method ReadRawLine()
      requires pos <= |file| && lineNo == pos && forall i | 0 <= i < |file| :: file[i] != ""
      modifies this`pos, this`line, this`atEnd, this`lineNo
      ensures if old(pos) == |file| then pos == old(pos) && atEnd && line == Some("")
              else pos == old(pos) + 1 && atEnd == old(atEnd) && line == Some(Chomp(file[old(pos)]))
      ensures lineNo == pos
    {
      if pos == |file| {
        line := Some("");
        atEnd := true;
      } else {
        line := Some(Chomp(file[pos]));
        pos := pos + 1;
        lineNo := lineNo + 1;
      }
    }

    /** PerfParser.readline: skips comments. */
    method ReadLine()
      requires Valid()
      modifies this`pos, this`line, this`atEnd, this`lineNo
      ensures Valid() && line.Some?
      ensures Rest() == Clean(file, old(pos))
      ensures atEnd <==> Clean(file, old(pos)) == []
    {
      ghost var start := pos;
      if atEnd {
        ReadRawLine();
        return;
      }
      while true
        invariant !atEnd && pos <= |file| && lineNo == pos
        invariant Clean(file, pos) == Clean(file, start)
        decreases |file| - pos
      {
        ReadRawLine();
        if atEnd || !IsComment(line.value) {
          break;
        }
      }
    }

    function Lookahead(): string
      requires line.Some?
      reads this
    {
      line.value
    }

    method Consume() returns (l: string)
      requires Valid() && line.Some?
      modifies this`pos, this`line, this`atEnd, this`lineNo
      ensures Valid() && line.Some?
      ensures l == if old(Rest()) == [] then "" else old(Rest())[0]
      ensures Rest() == if old(Rest()) == [] then [] else old(Rest())[1..]
      ensures atEnd <==> Rest() == []
    {
      l := line.value;
      ReadLine();
    }

    /** lookupMap: reads the entries up to the first with the symbol. */
    method FindSymbol(entries: seq<MapEntry>, symbol: string) returns (start: Option<int>)
      ensures start == LookupMap(entries, symbol)
    {
      for i := 0 to |entries|
        invariant LookupMap(entries, symbol) == LookupMap(entries[i..], symbol)
      {
        if entries[i].symbol == symbol {
          return Some(entries[i].start);
        }
        assert entries[i..][1..] == entries[i + 1..];
      }
      return None;
    }

    /** The end of parse_call: a matched leaf call. */
    method CountLeaf(c: Call) returns (r: Result<bool, Error>)
      modifies this`samples, this`mapFile
      ensures var s := SampleOfCall(env, c);
              if s.Err? then r == Err(s.error)
              else if s.value.None? then r == Ok(false) && Counts() == old(Counts())
              else r == Ok(true) && Counts() == Add(old(Counts()), s.value.value)
    {
      var functionName := c.symbol;
      if functionName == "" {
        functionName := c.address;
      }
      if functionName != env.symbol {
        return Ok(false);
      }
      mapFile := Some(c.module_);
      if c.module_ !in env.maps {
        return Err(CannotOpen(c.module_));
      }
      var start := FindSymbol(env.maps[c.module_], functionName);
      if start.None? {
        return Err(TypeError);
      }
      var address := HexValue(c.address) - start.value;
      samples := samples[address := (if address in samples then samples[address] else 0) + 1];
      return Ok(true);
    }

    /** parse_call: whether the call was counted. Only a leaf can be. */
    method ParseOneCall(first: bool) returns (r: Result<bool, Error>, ghost call: Reading)
      requires Valid() && line.Some? && Rest() != []
      modifies this
      ensures Valid() && line.Some? && Rest() == old(Rest())[1..] && (atEnd <==> Rest() == [])
      ensures Readings() == old(Readings())[1..] && call == Read(env, old(Rest())[0])
      ensures call.Line? && !first ==> Counts() == old(Counts()) && r == if call.isCall then Ok(false) else Err(AssertionError)
      ensures call.Line? && first ==> var s := call.leaf;
                if s.Err? then r == Err(s.error)
                else if s.value.None? then r == Ok(false) && Counts() == old(Counts())
                else r == Ok(true) && Counts() == Add(old(Counts()), s.value.value)
    {
      ReadFirst(env, Rest());
      var l := Consume();
      call := Read(env, l);
      var mo := ParseCall(l);
      if mo.None? {
        return Err(AssertionError), call;
      }
      if !first {
        return Ok(false), call;
      }
      r := CountLeaf(mo.value);
    }

    /** The loop of parse_callchain ends at the first call that is not counted, which
        it has consumed by then. */
    method ParseCalls() returns (r: Result<nat, Error>)
      requires Valid() && line.Some? && (atEnd <==> Rest() == [])
      modifies this
      ensures Valid() && line.Some? && (atEnd <==> Rest() == [])
      ensures var c := Calls(old(Counts()), old(Readings()));
              if c.Err? then r == Err(c.error)
              else r.Ok? && Counts() == c.value.0 && Readings() == c.value.1
    {
      var callchain := 0;
      ghost var rest, tally := Readings(), Counts();
      ghost var goal := Calls(tally, rest);
      while Lookahead() != ""
        invariant Valid() && line.Some? && (atEnd <==> Rest() == []) && callchain <= 1
        invariant callchain == 0 ==> Readings() == rest && Counts() == tally
        invariant callchain == 1 ==>
                    && rest != [] && rest[0].Line? && rest[0].leaf.Ok? && rest[0].leaf.value.Some?
                    && Readings() == rest[1..] && Counts() == Add(tally, rest[0].leaf.value.value)
        decreases |Rest()|
      {
        ReadFirst(env, Rest());
        var counted, call := ParseOneCall(callchain == 0);
        if counted.Err? {
          assert goal == Err(counted.error);
          return Err(counted.error);
        }
        if !counted.value {
          assert goal == Ok((Counts(), Readings()));
          return Ok(callchain);
        }
        callchain := callchain + 1;
      }
      return Ok(callchain);
    }

    method ParseCallchain() returns (r: Result<nat, Error>)
      requires Valid() && line.Some? && (atEnd <==> Rest() == [])
      modifies this
      ensures Valid() && line.Some? && (atEnd <==> Rest() == [])
      ensures var c := Chain(old(Counts()), old(Readings()));
              if c.Err? then r == Err(c.error)
              else r.Ok? && Counts() == c.value.0 && Readings() == c.value.1
    {
      r := ParseCalls();
      if r.Err? {
        return;
      }
      if Lookahead() == "" {
        if Rest() != [] {
          ReadFirst(env, Rest());
        }
        var _ := Consume();
      }
    }

    method ParseEvent() returns (r: Result<(), Error>)
      requires Valid() && line.Some? && (atEnd <==> Rest() == []) && !atEnd
      modifies this
      ensures Valid() && line.Some? && (atEnd <==> Rest() == [])
      ensures old(Readings())[0].BlankLine? ==> r == Err(AssertionError)
      ensures old(Readings())[0].Line? ==>
                match Chain(old(Counts()), old(Readings())[1..])
                case Err(e) => r == Err(e)
                case Ok(c) => r == Ok(()) && Counts() == c.0 && Readings() == c.1
    {
      ReadFirst(env, Rest());
      var l := Consume();
      if l == "" {
        return Err(AssertionError);
      }
      var c := ParseCallchain();
      if c.Err? {
        return Err(c.error);
      }
      return Ok(());
    }

    /** The reading half of `parse`. */
    method ParseEvents() returns (r: Result<(), Error>)
      requires Valid() && line == None && pos == 0 && !atEnd
      modifies this
      ensures match Events(old(Counts()), ReadAll(env, Clean(file, 0)))
              case Err(e) => r == Err(e)
              case Ok(t) => r == Ok(()) && Counts() == t
    {
      ghost var goal := Events(Counts(), ReadAll(env, Clean(file, 0)));
      ReadLine();
      while !atEnd
        invariant Valid() && line.Some? && (atEnd <==> Rest() == [])
        invariant Events(Counts(), Readings()) == goal
        decreases |Rest()|
      {
        ChainShrinks(Counts(), Readings()[1..]);
        var e := ParseEvent();
        if e.Err? {
          return Err(e.error);
        }
      }
      return Ok(());
    }

    /** The printing half of `parse`: pops the count of each listed address. */
    method Drain(asm: seq<(int, string)>) returns (r: Listing)
      modifies this`samples
      ensures r.lines == Listed(old(samples), asm, |asm|) && r.total == Total(r.lines)
      ensures samples == old(samples) - Addresses(asm, |asm|)
    {
      var out, total := [], 0;
      for i := 0 to |asm|
        invariant samples == old(samples) - Addresses(asm, i)
        invariant out == Listed(old(samples), asm, i) && total == Total(out)
      {
        var (address, instr) := asm[i];
        var count := None;
        if address in samples {
          var sample := samples[address];
          samples := samples - {address};
          count := Some(sample);
          total := total + sample;
        }
        TotalSnoc(out, OutLine(count, address, instr));
        out := out + [OutLine(count, address, instr)];
      }
      r := Listing(out, total);
    }

    /** `parse`: reads every event, prints the listing, and ends with an assertion
        that no sample was left out. */
    method Parse(asmFiles: map<string, seq<(int, string)>>) returns (r: Result<Listing, Error>)
      requires Valid() && line == None && pos == 0 && !atEnd && Counts() == Tally(map[], None)
      modifies this
      ensures r == ParseResult(ReadAll(env, Clean(file, 0)), asmFiles)
    {
      var e := ParseEvents();
      if e.Err? {
        return Err(e.error);
      }
      if mapFile.None? {
        return Err(TypeError);
      }
      if mapFile.value !in asmFiles {
        return Err(CannotOpen(mapFile.value));
      }
      var asm := asmFiles[mapFile.value];
      var listing := Drain(asm);
      if |samples| != 0 {
        return Err(AssertionError);
      }
      assert old(Counts()).samples == map[];
      return Ok(listing);
    }
  }
}
