/** The megadriver installer: every driver name becomes a hard link to one
    library, and every shorter name of a driver becomes a symbolic link to it.
    The names are file names inside one directory. */
module Megadriver {
  import opened Text

  // ----------------------------------------------------------- file names

  /** The last index of `c` in `s`, or -1. */
  function RFind(s: string, c: char): (p: int)
    ensures -1 <= p < |s| && (p >= 0 ==> s[p] == c)
    decreases |s|
  {
    if s == "" then -1
    else if s[|s| - 1] == c then |s| - 1
    else RFind(s[..|s| - 1], c)
  }

  predicate OnlyDots(s: string) {
    forall i | 0 <= i < |s| :: s[i] == '.'
  }

  /** Python's `os.path.splitext`, for a name without directory part. */
  function SplitExt(name: string): (r: (string, string))
    ensures r.1 != "" ==> |r.0| < |name|
  {
    var dot := RFind(name, '.');
    if dot < 0 || OnlyDots(name[..dot]) then (name, "") else (name[..dot], name[dot..])
  }

  /** Peeling suffixes off the name ends in `.so`. */
  predicate Peelable(name: string)
    decreases |name|
  {
    var (stem, ext) := SplitExt(name);
    ext == ".so" || (ext != "" && Peelable(stem))
  }

  /** The names that get a symbolic link to `name`, longest first. */
  function Aliases(name: string): seq<string>
    decreases |name|
  {
    var (stem, ext) := SplitExt(name);
    if ext == ".so" || ext == "" then [] else [stem] + Aliases(stem)
  }

  lemma {:induction false} RFindLast(s: string, c: char)
    ensures forall k | RFind(s, c) < k < |s| :: s[k] != c
    decreases |s|
  {
    if s != "" && s[|s| - 1] != c {
      RFindLast(s[..|s| - 1], c);
    }
  }

  /** `.so` at `p` is a whole suffix part of the name, behind a visible stem. */
  predicate SoPart(name: string, p: nat) {
    && p + 3 <= |name| && name[p..p + 3] == ".so"
    && (p + 3 == |name| || name[p + 3] == '.')
    && !OnlyDots(name[..p])
  }

  lemma SoPartOfStem(name: string, dot: nat, p: nat)
    requires dot < |name| && name[dot] == '.' && forall k | dot < k < |name| :: name[k] != '.'
    ensures SoPart(name, p) && p < dot <==> SoPart(name[..dot], p)
    ensures SoPart(name, p) && p == dot ==> name[dot..] == ".so"
    ensures SoPart(name, p) ==> p <= dot
  {
    if SoPart(name, p) {
      assert name[p] == name[p..p + 3][0] && name[p + 1] == name[p..p + 3][1] && name[p + 2] == name[p..p + 3][2];
    }
    if p < dot {
      assert name[..dot][..p] == name[..p];
      if p + 3 <= dot {
        assert name[..dot][p..p + 3] == name[p..p + 3];
      }
    }
  }

  lemma SoPartDot(name: string, p: nat)
    ensures SoPart(name, p) ==> name[p] == '.'
  {
    if SoPart(name, p) {
      assert name[p] == name[p..p + 3][0];
    }
  }

  /** Which names the loop accepts: exactly those with a `.so` suffix part. */
  lemma {:induction false} PeelableIffSoPart(name: string)
    ensures Peelable(name) <==> exists p: nat :: SoPart(name, p)
    decreases |name|
  {
    var dot := RFind(name, '.');
    RFindLast(name, '.');
    if dot < 0 {
      forall p: nat ensures SoPart(name, p) ==> name[p] == '.' {
        SoPartDot(name, p);
      }
    } else {
      forall p: nat
        ensures SoPart(name, p) && p < dot <==> SoPart(name[..dot], p)
        ensures SoPart(name, p) && p == dot ==> name[dot..] == ".so"
        ensures SoPart(name, p) ==> p <= dot
        ensures SoPart(name, p) ==> !OnlyDots(name[..dot])
      {
        SoPartOfStem(name, dot, p);
        if SoPart(name, p) {
          var i :| 0 <= i < p && name[..p][i] != '.';
          assert name[..dot][i] != '.';
        }
      }
      if !OnlyDots(name[..dot]) {
        PeelableIffSoPart(name[..dot]);
        if name[dot..] == ".so" {
          assert name[dot..dot + 3] == ".so";
          assert SoPart(name, dot);
        }
      }
    }
  }

  lemma {:induction false} AliasesAreShorter(name: string)
    ensures forall a | a in Aliases(name) :: |a| < |name|
    decreases |name|
  {
    var (stem, ext) := SplitExt(name);
    if ext != ".so" && ext != "" {
      AliasesAreShorter(stem);
    }
  }

  /** The aliases of an alias are aliases. */
  lemma {:induction false} AliasesAreTransitive(name: string, a: string, b: string)
    requires a in Aliases(name) && b in Aliases(a)
    ensures b in Aliases(name)
    decreases |name|
  {
    var stem := SplitExt(name).0;
    if a != stem {
      AliasesAreTransitive(stem, a, b);
    }
  }

  // ------------------------------------------- the names, by position only

  lemma RFindAt(s: string, c: char, p: nat)
    requires p < |s| && s[p] == c && forall k | p < k < |s| :: s[k] != c
    ensures RFind(s, c) == p
  {
    RFindLast(s, c);
  }

  /** The extension is the last dot with what follows it, if there is a character other
      than a dot somewhere before. */
  lemma SplitExtAtDot(stem: string, x: string)
    requires Free(x, '.') && exists i | 0 <= i < |stem| :: stem[i] != '.'
    ensures SplitExt(stem + "." + x) == (stem, "." + x)
  {
    var name := stem + "." + x;
    assert name[|stem|] == '.' && forall k | |stem| < k < |name| :: name[k] == x[k - |stem| - 1];
    RFindAt(name, '.', |stem|);
    assert name[..|stem|] == stem && name[|stem|..] == "." + x;
    var i :| 0 <= i < |stem| && stem[i] != '.';
    assert !OnlyDots(stem);
  }

  /** All other names have none. */
  lemma SplitExtNone(name: string)
    requires forall i, j | 0 <= i < j < |name| && name[j] == '.' :: name[i] == '.'
    ensures SplitExt(name) == (name, "")
  {
    var dot := RFind(name, '.');
    assert dot >= 0 ==> forall i | 0 <= i < dot :: name[i] == '.';
  }

  /** The last `.so` part of a name, which is where peeling stops. */
  predicate LastSoPart(name: string, p: nat) {
    SoPart(name, p) && forall q | p < q < |name| :: !SoPart(name, q)
  }

  /** A place to cut the name: a dot behind its last `.so` part. */
  predicate CutAt(name: string, p: nat, q: nat) {
    p + 3 <= q < |name| && name[q] == '.'
  }

  lemma LastSoPartOfStem(name: string, dot: nat, p: nat)
    requires dot < |name| && name[dot] == '.' && forall k | dot < k < |name| :: name[k] != '.'
    requires LastSoPart(name, p)
    ensures p <= dot && (p == dot <==> name[dot..] == ".so")
    ensures p < dot ==> LastSoPart(name[..dot], p) && p + 3 <= dot
  {
    SoPartOfStem(name, dot, p);
    if name[dot..] == ".so" {
      assert name[dot..dot + 3] == ".so";
      var i :| 0 <= i < p && name[..p][i] != '.';
      assert name[..dot][i] != '.';
      assert SoPart(name, dot);
    }
    forall q | p < q < dot ensures !SoPart(name[..dot], q) {
      SoPartOfStem(name, dot, q);
    }
  }

  lemma ExtensionBehindSoPart(name: string, p: nat)
    requires SoPart(name, p)
    ensures var dot := RFind(name, '.');
            p <= dot && !OnlyDots(name[..dot]) && SplitExt(name) == (name[..dot], name[dot..])
  {
    SoPartDot(name, p);
    RFindLast(name, '.');
    var i :| 0 <= i < p && name[..p][i] != '.';
    assert name[..RFind(name, '.')][i] != '.';
  }

  /** The aliases of a name are exactly its beginnings that end before a dot and still have
      the whole `.so` part. */
  lemma {:induction false} AliasesAreCuts(name: string, p: nat, a: string)
    requires LastSoPart(name, p)
    ensures a in Aliases(name) <==> exists q: nat :: CutAt(name, p, q) && a == name[..q]
    decreases |name|
  {
    var dot := RFind(name, '.');
    ExtensionBehindSoPart(name, p);
    RFindLast(name, '.');
    LastSoPartOfStem(name, dot, p);
    var stem := name[..dot];
    if p < dot {
      AliasesAreCuts(stem, p, a);
      assert Aliases(name) == [stem] + Aliases(stem);
      CutsOfStem(name, dot, p, a);
    } else {
      assert forall q: nat :: !CutAt(name, p, q);
    }
  }

  lemma CutsOfStem(name: string, dot: nat, p: nat, a: string)
    requires dot < |name| && name[dot] == '.' && p + 3 <= dot && forall k | dot < k < |name| :: name[k] != '.'
    ensures (exists q: nat :: CutAt(name, p, q) && a == name[..q]) <==>
            a == name[..dot] || exists q: nat :: CutAt(name[..dot], p, q) && a == name[..dot][..q]
  {
    if a == name[..dot] {
      assert CutAt(name, p, dot);
    }
    forall q: nat | CutAt(name, p, q) && q != dot ensures CutAt(name[..dot], p, q) && name[..dot][..q] == name[..q] {}
    forall q: nat | CutAt(name[..dot], p, q) ensures CutAt(name, p, q) && name[..dot][..q] == name[..q] {}
  }

  /** They come longest first. */
  lemma {:induction false} AliasesDescend(name: string)
    ensures forall i, j | 0 <= i < j < |Aliases(name)| :: |Aliases(name)[i]| > |Aliases(name)[j]|
    decreases |name|
  {
    var (stem, ext) := SplitExt(name);
    if ext != ".so" && ext != "" {
      AliasesDescend(stem);
      AliasesAreShorter(stem);
    }
  }

  // ------------------------------------------------------------ the directory

  datatype Entry = Hard(inode: nat) | Symlink(target: string)

  type Entries = map<string, Entry>

  /** The file a name leads to; a dangling link and a loop lead nowhere. */
  function Resolve(e: Entries, name: string): Option<nat>
    decreases |e|
  {
    if name !in e then None
    else
      match e[name]
      case Hard(inode) => Some(inode)
      case Symlink(target) =>
        assert |e - {name}| < |e| by { FewerEntries(e, name); }
        Resolve(e - {name}, target)
  }

  lemma FewerEntries(e: Entries, name: string)
    requires name in e
    ensures |e - {name}| < |e|
  {
    assert (e - {name}).Keys == e.Keys - {name};
  }

  /** `StillPeeling`: the peeling loop goes on after the rounds it was given. */
  datatype Error = FileExists(name: string) | NoSuchFile(name: string) | TooManyLinks(name: string) | StillPeeling

  datatype Outcome = Outcome(entries: Entries, error: Option<Error>)

  /** The name a file is written under when `name` is opened: at the end of its symbolic
      links. None for links in a loop, which come back to a name in `seen`. */
  function Destination(e: Entries, seen: set<string>, name: string): Option<string>
    decreases |e.Keys - seen|
  {
    if name in seen then None
    else if name !in e || e[name].Hard? then Some(name)
    else
      assert e.Keys - (seen + {name}) < e.Keys - seen;
      FewerNames(e.Keys - (seen + {name}), e.Keys - seen);
      Destination(e, seen + {name}, e[name].target)
  }

  lemma FewerNames(a: set<string>, b: set<string>)
    requires a < b
    ensures |a| < |b|
  {
    assert b == a + (b - a);
  }

  /** `if exists(name): unlink(name)`. A dangling link does not "exist". */
  function Cleared(e: Entries, name: string): Entries {
    if Resolve(e, name).Some? then e - {name} else e
  }

  function PlaceLink(e: Entries, master: string, name: string): Outcome {
    var c := Cleared(e, name);
    if master !in c then Outcome(c, Some(NoSuchFile(master)))
    else if name in c then Outcome(c, Some(FileExists(name)))
    else Outcome(c[name := c[master]], None)
  }

  function PlaceSymlink(e: Entries, target: string, name: string): Outcome {
    var c := Cleared(e, name);
    if name in c then Outcome(c, Some(FileExists(name))) else Outcome(c[name := Symlink(target)], None)
  }

  /** The peeling loop from `name` on, for at most `rounds` rounds. */
  function PeelLoop(e: Entries, driver: string, name: string, rounds: nat): Outcome
    decreases rounds
  {
    var (stem, ext) := SplitExt(name);
    if ext == ".so" then Outcome(e, None)
    else if rounds == 0 then Outcome(e, Some(StillPeeling))
    else
      var o := PlaceSymlink(e, driver, stem);
      if o.error.Some? then o else PeelLoop(o.entries, driver, stem, rounds - 1)
  }

  function InstallDriver(e: Entries, master: string, driver: string, rounds: nat): Outcome {
    var o := PlaceLink(e, master, driver);
    if o.error.Some? then o else PeelLoop(o.entries, driver, driver, rounds)
  }

  function InstallNext(o: Outcome, master: string, driver: string, rounds: nat): Outcome {
    if o.error.Some? then o else InstallDriver(o.entries, master, driver, rounds)
  }

  /** The first `n` drivers. */
  function InstallDrivers(e: Entries, master: string, drivers: seq<string>, n: nat, rounds: nat): Outcome
    requires n <= |drivers|
  {
    if n == 0 then Outcome(e, None)
    else InstallNext(InstallDrivers(e, master, drivers, n - 1, rounds), master, drivers[n - 1], rounds)
  }

  function Install(e: Entries, master: string, drivers: seq<string>, rounds: nat): Outcome {
    var o := InstallDrivers(e, master, drivers, |drivers|, rounds);
    if o.error.Some? then o
    else if master !in o.entries then Outcome(o.entries, Some(NoSuchFile(master)))
    else Outcome(o.entries - {master}, None)
  }

  /** The whole installer, where the copy writes the library as file `inode`. */
  function InstallFrom(e: Entries, inode: nat, master: string, drivers: seq<string>, rounds: nat): Outcome {
    var to := Destination(e, {}, master);
    if to.None? then Outcome(e, Some(TooManyLinks(master)))
    else Install(e[to.value := Hard(inode)], master, drivers, rounds)
  }

  class Directory {
    var entries: Entries
    var content: map<nat, string>
    var nextInode: nat

    predicate Valid()
      reads this
    {
      && (forall i | i in content :: i < nextInode)
      && forall x | x in entries && entries[x].Hard? :: entries[x].inode in content
    }

    method Unlink(name: string) returns (error: Option<Error>)
      modifies this`entries
      ensures old(Valid()) ==> Valid()
      ensures if name in old(entries) then error == None && entries == old(entries) - {name}
              else error == Some(NoSuchFile(name)) && entries == old(entries)
    {
      if name !in entries {
        return Some(NoSuchFile(name));
      }
      entries := entries - {name};
      return None;
    }

    /** `os.link`: another name for whatever is at `from`. */
    method Link(from: string, name: string) returns (error: Option<Error>)
      modifies this`entries
      ensures old(Valid()) ==> Valid()
      ensures if from !in old(entries) then error == Some(NoSuchFile(from)) && entries == old(entries)
              else if name in old(entries) then error == Some(FileExists(name)) && entries == old(entries)
              else error == None && entries == old(entries)[name := old(entries)[from]]
    {
      if from !in entries {
        return Some(NoSuchFile(from));
      }
      if name in entries {
        return Some(FileExists(name));
      }
      entries := entries[name := entries[from]];
      return None;
    }

    method MakeSymlink(target: string, name: string) returns (error: Option<Error>)
      modifies this`entries
      ensures old(Valid()) ==> Valid()
      ensures if name in old(entries) then error == Some(FileExists(name)) && entries == old(entries)
              else error == None && entries == old(entries)[name := Symlink(target)]
    {
      if name in entries {
        return Some(FileExists(name));
      }
      entries := entries[name := Symlink(target)];
      return None;
    }

    /** `shutil.copy`: through symbolic links, and a file that is there is overwritten
        in place. */
    method Copy(bytes: string, name: string) returns (inode: nat, error: Option<Error>)
      requires Valid()
      modifies this
      ensures Valid()
      ensures var to := Destination(old(entries), {}, name);
              if to.None? then error == Some(TooManyLinks(name)) && entries == old(entries) && content == old(content)
              else
                && error == None
                && entries == old(entries)[to.value := Hard(inode)] && content == old(content)[inode := bytes]
                && if to.value in old(entries) then old(entries)[to.value] == Hard(inode) else inode !in old(content)
    {
      var to := Destination(entries, {}, name);
      if to.None? {
        return 0, Some(TooManyLinks(name));
      }
      DestinationIsFile(entries, {}, name);
      if to.value in entries {
        inode := entries[to.value].inode;
      } else {
        inode := nextInode;
        nextInode := nextInode + 1;
      }
      content := content[inode := bytes];
      entries := entries[to.value := Hard(inode)];
      error := None;
    }

    /** The body of the loop over the drivers. */
    method InstallOne(master: string, driver: string, rounds: nat) returns (error: Option<Error>)
      requires Valid()
      modifies this`entries
      ensures Valid()
      ensures Outcome(entries, error) == InstallDriver(old(entries), master, driver, rounds)
    {
      if Resolve(entries, driver).Some? {
        var _ := Unlink(driver);
      }
      error := Link(master, driver);
      if error.Some? {
        return;
      }

      var (name, ext) := SplitExt(driver);
      ghost var current := driver;
      var left := rounds;
      while ext != ".so"
        invariant Valid() && error == None && (name, ext) == SplitExt(current)
        invariant PeelLoop(entries, driver, current, left) == InstallDriver(old(entries), master, driver, rounds)
        decreases left
      {
        if left == 0 {
          return Some(StillPeeling);
        }
        left := left - 1;
        if Resolve(entries, name).Some? {
          var _ := Unlink(name);
        }
        error := MakeSymlink(driver, name);
        if error.Some? {
          return;
        }
        current := name;
        var next := SplitExt(name);
        name, ext := next.0, next.1;
      }
    }

    /** The loop over the drivers. */
    method InstallAll(master: string, drivers: seq<string>, rounds: nat) returns (error: Option<Error>)
      requires Valid()
      modifies this`entries
      ensures Valid()
      ensures Outcome(entries, error) == InstallDrivers(old(entries), master, drivers, |drivers|, rounds)
    {
      ghost var start := entries;
      for i := 0 to |drivers|
        invariant Valid() && Outcome(entries, None) == InstallDrivers(start, master, drivers, i, rounds)
      {
        error := InstallOne(master, drivers[i], rounds);
        if error.Some? {
          FailureStops(start, master, drivers, i + 1, |drivers|, rounds);
          return;
        }
      }
      error := None;
    }

    /** The installer, from the copy on. */
    method InstallMegadriver(bytes: string, master: string, drivers: seq<string>, rounds: nat)
      returns (inode: nat, error: Option<Error>)
      requires Valid()
      modifies this
      ensures Valid()
      ensures Outcome(entries, error) == InstallFrom(old(entries), inode, master, drivers, rounds)
      ensures var to := Destination(old(entries), {}, master);
              if to.None? then content == old(content)
              else
                && content == old(content)[inode := bytes]
                && if to.value in old(entries) then old(entries)[to.value] == Hard(inode) else inode !in old(content)
    {
      inode, error := Copy(bytes, master);
      if error == None {
        error := InstallAll(master, drivers, rounds);
        if error == None {
          error := Unlink(master);
        }
      }
    }
  }

  lemma {:induction false} DestinationIsFile(e: Entries, seen: set<string>, name: string)
    requires Destination(e, seen, name).Some?
    ensures var to := Destination(e, seen, name).value; to in e ==> e[to].Hard?
    decreases |e.Keys - seen|
  {
    if name in e && e[name].Symlink? {
      FewerNames(e.Keys - (seen + {name}), e.Keys - seen);
      DestinationIsFile(e, seen + {name}, e[name].target);
    }
  }

  lemma {:induction false} FailureStops(e: Entries, master: string, drivers: seq<string>, i: nat, n: nat, rounds: nat)
    requires i <= n <= |drivers|
    requires InstallDrivers(e, master, drivers, i, rounds).error.Some?
    ensures InstallDrivers(e, master, drivers, n, rounds) == InstallDrivers(e, master, drivers, i, rounds)
    decreases n - i
  {
    if i < n {
      FailureStops(e, master, drivers, i, n - 1, rounds);
    }
  }
}
