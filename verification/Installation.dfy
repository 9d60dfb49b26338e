/** What an installation comes to: when it does its work, for every directory and every
    list of drivers, and what it leaves. */
module Installation {
  import opened Text
  import opened Megadriver

  // ------------------------------------------------------------ after the copy

  /** A directory, and where the copy of the library went. */
  datatype Start = Start(e: Entries, master: string, to: string, inode: nat)

  predicate Copiable(s: Start) {
    Destination(s.e, {}, s.master) == Some(s.to)
  }

  function Copied(s: Start): Entries {
    s.e[s.to := Hard(s.inode)]
  }

  /** What is at the master's name then: the library, or still a symbolic link. */
  function MasterEntry(s: Start): Entry
    requires Copiable(s)
  {
    if s.master == s.to then Hard(s.inode) else s.e[s.master]
  }

  /** The names on the way from `name` to its destination, both included. */
  function Trail(e: Entries, seen: set<string>, name: string): set<string>
    requires Destination(e, seen, name).Some?
    decreases |e.Keys - seen|
  {
    if name !in e || e[name].Hard? then {name}
    else
      FewerNames(e.Keys - (seen + {name}), e.Keys - seen);
      {name} + Trail(e, seen + {name}, e[name].target)
  }

  function MasterTrail(s: Start): set<string>
    requires Copiable(s)
  {
    Trail(s.e, {}, s.master)
  }

  lemma {:induction false} TrailIsNew(e: Entries, seen: set<string>, x: string)
    requires Destination(e, seen, x).Some?
    ensures Trail(e, seen, x) !! seen && x in Trail(e, seen, x) && Destination(e, seen, x).value in Trail(e, seen, x)
    decreases |e.Keys - seen|
  {
    if x in e && e[x].Symlink? {
      FewerNames(e.Keys - (seen + {x}), e.Keys - seen);
      TrailIsNew(e, seen + {x}, e[x].target);
    }
  }

  /** The rest of the trail, from one of its names on. */
  lemma {:induction false} TrailSuffix(e: Entries, seen: set<string>, x: string, z: string) returns (before: set<string>)
    requires Destination(e, seen, x).Some? && z in Trail(e, seen, x)
    ensures Destination(e, before, z) == Destination(e, seen, x)
    ensures Trail(e, before, z) <= Trail(e, seen, x)
    decreases |e.Keys - seen|
  {
    if z == x {
      before := seen;
    } else {
      FewerNames(e.Keys - (seen + {x}), e.Keys - seen);
      before := TrailSuffix(e, seen + {x}, e[x].target, z);
    }
  }

  /** `now` still has the links of the trail, and the library at its end. */
  predicate Kept(e: Entries, now: Entries, trail: set<string>, to: string, inode: nat) {
    && Lookup(now, to) == Some(Hard(inode))
    && forall z | z in trail && z != to :: Lookup(now, z) == Lookup(e, z)
  }

  /** Then each name on it leads to the library. */
  lemma {:induction false} TrailResolves(e: Entries, now: Entries, seen: set<string>, gone: set<string>, x: string,
                                         to: string, inode: nat)
    requires Destination(e, seen, x) == Some(to) && Kept(e, now, Trail(e, seen, x), to, inode)
    requires gone !! Trail(e, seen, x)
    ensures Resolve(now - gone, x) == Some(inode)
    decreases |e.Keys - seen|
  {
    TrailIsNew(e, seen, x);
    if x in e && e[x].Symlink? {
      FewerNames(e.Keys - (seen + {x}), e.Keys - seen);
      TrailIsNew(e, seen + {x}, e[x].target);
      assert Lookup(now, x) == Lookup(e, x);
      assert (now - gone) - {x} == now - (gone + {x});
      TrailResolves(e, now, seen + {x}, gone + {x}, e[x].target, to, inode);
    }
  }

  // -------------------------------------------------------------- at each step

  /** Following `x` in the initial directory leads to a file, or to a name that has been
      written by then. */
  predicate Leads(e: Entries, written: set<string>, x: string)
    decreases |e|
  {
    x in written ||
    (x in e &&
     (e[x].Hard? ||
      (assert |e - {x}| < |e| by { FewerEntries(e, x); }
       Leads(e - {x}, written, e[x].target))))
  }

  /** The name is not taken by a dangling link. */
  predicate Vacant(e: Entries, written: set<string>, x: string) {
    x in e ==> Leads(e, written, x)
  }

  /** The names can be written one after the other. */
  predicate Writable(e: Entries, written: set<string>, names: seq<string>)
    decreases |names|
  {
    names == [] || (Vacant(e, written, names[0]) && Writable(e, written + {names[0]}, names[1..]))
  }

  lemma {:induction false} TrailLeads(e: Entries, written: set<string>, seen: set<string>, gone: set<string>, x: string,
                                      to: string)
    requires Destination(e, seen, x) == Some(to) && to in written && gone !! Trail(e, seen, x)
    ensures Leads(e - gone, written, x)
    decreases |e.Keys - seen|
  {
    TrailIsNew(e, seen, x);
    if x !in written {
      FewerNames(e.Keys - (seen + {x}), e.Keys - seen);
      TrailIsNew(e, seen + {x}, e[x].target);
      assert (e - gone) - {x} == e - (gone + {x});
      TrailLeads(e, written, seen + {x}, gone + {x}, e[x].target, to);
    }
  }

  /** A copy of the master's entry, or a symbolic link to a longer name that was written. */
  predicate Sound(s: Start, now: Entries, written: set<string>, x: string)
    requires Copiable(s)
  {
    x in now && (now[x] == MasterEntry(s) || (now[x].Symlink? && now[x].target in written + {s.to} && |now[x].target| > |x|))
  }

  /** What holds after each link the installer makes: each name written leads on to a
      longer one until there is a copy of the master's entry, and all other names, those on
      the master's trail among them, are as the copy has left them. */
  ghost predicate Grown(s: Start, now: Entries, written: set<string>)
    requires Copiable(s)
  {
    && written !! MasterTrail(s)
    && (forall x | x !in written :: Lookup(now, x) == Lookup(Copied(s), x))
    && forall x | x in written :: Sound(s, now, written, x)
  }

  lemma TrailIsKept(s: Start, now: Entries, written: set<string>)
    requires Copiable(s) && Grown(s, now, written)
    ensures Kept(s.e, now, MasterTrail(s), s.to, s.inode)
    ensures s.to in MasterTrail(s) && s.master in MasterTrail(s)
    ensures Lookup(now, s.master) == Some(MasterEntry(s))
  {
    TrailIsNew(s.e, {}, s.master);
    forall z | z in MasterTrail(s) ensures Lookup(now, z) == Lookup(Copied(s), z) {}
  }

  /** The trail behind the master's name. */
  lemma TrailBehind(s: Start)
    requires Copiable(s) && s.master != s.to
    ensures s.master in s.e && s.e[s.master].Symlink?
    ensures var t := s.e[s.master].target;
            && Destination(s.e, {s.master}, t) == Some(s.to)
            && MasterTrail(s) == {s.master} + Trail(s.e, {s.master}, t)
            && s.master !in Trail(s.e, {s.master}, t)
  {
    assert {} + {s.master} == {s.master};
    TrailIsNew(s.e, {s.master}, s.e[s.master].target);
    assert Trail(s.e, {}, s.master) == {s.master} + Trail(s.e, {} + {s.master}, s.e[s.master].target);
  }

  lemma TrailAlone(s: Start)
    requires Copiable(s) && s.master == s.to
    ensures MasterTrail(s) == {s.master}
  {
    if s.master in s.e && s.e[s.master].Symlink? {
      TrailIsNew(s.e, {} + {s.master}, s.e[s.master].target);
    }
  }

  /** A copy of the master's entry leads to the library, also without the master's name. */
  lemma MasterEntryResolves(s: Start, now: Entries, gone: set<string>, x: string)
    requires Copiable(s) && x !in gone && x !in MasterTrail(s) && Lookup(now, x) == Some(MasterEntry(s))
    requires s.master != s.to ==> Kept(s.e, now, MasterTrail(s) - {s.master}, s.to, s.inode)
    requires gone !! MasterTrail(s)
    ensures Resolve(now - gone, x) == Some(s.inode)
  {
    if s.master != s.to {
      TrailBehind(s);
      assert (now - gone) - {x} == now - (gone + {x});
      TrailResolves(s.e, now, {s.master}, gone + {x}, s.e[s.master].target, s.to, s.inode);
    }
  }

  /** So a name written never dangles and is never in a loop: it leads to the library. */
  lemma {:induction false} WrittenResolves(s: Start, now: Entries, written: set<string>, gone: set<string>, x: string)
    requires Copiable(s) && Grown(s, now, written) && x in written
    requires gone !! MasterTrail(s) && forall g | g in gone && g in written :: |g| < |x|
    ensures Resolve(now - gone, x) == Some(s.inode)
    decreases |now - gone|
  {
    TrailIsKept(s, now, written);
    assert Sound(s, now, written, x);
    if now[x] == MasterEntry(s) {
      MasterEntryResolves(s, now, gone, x);
    } else {
      FewerEntries(now - gone, x);
      assert (now - gone) - {x} == now - (gone + {x});
      if now[x].target in written {
        WrittenResolves(s, now, written, gone + {x}, now[x].target);
      }
    }
  }

  /** Whether a name exists can be told from the initial directory. */
  lemma {:induction false} ResolvesIfLeads(s: Start, now: Entries, written: set<string>, gone: set<string>, x: string)
    requires Copiable(s) && Grown(s, now, written) && gone !! written && gone !! MasterTrail(s)
    ensures Resolve(now - gone, x).Some? <==> Leads(s.e - gone, written + {s.to}, x)
    decreases |now - gone|
  {
    TrailIsKept(s, now, written);
    if x in written {
      WrittenResolves(s, now, written, gone, x);
    } else if x in MasterTrail(s) {
      var before := TrailSuffix(s.e, {}, s.master, x);
      TrailResolves(s.e, now, before, gone, x, s.to, s.inode);
      TrailLeads(s.e, written + {s.to}, before, gone, x, s.to);
    } else {
      assert Lookup(now, x) == Lookup(s.e, x);
      if x in now - gone && now[x].Symlink? {
        FewerEntries(now - gone, x);
        assert (now - gone) - {x} == now - (gone + {x}) && (s.e - gone) - {x} == s.e - (gone + {x});
        ResolvesIfLeads(s, now, written, gone + {x}, now[x].target);
      }
    }
  }

  lemma ClearedIfVacant(s: Start, now: Entries, written: set<string>, x: string)
    requires Copiable(s) && Grown(s, now, written)
    ensures x !in Cleared(now, x) <==> Vacant(s.e, written + {s.to}, x)
  {
    ResolvesIfLeads(s, now, written, {}, x);
    assert now - {} == now && s.e - {} == s.e;
    assert Lookup(now, x) == Lookup(Copied(s), x) || Sound(s, now, written, x);
  }

  lemma GrownByOne(s: Start, now: Entries, written: set<string>, x: string, entry: Entry)
    requires Copiable(s) && Grown(s, now, written) && x !in MasterTrail(s)
    requires entry == MasterEntry(s) || (entry.Symlink? && entry.target in written + {s.to} && |entry.target| > |x|)
    ensures Grown(s, now[x := entry], written + {x})
  {
    forall y | y in written + {x} ensures Sound(s, now[x := entry], written + {x}, y) {
      assert y == x || Sound(s, now, written, y);
    }
    forall y | y !in written + {x} ensures Lookup(now[x := entry], y) == Lookup(Copied(s), y) {
      assert Lookup(now, y) == Lookup(Copied(s), y);
    }
  }

  /** Linking a driver off the master's trail works if and only if its name is not taken by
      a dangling link. */
  lemma PlaceLinkWorks(s: Start, now: Entries, written: set<string>, d: string)
    requires Copiable(s) && Grown(s, now, written) && d !in MasterTrail(s)
    ensures var o := PlaceLink(now, s.master, d);
            if Vacant(s.e, written + {s.to}, d) then o == Outcome(now[d := MasterEntry(s)], None)
            else o == Outcome(now, Some(FileExists(d)))
    ensures Grown(s, now[d := MasterEntry(s)], written + {d})
  {
    TrailIsKept(s, now, written);
    ClearedIfVacant(s, now, written, d);
    assert (now - {d})[d := MasterEntry(s)] == now[d := MasterEntry(s)];
    GrownByOne(s, now, written, d, MasterEntry(s));
  }

  /** So does linking an alias to its driver; the link points to a longer name. */
  lemma PlaceSymlinkWorks(s: Start, now: Entries, written: set<string>, d: string, x: string)
    requires Copiable(s) && Grown(s, now, written) && d in written + {s.to} && |x| < |d| && x !in MasterTrail(s)
    ensures var o := PlaceSymlink(now, d, x);
            if Vacant(s.e, written + {s.to}, x) then o == Outcome(now[x := Symlink(d)], None)
            else o == Outcome(now, Some(FileExists(x)))
    ensures Grown(s, now[x := Symlink(d)], written + {x})
  {
    ClearedIfVacant(s, now, written, x);
    assert (now - {x})[x := Symlink(d)] == now[x := Symlink(d)];
    GrownByOne(s, now, written, x, Symlink(d));
  }

  // ---------------------------------------------------- how the peeling loop ends

  /** Peeled down to a name without an extension, the loop makes the same link again
      and again. */
  lemma {:induction false} LoopGoesOn(s: Start, now: Entries, written: set<string>, d: string, x: string, rounds: nat)
    requires Copiable(s) && Grown(s, now, written) && d in written + {s.to} && x in written && |x| < |d|
    requires SplitExt(x).1 == ""
    ensures PeelLoop(now, d, x, rounds).error == Some(StillPeeling)
  {
    if rounds > 0 {
      PlaceSymlinkWorks(s, now, written, d, x);
      assert written + {x} == written;
      LoopGoesOn(s, now[x := Symlink(d)], written, d, x, rounds - 1);
    }
  }

  function Elements(xs: seq<string>): set<string> {
    set x | x in xs
  }

  /** The links of the loop, without its condition. */
  function PlaceAll(e: Entries, d: string, xs: seq<string>): Outcome
    decreases |xs|
  {
    if xs == [] then Outcome(e, None)
    else
      var o := PlaceSymlink(e, d, xs[0]);
      if o.error.Some? then o else PlaceAll(o.entries, d, xs[1..])
  }

  /** The name at which peeling ends, or stays. */
  function Base(name: string): string
    decreases |name|
  {
    var (stem, ext) := SplitExt(name);
    if ext == ".so" || ext == "" then name else Base(stem)
  }

  lemma {:induction false} BaseIsLast(name: string)
    ensures |Aliases(name)| <= |name| && (Base(name) == name || Base(name) in Aliases(name))
    ensures if Peelable(name) then SplitExt(Base(name)).1 == ".so" else SplitExt(Base(name)).1 == ""
    decreases |name|
  {
    var (stem, ext) := SplitExt(name);
    if ext != ".so" && ext != "" {
      BaseIsLast(stem);
    }
  }

  /** One round. */
  lemma PeelOne(e: Entries, d: string, name: string, stem: string, rounds: nat)
    requires SplitExt(name).0 == stem && SplitExt(name).1 != ".so" && SplitExt(name).1 != "" && rounds > 0
    ensures |stem| < |name| && (Peelable(name) <==> Peelable(stem))
    ensures var o := PlaceSymlink(e, d, stem);
            if o.error.Some? then PeelLoop(e, d, name, rounds) == PlaceAll(e, d, Aliases(name)) == o
            else
              && PeelLoop(e, d, name, rounds) == PeelLoop(o.entries, d, stem, rounds - 1)
              && PlaceAll(e, d, Aliases(name)) == PlaceAll(o.entries, d, Aliases(stem))
  {
    assert Aliases(name)[0] == stem && Aliases(name)[1..] == Aliases(stem);
  }

  lemma AliasOne(name: string, stem: string)
    requires SplitExt(name).0 == stem && SplitExt(name).1 != ".so" && SplitExt(name).1 != ""
    ensures |Aliases(name)| == 1 + |Aliases(stem)| && Base(name) == Base(stem)
  {
  }

  /** Given enough rounds, the loop makes the links of the aliases, and goes on from there. */
  lemma {:induction false} LoopIsPlaceAll(e: Entries, d: string, name: string, rounds: nat)
    requires rounds >= |Aliases(name)|
    ensures var o := PlaceAll(e, d, Aliases(name));
            PeelLoop(e, d, name, rounds) ==
            if o.error.Some? then o else PeelLoop(o.entries, d, Base(name), rounds - |Aliases(name)|)
    decreases |name|
  {
    var (stem, ext) := SplitExt(name);
    if ext != ".so" && ext != "" {
      AliasOne(name, stem);
      PeelOne(e, d, name, stem, rounds);
      var o := PlaceSymlink(e, d, stem);
      if o.error == None {
        LoopIsPlaceAll(o.entries, d, stem, rounds - 1);
      }
    }
  }

  lemma {:induction false} PeelableLoop(e: Entries, d: string, name: string, rounds: nat)
    requires Peelable(name) && rounds > |name|
    ensures PeelLoop(e, d, name, rounds) == PlaceAll(e, d, Aliases(name))
    decreases |name|
  {
    var (stem, ext) := SplitExt(name);
    if ext != ".so" {
      PeelOne(e, d, name, stem, rounds);
      var o := PlaceSymlink(e, d, stem);
      if o.error == None {
        PeelableLoop(o.entries, d, stem, rounds - 1);
      }
    }
  }

  /** A loop without an error has ended by itself, with just these links. */
  lemma {:induction false} EndedLoop(e: Entries, d: string, name: string, rounds: nat)
    requires PeelLoop(e, d, name, rounds).error == None
    ensures Peelable(name) && PeelLoop(e, d, name, rounds) == PlaceAll(e, d, Aliases(name))
    decreases rounds
  {
    var (stem, ext) := SplitExt(name);
    if ext != ".so" {
      if ext != "" {
        PeelOne(e, d, name, stem, rounds);
      }
      EndedLoop(PlaceSymlink(e, d, stem).entries, d, stem, rounds - 1);
    }
  }

  /** The names `xs` have become links to `d`. */
  ghost predicate LinksMade(before: Entries, after: Entries, d: string, xs: seq<string>) {
    forall x :: Lookup(after, x) == if x in xs then Some(Symlink(d)) else Lookup(before, x)
  }

  lemma OneMoreLink(before: Entries, after: Entries, d: string, xs: seq<string>)
    requires xs != [] && LinksMade(before[xs[0] := Symlink(d)], after, d, xs[1..])
    ensures LinksMade(before, after, d, xs)
  {
    assert xs == [xs[0]] + xs[1..];
  }

  lemma OneMoreElement(written: set<string>, xs: seq<string>)
    requires xs != []
    ensures written + {xs[0]} + Elements(xs[1..]) == written + Elements(xs)
  {
    assert xs == [xs[0]] + xs[1..];
  }

  predicate Shorter(xs: seq<string>, d: string) {
    forall i | 0 <= i < |xs| :: |xs[i]| < |d|
  }

  /** The aliases of a driver are linked to it if and only if all of them are `Writable`. */
  lemma {:induction false} PlaceAllWorks(s: Start, now: Entries, written: set<string>, d: string, xs: seq<string>)
    requires Copiable(s) && Grown(s, now, written) && d in written + {s.to}
    requires Shorter(xs, d) && Elements(xs) !! MasterTrail(s)
    ensures var o := PlaceAll(now, d, xs);
            && (o.error == None <==> Writable(s.e, written + {s.to}, xs))
            && (o.error.Some? ==> o.error.value.FileExists?)
            && (o.error == None ==> Grown(s, o.entries, written + Elements(xs)) && LinksMade(now, o.entries, d, xs))
    decreases |xs|
  {
    if xs == [] {
      assert written + Elements(xs) == written;
    } else {
      var x, rest := xs[0], xs[1..];
      OneMoreElement({}, xs);
      PlaceSymlinkWorks(s, now, written, d, x);
      if Vacant(s.e, written + {s.to}, x) {
        assert (written + {x}) + {s.to} == (written + {s.to}) + {x};
        PlaceAllWorks(s, now[x := Symlink(d)], written + {x}, d, rest);
        var o := PlaceAll(now, d, xs);
        OneMoreElement(written, xs);
        if o.error == None {
          OneMoreLink(now, o.entries, d, xs);
        }
      }
    }
  }

  /** A driver without an extension becomes a link to itself, which is in its own way
      in the second round. */
  lemma LoopAtOnce(e: Entries, d: string, rounds: nat)
    requires Resolve(e, d).Some? && SplitExt(d).1 == "" && rounds >= 2
    ensures PeelLoop(e, d, d, rounds).error == Some(FileExists(d))
  {
    var e1 := (e - {d})[d := Symlink(d)];
    assert PlaceSymlink(e, d, d) == Outcome(e1, None);
    assert d !in e1 - {d};
    assert Resolve(e1, d) == None;
    assert PlaceSymlink(e1, d, d).error == Some(FileExists(d));
  }

  /** What the loop comes to when the names it peels are `Writable`, and when not. */
  predicate LoopResult(o: Outcome, peelable: bool, writable: bool) {
    if !writable then o.error.Some? && o.error.value.FileExists?
    else if peelable then o.error == None
    else o.error == Some(StillPeeling)
  }

  /** How the loop ends, for every driver that has just been linked. It ends normally if
      and only if peeling reaches `.so` and meets no dangling link on the way. A dangling
      link ends it with an error, and so does a name without any extension. For all other
      names it never ends: it is still running after any number of rounds. */
  lemma HowTheLoopEnds(e: Entries, d: string, rounds: nat)
    requires Lookup(e, d).Some? && e[d].Hard? && rounds > |d| + 1
    ensures var error, writable := PeelLoop(e, d, d, rounds).error, Writable(e, {d}, Aliases(d));
            && (error == None <==> Peelable(d) && writable)
            && (error == Some(StillPeeling) <==> !Peelable(d) && SplitExt(d).1 != "" && writable)
            && (error.Some? && error.value.FileExists? <==> SplitExt(d).1 == "" || !writable)
  {
    if SplitExt(d).1 == "" {
      LoopAtOnce(e, d, rounds);
    } else {
      LoopWithExtension(e, d, Aliases(d), rounds);
    }
  }

  lemma LoopWithExtension(e: Entries, d: string, xs: seq<string>, rounds: nat)
    requires Lookup(e, d).Some? && e[d].Hard? && rounds > |d| + 1 && SplitExt(d).1 != "" && xs == Aliases(d)
    ensures LoopResult(PeelLoop(e, d, d, rounds), Peelable(d), Writable(e, {d}, xs))
  {
    AliasesAreShorter(d);
    LinksOfDriver(e, d, xs);
    if Peelable(d) {
      PeelableLoop(e, d, d, rounds);
    } else {
      BaseIsLast(d);
      LoopIsPlaceAll(e, d, d, rounds);
      if Writable(e, {d}, xs) {
        BaseLoopGoesOn(e, d, xs, Base(d), rounds - |xs|);
      }
    }
  }

  lemma LinksOfDriver(e: Entries, d: string, xs: seq<string>)
    requires Lookup(e, d).Some? && e[d].Hard? && Shorter(xs, d)
    ensures var o := PlaceAll(e, d, xs);
            (o.error == None <==> Writable(e, {d}, xs)) && (o.error.Some? ==> o.error.value.FileExists?)
  {
    var s := Start(e, d, d, e[d].inode);
    assert Copied(s) == e && {} + {d} == {d};
    PlaceAllWorks(s, e, {}, d, xs);
  }

  lemma BaseLoopGoesOn(e: Entries, d: string, xs: seq<string>, x: string, rounds: nat)
    requires Lookup(e, d).Some? && e[d].Hard? && Shorter(xs, d) && x in xs && SplitExt(x).1 == ""
    requires Writable(e, {d}, xs)
    ensures PeelLoop(PlaceAll(e, d, xs).entries, d, x, rounds).error == Some(StillPeeling)
  {
    var s := Start(e, d, d, e[d].inode);
    assert Copied(s) == e && {} + {d} == {d};
    PlaceAllWorks(s, e, {}, d, xs);
    LoopGoesOn(s, PlaceAll(e, d, xs).entries, {} + Elements(xs), d, x, rounds);
  }

  // ------------------------------------------------------------ the final state

  /** `x` is a driver or the alias of a driver. */
  predicate Writes(driver: string, x: string) {
    x == driver || x in Aliases(driver)
  }

  predicate Involved(drivers: seq<string>, x: string) {
    exists i | 0 <= i < |drivers| :: Writes(drivers[i], x)
  }

  function Names(driver: string): set<string> {
    {driver} + Elements(Aliases(driver))
  }

  /** The names written for the first `n` drivers. */
  function Written(drivers: seq<string>, n: nat): set<string>
    requires n <= |drivers|
  {
    if n == 0 then {} else Written(drivers, n - 1) + Names(drivers[n - 1])
  }

  /** Nothing is in the way of the first `n` drivers: every name they write is free, or
      leads to a file, to the library or to a name that was written before. */
  predicate Unobstructed(e: Entries, to: string, drivers: seq<string>, n: nat)
    requires n <= |drivers|
  {
    n == 0 || (Unobstructed(e, to, drivers, n - 1) &&
               Writable(e, Written(drivers, n - 1) + {to}, [drivers[n - 1]] + Aliases(drivers[n - 1])))
  }

  /** The last of the first `n` drivers that writes `x`, or -1. */
  function LastWriter(drivers: seq<string>, n: nat, x: string): (i: int)
    requires n <= |drivers|
    ensures -1 <= i < n && (i >= 0 ==> Writes(drivers[i], x))
  {
    if n == 0 then -1
    else if Writes(drivers[n - 1], x) then n - 1
    else LastWriter(drivers, n - 1, x)
  }

  /** The entry at `x` when the last writer has decided it. */
  function FinalEntry(s: Start, drivers: seq<string>, n: nat, x: string): Option<Entry>
    requires Copiable(s) && n <= |drivers|
  {
    var i := LastWriter(drivers, n, x);
    if i < 0 then Lookup(Copied(s), x)
    else if drivers[i] == x then Some(MasterEntry(s))
    else Some(Symlink(drivers[i]))
  }

  lemma {:induction false} LastWriterIsLast(drivers: seq<string>, n: nat, x: string, j: nat)
    requires j < n <= |drivers| && Writes(drivers[j], x)
    ensures LastWriter(drivers, n, x) >= j
  {
    if j < n - 1 {
      LastWriterIsLast(drivers, n - 1, x, j);
    }
  }

  /** Driver `d` has been installed. */
  ghost predicate DriverMade(before: Entries, after: Entries, entry: Entry, d: string) {
    forall x :: Lookup(after, x) ==
      if x == d then Some(entry) else if x in Aliases(d) then Some(Symlink(d)) else Lookup(before, x)
  }

  /** Drivers the installer can deal with, and that do not touch the master's trail. */
  predicate Proper(s: Start, driver: string, rounds: nat)
    requires Copiable(s)
  {
    Peelable(driver) && Names(driver) !! MasterTrail(s) && rounds > |driver|
  }

  /** A driver with a `.so` part and its links. */
  function PlaceDriver(e: Entries, master: string, d: string): Outcome {
    var o := PlaceLink(e, master, d);
    if o.error.Some? then o else PlaceAll(o.entries, d, Aliases(d))
  }

  lemma DriverIsPlaced(e: Entries, master: string, d: string, rounds: nat)
    requires Peelable(d) && rounds > |d|
    ensures InstallDriver(e, master, d, rounds) == PlaceDriver(e, master, d)
  {
    PeelableLoop(PlaceLink(e, master, d).entries, d, d, rounds);
  }

  lemma PlaceDriverWorks(s: Start, now: Entries, written: set<string>, d: string, xs: seq<string>)
    requires Copiable(s) && Grown(s, now, written) && Names(d) !! MasterTrail(s) && xs == Aliases(d)
    ensures var o := PlaceDriver(now, s.master, d);
            && (o.error == None <==> Writable(s.e, written + {s.to}, [d] + xs))
            && (o.error == None ==>
                  && Grown(s, o.entries, written + Names(d))
                  && LinksMade(now[d := MasterEntry(s)], o.entries, d, xs))
  {
    PlaceLinkWorks(s, now, written, d);
    assert ([d] + xs)[0] == d && ([d] + xs)[1..] == xs;
    if Vacant(s.e, written + {s.to}, d) {
      assert (written + {d}) + {s.to} == (written + {s.to}) + {d};
      assert written + {d} + Elements(xs) == written + Names(d);
      AliasesAreShorter(d);
      PlaceAllWorks(s, now[d := MasterEntry(s)], written + {d}, d, xs);
    }
  }

  /** One driver is installed if and only if none of its names is obstructed. */
  lemma InstallDriverWorks(s: Start, now: Entries, written: set<string>, d: string, rounds: nat)
    requires Copiable(s) && Grown(s, now, written) && Proper(s, d, rounds)
    ensures var o := InstallDriver(now, s.master, d, rounds);
            && (o.error == None <==> Writable(s.e, written + {s.to}, [d] + Aliases(d)))
            && (o.error == None ==>
                  && Grown(s, o.entries, written + Names(d))
                  && DriverMade(now, o.entries, MasterEntry(s), d))
  {
    DriverIsPlaced(now, s.master, d, rounds);
    PlaceDriverWorks(s, now, written, d, Aliases(d));
    AliasesAreShorter(d);
  }

  /** Every entry is the one its last writer among the first `n` drivers made. */
  ghost predicate Placed(s: Start, now: Entries, drivers: seq<string>, n: nat)
    requires Copiable(s) && n <= |drivers|
  {
    forall x :: Lookup(now, x) == FinalEntry(s, drivers, n, x)
  }

  lemma PlacedNext(s: Start, before: Entries, after: Entries, drivers: seq<string>, n: nat)
    requires Copiable(s) && n < |drivers| && Placed(s, before, drivers, n)
    requires DriverMade(before, after, MasterEntry(s), drivers[n])
    ensures Placed(s, after, drivers, n + 1)
  {
    forall x ensures Lookup(after, x) == FinalEntry(s, drivers, n + 1, x) {
      assert Lookup(before, x) == FinalEntry(s, drivers, n, x);
    }
  }

  lemma {:induction false} UnwrittenHasNoWriter(drivers: seq<string>, n: nat, x: string)
    requires n <= |drivers| && forall i | 0 <= i < n :: !Writes(drivers[i], x)
    ensures LastWriter(drivers, n, x) == -1
  {
    if n > 0 {
      UnwrittenHasNoWriter(drivers, n - 1, x);
    }
  }

  /** `n` drivers are installed. */
  ghost predicate Installed(s: Start, now: Entries, drivers: seq<string>, n: nat)
    requires Copiable(s) && n <= |drivers|
  {
    Grown(s, now, Written(drivers, n)) && Placed(s, now, drivers, n)
  }

  /** The outcome of the first `n` drivers. */
  ghost predicate DriversDone(s: Start, o: Outcome, drivers: seq<string>, n: nat)
    requires Copiable(s) && n <= |drivers|
  {
    && (o.error == None <==> Unobstructed(s.e, s.to, drivers, n))
    && (o.error == None ==> Installed(s, o.entries, drivers, n))
  }

  lemma NextDriverWorks(s: Start, o: Outcome, drivers: seq<string>, n: nat, rounds: nat)
    requires Copiable(s) && n < |drivers| && Proper(s, drivers[n], rounds) && DriversDone(s, o, drivers, n)
    ensures DriversDone(s, InstallNext(o, s.master, drivers[n], rounds), drivers, n + 1)
  {
    if o.error == None {
      InstallDriverWorks(s, o.entries, Written(drivers, n), drivers[n], rounds);
      var o' := InstallDriver(o.entries, s.master, drivers[n], rounds);
      if o'.error == None {
        PlacedNext(s, o.entries, o'.entries, drivers, n);
      }
    }
  }

  /** Any number of drivers is installed if and only if nothing is in their way. */
  lemma {:induction false} InstallDriversWorks(s: Start, drivers: seq<string>, n: nat, rounds: nat)
    requires Copiable(s) && n <= |drivers| && forall i | 0 <= i < n :: Proper(s, drivers[i], rounds)
    ensures DriversDone(s, InstallDrivers(Copied(s), s.master, drivers, n, rounds), drivers, n)
  {
    if n > 0 {
      InstallDriversWorks(s, drivers, n - 1, rounds);
      NextDriverWorks(s, InstallDrivers(Copied(s), s.master, drivers, n - 1, rounds), drivers, n - 1, rounds);
    }
  }

  lemma WritesIsTransitive(w: string, d: string, x: string)
    requires Writes(w, d) && Writes(d, x)
    ensures Writes(w, x)
  {
    if w != d && d != x {
      AliasesAreTransitive(w, d, x);
    }
  }

  /** The driver a final symbolic link points to was not overwritten later. */
  lemma LinkTargetIsMaster(s: Start, drivers: seq<string>, x: string)
    requires Copiable(s) && LastWriter(drivers, |drivers|, x) >= 0
    ensures FinalEntry(s, drivers, |drivers|, drivers[LastWriter(drivers, |drivers|, x)]) == Some(MasterEntry(s))
  {
    var n := |drivers|;
    var i := LastWriter(drivers, n, x);
    var d := drivers[i];
    LastWriterIsLast(drivers, n, d, i);
    var j := LastWriter(drivers, n, d);
    WritesIsTransitive(drivers[j], d, x);
    LastWriterIsLast(drivers, n, x, j);
  }

  predicate AllPeelable(drivers: seq<string>) {
    forall i | 0 <= i < |drivers| :: Peelable(drivers[i])
  }

  predicate EnoughRounds(drivers: seq<string>, rounds: nat) {
    forall i | 0 <= i < |drivers| :: rounds > |drivers[i]|
  }

  /** No driver and no alias is on the way from the master's name to the file behind it. */
  predicate TrailIsFree(s: Start, drivers: seq<string>)
    requires Copiable(s)
  {
    forall y | y in MasterTrail(s) :: !Involved(drivers, y)
  }

  /** Every driver and every alias leads to the library. */
  ghost predicate Complete(final: Entries, inode: nat, drivers: seq<string>) {
    forall x | Involved(drivers, x) :: Resolve(final, x) == Some(inode)
  }

  lemma AllProper(s: Start, drivers: seq<string>, rounds: nat)
    requires Copiable(s) && AllPeelable(drivers) && EnoughRounds(drivers, rounds) && TrailIsFree(s, drivers)
    ensures forall i | 0 <= i < |drivers| :: Proper(s, drivers[i], rounds)
  {
    forall i | 0 <= i < |drivers| ensures Proper(s, drivers[i], rounds) {
      forall y | y in MasterTrail(s) ensures y !in Names(drivers[i]) {
        assert !Writes(drivers[i], y);
      }
    }
  }

  lemma FinalEntries(s: Start, drivers: seq<string>, rounds: nat)
    requires Copiable(s) && AllPeelable(drivers) && EnoughRounds(drivers, rounds) && TrailIsFree(s, drivers)
    requires Unobstructed(s.e, s.to, drivers, |drivers|)
    ensures var o := Install(Copied(s), s.master, drivers, rounds);
            && o.error == None && s.master !in o.entries
            && forall x | x != s.master :: Lookup(o.entries, x) == FinalEntry(s, drivers, |drivers|, x)
    ensures forall x | !Involved(drivers, x) :: FinalEntry(s, drivers, |drivers|, x) == Lookup(Copied(s), x)
  {
    var n := |drivers|;
    AllProper(s, drivers, rounds);
    InstallDriversWorks(s, drivers, n, rounds);
    var all := InstallDrivers(Copied(s), s.master, drivers, n, rounds).entries;
    forall x | !Involved(drivers, x) ensures FinalEntry(s, drivers, n, x) == Lookup(Copied(s), x) {
      assert forall i | 0 <= i < n :: !Writes(drivers[i], x);
      UnwrittenHasNoWriter(drivers, n, x);
    }
    TrailIsKept(s, all, Written(drivers, n));
    forall x | x != s.master ensures Lookup(all - {s.master}, x) == FinalEntry(s, drivers, n, x) {
      assert Lookup(all, x) == FinalEntry(s, drivers, n, x);
    }
  }

  /** What becomes of a driver or an alias: a copy of the master's entry, or a symbolic link
      to a longer name that has such a copy. */
  predicate InstalledAt(s: Start, final: Entries, x: string)
    requires Copiable(s)
  {
    x in final &&
    (final[x] == MasterEntry(s) ||
     (final[x].Symlink? && |final[x].target| > |x| && Lookup(final, final[x].target) == Some(MasterEntry(s))))
  }

  lemma NameIsInstalled(s: Start, drivers: seq<string>, final: Entries, x: string)
    requires Copiable(s) && TrailIsFree(s, drivers) && Involved(drivers, x)
    requires s.master != s.to ==> Kept(s.e, final, MasterTrail(s) - {s.master}, s.to, s.inode)
    requires forall y | Involved(drivers, y) :: Lookup(final, y) == FinalEntry(s, drivers, |drivers|, y)
    ensures InstalledAt(s, final, x) && Resolve(final, x) == Some(s.inode)
  {
    var n := |drivers|;
    var k :| 0 <= k < n && Writes(drivers[k], x);
    LastWriterIsLast(drivers, n, x, k);
    var d := drivers[LastWriter(drivers, n, x)];
    LinkTargetIsMaster(s, drivers, x);
    assert Writes(d, d);
    assert Lookup(final, d) == Some(MasterEntry(s));
    if d == x {
      MasterEntryResolves(s, final, {}, d);
      assert final - {} == final;
    } else {
      AliasesAreShorter(d);
      MasterEntryResolves(s, final, {x}, d);
    }
  }

  /** The installed directory: every driver and every alias leads to the library, an
      alias through a symbolic link to a longer name; the master's name is gone; all other
      entries are as the copy has left them. */
  lemma InstallationIsComplete(s: Start, drivers: seq<string>, rounds: nat)
    requires Copiable(s) && AllPeelable(drivers) && EnoughRounds(drivers, rounds) && TrailIsFree(s, drivers)
    requires Unobstructed(s.e, s.to, drivers, |drivers|)
    ensures var o := InstallFrom(s.e, s.inode, s.master, drivers, rounds);
            && o.error == None
            && s.master !in o.entries
            && Complete(o.entries, s.inode, drivers)
            && (forall x | Involved(drivers, x) :: InstalledAt(s, o.entries, x))
            && (forall x | !Involved(drivers, x) && x != s.master :: Lookup(o.entries, x) == Lookup(Copied(s), x))
  {
    FinalEntries(s, drivers, rounds);
    TrailIsNew(s.e, {}, s.master);
    var final := Install(Copied(s), s.master, drivers, rounds).entries;
    forall x | Involved(drivers, x) ensures InstalledAt(s, final, x) && Resolve(final, x) == Some(s.inode) {
      assert forall y | Involved(drivers, y) :: y != s.master;
      NameIsInstalled(s, drivers, final, x);
    }
  }

  /** A driver installed without an error. */
  lemma EndedDriver(e: Entries, master: string, d: string, rounds: nat)
    requires InstallDriver(e, master, d, rounds).error == None
    ensures PlaceLink(e, master, d).error == None && Peelable(d)
    ensures InstallDriver(e, master, d, rounds) == PlaceDriver(e, master, d)
  {
    EndedLoop(PlaceLink(e, master, d).entries, d, d, rounds);
  }

  /** The names by position: every beginning of a driver that ends before a dot behind its
      last `.so` part leads to the library, as the driver does. */
  lemma CutsAreInstalled(s: Start, drivers: seq<string>, rounds: nat, i: nat, p: nat, q: nat)
    requires Copiable(s) && AllPeelable(drivers) && EnoughRounds(drivers, rounds) && TrailIsFree(s, drivers)
    requires Unobstructed(s.e, s.to, drivers, |drivers|)
    requires i < |drivers| && LastSoPart(drivers[i], p) && CutAt(drivers[i], p, q)
    ensures var final := InstallFrom(s.e, s.inode, s.master, drivers, rounds).entries;
            Resolve(final, drivers[i]) == Resolve(final, drivers[i][..q]) == Some(s.inode)
  {
    InstallationIsComplete(s, drivers, rounds);
    AliasesAreCuts(drivers[i], p, drivers[i][..q]);
    assert Writes(drivers[i], drivers[i]) && Writes(drivers[i], drivers[i][..q]);
  }

  lemma {:induction false} SuccessIsPeelable(e: Entries, master: string, drivers: seq<string>, n: nat, rounds: nat)
    requires n <= |drivers| && InstallDrivers(e, master, drivers, n, rounds).error == None
    ensures forall i | 0 <= i < n :: Peelable(drivers[i])
  {
    if n > 0 {
      SuccessIsPeelable(e, master, drivers, n - 1, rounds);
      EndedDriver(InstallDrivers(e, master, drivers, n - 1, rounds).entries, master, drivers[n - 1], rounds);
    }
  }

  // ------------------------------------------------- drivers on the master's trail

  /** Symbolic links that lead to one another only. */
  predicate Stuck(now: Entries, names: set<string>) {
    forall x | x in names :: x in now && now[x].Symlink? && now[x].target in names
  }

  lemma {:induction false} StuckLeadsNowhere(now: Entries, names: set<string>, gone: set<string>, x: string)
    requires Stuck(now, names) && x in names
    ensures Resolve(now - gone, x) == None
    decreases |now - gone|
  {
    if x in now - gone {
      FewerEntries(now - gone, x);
      assert (now - gone) - {x} == now - (gone + {x});
      StuckLeadsNowhere(now, names, gone + {x}, now[x].target);
    }
  }

  /** A driver or alias is among such links. */
  ghost predicate Doomed(now: Entries, drivers: seq<string>) {
    exists names :: Stuck(now, names) && AnyInvolved(drivers, names)
  }

  predicate AnyInvolved(drivers: seq<string>, names: set<string>) {
    exists x | x in names :: Involved(drivers, x)
  }

  /** Links that are stuck are in the way of every later link, so they stay. */
  lemma StuckStays(now: Entries, names: set<string>, x: string, entry: Entry)
    requires Stuck(now, names)
    ensures if x in names then x in Cleared(now, x) else Stuck(Cleared(now, x)[x := entry], names)
  {
    if x in names {
      StuckLeadsNowhere(now, names, {}, x);
      assert now - {} == now;
    }
  }

  lemma DoomStays(now: Entries, drivers: seq<string>, x: string, entry: Entry)
    requires Doomed(now, drivers)
    ensures x in Cleared(now, x) || Doomed(Cleared(now, x)[x := entry], drivers)
  {
    var names :| Stuck(now, names) && AnyInvolved(drivers, names);
    StuckStays(now, names, x, entry);
  }

  lemma {:induction false} DoomedLinks(now: Entries, drivers: seq<string>, d: string, xs: seq<string>)
    requires Doomed(now, drivers)
    ensures var o := PlaceAll(now, d, xs); o.error.Some? || Doomed(o.entries, drivers)
    decreases |xs|
  {
    if xs != [] {
      DoomStays(now, drivers, xs[0], Symlink(d));
      var o := PlaceSymlink(now, d, xs[0]);
      if o.error == None {
        DoomedLinks(o.entries, drivers, d, xs[1..]);
      }
    }
  }

  lemma DoomedDriver(now: Entries, drivers: seq<string>, master: string, d: string, rounds: nat)
    requires Doomed(now, drivers)
    ensures var o := InstallDriver(now, master, d, rounds); o.error.Some? || Doomed(o.entries, drivers)
  {
    if InstallDriver(now, master, d, rounds).error == None {
      EndedDriver(now, master, d, rounds);
      DoomStays(now, drivers, d, Cleared(now, d)[master]);
      DoomedLinks(PlaceLink(now, master, d).entries, drivers, d, Aliases(d));
    }
  }

  /** The part of the trail before `y`. */
  function TrailTo(e: Entries, seen: set<string>, x: string, y: string): set<string>
    requires Destination(e, seen, x).Some? && y in Trail(e, seen, x)
    decreases |e.Keys - seen|
  {
    if x == y then {}
    else
      FewerNames(e.Keys - (seen + {x}), e.Keys - seen);
      {x} + TrailTo(e, seen + {x}, e[x].target, y)
  }

  /** It consists of links that lead to one another, or to `y`. */
  lemma {:induction false} TrailToLinks(e: Entries, seen: set<string>, x: string, y: string)
    requires Destination(e, seen, x).Some? && y in Trail(e, seen, x)
    ensures var before := TrailTo(e, seen, x, y);
            && x in before + {y} && y !in before && before <= Trail(e, seen, x) && Destination(e, seen, x).value !in before
            && forall z | z in before :: z in e && e[z].Symlink? && e[z].target in before + {y}
    decreases |e.Keys - seen|
  {
    if x != y {
      FewerNames(e.Keys - (seen + {x}), e.Keys - seen);
      TrailToLinks(e, seen + {x}, e[x].target, y);
      TrailIsNew(e, seen + {x}, e[x].target);
    }
  }

  /** Links from `t` on to `y`, from there perhaps to `d`, and back to `t`. */
  lemma CycleIsStuck(now: Entries, before: set<string>, t: string, y: string, d: string)
    requires forall z | z in before :: z in now && now[z].Symlink? && now[z].target in before + {y}
    requires t in before + {y}
    requires y == d || Lookup(now, y) == Some(Symlink(d))
    requires Lookup(now, d) == Some(Symlink(t))
    ensures Stuck(now, before + {y, d})
  {
  }

  /** A name on the trail that becomes a copy of the master's link, or a link to such a
      copy, closes a loop. */
  lemma TrailCloses(s: Start, now: Entries, drivers: seq<string>, y: string, d: string)
    requires Copiable(s) && y in MasterTrail(s) && y != s.master && Involved(drivers, y)
    requires forall z | z in MasterTrail(s) && z != s.to && z != y :: Lookup(now, z) == Lookup(s.e, z)
    requires d == y || Lookup(now, y) == Some(Symlink(d))
    requires Lookup(now, d) == Some(MasterEntry(s))
    ensures Doomed(now, drivers)
  {
    if s.master == s.to {
      TrailAlone(s);
    }
    TrailBehind(s);
    var t := s.e[s.master].target;
    TrailToLinks(s.e, {s.master}, t, y);
    var before := TrailTo(s.e, {s.master}, t, y);
    forall z | z in before ensures z in now && now[z].Symlink? && now[z].target in before + {y} {
      assert Lookup(now, z) == Lookup(s.e, z);
    }
    CycleIsStuck(now, before, t, y, d);
    assert y in before + {y, d};
  }

  /** The trail as it was before the copy, but for the library at its end. */
  predicate TrailUntouched(s: Start, now: Entries)
    requires Copiable(s)
  {
    && (forall z | z in MasterTrail(s) && z != s.to :: Lookup(now, z) == Lookup(s.e, z))
    && Lookup(now, s.master) == Some(MasterEntry(s))
  }

  /** The installer has failed, closed a loop of links, or not touched the trail so far. */
  ghost predicate TrailOrDoom(s: Start, o: Outcome, drivers: seq<string>, names: set<string>)
    requires Copiable(s)
  {
    o.error.Some? || Doomed(o.entries, drivers) || (TrailUntouched(s, o.entries) && names !! MasterTrail(s))
  }

  lemma {:induction false} LinksOnTrail(s: Start, now: Entries, drivers: seq<string>, d: string, xs: seq<string>)
    requires Copiable(s) && TrailUntouched(s, now) && !Involved(drivers, s.master)
    requires d !in MasterTrail(s) && Lookup(now, d) == Some(MasterEntry(s)) && Shorter(xs, d)
    requires forall x | x in xs :: Involved(drivers, x)
    ensures TrailOrDoom(s, PlaceAll(now, d, xs), drivers, Elements(xs))
    decreases |xs|
  {
    if xs != [] {
      var x, rest := xs[0], xs[1..];
      var o := PlaceSymlink(now, d, x);
      if o.error == None {
        assert o.entries == now[x := Symlink(d)];
        OneMoreElement({}, xs);
        OneMoreOnTrail(s, now, drivers, d, x);
        if x in MasterTrail(s) {
          DoomedLinks(o.entries, drivers, d, rest);
        } else {
          LinksOnTrail(s, o.entries, drivers, d, rest);
        }
      }
    }
  }

  lemma OneMoreOnTrail(s: Start, now: Entries, drivers: seq<string>, d: string, x: string)
    requires Copiable(s) && TrailUntouched(s, now) && !Involved(drivers, s.master) && Involved(drivers, x)
    requires d !in MasterTrail(s) && Lookup(now, d) == Some(MasterEntry(s)) && |x| < |d|
    ensures if x in MasterTrail(s) then Doomed(now[x := Symlink(d)], drivers)
            else TrailUntouched(s, now[x := Symlink(d)]) && Lookup(now[x := Symlink(d)], d) == Some(MasterEntry(s))
  {
    if x in MasterTrail(s) {
      TrailCloses(s, now[x := Symlink(d)], drivers, x, d);
    }
  }

  lemma DriverOnTrail(s: Start, now: Entries, drivers: seq<string>, d: string, xs: seq<string>)
    requires Copiable(s) && TrailUntouched(s, now) && !Involved(drivers, s.master)
    requires xs == Aliases(d) && forall x | x == d || x in xs :: Involved(drivers, x)
    ensures TrailOrDoom(s, PlaceDriver(now, s.master, d), drivers, Names(d))
  {
    if PlaceLink(now, s.master, d).error == None {
      var linked := now[d := MasterEntry(s)];
      TrailIsNew(s.e, {}, s.master);
      assert PlaceLink(now, s.master, d).entries == linked;
      AliasesAreShorter(d);
      if d in MasterTrail(s) {
        TrailCloses(s, linked, drivers, d, d);
        DoomedLinks(linked, drivers, d, xs);
      } else {
        LinksOnTrail(s, linked, drivers, d, xs);
      }
    }
  }

  lemma {:induction false} DriversOnTrail(s: Start, drivers: seq<string>, n: nat, rounds: nat)
    requires Copiable(s) && n <= |drivers| && !Involved(drivers, s.master)
    ensures var o := InstallDrivers(Copied(s), s.master, drivers, n, rounds);
            TrailOrDoom(s, o, drivers, Written(drivers, n))
  {
    if n == 0 {
      TrailIsNew(s.e, {}, s.master);
    } else {
      DriversOnTrail(s, drivers, n - 1, rounds);
      var o, d := InstallDrivers(Copied(s), s.master, drivers, n - 1, rounds), drivers[n - 1];
      if o.error == None {
        if Doomed(o.entries, drivers) {
          DoomedDriver(o.entries, drivers, s.master, d, rounds);
        } else {
          forall x | x == d || x in Aliases(d) ensures Involved(drivers, x) {
            assert Writes(drivers[n - 1], x);
          }
          DriverOnTrail(s, o.entries, drivers, d, Aliases(d));
          if InstallDriver(o.entries, s.master, d, rounds).error == None {
            EndedDriver(o.entries, s.master, d, rounds);
          }
        }
      }
    }
  }

  lemma {:induction false} InvolvedIsWritten(drivers: seq<string>, n: nat, i: nat, x: string)
    requires i < n <= |drivers| && Writes(drivers[i], x)
    ensures x in Written(drivers, n)
  {
    if i < n - 1 {
      InvolvedIsWritten(drivers, n - 1, i, x);
    }
  }

  /** A complete installation has left the master's trail alone. */
  lemma SuccessLeavesTrail(s: Start, drivers: seq<string>, rounds: nat)
    requires Copiable(s)
    requires var o := Install(Copied(s), s.master, drivers, rounds);
             o.error == None && Complete(o.entries, s.inode, drivers)
    ensures TrailIsFree(s, drivers)
  {
    var n := |drivers|;
    var all, final := InstallDrivers(Copied(s), s.master, drivers, n, rounds).entries, Install(Copied(s), s.master, drivers, rounds).entries;
    assert Resolve(final, s.master) == None;
    DriversOnTrail(s, drivers, n, rounds);
    if Doomed(all, drivers) {
      var names :| Stuck(all, names) && AnyInvolved(drivers, names);
      var x :| x in names && Involved(drivers, x);
      StuckLeadsNowhere(all, names, {s.master}, x);
      assert false;
    } else {
      forall y | y in MasterTrail(s) ensures !Involved(drivers, y) {
        if i :| 0 <= i < n && Writes(drivers[i], y) {
          InvolvedIsWritten(drivers, n, i, y);
        }
      }
    }
  }

  /** When the installer does its work, for every directory and every list of drivers: if
      and only if the library can be copied, each driver has a `.so` part, no driver and no
      alias is the master's name or on the way from there to the file copied to, and no
      dangling link is in the way. */
  lemma InstallationSucceeds(e: Entries, inode: nat, master: string, drivers: seq<string>, rounds: nat)
    requires EnoughRounds(drivers, rounds)
    ensures var o, to := InstallFrom(e, inode, master, drivers, rounds), Destination(e, {}, master);
            o.error == None && Complete(o.entries, inode, drivers) <==>
            && to.Some? && AllPeelable(drivers)
            && TrailIsFree(Start(e, master, to.value, inode), drivers)
            && Unobstructed(e, to.value, drivers, |drivers|)
  {
    var to := Destination(e, {}, master);
    if to.Some? {
      var s := Start(e, master, to.value, inode);
      var o := Install(Copied(s), master, drivers, rounds);
      if AllPeelable(drivers) && TrailIsFree(s, drivers) && Unobstructed(e, s.to, drivers, |drivers|) {
        InstallationIsComplete(s, drivers, rounds);
      }
      if o.error == None && Complete(o.entries, inode, drivers) {
        SuccessIsPeelable(Copied(s), master, drivers, |drivers|, rounds);
        SuccessLeavesTrail(s, drivers, rounds);
        AllProper(s, drivers, rounds);
        InstallDriversWorks(s, drivers, |drivers|, rounds);
      }
    }
  }

  /** A master's name that is a link to a driver, such as `lib.so -> drv.so`: the installer
      reports no error, and the library is lost. */
  lemma LinkedMasterIsLost(master: string, d: string, before: nat, inode: nat, rounds: nat)
    requires master != d && SplitExt(d).1 == ".so"
    ensures InstallFrom(map[master := Symlink(d), d := Hard(before)], inode, master, [d], rounds) ==
            Outcome(map[d := Symlink(d)], None)
    ensures Resolve(map[d := Symlink(d)], d) == None
  {
    var e := map[master := Symlink(d), d := Hard(before)];
    assert Destination(e, {}, master) == Destination(e, {} + {master}, d) == Some(d);
    var e1 := e[d := Hard(inode)];
    assert Resolve(e1, d) == Some(inode);
    assert e1 - {d} == map[master := Symlink(d)];
    var e2 := map[master := Symlink(d), d := Symlink(d)];
    assert InstallDriver(e1, master, d, rounds) == Outcome(e2, None) by {
      assert (e1 - {d})[d := Symlink(d)] == e2;
    }
    assert InstallDrivers(e1, master, [d], 0, rounds) == Outcome(e1, None);
    assert InstallDrivers(e1, master, [d], 1, rounds) == Outcome(e2, None);
    assert e2 - {master} == map[d := Symlink(d)];
    assert map[d := Symlink(d)] - {d} == map[];
  }

  /** A name that leads to a file at the start is not in the way, whatever was written. */
  lemma {:induction false} ResolvingNameLeads(e: Entries, written: set<string>, x: string)
    requires Resolve(e, x).Some?
    ensures Leads(e, written, x)
    decreases |e|
  {
    if x !in written && e[x].Symlink? {
      FewerEntries(e, x);
      ResolvingNameLeads(e - {x}, written, e[x].target);
    }
  }

  lemma {:induction false} NoDanglingIsWritable(e: Entries, written: set<string>, names: seq<string>)
    requires forall x | x in names && x in e :: Resolve(e, x).Some?
    ensures Writable(e, written, names)
    decreases |names|
  {
    if names != [] {
      if names[0] in e {
        ResolvingNameLeads(e, written, names[0]);
      }
      NoDanglingIsWritable(e, written + {names[0]}, names[1..]);
    }
  }

  /** In particular, regular files are never in the way. */
  lemma {:induction false} NoDanglingIsUnobstructed(e: Entries, to: string, drivers: seq<string>, n: nat)
    requires n <= |drivers| && forall x | Involved(drivers, x) && x in e :: Resolve(e, x).Some?
    ensures Unobstructed(e, to, drivers, n)
  {
    if n > 0 {
      NoDanglingIsUnobstructed(e, to, drivers, n - 1);
      var d, xs := drivers[n - 1], [drivers[n - 1]] + Aliases(drivers[n - 1]);
      forall x | x in xs && x in e ensures Resolve(e, x).Some? {
        assert Writes(drivers[n - 1], x);
      }
      NoDanglingIsWritable(e, Written(drivers, n - 1) + {to}, xs);
    }
  }

  lemma NoMasterNoLink(o: Outcome, master: string, rounds: nat)
    requires o.error == None && Resolve(o.entries, master).Some?
    ensures InstallNext(o, master, master, rounds).error == Some(NoSuchFile(master))
  {
    assert master !in Cleared(o.entries, master);
  }

  lemma FailureIsFinal(e: Entries, master: string, drivers: seq<string>, n: nat, rounds: nat)
    requires n < |drivers|
    requires InstallNext(InstallDrivers(e, master, drivers, n, rounds), master, drivers[n], rounds).error.Some?
    ensures Install(e, master, drivers, rounds).error ==
            InstallNext(InstallDrivers(e, master, drivers, n, rounds), master, drivers[n], rounds).error
  {
    FailureStops(e, master, drivers, n + 1, |drivers|, rounds);
  }

  /** The master's name must not be a driver: it would be removed to make room for the
      link to itself. */
  lemma MasterAsDriverFails(s: Start, drivers: seq<string>, n: nat, rounds: nat)
    requires Copiable(s) && n < |drivers| && drivers[n] == s.master
    requires (forall i | 0 <= i < n :: Proper(s, drivers[i], rounds)) && Unobstructed(s.e, s.to, drivers, n)
    ensures InstallFrom(s.e, s.inode, s.master, drivers, rounds).error == Some(NoSuchFile(s.master))
  {
    InstallDriversWorks(s, drivers, n, rounds);
    var o := InstallDrivers(Copied(s), s.master, drivers, n, rounds);
    TrailIsKept(s, o.entries, Written(drivers, n));
    TrailResolves(s.e, o.entries, {}, {}, s.master, s.to, s.inode);
    assert o.entries - {} == o.entries;
    NoMasterNoLink(o, s.master, rounds);
    FailureIsFinal(Copied(s), s.master, drivers, n, rounds);
  }

  /** A longest driver stays a copy of the master's entry: a hard link, if that is one, so
      the library survives the last `unlink`. */
  lemma LongestDriverStays(s: Start, drivers: seq<string>, i: nat, rounds: nat)
    requires Copiable(s) && AllPeelable(drivers) && EnoughRounds(drivers, rounds) && TrailIsFree(s, drivers)
    requires Unobstructed(s.e, s.to, drivers, |drivers|)
    requires i < |drivers| && forall j | 0 <= j < |drivers| :: |drivers[j]| <= |drivers[i]|
    ensures Lookup(InstallFrom(s.e, s.inode, s.master, drivers, rounds).entries, drivers[i]) == Some(MasterEntry(s))
  {
    FinalEntries(s, drivers, rounds);
    assert Writes(drivers[i], drivers[i]) && Involved(drivers, drivers[i]);
    TrailIsNew(s.e, {}, s.master);
    LastWriterIsLast(drivers, |drivers|, drivers[i], i);
    AliasesAreShorter(drivers[LastWriter(drivers, |drivers|, drivers[i])]);
  }
}
