/** The flags of a package are kept in the build environment under keys that start
    with the module's name, and found again by that prefix (scons/custom.py). */
module PkgConfig {
  import opened Text

  datatype Value = Bool(b: bool) | Flags(flags: seq<string>)

  type Environment = map<string, Value>

  /** What the probe for a package comes to: not there, or its parsed flags. */
  datatype Probe = Missing | Found(flags: map<string, seq<string>>)

  datatype Check = Check(name: string, probe: Probe)

  predicate NoUnderscore(s: string) {
    Free(s, '_')
  }

  predicate FlagNamesOk(p: Probe) {
    p.Found? ==> forall f | f in p.flags :: NoUnderscore(f)
  }

  function LowerChar(c: char): char {
    if 'A' <= c <= 'Z' then (c - 'A') + 'a' else c
  }

  function Lower(s: string): string {
    seq(|s|, i requires 0 <= i < |s| => LowerChar(s[i]))
  }

  /** Lower case, character by character and by code points: 32 more from A to Z. */
  lemma LowerAt(s: string, i: nat)
    requires i < |s|
    ensures |Lower(s)| == |s|
    ensures Lower(s)[i] as int == if 65 <= s[i] as int <= 90 then s[i] as int + 32 else s[i] as int
  {
  }

  function Have(name: string): string {
    "HAVE_" + name
  }

  function Key(name: string, flag: string): string {
    name + "_" + flag
  }

  /** The flag a key stores for a module, if it starts with the module's prefix. */
  function FlagOf(name: string, k: string): Option<string> {
    if StartsWith(k, name + "_") then Some(k[|name| + 1..]) else None
  }

  lemma FlagOfKey(name: string, k: string)
    ensures FlagOf(name, k).Some? ==> k == Key(name, FlagOf(name, k).value)
  {
    if StartsWith(k, name + "_") {
      assert k == k[..|name| + 1] + k[|name| + 1..];
    }
  }

  lemma KeyFlagOf(name: string, f: string)
    ensures FlagOf(name, Key(name, f)) == Some(f)
  {
    assert Key(name, f)[..|name| + 1] == name + "_";
    assert Key(name, f)[|name| + 1..] == f;
  }

  /** The entry at `k` after `pkg_check_modules`. */
  function Entry(env: Environment, c: Check, k: string): Option<Value> {
    var f := FlagOf(c.name, k);
    if k == Lower(c.name) || k == Have(c.name) then Some(Bool(c.probe.Found?))
    else if c.probe.Found? && f.Some? && f.value in c.probe.flags then Some(Flags(c.probe.flags[f.value]))
    else Lookup(env, k)
  }

  /** For example X11: after its check the entries `x11` and `HAVE_X11` say whether it was
      found, and its flag LIBS is under `X11_LIBS`. */
  lemma CheckOfX11(env: Environment, env': Environment, probe: Probe)
    requires forall k :: Lookup(env', k) == Entry(env, Check("X11", probe), k)
    ensures Lookup(env', "x11") == Lookup(env', "HAVE_X11") == Some(Bool(probe.Found?))
    ensures probe.Found? && "LIBS" in probe.flags ==> Lookup(env', "X11_LIBS") == Some(Flags(probe.flags["LIBS"]))
  {
    LowerAt("X11", 0);
    LowerAt("X11", 1);
    LowerAt("X11", 2);
    assert Lower("X11") == "x11";
    assert Have("X11") == "HAVE_X11" && Key("X11", "LIBS") == "X11_LIBS";
    KeyFlagOf("X11", "LIBS");
    assert Lookup(env', "x11") == Entry(env, Check("X11", probe), "x11");
    assert Lookup(env', "HAVE_X11") == Entry(env, Check("X11", probe), "HAVE_X11");
    assert Lookup(env', "X11_LIBS") == Entry(env, Check("X11", probe), "X11_LIBS");
    assert "X11_LIBS"[0] != Lower("X11")[0] && "X11_LIBS"[0] != Have("X11")[0];
  }

  datatype Error = AssertionError | UnknownModule(name: string) | UnavailableModule(name: string)

  class BuildEnvironment {
    var env: Environment
    var merged: seq<map<string, Value>>

    constructor (env: Environment)
      ensures this.env == env && merged == []
    {
      this.env, merged := env, [];
    }

    /** _pkg_check_modules; a flag name with an underscore breaks its assertion. */
    method TryModules(c: Check) returns (error: Option<Error>)
      modifies this`env
      ensures error == if FlagNamesOk(c.probe) then None else Some(AssertionError)
      ensures FlagNamesOk(c.probe) ==>
                forall k | k != Lower(c.name) :: Lookup(env, k) == Entry(old(env), c, k)
    {
      env := env[Have(c.name) := Bool(false)];
      env := env[Lower(c.name) := Bool(false)];
      if c.probe.Missing? {
        return None;
      }
      ghost var before := env;
      var flags := c.probe.flags;
      var left := flags.Keys;
      while left != {}
        invariant left <= flags.Keys && forall f | f in flags.Keys - left :: NoUnderscore(f)
        invariant forall k :: Lookup(env, k) == Stored(before, c.name, flags, flags.Keys - left, k)
        decreases left
      {
        var f :| f in left;
        if exists i | 0 <= i < |f| :: f[i] == '_' {
          assert !NoUnderscore(f);
          return Some(AssertionError);
        }
        StoreOne(before, env, c.name, flags, flags.Keys - left, f);
        env := env[Key(c.name, f) := Flags(flags[f])];
        assert flags.Keys - (left - {f}) == flags.Keys - left + {f};
        left := left - {f};
      }
      ghost var stored := env;
      env := env[Have(c.name) := Bool(true)];
      forall k | k != Lower(c.name) ensures Lookup(env, k) == Entry(old(env), c, k) {
        assert Lookup(stored, k) == Stored(before, c.name, flags, flags.Keys, k);
      }
      return None;
    }

    method CheckModules(c: Check) returns (error: Option<Error>)
      modifies this`env
      ensures error == if FlagNamesOk(c.probe) then None else Some(AssertionError)
      ensures error == None ==> forall k :: Lookup(env, k) == Entry(old(env), c, k)
    {
      error := TryModules(c);
      if error == None {
        HaveIsNotLower(c.name);
        assert Lookup(env, Have(c.name)) == Some(Bool(c.probe.Found?));
        env := env[Lower(c.name) := env[Have(c.name)]];
      }
    }

    /** The checks of a build, one after the other. */
    method CheckAll(checks: seq<Check>) returns (error: Option<Error>)
      modifies this`env
      ensures error == None <==> forall i | 0 <= i < |checks| :: FlagNamesOk(checks[i].probe)
      ensures error == None ==> After(old(env), checks, |checks|, env)
    {
      ghost var start := env;
      for i := 0 to |checks|
        invariant After(start, checks, i, env) && forall k | 0 <= k < i :: FlagNamesOk(checks[k].probe)
      {
        ghost var before := env;
        error := CheckModules(checks[i]);
        if error.Some? {
          return;
        }
        OneMoreCheck(start, checks, i, before, env);
      }
      return None;
    }

    /** The body of the loop of pkg_use_modules; `merged` are the calls of MergeFlags. */
    method UseModule(name: string) returns (r: Result<map<string, Value>, Error>)
      modifies this`merged
      ensures Usable(env, name) ==>
                r.Ok? && Recovers(env, name, r.value) && merged == old(merged) + NonEmpty(r.value)
      ensures !Usable(env, name) ==> r == Err(WhyNot(env, name)) && merged == old(merged)
    {
      if Have(name) !in env {
        return Err(UnknownModule(name));
      }
      var available := env[Have(name)];
      if available == Bool(false) || available == Flags([]) {
        return Err(UnavailableModule(name));
      }
      var prefix := name + "_";
      var flags: map<string, Value> := map[];
      var left := env.Keys;
      while left != {}
        invariant left <= env.Keys && merged == old(merged)
        invariant forall f :: Lookup(flags, f) ==
                    if NoUnderscore(f) && Key(name, f) in env.Keys - left then Lookup(env, Key(name, f)) else None
        decreases left
      {
        var k :| k in left;
        FlagOfKey(name, k);
        if StartsWith(k, prefix) {
          var f := k[|prefix|..];
          KeyFlagOf(name, f);
          if forall i | 0 <= i < |f| :: f[i] != '_' {
            flags := flags[f := env[k]];
          }
        }
        forall f | Key(name, f) == k ensures FlagOf(name, k) == Some(f) {
          KeyFlagOf(name, f);
        }
        left := left - {k};
      }
      if flags != map[] {
        merged := merged + [flags];
      }
      return Ok(flags);
    }

    /** pkg_use_modules: merges the flags `found` of each name in turn, as far as the names
        are usable; the first name that is not is the error. */
    method UseModules(names: seq<string>) returns (error: Option<Error>, ghost found: seq<map<string, Value>>)
      modifies this`merged
      ensures |found| <= |names|
      ensures forall i | 0 <= i < |found| :: Usable(env, names[i]) && Recovers(env, names[i], found[i])
      ensures |found| < |names| ==> !Usable(env, names[|found|])
      ensures error == if |found| == |names| then None else Some(WhyNot(env, names[|found|]))
      ensures merged == old(merged) + Merges(found)
    {
      ghost var before := merged;
      found := [];
      for i := 0 to |names|
        invariant |found| == i && merged == before + Merges(found)
        invariant forall k | 0 <= k < i :: Usable(env, names[k]) && Recovers(env, names[k], found[k])
      {
        var r := UseModule(names[i]);
        if r.Err? {
          return Some(r.error), found;
        }
        OneMoreMerge(before, found, r.value);
        found := found + [r.value];
      }
      return None, found;
    }
  }

  /** `found` are the entries under the prefix of `name` whose rest has no underscore. */
  ghost predicate Recovers(env: Environment, name: string, found: map<string, Value>) {
    forall f :: Lookup(found, f) == if NoUnderscore(f) then Lookup(env, Key(name, f)) else None
  }

  lemma RecoversIsUnique(env: Environment, name: string, a: map<string, Value>, b: map<string, Value>)
    requires Recovers(env, name, a) && Recovers(env, name, b)
    ensures a == b
  {
    SameLookups(a, b);
  }

  /** The calls of MergeFlags: none for a module without flags. */
  function Merges(found: seq<map<string, Value>>): seq<map<string, Value>> {
    if found == [] then [] else Merges(found[..|found| - 1]) + NonEmpty(found[|found| - 1])
  }

  function NonEmpty(flags: map<string, Value>): seq<map<string, Value>> {
    if flags == map[] then [] else [flags]
  }

  lemma OneMoreMerge(before: seq<map<string, Value>>, found: seq<map<string, Value>>, flags: map<string, Value>)
    ensures before + Merges(found) + NonEmpty(flags) == before + Merges(found + [flags])
  {
    assert (found + [flags])[..|found|] == found;
  }

  function WhyNot(env: Environment, name: string): Error {
    if Have(name) in env then UnavailableModule(name) else UnknownModule(name)
  }

  predicate Usable(env: Environment, name: string) {
    Have(name) in env && env[Have(name)] != Bool(false) && env[Have(name)] != Flags([])
  }

  /** The entry at `k` when the flags named in `done` have been stored over `env`. */
  function Stored(env: Environment, name: string, flags: map<string, seq<string>>, done: set<string>, k: string): Option<Value>
    requires done <= flags.Keys
  {
    var f := FlagOf(name, k);
    if f.Some? && f.value in done then Some(Flags(flags[f.value])) else Lookup(env, k)
  }

  lemma StoreOne(before: Environment, env: Environment, name: string, flags: map<string, seq<string>>, done: set<string>, f: string)
    requires done <= flags.Keys && f in flags
    requires forall k :: Lookup(env, k) == Stored(before, name, flags, done, k)
    ensures forall k :: Lookup(env[Key(name, f) := Flags(flags[f])], k) == Stored(before, name, flags, done + {f}, k)
  {
    KeyFlagOf(name, f);
    forall k
      ensures Lookup(env[Key(name, f) := Flags(flags[f])], k) == Stored(before, name, flags, done + {f}, k)
    {
      FlagOfKey(name, k);
      assert Lookup(env, k) == Stored(before, name, flags, done, k);
    }
  }

  lemma HaveIsNotLower(name: string)
    ensures Have(name) != Lower(name)
  {
    assert |Lower(name)| == |name|;
  }

  // ------------------------------------------------------------- many checks

  /** `env` is what the first `n` checks leave of `start`. */
  ghost predicate After(start: Environment, checks: seq<Check>, n: nat, env: Environment)
    requires n <= |checks|
  {
    forall k :: Lookup(env, k) == EntryAfter(start, checks, n, k)
  }

  function EntryAfter(start: Environment, checks: seq<Check>, n: nat, k: string): Option<Value>
    requires n <= |checks|
  {
    if n == 0 then Lookup(start, k) else Overlay(checks[n - 1], k, EntryAfter(start, checks, n - 1, k))
  }

  function Overlay(c: Check, k: string, old_: Option<Value>): Option<Value> {
    var e := Entry(map[], c, k);
    if e.Some? then e else old_
  }

  /** One more call of pkg_check_modules is one more overlay. */
  lemma OneMoreCheck(start: Environment, checks: seq<Check>, n: nat, env: Environment, env': Environment)
    requires n < |checks| && After(start, checks, n, env)
    requires forall k :: Lookup(env', k) == Entry(env, checks[n], k)
    ensures After(start, checks, n + 1, env')
  {
    forall k ensures Lookup(env', k) == EntryAfter(start, checks, n + 1, k) {
      assert Lookup(env, k) == EntryAfter(start, checks, n, k);
    }
  }

  // ----------------------------------------------------------- the round trip

  /** A key splits at its last underscore in one way only. */
  lemma KeyIsInjective(a: string, f: string, b: string, g: string)
    requires Key(a, f) == Key(b, g) && NoUnderscore(f) && NoUnderscore(g)
    ensures a == b && f == g
  {
    var k := Key(a, f);
    assert k[|a|] == '_' && k[|b|] == '_';
    assert forall i | |a| < i < |k| :: k[i] == f[i - |a| - 1];
    assert forall i | |b| < i < |k| :: k[i] == g[i - |b| - 1];
    assert |a| == |b|;
    assert a == k[..|a|] == b;
    assert f == k[|a| + 1..] == g;
  }

  predicate HasUpper(s: string) {
    exists i | 0 <= i < |s| :: 'A' <= s[i] <= 'Z'
  }

  lemma LowerIsNoKey(name: string, other: string, f: string)
    requires HasUpper(name)
    ensures Lower(other) != Key(name, f)
  {
    var i :| 0 <= i < |name| && 'A' <= name[i] <= 'Z';
    assert Key(name, f)[i] == name[i];
    if |other| > i {
      assert Lower(other)[i] == LowerChar(other[i]);
    }
  }

  /** The availability entry HAVE_other has the key of flag `f` of `name`. */
  predicate HaveIsFlag(name: string, other: string, f: string) {
    NoUnderscore(f) && Have(other) == Key(name, f)
  }

  /** An availability entry of `other` is read as flag `f` of `name`. */
  predicate Clash(name: string, other: string, f: string) {
    HaveIsFlag(name, other, f) || (NoUnderscore(f) && Lower(other) == Key(name, f))
  }

  /** What a check contributes to the flags of `name`. */
  lemma CheckContributes(c: Check, name: string, f: string)
    requires FlagNamesOk(c.probe) && NoUnderscore(f)
    ensures Entry(map[], c, Key(name, f)) ==
            if Clash(name, c.name, f) then Some(Bool(c.probe.Found?))
            else if c.name == name && f in FlagsIn(c.probe) then Some(Flags(FlagsIn(c.probe)[f]))
            else None
  {
    var k := Key(name, f);
    KeyFlagOf(name, f);
    FlagOfKey(c.name, k);
    if FlagOf(c.name, k).Some? && c.probe.Found? && FlagOf(c.name, k).value in c.probe.flags {
      KeyIsInjective(c.name, FlagOf(c.name, k).value, name, f);
    }
  }

  /** The flags a probe has found. */
  function FlagsIn(p: Probe): map<string, seq<string>> {
    if p.Found? then p.flags else map[]
  }

  /** Check `i` is the last one of its name, whether it finds the module or not. */
  predicate LastCheck(checks: seq<Check>, i: nat) {
    && i < |checks|
    && (forall j | 0 <= j < |checks| :: FlagNamesOk(checks[j].probe))
    && forall j | i < j < |checks| :: checks[j].name != checks[i].name
  }

  /** Check `j` writes at the place of flag `f` of module `i`: an availability entry, or a
      flag found by an earlier check of the same name. */
  predicate Disturbs(checks: seq<Check>, i: nat, j: nat, f: string)
    requires i < |checks| && j < |checks|
  {
    || Clash(checks[i].name, checks[j].name, f)
    || (j < i && checks[j].name == checks[i].name && f in FlagsIn(checks[j].probe))
  }

  /** It does no harm when the flag itself is stored later, over it. */
  predicate Harmless(checks: seq<Check>, i: nat, j: nat, f: string)
    requires i < |checks|
  {
    f in FlagsIn(checks[i].probe) && j < i
  }

  ghost predicate Undisturbed(checks: seq<Check>, i: nat)
    requires LastCheck(checks, i)
  {
    forall j, f | 0 <= j < |checks| && Disturbs(checks, i, j, f) :: Harmless(checks, i, j, f)
  }

  /** Then exactly its flags are found under the prefix, whatever else was checked. */
  lemma {:induction false} StoredFlags(start: Environment, checks: seq<Check>, n: nat, i: nat, f: string)
    requires n <= |checks| && LastCheck(checks, i) && NoUnderscore(f)
    requires f !in FlagsIn(checks[i].probe) ==> Key(checks[i].name, f) !in start
    requires forall j | 0 <= j < |checks| && Disturbs(checks, i, j, f) :: Harmless(checks, i, j, f)
    ensures var flags, k := FlagsIn(checks[i].probe), Key(checks[i].name, f);
            && (f !in flags ==> EntryAfter(start, checks, n, k) == None)
            && (f in flags && i < n ==> EntryAfter(start, checks, n, k) == Some(Flags(flags[f])))
  {
    if n > 0 {
      StoredFlags(start, checks, n - 1, i, f);
      CheckContributes(checks[n - 1], checks[i].name, f);
      assert !Disturbs(checks, i, n - 1, f) || Harmless(checks, i, n - 1, f);
    }
  }

  /** What was written once is never removed. */
  lemma {:induction false} EntryStays(start: Environment, checks: seq<Check>, n: nat, j: nat, k: string)
    requires j < n <= |checks| && Entry(map[], checks[j], k).Some?
    ensures EntryAfter(start, checks, n, k).Some?
  {
    if j < n - 1 {
      EntryStays(start, checks, n - 1, j, k);
    }
  }

  /** A clash that comes no earlier than the flag overwrites it for good. */
  lemma {:induction false} ClashOverwrites(start: Environment, checks: seq<Check>, n: nat, i: nat, j: nat, f: string)
    requires i <= j < n <= |checks| && LastCheck(checks, i) && Clash(checks[i].name, checks[j].name, f)
    ensures var e := EntryAfter(start, checks, n, Key(checks[i].name, f)); e.Some? && e.value.Bool?
  {
    CheckContributes(checks[n - 1], checks[i].name, f);
    if j < n - 1 {
      ClashOverwrites(start, checks, n - 1, i, j, f);
    }
  }

  /** Anything else than the flag stored is found. */
  lemma HarmIsSeen(start: Environment, checks: seq<Check>, i: nat, j: nat, f: string)
    requires LastCheck(checks, i) && j < |checks| && Disturbs(checks, i, j, f) && !Harmless(checks, i, j, f)
    ensures NoUnderscore(f)
    ensures EntryAfter(start, checks, |checks|, Key(checks[i].name, f)) != Lookup(AsEntries(checks[i].probe), f)
  {
    CheckContributes(checks[j], checks[i].name, f);
    if f in FlagsIn(checks[i].probe) {
      ClashOverwrites(start, checks, |checks|, i, j, f);
    } else {
      EntryStays(start, checks, |checks|, j, Key(checks[i].name, f));
    }
  }

  // ------------------------------------------------------------- the availability

  /** The flag that a check stores at key `k`. */
  function FlagAt(c: Check, k: string): Option<seq<string>> {
    var f := FlagOf(c.name, k);
    if f.Some? && f.value in FlagsIn(c.probe) then Some(FlagsIn(c.probe)[f.value]) else None
  }

  /** The last flag that the checks from number `first` to `n` leave in the place of the
      availability entry of `name`. */
  function Overwriting(checks: seq<Check>, n: nat, first: nat, name: string): Option<seq<string>>
    requires n <= |checks|
  {
    if n <= first then None
    else if FlagAt(checks[n - 1], Have(name)).Some? then FlagAt(checks[n - 1], Have(name))
    else Overwriting(checks, n - 1, first, name)
  }

  lemma AvailabilityContributes(c: Check, name: string)
    ensures Entry(map[], c, Have(name)) ==
            if c.name == name then Some(Bool(c.probe.Found?))
            else if FlagAt(c, Have(name)).Some? then Some(Flags(FlagAt(c, Have(name)).value))
            else None
  {
    assert Have(name)[5..] == name && Have(c.name)[5..] == c.name;
    assert Have(name)[0] == 'H' && (c.name != "" ==> Lower(c.name)[0] == LowerChar(c.name[0]));
  }

  /** Checks of other names leave the availability entry alone, but for their flags. */
  lemma {:induction false} AvailabilityAfter(start: Environment, checks: seq<Check>, n: nat, first: nat, name: string)
    requires first <= n <= |checks| && forall j | first <= j < n :: checks[j].name != name
    ensures var flag := Overwriting(checks, n, first, name);
            EntryAfter(start, checks, n, Have(name)) ==
            if flag.Some? then Some(Flags(flag.value)) else EntryAfter(start, checks, first, Have(name))
  {
    if n > first {
      AvailabilityContributes(checks[n - 1], name);
      AvailabilityAfter(start, checks, n - 1, first, name);
    }
  }

  /** The last flag in the place of the entry is not empty; without one, the last check of
      the name has found the module. */
  predicate Available(checks: seq<Check>, i: nat)
    requires i < |checks|
  {
    var flag := Overwriting(checks, |checks|, i + 1, checks[i].name);
    if flag.Some? then flag.value != [] else checks[i].probe.Found?
  }

  /** Which checked modules can be used: not just those that were found. */
  lemma UsableIfAvailable(start: Environment, checks: seq<Check>, env: Environment, i: nat)
    requires LastCheck(checks, i) && After(start, checks, |checks|, env)
    ensures Usable(env, checks[i].name) <==> Available(checks, i)
  {
    var name := checks[i].name;
    AvailabilityContributes(checks[i], name);
    AvailabilityAfter(start, checks, |checks|, i + 1, name);
    assert Lookup(env, Have(name)) == EntryAfter(start, checks, |checks|, Have(name));
  }

  /** Which modules can be used that were never checked. */
  lemma UsableUnchecked(start: Environment, checks: seq<Check>, env: Environment, name: string)
    requires After(start, checks, |checks|, env) && forall j | 0 <= j < |checks| :: checks[j].name != name
    ensures var flag := Overwriting(checks, |checks|, 0, name);
            Usable(env, name) <==> if flag.Some? then flag.value != [] else Usable(start, name)
  {
    AvailabilityAfter(start, checks, |checks|, 0, name);
    assert Lookup(env, Have(name)) == EntryAfter(start, checks, |checks|, Have(name));
  }

  /** A module that was not found is usable all the same after HAVE_FOO has found LIBS. */
  lemma MissingButUsable(start: Environment, env: Environment, libs: seq<string>)
    requires After(start, [Check("FOO_LIBS", Missing), Check("HAVE_FOO", Found(map["LIBS" := libs]))], 2, env)
    ensures Usable(env, "FOO_LIBS") <==> libs != []
  {
    var checks := [Check("FOO_LIBS", Missing), Check("HAVE_FOO", Found(map["LIBS" := libs]))];
    assert Have("FOO_LIBS") == Key("HAVE_FOO", "LIBS");
    KeyFlagOf("HAVE_FOO", "LIBS");
    UsableIfAvailable(start, checks, env, 0);
  }

  /** So is one that nobody checked, after a module named HAVE has found its flag. */
  lemma UncheckedButUsable(start: Environment, env: Environment, libs: seq<string>)
    requires After(start, [Check("HAVE", Found(map["LIBS" := libs]))], 1, env)
    ensures Usable(env, "LIBS") <==> libs != []
  {
    var checks := [Check("HAVE", Found(map["LIBS" := libs]))];
    assert Have("LIBS") == Key("HAVE", "LIBS");
    KeyFlagOf("HAVE", "LIBS");
    UsableUnchecked(start, checks, env, "LIBS");
  }

  function AsEntries(p: Probe): map<string, Value> {
    map f | f in FlagsIn(p) :: Flags(FlagsIn(p)[f])
  }

  lemma {:induction false} StartStays(start: Environment, checks: seq<Check>, n: nat, k: string)
    requires n <= |checks| && k in start
    ensures EntryAfter(start, checks, n, k).Some?
  {
    if n > 0 {
      StartStays(start, checks, n - 1, k);
    }
  }

  /** The environment had nothing in the places of flags that are not stored. */
  ghost predicate NoPriorFlags(start: Environment, c: Check) {
    forall f | NoUnderscore(f) && Key(c.name, f) in start :: f in FlagsIn(c.probe)
  }

  lemma FlagsAreRecovered(start: Environment, checks: seq<Check>, env: Environment, i: nat)
    requires LastCheck(checks, i) && After(start, checks, |checks|, env)
    ensures Recovers(env, checks[i].name, AsEntries(checks[i].probe)) <==>
            NoPriorFlags(start, checks[i]) && Undisturbed(checks, i)
  {
    var name, stored := checks[i].name, AsEntries(checks[i].probe);
    if j, f :| 0 <= j < |checks| && Disturbs(checks, i, j, f) && !Harmless(checks, i, j, f) {
      HarmIsSeen(start, checks, i, j, f);
      assert Lookup(env, Key(name, f)) != Lookup(stored, f);
    } else if f :| NoUnderscore(f) && Key(name, f) in start && f !in FlagsIn(checks[i].probe) {
      StartStays(start, checks, |checks|, Key(name, f));
      assert Lookup(env, Key(name, f)) != Lookup(stored, f);
    } else {
      forall f ensures Lookup(stored, f) == if NoUnderscore(f) then Lookup(env, Key(name, f)) else None {
        assert FlagNamesOk(checks[i].probe);
        if NoUnderscore(f) {
          StoredFlags(start, checks, |checks|, i, f);
          assert Lookup(env, Key(name, f)) == EntryAfter(start, checks, |checks|, Key(name, f));
        }
      }
    }
  }

  /** Using a checked module succeeds, and finds exactly the flags of its last check, if
      and only if no other entry is in the place of one of its flags, or was and has been
      overwritten by the flag, and the module is available. A module that was not found can
      be available: then no flags are what it should have. */
  lemma FlagsRoundTrip(start: Environment, checks: seq<Check>, env: Environment, i: nat, found: map<string, Value>)
    requires LastCheck(checks, i) && After(start, checks, |checks|, env)
    requires Usable(env, checks[i].name) ==> Recovers(env, checks[i].name, found)
    ensures Usable(env, checks[i].name) && found == AsEntries(checks[i].probe) <==>
            NoPriorFlags(start, checks[i]) && Undisturbed(checks, i) && Available(checks, i)
  {
    var name := checks[i].name;
    FlagsAreRecovered(start, checks, env, i);
    UsableIfAvailable(start, checks, env, i);
    if Usable(env, name) && NoPriorFlags(start, checks[i]) && Undisturbed(checks, i) {
      RecoversIsUnique(env, name, found, AsEntries(checks[i].probe));
    }
  }

  lemma SameLookups<V>(a: map<string, V>, b: map<string, V>)
    requires forall k :: Lookup(a, k) == Lookup(b, k)
    ensures a == b
  {
    forall k ensures k in a <==> k in b {
      assert Lookup(a, k) == Lookup(b, k);
    }
    forall k | k in a ensures a[k] == b[k] {
      assert Lookup(a, k) == Lookup(b, k);
    }
  }

  /** Which names meet at a key: HAVE with every module without underscore, and HAVE_x
      with x_f. So distinct upper-case names other than HAVE are not enough. */
  lemma WhichNamesClash(name: string, other: string, f: string)
    requires NoUnderscore(f)
    ensures HaveIsFlag(name, other, f) <==>
            (name == "HAVE" && other == f) ||
            (StartsWith(name, "HAVE_") && other == Key(name[5..], f))
    ensures HasUpper(name) ==> (Clash(name, other, f) <==> HaveIsFlag(name, other, f))
  {
    if Have(other) == Key(name, f) {
      var k := Have(other);
      assert k[|name|] == '_' && k[..|name|] == name && k[|name| + 1..] == f;
      assert other == k[5..];
      if |name| > 4 {
        assert name[..5] == k[..5] == "HAVE_";
        assert k[5..] == name[5..] + "_" + f;
      } else {
        ShortName(name, other, f);
      }
    }
    if StartsWith(name, "HAVE_") {
      assert name == "HAVE_" + name[5..];
      assert Have(Key(name[5..], f)) == Key(name, f);
    }
    assert Have(f) == Key("HAVE", f);
    if HasUpper(name) {
      LowerIsNoKey(name, other, f);
    }
  }

  /** Whose flags take the place of an availability entry: again those of HAVE and HAVE_x. */
  lemma WhichFlagsOverwrite(c: Check, name: string)
    requires FlagNamesOk(c.probe)
    ensures FlagAt(c, Have(name)).Some? <==>
            exists f | f in FlagsIn(c.probe) ::
                 (c.name == "HAVE" && name == f) || (StartsWith(c.name, "HAVE_") && name == Key(c.name[5..], f))
  {
    FlagOfKey(c.name, Have(name));
    if FlagAt(c, Have(name)).Some? {
      var f := FlagOf(c.name, Have(name)).value;
      WhichNamesClash(c.name, name, f);
      assert f in FlagsIn(c.probe);
    }
    forall f | f in FlagsIn(c.probe) &&
               ((c.name == "HAVE" && name == f) || (StartsWith(c.name, "HAVE_") && name == Key(c.name[5..], f)))
      ensures FlagAt(c, Have(name)).Some?
    {
      WhichNamesClash(c.name, name, f);
      KeyFlagOf(c.name, f);
    }
  }

  lemma ShortName(name: string, other: string, f: string)
    requires NoUnderscore(f) && |name| <= 4 && Have(other) == Key(name, f)
    ensures name == "HAVE" && other == f
  {
    var k := Have(other);
    assert k[4] == '_' && k[|name|] == '_';
    assert forall i | |name| < i < |k| :: k[i] == f[i - |name| - 1];
    assert |name| == 4;
    assert k[..4] == "HAVE" && k[..4] == name;
    assert k[5..] == other && k[5..] == f;
  }
}
