/** The names of an installed shared library: install_shared_library and symlink of
    scons/gallium.py. Each name is a link to the name with one more version part. */
module SharedLibrary {
  import opened Text
  import opened Megadriver

  /** `'.'.join((source,) + version)` */
  function Joined(source: string, version: seq<string>): string {
    if version == [] then source
    else Joined(source, version[..|version| - 1]) + "." + version[|version| - 1]
  }

  /** The targets for one source: the full name, then ever shorter ones. */
  function Chain(source: string, version: seq<string>, n: nat): seq<string>
    requires n <= |version|
  {
    if n == 0 then [Joined(source, version)]
    else Chain(source, version, n - 1) + [Joined(source, version[..|version| - n])]
  }

  /** The targets for all sources. The loop uses the version up, so only the first
      source gets versioned names. */
  function Targets(sources: seq<string>, version: seq<string>): seq<string> {
    if sources == [] then []
    else Chain(sources[0], version, |version|) + Targets(sources[1..], [])
  }

  method InstallSharedLibrary(sources: seq<string>, version: seq<string>) returns (targets: seq<string>)
    ensures targets == Targets(sources, version)
  {
    targets := [];
    var v := version;
    for i := 0 to |sources|
      invariant targets + Targets(sources[i..], v) == Targets(sources, version)
    {
      var source := sources[i];
      ghost var before, v0 := targets, v;
      assert sources[i..][0] == source && sources[i..][1..] == sources[i + 1..];
      targets := targets + [Joined(source, v)];
      while |v| > 0
        invariant |v| <= |v0| && v == v0[..|v|]
        invariant targets == before + Chain(source, v0, |v0| - |v|)
      {
        v := v[..|v| - 1];
        targets := targets + [Joined(source, v)];
      }
      assert v == [];
      assert before + (Chain(source, v0, |v0|) + Targets(sources[i + 1..], [])) == targets + Targets(sources[i + 1..], v);
    }
    assert sources[|sources|..] == [];
  }

  /** For example the names of version 1.0. */
  lemma NamesOfVersion10()
    ensures Chain("libvdpau_r600.so", ["1", "0"], 2) ==
            ["libvdpau_r600.so.1.0", "libvdpau_r600.so.1", "libvdpau_r600.so"]
  {
    var name, v := "libvdpau_r600.so", ["1", "0"];
    ChainAt(name, v, 2, 0);
    ChainAt(name, v, 2, 1);
    ChainAt(name, v, 2, 2);
    assert v[..0] == [] && v[..1] == ["1"] && v[..2] == ["1"] + ["0"];
    assert [] + ["1"] == ["1"];
    JoinedSnoc(name, [], "1");
    JoinedSnoc(name, ["1"], "0");
    assert name + "." + "1" == "libvdpau_r600.so.1";
    assert "libvdpau_r600.so.1" + "." + "0" == "libvdpau_r600.so.1.0";
  }

  lemma JoinedSnoc(source: string, version: seq<string>, x: string)
    ensures Joined(source, version + [x]) == Joined(source, version) + "." + x
  {
    assert (version + [x])[..|version|] == version;
  }

  /** Number `i` of the chain has the first parts of the version, `i` fewer than all. */
  lemma {:induction false} ChainAt(source: string, version: seq<string>, n: nat, i: nat)
    requires i <= n <= |version|
    ensures |Chain(source, version, n)| == n + 1 && Chain(source, version, n)[i] == Joined(source, version[..|version| - i])
  {
    if n == 0 {
      assert version[..|version|] == version;
    } else if i < n {
      ChainAt(source, version, n - 1, i);
    } else {
      ChainAt(source, version, n - 1, n - 1);
    }
  }

  /** Taking the extension off a versioned name gives the name with one part less. */
  lemma PeelVersion(source: string, version: seq<string>, i: nat)
    requires i < |version| && Free(version[i], '.') && exists k | 0 <= k < |source| :: source[k] != '.'
    ensures SplitExt(Name(source, version, i + 1)) == (Name(source, version, i), "." + version[i])
  {
    assert version[..i + 1] == version[..i] + [version[i]];
    JoinedSnoc(source, version[..i], version[i]);
    JoinedStarts(source, version[..i]);
    var k :| 0 <= k < |source| && source[k] != '.';
    assert Name(source, version, i)[k] != '.';
    SplitExtAtDot(Name(source, version, i), version[i]);
  }

  lemma {:induction false} JoinedStarts(source: string, version: seq<string>)
    ensures |Joined(source, version)| >= |source| && Joined(source, version)[..|source|] == source
  {
    if version != [] {
      JoinedStarts(source, version[..|version| - 1]);
    }
  }

  /** What is meant: a full chain of names for every source. */
  function Every(sources: seq<string>, version: seq<string>): seq<string> {
    if sources == [] then [] else Chain(sources[0], version, |version|) + Every(sources[1..], version)
  }

  lemma {:induction false} ChainLength(source: string, version: seq<string>, n: nat)
    requires n <= |version|
    ensures |Chain(source, version, n)| == n + 1
  {
    if n > 0 {
      ChainLength(source, version, n - 1);
    }
  }

  /** Without a version each source has its plain name only, as is meant. */
  lemma {:induction false} PlainTargets(sources: seq<string>)
    ensures Targets(sources, []) == Every(sources, []) && |Targets(sources, [])| == |sources|
  {
    if sources != [] {
      PlainTargets(sources[1..]);
    }
  }

  lemma {:induction false} EveryIsLong(sources: seq<string>, version: seq<string>)
    requires version != []
    ensures |Every(sources, version)| >= 2 * |sources|
  {
    if sources != [] {
      ChainLength(sources[0], version, |version|);
      EveryIsLong(sources[1..], version);
    }
  }

  /** Every source gets its versioned names exactly when there is no version, or no
      second source. */
  lemma EverySourceIsVersioned(sources: seq<string>, version: seq<string>)
    ensures Targets(sources, version) == Every(sources, version) <==> |sources| <= 1 || version == []
  {
    PlainTargets(sources);
    if sources != [] {
      PlainTargets(sources[1..]);
      if version != [] && |sources| > 1 {
        EveryIsLong(sources[1..], version);
      }
    }
  }

  // ------------------------------------------------------- making the targets

  /** `symlink`: an existing entry of any kind is removed first. */
  function Linked(e: Entries, target: string, name: string): Entries {
    (e - {name})[name := Symlink(target)]
  }

  /** The directory once the first `n` links of a chain are made. */
  function Built(e: Entries, inode: nat, source: string, version: seq<string>, n: nat): Entries
    requires n <= |version|
  {
    if n == 0 then e[Joined(source, version) := Hard(inode)]
    else
      Linked(Built(e, inode, source, version, n - 1), Joined(source, version[..|version| - n + 1]),
             Joined(source, version[..|version| - n]))
  }

  function Name(source: string, version: seq<string>, i: nat): string
    requires i <= |version|
  {
    Joined(source, version[..i])
  }

  /** The name with `i` version parts is a link to the next longer one. */
  predicate LinkAt(e: Entries, source: string, version: seq<string>, i: nat)
    requires i < |version|
  {
    Lookup(e, Name(source, version, i)) == Some(Symlink(Name(source, version, i + 1)))
  }

  lemma {:induction false} NameGrows(source: string, version: seq<string>, i: nat, j: nat)
    requires i < j <= |version|
    ensures |Name(source, version, i)| < |Name(source, version, j)|
    decreases j - i
  {
    assert version[..j][..j - 1] == version[..j - 1];
    if i < j - 1 {
      NameGrows(source, version, i, j - 1);
    }
  }

  /** Taking away names shorter than those of a chain does not matter. */
  lemma {:induction false} ChainResolves(e: Entries, inode: nat, source: string, version: seq<string>, j: nat, gone: set<string>)
    requires j <= |version| && Lookup(e, Name(source, version, |version|)) == Some(Hard(inode))
    requires forall i | j <= i < |version| :: LinkAt(e, source, version, i)
    requires forall x | x in gone :: |x| < |Name(source, version, j)|
    ensures Resolve(e - gone, Name(source, version, j)) == Some(inode)
    decreases |version| - j
  {
    if j < |version| {
      var name := Name(source, version, j);
      assert LinkAt(e, source, version, j);
      NameGrows(source, version, j, j + 1);
      ChainResolves(e, inode, source, version, j + 1, gone + {name});
      assert (e - gone) - {name} == e - (gone + {name});
    }
  }

  /** `b` has the chain from the name with `k` version parts on, and is otherwise `e`. */
  ghost predicate HasChain(b: Entries, e: Entries, inode: nat, source: string, version: seq<string>, k: nat)
    requires k <= |version|
  {
    && Lookup(b, Name(source, version, |version|)) == Some(Hard(inode))
    && (forall i | k <= i < |version| :: LinkAt(b, source, version, i))
    && forall x | forall i | k <= i <= |version| :: x != Name(source, version, i) :: Lookup(b, x) == Lookup(e, x)
  }

  lemma ChainGrows(a: Entries, e: Entries, inode: nat, source: string, version: seq<string>, k: nat)
    requires k < |version| && HasChain(a, e, inode, source, version, k + 1)
    ensures HasChain(Linked(a, Name(source, version, k + 1), Name(source, version, k)), e, inode, source, version, k)
  {
    var name := Name(source, version, k);
    var b := Linked(a, Name(source, version, k + 1), name);
    assert forall x | x != name :: Lookup(b, x) == Lookup(a, x);
    NameGrows(source, version, k, |version|);
    forall i | k < i < |version| ensures LinkAt(b, source, version, i) {
      NameGrows(source, version, k, i);
      assert LinkAt(a, source, version, i);
    }
    forall x | forall i | k <= i <= |version| :: x != Name(source, version, i) ensures Lookup(b, x) == Lookup(e, x) {
      assert x != name && forall i | k + 1 <= i <= |version| :: x != Name(source, version, i);
    }
  }

  lemma BuiltStep(e: Entries, inode: nat, source: string, version: seq<string>, n: nat, a: Entries, k: nat)
    requires 0 < n <= |version| && k == |version| - n && a == Built(e, inode, source, version, n - 1)
    ensures Built(e, inode, source, version, n) == Linked(a, Name(source, version, k + 1), Name(source, version, k))
  {
  }

  /** Each link of the chain points to the next longer name, and no other name changes,
      whatever was there before. */
  lemma {:induction false} BuiltChain(e: Entries, inode: nat, source: string, version: seq<string>, n: nat)
    requires n <= |version|
    ensures HasChain(Built(e, inode, source, version, n), e, inode, source, version, |version| - n)
  {
    if n == 0 {
      assert version[..|version|] == version;
    } else {
      var a, k := Built(e, inode, source, version, n - 1), |version| - n;
      BuiltChain(e, inode, source, version, n - 1);
      ChainGrows(a, e, inode, source, version, k);
      BuiltStep(e, inode, source, version, n, a, k);
    }
  }

  /** After all links every name of the chain resolves to the installed file. */
  lemma EveryNameResolves(e: Entries, inode: nat, source: string, version: seq<string>, j: nat)
    requires j <= |version|
    ensures Resolve(Built(e, inode, source, version, |version|), Name(source, version, j)) == Some(inode)
  {
    var b := Built(e, inode, source, version, |version|);
    BuiltChain(e, inode, source, version, |version|);
    ChainResolves(b, inode, source, version, j, {});
    assert b - {} == b;
  }
}
