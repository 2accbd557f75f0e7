/**
 * Properties of the producer stream (Scan) and of a whole watch pass (Pass):
 * what reaches the registry, what is left alone, and when a pass is a no-op.
 */
module DiscoveryProofs {
  import opened Entities
  import opened Discovery

  /** The registry keys of a sequence of handles. */
  ghost function HandleNames(hs: seq<Handle>): set<string> {
    set h | h in hs :: h.Name()
  }

  /** The manifest name of an entry that loads. */
  function ManifestName(e: Entry): string
    requires Loads(e)
  {
    e.manifest.config.name
  }

  /** No two entries that load declare the same manifest name. */
  ghost predicate DistinctNames(entries: seq<Entry>) {
    forall i, j :: 0 <= i < j < |entries| && Loads(entries[i]) && Loads(entries[j]) ==>
      ManifestName(entries[i]) != ManifestName(entries[j])
  }

  /**
   * The registry bookkeeping of a pass started from `registry`: old entries
   * are untouched, the keys are the old keys plus the handed-off names, and
   * every handed-off handle is new, stored under its name, and handed off
   * only once.
   */
  ghost predicate Consistent(registry: Registry, o: Outcome) {
    && (forall k :: k in registry ==> k in o.registry && o.registry[k] == registry[k])
    && o.registry.Keys == registry.Keys + HandleNames(o.handedOff)
    && (forall i :: 0 <= i < |o.handedOff| ==>
          o.handedOff[i].Name() !in registry &&
          o.handedOff[i].Name() in o.registry &&
          o.registry[o.handedOff[i].Name()] == o.handedOff[i])
    && (forall i, j :: 0 <= i < j < |o.handedOff| ==> o.handedOff[i].Name() != o.handedOff[j].Name())
  }

  /** `h` is the runtime the factory builds for the descriptor of entry `e`. */
  ghost predicate BuiltFrom(root: string, platform: string, e: Entry, h: Handle) {
    Loads(e) && NewRuntime(platform, NewDescriptor(root, e.name, e.manifest.config)) == Some(h)
  }

  lemma PrefixOfAppend<T>(xs: seq<T>, x: T)
    ensures (xs + [x])[..|xs|] == xs && (xs + [x])[|xs|] == x
  {
  }

  // ---------------------------------------------------------------------
  // The producer stream against a fixed registry

  /** A descriptor is in the stream exactly when some entry yields it. */
  lemma {:induction false} ScanMembership(root: string, entries: seq<Entry>, registry: Registry, p: PluginRuntime)
    ensures p in Scan(root, entries, registry) <==>
      exists j :: 0 <= j < |entries| && ScanEntry(root, entries[j], registry) == Some(p)
    decreases |entries|
  {
    if entries != [] {
      var n := |entries| - 1;
      var pre := entries[..n];
      ScanMembership(root, pre, registry, p);
      if p in Scan(root, entries, registry) {
        if p !in Scan(root, pre, registry) {
          assert ScanEntry(root, entries[n], registry) == Some(p);
        } else {
          var j :| 0 <= j < |pre| && ScanEntry(root, pre[j], registry) == Some(p);
          assert entries[j] == pre[j];
        }
      }
      if exists j :: 0 <= j < |entries| && ScanEntry(root, entries[j], registry) == Some(p) {
        var j :| 0 <= j < |entries| && ScanEntry(root, entries[j], registry) == Some(p);
        if j < n {
          assert pre[j] == entries[j];
        }
      }
    }
  }

  /**
   * Every descriptor in the stream comes from a directory entry with a
   * loaded manifest whose name the registry does not hold, and carries a
   * fresh state whose path is that entry's directory.
   */
  lemma {:induction false} ScanEmitsOnlyNewFreshDescriptors(root: string, entries: seq<Entry>, registry: Registry, p: PluginRuntime)
    requires p in Scan(root, entries, registry)
    ensures exists j :: (0 <= j < |entries| && Loads(entries[j]) &&
      ManifestName(entries[j]) !in registry &&
      p.config == entries[j].manifest.config &&
      IsFresh(p.state, Join(root, entries[j].name)))
  {
    ScanMembership(root, entries, registry, p);
    var j :| 0 <= j < |entries| && ScanEntry(root, entries[j], registry) == Some(p);
  }

  /** When every entry loads a manifest with a new name, each entry yields its descriptor, in order. */
  lemma {:induction false} ScanOfNewPlugins(root: string, entries: seq<Entry>, registry: Registry)
    requires forall j :: 0 <= j < |entries| ==> Loads(entries[j]) && ManifestName(entries[j]) !in registry
    ensures |Scan(root, entries, registry)| == |entries|
    ensures forall j :: 0 <= j < |entries| && Loads(entries[j]) ==>
      Scan(root, entries, registry)[j] == NewDescriptor(root, entries[j].name, entries[j].manifest.config)
    decreases |entries|
  {
    if entries != [] {
      var n := |entries| - 1;
      ScanOfNewPlugins(root, entries[..n], registry);
    }
  }

  /** An entry that is not a directory, or whose manifest fails to load, leaves the stream as it was. */
  lemma {:induction false} ScanSkipsEntry(root: string, pre: seq<Entry>, e: Entry, post: seq<Entry>, registry: Registry)
    requires !Loads(e)
    ensures Scan(root, pre + [e] + post, registry) == Scan(root, pre + post, registry)
    decreases |post|
  {
    if post == [] {
      PrefixOfAppend(pre, e);
      assert pre + [e] + post == pre + [e];
      assert pre + post == pre;
    } else {
      var m := |post| - 1;
      ScanSkipsEntry(root, pre, e, post[..m], registry);
      var xs, ys := pre + [e] + post, pre + post;
      assert xs[..|xs| - 1] == pre + [e] + post[..m];
      assert ys[..|ys| - 1] == pre + post[..m];
    }
  }

  /**
   * One entry of a pass changes the outcome exactly when the entry loads a
   * manifest whose name is not yet registered and the platform is
   * supported; it then stores the new runtime under that name and hands it
   * off.
   */
  lemma StepEffect(root: string, platform: string, o: Outcome, e: Entry)
    ensures Step(root, platform, o, e) ==
      if Loads(e) && ManifestName(e) !in o.registry && IsSupported(platform) then
        var h := NewRuntime(platform, NewDescriptor(root, e.name, e.manifest.config)).value;
        Outcome(o.registry[ManifestName(e) := h], o.handedOff + [h])
      else
        o
  {
  }

  // ---------------------------------------------------------------------
  // Whole watch passes

  /** An unsupported platform stores nothing and hands nothing off. */
  lemma {:induction false} PassUnsupportedPlatform(root: string, platform: string, entries: seq<Entry>, registry: Registry)
    requires !IsSupported(platform)
    ensures Pass(root, platform, entries, registry) == Outcome(registry, [])
    decreases |entries|
  {
    if entries != [] {
      PassUnsupportedPlatform(root, platform, entries[..|entries| - 1], registry);
    }
  }

  /**
   * A pass only adds entries under new names, never changes an existing
   * entry, stores each handed-off handle under its name, and hands each
   * name off at most once.
   */
  lemma {:induction false} PassConsistent(root: string, platform: string, entries: seq<Entry>, registry: Registry)
    ensures Consistent(registry, Pass(root, platform, entries, registry))
    decreases |entries|
  {
    if entries != [] {
      var n := |entries| - 1;
      PassConsistent(root, platform, entries[..n], registry);
      var o := Pass(root, platform, entries[..n], registry);
      match ScanEntry(root, entries[n], o.registry)
      case None =>
      case Some(p) =>
        match NewRuntime(platform, p)
        case None =>
        case Some(h) =>
          var o' := Outcome(o.registry[p.config.name := h], o.handedOff + [h]);
          assert h.Name() == p.config.name && p.config.name !in o.registry;
          assert HandleNames(o'.handedOff) == HandleNames(o.handedOff) + {h.Name()};
          assert Consistent(registry, o');
    }
  }

  /** `h` is the runtime built for the descriptor of some entry of the listing. */
  ghost predicate FromListing(root: string, platform: string, entries: seq<Entry>, h: Handle) {
    exists j :: 0 <= j < |entries| && BuiltFrom(root, platform, entries[j], h)
  }

  /** Every handed-off handle is the runtime built for the descriptor of some entry that loads. */
  lemma {:induction false} PassProvenance(root: string, platform: string, entries: seq<Entry>, registry: Registry)
    ensures forall h :: h in Pass(root, platform, entries, registry).handedOff ==> FromListing(root, platform, entries, h)
    decreases |entries|
  {
    if entries != [] {
      var n := |entries| - 1;
      var pre := entries[..n];
      PassProvenance(root, platform, pre, registry);
      var o := Pass(root, platform, pre, registry);
      var hs := Pass(root, platform, entries, registry).handedOff;
      StepEffect(root, platform, o, entries[n]);
      forall h | h in hs
        ensures FromListing(root, platform, entries, h)
      {
        if h in o.handedOff {
          var j :| 0 <= j < |pre| && BuiltFrom(root, platform, pre[j], h);
          assert entries[j] == pre[j];
        } else {
          assert BuiltFrom(root, platform, entries[n], h);
        }
      }
    }
  }

  /** Every handed-off runtime carries a fresh, well-formed state. */
  lemma {:induction false} HandedOffAreFresh(root: string, platform: string, entries: seq<Entry>, registry: Registry)
    ensures forall h :: h in Pass(root, platform, entries, registry).handedOff ==>
      h.runtime.state.restarts == 0 && !h.runtime.state.active && !h.runtime.state.verified &&
      h.runtime.state.activeAt.None? && h.runtime.state.deadAt.None? &&
      WellFormedState(h.runtime.state)
  {
    PassProvenance(root, platform, entries, registry);
    var hs := Pass(root, platform, entries, registry).handedOff;
    forall h | h in hs
      ensures h.runtime.state.restarts == 0 && !h.runtime.state.active && !h.runtime.state.verified
      ensures h.runtime.state.activeAt.None? && h.runtime.state.deadAt.None?
      ensures WellFormedState(h.runtime.state)
    {
      var j :| 0 <= j < |entries| && BuiltFrom(root, platform, entries[j], h);
    }
  }

  /** An entry that is not a directory, or whose manifest fails to load, changes nothing in a pass. */
  lemma {:induction false} PassSkipsEntry(root: string, platform: string, pre: seq<Entry>, e: Entry, post: seq<Entry>, registry: Registry)
    requires !Loads(e)
    ensures Pass(root, platform, pre + [e] + post, registry) == Pass(root, platform, pre + post, registry)
    decreases |post|
  {
    if post == [] {
      PrefixOfAppend(pre, e);
      assert pre + [e] + post == pre + [e];
      assert pre + post == pre;
    } else {
      var m := |post| - 1;
      PassSkipsEntry(root, platform, pre, e, post[..m], registry);
      var xs, ys := pre + [e] + post, pre + post;
      assert xs[..|xs| - 1] == pre + [e] + post[..m];
      assert ys[..|ys| - 1] == pre + post[..m];
    }
  }

  /** With a supported platform, every manifest name that loads is in the registry after the pass. */
  lemma {:induction false} PassCoversLoadedNames(root: string, platform: string, entries: seq<Entry>, registry: Registry)
    requires IsSupported(platform)
    ensures forall j :: 0 <= j < |entries| && Loads(entries[j]) ==>
      ManifestName(entries[j]) in Pass(root, platform, entries, registry).registry
    decreases |entries|
  {
    if entries != [] {
      var n := |entries| - 1;
      var pre := entries[..n];
      PassCoversLoadedNames(root, platform, pre, registry);
      var o := Pass(root, platform, pre, registry);
      var o' := Pass(root, platform, entries, registry);
      assert o.registry.Keys <= o'.registry.Keys;
      forall j | 0 <= j < |entries| && Loads(entries[j])
        ensures ManifestName(entries[j]) in o'.registry
      {
        if j < n {
          assert pre[j] == entries[j];
        }
      }
    }
  }

  /** A pass in which every manifest name that loads is already registered, alive or dead, is a no-op. */
  lemma {:induction false} PassOverKnownNamesIsNoOp(root: string, platform: string, entries: seq<Entry>, registry: Registry)
    requires forall j :: 0 <= j < |entries| && Loads(entries[j]) ==> ManifestName(entries[j]) in registry
    ensures Pass(root, platform, entries, registry) == Outcome(registry, [])
    decreases |entries|
  {
    if entries != [] {
      var n := |entries| - 1;
      var pre := entries[..n];
      forall j | 0 <= j < |pre| && Loads(pre[j])
        ensures ManifestName(pre[j]) in registry
      {
        assert pre[j] == entries[j];
      }
      PassOverKnownNamesIsNoOp(root, platform, pre, registry);
    }
  }

  /**
   * Re-running a pass over the same listing adds nothing and hands nothing
   * off, whatever the supervisor has done to the stored states meanwhile
   * (in particular when every stored entry is active), as long as no entry
   * was removed from the registry.
   */
  lemma {:induction false} PassIdempotent(root: string, platform: string, entries: seq<Entry>, registry: Registry, later: Registry)
    requires IsSupported(platform)
    requires Pass(root, platform, entries, registry).registry.Keys <= later.Keys
    ensures Pass(root, platform, entries, later) == Outcome(later, [])
  {
    PassCoversLoadedNames(root, platform, entries, registry);
    PassOverKnownNamesIsNoOp(root, platform, entries, later);
  }

  /**
   * When the manifest names in the listing are distinct, storing each
   * descriptor before the next status check hands off exactly the runtimes
   * of the stream the producer computes against the initial registry: the
   * order of the producer's checks and the consumer's stores does not matter.
   */
  lemma {:induction false} PassMatchesSnapshot(root: string, platform: string, entries: seq<Entry>, registry: Registry)
    requires IsSupported(platform)
    requires DistinctNames(entries)
    ensures |Pass(root, platform, entries, registry).handedOff| == |Scan(root, entries, registry)|
    ensures forall i :: 0 <= i < |Scan(root, entries, registry)| ==>
      Some(Pass(root, platform, entries, registry).handedOff[i]) == NewRuntime(platform, Scan(root, entries, registry)[i])
    decreases |entries|
  {
    if entries != [] {
      var n := |entries| - 1;
      var pre, e := entries[..n], entries[n];
      assert DistinctNames(pre) by {
        forall i, j | 0 <= i < j < |pre| && Loads(pre[i]) && Loads(pre[j])
          ensures ManifestName(pre[i]) != ManifestName(pre[j])
        {
          assert pre[i] == entries[i] && pre[j] == entries[j];
        }
      }
      PassMatchesSnapshot(root, platform, pre, registry);
      var o := Pass(root, platform, pre, registry);
      assert Loads(e) ==> (ManifestName(e) in o.registry <==> ManifestName(e) in registry) by {
        if Loads(e) {
          FreshNameStaysUnregistered(root, platform, entries, registry);
        }
      }
      StepEffect(root, platform, o, e);
      var s, s' := Scan(root, pre, registry), Scan(root, entries, registry);
      var hs, hs' := o.handedOff, Pass(root, platform, entries, registry).handedOff;
      if Loads(e) && ManifestName(e) !in registry {
        var p := NewDescriptor(root, e.name, e.manifest.config);
        assert s' == s + [p];
        assert hs' == hs + [NewRuntime(platform, p).value];
      } else {
        assert s' == s;
        assert hs' == hs;
      }
    }
  }

  /**
   * Within a pass over a listing with distinct manifest names, the last
   * entry's name is registered after the earlier entries exactly when it
   * was registered before the pass.
   */
  lemma FreshNameStaysUnregistered(root: string, platform: string, entries: seq<Entry>, registry: Registry)
    requires DistinctNames(entries)
    requires entries != [] && Loads(entries[|entries| - 1])
    ensures var n := |entries| - 1;
      ManifestName(entries[n]) in Pass(root, platform, entries[..n], registry).registry <==>
      ManifestName(entries[n]) in registry
  {
    var n := |entries| - 1;
    var pre, e := entries[..n], entries[n];
    PassConsistent(root, platform, pre, registry);
    PassProvenance(root, platform, pre, registry);
  }

  /**
   * A listing of N directories with well-formed manifests under N distinct
   * new names, with a supported platform, hands off N handles and stores
   * each under its manifest name.
   */
  lemma StoresEveryNewPlugin(root: string, platform: string, entries: seq<Entry>, registry: Registry)
    requires IsSupported(platform)
    requires DistinctNames(entries)
    requires forall j :: 0 <= j < |entries| ==> Loads(entries[j]) && ManifestName(entries[j]) !in registry
    ensures |Pass(root, platform, entries, registry).handedOff| == |entries|
    ensures forall j :: 0 <= j < |entries| ==>
      var stored := Pass(root, platform, entries, registry).registry;
      ManifestName(entries[j]) in stored &&
      Some(stored[ManifestName(entries[j])]) == NewRuntime(platform, NewDescriptor(root, entries[j].name, entries[j].manifest.config))
  {
    ScanOfNewPlugins(root, entries, registry);
    PassMatchesSnapshot(root, platform, entries, registry);
    PassConsistent(root, platform, entries, registry);
    var o := Pass(root, platform, entries, registry);
    forall j | 0 <= j < |entries|
      ensures ManifestName(entries[j]) in o.registry
      ensures Some(o.registry[ManifestName(entries[j])]) == NewRuntime(platform, NewDescriptor(root, entries[j].name, entries[j].manifest.config))
    {
      assert o.handedOff[j].Name() == ManifestName(entries[j]);
    }
  }
}
