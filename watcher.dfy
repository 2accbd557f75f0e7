/**
 * The plugin manager's watch pass: the registry of live runtimes as an
 * object whose map the pass updates in place, the producer that scans a
 * root directory for new plugins, and the driver that builds a runtime per
 * new plugin, stores it and hands it to the lifecycle supervisor.
 *
 * The producer and the consumer run concurrently in the original over an
 * unbuffered channel. Here they are one sequential loop in which the
 * consumer stores and hands off each descriptor before the producer checks
 * the next entry, which is one of the schedules the channel allows. The
 * schedule matters only when two directories of one listing declare the
 * same manifest name: then the second is skipped here (it finds the first
 * already registered), while another schedule may store it over the first.
 * DiscoveryProofs.PassMatchesSnapshot shows that with distinct names every
 * schedule hands off the same runtimes.
 */
module Watcher {
  import opened Entities
  import opened Discovery
  import opened DiscoveryProofs

  class PluginManager {
    /** Plugin name to the runtime handle stored under it. */
    var plugins: Registry
    /** The handles given to the lifecycle supervisor, oldest first. */
    ghost var handedOff: seq<Handle>

    constructor ()
      ensures plugins == map[] && handedOff == []
    {
      plugins := map[];
      handedOff := [];
    }

    /**
     * The producer: the descriptors of the new plugins under `root`, in
     * listing order, against the registry as it stands. A listing that
     * could not be read (`None`) yields nothing.
     */
    method LoadNewPlugins(root: string, listing: Option<seq<Entry>>) returns (emitted: seq<PluginRuntime>)
      ensures listing.None? ==> emitted == []
      ensures listing.Some? ==> emitted == Scan(root, listing.value, plugins)
      ensures forall p :: p in emitted ==>
        p.config.name !in plugins && p.state.restarts == 0 && !p.state.active && !p.state.verified &&
        p.state.activeAt.None? && p.state.deadAt.None?
    {
      emitted := [];
      if listing.None? {
        return;
      }
      var entries := listing.value;
      for i := 0 to |entries|
        invariant emitted == Scan(root, entries[..i], plugins)
      {
        var entry := entries[i];
        assert entries[..i + 1][..i] == entries[..i];
        if !entry.isDir {
          continue;
        }
        var config := ParsePluginConfig(entry.manifest);
        if config.None? {
          continue;
        }
        var status := VerifyPluginStatus(plugins, config.value);
        if status.exist && status.alive {
          continue;
        } else if status.exist && !status.alive {
          continue;
        }
        emitted := emitted + [NewDescriptor(root, entry.name, config.value)];
      }
      assert entries[..|entries|] == entries;
      forall p | p in emitted
        ensures p.config.name !in plugins && p.state.restarts == 0 && !p.state.active && !p.state.verified
        ensures p.state.activeAt.None? && p.state.deadAt.None?
      {
        ScanEmitsOnlyNewFreshDescriptors(root, entries, plugins, p);
      }
    }

    /**
     * One watch pass over `root` for `platform`: every new plugin found is
     * wrapped in the runtime variant of the platform, stored under its
     * manifest name and handed to the supervisor. Entries already
     * registered keep their handles, and an unsupported platform or an
     * unreadable root leaves the registry as it was.
     */
    method StartWatcher(root: string, platform: string, listing: Option<seq<Entry>>)
      modifies this
      ensures listing.None? ==> plugins == old(plugins) && handedOff == old(handedOff)
      ensures listing.Some? ==>
        var o := Pass(root, platform, listing.value, old(plugins));
        plugins == o.registry && handedOff == old(handedOff) + o.handedOff
      ensures !IsSupported(platform) ==> plugins == old(plugins) && handedOff == old(handedOff)
      ensures forall k :: k in old(plugins) ==> k in plugins && plugins[k] == old(plugins)[k]
      ensures |old(handedOff)| <= |handedOff| && handedOff[..|old(handedOff)|] == old(handedOff)
      ensures plugins.Keys == old(plugins).Keys + HandleNames(handedOff[|old(handedOff)|..])
    {
      if listing.None? {
        return;
      }
      var entries := listing.value;
      ghost var initial, before := plugins, handedOff;
      for i := 0 to |entries|
        invariant |before| <= |handedOff| && handedOff[..|before|] == before
        invariant Pass(root, platform, entries[..i], initial) == Outcome(plugins, handedOff[|before|..])
      {
        var entry := entries[i];
        assert entries[..i + 1][..i] == entries[..i];
        if !entry.isDir {
          continue;
        }
        var config := ParsePluginConfig(entry.manifest);
        if config.None? {
          continue;
        }
        var status := VerifyPluginStatus(plugins, config.value);
        if status.exist && status.alive {
          continue;
        } else if status.exist && !status.alive {
          continue;
        }
        var plugin := NewDescriptor(root, entry.name, config.value);
        var handle: Handle;
        if platform == PlatformAwsLambda {
          handle := Aws(plugin);
        } else if platform == PlatformLocal {
          handle := Local(plugin);
        } else {
          continue;
        }
        plugins := plugins[plugin.config.name := handle];
        handedOff := handedOff + [handle];
      }
      assert entries[..|entries|] == entries;
      PassConsistent(root, platform, entries, initial);
      if !IsSupported(platform) {
        PassUnsupportedPlatform(root, platform, entries, initial);
      }
    }
  }
}
