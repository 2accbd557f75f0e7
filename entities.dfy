/**
 * The records the plugin manager passes around: a plugin's parsed manifest,
 * its mutable lifecycle state, the descriptor pairing the two, and the
 * backend-specific runtime handle that the registry stores.
 */
module Entities {

  datatype Option<+T> = None | Some(value: T)

  /** The parsed `manifest.json` of one plugin; `name` is its registry key. */
  datatype PluginConfiguration = PluginConfiguration(name: string, version: string)

  /** A point in time; only whether one is present matters to this model. */
  datatype Instant = Instant(unixNanos: int)

  /** The lifecycle record the supervisor updates after handoff. */
  datatype PluginRuntimeState = PluginRuntimeState(
    restarts: int,
    active: bool,
    relativePath: string,
    activeAt: Option<Instant>,
    deadAt: Option<Instant>,
    verified: bool
  )

  /** A plugin descriptor: its configuration together with its runtime state. */
  datatype PluginRuntime = PluginRuntime(config: PluginConfiguration, state: PluginRuntimeState)

  /**
   * A runtime handle, one variant per backend; each embeds the descriptor it
   * was built from. The backends' own process and Lambda state is not modelled.
   */
  datatype Handle =
    | Local(runtime: PluginRuntime)
    | Aws(runtime: PluginRuntime)
  {
    /** The key under which the handle is stored: its manifest's name. */
    function Name(): string {
      runtime.config.name
    }
  }

  /** The state of a descriptor that has just been discovered at `path`. */
  predicate IsFresh(s: PluginRuntimeState, path: string) {
    && s.restarts == 0
    && !s.active
    && !s.verified
    && s.activeAt.None?
    && s.deadAt.None?
    && s.relativePath == path
  }

  /**
   * The lifecycle invariant of a state: an active runtime has no death time,
   * a death time is set only after an activation time, and restarts are
   * never negative.
   */
  predicate WellFormedState(s: PluginRuntimeState) {
    && s.restarts >= 0
    && (s.active ==> s.deadAt.None?)
    && (s.deadAt.Some? ==> s.activeAt.Some? && !s.active)
  }
}
