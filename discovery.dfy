/**
 * The decisions of one watch pass of the plugin manager, as functions over
 * values: which directory entries yield a new plugin descriptor, how the
 * registry classifies a manifest name, which runtime variant a platform
 * selects, and what a whole pass does to the registry.
 *
 * The directory listing, each manifest's read-and-parse outcome and the
 * registry are inputs; the file system and the JSON decoder are not modelled.
 */
module Discovery {
  import opened Entities

  /** The platform identifiers the dispatch recognises. */
  const PlatformAwsLambda: string := "aws_lambda"
  const PlatformLocal: string := "local"

  /** The outcome of reading and decoding an entry's `manifest.json`. */
  datatype ManifestLoad =
    | ReadFailed
    | ParseFailed
    | Loaded(config: PluginConfiguration)

  /** One entry of the root directory's listing. */
  datatype Entry = Entry(name: string, isDir: bool, manifest: ManifestLoad)

  /** The registry's answer about one manifest name. */
  datatype StatusResult = StatusResult(exist: bool, alive: bool)

  /** The registry: plugin name to the handle stored under it. */
  type Registry = map<string, Handle>

  /** Path joining; the cleaning rules of a real path join are not modelled. */
  function Join(dir: string, name: string): string {
    dir + "/" + name
  }

  /** The manifest of an entry, or None when reading or decoding it failed. */
  function ParsePluginConfig(m: ManifestLoad): (r: Option<PluginConfiguration>)
    ensures r.None? <==> m.ReadFailed? || m.ParseFailed?
    ensures r.Some? ==> m == Loaded(r.value)
  {
    match m
    case Loaded(config) => Some(config)
    case _ => None
  }

  /** An entry that is a directory holding a readable, well-formed manifest. */
  predicate Loads(e: Entry) {
    e.isDir && e.manifest.Loaded?
  }

  /** Classifies a manifest name against the registry as it stands. */
  function VerifyPluginStatus(registry: Registry, config: PluginConfiguration): (s: StatusResult)
    ensures s.exist <==> config.name in registry
    ensures s.alive <==> config.name in registry && registry[config.name].runtime.state.active
    ensures s.alive ==> s.exist
  {
    if config.name in registry then
      StatusResult(true, registry[config.name].runtime.state.active)
    else
      StatusResult(false, false)
  }

  /** The descriptor emitted for a newly found plugin directory. */
  function NewDescriptor(root: string, entryName: string, config: PluginConfiguration): (p: PluginRuntime)
    ensures p.config == config
    ensures IsFresh(p.state, Join(root, entryName))
    ensures WellFormedState(p.state)
  {
    PluginRuntime(config, PluginRuntimeState(
      restarts := 0,
      active := false,
      relativePath := Join(root, entryName),
      activeAt := None,
      deadAt := None,
      verified := false))
  }

  /**
   * The producer's handling of one listing entry: skip non-directories,
   * skip a manifest that cannot be read or decoded, skip a name the
   * registry already holds (alive or dead), and otherwise emit a fresh
   * descriptor.
   */
  function ScanEntry(root: string, e: Entry, registry: Registry): (r: Option<PluginRuntime>)
    ensures r.Some? <==> Loads(e) && e.manifest.config.name !in registry
    ensures r.Some? ==> r.value == NewDescriptor(root, e.name, e.manifest.config)
  {
    if !e.isDir then None
    else
      match ParsePluginConfig(e.manifest)
      case None => None
      case Some(config) =>
        var status := VerifyPluginStatus(registry, config);
        if status.exist && status.alive then None
        else if status.exist && !status.alive then None
        else Some(NewDescriptor(root, e.name, config))
  }

  predicate IsSupported(platform: string) {
    platform == PlatformAwsLambda || platform == PlatformLocal
  }

  /**
   * The runtime factory: the AWS Lambda platform wraps the descriptor in
   * the AWS variant, the local platform in the local variant, and any
   * other platform yields nothing.
   */
  function NewRuntime(platform: string, p: PluginRuntime): (h: Option<Handle>)
    ensures h.Some? <==> IsSupported(platform)
    ensures h.Some? ==> h.value.runtime == p
    ensures h.Some? ==> (h.value.Aws? <==> platform == PlatformAwsLambda)
  {
    if platform == PlatformAwsLambda then Some(Aws(p))
    else if platform == PlatformLocal then Some(Local(p))
    else None
  }

  /**
   * The producer's stream against a registry that does not change while it
   * runs: the descriptors of the entries, in listing order.
   */
  function Scan(root: string, entries: seq<Entry>, registry: Registry): seq<PluginRuntime>
    decreases |entries|
  {
    if entries == [] then []
    else
      var n := |entries| - 1;
      Scan(root, entries[..n], registry) +
        match ScanEntry(root, entries[n], registry)
        case None => []
        case Some(p) => [p]
  }

  /** The registry after a pass, and the handles handed to the supervisor, in order. */
  datatype Outcome = Outcome(registry: Registry, handedOff: seq<Handle>)

  /**
   * One entry of a pass: the consumer stores and hands off the descriptor
   * before the producer looks at the next entry.
   */
  function Step(root: string, platform: string, o: Outcome, e: Entry): Outcome {
    match ScanEntry(root, e, o.registry)
    case None => o
    case Some(p) =>
      match NewRuntime(platform, p)
      case None => o
      case Some(h) => Outcome(o.registry[p.config.name := h], o.handedOff + [h])
  }

  /** A whole watch pass over a successfully listed root directory. */
  function Pass(root: string, platform: string, entries: seq<Entry>, registry: Registry): Outcome
    decreases |entries|
  {
    if entries == [] then Outcome(registry, [])
    else
      var n := |entries| - 1;
      Step(root, platform, Pass(root, platform, entries[..n], registry), entries[n])
  }
}
