# Plugin discovery and registration pass of dify-plugin-daemon

This project models the watch pass of the plugin manager in
`internal/core/plugin_manager/watcher.go` and proves what it does to the
registry of live plugin runtimes.

A watch pass lists the immediate entries of a root directory. It skips
entries that are not directories. It skips entries whose `manifest.json`
cannot be read or decoded. It skips manifest names that the registry
already holds, whether that runtime is alive or dead. For every other entry
it builds a plugin descriptor with a fresh runtime state. The driver wraps
each descriptor in the runtime variant of the configured platform (AWS
Lambda or local), stores it in the registry under its manifest name, and
hands it to the lifecycle supervisor. An unknown platform stores nothing.
An unreadable root yields nothing.

Files:

- `entities.dfy` (module `Entities`): manifest configuration, runtime state,
  descriptor, and the two-variant runtime handle, with the "fresh state" and
  lifecycle-invariant predicates.
- `discovery.dfy` (module `Discovery`): the per-entry decisions as functions.
  These are manifest loading, status classification, fresh-descriptor
  construction, the per-entry filter and the platform dispatch. The file
  also defines `Scan`, the producer's stream against a fixed registry, and
  `Pass`, the effect of a whole pass on the registry and on the handoff
  sequence.
- `discovery_proofs.dfy` (module `DiscoveryProofs`): lemmas about `Scan`
  and `Pass`.
- `watcher.dfy` (module `Watcher`): class `PluginManager`, whose `plugins`
  map is the registry. It holds the producer loop (`LoadNewPlugins`) and the
  driver loop (`StartWatcher`), each proved against `Scan` and `Pass`.

Inputs that stand in for the environment:

- The directory listing is an `Option<seq<Entry>>`. `None` means the listing
  failed.
- Each entry carries its manifest outcome: `ReadFailed`, `ParseFailed` or
  `Loaded(config)`.
- The supervisor handoff appends the handle to the ghost sequence
  `handedOff`.

The producer goroutine and the consumer share an unbuffered channel. They
are modelled as one sequential loop: the consumer stores and hands off a
descriptor before the producer checks the next entry. That is one of the
schedules the channel allows. The schedule only matters when two
directories of one listing declare the same manifest name. In this model
the second one is skipped. Under another schedule it can overwrite the
first. `PassMatchesSnapshot` proves that with distinct names the handoffs
are the same as those of the snapshot stream.

Where the design description and the code differ, the model follows the
code:

- The design names the second platform "remote-function". The code
  compares against the AWS Lambda platform constant.
- The design states idempotence only when the stored entries are alive.
  The code skips registered names whether they are alive or dead.
  `PassIdempotent` proves the stronger statement.

## Model

| member | source | states |
|---|---|---|
| `Discovery.ParsePluginConfig` | internal/core/plugin_manager/watcher.go:91-103 | The result is absent exactly when the manifest read or the decode failed; otherwise it is the decoded configuration. |
| `Discovery.VerifyPluginStatus` | internal/core/plugin_manager/watcher.go:110-123 | `exist` holds exactly when the name is registered; `alive` holds exactly when it is registered and that runtime is active, so it is false for an absent name. |
| `Discovery.NewDescriptor` | internal/core/plugin_manager/watcher.go:71-81 | The descriptor carries the parsed configuration and a fresh state: 0 restarts, inactive, unverified, no activation or death time, path `root/entry`; that state satisfies the lifecycle invariant. |
| `Discovery.ScanEntry` | internal/core/plugin_manager/watcher.go:52-81 | An entry yields a descriptor exactly when it is a directory, its manifest loads, and its name is not registered (alive or dead); the descriptor is the fresh one for that entry. |
| `Discovery.NewRuntime` | internal/core/plugin_manager/watcher.go:20-31 | The factory yields a handle exactly for the two supported platforms; the handle embeds the descriptor, and it is the AWS variant exactly for the AWS Lambda platform. |
| `DiscoveryProofs.ScanMembership` | internal/core/plugin_manager/watcher.go:52-83 | A descriptor is in the producer's stream exactly when some entry of the listing yields it. |
| `DiscoveryProofs.ScanEmitsOnlyNewFreshDescriptors` | internal/core/plugin_manager/watcher.go:52-81 | Every streamed descriptor comes from a directory entry with a loaded manifest whose name is not registered, has that configuration and a fresh state at that entry's path. |
| `DiscoveryProofs.ScanOfNewPlugins` | internal/core/plugin_manager/watcher.go:52-81 | When every entry is a directory with a loaded manifest under an unregistered name, the stream has one descriptor per entry, in listing order. |
| `DiscoveryProofs.ScanSkipsEntry` | internal/core/plugin_manager/watcher.go:53-61 | Removing a non-directory entry or one whose manifest fails to load does not change the stream, so later entries are processed as if it were absent. |
| `DiscoveryProofs.StepEffect` | internal/core/plugin_manager/watcher.go:17-36 | One entry changes the registry and the handoffs exactly when it loads a manifest under an unregistered name and the platform is supported; it then stores the new runtime under that name and hands it off once. |
| `DiscoveryProofs.PassUnsupportedPlatform` | internal/core/plugin_manager/watcher.go:28-31 | With an unsupported platform a pass stores nothing and hands nothing off. |
| `DiscoveryProofs.PassConsistent` | internal/core/plugin_manager/watcher.go:63-69 | After a pass, every existing entry is unchanged, the keys are the old keys plus the handed-off names, each handed-off handle has a new name and is stored under it, and no name is handed off twice. |
| `DiscoveryProofs.PassProvenance` | internal/core/plugin_manager/watcher.go:71-81 | Every handed-off handle is the platform's runtime around the fresh descriptor of some listed directory whose manifest loads. |
| `DiscoveryProofs.HandedOffAreFresh` | internal/core/plugin_manager/watcher.go:73-80 | Every handed-off runtime has 0 restarts, is inactive and unverified, has no activation or death time, and satisfies the lifecycle invariant. |
| `DiscoveryProofs.PassSkipsEntry` | internal/core/plugin_manager/watcher.go:53-61 | A non-directory entry or one whose manifest fails to load has no effect on the pass's registry or handoffs. |
| `DiscoveryProofs.PassCoversLoadedNames` | internal/core/plugin_manager/watcher.go:33-34 | With a supported platform, every manifest name of a directory entry that loads is registered after the pass. |
| `DiscoveryProofs.PassOverKnownNamesIsNoOp` | internal/core/plugin_manager/watcher.go:63-69 | If every loadable manifest name is already registered, alive or dead, the pass changes nothing and hands nothing off. |
| `DiscoveryProofs.PassIdempotent` | internal/core/plugin_manager/watcher.go:63-69 | Re-running a pass over the same listing, after any change to the stored states that removes no key, adds nothing and hands nothing off. |
| `DiscoveryProofs.PassMatchesSnapshot` | internal/core/plugin_manager/watcher.go:41-89 | With distinct manifest names and a supported platform, the handoffs of the sequential pass are exactly the runtimes of the producer's stream computed against the initial registry. |
| `DiscoveryProofs.StoresEveryNewPlugin` | internal/core/plugin_manager/watcher.go:15-37 | N directories with loadable manifests under N distinct new names give N handoffs, and each name is stored with the platform's runtime of its fresh descriptor. |
| `Watcher.PluginManager.LoadNewPlugins` | internal/core/plugin_manager/watcher.go:41-89 | The producer loop emits exactly the snapshot stream, or nothing when listing the root fails; every emitted descriptor has an unregistered name and a fresh state. |
| `Watcher.PluginManager.StartWatcher` | internal/core/plugin_manager/watcher.go:15-38 | The driver loop leaves the registry and handoffs exactly as `Pass` says. An unreadable root or an unsupported platform changes nothing. Existing entries are untouched, and the new keys are exactly the handed-off names. |

## Left out

- Reading the directory, reading `manifest.json` and decoding the JSON (watcher.go:44, 92, 97) are external I/O and a library decoder. The listing and each entry's load outcome are inputs.
- The goroutine and the unbuffered channel (watcher.go:42, 51, 71, 85) are flattened into one sequential loop with the store-before-next-check schedule. Other interleavings for duplicate names within one listing are not modelled.
- The registry's `Store` and `checkPluginExist` are defined outside watcher.go and are not part of this model. The registry is a plain map, so concurrent access from several passes is not modelled.
- `lifetime` and the supervisor are not part of this model. The handoff is only recorded as a ghost sequence.
- The AWS and local runtime implementations are not part of this model. Only the variant tag and the embedded descriptor are kept.
- The cleaning rules of `path.Join` are not modelled. Joining is `dir + "/" + name`.
- Logging is not modelled. That includes the missing format argument at watcher.go:67, which has no behavioural effect.
- Timestamp values are not modelled. Only whether `ActiveAt` and `DeadAt` are present matters.
- The plugin configuration keeps only `name` and `version`. Its other manifest fields play no part in the pass.
- The values of the platform constants are defined in the `app` package, which is not part of this model. `"aws_lambda"` and `"local"` are used here, and only their being distinct matters.
