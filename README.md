# puller in Dafny

A model of the core of puller (also called pauler), a small daemon that keeps
Docker containers on a cluster of nodes in line with YAML service
definitions:

- **Definitions.** Each definition names a service, a `docker run`-style
  command template ("bash"), an image repository and tag, and a regular
  expression that selects the nodes the service belongs on.
- **The daemon loop.**
  - It loads the definitions from a directory.
  - It flags services whose running container has drifted from the
    definition (different fingerprint) or runs an image older than the newest
    local one.
  - It removes the containers of flagged services.
  - It launches a container for every service that has none.
  - It pushes its definitions to two "buddy" members of the cluster.
- **The HTTP API.**
  - Its handlers are meant to do the following:
    - accept definitions pushed by peers, writing a pushed record to disk
      only when it is new, or has another fingerprint and is fresher;
    - list the stored definitions, or return one of them.
  - Every route except the health check is wrapped in `auth`, which checks
    an optional API key.
  - As written, `auth` never calls the handler it wraps
    (daemon/api/api.go:31-37). So nothing is served and nothing is written.
    The model covers the handlers on their own and, separately, this wrapper
    (see "## Findings").
  - Pushed records are also decoded into a zero record, so they carry the
    zero time and never replace a stored definition (`Api.PushedNeverReplaces`).
- **The legacy program.** The older single-file program (`main.go`) launches
  in the same way, with a shorter command line, but loads differently:
  - It also reads `json` files.
  - It has no node filter and no set of bad files.
  - It keeps the first record stored under a name, never replacing it
    (`Legacy.NeverReplaced`).
  - A later record of that name which differs (by its `Differs` test) is to
    be marked in a change map. That map is never allocated, so marking it
    panics (`Legacy.ConflictPanics`).

The modules follow the source files:

| module | models |
|---|---|
| `Types` (types.dfy) | `types/types.go`: the service record, validation, the fingerprint (`Sum`), the launch command (`GenerateBash`) and the base64-over-JSON wire form |
| `Shared` (shared.dfy) | `shared/shared.go`: the process-wide maps, as the class `Store` |
| `Daemon` (daemon.dfy) | `daemon/daemon.go`: `load`, `matchesNode`, `launch`, `remove` |
| `Peers` (peers.dfy) | `daemon/daemon.go`: `pick2`, `others`, the `Members` ordering |
| `Api` (api.dfy) | `daemon/api/api.go`: `auth`, `putServices`, `updateFresherService(s)`, `getServices`, `getService` |
| `Legacy` (legacy.dfy) | `main.go`: its `Service`, `Differs`, `Valid`, `GenerateBash`, `load`, `launch` |
| `Text` (text.dfy) | the Go string functions the core relies on: `strings.Contains`, `Split`, `Join`, `HasSuffix`, `Compare` |
| `Base64` (base64.dfy) | `base64.StdEncoding`: section 4 of RFC 4648 with Go's decoder leniencies |
| `Host` (host.dfy) | what the host hands in: directory entries, Docker containers and images, cluster members |

Everything outside the process is a parameter.
- A directory listing is a `Result` holding a sequence of `FileEntry` values. Each entry carries its name, whether it could be read, what the YAML or JSON parser made of it, and its modification time.
- Docker listings are `Result` values of containers and images.
- Whether each container removal succeeded is a predicate on names.
- SHA-1 with hex formatting is a function `Hasher`.
- The JSON encoder and decoder pair is a `JsonCodec`.
- Regular-expression matching is a `Matcher`.

Go's maps are Dafny maps. The flag maps only ever hold `true`, so they are
sets of names. `time.Time` is an integer (the zero time is 0). A Go panic is
an `Err` or `Panicked` outcome.

Two behaviours of the code are worth knowing before reading the model:
- **Loading from disk is not a merge.** One might expect a loaded file to
  replace a stored definition only when it is fresher. `load` instead stores
  every accepted file unconditionally (daemon/daemon.go:120): the last
  accepted file of a name wins (`Daemon.LoadLastWins`), even an older one.
  The fresher-wins rule exists only in the API's `updateFresherService`, and
  there it decides what is written to disk, not what enters the store.
- **Launch command arguments.** The launch command injects `--name <name> -d
  --label sum=<fingerprint>` after the second token of the template
  (types/types.go:51).

## Model

| member | source | states |
|---|---|---|
| Types.Valid | types/types.go:25-31 | No error exactly when the repository occurs somewhere in the command template. |
| Types.EmptyRepoIsValid | types/types.go:25-31 | A definition with an empty repository always passes validation. |
| Types.Sum | types/types.go:33-36 | The fingerprint is the hasher applied to bash+repo+tag+node and to nothing else. |
| Types.SumIgnoresMetadata | types/types.go:33-36 | The fingerprint does not depend on the name, the last-updated time or the pull interval. |
| Types.SumOfEqualConcatenations | types/types.go:33-36 | Two records whose bash, repo, tag and node fields concatenate to the same string get the same fingerprint, for any hash function. |
| Types.FieldBoundaryCollision | types/types.go:35 | Two different definitions (repo "web", tag "1" against repo "web1", tag "") get the same fingerprint, because the fields are joined without separators. |
| Types.RewriteToken | types/types.go:42-49 | A token that does not mention the repository is kept. One that does becomes its text before the first ':' followed by ":" and the tag. |
| Types.GenerateBash | types/types.go:39-52 | The array loop produces `LaunchCommand`: the template split on spaces with every token rewritten in place, and the five injected arguments after the second token. |
| Types.LaunchCommandShape | types/types.go:51 | The command has tokens+5 entries. Entries 0 and 1 are the rewritten first two tokens and entries 2-6 are `--name <name> -d --label sum=<Sum>`. The remaining tokens follow in order, unchanged where they do not mention the repository. |
| Types.ThreeWordTemplate | types/types.go:39-52 | A template `cmd verb repo` whose first two words do not contain the repository launches as `[cmd, verb, --name, name, -d, --label, sum=…, repo:tag]`. |
| Types.RewriteDropsRegistryPort | types/types.go:45-46 | Take a repository with a registry port (`host:rest`) and a token `host:rest:old`. The token is rewritten to `host:tag`, because everything after the first ':' is cut. |
| Types.EmptyRepoRetagsEveryToken | types/types.go:42-49 | With an empty repository, every colon-free token gets ":" and the tag appended. |
| Types.Marshal | types/types.go:54-60 | The marshalled form is base64 text that decodes back to the record's JSON encoding. |
| Types.Unmarshal | types/types.go:62-68 | Invalid base64 leaves the target record unchanged and reports an error. The last-updated time is never decoded (it is excluded from JSON). |
| Types.MarshalRoundTrip | types/types.go:54-68 | Unmarshalling a marshalled record restores every field except the last-updated time, which keeps the target's value, provided the JSON layer round-trips. |
| Base64.RoundTrip | types/types.go:59-63 | Decoding what the encoder wrote gives back the bytes. |
| Base64.EncodeLength | types/types.go:59 | The encoding has four characters for every started group of three bytes. |
| Base64.ForeignCharacterRejected | types/types.go:63-66 | On input without line breaks, any character that is neither in the alphabet nor padding makes decoding fail. |
| Base64.DecodeRejectsForeign | types/types.go:63-66 | `DecodeString` fails on any input holding a character that is not in the alphabet, not padding and not a line break. |
| Text.JoinSplit | types/types.go:40 | Joining the parts of a split with the separator restores the original string. |
| Text.LessEqTotal | daemon/daemon.go:285-287 | `Members.Less` (comparison of names) is total. |
| Text.LessEqTransitive | daemon/daemon.go:285-287 | `Members.Less` is transitive. |
| Text.LessEqAntisymmetric | daemon/daemon.go:285-287 | Names that are each `Less` than the other are equal. |
| Shared.Store.constructor | shared/shared.go:16-21 | All four maps start empty, and the store is consistent: services are keyed by name, and flags name stored services. |
| Daemon.MatchesNode | daemon/daemon.go:144-146 | False when the node name is empty. Otherwise it is the match of the service's node pattern against the node name. |
| Daemon.Accepted | daemon/daemon.go:97-120 | An entry is stored exactly when it is readable, has a yaml/yml suffix, parses, validates and matches this node. The stored record carries the file's modification time. |
| Daemon.Load | daemon/daemon.go:77-123 | If the directory cannot be read, that error is returned and nothing changes. Otherwise the services are the old map overridden by the accepted entries in listing order, and files with an unknown suffix join the bad-file set. Each newly bad name is warned about exactly once. The drift flags are untouched and the store stays consistent. |
| Daemon.LoadedIsOverride | daemon/daemon.go:82-121 | Loading never removes an entry: the result is the old map overridden by what the listing alone yields. |
| Daemon.LoadIdempotent | daemon/daemon.go:77-123 | Loading the same listing twice gives the same services as loading it once. |
| Daemon.LoadedProvenance | daemon/daemon.go:120 | Every stored entry was stored before or comes from an accepted file of the listing. |
| Daemon.LoadLastWins | daemon/daemon.go:120 | The last accepted file carrying a name decides the record stored under it. |
| Daemon.NamedSpec | daemon/daemon.go:171-178 | A container is found exactly when some container is named "/"+name, and the one kept is the last such container. |
| Daemon.FindContainer | daemon/daemon.go:169-178 | The nested loop finds exactly the container `Named` describes. |
| Daemon.AddTags | daemon/daemon.go:161-163 | One image's references are added to the index, each mapping to that image. |
| Daemon.BuildImageIndex | daemon/daemon.go:159-164 | The loop builds `ImageIndex` of the listing. |
| Daemon.ImageIndexLookup | daemon/daemon.go:159-164 | A reference is indexed exactly when some image carries it, and it maps to the last image that does. |
| Daemon.Inspect | daemon/daemon.go:169-199 | For one service: changed exactly when its container exists with a different `sum` label. Outdated exactly when its container exists and the indexed image is newer. A launch command exactly when it has no container. |
| Daemon.Flag | daemon/daemon.go:180-189 | Flags are only ever added, and the services are untouched. |
| Daemon.Reconcile | daemon/daemon.go:168-201 | Over all stored names, the changed and outdated flags grow by exactly the drifted and stale services. Commands are run for exactly the services without a container. |
| Daemon.Launch | daemon/daemon.go:148-203 | A client failure or an image-listing failure returns an error and changes nothing. Otherwise it is `Reconcile` against the listed containers (none if that listing failed) and the image index. |
| Daemon.DriftConverged | daemon/daemon.go:179-193 | A service whose container has the current fingerprint and is not older than its indexed image is neither flagged nor relaunched. |
| Daemon.UnlistedContainersLaunchAll | daemon/daemon.go:153-158 | The container-listing error is overwritten by the image listing's, so a failed container listing relaunches every stored service. |
| Daemon.Remove | daemon/daemon.go:206-220 | The outdated flags keep exactly the names whose removal succeeded. The changed flags keep exactly those whose removal failed. It never returns an error. |
| Daemon.OutdatedFlagOutlivesRemoval | daemon/daemon.go:209-210 | An outdated flag survives exactly when its container was removed, so when every removal succeeds no outdated flag is ever cleared. |
| Daemon.ChangedFlagsSettle | daemon/daemon.go:213-217 | Under the changed-flag rule, a flag stays only while its removal fails, and all flags clear once every removal succeeds. |
| Peers.SortByName | daemon/daemon.go:258 | The ordering `sort.Sort` establishes: sorted by name and a permutation of its input. |
| Peers.SortPool | daemon/daemon.go:258 | Sorting the pool array in place leaves it sorted and a permutation of what it held. |
| Peers.SortedPermutationUnique | daemon/daemon.go:258 | When names identify members, two sorted permutations of the same pool are equal, so the sort algorithm does not affect the result. |
| Peers.DoubledPool | daemon/daemon.go:257-258 | The sorted doubled pool holds every member twice in a row, in name order. |
| Peers.NotNamed | daemon/daemon.go:267-275 | Keeps exactly the members with another name. It is never longer than the input, and strictly shorter when the node is present. |
| Peers.Others | daemon/daemon.go:267-275 | The loop returns exactly `NotNamed` of the members. |
| Peers.FirstNamed | daemon/daemon.go:259-263 | The first position carrying the node's name, or the length when there is none. |
| Peers.Pick2 | daemon/daemon.go:249-265 | Up to three members it agrees with `Pick2Of`. From four members it panics exactly when the node is absent, and otherwise returns two members. When names identify members it equals `Pick2Of`. |
| Peers.PoolPick | daemon/daemon.go:257-261 | The two picks come from the sorted pool at the node's index+1 and +2, and both are members. |
| Peers.Pick2Contract | daemon/daemon.go:249-265 | Results are members. A present node never panics and gets at most two. Up to three members, the node itself is excluded. From four members it panics exactly when the node is absent, and otherwise gets exactly two. |
| Peers.Pick2Formula | daemon/daemon.go:257-261 | With index i of the node and S the members sorted by name, the picks are S[(i+1)/2] and S[(i+2)/2]. |
| Peers.Pick2PicksItself | daemon/daemon.go:257-261 | With four or more uniquely named members in name order, the first member's buddies are itself and the second member. |
| Peers.Pick2RepeatsBuddy | daemon/daemon.go:257-261 | A node at an odd index gets the same buddy twice. |
| Peers.BuddiesAreOthers | daemon/daemon.go:247-249 | The corrected pick (ring successors in name order) gives two distinct members, neither of them the node. |
| Api.DefinitionPath | daemon/api/api.go:107 | The written path ends in the `.yml` suffix that `load` accepts. |
| Api.UpdateFresherService | daemon/api/api.go:99-112 | A file is written exactly when the name is unknown, or the fingerprint differs and the record is strictly newer. It holds the record under `<dir>/<name>.yml`. |
| Api.SameSumNeverWritten | daemon/api/api.go:100-101 | A record with the stored fingerprint is never written, whatever its time. |
| Api.OlderNeverWritten | daemon/api/api.go:100-101 | A record no newer than the stored one is never written. |
| Api.UnknownAlwaysWritten | daemon/api/api.go:100-101 | A record for an unknown name is always written. |
| Api.NoMutualOverwrite | daemon/api/api.go:100-101 | Of two records under one name, at most one would replace the other. |
| Api.UpdateFresherServices | daemon/api/api.go:93-97 | The loop produces `Writes`: each record decided against the same store, in order. |
| Api.WritesSpec | daemon/api/api.go:93-112 | A batch writes exactly the accepted records, each to its own definition file. |
| Api.PushedNeverReplaces | daemon/api/api.go:83-87 | Records decoded into a zero record carry the zero time, so they never replace a stored entry. |
| Api.PutServices | daemon/api/api.go:71-91 | It is all or nothing. An unreadable body, or any string that fails to decode, aborts before anything is written. Otherwise the result is the writes for the decoded records. |
| Api.DecodeBody | daemon/api/api.go:81-88 | The loop fails exactly when some string of the batch fails to unmarshal, and otherwise returns every string's record, in order. |
| Api.DecodeAll | daemon/api/api.go:81-88 | One decoded record per string, in order, each decoded into a fresh zero record. |
| Api.DecodeMarshalled | daemon/api/api.go:81-88 | A batch of marshalled records decodes to those records with the zero time, provided the JSON layer round-trips. |
| Api.Auth | daemon/api/api.go:31-37 | The request is refused (Go panics with "not authorized") exactly when a key is configured and the header differs; otherwise the reply is empty. |
| Api.AuthIgnoresHandler | daemon/api/api.go:31-37 | The wrapped handler never runs: the reply is the same whichever handler is wrapped. |
| Api.AuthIntended | daemon/api/api.go:31-37 | The corrected wrapper refuses exactly the requests `auth` refuses, and answers every admitted one with the wrapped handler's response. |
| Api.AuthIntendedRunsHandler | daemon/api/api.go:31-37 | Both wrappers refuse the same requests; on every admitted request `auth` answers with nothing where the corrected wrapper runs the handler. |
| Api.AuthOpenWithoutKey | daemon/api/api.go:33 | Without a configured key, every request passes. |
| Api.GetServices | daemon/api/api.go:114-125 | Every stored service appears exactly once, and nothing else does. |
| Api.GetService | daemon/api/api.go:127-138 | The entry stored under the requested name, or nothing. |
| Legacy.Differs | main.go:46-56 | As written, the comparison never reports a difference between equal records; `DiffersIff` states exactly which fields it sees. |
| Legacy.DiffersIff | main.go:46-56 | As written, two records differ exactly when their bash or their repo differ. |
| Legacy.DiffersIgnoresTag | main.go:52 | A change of tag alone is never seen as a difference. |
| Legacy.DiffersIntendedSeesTag | main.go:46-56 | The corrected comparison sees bash, repo and tag. It is exactly inequality for records of the same name, and it catches the tag-only change the original misses. |
| Legacy.Valid | main.go:58-64 | No error exactly when the repository occurs in the command template. |
| Legacy.GenerateBash | main.go:67-70 | The first token, then `--name <name>`, then the remaining tokens, for tokens+2 entries in all. |
| Legacy.GenerateBashRestoresTemplate | main.go:67-70 | Dropping the injected arguments and joining with spaces gives back the template. |
| Legacy.Candidate | main.go:85-113 | An entry is considered exactly when it is readable, has a json/yaml/yml suffix, parses and validates. |
| Legacy.PanicIsFinal | main.go:119-121 | Once load panics, nothing further happens. |
| Legacy.NeverReplaced | main.go:114-118 | A stored record is never replaced by a later file. |
| Legacy.StoredFromCandidates | main.go:114-117 | Every stored record was there before or comes from a considered file. |
| Legacy.RunCovers | main.go:85-122 | After a load that does not panic, every considered name is stored, and every difference from it is marked. |
| Legacy.CoveredRunIsIdle | main.go:85-122 | Entries already covered change nothing when processed again. |
| Legacy.ReloadIsIdle | main.go:77-124 | Loading the same listing again after a successful load changes nothing. |
| Legacy.NilChangedFinishesOnlyWhenAgreeing | main.go:119-121 | With the change map still nil, a load completes only if every considered record agrees with the stored one. |
| Legacy.ConflictPanics | main.go:119-121 | With the change map nil, two differing files for one name make load panic. |
| Legacy.ChangedStaysNil | main.go:72-80 | Nothing ever allocates the change map. |
| Legacy.State.constructor | main.go:72-75 | Both globals start as nil maps. |
| Legacy.Load | main.go:77-124 | A nil service map is allocated first. A directory error returns it. Otherwise the state is the fold of the listing, ending in a nil-map panic when a difference has to be marked. |
| Legacy.RunSplit | main.go:85-122 | Loading a listing in two parts equals loading it at once. |
| Legacy.Launch | main.go:145-176 | A client or container-listing failure returns an error and runs nothing. Otherwise a command is run for each stored service (none for a nil map) without a container. |
| Legacy.LaunchOnlyMissing | main.go:156-167 | A service is launched exactly when no container is named "/"+name. |

## Left out

- **The HTTP layer** is not part of this model: the router, `Start`, `health`, and the response writing of `getServices`/`getService`, including their JSON encoding and the order of map iteration. So are `pull`, `pullAndPropagate`, `transferServices` and `propagate`: they only send requests over the network. `daemon.Pull` is called by the API but lies outside this model.
- **Byte strings**: Go strings are byte sequences, and `strings.Compare` orders them byte by byte. Here a string is a sequence of Unicode characters, compared character by character. Invalid UTF-8 in names, templates or base64 input cannot be represented.
- **Concurrency** is not modelled: the daemon's timer loop, `getDockerClient`'s locking and lazy initialisation (a `clientOk` parameter stands for it), and the memberlist gossip.
- **The output of launched commands** is only logged, so it is not modelled; `launched` maps each name to the command that would run.
- **Regular expressions, SHA-1, YAML and JSON** are parameters (`Matcher`, `Hasher`, parse results, `JsonCodec`). Their internals and the panic of `regexp.MustCompile` on a bad pattern are not modelled. JSON decoding fills all wire fields at once. Go's partial fill is not modelled, either on a malformed document or for fields absent from a well-formed one, which Go leaves at the target's values. The only core caller, `putServices`, decodes into a zero record.
- **File I/O**: `updateFresherService` returns the file it would write; write and YAML-marshal failures (which panic) are not modelled. In `putServices`, a body that cannot be read and a body that is not a JSON list of strings are one case: `body == None`.
- **Shared.Store**: api.go reads the services through `shared.Services.Get`/`Items` (a concurrent map), while shared/shared.go declares a plain map; the store is a plain map here.
- **Api.GetServices**: requires every service to be stored under its own name, which `load` guarantees; a store built otherwise is not covered.
- **Daemon.Launch**: when the client and the image listing succeed, requires every service without a container to have at least two template tokens (`LaunchReady`). For a shorter template Go panics when it indexes the second token, and that panic is not modelled. On the two error paths nothing is required.
- **Types.GenerateBash**: requires two tokens for the same reason.
- **Peers.Pick2**: when two different members share a name, the in-place insertion sort used here may order them differently from Go's `sort.Sort`. Equality with `Pick2Of` is therefore stated only when names identify members, as they do in a memberlist.

## Findings

| source | as written | input that shows it | evidently intended | confidence | as-written member | corrected member |
|---|---|---|---|---|---|---|
| daemon/daemon.go:257-261 | the doubled pool is sorted, so each member appears twice in a row, and the node at index i takes pool[i+1], pool[i+2] | four members a, b, c, d in name order, node "a": pool is a,a,b,b,c,c,d,d and the picks are a (itself) and b | two buddies other than the node itself | high (not executed) | Peers.Pick2PicksItself | Peers.BuddiesAreOthers |
| daemon/daemon.go:257-261 | same indexing: for odd i, (i+1)/2 == (i+2)/2 | members a, b, c, d, node "b" (index 1): picks b and b | two distinct buddies | high (not executed) | Peers.Pick2RepeatsBuddy | Peers.BuddiesAreOthers |
| daemon/daemon.go:209-210 | the outdated flag is deleted when removing the container fails | a flagged service whose container removal succeeds: the flag stays, and the next cycle removes the relaunched container again | clear the flag on success, as the changed loop at lines 213-217 does | medium (not executed) | Daemon.OutdatedFlagOutlivesRemoval | Daemon.ChangedFlagsSettle |
| main.go:52 | `b.Tag != b.Tag` compares a field with itself | records equal except for the tag: `Differs` is false | compare `a.Tag` with `b.Tag` | high (not executed) | Legacy.DiffersIgnoresTag | Legacy.DiffersIntendedSeesTag |
| daemon/api/api.go:31-37 | `auth` checks the key and returns without calling the wrapped handler | any request to `PUT /v1/services` with the right key (or with no key configured): the reply is empty and putServices never runs; the same holds for getServices, getService, pull and pullAndPropagate | call the handler once the key check passes | high (not executed) | Api.AuthIgnoresHandler | Api.AuthIntendedRunsHandler |
