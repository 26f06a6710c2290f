# Verified models of the server's state machines, parsers and transformations

The repository wraps Chrome with an Effect-based server. Most of it is input and
output; ten small components hold the logic that has to be right whatever the
order of events. This project models each of them in Dafny and proves what it
promises, over every input, every run or every interleaving.

`dafny verify dfyconfig.toml` checks everything.

Code that changes fields step by step is a class here, with the same branches;
each event handler or call keeps `Valid()`, and `Valid()` ties the fields to
functions of everything that has happened so far, so it describes every
reachable state. Sockets, CDP sends, clocks, randomness and ciphers are
parameters or steps that the surroundings may take at any time.

| file | component |
|---|---|
| `ServiceGraph.dfy` | the dependency graph and the search behind `validate` |
| `ServiceResolution.dfy` | what `resolve` and the registration calls mean, and their laws |
| `ServiceContainer.dfy` | the container class, and the server's own container |
| `ProxyUsername.dfy`, `ProxyAuthHeader.dfy` | the session username, printed and parsed; HTTP Basic (section 2 of RFC 7617) |
| `CaptureStore.dfy` | the bounded capture maps and the dual-key lookup |
| `HeadReader.dfy` | reading a response head from a chunked stream |
| `FetchInterception.dfy` | the Fetch interception of one scrape |
| `CdpProxy.dfy` | frame dispatch and the close protocol of the CDP proxy |
| `StickyToken.dfy` | the sticky session token under concurrent scrapes |
| `LanRelayHealth.dfy` | the hysteresis of the relay health monitor |
| `ReplayPipeline.dfy` | batching of replay events |
| `SchemaFlatten.dfy` | flattening of single-element `allOf`, and which entries stay |
| `SchemaMeaning.dfy` | what a draft-07 schema accepts, and schemas that keep it |
| `SchemaClaims.dfy` | exactly when flattening keeps it, and examples where not |
| `FileCache.dfy` | the file cache and its text on disk |
| `CfBridge.dfy` | the buffered bridge in the page |
| `Prelude.dfy`, `Text.dfy` | options, sequences, division, string search |

## Where the code does not do quite what is said of it

- The parsers are said to be safe because all segment values are free of
  hyphens. That is not enough: a base user that ends in `-session` or
  `-browser`, a session id `browser`, and a trace id `browser` before a span are
  misread (`ProxyUsername.Misreadings`). For all hyphen-free values the exact
  exceptions are proved (`ProxyUsername.SessionRoundTrip`, `BrowserRoundTrip`,
  `NoBrowserRoundTrip`). With the ids in use (32 hexadecimal digits for a session
  or a trace, 16 for a span, an integer for a browser) the round trip holds for
  every id if and only if the base user followed by a hyphen contains no marker
  (`ProxyUsername.SafeBaseUsers`). After another base user a browser segment is
  found even if none was sent, with one exception
  (`ProxyUsername.BrowserInBaseUser`).
- `readHead` limits the bytes that hold no complete head, not the head. Under a
  given chunking a head is read if and only if no chunk before its end leaves
  more than the limit (`HeadReader.ReadExactly`); so a head one byte over the
  limit is always read, and a longer one is not read under every chunking
  (`HeadReader.ChunkingIrrelevantExactly`).
- `flattenAllOf` is described as a change of form only, but it can change what a
  schema accepts. A keyword in the wrapper and the same keyword
  beside it, with another value, lose one of the two: of two types only one is
  still required (`SchemaClaims.ClashExample`). `additionalProperties` beside a
  wrapper sees the wrapper's properties only after flattening, so the result
  accepts more (`SchemaClaims.SiblingExample`); so do `additionalItems`, `then`
  and `else` with what they look at. A wrapped `$ref` makes the
  keywords it lands among void (`SchemaClaims.RefExample`). A wrapper inside
  `const` or other data is rewritten, so the value asked for is another one
  (`SchemaClaims.ConstExample`). For schemas that only put claims together the
  exact condition is proved (`SchemaClaims.MeaningKeptExactly`); for all others a
  sufficient one (`SchemaMeaning.FlattenKeepsMeaning`).
- The file cache does not read back every list it wrote: an entry with a newline
  and a list of one empty entry do not survive a restart
  (`FileCache.ReadAfterRestart`). A write that is rejected leaves the cache ahead
  of the file until the next `append` (`FileCache.NextAppendRepairs`).

## Model

| member | source | states |
|---|---|---|
| ServiceGraph.CycleSearch.Visit | src/container/container.ts:179-194 | on any graph the search ends; it either settles everything reachable and restores the path, or reports a walk that extends the path and repeats its last name |
| ServiceGraph.SettleOne | src/container/container.ts:185-193 | a name whose dependencies are settled lies on no cycle |
| ServiceGraph.ReportRefutes | src/container/container.ts:181-183 | a reported path is evidence of a cycle |
| ServiceGraph.FindMissing | src/container/container.ts:167-173 | it finds something exactly when the graph is not closed, and then the first missing dependency in registration order |
| ServiceGraph.FindCycle | src/container/container.ts:176-198 | clear exactly when the graph is acyclic |
| ServiceGraph.Validate | src/container/container.ts:163-201 | accepts exactly the closed and acyclic graphs; each kind of error has its genuine cause |
| ServiceResolution.Resolve | src/container/container.ts:109-138 | terminates on any graph, and leaves `resolving` and the registered names as on entry however it ends |
| ServiceResolution.RunUses | src/container/container.ts:126-137 | the same for a whole factory; what it is given is stated by the next two rows |
| ServiceResolution.ResolveExplained | src/container/container.ts:109-138 | every resolution is an exchange: each use of the factory is answered by what that service resolved to then and there, undefined for a failed `tryResolve`, and the result is what the factory builds from the answers, its own exception, or the failure of a service it needed |
| ServiceResolution.CachedIsGiven | src/container/container.ts:115-128 | for a singleton cached when the factory starts, the answer is the cached object |
| ServiceResolution.BuiltFromValues | src/container/container.ts:126-132 | an uncached service resolves to what its factory builds from those answers |
| ServiceResolution.ErrorsAreGenuine | src/container/container.ts:109-138 | a missing name is missing, a throwing factory throws, and a reported chain extends the path and closes |
| ServiceResolution.ResolveAdvances | src/container/container.ts:109-138 | a resolution only fills in missing singleton instances, never one under construction, and keeps each cached instance the one value built |
| ServiceResolution.SingletonsBuiltOnce | src/container/container.ts:46-138 | after any calls, a singleton has yielded at most one defined value since it was last registered or disposed of, and that is the cached one |
| ServiceResolution.SameInstanceEverAfter | src/container/container.ts:115-118 | once resolved, a singleton resolves to the same object after any calls that do not touch it, without building |
| ServiceResolution.UncachedIsBuilt | src/container/container.ts:64-84 | a transient service is built anew by every successful resolution |
| ServiceResolution.SingletonIsShared | src/container/container.ts:46-62 | after `registerSingleton`, whatever the name first resolves to it resolves to from then on |
| ServiceResolution.TransientIsBuilt | src/container/container.ts:68-84 | after `registerTransient`, every resolution is a build of the given factory |
| ServiceResolution.InstanceIsGiven | src/container/container.ts:90-103 | after `registerInstance`, the name resolves to the instance |
| ServiceResolution.DisposedIsBuilt | src/container/container.ts:222-227 | a disposed singleton is built by its next resolution, and nothing else changes |
| ServiceResolution.ClearedKnowsNothing | src/container/container.ts:213-216 | after `clear` no name resolves |
| ServiceResolution.SettledResolves | src/container/container.ts:109-138 | within any closed and acyclic part of the names, whatever else is registered, resolving never fails as missing or circular |
| ServiceResolution.ValidatedResolves | src/container/container.ts:109-201 | after a successful `validate`, a registered name never fails as missing or circular, for any mix of singleton, transient and cached services and any factories that stay within what they declare |
| ServiceResolution.SuccessSettles | src/container/container.ts:109-138 | a successful resolution proves everything it reached registered and free of cycles |
| ServiceResolution.ResolvesExactly | src/container/container.ts:109-138 | in a fresh container whose factories insist on what they declare, a service resolves if and only if it lies in a closed and acyclic part of the names, whether or not `validate` would accept |
| ServiceResolution.ValidateIsExact | src/container/container.ts:109-201 | so every service resolves if and only if `validate` would accept |
| ServiceContainers.ServiceContainer.RegisterSingleton | src/container/container.ts:46-62 | the class refines the specification state |
| ServiceContainers.ServiceContainer.RegisterTransient | src/container/container.ts:68-84 | the class refines the specification state |
| ServiceContainers.ServiceContainer.RegisterInstance | src/container/container.ts:90-103 | the class refines the specification state |
| ServiceContainers.ServiceContainer.Resolve | src/container/container.ts:109-138 | result and state are those of the specification and are explained by the exchange with the factory; in an accepted container only a throwing factory makes it fail |
| ServiceContainers.ServiceContainer.TryResolve | src/container/container.ts:143-149 | every failure reads as undefined, with the same state change |
| ServiceContainers.ServiceContainer.Clear | src/container/container.ts:213-216 | the class refines the specification state |
| ServiceContainers.ServiceContainer.DisposeInstance | src/container/container.ts:222-227 | the class refines the specification state |
| ServiceContainers.ServiceContainer.Validate | src/container/container.ts:163-201 | exact on the container's own graph |
| ServiceContainers.CreateContainer | src/container/bootstrap.ts:63-163 | every service of the server is an accepted, unbuilt singleton, and each factory needs just what it declares, in order, and builds from that, unless it is overridden |
| ServiceContainers.BrowserlessValidates | src/container/bootstrap.ts:63-163 | the server's dependency graph is closed and acyclic |
| ProxyUsername.SegmentValueLoop | src/scraping/egress-proxy-shim.ts:203-209 | the three cuts, one after the other |
| ProxyUsername.AppendToken | src/scraping/egress-proxy-shim.ts:219-226 | one more hyphenated token introduces a marker exactly when it is the marker's key |
| ProxyUsername.ValueBeforeTail | src/scraping/egress-proxy-shim.ts:203-209 | a value in front of trace and span is recovered exactly when the trace id is not misread |
| ProxyUsername.SessionRoundTrip | src/scraping/proxy-config.ts:94-124 | for a base user without a session marker, the session id comes back in exactly the stated combinations |
| ProxyUsername.BrowserRoundTrip | src/scraping/egress-proxy-shim.ts:234-241 | the same for any hyphen-free browser id |
| ProxyUsername.NoBrowserRoundTrip | src/scraping/egress-proxy-shim.ts:234-241 | without a browser segment none is found, in exactly the stated combinations |
| ProxyUsername.TraceRoundTrip | src/scraping/proxy-config.ts:117-121 | the trace id follows its marker, unless the session or browser id is the key |
| ProxyUsername.SpanRoundTrip | src/scraping/proxy-config.ts:117-121 | so does the span id, which is sent only with a trace id |
| ProxyUsername.TraceIdsComeBack | src/scraping/proxy-config.ts:117-121 | and both always do for the ids in use |
| ProxyUsername.UsernameIs | src/scraping/proxy-config.ts:94-124 | the printed grammar in each combination of absent values |
| ProxyUsername.SegmentValueIs | src/scraping/egress-proxy-shim.ts:203-209 | a value holds none of the three markers and ends where one begins or where the text ends |
| ProxyUsername.EarlyMarker | src/scraping/egress-proxy-shim.ts:219-226 | what is read from a marker inside the base user is a prefix of text that does not depend on the ids |
| ProxyUsername.SafeBaseUsers | src/scraping/proxy-config.ts:94-124 | every id of the form in use comes back if and only if the base user followed by a hyphen contains no marker; when no browser id is sent, exactly when none is found |
| ProxyUsername.UnsafeForSession | src/scraping/egress-proxy-shim.ts:219-226 | after any other base user, of two session ids of 32 digits one is misread |
| ProxyUsername.UnsafeForBrowser | src/scraping/egress-proxy-shim.ts:234-241 | and of two browser ids |
| ProxyUsername.BrowserInBaseUser | src/scraping/egress-proxy-shim.ts:203-241 | after a base user with a browser marker, a browser segment is found whatever is sent, unless another marker follows at once and cuts its value to nothing |
| ProxyUsername.BaseUserMisread | src/scraping/egress-proxy-shim.ts:219-241 | after a base user that ends in the key, every value read starts in the session segment's own key |
| ProxyUsername.Misreadings | src/scraping/egress-proxy-shim.ts:219-241 | six hyphen-free inputs that are misread |
| ProxyAuthHeader.DecodesUser | src/scraping/egress-proxy-shim.ts:189-200 | decoding the Basic header of a colon-free user gives the user back |
| ProxyAuthHeader.DecodesAnySpelling | src/scraping/egress-proxy-shim.ts:189-200 | so does any spelling of the scheme and any spacing |
| ProxyAuthHeader.NothingWithoutBasic | src/scraping/egress-proxy-shim.ts:189-241 | without a Basic header neither parser finds anything |
| ProxyAuthHeader.HeaderRoundTrip | src/scraping/proxy-config.ts:94-124 | through the header, for any hyphen-free and colon-free values, both parsers return what the username was printed from in exactly the stated combinations |
| ProxyAuthHeader.IdsComeBack | src/scraping/proxy-config.ts:94-124 | and so always for the ids in use |
| CaptureStore.CaptureMap.StoreInto | src/scraping/egress-proxy-shim.ts:143-151 | the map is always the most recently stored distinct keys of the whole log, at most the cap |
| CaptureStore.CaptureMap.Get | src/scraping/egress-proxy-shim.ts:172-184 | the map answers as the unbounded last-write-wins log does for the keys among the most recent, and null for all others |
| CaptureStore.StoredKeepsSuffix | src/scraping/egress-proxy-shim.ts:143-151 | evicting the oldest entry commutes with cutting the unbounded order |
| CaptureStore.RecencyPosition | src/scraping/egress-proxy-shim.ts:144-146 | a key's place in the order counts the distinct keys stored since |
| CaptureStore.SuffixRecalls | src/scraping/egress-proxy-shim.ts:143-184 | a key is in the bounded map if and only if fewer than the cap of other keys were stored since |
| CaptureStore.EgressShim.OnRelayHead | src/scraping/egress-proxy-shim.ts:398-406 | a status of 200 to 299 and any field in the head store the identity under each key that is there, and nothing else does |
| CaptureStore.EgressShim.Lookup | src/scraping/ahrefs-session.ts:1180-1181 | what the session key recalls, and only if that is nothing what the browser key recalls |
| CaptureStore.CapturedTokenWins | src/scraping/ahrefs-session.ts:1180-1181 | what was captured last under a token is found under it whatever the browser, until the cap of other tokens is captured since |
| CaptureStore.RotationKeepsProvenance | src/scraping/ahrefs-session.ts:1180-1181 | a captured browser is found under any token until the cap of other browsers is captured since |
| HeadReader.Reader.OnData | src/scraping/egress-proxy-shim.ts:312-322 | the reader's state follows the chunk-by-chunk specification, and head and leftover are all bytes received |
| HeadReader.Reader.OnEof | src/scraping/egress-proxy-shim.ts:323-326 | end of input settles the read as failed |
| HeadReader.AnyChunkingFindsHead | src/scraping/egress-proxy-shim.ts:299-332 | within the limit, every chunking yields the prefix up to the first terminator and loses no byte |
| HeadReader.AnyChunkingWithoutHead | src/scraping/egress-proxy-shim.ts:318-321 | without a terminator the outcome depends on the length alone |
| HeadReader.ReadExactly | src/scraping/egress-proxy-shim.ts:299-332 | for each chunking, a head is read, and no byte lost, if and only if whenever it is incomplete after a chunk the bytes so far are within the limit |
| HeadReader.ChunkingIrrelevantExactly | src/scraping/egress-proxy-shim.ts:299-332 | a head is read under every chunking if and only if it ends at most one byte past the limit |
| FetchInterception.Interception.HandleDocument | src/scraping/ahrefs-cdp.ts:247-347 | what each branch changes: flag, counters, log, timer, settlement and answer |
| FetchInterception.Interception.OnPaused | src/scraping/ahrefs-cdp.ts:234-448 | every field stays the stated function of the event history; the command, flag, outcome, timer, counters and log entry are given by the pause and the flags |
| FetchInterception.Interception.OnAck | src/scraping/ahrefs-cdp.ts:266-279 | the first settlement resolves if the fulfil command succeeded and rejects if it failed; no timer is left |
| FetchInterception.Interception.OnTimer | src/scraping/ahrefs-cdp.ts:458-465 | the first settlement is a time-out with the three counters |
| FetchInterception.Interception.Cleanup | src/scraping/ahrefs-cdp.ts:520-527 | no timer is left |
| FetchInterception.ExactlyOneTimer | src/scraping/ahrefs-cdp.ts:291-304 | never two timers, and exactly one while unsettled and not cleaned up |
| FetchInterception.UnsettledIsTimed | src/scraping/ahrefs-cdp.ts:458-465 | over any history, an undecided wait is timed |
| FetchInterception.OutcomeIsFirst | src/scraping/ahrefs-cdp.ts:251-331 | the outcome is the verdict of the first decisive event of the run |
| FetchInterception.OutcomeExplained | src/scraping/ahrefs-cdp.ts:247-465 | in any state there is an outcome exactly if an acknowledgement, a time-out or a refusal before anything was served occurred, and the first such event says which |
| FetchInterception.DecisiveDecides | src/scraping/ahrefs-cdp.ts:247-465 | what each deciding event leads to, with the counters as numbers of pauses |
| FetchInterception.OutcomeIsFinal | src/scraping/ahrefs-cdp.ts:266-279 | no later event changes it |
| FetchInterception.OneAnswerEach | src/scraping/ahrefs-cdp.ts:234-448 | each paused request gets exactly one answering command, in order |
| FetchInterception.FulfilledOnce | src/scraping/ahrefs-cdp.ts:251-280 | the fulfil command is sent at most once, and exactly when some pause qualified |
| FetchInterception.LogAddsResponse | src/scraping/ahrefs-cdp.ts:252-342 | the log keeps one entry for each document response with the right action and number |
| FetchInterception.LogAddsRequest | src/scraping/ahrefs-cdp.ts:412-419 | and one more, numbered 0, for a fulfilment at the request stage |
| FetchInterception.DocumentsAreNumbered | src/scraping/ahrefs-cdp.ts:249-341 | the document entries are numbered 1, 2, ..., n |
| CdpProxy.Proxy.OnClientMessage | src/cdp-proxy.ts:308-485 | which frames are answered, delayed, held for `onBeforeClose` or for the tab count, rejected at the tab limit, passed on or dropped, from the fields of the proxy |
| CdpProxy.Proxy.DispatchFrame | src/cdp-proxy.ts:308-485 | the branches of the listener compute the dispatch function |
| CdpProxy.Proxy.DispatchIs | src/cdp-proxy.ts:308-485 | what that function gives for each kind of frame |
| CdpProxy.LeadsTransitive | src/cdp-proxy.ts:994-1062 | every step leads on, so between any two moments of a run nothing is undone, a decided frame stays decided, and nothing is forwarded once a close has begun |
| CdpProxy.Proxy.OnDelayOver | src/cdp-proxy.ts:378-389 | a delayed `Page.close` is forwarded once, and not after closing began |
| CdpProxy.Proxy.OnBeforeCloseDone | src/cdp-proxy.ts:542-567 | `Browser.close` is answered before it is passed on |
| CdpProxy.Proxy.OnReplySent | src/cdp-proxy.ts:564-570 | it is passed on once, only after its response, and not after closing began |
| CdpProxy.Proxy.OnTabCount | src/cdp-proxy.ts:624-653 | a deferred `Target.createTarget` is rejected or forwarded, never both |
| CdpProxy.Proxy.SendToBrowser | src/cdp-proxy.ts:995-1005 | nothing is sent once closing has begun |
| CdpProxy.FateAdded | src/cdp-proxy.ts:308-485 | forwarded and answered frames stay without repetition and disjoint as frames arrive |
| CdpProxy.FateChanged | src/cdp-proxy.ts:542-653 | and as deferred frames are decided, `Browser.close` being the only one both answered and forwarded |
| CdpProxy.Proxy.HandleClose | src/cdp-proxy.ts:1019-1041 | a call that passes the guard adds a close chain with what it saw of the client socket; there is never a second one |
| CdpProxy.Proxy.CloseScope | src/cdp-proxy.ts:164-193 | for the chain that waits for it: the first scope close runs the finalizers, both sockets are gone and delayed frames interrupted; a later one would do nothing |
| CdpProxy.Proxy.AfterScopeClose | src/cdp-proxy.ts:1042-1053 | the callbacks of one chain after its scope close |
| CdpProxy.CloseProtocol | src/cdp-proxy.ts:1019-1062 | under any interleaving at most one close chain is ever started, so `onBeforeClose` and `onClose` run at most once, `onClose` right after the finalizers, and once the chain has finished it has run |
| CdpProxy.StepsOnce | src/cdp-proxy.ts:1034-1053 | the order of the close steps in every case |
| StickyToken.SessionTokenHolder.RecordServe | src/scraping/session-token-holder.ts:68-70 | one serve more on the current token |
| StickyToken.SessionTokenHolder.Observe | src/scraping/session-token-holder.ts:91-96 | a fresh token and a zero count exactly on a block, for each kind of error; nothing otherwise |
| StickyToken.AhrefsSessionManager.OnAttemptDone | src/scraping/ahrefs-session.ts:705-758 | a rotation exactly on a block, after a first attempt only if that failed, and then a retry; under any interleaving the counts read at rotations and the current count add up to the finished attempts, one reading for each rotation, each at least 1 |
| StickyToken.AhrefsSessionManager.OnAttemptAborted | src/scraping/ahrefs-session.ts:705-707 | an aborted attempt is no serve |
| StickyToken.AttemptIsWellRun | src/scraping/ahrefs-session.ts:703-773 | every call stays within its budget as it proceeds |
| StickyToken.ScrapeBudget | src/scraping/ahrefs-session.ts:703-773 | at most two attempts and two rotations, and a second attempt exactly after a block |
| LanRelayHealth.Monitor.RunProbeTick | src/scraping/lan-relay-health.ts:178-200 | the verdict is the value of the latest run of K equal probes, the counter the trailing disagreeing run, and n probes flip at most n/K times |
| LanRelayHealth.VerdictKept | src/scraping/lan-relay-health.ts:181-189 | fewer than K disagreeing probes do not change the latest run |
| LanRelayHealth.VerdictIsUnique | src/scraping/lan-relay-health.ts:178-200 | the probe history determines the verdict |
| LanRelayHealth.Monitor.RelayPathNow | src/scraping/lan-relay-health.ts:119-131 | with both relays configured the LAN is left exactly when the latest run is unhealthy |
| ReplayPipeline.TabConsumer.Flush | src/session/replay-pipeline.ts:40-81 | one writer call with all that is accumulated, whether or not it fails |
| ReplayPipeline.TabConsumer.OnEvent | src/session/replay-pipeline.ts:84-93 | nothing is lost or reordered, and every write so far is full |
| ReplayPipeline.TabConsumer.Finish | src/session/replay-pipeline.ts:95-96 | the last batch may be partial |
| ReplayPipeline.TabConsumer.Run | src/session/replay-pipeline.ts:84-114 | for any events and failures the batches concatenate to the input, all but the last are full, ceil(n/size) writes of which only the first creates, and both totals are n |
| SchemaFlatten.FlattenAllOf | scripts/generate-cf-snapshot-schema.ts:55-74 | the loops compute the specification function |
| SchemaFlatten.NoSingleAllOf | scripts/generate-cf-snapshot-schema.ts:61-68 | no object anywhere in the result has an `allOf` array of one object or array |
| SchemaFlatten.SingleAllOfIsOpened | scripts/generate-cf-snapshot-schema.ts:61-68 | one object in an `allOf` takes its place |
| SchemaFlatten.SingleArrayIsOpened | scripts/generate-cf-snapshot-schema.ts:61-68 | one array in an `allOf` leaves its flattened elements under their indices |
| SchemaFlatten.OthersStayClosed | scripts/generate-cf-snapshot-schema.ts:61-71 | an `allOf` of none or several, or of what is no object, and every other key stays, with its value flattened |
| SchemaFlatten.EntryByEntry | scripts/generate-cf-snapshot-schema.ts:59-73 | an object is flattened entry by entry, later entries deciding on a shared key |
| SchemaFlatten.SetKeepsPlaces | scripts/generate-cf-snapshot-schema.ts:68-70 | setting a key moves no other and keeps its own place |
| SchemaFlatten.FlattenLeavesNoWrapper | scripts/generate-cf-snapshot-schema.ts:61-68 | no `allOf` with a single object element is left anywhere, for any input |
| SchemaFlatten.FlattenWellFormed | scripts/generate-cf-snapshot-schema.ts:59-73 | keys stay distinct in every object |
| SchemaFlatten.FlattenIdempotent | scripts/generate-cf-snapshot-schema.ts:55-74 | flattening twice is flattening once, for any input |
| SchemaFlatten.FlattenedEntries | scripts/generate-cf-snapshot-schema.ts:59-73 | the result consists of the entries that stay when wrappers of any depth are opened, the last one of each key, flattened |
| SchemaMeaning.SpreadMeaning | scripts/generate-cf-snapshot-schema.ts:46-54 | opening wrappers keeps the meaning of all entries, if each keyword sees the same beside it as before |
| SchemaMeaning.FlattenKeepsMeaning | scripts/generate-cf-snapshot-schema.ts:46-74 | under any draft-07 keywords, a schema in which opened wrappers set no key to two values, change nothing that a keyword sees beside it, and data holds no wrapper, accepts the same instances |
| SchemaClaims.SaidHolds | scripts/generate-cf-snapshot-schema.ts:46-54 | an accepted instance satisfies whatever the schema says of each of its places |
| SchemaClaims.FailsSomewhere | scripts/generate-cf-snapshot-schema.ts:46-54 | and one that is not accepted fails something that is said of it |
| SchemaClaims.DemandIsVisible | scripts/generate-cf-snapshot-schema.ts:46-54 | what a schema demands of a place shows in whether it accepts the smallest instance that has it |
| SchemaClaims.FlattenSays | scripts/generate-cf-snapshot-schema.ts:59-73 | the flattened schema says of each place what is left of the schema when its wrappers are opened |
| SchemaClaims.MeaningKeptExactly | scripts/generate-cf-snapshot-schema.ts:46-74 | through `allOf`, `properties`, `patternProperties`, `additionalProperties`, `items` and `additionalItems`, beside `$ref` and with data of any kind, meaning is kept whatever the data keywords mean if and only if opening the wrappers loses and adds no demand on any place |
| SchemaClaims.ChangeIsVisible | scripts/generate-cf-snapshot-schema.ts:61-70 | a demand that is lost or added, a concrete instance can tell |
| SchemaClaims.DataKeptExactly | scripts/generate-cf-snapshot-schema.ts:46-74 | for data keywords in wrappers of any depth, if and only if no key is set to two values and no value is rewritten |
| SchemaClaims.AnyOfHidesLoss | scripts/generate-cf-snapshot-schema.ts:46-74 | under `anyOf`, a clash may change nothing |
| SchemaClaims.ClashExample | scripts/generate-cf-snapshot-schema.ts:68-70 | under the standard meaning of `type`, a concrete schema rejects 5 and its flattened form accepts it |
| SchemaClaims.SiblingExample | scripts/generate-cf-snapshot-schema.ts:61-70 | without any clash, `additionalProperties` forbids a member before flattening and not after |
| SchemaClaims.RefExample | scripts/generate-cf-snapshot-schema.ts:61-70 | `type` counts beside a wrapped `$ref` before flattening and not after |
| SchemaClaims.ConstExample | scripts/generate-cf-snapshot-schema.ts:59-70 | the one value that `const` accepts is rejected after flattening |
| FileCache.FileSystem.Read | src/file-system.ts:43-57 | the cached array itself, or a new one with the decoded lines of the file |
| FileCache.FileSystem.Append | src/file-system.ts:23-34 | the entry is pushed in place, other paths keep their lists, and the file holds the joined list, encrypted exactly if asked for, unless the write is rejected |
| FileCache.NextAppendRepairs | src/file-system.ts:23-34 | after a rejected write, the next append writes both entries |
| FileCache.JoinSnoc | src/file-system.ts:30-31 | one more entry is one more line |
| FileCache.SplitJoin | src/file-system.ts:52 | splitting undoes joining for entries without newlines |
| FileCache.LinesOfJoin | src/file-system.ts:29-52 | a list survives the text form if and only if no entry has a newline and it is not one empty entry |
| FileCache.ReadAfterRestart | src/file-system.ts:23-57 | a new file system reads back an appended list under exactly that condition, encrypted or not |
| CfBridge.Bridge.Emit | src/browser/cf-bridge.ts:38-58 | attempted then pending is what was emitted, in order, and polling runs exactly while something is pending |
| CfBridge.Bridge.FlushPending | src/browser/cf-bridge.ts:26-36 | everything pending is handed over in order |
| CfBridge.Bridge.OnTick | src/browser/cf-bridge.ts:48-50 | a tick flushes exactly when the binding is there |
| CfBridge.NothingLostExactly | src/browser/cf-bridge.ts:26-58 | in any state of the bridge, delivered then pending is what was emitted if and only if no call of the binding threw |

## Left out

- ServiceResolution.ValidateIsExact: the converse needs factories that insist on all they declare; a factory that declares more than it uses is accepted or refused by its declaration alone, which `ValidatedResolves` covers.
- A factory that registers services itself, or asks for services without end.
- Child containers, `has`, `getServiceNames` and the overwrite warnings.
- Base64, text encoding and AES arithmetic: parameters assumed to be inverse to each other; percent-decoding of the proxy URL's user.
- ProxyUsername.SegmentValueLoop: values that contain hyphens themselves have no round-trip statement, since none is promised for them.
- ProxyAuthHeader.HeaderRoundTrip: a base user with a colon is excluded, as section 2 of RFC 7617 excludes it from Basic credentials.
- `parseConnectResponseHead`: the identity of a CONNECT is a parameter.
- Relay sockets, the connect timeout and the splicing of the tunnel.
- `Fetch.authRequired`, the page markers sent alongside, and the failure logging of CDP sends; URLs and headers enter as the tests the handler makes on them.
- CdpProxy.Proxy.OnClientMessage: callbacks and decoders are assumed not to throw, and a `close()` before `connect()` is not modelled.
- The client-bound queue, browser-to-client traffic, heartbeat timing and isolated connections of the CDP proxy: a failed heartbeat is one more caller of `HandleClose`.
- The browser pool, tab accounting and the inside of a scrape attempt; the histogram is the list of counts read, not the metric.
- StickyToken.SessionTokenHolder.Observe: that a rotation ends the very token that was blocked is not claimed; another scrape may have rotated it already, and `observe` does not compare tokens.
- The roster probe itself: a tick is given its verdict.
- Replay metadata other than the event count, spans and log lines; writer errors other than the caught one.
- `inlineRefs`; the reordering of integer-like keys and the special `__proto__` key of JavaScript objects.
- SchemaMeaning.FlattenKeepsMeaning: the condition is sufficient, not necessary: under `anyOf`, `oneOf`, `not` and conditions a clash may change nothing (`SchemaClaims.AnyOfHidesLoss`).
- SchemaClaims.MeaningKeptExactly: schemas with `anyOf`, `oneOf`, `not`, `if`, `contains`, `propertyNames`, `dependencies` or `definitions` are left to `FlattenKeepsMeaning`.
- What a `$ref` refers to: it is read as data, with a meaning of its own that flattening does not touch.
- FileCache.FileSystem.Read: each path is read and appended to with one setting of the encoding flag.
- Concurrent `append` calls on one path: calls are taken one after the other. Callers that push onto the array `read` returned are not modelled.
- Reentrant calls of the page binding.
