# Verified model of the dck container engine

dck runs Linux containers from one binary: it extracts images, starts and supervises containers, gives
them networks, orders them for `up`, serves an HTTP API, and schedules service replicas and functions over
a cluster. This project models the parts of it in which state, loops or arithmetic carry the guarantees, and
proves those guarantees for every input, every run and every outcome of the effects the code cannot control
(processes, mounts, pipes, HTTP calls, clocks). Such effects are parameters: a clock reading is a number, a
start or a removal is an outcome, a context is cancelled or not.

`dafny verify dfyconfig.toml` checks everything.

| file | what it models |
|---|---|
| resolver.dfy | the rooted pathname walk over filesystems with symlink cycles |
| supervision.dfy, restart_budget.dfy, supervisor.dfy | the restart supervisor, the crash-loop guard and the container transitions they drive; whole-run guarantees; the loops of a poll |
| service_order.dfy | dependency closure and start order of `up` |
| subnets.dfy, networks.dfy | CIDR masks, the network registry and address allocation |
| rate_limiter.dfy | the token bucket per client and its eviction |
| handshake.dfy, trimming.dfy | `start` and container init around the network setup |
| rollout.dfy, reconcile.dfy, cluster.dfy | rolling updates and reconciliation of service replicas |
| faas.dfy | scaling of functions with rollback |
| dns.dfy, dns_response.dfy | service discovery over DNS, with a decoder for RFC 1035 messages |
| volume_specs.dfy | printing, listing and parsing of volume specifications |
| tokenizer.dfy | the quote-aware splitter |
| tail.dfy, splitting.dfy | the backwards log reader; splitting and joining of text |
| wrappers.dfy | values that may be missing, answers that may be errors |
| archive_names.dfy, backup.dfy, archives.dfy | names and places in backup archives; walking and extracting trees; which archives are accepted |
| restore.dfy, backup_restore.dfy | applying staged trees; backup and restore end to end |

A loop or a mutating method of the program is a method here, proved against a function that says what it
computes; the theorems are lemmas about those functions, with every induction written out. The supervisor, the container, the network
store, the limiter, the cluster and the function scheduler are classes with the fields they have in the program.

What the proofs found out about the program, beyond what it promises:

- The supervisor paces restarts within one process. A relaunched supervisor adopts containers before it polls
  for exits, so it can restart a container sooner than its delay, exactly when the state file does not know of
  the last attempt yet (`Supervision.RelaunchIsPacedIff`, `Supervision.RelaunchCanBreakPacing`).
- `logs --tail` loses an empty line that begins the file or begins a chunk of 4096 bytes counted from its end,
  and nothing else (`LogTail.TailIsLastLines`).
- A DNS query that carries a record after its question, as EDNS clients send, gets a response in which that
  record stands before the answers and the last address is lost (`DnsResponse.EdnsLosesAnAddress`,
  `DnsResponse.AnswersNeedNothingElse`); an invalid address is left out of the answers but counted, and an IPv6
  address makes the program panic (`DnsResponse.ResponseIsRightIff`, `DnsResponse.BuildDNSResponse`).
- A volume list loses a mount whose source begins with `size=`, `mode=`, `nfsopts=`, `rsize=` or `wsize=`
  unless it is the first (`VolumeSpecs.ListRoundTrip`).
- A named volume mounted twice, nested bind targets, bind targets `/` and `/root` together, or a backslash in the name
  of any file make a backup that cannot be extracted as it was (`Archives.RebuildsIff`, `ArchiveNames.PartsNest`); a bind
  mount of a single file is archived but can never be restored (`Restore.SingleFileIsNeverRestored`).
- A mount without a source, as every tmpfs is, is taken for the directory of all volumes of the archive. As soon as one
  named volume is archived, restoring writes a copy of all archived volumes into a directory of that mount
  (`BackupRestore.EmptySourceStraysIff`, `BackupRestore.TmpfsTakesVolumes`), and no later backup of the container can be
  extracted (`BackupRestore.NextBackupIsRefused`).
- The comment at cmd/backup.go:859-863 promises that only entries in three namespaces are accepted. The namespace is
  read off the name as it stands, and the entry is put at the cleaned name: `data/../evil` is accepted and put outside all
  three (`ArchiveNames.StagedInNamespaceIff`, `ArchiveNames.NamespaceCanBeLeft`). It never leaves the staging directory
  (`ArchiveNames.SafeIff`).
- An exit that the supervisor learns of by reaping its own child is handled once more by the poll that follows
  (`RestartBudget.ReapedIsHandledTwice`).
- Dropping the backslash of an escaped quote can change how the tokens split again, exactly when a token is not made of
  bare words and quoted texts any more (`Tokenizer.StableIff`, `Tokenizer.EscapedQuoteIsNotStable`).

## Model

| member | source | states |
|---|---|---|
| `PathResolver.EvaluateSafePath` | internal/overlayutil/util.go:212-274 | The loop with its pending list, current path and link counter: it terminates on every filesystem, answers as the recursive resolver within 255 links does, and what it accepts is at or below the root with no symlink below the root |
| `PathResolver.WalkFollowsDerivation` | internal/overlayutil/util.go:243-271 | Splicing a link target into the pending components does what resolving the target completely first would do |
| `PathResolver.WalkBuildsDerivation` | internal/overlayutil/util.go:212-274 | Every accepting walk is a successful recursive resolution with the same end and the same number of links |
| `PathResolver.EvaluateIsAccepts` | internal/overlayutil/util.go:212-274 | Accepted if and only if a recursive rooted resolver succeeds following at most 255 links |
| `PathResolver.DerivationIsUnique` | internal/overlayutil/util.go:212-274 | The recursive resolution of a path is unique, so the link count belongs to the path |
| `PathResolver.LongChainsAreTooManyLinks` | internal/overlayutil/util.go:254-257 | A path that resolves, but through more than 255 links, is refused as having too many links |
| `PathResolver.SelfLinkNeverResolves` | internal/overlayutil/util.go:243-271 | A link to itself has no recursive resolution of any size |
| `PathResolver.EvalStaysContained` | internal/overlayutil/util.go:225-271 | The recursive resolver never leaves the root and never ends below a symlink |
| `PathResolver.EvaluateIgnoresNewDirectories` | internal/overlayutil/util.go:243-252 | Creating directories at missing paths changes no answer |
| `PathResolver.SplitPartsRoundTrip` | internal/overlayutil/util.go:276-278 | Splitting a printed absolute path gives its components back |
| `Supervision.UserStopIsFinal` | internal/container/stop.go:42-113 | After a stop command marked a container as stopped by the user, no step of any run starts it, and no process of it appears, until a start-type command |
| `Supervision.StoppedRunStays` | cmd/supervisor.go:153-228 | A container stopped by the user stays so in every run without start-type commands |
| `Supervision.StartsArePaced` | cmd/supervisor.go:153-226 | Without user commands consecutive supervised start attempts, successful or failed, are at least the restart delay apart, from any starting state and across any number of supervisor processes that come at safe moments |
| `Supervision.SupervisedStartsArePaced` | cmd/supervisor.go:176-226 | In particular within one supervisor process, always |
| `Supervision.RelaunchIsPacedIff` | cmd/supervisor.go:153-185 | A relaunch keeps the pace behind an attempt, whatever it does first and whatever follows, if and only if the state file knows of the attempt (a later exit, or the process is still there), or the container is stopped by the user, blocked or removed, or the delay is over |
| `Supervision.FinalizeKeepsWaiting` | internal/container/start.go:692-727 | Exit detection puts the exit time on file, or leaves a container that really runs |
| `Supervision.ReapKeepsWaiting` | cmd/supervisor.go:127-151 | Reaping children, its own or those of other containers, puts the exit on file or leaves it to the next poll |
| `Supervision.AdoptKeepsWaiting` | cmd/supervisor.go:171-226 | Each of the three deadline paths (zero, recomputed from the last exit, set after a failed start) enforces the delay |
| `Supervision.LaunchPacesFromLastExit` | cmd/supervisor.go:153-185 | A new supervisor process starts a container at once exactly when its last exit on file is missing or at least the delay ago, and otherwise leaves the deadline counted from that exit |
| `Supervision.RelaunchCanBreakPacing` | cmd/supervisor.go:153-185 | So across a relaunch the pacing can fail: for every supervised configuration a run in which the relaunch itself starts the container too early |
| `Supervision.StaleDeadlineBreaksPacing` | cmd/supervisor.go:171-185 | And a run in which the relaunch starts nothing, but the next tick starts too early by the deadline of an older exit |
| `RestartBudget.AllowKeepsWindow` | internal/container/restart_guard.go:48-71 | The guard, granting or refusing, keeps the position of all grants relative to its window |
| `RestartBudget.GrantsAreSpread` | internal/container/restart_guard.go:48-71 | More than twice the maximum of grants in a row span more than the restart window, also across supervisor processes |
| `RestartBudget.StartsArePaidFor` | cmd/supervisor.go:199-226 | Every supervised start is paid for by a granted attempt of its own |
| `RestartBudget.StartsWithinBudget` | internal/container/restart_guard.go:48-71 | Without user commands any interval as long as the restart window contains at most twice the maximum of supervised starts |
| `RestartBudget.BlockedStaysBlocked` | internal/container/restart_guard.go:48-60 | A blocked container stays blocked and is granted nothing |
| `RestartBudget.LiveIsNeverFinalized` | cmd/supervisor.go:86-107 | The poll loop writes nothing for a live container, and records an exit exactly when it finalizes |
| `RestartBudget.FinalizedAtMostOnce` | cmd/supervisor.go:78-122 | Between two finalizations of a container by the poll loop lies a liveness observation, a start attempt, a removal or a new supervisor process |
| `RestartBudget.ReapedIsHandledTwice` | cmd/supervisor.go:124-151 | A reaped child puts the exit of its container on file at once, and the poll loop handles it again exactly if it has not noted an exit of that container already |
| `SupervisorProcess.ForEachIsPointwise` | cmd/supervisor.go:83-107 | A loop over all containers that touches one container a turn does to each of them what one turn does |
| `SupervisorProcess.Load` | internal/container/create.go:120-186 | A loaded container is the normalized file, and the file is normalized too |
| `SupervisorProcess.Container.AllowAutomaticRestart` | internal/container/restart_guard.go:48-71 | The guard fields change as the guard function says and are on file afterwards |
| `SupervisorProcess.Container.MarkStableIfNeeded` | internal/container/restart_guard.go:90-97 | The counters are reset exactly after a minute of running |
| `SupervisorProcess.Container.DoFinalizeStopped` | internal/container/start.go:692-727 | The file holds the stopped state without the stability reset, which comes after the save |
| `SupervisorProcess.Container.DoStart` | internal/container/start.go:40-56 | Only a successful start reaches the file, and a running container is refused |
| `SupervisorProcess.Container.DoStop` | internal/container/stop.go:42-113 | What the stop command leaves on file and in the process table, for every status and policy |
| `SupervisorProcess.Supervisor.FinalizeExitedContainers` | cmd/supervisor.go:78-122 | The whole exit-detection loop does to every container what one turn does, and keeps its bookkeeping within the listed containers |
| `SupervisorProcess.Supervisor.NoteDeadline` | cmd/supervisor.go:171-185 | The deadline that decides a turn, and its entry in the bookkeeping map |
| `SupervisorProcess.Supervisor.StartDue` | cmd/supervisor.go:196-226 | The guarded start: refused, abandoned, started or failed, with the new deadline of each case |
| `SupervisorProcess.Supervisor.AdoptEligibleContainers` | cmd/supervisor.go:153-228 | The whole adoption loop does to every container what one turn does |
| `SupervisorProcess.Supervisor.HandleExitedContainerProcess` | cmd/supervisor.go:138-151 | A reaped child is one step for every container: its own has the exit handled, all are loaded |
| `SupervisorProcess.Supervisor.ReapExitedContainers` | cmd/supervisor.go:127-136 | The reaping loop takes every container through one such step for each child |
| `SupervisorProcess.Supervisor.Poll` | cmd/supervisor.go:57-228 | One poll, however many children it reaps, takes every container through exactly the steps the whole-run theorems are about |
| `ServiceOrder.CollectDeps` | cmd/up.go:571-582 | The recursive collector ends on every graph, cyclic ones included; what it adds is reachable and closed under dependencies |
| `ServiceOrder.SelectNames` | cmd/up.go:500-513 | Without a filter every service, with one exactly its transitive dependency closure |
| `ServiceOrder.KahnQueue` | cmd/up.go:514-556 | The queue emits each name after its selected dependencies, always the least ready name, until none is ready |
| `ServiceOrder.KahnOrderIsUnique` | cmd/up.go:534-556 | That order does not depend on the iteration order of the maps |
| `ServiceOrder.PathDescends` | cmd/up.go:534-556 | Along every dependency path from an emitted name the places in the order strictly decrease |
| `ServiceOrder.StuckPath` | cmd/up.go:534-556 | From a name the queue never emits there are dependency paths of every length |
| `ServiceOrder.EmittedIffAcyclic` | cmd/up.go:534-556 | Emitted if and only if the name neither lies on nor depends on a cycle |
| `ServiceOrder.SortByDependencies` | cmd/up.go:500-569 | Each selected name exactly once: first the queue part, then exactly the names on or before a cycle |
| `Subnets.AndClearsLowBits` | internal/network/user_network.go:189-196 | Masking with a CIDR mask is rounding down to a multiple of the block size |
| `Subnets.ContainsIsRange` | internal/network/user_network.go:189-196 | The mask test of containment is membership in the address range |
| `Subnets.OverlapsIsIntersection` | internal/network/user_network.go:189-196 | The mask test for overlap is equivalent to the two ranges sharing an address |
| `Networks.NormalizedGateway` | internal/network/user_network.go:49-69 | Accepted exactly for IPv4 prefixes /16 to /29; then the block is masked, contains the typed address, and the gateway is its base plus one |
| `Networks.AllocationIsLeast` | internal/network/user_network.go:276-304 | The least free host is allocated, and it fails exactly when all 2^(32-p)-3 hosts are held |
| `Networks.CreateKeepsValid` | internal/network/user_network.go:130-168 | Creating a network keeps all subnets pairwise disjoint and disjoint from the built-in bridge |
| `Networks.StepKeepsValid` | internal/network/user_network.go:130-354 | Every operation of the registry keeps the invariant |
| `Networks.NoAddressHeldTwice` | internal/network/user_network.go:276-324 | After every run of all operations no address is held in two networks, and every held address lies strictly between gateway and broadcast address |
| `Networks.ReleaseUndoesAllocate` | internal/network/user_network.go:315-324 | Releasing an allocated address restores the registry |
| `Networks.AutomaticSubnetSucceedsIff` | internal/network/user_network.go:170-182 | The exact condition under which creating a network without a subnet succeeds |
| `Networks.NetworkStore.NextNetworkSubnet` | internal/network/user_network.go:170-182 | The loop finds the first free 10.0.x.0/24 |
| `Networks.NetworkStore.CreateNetwork` | internal/network/user_network.go:130-168 | Answer and registry afterwards, for every error |
| `Networks.NetworkStore.AllocateNetworkIP` | internal/network/user_network.go:276-304 | The scan allocates what the specification says and records it |
| `Networks.NetworkStore.ReleaseNetworkIP` | internal/network/user_network.go:315-324 | The address is free afterwards and nothing else changes |
| `Networks.NetworkStore.RemoveNetwork` | internal/network/user_network.go:335-354 | Refused while an address is held; otherwise only this network goes |
| `Networks.NetworkStore.AllocateIP` | internal/network/network.go:125-146 | The built-in pool is the /24 instance of the same allocation |
| `Networks.NetworkStore.ReleaseIP` | internal/network/network.go:148-154 | The built-in pool frees exactly this address |
| `RateLimiter.TokensStayInBounds` | internal/api/server.go:261-281 | In every run every bucket holds between 0 and 50 tokens |
| `RateLimiter.LevelIsExact` | internal/api/server.go:261-281 | Waiting refills at 25 a second up to 50, an admitted request takes one token, and nothing else changes a level; admitted exactly with a full token |
| `RateLimiter.RateBound` | internal/api/server.go:253-285 | After any past, any interval of T seconds admits at most 50 + 25 T requests of a client |
| `RateLimiter.ConformingIsNeverRefused` | internal/api/server.go:253-285 | A client none of whose stretches of requests exceeds that bound is never refused, whatever the others do |
| `RateLimiter.EvictionIsUnobservable` | internal/api/server.go:243-285 | With eviction passes anywhere, every request gets the answer of the limiter that never evicts |
| `RateLimiter.Limiter.PruneIdle` | internal/api/server.go:243-252 | Exactly the buckets idle for longer than the age are deleted |
| `RateLimiter.Limiter.ServeHTTP` | internal/api/server.go:253-285 | The handler answers as specified, and evicts only after an admitted request with more than 4096 clients |
| `Splitting.Split` | internal/container/logs.go:219-232 | The index loop of splitLines, and of split in internal/orchestrator/dns.go, cuts at every separator and drops an empty last piece |
| `LogTail.PartsAreKept` | internal/container/logs.go:191-208 | The pieces of one chunk are the lines between two chunk boundaries, but for an empty line at the boundary |
| `LogTail.ChunkStep` | internal/container/logs.go:191-208 | Reading one more chunk completes exactly the lines that end in it |
| `LogTail.PrintTail` | internal/container/logs.go:177-217 | For every file and every n the backwards reader prints the last n of the lines that survive the chunk boundaries |
| `LogTail.TailIsLastLines` | internal/container/logs.go:177-232 | These are the last n lines of the file for every n if and only if no empty line begins the file or a chunk counted from its end |
| `LogTail.TailOfIsLastLines` | internal/container/logs.go:177-232 | And for one given n if and only if nothing is lost, or all n lines stand behind the last lost one, or at least n lines survive and every line before the last lost one with fewer than n survivors behind it is empty |
| `LogTail.NoEmptyLines` | internal/container/logs.go:177-232 | In particular for every file without empty lines |
| `LogTail.WrittenLines` | internal/container/logs.go:219-232 | Writing the lines back gives the text, up to its final line break |
| `Handshake.ReadersUnderstand` | internal/container/start.go:227-262 | Each reader, trimming the first line it gets, recognises its own message and no other |
| `Handshake.GateAndCommitAreSafe` | internal/container/start.go:87-208 | In every run init passes the gate only after setup is finished and "go" is written, and Running is committed only after that, and after init was ready, when a network is needed, with the network still in place |
| `Handshake.NoExecAfterAbort` | internal/container/init.go:280-311 | After an abort, a crash or a closed pipe before "go", init never reaches exec in any continuation, even when the kill never arrives |
| `Handshake.GateOpensIff` | internal/container/init.go:280-311 | Before the gate, some continuation lets init pass if and only if init is alive and the parent has not refused |
| `Handshake.RunsAreFinite` | internal/container/start.go:87-208 | No run of the two processes has more than 17 steps |
| `Handshake.NeverStuck` | internal/container/start.go:227-250 | Neither process waits for ever on the other |
| `Handshake.InitFindsItsDescriptors` | internal/container/start.go:216-225 | Init finds exactly the two descriptors it was given, whatever was inherited, and every other variable unchanged |
| `RollingUpdate.OneInBounds` | internal/orchestrator/scheduler.go:339-367 | Within the turn of one replica the number of live containers stays in [N, N+1] for start-first and [N-1, N] otherwise, whatever fails |
| `RollingUpdate.UpdateKeepsServing` | internal/orchestrator/scheduler.go:329-378 | The same at every step of a whole update, failed or cancelled anywhere; and what was replaced before it stopped is exactly the replicas before that one |
| `RollingUpdate.CompletedUpdate` | internal/orchestrator/scheduler.go:329-391 | On success every original was replaced exactly once by a container of its own with the new image, and the numbers of containers and records are the same |
| `RollingUpdate.OneCompletes` | internal/orchestrator/scheduler.go:344-366 | Both orders complete in the same circumstances and leave the same state |
| `Orchestrator.Cluster.RollingUpdateService` | internal/orchestrator/scheduler.go:302-391 | The nested batch loops do what one replica after the other does: the parallelism and the waits do not show in the outcome; the service changes its image only on success |
| `Orchestrator.Cluster.UpdateBatch` | internal/orchestrator/scheduler.go:335-367 | One batch, from any point of an update |
| `Orchestrator.Cluster.ScheduleReplica` | internal/orchestrator/scheduler.go:402-430 | A placement records the container as running; a failed one may leave a container but no record |
| `Orchestrator.LastBatch` | internal/orchestrator/scheduler.go:368-375 | The wait is taken exactly between batches |
| `Reconcile.RecordsAreRunning` | internal/orchestrator/scheduler.go:329-430 | After every run of deployments, rolling updates, reconciliation passes and removals, failed or cancelled anywhere, every persisted record has status "running" |
| `Reconcile.ScaleUpCounts` | internal/orchestrator/service.go:318-327 | Scaling up adds at most the missing records, and exactly them when nothing fails |
| `Reconcile.ScaleDownCounts` | internal/orchestrator/service.go:329-348 | Scaling down removes at most the surplus, and exactly it when nothing fails |
| `Reconcile.ScaleDownDrops` | internal/orchestrator/service.go:329-348 | A record is gone exactly when its turn came before a cancellation and the removal worked |
| `Reconcile.NewestGoFirst` | internal/orchestrator/service.go:329-348 | No removed replica is older than one that stays, unless the removal of the latter failed; also when scaling down is cancelled half way |
| `Reconcile.PassConverges` | internal/orchestrator/service.go:293-316 | A pass never overshoots in either direction, and without errors ends with exactly the desired count, none for a negative one |
| `Reconcile.SecondPassDoesNothing` | internal/orchestrator/service.go:293-316 | After a pass without errors a second pass changes nothing |
| `Orchestrator.Cluster.ReconcileService` | internal/orchestrator/service.go:293-316 | The counting loop and the branch on it do one pass |
| `Orchestrator.Cluster.ReconcileScaleUp` | internal/orchestrator/service.go:318-327 | The loop goes on after a failed placement and ends at a cancellation |
| `Orchestrator.Cluster.ReconcileScaleDown` | internal/orchestrator/service.go:329-348 | The loop keeps the record of a failed removal and ends at a cancellation |
| `Functions.CountsAgree` | internal/orchestrator/faas.go:240-405 | The number of active containers stays that of the tracked ones over every scale-up, failed or not, and scale-down, cancelled or not |
| `Functions.FailedScaleUp` | internal/orchestrator/faas.go:266-365 | A failed or cancelled scale-up leaves tracked exactly the earlier containers, in order, and those of this call whose removal failed; no container it made is left untracked |
| `Functions.RollbackRestores` | internal/orchestrator/faas.go:327-365 | When every removal works a failed scale-up undoes itself |
| `Functions.ScaleDownLeaks` | internal/orchestrator/faas.go:381-405 | A completed scale-down forgets all, so a container stays behind exactly when its removal failed; a cancelled one changes neither list nor count |
| `Functions.Scheduler.RollbackFunctionContainers` | internal/orchestrator/faas.go:327-365 | The loops over identifiers, tracked list and failed set build exactly the earlier list followed by the failed removals |
| `Functions.Scheduler.CreateContainers` | internal/orchestrator/faas.go:264-320 | The creation loop counts and tracks each started container |
| `Functions.Scheduler.ScaleUpFunction` | internal/orchestrator/faas.go:240-325 | The whole scale-up with its rollback |
| `Functions.Scheduler.ScaleDownFunction` | internal/orchestrator/faas.go:381-405 | The whole scale-down |
| `Dns.ParseDNSName` | internal/orchestrator/dns.go:138-153 | The index loop reads labels up to a zero length, and gives nothing for one that runs past the end |
| `Dns.JoinLabels` | internal/orchestrator/dns.go:155-164 | Labels joined with dots |
| `Dns.ParsedIffEncoded` | internal/orchestrator/dns.go:138-153 | The labels found are exactly those whose encoding by section 3.1 of RFC 1035 stands there |
| `Dns.EncodedNameParses` | internal/orchestrator/dns.go:138-164 | An encoded query name, whatever follows it, parses to the dotted name |
| `Dns.SplitOfJoin` | internal/orchestrator/dns.go:155-192 | Splitting at dots undoes joining with dots |
| `Dns.ExtractServiceName` | internal/orchestrator/dns.go:166-173 | The first label, exactly when "svc.cluster.local" follows it |
| `Dns.ServiceIsRecovered` | internal/orchestrator/dns.go:138-192 | From the octets of the query to the service name |
| `DnsResponse.BuildDNSResponse` | internal/orchestrator/dns.go:194-256 | The writes through the moving offset stay within the buffer and produce the query with response bit and answer count, then 16 octets for each valid address; an IPv6 address, and nothing else, ends in a panic |
| `DnsResponse.ResponseIsUnique` | internal/orchestrator/dns.go:194-256 | That description leaves no octet open |
| `DnsResponse.WriteRecord` | internal/orchestrator/dns.go:221-250 | The octets of one answer record |
| `DnsResponse.ResponseDecodes` | internal/orchestrator/dns.go:194-256 | For a query of one question and nothing else, the response decodes by sections 4.1.1 to 4.1.4 of RFC 1035 if and only if every address is valid: to the same question, response bit, count and addresses in order |
| `DnsResponse.ResponseIsRightIff` | internal/orchestrator/dns.go:107-256 | For every query with a question: the response decodes to that if and only if the query is one question and nothing else, and every address is valid |
| `DnsResponse.ExpectedAddresses` | internal/orchestrator/dns.go:213-252 | The decoded answers are the addresses, in order |
| `DnsResponse.AnswersNeedNothingElse` | internal/orchestrator/dns.go:194-256 | With valid addresses, the answers read behind the question are the addresses, to the end of the packet, if and only if the query ends with its question |
| `DnsResponse.ExtraRecordComesFirst` | internal/orchestrator/dns.go:194-256 | A record behind the question is read in front of the answers, and the last address is lost for it; with one invalid address the count fits, with more nothing can be read |
| `DnsResponse.ExtraIsCopied` | internal/orchestrator/dns.go:194-211 | A record of the query with the root name, as EDNS has, stands in the response as it was |
| `DnsResponse.EdnsIsAccepted` | internal/orchestrator/dns.go:107-136 | The handler takes an EDNS query about every well-formed service name as one about that service |
| `DnsResponse.EdnsLosesAnAddress` | internal/orchestrator/dns.go:107-256 | Of the response to such a query the last address is lost; of a single address nothing is left |
| `VolumeSpecs.PrintMountSpec` | internal/api/containers.go:69-90 | The printer appends the options in their fixed order |
| `VolumeSpecs.ApplyOptionList` | internal/container/volumes.go:137-163 | The option loop applies the trimmed options one after the other |
| `VolumeSpecs.SplitVolumeSpecs` | internal/container/volume_list.go:9-30 | The token loop keeps options with the mount before them |
| `VolumeSpecs.OptionsAreRead` | internal/container/volumes.go:137-163 | Reading printed options sets exactly the fields they were printed from |
| `VolumeSpecs.SplitOptsReads` | internal/container/volumes.go:119-135 | Options are what follows the last colon, unless that holds a path separator |
| `VolumeSpecs.TmpfsIsRead` | internal/container/volumes.go:60-72 | A tmpfs specification is its target with its options applied |
| `VolumeSpecs.NfsIsRead` | internal/container/volumes.go:74-97 | An NFS specification gives server and share as source, the target, and its options over the NFS defaults |
| `VolumeSpecs.MountReadsBack` | internal/container/volumes.go:502-516 | Reading a printed mount gives it back, with the type taken from the source |
| `VolumeSpecs.MountRoundTrip` | internal/container/volumes.go:88-114 | So the same mount comes back exactly when its type agrees with its source |
| `VolumeSpecs.ListRoundTrip` | internal/container/volume_list.go:9-51 | Printed mounts joined with commas are split into the same specs exactly when no source after the first looks like an option |
| `VolumeSpecs.MountsRoundTrip` | internal/api/containers.go:69-90 | Printing, joining, splitting and parsing gives the same mounts in order |
| `Tokenizer.SplitSpaceRespectingQuotes` | internal/builder/parser.go:141-197 | The octet loop with its three flags |
| `Tokenizer.TokensAreBounded` | internal/builder/parser.go:141-197 | On all input tokens are not empty and together no longer than the input |
| `Tokenizer.ReplaysIffPieced` | internal/builder/parser.go:141-197 | A text is read back as one token, as it is, if and only if it is bare words and quoted texts in a row, double-quoted ones without a backslash, and at most the last quote is left open |
| `Tokenizer.StableIff` | internal/builder/parser.go:141-197 | Splitting the space-joined tokens of any text again gives the same tokens if and only if each token is of that form and all but the last end outside quotes |
| `Tokenizer.RetokenizingIsStable` | internal/builder/parser.go:141-197 | So for all input without an escaped quote or backslash |
| `Tokenizer.NoBackslashIsStable` | internal/builder/parser.go:141-197 | In particular for all input without backslashes |
| `Tokenizer.EscapedQuoteIsNotStable` | internal/builder/parser.go:161-168 | An input with an escaped quote for which it fails |
| `Tokenizer.WrittenTokensAreRead` | internal/builder/parser.go:141-197 | Tokens put together of bare words and quoted texts, with spaces and all, joined by spaces are read back as the same tokens |
| `Tokenizer.SplitShellWords` | internal/builder/parser.go:273-283 | Each token without a pair of equal quotes around it, in place |
| `Tokenizer.WordsAreBounded` | internal/builder/parser.go:273-283 | Words, too, are together no longer than the input |
| `ArchiveNames.SafeIff` | internal/container/backup_safe.go:12-21 | A name is safe if and only if it is relative, has no backslash, and counting its components never leads above the start nor back to it in the end |
| `ArchiveNames.StagedInNamespaceIff` | cmd/backup.go:864-874 | An accepted entry is put in the namespace its name begins with if and only if the component behind the last return to the start is that namespace |
| `ArchiveNames.NamespaceCanBeLeft` | cmd/backup.go:864-874 | Every plain path behind "data/.." is accepted and put outside "data" |
| `ArchiveNames.PlaceOfVolume` | cmd/backup.go:565 | A named volume is kept below "volumes"; one without a source, or ".", at "volumes" itself; ".." at the top |
| `ArchiveNames.PlaceOfBind` | cmd/backup.go:572-578 | A bind mount is kept below "binds" by its target; only a relative target that climbs leads outside, and it does |
| `ArchiveNames.PartsNest` | cmd/backup.go:552-578 | Two parts of a container are in each other's way exactly for the same named volume twice, a named volume beside one without a source, nested bind targets, "/" counting as "/root", or a volume named ".." |
| `Backup.MkdirAllMakes` | cmd/backup.go:883-887 | Making a directory with its parents fails exactly on a file on the way and adds exactly what is missing |
| `Backup.ExtractTree` | cmd/backup.go:869-938 | Placing the entries of a walked tree with plain names where nothing is yet gives exactly that tree and the directories above it |
| `Backup.NonNestedRebuilds` | cmd/backup.go:827-939 | Trees with plain names whose places are not nested are all rebuilt without an error |
| `Archives.ExtractIff` | cmd/backup.go:864-933 | Any sequence of entries is extracted if and only if all names are safe and no entry is put at or above an earlier one or below an earlier file; then the stage holds each entry, the directories above, and nothing else |
| `Archives.AcceptedIff` | cmd/backup.go:827-939 | An archive is accepted if and only if it has its metadata exactly once and its other entries are such a sequence |
| `Archives.ExtractBackupToStage` | cmd/backup.go:827-939 | The entry loop with its namespace, name, duplicate and metadata checks |
| `Archives.CreateContainerBackup` | cmd/backup.go:514-570 | The archive: metadata, then the walks of the sources that exist; refused if the root of the host is mounted |
| `Archives.NestedFails` | cmd/backup.go:875-882 | Of two trees with nested places at least one does not come back as it was |
| `Archives.RebuildsIff` | cmd/backup.go:580-939 | All trees are rebuilt if and only if no place is at or below another, all places are in the three namespaces, and no name has a backslash |
| `Archives.BackupRoundTrip` | cmd/backup.go:514-939 | The same for the archive of a container with its metadata entry, missing sources skipped |
| `Restore.ApplyBackupTree` | cmd/backup.go:960-1053 | The walk over the staged tree, entry by entry |
| `Restore.ApplyOverrides` | cmd/backup.go:960-1053 | Applying succeeds if and only if the destination is compatible, and then gives the destination overridden by the tree |
| `Restore.ApplyTouchesOnlyTheTree` | cmd/backup.go:960-1053 | Every other path is left unchanged |
| `Restore.ApplyIsIdempotent` | cmd/backup.go:960-1053 | Applying again changes nothing |
| `Restore.SingleFileIsNeverRestored` | cmd/backup.go:960-985 | A bind mount of a single file can never be restored |
| `Restore.RestoreIff` | cmd/backup.go:774-825 | Any trees at any destinations, nested or equal ones too, are all applied if and only if no path is wanted, or there, both as a directory and as a file; then every path holds what the last tree with it holds, or else what was there, and nothing else is new but directories on the way |
| `Restore.WinnerIsLast` | cmd/backup.go:803-824 | What the last tree holds is what a tree without a later one holds |
| `Restore.ApartAgreeIff` | cmd/backup.go:803-824 | Destinations that do not contain each other can all be served if and only if each can be served alone |
| `BackupRestore.RestoreContainerBackup` | cmd/backup.go:803-824 | The loop over the parts of the container applies each staged tree and skips a missing one |
| `BackupRestore.SameElsewhere` | cmd/backup.go:960-1053 | A tree is its content: two with the same content in the stage have the same content at any destination |
| `BackupRestore.ReadBack` | cmd/backup.go:969-985 | What is at and below any path of a file system is a tree that the walk can read |
| `BackupRestore.ArchiveStages` | cmd/backup.go:514-939 | The archive is accepted; the stage holds each archived tree in its place, and something in the place of a part that was not archived exactly if that place is on the way to, or in, a tree that was |
| `BackupRestore.RestoreFromArchive` | cmd/backup.go:774-825 | If there is no such part, whatever trees are read from the stage, restoring them succeeds in the same cases and with the same result as applying the archived trees themselves |
| `BackupRestore.RestoresAsArchivedIff` | cmd/backup.go:774-825 | On a host where nothing else is put at the destinations of the parts that were not archived, the restore gives what the archived trees give if and only if there is no such part |
| `BackupRestore.BackupRestores` | cmd/backup.go:514-1053 | End to end, without such a part: archive, extract and apply; it succeeds if and only if the archived trees and the host agree on what is a directory, and then every path holds the last archived tree's content or what was there, and nothing else is new but directories on the way |
| `BackupRestore.EmptySourceStraysIff` | cmd/backup.go:804-816 | A mount without a source, of which nothing was archived, is such a part if and only if some named volume was archived |
| `BackupRestore.StrayHoldsVolumes` | cmd/backup.go:804-824 | What is applied for it then holds a copy of every archived volume |
| `BackupRestore.TmpfsTakesVolumes` | cmd/backup.go:804-824 | So it happens on an empty host for every tree of a volume: the copy is there, and the archived trees alone leave nothing at that place |
| `BackupRestore.NextBackupIsRefused` | cmd/backup.go:552-568 | Whatever the container, no archive made after such a restore can be extracted |

## Left out

- Supervision.UserStopIsFinal: ticks and commands are atomic steps, so a state file written late by the process that started the container, from a copy loaded before the stop, is not modelled.
- Supervision.StartsArePaced: a container whose removal the supervisor sees half way is left out, as are user commands.
- SupervisorProcess.Container.DoStart: everything between the checks and the commit is one outcome; its network part is in `Handshake`.
- RestartBudget.StartsWithinBudget: user commands reset the guard, so runs containing them are excluded, as in the program's intent.
- Automatic backups stop and start containers around a copy; those steps are not part of the supervisor's runs here.
- Saving a state file always succeeds; JSON encoding, file locks and whole-file replacement are not modelled.
- Handshake.GateAndCommitAreSafe: two processes interleave, so the handshake is a transition system on values rather than a pair of methods; a pipe carries at most one message, and what the readers make of its text is proved separately.
- Handshake.NeverStuck: the `unshare` process is assumed to exit, at some time, once init is dead.
- A stale DCK_INIT_READY_FD or DCK_INIT_GO_FD inherited by a container without a network makes its init try a handshake with no partner; there init's outcome is left open.
- PathResolver.EvaluateSafePath: answers for one state of the filesystem; what the kernel does with the accepted path, and `safeTarPath` and `validateSymlinkTarget`, which are lexical, are left out.
- ServiceOrder.SortByDependencies: the order among names on or before a cycle is that of a map iteration, so only their set is stated.
- Networks.NetworkStore.RemoveNetwork: firewall rules and the bridge device are one outcome.
- Networks.Normalize: text that is no CIDR or no IPv4 network is one case; the text itself is not parsed.
- RateLimiter.RateBound: tokens are real numbers, not floating-point ones; loopback clients are not limited at all.
- RollingUpdate.UpdateKeepsServing: generated replica and container identifiers are assumed new and distinct.
- Choosing a node for a replica, pulling images and the services file are outcomes; listing errors give an empty listing.
- Auto-healing repeats the scale-up of reconciliation and adds nothing.
- Functions.FailedScaleUp: the reload of functions from disk between calls, where the container list is in memory only, is left out; the statement is per operation.
- Dns.ServiceIsRecovered: labels containing a dot octet are excluded; names are compared as they are, without case folding.
- DnsResponse.ResponseDecodes: fewer than 65536 addresses are assumed where the count field matters.
- DnsResponse.ExtraRecordComesFirst: records in the authority and additional sections are not decoded separately.
- LogTail.PrintTail: the file does not change while it is read; octets are characters.
- VolumeSpecs.ApplyOption: the octal number after `mode=` is kept as text; a mount does not hold it.
- VolumeSpecs.MountRoundTrip: tmpfs and NFS mounts are printed without their scheme and are not round trips, so their types are excluded by the condition.
- White space is the ASCII one; TrimSpace on other Unicode spaces is not modelled.
- Tokenizer: JSON exec form and instruction parsing, which use the splitter, are left out.
- Supervision.ReapKeepsWaiting: a reaped child is known by the container whose file records it; process identifiers and their reuse are not modelled.
- ArchiveNames.PartsNest: bind targets that are not absolute, with which a container can be created but not started, are excluded; their places are in `PlaceOfBind`.
- BackupRestore.EmptySourceStraysIff: the same targets are excluded, as they can climb to the places of volumes.
- ArchiveNames.NamespaceCanBeLeft: what a restore makes of entries outside the namespaces is stated for no case; it reads only the places of the container's parts.
- Archives.ExtractIff: symbolic links, and entries that are neither files nor directories, are left out.
- Archives.CreateContainerBackup: the entries of a directory are read without errors.
- Restore.ApplyBackupTree: what an apply that fails half way leaves behind is not stated; symbolic links, special files, modification times, gzip, checksums and encryption are left out.
- BackupRestore.BackupRestores: the check that the archive belongs to the container, and its checksum, are left out; the parts are the same at both times, so a restore into a container with other mounts is not covered; the stage may be read in any order.
- BackupRestore.NextBackupIsRefused: later backups are made of the host as the restore left it.
- Backup.ExtractTree: directories without write permission can be filled, as they can by root.
