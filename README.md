# PRRTE state machine and routed messaging layer, modelled in Dafny

PRRTE is the runtime that launches and tracks the processes of parallel
jobs. Each node runs a daemon. The daemons exchange messages through the
routed messaging layer (RML). Each daemon drives its jobs and processes
through an event-driven state machine.

This project models four parts of that runtime.

- **The state framework's engine** (`src/mca/state/base/state_base_fns.c`).
  - Two registries of `(state, priority, callback)` entries, one for job
    states and one for proc states, and the operations that edit them.
  - The activate rule, which picks a handler for a state and threadshifts
    a caddy to it. Threadshifting means appending a work item to the
    event base's queue.
  - The default handlers:
    - `track_procs` follows a process through its states and keeps its
      job's counters.
    - `check_all_complete` concludes a job, gives its node slots back and
      decides whether the whole run is over.
    - `local_launch_complete` and `cleanup_job`.
- **The send front end** (`src/rml/rml_send.c`). It validates the tag and
  the rank, and delivers a message to oneself locally. For any other rank
  it builds the send object. It also holds the retry cutoff.
- **The message header** (`src/rml/rml_hdr.h`): the header record, its
  message types, and the HTON and NTOH byte-order macros.
- **The transport helpers** (`src/rml/rml.c`):
  - the map from a failed send to a proc state;
  - the port rules applied at parameter registration;
  - the choice of listening interfaces;
  - the de-duplicating resolution of an include/exclude list;
  - the contact URI a daemon advertises;
  - the send object's constructor.

## Structure of the model

- **Shared vocabulary.** `Types` holds process names, return codes and the
  job and proc state values. It also holds PMIx's namespace comparison:
  an empty namespace on either side matches every namespace.
- **Strings.** `Strings` holds the string utilities the C code calls: the
  argv join and split, `atoi`, `isalpha`, `sprintf("%d")`.
- **Header.** `RmlHdr` treats a host's byte order explicitly:
  - `Store` and `Load` give the bytes a 32-bit value occupies in memory;
  - `htonl` and `ntohl` are defined from them;
  - `Transmit` and `Receive` model a header crossing the wire.
- **Transport helpers.** `Rml` covers `rml.c`.
  - The library calls the code relies on are fields of a `NetLib` value:
    `pmix_ifmatches`, `inet_pton`, `pmix_net_samenetwork`, the ifindex
    lookups and the host-name formatter. They are total functions that
    nothing is assumed about.
  - `RmlBase` is a class holding the state of `prte_rml_base` that these
    functions update in place.
  - `SendMsg` is the send object.
- **Send front end.** `RmlSend` covers `rml_send.c`.
  - `Route` is the decision the front end makes.
  - `SendBufferNb` and `SendNbEvent` are the in-place operations on the
    event queue and the send object.
- **Registries.** `StateRegistry` covers the registries.
  - Each edit is first a function on a list of entries, with its outcome
    proved.
  - The `StateMachine` class holds both registries and the event queue.
  - Its methods are proved to leave the registries as those functions say.
- **Handlers.** `StateTrack` models the handlers as functions on a
  `World`. A `World` is the job table (`prte_job_data`, whose empty slots
  are `None`), the arenas of proc and node objects, the local children,
  the job-timeout event, and a trace of effects.
  - References between records are indices into these arenas. A reference
    past an arena's end reads as NULL, as an index past a pointer array's
    end does.
  - What a handler hands to code outside the file is recorded in order as
    an effect. This covers job and proc activations, IOF and PMIx-server
    notices, help messages, exit-status updates and the order to
    terminate the daemons.
- **Runtime.** `StateRuntime.Runtime` is the runtime as a class whose
  methods update those tables in place, with the loops of the source.
  - Each method is proved to leave `Snapshot()` equal to the matching
    `StateTrack` function of the old snapshot.
  - So every lemma proved about the functions holds for the methods.

Points where the code does less than its comments or its names suggest:

- **HTON and NTOH.** The comments on these macros (`rml_hdr.h:68-69` and
  `rml_hdr.h:77-78`) say they convert the message header to network or host
  byte order, yet they convert only the two ranks, the tag and the payload
  length (`rml_hdr.h:71-84`). The sequence number stays in host order.
  `RmlHdr.ExchangeMixedOrder` shows that the sequence number arrives
  byte-reversed between hosts of different byte order.
  `RmlHdr.InitialSequenceNumberCrosses` shows that the all-ones initial
  value is unaffected.
- **Empty include list.** An include list that resolves to no names leaves
  `split_and_resolve` with a NULL result, and `setup_interfaces` then
  filters nothing (`rml.c:529-536`, `rml.c:580`).
- **Self-termination shortcut.** The shortcut in `track_procs`
  (`state_base_fns.c:710-725`) returns before `num_terminated` is
  incremented.
- **Abnormal procs are counted again.** The duplicate check
  (`state_base_fns.c:677-684`) recognises only the TERMINATED state itself,
  so a proc whose state is already abnormal is counted again by every
  TERMINATED reported for it. `StateTrack.AbnormalProcCountedAgain` states
  this.
- **A job at UNTERMINATED.** `check_all_complete` leaves a job at
  UNTERMINATED as it is (`state_base_fns.c:791-793`). Such a job is neither
  notified nor released by the alive scan.

## Model

| member | source | states |
|---|---|---|
| StateRegistry.FirstIndex | src/mca/state/base/state_base_fns.c:127-137 | the position of the first entry for a state, or the list's length when there is none |
| StateRegistry.LastIndex | src/mca/state/base/state_base_fns.c:60-70 | the position of the last entry for a state (the remembered ANY/ERROR entry), or -1 when there is none |
| StateRegistry.FirstIsLast | src/mca/state/base/state_base_fns.c:119-146 | in a registry with one entry per state, the first and last entry for a state are the same entry |
| StateRegistry.EntryAt | src/mca/state/base/state_base_fns.c:154-162 | an entry of a state is found at FirstIndex |
| StateRegistry.FindState | src/mca/state/base/state_base_fns.c:127-137 | the linear search returns the first index holding the state, or the length when none does |
| StateRegistry.AddOutcome | src/mca/state/base/state_base_fns.c:119-146 | adding a registered state is BAD_PARAM and changes nothing; otherwise exactly one entry with the given callback and priority is appended; one entry per state is kept |
| StateRegistry.UpdateInPlace | src/mca/state/base/state_base_fns.c:158-186 | an in-place edit keeps every position, every entry's state, every other entry, and one entry per state |
| StateRegistry.SetJobCallbackOutcome | src/mca/state/base/state_base_fns.c:148-172 | set_job_state_callback always succeeds; a registered state gets the new callback and keeps its priority and place; an absent state is appended at SYS_PRI |
| StateRegistry.SetProcCallbackOutcome | src/mca/state/base/state_base_fns.c:316-332 | set_proc_state_callback of an absent state is NOT_FOUND and changes nothing; a registered state gets the new callback and keeps its priority |
| StateRegistry.SetPriorityOutcome | src/mca/state/base/state_base_fns.c:174-190 | set_*_priority of an absent state is NOT_FOUND and changes nothing; a registered state gets the new priority and keeps its callback |
| StateRegistry.RemoveOutcome | src/mca/state/base/state_base_fns.c:192-208 | remove_* of an absent state is NOT_FOUND and changes nothing; otherwise exactly that entry goes, the rest keep their order, and the state is gone |
| StateRegistry.Lookup | src/mca/state/base/state_base_fns.c:60-102 | the single pass over the registry finds the entry the activate rule chooses |
| StateRegistry.DispatchExact | src/mca/state/base/state_base_fns.c:71-88 | an exact match decides: its callback and priority are scheduled, or nothing when its callback is NULL |
| StateRegistry.DispatchError | src/mca/state/base/state_base_fns.c:94-95 | with no exact match, a state above ERROR goes to the ERROR entry |
| StateRegistry.DispatchAny | src/mca/state/base/state_base_fns.c:96-97 | with no exact match and no applicable ERROR entry, the ANY entry is used |
| StateRegistry.DispatchDropped | src/mca/state/base/state_base_fns.c:98-107 | with no exact match and no usable fallback, the activation schedules nothing |
| StateRegistry.SendFailureReachesErrorHandler | src/rml/rml.c:494-506 | a failed send's proc state lies above ERROR, so it reaches the proc ERROR handler unless it has an entry of its own |
| StateRegistry.StateMachine.constructor | src/mca/state/base/state_base_fns.c:60-61 | scaffolding for the global lists `prte_job_states` and `prte_proc_states` (declared outside this file) and the event queue: all start empty |
| StateRegistry.StateMachine.AddJobState | src/mca/state/base/state_base_fns.c:119-146 | the job registry becomes Add of the old one, with its status |
| StateRegistry.StateMachine.SetJobStateCallback | src/mca/state/base/state_base_fns.c:148-172 | the job registry becomes SetJobCallback of the old one |
| StateRegistry.StateMachine.SetJobStatePriority | src/mca/state/base/state_base_fns.c:174-190 | the job registry becomes SetPriority of the old one |
| StateRegistry.StateMachine.RemoveJobState | src/mca/state/base/state_base_fns.c:192-208 | the job registry becomes Remove of the old one |
| StateRegistry.StateMachine.AddProcState | src/mca/state/base/state_base_fns.c:287-314 | the proc registry becomes Add of the old one |
| StateRegistry.StateMachine.SetProcStateCallback | src/mca/state/base/state_base_fns.c:316-332 | the proc registry becomes SetProcCallback of the old one |
| StateRegistry.StateMachine.SetProcStatePriority | src/mca/state/base/state_base_fns.c:334-350 | the proc registry becomes SetPriority of the old one |
| StateRegistry.StateMachine.RemoveProcState | src/mca/state/base/state_base_fns.c:352-368 | the proc registry becomes Remove of the old one |
| StateRegistry.StateMachine.ActivateJobState | src/mca/state/base/state_base_fns.c:53-116 | at most one work item is queued, carrying the chosen handler and its priority; it retains the job when one is given; the registries are untouched |
| StateRegistry.StateMachine.ActivateProcState | src/mca/state/base/state_base_fns.c:228-285 | at most one work item is queued, whose caddy names the proc and the state |
| StateTrack.JobIndex | src/mca/state/base/state_base_fns.c:625-627 | the index of the first job whose namespace matches, or the table's length when none does |
| StateTrack.FindJob | src/mca/state/base/state_base_fns.c:625-627 | the scan of the job table returns JobIndex |
| StateTrack.JobIndexFrame | src/mca/state/base/state_base_fns.c:625-627 | tables that agree on taken slots and their namespaces find the same job |
| StateTrack.Target | src/mca/state/base/state_base_fns.c:624-631 | the job of the caddy's namespace and the proc at the caddy's rank in its table, when both exist |
| StateTrack.AnyLocalAlive | src/mca/state/base/state_base_fns.c:712-718 | the scan of the local children finds one ALIVE exactly when one is |
| StateTrack.TrackFrame | src/mca/state/base/state_base_fns.c:603-755 | track_procs changes only the tracked proc and its job and only appends effects; it changes nothing for an unknown job, an empty rank or an untracked state |
| StateTrack.TerminatedFrame | src/mca/state/base/state_base_fns.c:686-751 | the TERMINATED branch changes only the proc and its job, with the effects TerminatedEffects lists |
| StateTrack.TrackGuard | src/mca/state/base/state_base_fns.c:635-637 | a tracked state overwrites the proc's state only while it is below TERMINATED |
| StateTrack.TrackNeverLowers | src/mca/state/base/state_base_fns.c:688-690 | once a proc is at TERMINATED or beyond, no report changes its state |
| StateTrack.TrackRunningCounts | src/mca/state/base/state_base_fns.c:633-644 | RUNNING counts one more launch; job STARTED is activated exactly when the count becomes 1, job RUNNING exactly when it reaches num_procs |
| StateTrack.TrackRegisteredCounts | src/mca/state/base/state_base_fns.c:645-653 | REGISTERED counts one more report; job REGISTERED is activated exactly when all procs have reported |
| StateTrack.TrackHandshake | src/mca/state/base/state_base_fns.c:654-675 | IOF_COMPLETE and WAITPID_FIRED each set their own flag and activate proc TERMINATED exactly when the other flag was already set; only IOF_COMPLETE closes the IOF, and only when a close exists |
| StateTrack.TerminatedAsksNoProc | src/mca/state/base/state_base_fns.c:676-751 | the TERMINATED branch never asks for a proc activation |
| StateTrack.TerminationNeedsBothFlags | src/mca/state/base/state_base_fns.c:654-675 | no report asks for a proc's termination unless both its flags are then set |
| StateTrack.TrackTerminatedDuplicate | src/mca/state/base/state_base_fns.c:677-684 | TERMINATED for a proc already at TERMINATED changes nothing |
| StateTrack.TrackTerminatedCounts | src/mca/state/base/state_base_fns.c:686-739 | TERMINATED clears ALIVE and, unless the shortcut applies, counts one more termination; job TERMINATED is activated exactly when the count reaches num_procs, never under the shortcut |
| StateTrack.TerminatedCountsOnce | src/mca/state/base/state_base_fns.c:677-690 | once a live proc is moved to TERMINATED, a repeated TERMINATED is ignored |
| StateTrack.AbnormalProcCountedAgain | src/mca/state/base/state_base_fns.c:677-684 | a proc already in an abnormal state is counted by every TERMINATED reported for it |
| StateTrack.LaunchProgress | src/mca/state/base/state_base_fns.c:391-396 | progress is reported exactly at every hundredth daemon and at the last one, when reporting is on |
| StateTrack.ReleaseSlotsSpec | src/mca/state/base/state_base_fns.c:883-904 | the release of a node's procs empties exactly the slots holding a proc of the job, keeps the others, and counts the emptied ones |
| StateTrack.ReleaseNodeEmpties | src/mca/state/base/state_base_fns.c:883-904 | after a node's release none of its slots holds a proc of the job |
| StateTrack.ReleaseNodesSpec | src/mca/state/base/state_base_fns.c:873-912 | nodes outside the job's map are untouched; nodes on it keep no proc of the job; a node listed once becomes ReleaseNode of itself, so with ReleaseSlotsSpec and ReleaseNodeAccounting it keeps the other jobs' slots and gives back one slot and one proc count per proc of the job it held, unless the job is a debugger daemon or a tool |
| StateTrack.ReleaseNodeAccounting | src/mca/state/base/state_base_fns.c:891-895 | one node's release lowers slots_inuse and num_procs by the number of the job's procs it held |
| StateTrack.ScanSpec | src/mca/state/base/state_base_fns.c:918-987 | the alive scan empties exactly the dropped slots, finds a job alive exactly when some slot keeps the run going, and asks only for NOTIFY_COMPLETED of the concluded job, exactly when some slot holds it as TERMINATED |
| StateTrack.PreparedSpec | src/mca/state/base/state_base_fns.c:791-912 | concluding and releasing keeps the table's shape and every other slot, and leaves the job concluded with its map dropped exactly when released |
| StateTrack.ConcludedNeverLowers | src/mca/state/base/state_base_fns.c:791-793 | marking a job concluded keeps an abnormal state and never lowers a state |
| StateTrack.CheckAliveParts | src/mca/state/base/state_base_fns.c:914-1017 | CHECK_ALIVE is the scan followed by the end of the run when nothing is alive |
| StateTrack.CompletionOfDaemons | src/mca/state/base/state_base_fns.c:847-863 | for a NULL job or the daemon job, no table, node or timer changes; DAEMONS_TERMINATED is activated once exactly when no routes are left |
| StateTrack.CompletionJobs | src/mca/state/base/state_base_fns.c:939-959 | the job's own slot is emptied when it concluded KILLED_BY_CMD or NOTIFIED and otherwise holds the concluded job; other slots are emptied exactly when they hold the same namespace under that condition |
| StateTrack.CompletionNodes | src/mca/state/base/state_base_fns.c:873-912 | the node arena is released along the map exactly when the job concluded TERMINATED with a map and is neither continuous nor recoverable; no proc object changes |
| StateTrack.CompletionEffects | src/mca/state/base/state_base_fns.c:796-1017 | the effects are the conclusion notices, then the scan's, then the end of the run; the timeout survives only while a job is alive |
| StateTrack.CompletionAllDone | src/mca/state/base/state_base_fns.c:989-1017 | the run ends (timeout stopped, exit status 0, daemons terminated) exactly when the job did not conclude TERMINATED and no other monitored job is short of NOTIFIED |
| StateTrack.CompletionNotifies | src/mca/state/base/state_base_fns.c:801-945 | NOTIFY_COMPLETED is asked for exactly when the job concluded TERMINATED; the namespace is always deregistered |
| StateTrack.JobLifecycle | src/mca/state/base/state_base_fns.c:400-1020 | a job that terminated normally is kept as TERMINATED and notified by its first check; after cleanup_job the next check removes it and leaves the nodes as they were |
| StateRuntime.Runtime.constructor | src/mca/state/base/state_base_fns.c:919-920 | scaffolding for the global tables the handlers read (`prte_job_data`, the proc and node objects, `prte_local_children`): the runtime holds exactly the tables of the given world |
| StateRuntime.Runtime.TrackProcs | src/mca/state/base/state_base_fns.c:603-755 | track_procs leaves the tables as StateTrack.Track says |
| StateRuntime.Runtime.Running | src/mca/state/base/state_base_fns.c:633-644 | the RUNNING branch in place, equal to TrackRunning |
| StateRuntime.Runtime.Registered | src/mca/state/base/state_base_fns.c:645-653 | the REGISTERED branch in place, equal to TrackRegistered |
| StateRuntime.Runtime.IofComplete | src/mca/state/base/state_base_fns.c:654-666 | the IOF_COMPLETE branch in place, equal to TrackIofComplete |
| StateRuntime.Runtime.Waitpid | src/mca/state/base/state_base_fns.c:667-675 | the WAITPID_FIRED branch in place, equal to TrackWaitpid |
| StateRuntime.Runtime.Terminated | src/mca/state/base/state_base_fns.c:686-751 | the TERMINATED branch past its duplicate check, equal to TrackTerminated |
| StateRuntime.Runtime.ReleaseProc | src/mca/state/base/state_base_fns.c:686-705 | the proc's ALIVE flag cleared, its state guarded, and a local proc's cleanup recorded |
| StateRuntime.Runtime.SelfTermination | src/mca/state/base/state_base_fns.c:710-725 | the shortcut activates DAEMONS_TERMINATED only when no local child is alive, and counts nothing |
| StateRuntime.Runtime.CountTermination | src/mca/state/base/state_base_fns.c:727-750 | one more termination counted, then the job's conclusion or the abort notice |
| StateRuntime.Runtime.LocalLaunchComplete | src/mca/state/base/state_base_fns.c:386-398 | REPORT_PROGRESS is appended exactly when LaunchProgress holds |
| StateRuntime.Runtime.CleanupJob | src/mca/state/base/state_base_fns.c:400-418 | the job flagged NOTIFIED and sent back through TERMINATED, equal to Cleanup |
| StateRuntime.Runtime.CheckAllComplete | src/mca/state/base/state_base_fns.c:757-1020 | check_all_complete leaves the tables as StateTrack.Completion says |
| StateRuntime.Runtime.ConcludeJob | src/mca/state/base/state_base_fns.c:791-820 | the job marked concluded and its notices recorded |
| StateRuntime.Runtime.ReportConclusion | src/mca/state/base/state_base_fns.c:796-820 | the IOF completion, the PMIx deregistration and the non-zero-exit report, in order |
| StateRuntime.Runtime.ReleaseResources | src/mca/state/base/state_base_fns.c:873-912 | the loop over the map's nodes leaves the arena as ReleaseNodes says and drops the map |
| StateRuntime.Runtime.ReleaseNodeProcs | src/mca/state/base/state_base_fns.c:883-904 | the loop over one node's procs leaves that node as ReleaseNode says and no other |
| StateRuntime.Runtime.CheckJobsAlive | src/mca/state/base/state_base_fns.c:914-1017 | the loop over the job table leaves the tables as CheckAlive says |
| StateRuntime.AliveScan | src/mca/state/base/state_base_fns.c:918-987 | the loop over the job table returns the table, the alive flag and the notices StateTrack.Scan gives, whose meaning ScanSpec states |
| StateRuntime.ReleaseProcsOf | src/mca/state/base/state_base_fns.c:883-904 | the loop over a node's proc slots returns the node as StateTrack.ReleaseNode says: the job's slots emptied, the counts lowered when accounting applies |
| Rml.SendCallback | src/rml/rml.c:494-506 | NO_PATH_TO_TARGET maps to proc NO_PATH_TO_TARGET, ADDRESSEE_UNKNOWN to PEER_UNKNOWN, any other failure to UNABLE_TO_SEND_MSG, success to nothing |
| Rml.SendFailureIsAbnormal | src/rml/rml.c:494-506 | every failed send is reported as a state above ERROR |
| Rml.PortsFrom | src/rml/rml.c:187-195 | a parsed list whose first element is "-1" becomes no list; an absent string gives no list |
| Rml.RegisteredRetries | src/rml/rml.c:112-157 | the retry limit as registration leaves it: peer_retries' value, default 2 |
| Rml.MaxRetriesSettingIgnored | src/rml/rml.c:112-157 | the max_retries setting alone does not change the retry limit |
| Rml.SeparateRetries | src/rml/rml.c:112-116 | the two limits on separate storage, max_retries defaulting to 3 |
| Rml.SeparateRetriesHonoursSetting | src/rml/rml.c:112-116 | with separate storage the retry limit is max_retries' setting, whatever peer_retries says |
| Rml.StaticExcludesDynamic | src/rml/rml.c:232-278 | once static ports are set, dynamic ports give exactly one help message and leave the dynamic lists and family switches unchanged |
| Rml.MinusOneMeansNoPorts | src/rml/rml.c:189-283 | a static or dynamic list starting with "-1" is recorded as none |
| Rml.StaticFlagMonotone | src/rml/rml.c:219-222 | registration never clears prte_static_ports and sets it whenever a static list survives |
| Rml.ScanSound | src/rml/rml.c:538-607 | every interface setup_interfaces keeps comes from the list and obeys the loopback, family, "vir" and filter rules |
| Rml.ScanComplete | src/rml/rml.c:538-607 | the scan aborts exactly when an interface meets an unparseable specification and otherwise keeps every interface obeying the rules |
| Rml.Copy | src/rml/rml.c:644-663 | the copy keeps the interface except that a non-positive bandwidth becomes 1 |
| Rml.MaskStringRoundTrip | src/rml/rml.c:665-667 | the printed mask reads back through atoi as the mask |
| Rml.ExtendAppends | src/rml/rml.c:619-667 | appending the kept interfaces appends their addresses, masks and copies in order |
| Rml.OneEntryPerInterface | src/rml/rml.c:619-667 | each kept interface adds one address to its own family's list, one mask and one local entry |
| Rml.ScanEntryCounts | src/rml/rml.c:566-667 | the address counts of both families add up to the mask and local-entry counts |
| Rml.KeepLoopback | src/rml/rml.c:540-549 | loopbacks are kept only by the master and only when every interface is a loopback |
| Rml.AddUnique | src/rml/rml.c:707-721 | a name is appended only when absent, so a list without repeats keeps none |
| Rml.MatchFromSpec | src/rml/rml.c:762-788 | the subnet loop adds exactly the names of the interfaces on the subnet, without repeats |
| Rml.TokenStepSpec | src/rml/rml.c:706-799 | one element contributes its literal name, or its subnet's interface names, or nothing when it lacks "/", fails to parse or matches nothing |
| Rml.ResolveFromSpec | src/rml/rml.c:706-799 | the loop over the elements keeps the names without repeats and holds exactly the contributed names |
| Rml.ResolveSpec | src/rml/rml.c:686-809 | split_and_resolve gives no repeated name and exactly the literal names and the names of interfaces on a listed subnet |
| Rml.AppendUnique | src/rml/rml.c:713-784 | the de-duplicating append in place, equal to AddUnique |
| Rml.ElementWarningSpec | src/rml/rml.c:724-795 | an element is warned about (missing "/", inet_pton failed, no interface on the subnet) exactly when it stands for no name |
| Rml.WarningsSpec | src/rml/rml.c:706-799 | the warnings are one per skipped element, each naming the list, the node, the element and the reason, and there are none when every element stands for a name |
| Rml.MatchSubnet | src/rml/rml.c:759-788 | the loop over the interfaces adds exactly MatchFrom's names and counts a match exactly when some interface is on the subnet |
| Rml.ResolveElement | src/rml/rml.c:707-795 | one element adds TokenStep's names and shows exactly WarningFor's warning |
| Rml.ResolveNames | src/rml/rml.c:706-799 | the loops of split_and_resolve return Resolve of the specification and exactly the Warnings of its elements |
| Rml.SplitAndResolve | src/rml/rml.c:686-809 | an empty specification yields nothing, no warning, and is kept; otherwise it is rewritten to the comma-join of the resolved names, and the skipped elements' warnings are returned |
| Rml.RewriteStable | src/rml/rml.c:805-808 | resolving the rewritten specification gives the same names again |
| Rml.ContactUri | src/rml/rml.c:437-485 | the URI is the IPv4 part, the IPv6 part, both joined by ';', or NULL when neither family contributes |
| Rml.Ipv6HostRecoverable | src/rml/rml.c:452-480 | the bracketed IPv6 literal is recovered by reading up to the first ']' (section 3.2.2 of RFC 3986) |
| Rml.BothFamiliesSplit | src/rml/rml.c:437-485 | with both families the two parts are recovered by splitting at ';' |
| Rml.SendMsg.constructor | src/rml/rml.c:812-818 | a fresh send has no retries, no callback data, no buffer and an all-ones sequence number |
| Rml.RmlBase.constructor | src/rml/rml.c:59-95 | the static initializer of prte_rml_base: no retries, no port lists, no addresses, IPv4 on and IPv6 off |
| Rml.RmlBase.Register | src/rml/rml.c:108-305 | the port settings as RegisterPorts decides, and the retry limit the shared storage leaves (RegisteredRetries: peer_retries' setting, or 2) |
| Rml.RmlBase.RegisterStaticPorts | src/rml/rml.c:186-222 | the static lists and prte_static_ports as StaticPorts says |
| Rml.RmlBase.RegisterDynamicPorts | src/rml/rml.c:232-305 | the dynamic lists and family switches as DynamicPorts says, or the help message and an early return |
| Rml.RmlBase.SetupInterfaces | src/rml/rml.c:509-679 | the include or exclude list's warnings are shown, then BAD_PARAM with the not-parseable message at an unparseable specification, NOT_AVAILABLE with no IPv4 address and (in an IPv6 build) no IPv6 address, otherwise success; the lists are extended by the kept interfaces |
| Rml.RmlBase.SelectInterfaces | src/rml/rml.c:538-667 | the loop over the discovered interfaces appends exactly the kept interfaces, or reports the abort |
| Rml.RmlBase.GetAddr | src/rml/rml.c:437-485 | the stored URI is ContactUri of the current lists |
| RmlSend.RouteOutcomes | src/rml/rml_send.c:41-98 | an invalid tag or rank is BAD_PARAM; one's own rank is received from oneself with the same tag and buffer; any other goes out from oneself to that rank in the same namespace |
| RmlSend.SendBufferNb | src/rml/rml_send.c:41-98 | a rejection queues nothing; a local message queues one receive and no send; any other queues one fresh send object with the given fields |
| RmlSend.Attempt | src/rml/rml_send.c:115-119 | a send fails with NO_PATH_TO_TARGET exactly when its retries reach the limit |
| RmlSend.SendNbEvent | src/rml/rml_send.c:100-122 | at the cutoff the status is NO_PATH_TO_TARGET and the completion is queued; otherwise nothing changes |
| RmlSend.NoRetriesFailsFirstAttempt | src/rml/rml_send.c:115-119 | with a limit of zero or less a fresh send fails its first attempt and the peer is reported NO_PATH_TO_TARGET |
| RmlSend.CutoffIsFinal | src/rml/rml_send.c:115-119 | once a send fails, every later attempt fails too |
| RmlHdr.MessageTypes | src/rml/rml_hdr.h:40-43 | IDENT, PROBE, PING and USER are the distinct values 1 to 4 |
| RmlHdr.Bytes | src/rml/rml_hdr.h:46-66 | a 32-bit value's four bytes, most significant first |
| RmlHdr.FromBytesOfBytes | src/rml/rml_hdr.h:46-66 | reading back a value's network-order bytes gives the value |
| RmlHdr.BytesOfFromBytes | src/rml/rml_hdr.h:46-66 | four bytes read as a value and written back are the same bytes |
| RmlHdr.Reverse4 | src/rml/rml_hdr.h:71-84 | the four bytes in reverse order |
| RmlHdr.ByteSwapInvolutive | src/rml/rml_hdr.h:71-84 | reversing the byte order twice is the identity |
| RmlHdr.HtonlStoresNetworkOrder | src/rml/rml_hdr.h:80-84 | htonl's result lies in memory in network byte order on either host |
| RmlHdr.NtohlLoadsNetworkOrder | src/rml/rml_hdr.h:71-75 | network-order bytes loaded and converted by ntohl give their value |
| RmlHdr.NtohlHtonl | src/rml/rml_hdr.h:71-84 | ntohl and htonl are mutual inverses |
| RmlHdr.ConversionsLeaveOtherFields | src/rml/rml_hdr.h:61-84 | neither macro touches the sequence number, the type or the namespaces; on a big-endian host both are the identity |
| RmlHdr.HtonReversesFourFields | src/rml/rml_hdr.h:80-84 | on a little-endian host HTON reverses the bytes of exactly the two ranks, the tag and the length |
| RmlHdr.NtohHton | src/rml/rml_hdr.h:71-84 | NTOH undoes HTON and HTON undoes NTOH on either host |
| RmlHdr.Transmit | src/rml/rml_hdr.h:46-84 | the bytes on the wire are the header's memory after HTON |
| RmlHdr.ConvertedFieldCrosses | src/rml/rml_hdr.h:71-84 | a converted field arrives intact between hosts of any byte order |
| RmlHdr.Exchange | src/rml/rml_hdr.h:46-84 | a header arrives intact except for the sequence number, read as the receiver reads the sender's native bytes |
| RmlHdr.ExchangeSameOrder | src/rml/rml_hdr.h:46-84 | between hosts of the same byte order the whole header arrives intact |
| RmlHdr.ExchangeMixedOrder | src/rml/rml_hdr.h:46-84 | between hosts of different byte order the sequence number arrives byte-reversed |
| RmlHdr.SequenceNumberOneMisread | src/rml/rml_hdr.h:61-65 | sequence number 1 from a little-endian host reads as 2^24 on a big-endian one |
| RmlHdr.InitialSequenceNumberCrosses | src/rml/rml.c:812-818 | the all-ones sequence number of a fresh send arrives intact in either byte order |
| Strings.SplitJoin | src/rml/rml.c:805-808 | the argv split undoes the join for non-empty tokens free of the separator |
| Strings.AtoiIntToDecimal | src/rml/rml.c:665-667 | atoi reads back what "%d" printed |

## Left out

- I/O and foreign calls in the handlers are recorded as effects, not modelled. These are check_fds, `_send_notification`, `notify_data_server`, the PMIx deregistrations with their lock waits, `prte_show_help`, the session-directory cleanup, `prte_plm.terminate_orteds` and the release of the timeout timer.
- `prte_state_base_report_progress`, `print_job_state_machine`, `print_proc_state_machine` and the other print and notification helpers of `state_base_fns.c` are not modelled. They only format output or pack PMIx messages.
- The event loop is not modelled. This covers running queued items, their priorities and their order, and the reference counts that retain and release objects. A caddy being released means the item is consumed once.
- StateRuntime.Runtime.CheckAllComplete: requires that a caddy's job is in the job table, because the source only threadshifts jobs it tracks. A job outside the table is not modelled.
- PRTE_SYS_PRI and the numeric job and proc state values come from headers that are not part of this model. The values used follow PRRTE's layout; the proofs depend only on their order.
- PRTE_UPDATE_EXIT_STATUS comes from a header that is not part of this model. It is recorded as an effect carrying its argument, which is always 0 here.
- `PRTE_LOCAL_JOBID` and the routed component's `num_routes` are inputs of the handlers (fields of `Env`).
- `prte_process_info.nodename`, which the "invalid if_inexclude" warnings show, is an input of `Rml.RmlBase.SetupInterfaces`. The verbose output of `rml.c` is not modelled.
- MCA variable registration, synonyms, verbosity, keepalive settings and `pmix_util_parse_range_options` are not modelled; their results are inputs (`RegisterParams`, `PortParam`).
- `pmix_ifmatches`, `inet_pton`, `pmix_net_samenetwork`, the ifindex lookups and `pmix_net_get_hostname` are uninterpreted fields of `NetLib`.
- `prte_rml_open` and `prte_rml_close` are not modelled. They are socket and thread management.
- The transport behind `send_nb` (connection set-up and the retry itself) is not part of this model. When the cutoff does not apply, `SendNbEvent` changes nothing.
- `src/threads/wait_sync.c`, `src/rml/rml_base_common.h` and the RAS framework files are concurrency or registration plumbing and are not part of this model.
- Rml.RmlBase.SetupInterfaces: allocation failure is not modelled. When `PMIX_NEW` fails (`rml.c:644-647`) the source returns OUT_OF_RESOURCE, leaving the interface's address in its list without its mask or local entry. The model always allocates successfully.
- Memory ownership and freeing (`free`, `PMIX_ARGV_FREE_COMPAT`) are not modelled. The model has no pointers, so nothing is leaked or double-freed.

## Findings

| source | as written | input that shows it | evidently intended | confidence | as-written member | corrected member |
|---|---|---|---|---|---|---|
| src/rml/rml.c:112-157 | `max_retries` and `peer_retries` are both registered over `prte_rml_base.max_retries`; the second registration resets it to 2 | set `rml_base_max_retries=10` and leave `peer_retries` unset: the retry limit is 2 | `max_retries` governs the send retry limit (default 3), and `peer_retries` has storage of its own | not executed | Rml.MaxRetriesSettingIgnored | Rml.SeparateRetriesHonoursSetting |

`Rml.RmlBase.Register`, and so the send cutoff of `RmlSend.SendNbEvent`, uses the limit as written (`Rml.RegisteredRetries`). `Rml.SeparateRetries` is the corrected definition.
