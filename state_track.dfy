/**
  The state framework's default handlers (src/mca/state/base/state_base_fns.c):
  track_procs, which follows each process through RUNNING, REGISTERED,
  IOF_COMPLETE, WAITPID_FIRED and TERMINATED and keeps its job's counters;
  check_all_complete, which concludes a job, gives its node slots back and
  decides whether every job is done; local_launch_complete; cleanup_job.

  The runtime's global tables are arenas: the job table (`prte_job_data`, a
  pointer array whose empty slots are None), every process object, every node
  object, and the local children.  A job's proc table, a node's proc table,
  a job map's node list and the local children hold indices into them, and a
  reference outside its arena reads as NULL, as an index beyond a pointer
  array's end does.

  What the handlers hand to code outside this file is recorded, in order, as
  effects: state activations (which go through the state module's function
  table), IOF and PMIx-server notices, help messages, exit-status updates and
  the order to terminate the daemons.
*/
module StateTrack {
  import opened Types
  import opened StateRegistry

  type ProcRef = nat
  type NodeRef = nat

  /** prte_proc_t: its name, state and the ALIVE, LOCAL, WAITPID and IOF_COMPLETE flags. */
  datatype ProcRec = ProcRec(
    name: ProcName, state: int,
    alive: bool, local: bool, waitpid: bool, iofComplete: bool)

  /** prte_job_t, with the flags and attributes the handlers test. */
  datatype JobRec = JobRec(
    nspace: string, state: int,
    procs: seq<Option<ProcRef>>,
    numProcs: int, numLaunched: int, numReported: int, numTerminated: int,
    numDaemonsReported: int,
    debuggerDaemon: bool, tool: bool, recoverable: bool, doNotMonitor: bool,
    continuousOp: bool, numNonzeroExit: Option<int>,
    jobMap: Option<seq<Option<NodeRef>>>)

  /** prte_node_t: its slot accounting and the procs placed on it. */
  datatype NodeRec = NodeRec(name: string, slotsInUse: int, numProcs: int, procs: seq<Option<ProcRef>>)

  datatype Effect =
    | ActivateJob(jdata: Option<JobRef>, state: int)
    | ActivateProc(name: ProcName, state: int)
    | IofClose(name: ProcName)
    | DeregisterClient(name: ProcName)
    | SessionDirFinalize(name: ProcName)
    | CheckFds(job: JobRef)
    | NotifyDataServer(target: ProcName)
    /** _send_notification(PRTE_ERR_PROC_ABORTED, state, name, parent) */
    | ProcAborted(state: int, name: ProcName, parent: ProcName)
    | IofJobComplete(job: JobRef)
    | DeregisterNspace(nspace: string)
    | UpdateExitStatus(code: int)
    /** The "normal-termination-but" help message: for the primary job or a child, and the count. */
    | NonzeroExitHelp(primary: bool, count: int)
    | CancelTimeout
    | TerminateDaemons

  /**
    The runtime's settings and the answers of code outside this file:
    whether prte_iof.close and prte_iof.complete are set, the number of
    routes prte_routed reports, and the local job id of a namespace.
  */
  datatype Env = Env(
    myName: ProcName,
    reportLaunchProgress: bool, numDaemons: int,
    prtedsTermOrdered: bool, jobTermOrdered: bool, enableFt: bool,
    runFdcheck: bool, dataServerUri: bool,
    iofCloseSet: bool, iofCompleteSet: bool,
    abortNonZeroExit: bool, reportChildJobsSeparately: bool,
    numRoutes: nat, localJobid: string -> int)

  /** The global state the handlers read and write. */
  datatype World = World(
    jobs: seq<Option<JobRec>>,
    procs: seq<ProcRec>,
    nodes: seq<NodeRec>,
    localChildren: seq<Option<ProcRef>>,
    mpiexecTimeout: bool,
    effects: seq<Effect>)

  // ---------------------------------------------------------------------
  // Lookups

  predicate JobMatches(slot: Option<JobRec>, ns: string) {
    slot.Some? && CheckNspace(slot.value.nspace, ns)
  }

  /**
    prte_get_job_data_object: the first job in the table whose namespace
    matches, or |jobs| when none does (the function lives outside this file;
    the scan is the one it performs).
  */
  function JobIndex(jobs: seq<Option<JobRec>>, ns: string): (k: nat)
    ensures k <= |jobs|
    ensures k < |jobs| ==> JobMatches(jobs[k], ns)
    ensures forall i :: 0 <= i < k ==> !JobMatches(jobs[i], ns)
  {
    if |jobs| == 0 then 0 else if JobMatches(jobs[0], ns) then 0 else 1 + JobIndex(jobs[1..], ns)
  }

  function JobLookup(jobs: seq<Option<JobRec>>, ns: string): Option<JobRef> {
    var k := JobIndex(jobs, ns);
    if k < |jobs| then Some(k) else None
  }

  /** The scan of the job table. */
  method FindJob(jobs: seq<Option<JobRec>>, ns: string) returns (k: nat)
    ensures k == JobIndex(jobs, ns)
  {
    k := 0;
    while k < |jobs|
      invariant k <= |jobs|
      invariant forall i :: 0 <= i < k ==> !JobMatches(jobs[i], ns)
    {
      if jobs[k].Some? && CheckNspace(jobs[k].value.nspace, ns) {
        return;
      }
      k := k + 1;
    }
  }

  /** Two job tables that agree on which slots are taken and on their namespaces find the same job. */
  lemma JobIndexFrame(jobs: seq<Option<JobRec>>, jobs': seq<Option<JobRec>>, ns: string)
    requires |jobs'| == |jobs|
    requires forall i :: 0 <= i < |jobs| ==> (jobs[i].Some? <==> jobs'[i].Some?)
    requires forall i :: 0 <= i < |jobs| && jobs[i].Some? ==> jobs'[i].value.nspace == jobs[i].value.nspace
    ensures JobIndex(jobs', ns) == JobIndex(jobs, ns)
  {
    var k, k' := JobIndex(jobs, ns), JobIndex(jobs', ns);
    assert forall i :: 0 <= i < |jobs| ==> (JobMatches(jobs[i], ns) <==> JobMatches(jobs'[i], ns));
  }

  /**
    The job and the process object track_procs works on: the job of the
    caddy's namespace and the entry of its proc table at the caddy's rank.
  */
  function Target(w: World, name: ProcName): (t: Option<(JobRef, ProcRef)>)
    ensures t.Some? ==> t.value.0 < |w.jobs| && w.jobs[t.value.0].Some? && t.value.1 < |w.procs|
  {
    var j := JobIndex(w.jobs, name.nspace);
    if j == |w.jobs| then None
    else
      var procs := w.jobs[j].value.procs;
      if name.rank < |procs| && procs[name.rank].Some? && procs[name.rank].value < |w.procs|
      then Some((j, procs[name.rank].value))
      else None
  }

  /** Some local child is still ALIVE. */
  predicate AnyAlive(procs: seq<ProcRec>, children: seq<Option<ProcRef>>) {
    exists i :: 0 <= i < |children| && children[i].Some? && children[i].value < |procs|
      && procs[children[i].value].alive
  }

  /** The scan of the local children in the self-termination shortcut. */
  method AnyLocalAlive(procs: seq<ProcRec>, children: seq<Option<ProcRef>>) returns (b: bool)
    ensures b <==> AnyAlive(procs, children)
  {
    var i := 0;
    while i < |children|
      invariant i <= |children|
      invariant forall k :: 0 <= k < i ==>
        !(children[k].Some? && children[k].value < |procs| && procs[children[k].value].alive)
    {
      if children[i].Some? && children[i].value < |procs| && procs[children[i].value].alive {
        return true;
      }
      i := i + 1;
    }
    b := false;
  }

  // ---------------------------------------------------------------------
  // track_procs

  /** The monotone guard: a proc state is only overwritten while it is below TERMINATED. */
  function Guarded(current: int, s: int): int {
    if current < PROC_STATE_TERMINATED then s else current
  }

  /** The states track_procs acts on; every other state is ignored. */
  predicate Tracked(s: int) {
    s == PROC_STATE_RUNNING || s == PROC_STATE_REGISTERED || s == PROC_STATE_IOF_COMPLETE
    || s == PROC_STATE_WAITPID_FIRED || s == PROC_STATE_TERMINATED
  }

  /**
    One step of track_procs: the tracked proc's object and its job's object
    replaced, and effects appended.
  */
  function Step(w: World, j: JobRef, jd: JobRec, p: ProcRef, pd: ProcRec, added: seq<Effect>): World
    requires j < |w.jobs| && p < |w.procs|
  {
    w.(jobs := w.jobs[j := Some(jd)], procs := w.procs[p := pd], effects := w.effects + added)
  }

  /** The effects a step appended. */
  function Added(w: World, w': World): seq<Effect>
    requires |w.effects| <= |w'.effects|
  {
    w'.effects[|w.effects|..]
  }

  lemma StepFrame(w: World, j: JobRef, jd: JobRec, p: ProcRef, pd: ProcRec, added: seq<Effect>)
    requires j < |w.jobs| && p < |w.procs|
    ensures var w' := Step(w, j, jd, p, pd, added);
      && |w'.jobs| == |w.jobs| && |w'.procs| == |w.procs|
      && w'.nodes == w.nodes && w'.localChildren == w.localChildren && w'.mpiexecTimeout == w.mpiexecTimeout
      && |w.effects| <= |w'.effects| && w'.effects[..|w.effects|] == w.effects
      && Added(w, w') == added
      && w'.jobs[j] == Some(jd) && w'.procs[p] == pd
      && (forall q :: 0 <= q < |w.procs| && q != p ==> w'.procs[q] == w.procs[q])
      && (forall i :: 0 <= i < |w.jobs| && i != j ==> w'.jobs[i] == w.jobs[i])
  {
    var w' := Step(w, j, jd, p, pd, added);
    assert w'.effects[..|w.effects|] == w.effects;
    assert w'.effects[|w.effects|..] == added;
  }

  /** RUNNING: STARTED on the first launch, RUNNING when all procs launched. */
  function TrackRunning(w: World, j: JobRef, p: ProcRef): World
    requires j < |w.jobs| && w.jobs[j].Some? && p < |w.procs|
  {
    var jd := w.jobs[j].value;
    var n := jd.numLaunched + 1;
    Step(w, j, jd.(numLaunched := n), p, w.procs[p].(state := Guarded(w.procs[p].state, PROC_STATE_RUNNING)),
         (if n == 1 then [ActivateJob(Some(j), JOB_STATE_STARTED)] else [])
         + (if n == jd.numProcs then [ActivateJob(Some(j), JOB_STATE_RUNNING)] else []))
  }

  /** REGISTERED: job REGISTERED when all procs reported. */
  function TrackRegistered(w: World, j: JobRef, p: ProcRef): World
    requires j < |w.jobs| && w.jobs[j].Some? && p < |w.procs|
  {
    var jd := w.jobs[j].value;
    var n := jd.numReported + 1;
    Step(w, j, jd.(numReported := n), p, w.procs[p].(state := Guarded(w.procs[p].state, PROC_STATE_REGISTERED)),
         if n == jd.numProcs then [ActivateJob(Some(j), JOB_STATE_REGISTERED)] else [])
  }

  /** IOF_COMPLETE: close the IOF channels, set the flag, and finish the handshake if WAITPID came first. */
  function TrackIofComplete(w: World, env: Env, j: JobRef, p: ProcRef, name: ProcName): World
    requires j < |w.jobs| && w.jobs[j].Some? && p < |w.procs|
  {
    var pd := w.procs[p];
    Step(w, j, w.jobs[j].value, p, pd.(state := Guarded(pd.state, PROC_STATE_IOF_COMPLETE), iofComplete := true),
         (if env.iofCloseSet then [IofClose(name)] else [])
         + (if pd.waitpid then [ActivateProc(name, PROC_STATE_TERMINATED)] else []))
  }

  /** WAITPID_FIRED: set the flag, and finish the handshake if IOF_COMPLETE came first. */
  function TrackWaitpid(w: World, j: JobRef, p: ProcRef, name: ProcName): World
    requires j < |w.jobs| && w.jobs[j].Some? && p < |w.procs|
  {
    var pd := w.procs[p];
    Step(w, j, w.jobs[j].value, p, pd.(state := Guarded(pd.state, PROC_STATE_WAITPID_FIRED), waitpid := true),
         if pd.iofComplete then [ActivateProc(name, PROC_STATE_TERMINATED)] else [])
  }

  /** The self-termination shortcut applies: termination was ordered and no routes remain. */
  predicate Shortcut(env: Env) {
    env.prtedsTermOrdered && env.numRoutes == 0
  }

  /** The PMIx-server and session-directory cleanup of a local proc. */
  function LocalCleanup(jd: JobRec, pd: ProcRec, name: ProcName): seq<Effect> {
    if pd.local then
      [DeregisterClient(name)] + (if !jd.debuggerDaemon && !jd.tool then [SessionDirFinalize(name)] else [])
    else []
  }

  /** After a counted termination: the job's conclusion, or the abort notice of an abnormal proc. */
  function CountedEffects(env: Env, j: JobRef, jd: JobRec, n: int, pd: ProcRec): seq<Effect> {
    var everyone := ProcName(jd.nspace, RANK_WILDCARD);
    if n == jd.numProcs then
      (if env.runFdcheck then [CheckFds(j)] else [])
      + (if env.dataServerUri then [NotifyDataServer(everyone)] else [])
      + [ActivateJob(Some(j), JOB_STATE_TERMINATED)]
    else if PROC_STATE_TERMINATED < pd.state && !env.jobTermOrdered && !env.enableFt then
      [ProcAborted(pd.state, pd.name, everyone)]
    else []
  }

  /** TERMINATED after its duplicate check: the flags, the local cleanup and the counting. */
  function TrackTerminated(w: World, env: Env, j: JobRef, p: ProcRef, name: ProcName): World
    requires j < |w.jobs| && w.jobs[j].Some? && p < |w.procs|
  {
    var jd := w.jobs[j].value;
    var pd := w.procs[p].(alive := false, state := Guarded(w.procs[p].state, PROC_STATE_TERMINATED));
    var n := if Shortcut(env) then jd.numTerminated else jd.numTerminated + 1;
    Step(w, j, jd.(numTerminated := n), p, pd, TerminatedEffects(w, env, j, p, name))
  }

  /** prte_state_base_track_procs for the caddy (name, s). */
  function Track(w: World, env: Env, name: ProcName, s: int): World {
    var t := Target(w, name);
    if t.None? then w
    else
      var (j, p) := t.value;
      if s == PROC_STATE_RUNNING then TrackRunning(w, j, p)
      else if s == PROC_STATE_REGISTERED then TrackRegistered(w, j, p)
      else if s == PROC_STATE_IOF_COMPLETE then TrackIofComplete(w, env, j, p, name)
      else if s == PROC_STATE_WAITPID_FIRED then TrackWaitpid(w, j, p, name)
      else if s == PROC_STATE_TERMINATED then
        if w.procs[p].state == PROC_STATE_TERMINATED then w else TrackTerminated(w, env, j, p, name)
      else w
  }

  /**
    track_procs touches only the tracked proc and its job, only appends
    effects, and changes nothing when the job is unknown, the rank has no
    proc or the state is not one it tracks.
  */
  lemma TrackFrame(w: World, env: Env, name: ProcName, s: int)
    ensures var w' := Track(w, env, name, s);
      && |w'.jobs| == |w.jobs| && |w'.procs| == |w.procs|
      && w'.nodes == w.nodes && w'.localChildren == w.localChildren && w'.mpiexecTimeout == w.mpiexecTimeout
      && |w.effects| <= |w'.effects| && w'.effects[..|w.effects|] == w.effects
      && (Target(w, name).None? || !Tracked(s) ==> w' == w)
      && (Target(w, name).Some? ==>
            var (j, p) := Target(w, name).value;
            && (forall q :: 0 <= q < |w.procs| && q != p ==> w'.procs[q] == w.procs[q])
            && (forall i :: 0 <= i < |w.jobs| && i != j ==> w'.jobs[i] == w.jobs[i])
            && w'.jobs[j].Some?
            && w'.jobs[j].value.nspace == w.jobs[j].value.nspace
            && w'.jobs[j].value.procs == w.jobs[j].value.procs
            && w'.jobs[j].value.numProcs == w.jobs[j].value.numProcs
            && w'.procs[p].name == w.procs[p].name)
  {
    var w' := Track(w, env, name, s);
    if Target(w, name).Some? && Tracked(s) {
      var (j, p) := Target(w, name).value;
      var jd := w.jobs[j].value;
      var pd := w.procs[p];
      if s == PROC_STATE_RUNNING {
        var n := jd.numLaunched + 1;
        StepFrame(w, j, jd.(numLaunched := n), p, pd.(state := Guarded(pd.state, s)),
                  (if n == 1 then [ActivateJob(Some(j), JOB_STATE_STARTED)] else [])
                  + (if n == jd.numProcs then [ActivateJob(Some(j), JOB_STATE_RUNNING)] else []));
      } else if s == PROC_STATE_REGISTERED {
        var n := jd.numReported + 1;
        StepFrame(w, j, jd.(numReported := n), p, pd.(state := Guarded(pd.state, s)),
                  if n == jd.numProcs then [ActivateJob(Some(j), JOB_STATE_REGISTERED)] else []);
      } else if s == PROC_STATE_IOF_COMPLETE {
        StepFrame(w, j, jd, p, pd.(state := Guarded(pd.state, s), iofComplete := true),
                  (if env.iofCloseSet then [IofClose(name)] else [])
                  + (if pd.waitpid then [ActivateProc(name, PROC_STATE_TERMINATED)] else []));
      } else if s == PROC_STATE_WAITPID_FIRED {
        StepFrame(w, j, jd, p, pd.(state := Guarded(pd.state, s), waitpid := true),
                  if pd.iofComplete then [ActivateProc(name, PROC_STATE_TERMINATED)] else []);
      } else if pd.state != PROC_STATE_TERMINATED {
        TerminatedFrame(w, env, j, p, name);
      }
    }
  }

  /** The TERMINATED branch's frame and the effects it appends. */
  lemma TerminatedFrame(w: World, env: Env, j: JobRef, p: ProcRef, name: ProcName)
    requires j < |w.jobs| && w.jobs[j].Some? && p < |w.procs|
    ensures var w' := TrackTerminated(w, env, j, p, name);
      var jd := w.jobs[j].value;
      var pd := w.procs[p].(alive := false, state := Guarded(w.procs[p].state, PROC_STATE_TERMINATED));
      var n := if Shortcut(env) then jd.numTerminated else jd.numTerminated + 1;
      && |w'.jobs| == |w.jobs| && |w'.procs| == |w.procs|
      && w'.nodes == w.nodes && w'.localChildren == w.localChildren && w'.mpiexecTimeout == w.mpiexecTimeout
      && |w.effects| <= |w'.effects| && w'.effects[..|w.effects|] == w.effects
      && w'.jobs[j] == Some(jd.(numTerminated := n)) && w'.procs[p] == pd
      && (forall q :: 0 <= q < |w.procs| && q != p ==> w'.procs[q] == w.procs[q])
      && (forall i :: 0 <= i < |w.jobs| && i != j ==> w'.jobs[i] == w.jobs[i])
      && Added(w, w') == TerminatedEffects(w, env, j, p, name)
  {
    var jd := w.jobs[j].value;
    var pd := w.procs[p].(alive := false, state := Guarded(w.procs[p].state, PROC_STATE_TERMINATED));
    var n := if Shortcut(env) then jd.numTerminated else jd.numTerminated + 1;
    StepFrame(w, j, jd.(numTerminated := n), p, pd, TerminatedEffects(w, env, j, p, name));
  }

  /**
    The monotone guard: a tracked state overwrites the proc's state only
    while it is below TERMINATED, so a proc at TERMINATED or beyond keeps
    its state whatever is reported for it.
  */
  lemma TrackGuard(w: World, env: Env, name: ProcName, s: int)
    requires Target(w, name).Some?
    ensures var p := Target(w, name).value.1;
      && p < |Track(w, env, name, s).procs|
      && Track(w, env, name, s).procs[p].state ==
           if Tracked(s) && w.procs[p].state < PROC_STATE_TERMINATED then s else w.procs[p].state
  {
    TrackFrame(w, env, name, s);
    var (j, p) := Target(w, name).value;
    if s == PROC_STATE_TERMINATED && w.procs[p].state != PROC_STATE_TERMINATED {
      TerminatedFrame(w, env, j, p, name);
    }
  }

  /** Once a proc is at TERMINATED or beyond, no report of track_procs changes its state. */
  lemma TrackNeverLowers(w: World, env: Env, name: ProcName, s: int, q: nat)
    requires q < |w.procs| && w.procs[q].state >= PROC_STATE_TERMINATED
    ensures q < |Track(w, env, name, s).procs|
    ensures Track(w, env, name, s).procs[q].state == w.procs[q].state
  {
    TrackFrame(w, env, name, s);
    if Target(w, name).Some? && Target(w, name).value.1 == q {
      TrackGuard(w, env, name, s);
    }
  }

  /**
    RUNNING counts one more launched proc; it activates job STARTED exactly
    when the count becomes 1 and job RUNNING exactly when it reaches the
    job's number of procs, and nothing else.
  */
  lemma TrackRunningCounts(w: World, env: Env, name: ProcName)
    requires Target(w, name).Some?
    ensures var (j, p) := Target(w, name).value;
      var w' := Track(w, env, name, PROC_STATE_RUNNING);
      var jd := w.jobs[j].value;
      var n := jd.numLaunched + 1;
      && w'.jobs[j] == Some(jd.(numLaunched := n))
      && |w.effects| <= |w'.effects|
      && (ActivateJob(Some(j), JOB_STATE_STARTED) in Added(w, w') <==> n == 1)
      && (ActivateJob(Some(j), JOB_STATE_RUNNING) in Added(w, w') <==> n == jd.numProcs)
      && (forall e :: e in Added(w, w') ==> e.ActivateJob? && e.jdata == Some(j))
  {
    var (j, p) := Target(w, name).value;
    var jd := w.jobs[j].value;
    var pd := w.procs[p];
    var n := jd.numLaunched + 1;
    StepFrame(w, j, jd.(numLaunched := n), p, pd.(state := Guarded(pd.state, PROC_STATE_RUNNING)),
              (if n == 1 then [ActivateJob(Some(j), JOB_STATE_STARTED)] else [])
              + (if n == jd.numProcs then [ActivateJob(Some(j), JOB_STATE_RUNNING)] else []));
  }

  /** REGISTERED counts one more reported proc and activates job REGISTERED exactly when all have. */
  lemma TrackRegisteredCounts(w: World, env: Env, name: ProcName)
    requires Target(w, name).Some?
    ensures var (j, p) := Target(w, name).value;
      var w' := Track(w, env, name, PROC_STATE_REGISTERED);
      var jd := w.jobs[j].value;
      var n := jd.numReported + 1;
      && w'.jobs[j] == Some(jd.(numReported := n))
      && |w.effects| <= |w'.effects|
      && (ActivateJob(Some(j), JOB_STATE_REGISTERED) in Added(w, w') <==> n == jd.numProcs)
      && (forall e :: e in Added(w, w') ==> e == ActivateJob(Some(j), JOB_STATE_REGISTERED))
  {
    var (j, p) := Target(w, name).value;
    var jd := w.jobs[j].value;
    var pd := w.procs[p];
    var n := jd.numReported + 1;
    StepFrame(w, j, jd.(numReported := n), p, pd.(state := Guarded(pd.state, PROC_STATE_REGISTERED)),
              if n == jd.numProcs then [ActivateJob(Some(j), JOB_STATE_REGISTERED)] else []);
  }

  /**
    The IOF/WAITPID handshake: each event sets its own flag and activates
    proc TERMINATED exactly when the other flag was already set; only
    IOF_COMPLETE closes the proc's IOF channels, and only when the IOF
    framework provides a close; the job is not touched.
  */
  lemma TrackHandshake(w: World, env: Env, name: ProcName, s: int)
    requires Target(w, name).Some?
    requires s == PROC_STATE_IOF_COMPLETE || s == PROC_STATE_WAITPID_FIRED
    ensures var (j, p) := Target(w, name).value;
      var w' := Track(w, env, name, s);
      var other := if s == PROC_STATE_IOF_COMPLETE then w.procs[p].waitpid else w.procs[p].iofComplete;
      && |w.effects| <= |w'.effects|
      && w'.jobs == w.jobs
      && (s == PROC_STATE_IOF_COMPLETE ==> w'.procs[p].iofComplete && w'.procs[p].waitpid == w.procs[p].waitpid)
      && (s == PROC_STATE_WAITPID_FIRED ==> w'.procs[p].waitpid && w'.procs[p].iofComplete == w.procs[p].iofComplete)
      && (ActivateProc(name, PROC_STATE_TERMINATED) in Added(w, w') <==> other)
      && (IofClose(name) in Added(w, w') <==> s == PROC_STATE_IOF_COMPLETE && env.iofCloseSet)
      && (forall e :: e in Added(w, w') ==> e == ActivateProc(name, PROC_STATE_TERMINATED) || e == IofClose(name))
  {
    var (j, p) := Target(w, name).value;
    var jd := w.jobs[j].value;
    var pd := w.procs[p];
    assert w.jobs[j := Some(jd)] == w.jobs;
    if s == PROC_STATE_IOF_COMPLETE {
      StepFrame(w, j, jd, p, pd.(state := Guarded(pd.state, s), iofComplete := true),
                (if env.iofCloseSet then [IofClose(name)] else [])
                + (if pd.waitpid then [ActivateProc(name, PROC_STATE_TERMINATED)] else []));
    } else {
      StepFrame(w, j, jd, p, pd.(state := Guarded(pd.state, s), waitpid := true),
                if pd.iofComplete then [ActivateProc(name, PROC_STATE_TERMINATED)] else []);
    }
  }

  /** The effects the TERMINATED branch appends. */
  function TerminatedEffects(w: World, env: Env, j: JobRef, p: ProcRef, name: ProcName): seq<Effect>
    requires j < |w.jobs| && w.jobs[j].Some? && p < |w.procs|
  {
    var jd := w.jobs[j].value;
    var pd := w.procs[p].(alive := false, state := Guarded(w.procs[p].state, PROC_STATE_TERMINATED));
    var n := if Shortcut(env) then jd.numTerminated else jd.numTerminated + 1;
    LocalCleanup(jd, w.procs[p], name) +
      (if !Shortcut(env) then CountedEffects(env, j, jd, n, pd)
       else if AnyAlive(w.procs[p := pd], w.localChildren) then []
       else [ActivateJob(None, JOB_STATE_DAEMONS_TERMINATED)])
  }

  lemma TerminatedNoProcEffect(w: World, env: Env, j: JobRef, p: ProcRef, name: ProcName)
    requires j < |w.jobs| && w.jobs[j].Some? && p < |w.procs|
    ensures forall e :: e in TerminatedEffects(w, env, j, p, name) ==> !e.ActivateProc?
  {
    var jd := w.jobs[j].value;
    var pd := w.procs[p].(alive := false, state := Guarded(w.procs[p].state, PROC_STATE_TERMINATED));
    var n := if Shortcut(env) then jd.numTerminated else jd.numTerminated + 1;
    var local := LocalCleanup(jd, w.procs[p], name);
    var tail :=
      if !Shortcut(env) then CountedEffects(env, j, jd, n, pd)
      else if AnyAlive(w.procs[p := pd], w.localChildren) then []
      else [ActivateJob(None, JOB_STATE_DAEMONS_TERMINATED)];
    assert TerminatedEffects(w, env, j, p, name) == local + tail;
    assert forall e :: e in local ==> !e.ActivateProc?;
    assert forall e :: e in tail ==> !e.ActivateProc?;
  }

  /** The TERMINATED branch never asks for a proc activation. */
  lemma TerminatedAsksNoProc(w: World, env: Env, name: ProcName)
    requires Target(w, name).Some?
    ensures |w.effects| <= |Track(w, env, name, PROC_STATE_TERMINATED).effects|
    ensures forall e :: e in Added(w, Track(w, env, name, PROC_STATE_TERMINATED)) ==> !e.ActivateProc?
  {
    var (j, p) := Target(w, name).value;
    if w.procs[p].state != PROC_STATE_TERMINATED {
      assert Track(w, env, name, PROC_STATE_TERMINATED) == TrackTerminated(w, env, j, p, name);
      TerminatedFrame(w, env, j, p, name);
      TerminatedNoProcEffect(w, env, j, p, name);
    } else {
      assert Added(w, w) == [];
    }
  }

  /** No report of track_procs asks for a proc's termination unless both its flags are then set. */
  lemma TerminationNeedsBothFlags(w: World, env: Env, name: ProcName, s: int, e: Effect)
    requires Target(w, name).Some?
    ensures |w.effects| <= |Track(w, env, name, s).effects|
    ensures e in Added(w, Track(w, env, name, s)) && e.ActivateProc? ==>
      var p := Target(w, name).value.1;
      Track(w, env, name, s).procs[p].iofComplete && Track(w, env, name, s).procs[p].waitpid
  {
    TrackFrame(w, env, name, s);
    var (j, p) := Target(w, name).value;
    var w' := Track(w, env, name, s);
    if s == PROC_STATE_IOF_COMPLETE || s == PROC_STATE_WAITPID_FIRED {
      TrackHandshake(w, env, name, s);
    } else if s == PROC_STATE_RUNNING {
      TrackRunningCounts(w, env, name);
    } else if s == PROC_STATE_REGISTERED {
      TrackRegisteredCounts(w, env, name);
    } else if s == PROC_STATE_TERMINATED {
      TerminatedAsksNoProc(w, env, name);
    } else {
      assert Added(w, w') == [];
    }
  }

  /** A second TERMINATED for a proc already at TERMINATED changes nothing. */
  lemma TrackTerminatedDuplicate(w: World, env: Env, name: ProcName)
    requires Target(w, name).Some? && w.procs[Target(w, name).value.1].state == PROC_STATE_TERMINATED
    ensures Track(w, env, name, PROC_STATE_TERMINATED) == w
  {
  }

  /**
    TERMINATED for a proc not yet at TERMINATED clears its ALIVE flag and,
    unless the self-termination shortcut applies, counts one more
    terminated proc; job TERMINATED is activated exactly when that count
    reaches the job's number of procs, never under the shortcut.
  */
  lemma TrackTerminatedCounts(w: World, env: Env, name: ProcName)
    requires Target(w, name).Some? && w.procs[Target(w, name).value.1].state != PROC_STATE_TERMINATED
    ensures var (j, p) := Target(w, name).value;
      var w' := Track(w, env, name, PROC_STATE_TERMINATED);
      var jd := w.jobs[j].value;
      && !w'.procs[p].alive
      && w'.jobs[j].Some?
      && w'.jobs[j].value.numTerminated == jd.numTerminated + (if Shortcut(env) then 0 else 1)
      && |w.effects| <= |w'.effects|
      && (ActivateJob(Some(j), JOB_STATE_TERMINATED) in Added(w, w') <==>
            !Shortcut(env) && jd.numTerminated + 1 == jd.numProcs)
  {
    var (j, p) := Target(w, name).value;
    TerminatedFrame(w, env, j, p, name);
  }

  /**
    Once track_procs has moved a live proc to TERMINATED, a repeated
    TERMINATED for it is ignored: a normally terminating proc is counted once.
  */
  lemma TerminatedCountsOnce(w: World, env: Env, name: ProcName)
    requires Target(w, name).Some? && w.procs[Target(w, name).value.1].state < PROC_STATE_TERMINATED
    ensures var w1 := Track(w, env, name, PROC_STATE_TERMINATED);
      Track(w1, env, name, PROC_STATE_TERMINATED) == w1
  {
    var w1 := Track(w, env, name, PROC_STATE_TERMINATED);
    TrackFrame(w, env, name, PROC_STATE_TERMINATED);
    JobIndexFrame(w.jobs, w1.jobs, name.nspace);
    assert Target(w1, name) == Target(w, name);
    TrackGuard(w, env, name, PROC_STATE_TERMINATED);
  }

  /**
    A proc whose state is already abnormal (above TERMINATED) is counted
    again by every TERMINATED reported for it: the duplicate check only
    recognises TERMINATED itself.
  */
  lemma AbnormalProcCountedAgain(w: World, env: Env, name: ProcName)
    requires Target(w, name).Some? && !Shortcut(env)
    requires w.procs[Target(w, name).value.1].state > PROC_STATE_TERMINATED
    ensures var j := Target(w, name).value.0;
      var w1 := Track(w, env, name, PROC_STATE_TERMINATED);
      var w2 := Track(w1, env, name, PROC_STATE_TERMINATED);
      w2.jobs[j].Some? && w2.jobs[j].value.numTerminated == w.jobs[j].value.numTerminated + 2
  {
    var w1 := Track(w, env, name, PROC_STATE_TERMINATED);
    TrackFrame(w, env, name, PROC_STATE_TERMINATED);
    JobIndexFrame(w.jobs, w1.jobs, name.nspace);
    assert Target(w1, name) == Target(w, name);
    TrackGuard(w, env, name, PROC_STATE_TERMINATED);
    TrackTerminatedCounts(w, env, name);
    TrackTerminatedCounts(w1, env, name);
  }

  // ---------------------------------------------------------------------
  // local_launch_complete and cleanup_job

  /** local_launch_complete reports progress at every hundredth daemon and at the last one. */
  function LaunchProgress(env: Env, numDaemonsReported: int): (report: bool)
    ensures report <==>
      (env.reportLaunchProgress && ((exists k: int :: numDaemonsReported == 100 * k) || numDaemonsReported == env.numDaemons))
  {
    assert numDaemonsReported == 100 * (numDaemonsReported / 100) + numDaemonsReported % 100;
    env.reportLaunchProgress && (numDaemonsReported % 100 == 0 || numDaemonsReported == env.numDaemons)
  }

  // ---------------------------------------------------------------------
  // check_all_complete

  /** Marking a concluded job: TERMINATED unless it already reached UNTERMINATED or beyond. */
  function Concluded(state: int): int {
    if state < JOB_STATE_UNTERMINATED then JOB_STATE_TERMINATED else state
  }

  /** The non-zero exit report: exit status and warning, unless such jobs abort the run. */
  function NonzeroExit(env: Env, jd: JobRec): seq<Effect> {
    if jd.numNonzeroExit.Some? && !env.abortNonZeroExit then
      var primary := env.localJobid(jd.nspace) == 1;
      (if !env.reportChildJobsSeparately || primary then [UpdateExitStatus(0)] else [])
      + [NonzeroExitHelp(primary, jd.numNonzeroExit.value)]
    else []
  }

  /** The part of check_all_complete that concludes an ordinary job. */
  function Conclude(w: World, env: Env, j: JobRef): World
    requires j < |w.jobs| && w.jobs[j].Some?
  {
    var jd := w.jobs[j].value;
    var jd1 := jd.(state := Concluded(jd.state));
    w.(jobs := w.jobs[j := Some(jd1)],
       effects := w.effects
         + (if env.iofCompleteSet then [IofJobComplete(j)] else [])
         + [DeregisterNspace(jd.nspace)]
         + NonzeroExit(env, jd1))
  }

  /** A node slot holds a proc of namespace `ns`. */
  predicate Belongs(slot: Option<ProcRef>, procs: seq<ProcRec>, ns: string) {
    slot.Some? && slot.value < |procs| && CheckNspace(procs[slot.value].name.nspace, ns)
  }

  /** The inner release loop over a node's procs: the slots it leaves and how many it emptied. */
  function ReleaseSlots(slots: seq<Option<ProcRef>>, procs: seq<ProcRec>, ns: string): (r: (seq<Option<ProcRef>>, nat))
    ensures |r.0| == |slots|
  {
    if |slots| == 0 then ([], 0)
    else
      var (kept, n) := ReleaseSlots(slots[..|slots| - 1], procs, ns);
      var last := slots[|slots| - 1];
      if Belongs(last, procs, ns) then (kept + [None], n + 1) else (kept + [last], n)
  }

  /** The number of a node's slots that hold a proc of `ns`. */
  function CountBelonging(slots: seq<Option<ProcRef>>, procs: seq<ProcRec>, ns: string): nat {
    if |slots| == 0 then 0
    else CountBelonging(slots[..|slots| - 1], procs, ns) + (if Belongs(slots[|slots| - 1], procs, ns) then 1 else 0)
  }

  /**
    The release of a node's procs empties exactly the slots holding a proc
    of the job, keeps every other slot, and counts the emptied ones.
  */
  lemma {:induction false} ReleaseSlotsSpec(slots: seq<Option<ProcRef>>, procs: seq<ProcRec>, ns: string)
    ensures var (kept, n) := ReleaseSlots(slots, procs, ns);
      && n == CountBelonging(slots, procs, ns)
      && (forall i :: 0 <= i < |slots| ==> kept[i] == if Belongs(slots[i], procs, ns) then None else slots[i])
  {
    if |slots| > 0 {
      ReleaseSlotsSpec(slots[..|slots| - 1], procs, ns);
    }
  }

  /** One node's release: its slots, and its accounting unless the job is a debugger daemon or a tool. */
  function ReleaseNode(node: NodeRec, procs: seq<ProcRec>, ns: string, account: bool): NodeRec {
    var (kept, n) := ReleaseSlots(node.procs, procs, ns);
    node.(procs := kept,
          slotsInUse := if account then node.slotsInUse - n else node.slotsInUse,
          numProcs := if account then node.numProcs - n else node.numProcs)
  }

  /** The outer release loop over the job map's nodes, applied to the node arena. */
  function ReleaseNodes(nodes: seq<NodeRec>, refs: seq<Option<NodeRef>>, procs: seq<ProcRec>, ns: string, account: bool): (r: seq<NodeRec>)
    ensures |r| == |nodes|
  {
    if |refs| == 0 then nodes
    else
      var r := ReleaseNodes(nodes, refs[..|refs| - 1], procs, ns, account);
      var last := refs[|refs| - 1];
      if last.Some? && last.value < |r| then r[last.value := ReleaseNode(r[last.value], procs, ns, account)] else r
  }

  /** After the release no slot of a node of the map holds a proc of the job. */
  lemma ReleaseNodeEmpties(node: NodeRec, procs: seq<ProcRec>, ns: string, account: bool)
    ensures forall i :: 0 <= i < |ReleaseNode(node, procs, ns, account).procs| ==>
      !Belongs(ReleaseNode(node, procs, ns, account).procs[i], procs, ns)
    ensures |ReleaseNode(node, procs, ns, account).procs| == |node.procs|
  {
    ReleaseSlotsSpec(node.procs, procs, ns);
  }

  /**
    The release of a terminated job: nodes outside its map are untouched;
    every node on its map keeps no proc of the job; and a node listed once
    gives back, unless the job is a debugger daemon or a tool, one slot and
    one proc count per proc of the job it held.
  */
  lemma {:induction false} ReleaseNodesSpec(nodes: seq<NodeRec>, refs: seq<Option<NodeRef>>, procs: seq<ProcRec>, ns: string, account: bool)
    ensures var r := ReleaseNodes(nodes, refs, procs, ns, account);
      && (forall k :: 0 <= k < |nodes| && Some(k) !in refs ==> r[k] == nodes[k])
      && (forall k :: 0 <= k < |nodes| && Some(k) in refs ==>
            forall i :: 0 <= i < |r[k].procs| ==> !Belongs(r[k].procs[i], procs, ns))
      && (forall k :: 0 <= k < |nodes| && multiset(refs)[Some(k)] == 1 ==>
            r[k] == ReleaseNode(nodes[k], procs, ns, account))
  {
    if |refs| > 0 {
      var front := refs[..|refs| - 1];
      assert refs == front + [refs[|refs| - 1]];
      ReleaseNodesSpec(nodes, front, procs, ns, account);
      var r := ReleaseNodes(nodes, front, procs, ns, account);
      var last := refs[|refs| - 1];
      if last.Some? && last.value < |r| {
        ReleaseNodeEmpties(r[last.value], procs, ns, account);
      }
      forall k | 0 <= k < |nodes| && Some(k) !in refs
        ensures ReleaseNodes(nodes, refs, procs, ns, account)[k] == nodes[k]
      {
        assert Some(k) !in front;
      }
      forall k | 0 <= k < |nodes| && Some(k) in refs
        ensures var r' := ReleaseNodes(nodes, refs, procs, ns, account);
          forall i :: 0 <= i < |r'[k].procs| ==> !Belongs(r'[k].procs[i], procs, ns)
      {
        if last == Some(k) {
          ReleaseNodeEmpties(r[k], procs, ns, account);
        } else {
          assert Some(k) in front;
        }
      }
      forall k | 0 <= k < |nodes| && multiset(refs)[Some(k)] == 1
        ensures ReleaseNodes(nodes, refs, procs, ns, account)[k] == ReleaseNode(nodes[k], procs, ns, account)
      {
        assert multiset(refs) == multiset(front) + multiset{last};
        if last == Some(k) {
          assert Some(k) !in multiset(front);
          assert Some(k) !in front;
        } else {
          assert multiset(front)[Some(k)] == 1;
        }
      }
    }
  }

  /** The accounting of one release of a node: one slot and one proc per proc of the job. */
  lemma ReleaseNodeAccounting(node: NodeRec, procs: seq<ProcRec>, ns: string, account: bool)
    ensures var n := CountBelonging(node.procs, procs, ns);
      && ReleaseNode(node, procs, ns, account).slotsInUse == node.slotsInUse - (if account then n else 0)
      && ReleaseNode(node, procs, ns, account).numProcs == node.numProcs - (if account then n else 0)
  {
    ReleaseSlotsSpec(node.procs, procs, ns);
  }

  /** Resource release: only for a terminated job that still has a map; the map is dropped. */
  function Release(w: World, j: JobRef): World
    requires j < |w.jobs| && w.jobs[j].Some?
  {
    var jd := w.jobs[j].value;
    if jd.jobMap.Some? && jd.state == JOB_STATE_TERMINATED then
      w.(nodes := ReleaseNodes(w.nodes, jd.jobMap.value, w.procs, jd.nspace, !jd.debuggerDaemon && !jd.tool),
         jobs := w.jobs[j := Some(jd.(jobMap := None))])
    else w
  }

  /** What the alive scan does with one slot of the job table. */
  datatype ScanStep = ScanStep(slot: Option<JobRec>, alive: bool, effects: seq<Effect>)

  /**
    One slot of the alive scan: the daemon job is skipped; the job of the
    caddy (`jd`, at `jref`) is notified when TERMINATED and released from
    the table when KILLED_BY_CMD or NOTIFIED; any other monitored job not
    yet NOTIFIED is still alive.
  */
  function ScanOne(slot: Option<JobRec>, myNs: string, jref: JobRef, jd: JobRec): ScanStep {
    if slot.None? then ScanStep(slot, false, [])
    else if CheckNspace(slot.value.nspace, myNs) then ScanStep(slot, false, [])
    else if CheckNspace(slot.value.nspace, jd.nspace) then
      if jd.state == JOB_STATE_TERMINATED then ScanStep(slot, true, [ActivateJob(Some(jref), JOB_STATE_NOTIFY_COMPLETED)])
      else if jd.state == JOB_STATE_KILLED_BY_CMD || jd.state == JOB_STATE_NOTIFIED then ScanStep(None, false, [])
      else ScanStep(slot, false, [])
    else if slot.value.doNotMonitor then ScanStep(slot, false, [])
    else ScanStep(slot, slot.value.state != JOB_STATE_NOTIFIED, [])
  }

  /** The alive scan over the table, prefix by prefix. */
  function Scan(jobs: seq<Option<JobRec>>, myNs: string, jref: JobRef, jd: JobRec): (r: (seq<Option<JobRec>>, bool, seq<Effect>))
    ensures |r.0| == |jobs|
  {
    if |jobs| == 0 then ([], false, [])
    else
      var (kept, alive, effs) := Scan(jobs[..|jobs| - 1], myNs, jref, jd);
      var step := ScanOne(jobs[|jobs| - 1], myNs, jref, jd);
      (kept + [step.slot], alive || step.alive, effs + step.effects)
  }

  /** A slot of the table that, in the alive scan of the job `jd`, keeps the run going. */
  predicate KeepsAlive(slot: Option<JobRec>, myNs: string, jd: JobRec) {
    && slot.Some? && !CheckNspace(slot.value.nspace, myNs)
    && if CheckNspace(slot.value.nspace, jd.nspace) then jd.state == JOB_STATE_TERMINATED
       else !slot.value.doNotMonitor && slot.value.state != JOB_STATE_NOTIFIED
  }

  /** A slot of the table that the alive scan of the job `jd` empties. */
  predicate Dropped(slot: Option<JobRec>, myNs: string, jd: JobRec) {
    && slot.Some? && !CheckNspace(slot.value.nspace, myNs) && CheckNspace(slot.value.nspace, jd.nspace)
    && (jd.state == JOB_STATE_KILLED_BY_CMD || jd.state == JOB_STATE_NOTIFIED)
  }

  /** A slot for which the alive scan asks for NOTIFY_COMPLETED of the job `jd`. */
  predicate Notifies(slot: Option<JobRec>, myNs: string, jd: JobRec) {
    slot.Some? && !CheckNspace(slot.value.nspace, myNs) && CheckNspace(slot.value.nspace, jd.nspace)
    && jd.state == JOB_STATE_TERMINATED
  }

  lemma ScanOneSpec(slot: Option<JobRec>, myNs: string, jref: JobRef, jd: JobRec)
    ensures var st := ScanOne(slot, myNs, jref, jd);
      && st.slot == (if Dropped(slot, myNs, jd) then None else slot)
      && (st.alive <==> KeepsAlive(slot, myNs, jd))
      && st.effects == if Notifies(slot, myNs, jd) then [ActivateJob(Some(jref), JOB_STATE_NOTIFY_COMPLETED)] else []
  {
  }

  /**
    The alive scan empties exactly the dropped slots and keeps every other
    one, finds a job alive exactly when some slot keeps the run going, and
    asks for nothing but NOTIFY_COMPLETED of the concluded job, which it
    asks for exactly when some slot holds that job in state TERMINATED.
  */
  lemma {:induction false} ScanSpec(jobs: seq<Option<JobRec>>, myNs: string, jref: JobRef, jd: JobRec)
    ensures var r := Scan(jobs, myNs, jref, jd);
      && (forall i :: 0 <= i < |jobs| ==> r.0[i] == if Dropped(jobs[i], myNs, jd) then None else jobs[i])
      && (r.1 <==> exists i :: 0 <= i < |jobs| && KeepsAlive(jobs[i], myNs, jd))
      && (forall e :: e in r.2 ==> e == ActivateJob(Some(jref), JOB_STATE_NOTIFY_COMPLETED))
      && (ActivateJob(Some(jref), JOB_STATE_NOTIFY_COMPLETED) in r.2 <==>
            exists i :: 0 <= i < |jobs| && Notifies(jobs[i], myNs, jd))
  {
    if |jobs| > 0 {
      var front := jobs[..|jobs| - 1];
      var last := jobs[|jobs| - 1];
      ScanSpec(front, myNs, jref, jd);
      ScanOneSpec(last, myNs, jref, jd);
      assert forall i :: 0 <= i < |front| ==> front[i] == jobs[i];
      var r := Scan(jobs, myNs, jref, jd);
      if r.1 {
        if !KeepsAlive(last, myNs, jd) {
          var i :| 0 <= i < |front| && KeepsAlive(front[i], myNs, jd);
          assert KeepsAlive(jobs[i], myNs, jd);
        }
      } else {
        forall i | 0 <= i < |jobs| ensures !KeepsAlive(jobs[i], myNs, jd) {
          if i < |front| { assert jobs[i] == front[i]; }
        }
      }
      var alarm := ActivateJob(Some(jref), JOB_STATE_NOTIFY_COMPLETED);
      if alarm in r.2 {
        if !Notifies(last, myNs, jd) {
          var i :| 0 <= i < |front| && Notifies(front[i], myNs, jd);
          assert Notifies(jobs[i], myNs, jd);
        }
      } else {
        forall i | 0 <= i < |jobs| ensures !Notifies(jobs[i], myNs, jd) {
          if i < |front| { assert jobs[i] == front[i]; }
        }
      }
    }
  }

  /** CHECK_DAEMONS: with no routes left the daemons are done, for the given job or the daemon job. */
  function CheckDaemons(w: World, env: Env, jdata: Option<JobRef>): World {
    if env.numRoutes == 0 then
      var target := if jdata.Some? then jdata else JobLookup(w.jobs, env.myName.nspace);
      w.(effects := w.effects + [ActivateJob(target, JOB_STATE_DAEMONS_TERMINATED)])
    else w
  }

  /** CHECK_ALIVE for the concluded job at `j`: the scan, then the end of the run if nothing is alive. */
  function CheckAlive(w: World, env: Env, j: JobRef): World
    requires j < |w.jobs| && w.jobs[j].Some?
  {
    var (kept, alive, effs) := Scan(w.jobs, env.myName.nspace, j, w.jobs[j].value);
    var w1 := w.(jobs := kept, effects := w.effects + effs);
    if alive then w1
    else w1.(mpiexecTimeout := false,
             effects := w1.effects + (if w.mpiexecTimeout then [CancelTimeout] else []) + [UpdateExitStatus(0), TerminateDaemons])
  }

  /** The job concluded and, unless it is continuously operating or recoverable, its resources released. */
  function Prepared(w: World, env: Env, j: JobRef): (r: World)
    requires j < |w.jobs| && w.jobs[j].Some?
    ensures |r.jobs| == |w.jobs| && r.jobs[j].Some?
  {
    var w1 := Conclude(w, env, j);
    if w1.jobs[j].value.continuousOp || w1.jobs[j].value.recoverable then w1 else Release(w1, j)
  }

  /** prte_state_base_check_all_complete for the caddy's job (None for a NULL job). */
  function Completion(w: World, env: Env, jdata: Option<JobRef>): World
    requires jdata.Some? ==> jdata.value < |w.jobs| && w.jobs[jdata.value].Some?
  {
    if jdata.None? || CheckNspace(w.jobs[jdata.value].value.nspace, env.myName.nspace) then CheckDaemons(w, env, jdata)
    else CheckAlive(Prepared(w, env, jdata.value), env, jdata.value)
  }

  /** Resources are released for a job that concludes TERMINATED, still has a map and is neither continuous nor recoverable. */
  predicate Releases(jd: JobRec) {
    jd.jobMap.Some? && Concluded(jd.state) == JOB_STATE_TERMINATED && !jd.continuousOp && !jd.recoverable
  }

  /** The effects of concluding a job: IOF completion, the PMIx deregistration and the non-zero exit report. */
  function ConcludeEffects(env: Env, j: JobRef, jd: JobRec): seq<Effect> {
    (if env.iofCompleteSet then [IofJobComplete(j)] else [])
    + [DeregisterNspace(jd.nspace)]
    + NonzeroExit(env, jd.(state := Concluded(jd.state)))
  }

  lemma PreparedSpec(w: World, env: Env, j: JobRef)
    requires j < |w.jobs| && w.jobs[j].Some?
    ensures var jd := w.jobs[j].value;
      var r := Prepared(w, env, j);
      && r.jobs == w.jobs[j := Some(jd.(state := Concluded(jd.state), jobMap := if Releases(jd) then None else jd.jobMap))]
      && r.nodes == (if Releases(jd) then ReleaseNodes(w.nodes, jd.jobMap.value, w.procs, jd.nspace, !jd.debuggerDaemon && !jd.tool)
                     else w.nodes)
      && r.procs == w.procs && r.localChildren == w.localChildren && r.mpiexecTimeout == w.mpiexecTimeout
      && r.effects == w.effects + ConcludeEffects(env, j, jd)
  {
    var jd := w.jobs[j].value;
    var w1 := Conclude(w, env, j);
    assert w1.jobs[j].value == jd.(state := Concluded(jd.state));
    assert w1.effects == w.effects + ConcludeEffects(env, j, jd);
  }

  /** Marking a job concluded keeps an abnormal state and never lowers one: it reaches at least UNTERMINATED. */
  lemma ConcludedNeverLowers(state: int)
    ensures Concluded(state) >= state && Concluded(state) >= JOB_STATE_UNTERMINATED
    ensures state >= JOB_STATE_UNTERMINATED ==> Concluded(state) == state
    ensures state < JOB_STATE_UNTERMINATED ==> Concluded(state) == JOB_STATE_TERMINATED
  {
  }

  /** The pieces of CHECK_ALIVE: the scan's table and effects, then the end of the run if nothing is alive. */
  lemma CheckAliveParts(w: World, env: Env, j: JobRef)
    requires j < |w.jobs| && w.jobs[j].Some?
    ensures var r := CheckAlive(w, env, j);
      var sc := Scan(w.jobs, env.myName.nspace, j, w.jobs[j].value);
      && r.jobs == sc.0 && r.nodes == w.nodes && r.procs == w.procs && r.localChildren == w.localChildren
      && r.mpiexecTimeout == (sc.1 && w.mpiexecTimeout)
      && r.effects == w.effects + sc.2 + EndOfRun(w, sc.1)
  {
  }

  /** What the end of the run appends: nothing while a job is alive; else stop the timeout, exit status 0, terminate the daemons. */
  function EndOfRun(w: World, alive: bool): seq<Effect> {
    if alive then [] else (if w.mpiexecTimeout then [CancelTimeout] else []) + [UpdateExitStatus(0), TerminateDaemons]
  }

  /**
    A NULL job, or the daemon job itself: no table, node or timer is
    touched; DAEMONS_TERMINATED is activated, once, exactly when no routes
    are left, for the job given or else for the daemon job found in the table.
  */
  lemma CompletionOfDaemons(w: World, env: Env, jdata: Option<JobRef>)
    requires jdata.Some? ==> jdata.value < |w.jobs| && w.jobs[jdata.value].Some?
    requires jdata.None? || CheckNspace(w.jobs[jdata.value].value.nspace, env.myName.nspace)
    ensures var r := Completion(w, env, jdata);
      && r.jobs == w.jobs && r.nodes == w.nodes && r.procs == w.procs && r.mpiexecTimeout == w.mpiexecTimeout
      && |w.effects| <= |r.effects| && r.effects[..|w.effects|] == w.effects
      && (Added(w, r) != [] <==> env.numRoutes == 0)
      && (Added(w, r) != [] ==>
            && |Added(w, r)| == 1
            && Added(w, r)[0].ActivateJob? && Added(w, r)[0].state == JOB_STATE_DAEMONS_TERMINATED
            && (jdata.Some? ==> Added(w, r)[0].jdata == jdata)
            && (jdata.None? && Added(w, r)[0].jdata.Some? ==>
                  var k := Added(w, r)[0].jdata.value;
                  k < |w.jobs| && JobMatches(w.jobs[k], env.myName.nspace)))
  {
    var r := Completion(w, env, jdata);
    if env.numRoutes == 0 {
      var target := if jdata.Some? then jdata else JobLookup(w.jobs, env.myName.nspace);
      assert r.effects == w.effects + [ActivateJob(target, JOB_STATE_DAEMONS_TERMINATED)];
      assert Added(w, r) == [ActivateJob(target, JOB_STATE_DAEMONS_TERMINATED)];
    } else {
      assert Added(w, r) == [];
    }
  }

  /** The job as check_all_complete leaves it in its own slot, when that slot is kept. */
  function Finished(jd: JobRec): JobRec {
    jd.(state := Concluded(jd.state), jobMap := if Releases(jd) then None else jd.jobMap)
  }

  /**
    check_all_complete of an ordinary job: its own slot is emptied when the
    job concluded KILLED_BY_CMD or NOTIFIED, and otherwise holds the
    concluded job, without its map when its resources were released; any
    other slot is emptied exactly when it holds the same namespace and the
    job concluded KILLED_BY_CMD or NOTIFIED, and is kept otherwise.
  */
  lemma CompletionJobs(w: World, env: Env, j: JobRef)
    requires j < |w.jobs| && w.jobs[j].Some? && !CheckNspace(w.jobs[j].value.nspace, env.myName.nspace)
    ensures var jd := w.jobs[j].value;
      var r := Completion(w, env, Some(j));
      var c := Concluded(jd.state);
      && |r.jobs| == |w.jobs|
      && r.jobs[j] == (if c == JOB_STATE_KILLED_BY_CMD || c == JOB_STATE_NOTIFIED then None else Some(Finished(jd)))
      && (forall i :: 0 <= i < |w.jobs| && i != j ==>
            r.jobs[i] == if Dropped(w.jobs[i], env.myName.nspace, Finished(jd)) then None else w.jobs[i])
  {
    var jd := w.jobs[j].value;
    var p := Prepared(w, env, j);
    PreparedSpec(w, env, j);
    CheckAliveParts(p, env, j);
    ScanSpec(p.jobs, env.myName.nspace, j, p.jobs[j].value);
    assert p.jobs[j].value == Finished(jd);
  }

  /**
    The node arena after check_all_complete of an ordinary job: released
    along the job's map exactly when the job concluded TERMINATED with a map
    and is neither continuous nor recoverable, untouched otherwise; no proc
    object changes.
  */
  lemma CompletionNodes(w: World, env: Env, j: JobRef)
    requires j < |w.jobs| && w.jobs[j].Some? && !CheckNspace(w.jobs[j].value.nspace, env.myName.nspace)
    ensures var jd := w.jobs[j].value;
      var r := Completion(w, env, Some(j));
      && r.procs == w.procs && r.localChildren == w.localChildren
      && r.nodes == if Releases(jd) then ReleaseNodes(w.nodes, jd.jobMap.value, w.procs, jd.nspace, !jd.debuggerDaemon && !jd.tool)
                    else w.nodes
  {
    PreparedSpec(w, env, j);
    CheckAliveParts(Prepared(w, env, j), env, j);
  }

  /** The effects of an ordinary job's check_all_complete, in order. */
  lemma CompletionEffects(w: World, env: Env, j: JobRef)
    requires j < |w.jobs| && w.jobs[j].Some? && !CheckNspace(w.jobs[j].value.nspace, env.myName.nspace)
    ensures var jd := w.jobs[j].value;
      var r := Completion(w, env, Some(j));
      var p := Prepared(w, env, j);
      var sc := Scan(p.jobs, env.myName.nspace, j, p.jobs[j].value);
      && |w.effects| <= |r.effects| && r.effects[..|w.effects|] == w.effects
      && Added(w, r) == ConcludeEffects(env, j, jd) + sc.2 + EndOfRun(p, sc.1)
      && r.mpiexecTimeout == (sc.1 && w.mpiexecTimeout)
  {
    var jd := w.jobs[j].value;
    var r := Completion(w, env, Some(j));
    var p := Prepared(w, env, j);
    var sc := Scan(p.jobs, env.myName.nspace, j, p.jobs[j].value);
    PreparedSpec(w, env, j);
    CheckAliveParts(p, env, j);
    var tail := ConcludeEffects(env, j, jd) + sc.2 + EndOfRun(p, sc.1);
    assert r.effects == w.effects + tail;
    assert r.effects[..|w.effects|] == w.effects;
    assert r.effects[|w.effects|..] == tail;
  }

  /**
    All jobs are done: check_all_complete of an ordinary job ends the run
    (stops the timeout, sets exit status 0, orders the daemons to
    terminate) exactly when the job did not conclude TERMINATED and no
    other monitored job outside the daemon job is short of NOTIFIED, where
    a job of the same namespace counts as the concluded job itself.
  */
  lemma CompletionAllDone(w: World, env: Env, j: JobRef)
    requires j < |w.jobs| && w.jobs[j].Some? && !CheckNspace(w.jobs[j].value.nspace, env.myName.nspace)
    ensures var jd := w.jobs[j].value;
      var r := Completion(w, env, Some(j));
      && |w.effects| <= |r.effects|
      && (TerminateDaemons in Added(w, r) <==>
            && Concluded(jd.state) != JOB_STATE_TERMINATED
            && forall i :: 0 <= i < |w.jobs| && i != j ==> !KeepsAlive(w.jobs[i], env.myName.nspace, Finished(jd)))
      && (TerminateDaemons in Added(w, r) ==> UpdateExitStatus(0) in Added(w, r) && !r.mpiexecTimeout)
      && (TerminateDaemons in Added(w, r) && w.mpiexecTimeout ==> CancelTimeout in Added(w, r))
      && (TerminateDaemons !in Added(w, r) ==> r.mpiexecTimeout == w.mpiexecTimeout)
  {
    var jd := w.jobs[j].value;
    var myNs := env.myName.nspace;
    var r := Completion(w, env, Some(j));
    var p := Prepared(w, env, j);
    var sc := Scan(p.jobs, myNs, j, p.jobs[j].value);
    CompletionEffects(w, env, j);
    PreparedSpec(w, env, j);
    ScanSpec(p.jobs, myNs, j, p.jobs[j].value);
    assert p.jobs[j].value == Finished(jd);
    assert KeepsAlive(p.jobs[j], myNs, Finished(jd)) <==> Concluded(jd.state) == JOB_STATE_TERMINATED;
    assert forall i :: 0 <= i < |w.jobs| && i != j ==> p.jobs[i] == w.jobs[i];
    assert TerminateDaemons !in ConcludeEffects(env, j, jd);
    assert TerminateDaemons !in sc.2;
    assert TerminateDaemons in Added(w, r) <==> !sc.1;
  }

  /**
    A job of the caddy's namespace is notified (NOTIFY_COMPLETED) exactly
    when the job concluded TERMINATED, and the PMIx server is always told to
    deregister its namespace.
  */
  lemma CompletionNotifies(w: World, env: Env, j: JobRef)
    requires j < |w.jobs| && w.jobs[j].Some? && !CheckNspace(w.jobs[j].value.nspace, env.myName.nspace)
    ensures var jd := w.jobs[j].value;
      var r := Completion(w, env, Some(j));
      && |w.effects| <= |r.effects|
      && (ActivateJob(Some(j), JOB_STATE_NOTIFY_COMPLETED) in Added(w, r) <==> Concluded(jd.state) == JOB_STATE_TERMINATED)
      && DeregisterNspace(jd.nspace) in Added(w, r)
  {
    var jd := w.jobs[j].value;
    var myNs := env.myName.nspace;
    var r := Completion(w, env, Some(j));
    var p := Prepared(w, env, j);
    var sc := Scan(p.jobs, myNs, j, p.jobs[j].value);
    CompletionEffects(w, env, j);
    PreparedSpec(w, env, j);
    ScanSpec(p.jobs, myNs, j, p.jobs[j].value);
    var alarm := ActivateJob(Some(j), JOB_STATE_NOTIFY_COMPLETED);
    assert Notifies(p.jobs[j], myNs, p.jobs[j].value) <==> Concluded(jd.state) == JOB_STATE_TERMINATED;
    assert alarm !in ConcludeEffects(env, j, jd);
    assert alarm !in EndOfRun(p, sc.1);
    assert DeregisterNspace(jd.nspace) in ConcludeEffects(env, j, jd);
  }

  /** prte_state_base_cleanup_job: the job is flagged NOTIFIED and sent back through TERMINATED. */
  function Cleanup(w: World, j: JobRef): World
    requires j < |w.jobs| && w.jobs[j].Some?
  {
    w.(jobs := w.jobs[j := Some(w.jobs[j].value.(state := JOB_STATE_NOTIFIED))],
       effects := w.effects + [ActivateJob(Some(j), JOB_STATE_TERMINATED)])
  }

  /**
    The life of a job that terminated normally: its first check_all_complete
    keeps it in the table as TERMINATED and asks for NOTIFY_COMPLETED; after
    cleanup_job flags it NOTIFIED, the next check_all_complete takes it out
    of the table and leaves the nodes as they were.
  */
  lemma JobLifecycle(w: World, env: Env, j: JobRef)
    requires j < |w.jobs| && w.jobs[j].Some? && !CheckNspace(w.jobs[j].value.nspace, env.myName.nspace)
    requires w.jobs[j].value.state < JOB_STATE_UNTERMINATED
    ensures var w1 := Completion(w, env, Some(j));
      && |w.effects| <= |w1.effects|
      && ActivateJob(Some(j), JOB_STATE_NOTIFY_COMPLETED) in Added(w, w1)
      && TerminateDaemons !in Added(w, w1)
      && j < |w1.jobs| && w1.jobs[j].Some? && w1.jobs[j].value.state == JOB_STATE_TERMINATED
      && var w3 := Completion(Cleanup(w1, j), env, Some(j));
         && j < |w3.jobs| && w3.jobs[j].None?
         && w3.nodes == w1.nodes
  {
    var w1 := Completion(w, env, Some(j));
    CompletionJobs(w, env, j);
    CompletionNotifies(w, env, j);
    CompletionAllDone(w, env, j);
    var w2 := Cleanup(w1, j);
    CompletionJobs(w2, env, j);
    CompletionNodes(w2, env, j);
  }
}
