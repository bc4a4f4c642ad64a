/**
  The handlers of src/mca/state/base/state_base_fns.c as the event loop runs
  them: they update the runtime's global tables in place.  Each method is
  proved to leave the tables exactly as the matching function of StateTrack
  says, so the lemmas proved there hold for it.
*/
module StateRuntime {
  import opened Types
  import opened StateRegistry
  import opened StateTrack

  /** The job table, the proc and node objects, the local children, the timeout event and the effects so far. */
  class Runtime {
    var jobs: seq<Option<JobRec>>
    var procs: seq<ProcRec>
    var nodes: seq<NodeRec>
    var localChildren: seq<Option<ProcRef>>
    var mpiexecTimeout: bool
    var effects: seq<Effect>

    constructor (w: World)
      ensures Snapshot() == w
    {
      jobs := w.jobs;
      procs := w.procs;
      nodes := w.nodes;
      localChildren := w.localChildren;
      mpiexecTimeout := w.mpiexecTimeout;
      effects := w.effects;
    }

    function Snapshot(): World
      reads this
    {
      World(jobs, procs, nodes, localChildren, mpiexecTimeout, effects)
    }

    // -------------------------------------------------------------------
    // track_procs

    /** prte_state_base_track_procs for the caddy (name, s). */
    method TrackProcs(env: Env, name: ProcName, s: int)
      modifies this
      ensures Snapshot() == Track(old(Snapshot()), env, name, s)
    {
      var j := FindJob(jobs, name.nspace);
      if j == |jobs| {
        return;
      }
      var jd := jobs[j].value;
      if !(name.rank < |jd.procs| && jd.procs[name.rank].Some? && jd.procs[name.rank].value < |procs|) {
        return;
      }
      var p := jd.procs[name.rank].value;
      assert Target(Snapshot(), name) == Some((j, p));
      if s == PROC_STATE_RUNNING {
        Running(j, p);
      } else if s == PROC_STATE_REGISTERED {
        Registered(j, p);
      } else if s == PROC_STATE_IOF_COMPLETE {
        IofComplete(env, j, p, name);
      } else if s == PROC_STATE_WAITPID_FIRED {
        Waitpid(j, p, name);
      } else if s == PROC_STATE_TERMINATED {
        if procs[p].state == PROC_STATE_TERMINATED {
          return;
        }
        Terminated(env, j, p, name);
      }
    }

    method Running(j: JobRef, p: ProcRef)
      requires j < |jobs| && jobs[j].Some? && p < |procs|
      modifies this
      ensures Snapshot() == TrackRunning(old(Snapshot()), j, p)
    {
      var jd := jobs[j].value;
      if procs[p].state < PROC_STATE_TERMINATED {
        procs := procs[p := procs[p].(state := PROC_STATE_RUNNING)];
      }
      jd := jd.(numLaunched := jd.numLaunched + 1);
      jobs := jobs[j := Some(jd)];
      ghost var before := effects;
      if jd.numLaunched == 1 {
        effects := effects + [ActivateJob(Some(j), JOB_STATE_STARTED)];
      }
      if jd.numLaunched == jd.numProcs {
        effects := effects + [ActivateJob(Some(j), JOB_STATE_RUNNING)];
      }
      assert effects == before
        + ((if jd.numLaunched == 1 then [ActivateJob(Some(j), JOB_STATE_STARTED)] else [])
           + (if jd.numLaunched == jd.numProcs then [ActivateJob(Some(j), JOB_STATE_RUNNING)] else []));
    }

    method Registered(j: JobRef, p: ProcRef)
      requires j < |jobs| && jobs[j].Some? && p < |procs|
      modifies this
      ensures Snapshot() == TrackRegistered(old(Snapshot()), j, p)
    {
      var jd := jobs[j].value;
      if procs[p].state < PROC_STATE_TERMINATED {
        procs := procs[p := procs[p].(state := PROC_STATE_REGISTERED)];
      }
      jd := jd.(numReported := jd.numReported + 1);
      jobs := jobs[j := Some(jd)];
      if jd.numReported == jd.numProcs {
        effects := effects + [ActivateJob(Some(j), JOB_STATE_REGISTERED)];
      } else {
        assert effects == effects + [];
      }
    }

    method IofComplete(env: Env, j: JobRef, p: ProcRef, name: ProcName)
      requires j < |jobs| && jobs[j].Some? && p < |procs|
      modifies this
      ensures Snapshot() == TrackIofComplete(old(Snapshot()), env, j, p, name)
    {
      ghost var before := effects;
      assert jobs[j := Some(jobs[j].value)] == jobs;
      if procs[p].state < PROC_STATE_TERMINATED {
        procs := procs[p := procs[p].(state := PROC_STATE_IOF_COMPLETE)];
      }
      if env.iofCloseSet {
        effects := effects + [IofClose(name)];
      }
      procs := procs[p := procs[p].(iofComplete := true)];
      if procs[p].waitpid {
        effects := effects + [ActivateProc(name, PROC_STATE_TERMINATED)];
      }
      assert effects == before
        + ((if env.iofCloseSet then [IofClose(name)] else [])
           + (if procs[p].waitpid then [ActivateProc(name, PROC_STATE_TERMINATED)] else []));
    }

    method Waitpid(j: JobRef, p: ProcRef, name: ProcName)
      requires j < |jobs| && jobs[j].Some? && p < |procs|
      modifies this
      ensures Snapshot() == TrackWaitpid(old(Snapshot()), j, p, name)
    {
      assert jobs[j := Some(jobs[j].value)] == jobs;
      if procs[p].state < PROC_STATE_TERMINATED {
        procs := procs[p := procs[p].(state := PROC_STATE_WAITPID_FIRED)];
      }
      procs := procs[p := procs[p].(waitpid := true)];
      if procs[p].iofComplete {
        effects := effects + [ActivateProc(name, PROC_STATE_TERMINATED)];
      } else {
        assert effects == effects + [];
      }
    }

    /** The TERMINATED branch past its duplicate check. */
    method Terminated(env: Env, j: JobRef, p: ProcRef, name: ProcName)
      requires j < |jobs| && jobs[j].Some? && p < |procs|
      modifies this
      ensures Snapshot() == TrackTerminated(old(Snapshot()), env, j, p, name)
    {
      ghost var w := Snapshot();
      ReleaseProc(p, name, jobs[j].value);
      if env.prtedsTermOrdered && env.numRoutes == 0 {
        SelfTermination(w, env, j, p, name);
      } else {
        CountTermination(w, env, j, p, name);
      }
    }

    /** The prted self-termination shortcut: with no routes left, wait for the last local child. */
    method SelfTermination(ghost w: World, env: Env, j: JobRef, p: ProcRef, name: ProcName)
      requires j < |w.jobs| && w.jobs[j].Some? && p < |w.procs|
      requires Shortcut(env) && Released(w, j, p, name)
      modifies this`effects
      ensures Snapshot() == TrackTerminated(w, env, j, p, name)
    {
      ghost var local := LocalCleanup(w.jobs[j].value, w.procs[p], name);
      assert jobs[j := Some(w.jobs[j].value.(numTerminated := w.jobs[j].value.numTerminated))] == jobs;
      var any := AnyLocalAlive(procs, localChildren);
      if !any {
        effects := effects + [ActivateJob(None, JOB_STATE_DAEMONS_TERMINATED)];
        assert effects == w.effects + (local + [ActivateJob(None, JOB_STATE_DAEMONS_TERMINATED)]);
      } else {
        assert effects == w.effects + (local + []);
      }
    }

    /** The state past ReleaseProc: the proc's flags set and the local cleanup done, nothing else changed. */
    ghost predicate Released(w: World, j: JobRef, p: ProcRef, name: ProcName)
      requires j < |w.jobs| && w.jobs[j].Some? && p < |w.procs|
      reads this
    {
      && jobs == w.jobs && nodes == w.nodes && localChildren == w.localChildren && mpiexecTimeout == w.mpiexecTimeout
      && procs == w.procs[p := w.procs[p].(alive := false, state := Guarded(w.procs[p].state, PROC_STATE_TERMINATED))]
      && effects == w.effects + LocalCleanup(w.jobs[j].value, w.procs[p], name)
    }

    /** The counted part of TERMINATED: one more terminated proc, then the job's conclusion or the abort notice. */
    method CountTermination(ghost w: World, env: Env, j: JobRef, p: ProcRef, name: ProcName)
      requires j < |w.jobs| && w.jobs[j].Some? && p < |w.procs|
      requires !Shortcut(env) && Released(w, j, p, name)
      modifies this`jobs, this`effects
      ensures Snapshot() == TrackTerminated(w, env, j, p, name)
    {
      ghost var local := LocalCleanup(w.jobs[j].value, w.procs[p], name);
      var jd := jobs[j].value;
      jd := jd.(numTerminated := jd.numTerminated + 1);
      jobs := jobs[j := Some(jd)];
      var pd := procs[p];
      if jd.numTerminated == jd.numProcs {
        if env.runFdcheck {
          effects := effects + [CheckFds(j)];
        }
        if env.dataServerUri {
          effects := effects + [NotifyDataServer(ProcName(jd.nspace, RANK_WILDCARD))];
        }
        effects := effects + [ActivateJob(Some(j), JOB_STATE_TERMINATED)];
      } else if PROC_STATE_TERMINATED < pd.state && !env.jobTermOrdered {
        if !env.enableFt {
          effects := effects + [ProcAborted(pd.state, pd.name, ProcName(jd.nspace, RANK_WILDCARD))];
        }
      }
      assert effects == w.effects + (local + CountedEffects(env, j, w.jobs[j].value, jd.numTerminated, pd));
    }

    /** The flags of a terminated proc and the cleanup of a local one. */
    method ReleaseProc(p: ProcRef, name: ProcName, jd: JobRec)
      requires p < |procs|
      modifies this`procs, this`effects
      ensures procs == old(procs)[p := old(procs[p]).(alive := false, state := Guarded(old(procs[p].state), PROC_STATE_TERMINATED))]
      ensures effects == old(effects) + LocalCleanup(jd, old(procs[p]), name)
    {
      procs := procs[p := procs[p].(alive := false)];
      if procs[p].state < PROC_STATE_TERMINATED {
        procs := procs[p := procs[p].(state := PROC_STATE_TERMINATED)];
      }
      if procs[p].local {
        effects := effects + [DeregisterClient(name)];
        if !jd.debuggerDaemon && !jd.tool {
          effects := effects + [SessionDirFinalize(name)];
        }
      }
    }

    // -------------------------------------------------------------------
    // local_launch_complete and cleanup_job

    /** prte_state_base_local_launch_complete for the job at `j`. */
    method LocalLaunchComplete(env: Env, j: JobRef)
      requires j < |jobs| && jobs[j].Some?
      modifies this`effects
      ensures effects == old(effects)
        + if LaunchProgress(env, jobs[j].value.numDaemonsReported) then [ActivateJob(Some(j), JOB_STATE_REPORT_PROGRESS)] else []
    {
      var jd := jobs[j].value;
      if env.reportLaunchProgress {
        if jd.numDaemonsReported % 100 == 0 || jd.numDaemonsReported == env.numDaemons {
          effects := effects + [ActivateJob(Some(j), JOB_STATE_REPORT_PROGRESS)];
          return;
        }
      }
      assert effects == effects + [];
    }

    /** prte_state_base_cleanup_job for the job at `j`. */
    method CleanupJob(j: JobRef)
      requires j < |jobs| && jobs[j].Some?
      modifies this`jobs, this`effects
      ensures Snapshot() == Cleanup(old(Snapshot()), j)
    {
      jobs := jobs[j := Some(jobs[j].value.(state := JOB_STATE_NOTIFIED))];
      effects := effects + [ActivateJob(Some(j), JOB_STATE_TERMINATED)];
    }
 

    // -------------------------------------------------------------------
    // check_all_complete

    /** prte_state_base_check_all_complete for the caddy's job (None for a NULL job). */
    method CheckAllComplete(env: Env, jdata: Option<JobRef>)
      requires jdata.Some? ==> jdata.value < |jobs| && jobs[jdata.value].Some?
      modifies this
      ensures Snapshot() == Completion(old(Snapshot()), env, jdata)
    {
      if jdata.None? || CheckNspace(jobs[jdata.value].value.nspace, env.myName.nspace) {
        if env.numRoutes == 0 {
          var target := jdata;
          if target.None? {
            var k := FindJob(jobs, env.myName.nspace);
            target := if k < |jobs| then Some(k) else None;
          }
          effects := effects + [ActivateJob(target, JOB_STATE_DAEMONS_TERMINATED)];
        }
        return;
      }
      var j := jdata.value;
      ConcludeJob(env, j);
      if !(jobs[j].value.continuousOp || jobs[j].value.recoverable) {
        ReleaseResources(j);
      }
      CheckJobsAlive(env, j);
    }

    /** The job marked concluded, the IOF and the PMIx server told, and a non-zero exit reported. */
    method ConcludeJob(env: Env, j: JobRef)
      requires j < |jobs| && jobs[j].Some?
      modifies this`jobs, this`effects
      ensures Snapshot() == Conclude(old(Snapshot()), env, j)
    {
      var jd := jobs[j].value;
      if jd.state < JOB_STATE_UNTERMINATED {
        jd := jd.(state := JOB_STATE_TERMINATED);
        jobs := jobs[j := Some(jd)];
      } else {
        assert jobs[j := Some(jd)] == jobs;
      }
      ReportConclusion(env, j, jd);
    }

    /** The notices of a concluded job: IOF completion, PMIx deregistration, the non-zero exit report. */
    method ReportConclusion(env: Env, j: JobRef, jd: JobRec)
      modifies this`effects
      ensures effects == old(effects)
        + (if env.iofCompleteSet then [IofJobComplete(j)] else [])
        + [DeregisterNspace(jd.nspace)]
        + NonzeroExit(env, jd)
    {
      if env.iofCompleteSet {
        effects := effects + [IofJobComplete(j)];
      }
      effects := effects + [DeregisterNspace(jd.nspace)];
      ghost var mid := effects;
      if jd.numNonzeroExit.Some? && !env.abortNonZeroExit {
        var primary := env.localJobid(jd.nspace) == 1;
        if !env.reportChildJobsSeparately || primary {
          effects := effects + [UpdateExitStatus(0)];
        }
        effects := effects + [NonzeroExitHelp(primary, jd.numNonzeroExit.value)];
      }
      assert effects == mid + NonzeroExit(env, jd);
    }

    /** The release of a terminated job's resources, node by node of its map, then the map itself. */
    method ReleaseResources(j: JobRef)
      requires j < |jobs| && jobs[j].Some?
      modifies this`jobs, this`nodes
      ensures Snapshot() == Release(old(Snapshot()), j)
    {
      var jd := jobs[j].value;
      if !(jd.jobMap.Some? && jd.state == JOB_STATE_TERMINATED) {
        return;
      }
      var refs := jd.jobMap.value;
      var account := !jd.debuggerDaemon && !jd.tool;
      var index := 0;
      while index < |refs|
        invariant 0 <= index <= |refs|
        invariant nodes == ReleaseNodes(old(nodes), refs[..index], procs, jd.nspace, account)
        invariant jobs == old(jobs)
      {
        assert refs[..index + 1][..index] == refs[..index];
        var r := refs[index];
        if r.Some? && r.value < |nodes| {
          ReleaseNodeProcs(r.value, jd.nspace, account);
        }
        index := index + 1;
      }
      assert refs[..index] == refs;
      jobs := jobs[j := Some(jd.(jobMap := None))];
    }

    /** The release of one node's procs of namespace `ns`. */
    method ReleaseNodeProcs(k: NodeRef, ns: string, account: bool)
      requires k < |nodes|
      modifies this`nodes
      ensures nodes == old(nodes)[k := StateTrack.ReleaseNode(old(nodes[k]), procs, ns, account)]
    {
      var nd := ReleaseProcsOf(nodes[k], procs, ns, account);
      nodes := nodes[k := nd];
    }

    /** The alive scan of the job table, then the end of the run if no job is alive. */
    method CheckJobsAlive(env: Env, j: JobRef)
      requires j < |jobs| && jobs[j].Some?
      modifies this`jobs, this`effects, this`mpiexecTimeout
      ensures Snapshot() == CheckAlive(old(Snapshot()), env, j)
    {
      var kept, oneStillAlive, notices := AliveScan(jobs, env.myName.nspace, j, jobs[j].value);
      jobs := kept;
      effects := effects + notices;
      if oneStillAlive {
        return;
      }
      ghost var scanned := effects;
      if mpiexecTimeout {
        effects := effects + [CancelTimeout];
        mpiexecTimeout := false;
      }
      effects := effects + [UpdateExitStatus(0), TerminateDaemons];
      assert effects == scanned + EndOfRun(old(Snapshot()), false);
    }
  }

  /**
    The alive scan over a job table: the daemon job is skipped; the caddy's
    job is asked for NOTIFY_COMPLETED when TERMINATED and its slots emptied
    when KILLED_BY_CMD or NOTIFIED; any other monitored job short of
    NOTIFIED keeps the run alive.
  */
  method AliveScan(table: seq<Option<JobRec>>, myNs: string, j: JobRef, jdata: JobRec)
    returns (jobs: seq<Option<JobRec>>, oneStillAlive: bool, notices: seq<Effect>)
    ensures (jobs, oneStillAlive, notices) == Scan(table, myNs, j, jdata)
  {
    jobs := table;
    oneStillAlive := false;
    notices := [];
    var n := 0;
    while n < |jobs|
      invariant 0 <= n <= |table| && |jobs| == |table|
      invariant jobs == Scan(table[..n], myNs, j, jdata).0 + table[n..]
      invariant oneStillAlive == Scan(table[..n], myNs, j, jdata).1
      invariant notices == Scan(table[..n], myNs, j, jdata).2
    {
      ScanAdvance(table, n, myNs, j, jdata);
      ghost var step := ScanOne(table[n], myNs, j, jdata);
      ghost var (jobs0, alive0, notices0) := (jobs, oneStillAlive, notices);
      var job := jobs[n];
      assert job == table[n];
      if job.None? {
      } else if CheckNspace(job.value.nspace, myNs) {
      } else if CheckNspace(job.value.nspace, jdata.nspace) {
        if jdata.state == JOB_STATE_TERMINATED {
          notices := notices + [ActivateJob(Some(j), JOB_STATE_NOTIFY_COMPLETED)];
          oneStillAlive := true;
        } else if jdata.state == JOB_STATE_KILLED_BY_CMD || jdata.state == JOB_STATE_NOTIFIED {
          jobs := jobs[n := None];
        }
      } else if job.value.doNotMonitor {
      } else if job.value.state != JOB_STATE_NOTIFIED {
        oneStillAlive := true;
      }
      assert jobs == jobs0[n := step.slot];
      assert notices == notices0 + step.effects;
      assert oneStillAlive == (alive0 || step.alive);
      n := n + 1;
    }
    assert table[..n] == table && table[n..] == [];
    ghost var r := Scan(table, myNs, j, jdata);
    assert jobs == r.0 + [] == r.0;
  }

  /**
    The loop over one node's proc slots: every slot holding a proc of `ns`
    is emptied and, when `account` holds, the node's slot and proc counts
    go down by one for it.
  */
  method ReleaseProcsOf(node: NodeRec, procs: seq<ProcRec>, ns: string, account: bool) returns (nd: NodeRec)
    ensures nd == StateTrack.ReleaseNode(node, procs, ns, account)
  {
    nd := node;
    var i := 0;
    assert node.procs[..0] == [] && node.procs[0..] == node.procs;
    while i < |nd.procs|
      invariant 0 <= i <= |node.procs| && |nd.procs| == |node.procs|
      invariant nd == Partial(node, i, procs, ns, account)
    {
      PartialStep(node, i, procs, ns, account);
      var slot := nd.procs[i];
      if slot.Some? && slot.value < |procs| && CheckNspace(procs[slot.value].name.nspace, ns) {
        if account {
          nd := nd.(slotsInUse := nd.slotsInUse - 1, numProcs := nd.numProcs - 1);
        }
        nd := nd.(procs := nd.procs[i := None]);
      }
      i := i + 1;
    }
    assert node.procs[..i] == node.procs;
    assert node.procs[i..] == [];
  }

  /** A node part-way through its release: the first `i` slots done, the rest as they were. */
  function Partial(node: NodeRec, i: nat, procs: seq<ProcRec>, ns: string, account: bool): NodeRec
    requires i <= |node.procs|
  {
    var (kept, n) := ReleaseSlots(node.procs[..i], procs, ns);
    node.(procs := kept + node.procs[i..],
          slotsInUse := if account then node.slotsInUse - n else node.slotsInUse,
          numProcs := if account then node.numProcs - n else node.numProcs)
  }

  lemma PartialStep(node: NodeRec, i: nat, procs: seq<ProcRec>, ns: string, account: bool)
    requires i < |node.procs|
    ensures var nd := Partial(node, i, procs, ns, account);
      var slot := nd.procs[i];
      Partial(node, i + 1, procs, ns, account) ==
        if slot.Some? && slot.value < |procs| && CheckNspace(procs[slot.value].name.nspace, ns) then
          nd.(slotsInUse := if account then nd.slotsInUse - 1 else nd.slotsInUse,
              numProcs := if account then nd.numProcs - 1 else nd.numProcs,
              procs := nd.procs[i := None])
        else nd
  {
    assert node.procs[..i + 1][..i] == node.procs[..i];
    var (kept, n) := ReleaseSlots(node.procs[..i], procs, ns);
    assert Partial(node, i, procs, ns, account).procs[i] == node.procs[i];
  }

  lemma ScanAdvance(table: seq<Option<JobRec>>, n: nat, myNs: string, jref: JobRef, jd: JobRec)
    requires n < |table|
    ensures var prev := Scan(table[..n], myNs, jref, jd);
      var step := ScanOne(table[n], myNs, jref, jd);
      var next := Scan(table[..n + 1], myNs, jref, jd);
      && next.0 + table[n + 1..] == (prev.0 + table[n..])[n := step.slot]
      && next.1 == (prev.1 || step.alive)
      && next.2 == prev.2 + step.effects
  {
    assert table[..n + 1][..n] == table[..n];
  }
}
