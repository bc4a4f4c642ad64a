/**
  The two state-machine registries of the state framework
  (src/mca/state/base/state_base_fns.c): an ordered list of
  (state, priority, callback) entries for job states and another for proc
  states, the operations that edit them, and the activate rule that picks
  the handler for a state and threadshifts a caddy to it.

  Threadshifting is appending a work item (callback, priority, caddy) to the
  event base's queue; the event loop that runs the queue is not modelled.
  A callback is identified by a number, and `None` stands for NULL.
*/
module StateRegistry {
  import opened Types
  import Rml

  type CbId = nat

  /** An index into the runtime's job table; it stands for a `prte_job_t *`. */
  type JobRef = nat

  /**
    PRTE_SYS_PRI, the priority set_job_state_callback installs a new entry
    with (the event header that defines it is not part of this model; no
    proof depends on its value).
  */
  const SYS_PRI: int := 4

  /** PRTE_JOB_STATE_UNDEF: the job state of a freshly zeroed caddy. */
  const JOB_STATE_UNDEF: int := 0

  datatype StateEntry = StateEntry(state: int, priority: int, cbfunc: Option<CbId>)

  /**
    The state caddy handed to a callback: a job caddy carries the job and its
    state only when a job was given, a proc caddy always carries the name and
    the state.
  */
  datatype Caddy =
    | JobCaddy(jdata: Option<JobRef>, jobState: int)
    | ProcCaddy(name: ProcName, procState: int)

  datatype WorkItem = WorkItem(cbfunc: CbId, priority: int, caddy: Caddy)

  /** What a registry edit returns and the registry it leaves. */
  datatype Outcome = Outcome(rc: Status, reg: seq<StateEntry>)

  // ---------------------------------------------------------------------
  // Searching a registry

  /** The position of the first entry for `s`, or |reg| when there is none. */
  function FirstIndex(reg: seq<StateEntry>, s: int): (k: nat)
    ensures k <= |reg|
    ensures k < |reg| ==> reg[k].state == s
    ensures forall i :: 0 <= i < k ==> reg[i].state != s
  {
    if |reg| == 0 then 0 else if reg[0].state == s then 0 else 1 + FirstIndex(reg[1..], s)
  }

  /** The position of the last entry for `s`, or -1 when there is none. */
  function LastIndex(reg: seq<StateEntry>, s: int): (k: int)
    ensures -1 <= k < |reg|
    ensures 0 <= k ==> reg[k].state == s
    ensures forall i :: k < i < |reg| ==> reg[i].state != s
  {
    if |reg| == 0 then -1
    else if reg[|reg| - 1].state == s then |reg| - 1
    else LastIndex(reg[..|reg| - 1], s)
  }

  predicate Registered(reg: seq<StateEntry>, s: int) {
    exists i :: 0 <= i < |reg| && reg[i].state == s
  }

  /** At most one entry per state: what the registry operations maintain. */
  predicate Unique(reg: seq<StateEntry>) {
    forall i, j :: 0 <= i < j < |reg| ==> reg[i].state != reg[j].state
  }

  /** In a registry with one entry per state, the first and the last entry for a state coincide. */
  lemma FirstIsLast(reg: seq<StateEntry>, s: int)
    requires Unique(reg)
    ensures LastIndex(reg, s) == (if FirstIndex(reg, s) < |reg| then FirstIndex(reg, s) else -1)
  {
  }

  /** The entry for `s`, when there is one, is the one at FirstIndex. */
  lemma EntryAt(reg: seq<StateEntry>, e: StateEntry)
    requires Unique(reg) && e in reg
    ensures FirstIndex(reg, e.state) < |reg| && reg[FirstIndex(reg, e.state)] == e
  {
    var i :| 0 <= i < |reg| && reg[i] == e;
    var k := FirstIndex(reg, e.state);
    assert k <= i;
  }

  /** The linear search each registry operation starts with. */
  method FindState(reg: seq<StateEntry>, s: int) returns (k: nat)
    ensures k <= |reg|
    ensures k < |reg| <==> Registered(reg, s)
    ensures k < |reg| ==> reg[k].state == s
    ensures forall i :: 0 <= i < k ==> reg[i].state != s
  {
    k := 0;
    while k < |reg|
      invariant k <= |reg|
      invariant forall i :: 0 <= i < k ==> reg[i].state != s
    {
      if reg[k].state == s {
        return;
      }
      k := k + 1;
    }
  }

  // ---------------------------------------------------------------------
  // Registry edits, as functions of the registry they start from

  /** add_job_state / add_proc_state. */
  function Add(reg: seq<StateEntry>, s: int, cbfunc: Option<CbId>, priority: int): Outcome {
    if FirstIndex(reg, s) < |reg| then Outcome(ErrBadParam, reg)
    else Outcome(Success, reg + [StateEntry(s, priority, cbfunc)])
  }

  /** set_job_state_callback: an absent state is installed at SYS_PRI. */
  function SetJobCallback(reg: seq<StateEntry>, s: int, cbfunc: Option<CbId>): Outcome {
    var k := FirstIndex(reg, s);
    if k < |reg| then Outcome(Success, reg[k := reg[k].(cbfunc := cbfunc)])
    else Outcome(Success, reg + [StateEntry(s, SYS_PRI, cbfunc)])
  }

  /** set_proc_state_callback: an absent state is NOT_FOUND. */
  function SetProcCallback(reg: seq<StateEntry>, s: int, cbfunc: Option<CbId>): Outcome {
    var k := FirstIndex(reg, s);
    if k < |reg| then Outcome(Success, reg[k := reg[k].(cbfunc := cbfunc)])
    else Outcome(ErrNotFound, reg)
  }

  /** set_job_state_priority / set_proc_state_priority. */
  function SetPriority(reg: seq<StateEntry>, s: int, priority: int): Outcome {
    var k := FirstIndex(reg, s);
    if k < |reg| then Outcome(Success, reg[k := reg[k].(priority := priority)])
    else Outcome(ErrNotFound, reg)
  }

  /** remove_job_state / remove_proc_state. */
  function Remove(reg: seq<StateEntry>, s: int): Outcome {
    var k := FirstIndex(reg, s);
    if k < |reg| then Outcome(Success, reg[..k] + reg[k + 1..])
    else Outcome(ErrNotFound, reg)
  }

  /**
    Adding a state that is registered is BAD_PARAM and changes nothing;
    otherwise exactly the one entry is appended. Either way the state is
    registered afterwards and the registry keeps one entry per state.
  */
  lemma AddOutcome(reg: seq<StateEntry>, s: int, cbfunc: Option<CbId>, priority: int)
    ensures Registered(reg, s) ==> Add(reg, s, cbfunc, priority) == Outcome(ErrBadParam, reg)
    ensures !Registered(reg, s) ==>
      Add(reg, s, cbfunc, priority) == Outcome(Success, reg + [StateEntry(s, priority, cbfunc)])
    ensures Registered(Add(reg, s, cbfunc, priority).reg, s)
    ensures Unique(reg) ==> Unique(Add(reg, s, cbfunc, priority).reg)
  {
    var r := Add(reg, s, cbfunc, priority).reg;
    if !Registered(reg, s) {
      assert r[|reg|].state == s;
    } else {
      var i :| 0 <= i < |reg| && reg[i].state == s;
      assert FirstIndex(reg, s) <= i;
    }
  }

  /**
    An update in place of the entry for `s` keeps every position, the states
    of all entries and all other entries; it keeps one entry per state.
  */
  lemma UpdateInPlace(reg: seq<StateEntry>, s: int, e: StateEntry)
    requires Registered(reg, s) && e.state == s
    ensures var k := FirstIndex(reg, s);
      var r := reg[k := e];
      && |r| == |reg|
      && (forall i :: 0 <= i < |reg| && i != k ==> r[i] == reg[i])
      && (Unique(reg) ==> Unique(r))
  {
    var i :| 0 <= i < |reg| && reg[i].state == s;
    assert FirstIndex(reg, s) <= i;
  }

  /**
    set_job_state_callback always succeeds: a registered state gets the new
    callback and keeps its priority and its place, nothing else changes; an
    absent one is appended at SYS_PRI.
  */
  lemma SetJobCallbackOutcome(reg: seq<StateEntry>, s: int, cbfunc: Option<CbId>)
    ensures var o := SetJobCallback(reg, s, cbfunc);
      && o.rc == Success
      && (Registered(reg, s) ==>
            var k := FirstIndex(reg, s);
            && |o.reg| == |reg|
            && o.reg[k] == StateEntry(s, reg[k].priority, cbfunc)
            && (forall i :: 0 <= i < |reg| && i != k ==> o.reg[i] == reg[i]))
      && (!Registered(reg, s) ==> o.reg == reg + [StateEntry(s, SYS_PRI, cbfunc)])
      && (Unique(reg) ==> Unique(o.reg))
  {
    if Registered(reg, s) {
      var k := FirstIndex(reg, s);
      UpdateInPlace(reg, s, reg[k].(cbfunc := cbfunc));
    } else {
      assert FirstIndex(reg, s) == |reg|;
    }
  }

  /**
    set_proc_state_callback: an absent state is NOT_FOUND and changes
    nothing; a registered one gets the new callback and keeps its priority.
  */
  lemma SetProcCallbackOutcome(reg: seq<StateEntry>, s: int, cbfunc: Option<CbId>)
    ensures var o := SetProcCallback(reg, s, cbfunc);
      && (o.rc == ErrNotFound <==> !Registered(reg, s))
      && (!Registered(reg, s) ==> o.reg == reg)
      && (Registered(reg, s) ==>
            var k := FirstIndex(reg, s);
            && o.rc == Success
            && |o.reg| == |reg|
            && o.reg[k] == StateEntry(s, reg[k].priority, cbfunc)
            && (forall i :: 0 <= i < |reg| && i != k ==> o.reg[i] == reg[i]))
      && (Unique(reg) ==> Unique(o.reg))
  {
    if Registered(reg, s) {
      var k := FirstIndex(reg, s);
      UpdateInPlace(reg, s, reg[k].(cbfunc := cbfunc));
    } else {
      assert FirstIndex(reg, s) == |reg|;
    }
  }

  /**
    set_*_state_priority: an absent state is NOT_FOUND and changes nothing;
    a registered one gets the new priority and keeps its callback.
  */
  lemma SetPriorityOutcome(reg: seq<StateEntry>, s: int, priority: int)
    ensures var o := SetPriority(reg, s, priority);
      && (o.rc == ErrNotFound <==> !Registered(reg, s))
      && (!Registered(reg, s) ==> o.reg == reg)
      && (Registered(reg, s) ==>
            var k := FirstIndex(reg, s);
            && o.rc == Success
            && |o.reg| == |reg|
            && o.reg[k] == StateEntry(s, priority, reg[k].cbfunc)
            && (forall i :: 0 <= i < |reg| && i != k ==> o.reg[i] == reg[i]))
      && (Unique(reg) ==> Unique(o.reg))
  {
    if Registered(reg, s) {
      var k := FirstIndex(reg, s);
      UpdateInPlace(reg, s, reg[k].(priority := priority));
    } else {
      assert FirstIndex(reg, s) == |reg|;
    }
  }

  /**
    remove_*_state: an absent state is NOT_FOUND and changes nothing; a
    registered one loses exactly its entry, the others keep their order,
    and in a registry with one entry per state the state is then gone.
  */
  lemma RemoveOutcome(reg: seq<StateEntry>, s: int)
    ensures var o := Remove(reg, s);
      && (o.rc == ErrNotFound <==> !Registered(reg, s))
      && (!Registered(reg, s) ==> o.reg == reg)
      && (Registered(reg, s) ==>
            var k := FirstIndex(reg, s);
            && o.rc == Success
            && o.reg == reg[..k] + reg[k + 1..]
            && reg[k].state == s)
      && (Unique(reg) ==> Unique(o.reg) && !Registered(o.reg, s))
  {
    var k := FirstIndex(reg, s);
    if k < |reg| {
      var r := reg[..k] + reg[k + 1..];
      assert forall i :: 0 <= i < |r| ==> r[i] == (if i < k then reg[i] else reg[i + 1]);
      if Unique(reg) {
        assert forall i :: 0 <= i < |r| ==> r[i].state != s;
      }
    } else {
      assert !Registered(reg, s);
    }
  }

  // ---------------------------------------------------------------------
  // Activation

  /**
    The entry activate picks for `s`: the first exact match; failing that
    the last ERROR entry when `s` lies above ERROR; failing that the last
    ANY entry; failing that none, and the activation is dropped.
  */
  function Chosen(reg: seq<StateEntry>, s: int, errState: int, anyState: int): Option<StateEntry> {
    var k := FirstIndex(reg, s);
    var e := LastIndex(reg, errState);
    var a := LastIndex(reg, anyState);
    if k < |reg| then Some(reg[k])
    else if errState < s && 0 <= e then Some(reg[e])
    else if 0 <= a then Some(reg[a])
    else None
  }

  /** The (callback, priority) an entry schedules: none when its callback is NULL. */
  function HandlerOf(e: StateEntry): Option<(CbId, int)> {
    if e.cbfunc.Some? then Some((e.cbfunc.value, e.priority)) else None
  }

  function Dispatch(reg: seq<StateEntry>, s: int, errState: int, anyState: int): Option<(CbId, int)> {
    var c := Chosen(reg, s, errState, anyState);
    if c.Some? then HandlerOf(c.value) else None
  }

  /**
    The search of activate_job_state and activate_proc_state: one pass that
    remembers the latest ANY and ERROR entries and stops at an exact match.
  */
  method Lookup(reg: seq<StateEntry>, s: int, errState: int, anyState: int) returns (r: Option<StateEntry>)
    ensures r == Chosen(reg, s, errState, anyState)
  {
    var any := -1;
    var error := -1;
    var n := 0;
    while n < |reg|
      invariant 0 <= n <= |reg|
      invariant forall i :: 0 <= i < n ==> reg[i].state != s
      invariant any == LastIndex(reg[..n], anyState)
      invariant error == LastIndex(reg[..n], errState)
    {
      assert reg[..n + 1][..n] == reg[..n];
      if reg[n].state == anyState {
        any := n;
      }
      if reg[n].state == errState {
        error := n;
      }
      if reg[n].state == s {
        r := Some(reg[n]);
        return;
      }
      n := n + 1;
    }
    assert reg[..n] == reg;
    if errState < s && 0 <= error {
      r := Some(reg[error]);
    } else if 0 <= any {
      r := Some(reg[any]);
    } else {
      r := None;
    }
  }

  /** An exact match decides: its callback and priority are scheduled, or nothing when NULL. */
  lemma DispatchExact(reg: seq<StateEntry>, e: StateEntry, errState: int, anyState: int)
    requires Unique(reg) && e in reg
    ensures Dispatch(reg, e.state, errState, anyState) == HandlerOf(e)
  {
    EntryAt(reg, e);
  }

  /** With no exact match, a state above ERROR goes to the ERROR entry. */
  lemma DispatchError(reg: seq<StateEntry>, s: int, e: StateEntry, errState: int, anyState: int)
    requires Unique(reg) && !Registered(reg, s)
    requires e in reg && e.state == errState && errState < s
    ensures Dispatch(reg, s, errState, anyState) == HandlerOf(e)
  {
    EntryAt(reg, e);
    FirstIsLast(reg, errState);
    assert FirstIndex(reg, s) == |reg|;
  }

  /** With no exact match and no ERROR entry that applies, the ANY entry is used. */
  lemma DispatchAny(reg: seq<StateEntry>, s: int, e: StateEntry, errState: int, anyState: int)
    requires Unique(reg) && !Registered(reg, s)
    requires !(errState < s && Registered(reg, errState))
    requires e in reg && e.state == anyState
    ensures Dispatch(reg, s, errState, anyState) == HandlerOf(e)
  {
    EntryAt(reg, e);
    FirstIsLast(reg, anyState);
    assert FirstIndex(reg, s) == |reg|;
    if errState < s {
      assert LastIndex(reg, errState) == -1;
    }
  }

  /** With no exact match, no applicable ERROR entry and no ANY entry the activation is dropped. */
  lemma DispatchDropped(reg: seq<StateEntry>, s: int, errState: int, anyState: int)
    requires !Registered(reg, s) && !Registered(reg, anyState)
    requires !(errState < s && Registered(reg, errState))
    ensures Dispatch(reg, s, errState, anyState) == None
  {
    assert FirstIndex(reg, s) == |reg|;
    assert LastIndex(reg, anyState) == -1;
    if errState < s {
      assert LastIndex(reg, errState) == -1;
    }
  }

  /**
    A failed send ends in the proc ERROR handler whenever the proc registry
    has no entry of its own for the state the send callback reports: every
    such state lies above ERROR.
  */
  lemma SendFailureReachesErrorHandler(reg: seq<StateEntry>, st: Status, e: StateEntry)
    requires st != Success && Unique(reg)
    requires e in reg && e.state == PROC_STATE_ERROR
    requires !Registered(reg, Rml.SendCallback(st).value)
    ensures Dispatch(reg, Rml.SendCallback(st).value, PROC_STATE_ERROR, PROC_STATE_ANY) == HandlerOf(e)
  {
    Rml.SendFailureIsAbnormal(st);
    DispatchError(reg, Rml.SendCallback(st).value, e, PROC_STATE_ERROR, PROC_STATE_ANY);
  }

  /** The work items an activation appends: none, or one carrying the handler and the caddy. */
  function Scheduled(h: Option<(CbId, int)>, caddy: Caddy): seq<WorkItem> {
    if h.Some? then [WorkItem(h.value.0, h.value.1, caddy)] else []
  }

  /** The caddy of a job activation: the job and its state only when a job is given. */
  function JobCaddyFor(jdata: Option<JobRef>, s: int): Caddy {
    if jdata.Some? then JobCaddy(jdata, s) else JobCaddy(None, JOB_STATE_UNDEF)
  }

  // ---------------------------------------------------------------------
  // The framework's registries and the event queue

  class StateMachine {
    /** prte_job_states */
    var jobStates: seq<StateEntry>
    /** prte_proc_states */
    var procStates: seq<StateEntry>
    /** The event base's pending work, oldest first. */
    var queue: seq<WorkItem>
    /** The references work items hold on jobs (PRTE_RETAIN). */
    var retains: multiset<JobRef>

    constructor ()
      ensures jobStates == [] && procStates == [] && queue == [] && retains == multiset{}
    {
      jobStates := [];
      procStates := [];
      queue := [];
      retains := multiset{};
    }

    predicate Valid()
      reads this
    {
      Unique(jobStates) && Unique(procStates)
    }

    method AddJobState(s: int, cbfunc: Option<CbId>, priority: int) returns (rc: Status)
      modifies this`jobStates
      ensures Outcome(rc, jobStates) == Add(old(jobStates), s, cbfunc, priority)
      ensures old(Valid()) ==> Valid()
    {
      AddOutcome(jobStates, s, cbfunc, priority);
      var k := FindState(jobStates, s);
      if k < |jobStates| {
        return ErrBadParam;
      }
      jobStates := jobStates + [StateEntry(s, priority, cbfunc)];
      rc := Success;
    }

    method SetJobStateCallback(s: int, cbfunc: Option<CbId>) returns (rc: Status)
      modifies this`jobStates
      ensures Outcome(rc, jobStates) == SetJobCallback(old(jobStates), s, cbfunc)
      ensures old(Valid()) ==> Valid()
    {
      SetJobCallbackOutcome(jobStates, s, cbfunc);
      var k := FindState(jobStates, s);
      if k < |jobStates| {
        jobStates := jobStates[k := jobStates[k].(cbfunc := cbfunc)];
        return Success;
      }
      jobStates := jobStates + [StateEntry(s, SYS_PRI, cbfunc)];
      rc := Success;
    }

    method SetJobStatePriority(s: int, priority: int) returns (rc: Status)
      modifies this`jobStates
      ensures Outcome(rc, jobStates) == SetPriority(old(jobStates), s, priority)
      ensures old(Valid()) ==> Valid()
    {
      SetPriorityOutcome(jobStates, s, priority);
      var k := FindState(jobStates, s);
      if k < |jobStates| {
        jobStates := jobStates[k := jobStates[k].(priority := priority)];
        return Success;
      }
      rc := ErrNotFound;
    }

    method RemoveJobState(s: int) returns (rc: Status)
      modifies this`jobStates
      ensures Outcome(rc, jobStates) == Remove(old(jobStates), s)
      ensures old(Valid()) ==> Valid()
    {
      RemoveOutcome(jobStates, s);
      var k := FindState(jobStates, s);
      if k < |jobStates| {
        jobStates := jobStates[..k] + jobStates[k + 1..];
        return Success;
      }
      rc := ErrNotFound;
    }

    method AddProcState(s: int, cbfunc: Option<CbId>, priority: int) returns (rc: Status)
      modifies this`procStates
      ensures Outcome(rc, procStates) == Add(old(procStates), s, cbfunc, priority)
      ensures old(Valid()) ==> Valid()
    {
      AddOutcome(procStates, s, cbfunc, priority);
      var k := FindState(procStates, s);
      if k < |procStates| {
        return ErrBadParam;
      }
      procStates := procStates + [StateEntry(s, priority, cbfunc)];
      rc := Success;
    }

    method SetProcStateCallback(s: int, cbfunc: Option<CbId>) returns (rc: Status)
      modifies this`procStates
      ensures Outcome(rc, procStates) == SetProcCallback(old(procStates), s, cbfunc)
      ensures old(Valid()) ==> Valid()
    {
      SetProcCallbackOutcome(procStates, s, cbfunc);
      var k := FindState(procStates, s);
      if k < |procStates| {
        procStates := procStates[k := procStates[k].(cbfunc := cbfunc)];
        return Success;
      }
      rc := ErrNotFound;
    }

    method SetProcStatePriority(s: int, priority: int) returns (rc: Status)
      modifies this`procStates
      ensures Outcome(rc, procStates) == SetPriority(old(procStates), s, priority)
      ensures old(Valid()) ==> Valid()
    {
      SetPriorityOutcome(procStates, s, priority);
      var k := FindState(procStates, s);
      if k < |procStates| {
        procStates := procStates[k := procStates[k].(priority := priority)];
        return Success;
      }
      rc := ErrNotFound;
    }

    method RemoveProcState(s: int) returns (rc: Status)
      modifies this`procStates
      ensures Outcome(rc, procStates) == Remove(old(procStates), s)
      ensures old(Valid()) ==> Valid()
    {
      RemoveOutcome(procStates, s);
      var k := FindState(procStates, s);
      if k < |procStates| {
        procStates := procStates[..k] + procStates[k + 1..];
        return Success;
      }
      rc := ErrNotFound;
    }

    /**
      activate_job_state: at most one work item is queued, carrying the
      chosen handler and its priority; it holds a reference on the job when
      a job is given.
    */
    method ActivateJobState(jdata: Option<JobRef>, s: int)
      modifies this`queue, this`retains
      ensures var h := Dispatch(jobStates, s, JOB_STATE_ERROR, JOB_STATE_ANY);
        && queue == old(queue) + Scheduled(h, JobCaddyFor(jdata, s))
        && retains == old(retains) + (if h.Some? && jdata.Some? then multiset{jdata.value} else multiset{})
    {
      var c := Lookup(jobStates, s, JOB_STATE_ERROR, JOB_STATE_ANY);
      if c.None? || c.value.cbfunc.None? {
        return;
      }
      var caddy := JobCaddy(None, JOB_STATE_UNDEF);
      if jdata.Some? {
        caddy := JobCaddy(jdata, s);
        retains := retains + multiset{jdata.value};
      }
      queue := queue + [WorkItem(c.value.cbfunc.value, c.value.priority, caddy)];
    }

    /** activate_proc_state: at most one work item, whose caddy names the proc and the state. */
    method ActivateProcState(name: ProcName, s: int)
      modifies this`queue
      ensures queue == old(queue) +
        Scheduled(Dispatch(procStates, s, PROC_STATE_ERROR, PROC_STATE_ANY), ProcCaddy(name, s))
    {
      var c := Lookup(procStates, s, PROC_STATE_ERROR, PROC_STATE_ANY);
      if c.None? || c.value.cbfunc.None? {
        return;
      }
      queue := queue + [WorkItem(c.value.cbfunc.value, c.value.priority, ProcCaddy(name, s))];
    }
  }
}
