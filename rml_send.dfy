/**
  The non-blocking send front end (src/rml/rml_send.c): validation of the
  tag and the destination rank, local delivery of a message to oneself,
  construction of the send object for any other daemon, and the retry
  cutoff of the send event.

  Threadshifting an object onto the event base is appending a work item to
  the transport's queue; the transport that would carry the message is not
  part of this file.
*/
module RmlSend {
  import opened Types
  import opened Rml

  /** PRTE_RML_TAG_INVALID (the RML types header that defines it is not part of this model). */
  const RML_TAG_INVALID: uint32 := 0

  /** What prte_rml_send_buffer_nb decides for a message. */
  datatype Routing =
    | Rejected(rc: Status)
    | Deliver(rcv: Recv)
    | Transmit(dst: ProcName, origin: ProcName, tag: uint32, dbuf: DataBuffer)

  /** The tag is checked before the rank; one's own rank is delivered locally, any other is sent. */
  function Route(me: ProcName, rank: uint32, buffer: DataBuffer, tag: uint32): Routing {
    if tag == RML_TAG_INVALID then Rejected(ErrBadParam)
    else if rank == RANK_INVALID then Rejected(ErrBadParam)
    else if me.rank == rank then Deliver(Recv(ProcName(me.nspace, rank), tag, buffer))
    else Transmit(ProcName(me.nspace, rank), me, tag, buffer)
  }

  /**
    The three outcomes and when each happens: an invalid tag or rank is
    rejected with BAD_PARAM, a message to oneself is received as coming from
    oneself with its tag and buffer, and any other message goes out from
    oneself to the same namespace at the given rank.
  */
  lemma RouteOutcomes(me: ProcName, rank: uint32, buffer: DataBuffer, tag: uint32)
    ensures Route(me, rank, buffer, tag).Rejected? <==> tag == RML_TAG_INVALID || rank == RANK_INVALID
    ensures Route(me, rank, buffer, tag).Rejected? ==> Route(me, rank, buffer, tag).rc == ErrBadParam
    ensures Route(me, rank, buffer, tag).Deliver? <==>
      tag != RML_TAG_INVALID && rank != RANK_INVALID && rank == me.rank
    ensures Route(me, rank, buffer, tag).Deliver? ==> Route(me, rank, buffer, tag).rcv == Recv(me, tag, buffer)
    ensures Route(me, rank, buffer, tag).Transmit? ==>
      var r := Route(me, rank, buffer, tag);
      r.origin == me && r.dst.nspace == me.nspace && r.dst.rank == rank && r.dst != me
      && r.tag == tag && r.dbuf == buffer
  {
  }

  /**
    prte_rml_send_buffer_nb: a rejected message queues nothing; a message to
    oneself queues exactly one receive and no send; any other queues exactly
    one fresh send object for send_nb.
  */
  method SendBufferNb(rml: RmlBase, me: ProcName, rank: uint32, buffer: DataBuffer, tag: uint32)
    returns (rc: Status)
    modifies rml`queue
    ensures var r := Route(me, rank, buffer, tag);
      && (r.Rejected? ==> rc == r.rc && rml.queue == old(rml.queue))
      && (r.Deliver? ==> rc == Success && rml.queue == old(rml.queue) + [ProcessMessage(r.rcv)])
      && (r.Transmit? ==>
            && rc == Success
            && |rml.queue| == |old(rml.queue)| + 1
            && rml.queue[..|old(rml.queue)|] == old(rml.queue)
            && rml.queue[|old(rml.queue)|].SendNb?
            && var snd := rml.queue[|old(rml.queue)|].snd;
               && fresh(snd)
               && snd.dst == r.dst && snd.origin == r.origin && snd.tag == r.tag && snd.dbuf == Some(r.dbuf)
               && snd.retries == 0 && snd.seqNum == 0xFFFF_FFFF && snd.cbdata == None)
  {
    if tag == RML_TAG_INVALID {
      rc := ErrBadParam;
      return;
    }
    if rank == RANK_INVALID {
      rc := ErrBadParam;
      return;
    }
    if me.rank == rank {
      var rcv := Recv(ProcName(me.nspace, rank), tag, buffer);
      rml.queue := rml.queue + [ProcessMessage(rcv)];
      rc := Success;
      return;
    }
    var snd := new SendMsg();
    snd.dst := ProcName(me.nspace, rank);
    snd.origin := me;
    snd.tag := tag;
    snd.dbuf := Some(buffer);
    rml.queue := rml.queue + [SendNb(snd)];
    rc := Success;
  }

  /** The status send_nb gives a send on this attempt, None when it goes on to the transport. */
  function Attempt(maxRetries: int, retries: nat): (r: Option<Status>)
    ensures r.Some? <==> retries >= maxRetries
    ensures r.Some? ==> r.value == ErrNoPathToTarget
  {
    if maxRetries <= retries then Some(ErrNoPathToTarget) else None
  }

  /**
    send_nb's cutoff: a send that has used up its retries completes with
    NO_PATH_TO_TARGET; otherwise nothing happens in this file.
  */
  method SendNbEvent(rml: RmlBase, msg: SendMsg)
    modifies msg`status, rml`queue
    ensures Attempt(rml.maxRetries, msg.retries).Some? ==>
      msg.status == Attempt(rml.maxRetries, msg.retries).value && rml.queue == old(rml.queue) + [SendComplete(msg)]
    ensures Attempt(rml.maxRetries, msg.retries).None? ==>
      msg.status == old(msg.status) && rml.queue == old(rml.queue)
  {
    if rml.maxRetries <= msg.retries {
      msg.status := ErrNoPathToTarget;
      rml.queue := rml.queue + [SendComplete(msg)];
      return;
    }
  }

  /**
    A fresh send starts with no retries, so a limit of zero or less fails its
    first attempt, and the send callback then reports the peer's process
    state as NO_PATH_TO_TARGET, an abnormal termination.
  */
  lemma NoRetriesFailsFirstAttempt(maxRetries: int)
    requires maxRetries <= 0
    ensures Attempt(maxRetries, 0) == Some(ErrNoPathToTarget)
    ensures SendCallback(Attempt(maxRetries, 0).value) == Some(PROC_STATE_NO_PATH_TO_TARGET)
    ensures PROC_STATE_NO_PATH_TO_TARGET > PROC_STATE_ERROR
  {
  }

  /** Once a send fails, every later attempt with the same limit fails too. */
  lemma CutoffIsFinal(maxRetries: int, retries: nat, later: nat)
    requires Attempt(maxRetries, retries).Some? && later >= retries
    ensures Attempt(maxRetries, later) == Attempt(maxRetries, retries)
  {
  }
}
