/** A subscriber connection and its assignment procedure: the gscon FSM of
    src/osmo-bsc/bsc_subscr_conn_fsm.c, the assignment FSM of src/osmo-bsc/assignment_fsm.c
    (section 3.1.1 of 3GPP TS 48.008) and the downlink DTAP queue they share. */
module ConnFsm {

  const MAX_DTAP := 8

  datatype Ref = NoLchan | Lchan(id: nat)

  datatype ConnState = Init | WaitCc | Active | Assignment | Handover | Clearing | Terminated

  datatype AsgState = WaitLchanActive | WaitRrAssComplete | WaitLchanEstablished | WaitMgwEndpoint

  datatype Asg = NoFi | Fi(st: AsgState)

  /** gscon_fsm_states[].out_state_mask */
  predicate OutMask(from: ConnState, to: ConnState) {
    match from
    case Init => to == WaitCc || to == Active || to == Clearing
    case WaitCc => to == Active
    case Active => to == Clearing || to == Assignment || to == Handover
    case Assignment => to == Active || to == Clearing
    case Handover => to == Active || to == Clearing
    case _ => false
  }

  /** Where GSCON_EV_HANDOVER_END leads; other states refuse it. */
  function AfterHandover(from: ConnState, arrivedOk: bool): ConnState {
    match from
    case Handover => Active
    case Init => if arrivedOk then Active else Clearing
    case other => other
  }

  /** The primary channel after a handover: the new one on success; given up, or the same as the new one,
      it may be detached with it. */
  function HandedTo(ok: bool, releasePrimary: bool, detaches: bool, new': Ref, primary: Ref): Ref {
    if ok && new'.Lchan? then new'
    else if !ok && detaches && (releasePrimary || new' == primary) then NoLchan
    else primary
  }

  datatype MgwAnswer = CannotConnect | ConnectedAtOnce | AnswersLater

  /** What code outside the two FSMs answers while one event is handled. */
  datatype Env = Env(
    voiceModesOk: bool,      // check_requires_voice_stream
    voice: bool,             // the request needs a voice stream
    reuse: bool,             // the present lchan fits the request
    selected: Ref,           // lchan_select_by_chan_mode
    activateOk: bool,        // lchan_activate did not fail at once
    rrCommandOk: bool,       // gsm48_send_rr_ass_cmd
    established: bool,       // the new lchan is already established
    mgw: MgwAnswer,          // gscon_connect_mgw_to_msc
    rtpInfoOk: bool,         // the MGW's RTP address is known
    completeOk: bool,        // Assignment Complete composed and sent
    rslOk: bool,             // rsl_data_request and rll_establish
    forgetNow: bool)         // an lchan released in error detaches at once

  /** How far a step brings an assignment. Undone: the new channel was taken over, but the MSC could
      not be told. */
  datatype Outcome = Waits(st: AsgState) | Succeeded | Undone | Failed

  function Finish(env: Env): Outcome {
    if env.completeOk then Succeeded else Undone
  }

  function FinishMgw(env: Env): Outcome {
    if env.rtpInfoOk then Finish(env) else Failed
  }

  function FinishEstablished(voice: bool, env: Env): Outcome {
    if !voice then Finish(env)
    else match env.mgw
      case CannotConnect => Failed
      case ConnectedAtOnce => FinishMgw(env)
      case AnswersLater => Waits(WaitMgwEndpoint)
  }

  /** What an outcome is measured against: the channels, the state and the counter before the step. */
  datatype Moment = Moment(new': Ref, primary: Ref, state: ConnState, counted: nat, done: bool)

  /** The results it counts; done: the flag says that one was counted already. */
  function Counts(o: Outcome, done: bool): nat {
    match o
    case Waits(_) => 0
    case Succeeded => 1
    case _ => if done then 0 else 1
  }

  /** Where the end of an assignment leads. */
  function AfterAssignment(from: ConnState): ConnState {
    if from == Assignment then Active else from
  }

  /** What reaches the connection, its assignment or its handover. */
  datatype Event =
    | ConnReq(openOk: bool)
    | ConnInd(handoverRequest: bool, target: Ref)
    | ConnCfm
    | ClearCmd
    | DiscInd
    | ConnTimeout
    | RslConnFail
    | AssignmentCmd
    | HandoverCmd(found: bool, target: Ref)
    | HandoverResult(ok: bool, releasePrimary: bool)
    | MtDtap(msg: int)
    | LchanActive(l: nat)
    | RrComplete
    | RrFail
    | LchanEstablished
    | MgwOk
    | MgwFail
    | LchanError(l: nat)
    | AsgTimeout
    | AsgReleasing
    | LchanReleasing(l: nat, hoTells: bool)
    | LchanGone(l: nat)

  /** The events of the assignment FSM: answers it waits for, and what ends it. */
  predicate IsAnswer(ev: Event) {
    ev.LchanActive? || ev.RrComplete? || ev.LchanEstablished? || ev.MgwOk?
  }

  predicate IsFailure(ev: Event) {
    ev.RrFail? || ev.MgwFail? || ev.LchanError? || ev.AsgTimeout? || ev.AsgReleasing?
  }

  /** Events that may take channels away. */
  predicate ForChannels(ev: Event) {
    ev.ClearCmd? || ev.HandoverResult? || ev.LchanReleasing? || ev.LchanGone?
  }

  /** The states that take downlink messages. */
  predicate TakesDtap(st: ConnState) {
    st == Active || st == Assignment || st == Handover
  }

  /** One downlink message offered to the FSM, with the state and the length of the queue it found. */
  datatype Arrival = Arrival(msg: int, found: ConnState, queued: nat)

  /** Kept, not refused and not lost to a full queue. */
  predicate IsKept(a: Arrival) {
    a.found == Active || (TakesDtap(a.found) && a.queued < MAX_DTAP)
  }

  function Kept(arrivals: seq<Arrival>): (r: seq<int>) {
    if arrivals == [] then []
    else
      var a := arrivals[|arrivals| - 1];
      Kept(arrivals[..|arrivals| - 1]) + if IsKept(a) then [a.msg] else []
  }

  lemma KeptStep(arrivals: seq<Arrival>, a: Arrival)
    ensures Kept(arrivals + [a]) == Kept(arrivals) + if IsKept(a) then [a.msg] else []
  {
    assert (arrivals + [a])[..|arrivals|] == arrivals;
  }

  /** a arises from b by leaving messages out. */
  predicate Within(a: seq<int>, b: seq<int>)
    decreases |b|
  {
    || a == []
    || (b != [] && Within(a, b[..|b| - 1]))
    || (b != [] && a[|a| - 1] == b[|b| - 1] && Within(a[..|a| - 1], b[..|b| - 1]))
  }

  lemma WithinGrows(a: seq<int>, b: seq<int>, m: int)
    requires Within(a, b)
    ensures Within(a, b + [m]) && Within(a + [m], b + [m])
  {
    assert (a + [m])[..|a|] == a && (b + [m])[..|b|] == b;
  }

  /** The downlink messages of a run of events. */
  function Offered(events: seq<(Event, Env)>): (r: seq<int>) {
    if events == [] then []
    else
      var ev := events[|events| - 1].0;
      Offered(events[..|events| - 1]) + if ev.MtDtap? then [ev.msg] else []
  }

  function Messages(arrivals: seq<Arrival>): (r: seq<int>)
    ensures |r| == |arrivals|
  {
    seq(|arrivals|, i requires 0 <= i < |arrivals| => arrivals[i].msg)
  }

  lemma OfferedStep(before: seq<Arrival>, after: seq<Arrival>, events: seq<(Event, Env)>, n: nat)
    requires n < |events| && Messages(before) == Offered(events[..n])
    requires Messages(after) == Messages(before) + if events[n].0.MtDtap? then [events[n].0.msg] else []
    ensures Messages(after) == Offered(events[..n + 1])
  {
    assert events[..n + 1][..n] == events[..n];
  }

  /** What is kept is what was offered, in that order, with the refused and the overflow left out. */
  lemma {:induction false} KeptInOrder(arrivals: seq<Arrival>)
    ensures Within(Kept(arrivals), Messages(arrivals))
    ensures (forall a :: a in arrivals ==> IsKept(a)) ==> Kept(arrivals) == Messages(arrivals)
  {
    if arrivals != [] {
      var front, a := arrivals[..|arrivals| - 1], arrivals[|arrivals| - 1];
      KeptInOrder(front);
      assert Messages(arrivals) == Messages(front) + [a.msg];
      WithinGrows(Kept(front), Messages(front), a.msg);
      assert Kept(arrivals) == if IsKept(a) then Kept(front) + [a.msg] else Kept(front);
    }
  }

  class Conn {
    const refuseWhileTerminating: bool  // does the FSM library refuse events to a terminating instance
    var terminating: bool
    var state: ConnState
    var lchan: Ref
    var asg: Asg               // assignment.fi
    var asgNew: Ref            // assignment.new_lchan
    var asgVoice: bool         // assignment.requires_voice_stream
    var resultDone: bool       // assignment.result_rate_ctr_done
    var hoFi: bool             // ho.fi
    var hoNew: Ref             // ho.new_lchan
    var hoInterBscIn: bool     // ho.scope & HO_INTER_BSC_IN
    var dtapQueue: seq<int>
    var dtapLen: int
    var clearRequests: nat     // BSSMAP Clear Requests sent
    ghost var sent: seq<int>           // handed to gsm0808_send_rsl_dtap
    ghost var arrivals: seq<Arrival>   // downlink DTAP events
    ghost var ended: set<nat>          // lchans released, or gone on their own
    ghost var picked: set<nat>         // lchans an assignment picked
    ghost var hoPicked: set<nat>       // lchans a handover picked
    ghost var primaries: set<nat>      // lchans that were primary
    ghost var attempts: nat            // assignments started
    ghost var results: nat             // assignment results counted

    // ----- invariants -----

    /** Every channel an assignment or a handover picked is still pending there, primary, or ended;
        every channel that was primary still is, or ended. */
    ghost predicate Accounted()
      reads this`picked, this`hoPicked, this`primaries, this`ended, this`lchan, this`asgNew, this`hoNew
    {
      && (forall p :: p in picked ==> asgNew == Lchan(p) || lchan == Lchan(p) || p in ended)
      && (forall p :: p in hoPicked ==> hoNew == Lchan(p) || lchan == Lchan(p) || p in ended)
      && (forall p :: p in primaries ==> lchan == Lchan(p) || p in ended)
      && (lchan.Lchan? ==> lchan.id in primaries)
      && (asgNew.Lchan? ==> asgNew.id in picked)
    }

    /** The DTAP queue: counter, bound, and order of delivery. */
    ghost predicate DtapOk()
      reads this`dtapLen, this`dtapQueue, this`sent, this`arrivals
    {
      && dtapLen == |dtapQueue| <= MAX_DTAP
      && sent + dtapQueue == Kept(arrivals)
    }

    /** Which parts of a connection that is not gone yet go together. */
    ghost predicate Core()
      reads this`picked, this`hoPicked, this`primaries, this`ended, this`lchan, this`asgNew, this`hoNew,
            this`dtapLen, this`dtapQueue, this`sent, this`arrivals, this`state, this`asg, this`hoFi
    {
      && Accounted()
      && DtapOk()
      && (state == Init || state == WaitCc || state == Active ==> dtapQueue == [])
      && (state == Assignment ==> asg.Fi?)
      && (asg.Fi? ==> state == Assignment || state == Clearing)
      && (asgNew.Lchan? ==> asg.Fi?)
      && (hoNew.Lchan? ==> hoFi)
      && state != Terminated
    }

    /** What is left of a connection that is gone: nothing pending, what was sent is a prefix. */
    ghost predicate Gone()
      reads this`picked, this`hoPicked, this`primaries, this`ended, this`lchan, this`asgNew, this`hoNew,
            this`dtapLen, this`dtapQueue, this`sent, this`arrivals, this`asg, this`hoFi
    {
      && Accounted()
      && dtapQueue == [] && dtapLen == 0 && sent <= Kept(arrivals)
      && lchan == NoLchan && asgNew == NoLchan && hoNew == NoLchan
      && asg == NoFi && !hoFi
    }

    ghost predicate Shape()
      reads this`picked, this`hoPicked, this`primaries, this`ended, this`lchan, this`asgNew, this`hoNew,
            this`dtapLen, this`dtapQueue, this`sent, this`arrivals, this`state, this`asg, this`hoFi, this`terminating
    {
      if state == Terminated then terminating && Gone() else !terminating && Core()
    }

    /** Holds between events, in every reachable state; an assignment counts at most one result. */
    ghost predicate Inv()
      reads this`picked, this`hoPicked, this`primaries, this`ended, this`lchan, this`asgNew, this`hoNew,
            this`dtapLen, this`dtapQueue, this`sent, this`arrivals, this`state, this`asg, this`hoFi, this`terminating,
            this`results, this`attempts
    {
      Shape() && results + (if asg.Fi? then 1 else 0) <= attempts
    }

    ghost function Now(): Moment
      reads this`asgNew, this`lchan, this`state, this`results, this`resultDone
    {
      Moment(asgNew, lchan, state, results, resultDone)
    }

    /** The outcome of a step, against the channels, the state and the counter before it. */
    ghost predicate Came(o: Outcome, was: Moment)
      reads this`asg, this`asgNew, this`lchan, this`state, this`ended, this`results, this`resultDone
    {
      var new', primary, after := was.new', was.primary, AfterAssignment(was.state);
      && results == was.counted + Counts(o, was.done)
      && (match o
          case Waits(st) => asg == Fi(st) && Now() == was
          case Succeeded =>
            && asg == NoFi && asgNew == NoLchan && lchan == new' && state == after && resultDone
            && (primary.Lchan? && primary != new' ==> primary.id in ended)
          case Undone =>
            && asg == NoFi && asgNew == NoLchan && state == after && !resultDone
            && (new'.Lchan? ==> new'.id in ended) && (primary.Lchan? && primary != new' ==> primary.id in ended)
          case Failed =>
            && asg == NoFi && asgNew == NoLchan && state == after && !resultDone
            && (new'.Lchan? ==> new'.id in ended)
            && (lchan == primary || (lchan == NoLchan && primary == new')))
    }

    /** The pending channel of an assignment is a channel of its own. */
    ghost predicate Apart()
      reads this`asg, this`asgNew, this`lchan, this`hoNew
    {
      asg.Fi? && asgNew.Lchan? ==> asgNew != lchan && asgNew != hoNew
    }

    /** The assignment has the channel that the event it waits for needs: the primary one for the command
        to the MS, the pending one from then on. */
    ghost predicate Backed()
      reads this`asg, this`asgNew, this`lchan
    {
      asg.Fi? ==> if asg.st == WaitLchanActive then asgNew.Lchan? ==> lchan.Lchan? else asgNew.Lchan?
    }

    ghost predicate Held()
      reads this`asg, this`asgNew, this`lchan, this`hoNew
    {
      Apart() && Backed()
    }

    /** The assignment, the channels and the state are as they were. */
    ghost predicate Still(fi: Asg, new': Ref, primary: Ref, from: ConnState)
      reads this`asg, this`asgNew, this`lchan, this`state
    {
      asg == fi && asgNew == new' && lchan == primary && state == from
    }

    constructor (first: Ref, refuseWhileTerminating: bool)
      ensures Inv() && state == Init && lchan == first && asg == NoFi && sent == [] && arrivals == []
    {
      this.refuseWhileTerminating := refuseWhileTerminating;
      terminating, state, lchan, asg, asgNew, asgVoice, resultDone := false, Init, first, NoFi, NoLchan, false, false;
      hoFi, hoNew, hoInterBscIn, dtapQueue, dtapLen, clearRequests := false, NoLchan, false, [], 0, 0;
      sent, arrivals, ended, picked, hoPicked, attempts, results := [], [], {}, {}, {}, 0, 0;
      primaries := if first.Lchan? then {first.id} else {};
    }

    // ----- state changes and the DTAP queue -----

    /** osmo_fsm_inst_state_chg: a transition outside the mask is refused */
    method StateChg(to: ConnState) returns (ok: bool)
      modifies this`state, this`clearRequests
      ensures ok <==> OutMask(old(state), to)
      ensures state == if ok then to else old(state)
      ensures clearRequests == old(clearRequests) + if ok && to == Active && lchan == NoLchan then 1 else 0
    {
      if !OutMask(state, to) {
        return false;
      }
      state := to;
      if to == Active && lchan == NoLchan {
        clearRequests := clearRequests + 1;
      }
      return true;
    }

    /** gsm0808_send_rsl_dtap; on failure it asks for ST_ACTIVE, where it already is */
    method SendRsl(msg: int, env: Env)
      requires state == Active
      modifies this`sent, this`state, this`clearRequests
      ensures state == Active && sent == old(sent) + [msg]
    {
      sent := sent + [msg];
      if lchan == NoLchan || !env.rslOk {
        clearRequests := clearRequests + 1;
        var _ := StateChg(Active);
      }
    }

    /** gscon_dtap_queue_flush */
    method Flush(send: bool, env: Env)
      requires send ==> state == Active
      requires dtapLen == |dtapQueue|
      modifies this`sent, this`state, this`clearRequests, this`dtapQueue, this`dtapLen
      ensures dtapQueue == [] && dtapLen == 0 && state == old(state)
      ensures sent == if send then old(sent) + old(dtapQueue) else old(sent)
    {
      while |dtapQueue| > 0
        invariant dtapLen == |dtapQueue| && state == old(state)
        invariant if send then sent + dtapQueue == old(sent) + old(dtapQueue) else sent == old(sent)
        decreases |dtapQueue|
      {
        var msg := dtapQueue[0];
        dtapQueue := dtapQueue[1..];
        dtapLen := dtapLen - 1;
        if send {
          SendRsl(msg, env);
        }
      }
    }

    /** gscon_submit_rsl_dtap with gscon_dtap_queue_add */
    method SubmitDtap(msg: int, env: Env)
      requires dtapLen == |dtapQueue| <= MAX_DTAP && (state == Active ==> dtapQueue == [])
      modifies this`sent, this`state, this`clearRequests, this`dtapQueue, this`dtapLen
      ensures dtapLen == |dtapQueue| <= MAX_DTAP && state == old(state) && (state == Active ==> dtapQueue == [])
      ensures sent + dtapQueue
           == old(sent) + old(dtapQueue) + if state == Active || |old(dtapQueue)| < MAX_DTAP then [msg] else []
    {
      if state != Active {
        if dtapLen >= MAX_DTAP {
          return;
        }
        dtapLen := dtapLen + 1;
        dtapQueue := dtapQueue + [msg];
        return;
      }
      SendRsl(msg, env);
    }

    // ----- channels -----

    /** gscon_forget_lchan: the lchan is going away on its own */
    method ForgetLchan(l: nat)
      modifies this`asgNew, this`hoNew, this`lchan, this`clearRequests, this`ended
      ensures asgNew == if old(asgNew) == Lchan(l) then NoLchan else old(asgNew)
      ensures lchan == if old(lchan) == Lchan(l) then NoLchan else old(lchan)
      ensures hoNew == if old(hoNew) == Lchan(l) then NoLchan else old(hoNew)
      ensures ended == old(ended) + {l}
      ensures old(Accounted()) ==> Accounted()
    {
      ended := ended + {l};
      if asgNew == Lchan(l) {
        asgNew := NoLchan;
      }
      if hoNew == Lchan(l) {
        hoNew := NoLchan;
      }
      if lchan == Lchan(l) {
        lchan := NoLchan;
      }
      if state != Clearing && lchan == NoLchan && hoNew == NoLchan && asgNew == NoLchan {
        clearRequests := clearRequests + 1;
      }
    }

    /** lchan_release in error: the lchan may detach from the connection before the call returns */
    method ReleaseInError(l: nat, env: Env)
      modifies this`asgNew, this`hoNew, this`lchan, this`clearRequests, this`ended
      ensures ended == old(ended) + {l}
      ensures asgNew == if env.forgetNow && old(asgNew) == Lchan(l) then NoLchan else old(asgNew)
      ensures lchan == if env.forgetNow && old(lchan) == Lchan(l) then NoLchan else old(lchan)
      ensures hoNew == if env.forgetNow && old(hoNew) == Lchan(l) then NoLchan else old(hoNew)
      ensures old(Accounted()) ==> Accounted()
    {
      ended := ended + {l};
      if env.forgetNow {
        ForgetLchan(l);
      }
    }

    /** gscon_release_lchan: released so that it fires no events back */
    method ReleaseLchan(l: nat)
      modifies this`asgNew, this`hoNew, this`lchan, this`ended
      ensures asgNew == if old(asgNew) == Lchan(l) then NoLchan else old(asgNew)
      ensures lchan == if old(lchan) == Lchan(l) then NoLchan else old(lchan)
      ensures hoNew == if hoFi && old(hoNew) == Lchan(l) then NoLchan else old(hoNew)
      ensures ended == old(ended) + {l}
      ensures old(Accounted()) ==> Accounted()
    {
      if lchan == Lchan(l) {
        lchan := NoLchan;
      }
      if hoFi && hoNew == Lchan(l) {
        hoNew := NoLchan;
      }
      if asgNew == Lchan(l) {
        asgNew := NoLchan;
      }
      ended := ended + {l};
    }

    /** gscon_change_primary_lchan: a replaced primary channel is released */
    method ChangePrimary(new': nat)
      requires Accounted() && (asgNew == Lchan(new') || hoNew == Lchan(new'))
      modifies this`asgNew, this`hoNew, this`lchan, this`ended, this`primaries
      ensures lchan == Lchan(new')
      ensures primaries == old(primaries) + {new'} && old(ended) <= ended
      ensures old(lchan).Lchan? && old(lchan).id != new' ==> old(lchan).id in ended
      ensures asgNew == old(asgNew) || (old(asgNew) == old(lchan) && asgNew == NoLchan)
      ensures hoNew == old(hoNew) || (old(hoNew) == old(lchan) && hoNew == NoLchan)
      ensures Accounted()
    {
      var before := lchan;
      lchan := Lchan(new');
      primaries := primaries + {new'};
      if before.Lchan? && before.id != new' {
        ended := ended + {before.id};
        ReleaseLchan(before.id);
      }
    }

    // ----- the assignment FSM -----

    /** assignment_count_result */
    method CountResult()
      modifies this`resultDone, this`results
      ensures results == old(results) + (if old(resultDone) then 0 else 1) && resultDone
    {
      if !resultDone {
        results := results + 1;
        resultDone := true;
      }
    }

    /** assignment_reset: the pending channel, if any, is released */
    method AssignmentReset(env: Env)
      requires Accounted()
      modifies this`asgNew, this`hoNew, this`lchan, this`clearRequests, this`ended, this`asgVoice, this`resultDone
      ensures Accounted() && asgNew == NoLchan && !resultDone && old(ended) <= ended
      ensures old(asgNew).Lchan? ==> old(asgNew).id in ended
      ensures lchan == old(lchan) || (lchan == NoLchan && old(lchan) == old(asgNew))
      ensures hoNew == old(hoNew) || (hoNew == NoLchan && old(hoNew) == old(asgNew))
    {
      if asgNew.Lchan? {
        var l := asgNew.id;
        ended := ended + {l};
        asgNew := NoLchan;
        ReleaseInError(l, env);
      }
      asgVoice, resultDone := false, false;
    }

    /** assignment_fsm_cleanup */
    method AsgCleanup(env: Env)
      requires Accounted()
      modifies this`asg, this`asgNew, this`hoNew, this`lchan, this`clearRequests, this`ended, this`asgVoice,
               this`resultDone
      ensures Accounted() && asg == NoFi && asgNew == NoLchan && !resultDone && old(ended) <= ended
      ensures old(asgNew).Lchan? ==> old(asgNew).id in ended
      ensures lchan == old(lchan) || (lchan == NoLchan && old(lchan) == old(asgNew))
      ensures hoNew == old(hoNew) || (hoNew == NoLchan && old(hoNew) == old(asgNew))
    {
      AssignmentReset(env);
      asg := NoFi;
    }

    /** GSCON_EV_ASSIGNMENT_END, refused outside ST_ASSIGNMENT */
    method OnAssignmentEnd(env: Env)
      requires Accounted() && DtapOk() && !terminating && asg == NoFi && asgNew == NoLchan
      requires (hoNew.Lchan? ==> hoFi) && state != Terminated
      requires state == Init || state == WaitCc || state == Active ==> dtapQueue == []
      modifies this`sent, this`state, this`clearRequests, this`dtapQueue, this`dtapLen
      ensures Shape()
      ensures state == if old(state) == Assignment then Active else old(state)
    {
      if state == Assignment {
        var _ := StateChg(Active);
        Flush(true, env);
      }
    }

    /** osmo_fsm_inst_term on the assignment instance: cleanup, then the parent event */
    method AsgTerm(env: Env)
      requires Shape() && asg.Fi?
      modifies this`asg, this`asgNew, this`hoNew, this`lchan, this`clearRequests, this`ended, this`asgVoice,
               this`resultDone, this`sent, this`state, this`dtapQueue, this`dtapLen
      ensures Shape() && asg == NoFi && asgNew == NoLchan && !resultDone
      ensures state == if old(state) == Assignment then Active else old(state)
      ensures lchan == old(lchan) || (lchan == NoLchan && old(lchan) == old(asgNew))
      ensures old(asgNew).Lchan? ==> old(asgNew).id in ended
      ensures old(ended) <= ended
      ensures hoNew == old(hoNew) || (hoNew == NoLchan && old(hoNew) == old(asgNew))
    {
      AsgCleanup(env);
      OnAssignmentEnd(env);
    }

    /** assignment_fail; a result counted before, or a flag left set, makes it count none */
    method Fail(env: Env)
      requires Shape() && asg.Fi? && results + (if resultDone then 0 else 1) <= attempts
      modifies this`asg, this`asgNew, this`hoNew, this`lchan, this`clearRequests, this`ended, this`asgVoice,
               this`resultDone, this`results, this`sent, this`state, this`dtapQueue, this`dtapLen
      ensures Inv() && Came(Failed, old(Now()))
      ensures old(ended) <= ended
      ensures hoNew == old(hoNew) || (hoNew == NoLchan && old(hoNew) == old(asgNew))
    {
      CountResult();
      AsgTerm(env);
    }

    /** assignment_success, first half: the pending channel becomes the primary one */
    method TakeNewLchan()
      requires Inv() && asg.Fi? && asgNew.Lchan?
      modifies this`asgNew, this`hoNew, this`lchan, this`ended, this`primaries
      ensures Inv() && asgNew == NoLchan && lchan == old(asgNew)
      ensures old(lchan).Lchan? && old(lchan) != old(asgNew) ==> old(lchan).id in ended
    {
      ChangePrimary(asgNew.id);
      asgNew := NoLchan;
    }

    /** assignment_success when the MSC cannot be told: the new primary channel is released again */
    method UndoSuccess(l: nat, env: Env)
      requires Inv() && asg.Fi? && asgNew == NoLchan
      modifies this
      ensures Inv() && asg == NoFi && asgNew == NoLchan && arrivals == old(arrivals)
      ensures state == AfterAssignment(old(state))
      ensures ended >= old(ended) + {l} && attempts == old(attempts)
      ensures results == old(results) + Counts(Undone, old(resultDone)) && !resultDone
    {
      Fail(env);
      ReleaseInError(l, env);
    }

    /** assignment_success: the picked channel ends up primary or released, the replaced one released.
        A success counts one result, and leaves the flag set. */
    method Success(env: Env)
      requires Inv() && asg.Fi? && asgNew.Lchan?
      modifies this
      ensures Inv() && arrivals == old(arrivals) && attempts == old(attempts)
      ensures Came(Finish(env), old(Now()))
    {
      var new' := asgNew.id;
      TakeNewLchan();
      if env.completeOk {
        AsgTerm(env);
        CountResult();
      } else {
        UndoSuccess(new', env);
      }
    }

    /** assignment_fsm_wait_mgw_endpoint_to_msc on MSC_MGW_OK */
    method OnMgwOk(env: Env)
      requires Inv() && asg == Fi(WaitMgwEndpoint) && (env.rtpInfoOk ==> asgNew.Lchan?)
      modifies this
      ensures Inv() && arrivals == old(arrivals) && attempts == old(attempts)
      ensures Came(FinishMgw(env), old(Now()))
    {
      if !env.rtpInfoOk {
        Fail(env);
        return;
      }
      Success(env);
    }

    /** assignment_fsm_post_lchan_established with the onenter of WAIT_MGW_ENDPOINT_TO_MSC */
    method PostLchanEstablished(env: Env)
      requires Inv() && asg == Fi(WaitLchanEstablished) && asgNew.Lchan?
      modifies this
      ensures Inv() && arrivals == old(arrivals) && attempts == old(attempts)
      ensures Came(FinishEstablished(old(asgVoice), env), old(Now()))
      ensures old(Held()) ==> Held()
    {
      if !asgVoice {
        Success(env);
        return;
      }
      asg := Fi(WaitMgwEndpoint);
      match env.mgw {
        case CannotConnect => Fail(env);
        case ConnectedAtOnce => OnMgwOk(env);
        case AnswersLater =>
      }
    }

    /** assignment_fsm_start with the present channel: tell the MSC at once */
    method ReuseLchan(env: Env)
      requires Inv() && asg.Fi? && asgNew == NoLchan && state == Assignment
      modifies this
      ensures Inv() && arrivals == old(arrivals) && attempts == old(attempts)
      ensures asg == NoFi && state == Active && lchan == old(lchan)
      ensures results == old(results) + Counts(Failed, old(resultDone)) && !resultDone
    {
      if !env.completeOk {
        Fail(env);
      } else {
        CountResult();
        AsgTerm(env);
      }
    }

    /** assignment_fsm_start with a channel of its own */
    method SelectLchan(env: Env)
      requires Inv() && asg.Fi? && asgNew == NoLchan && state == Assignment
      modifies this
      ensures Inv() && arrivals == old(arrivals) && attempts == old(attempts)
      ensures if env.selected.Lchan? && env.activateOk
              then Still(old(asg), env.selected, old(lchan), Assignment) && asgVoice == old(asgVoice)
                   && results == old(results) && resultDone == old(resultDone)
              else Came(Failed, old(Now()).(new' := env.selected))
      ensures asg.Fi? ==> hoNew == old(hoNew)
    {
      if env.selected == NoLchan {
        CountResult();
        Fail(env);
        return;
      }
      PickLchan(env.selected.id);
      if !env.activateOk {
        Fail(env);
      }
    }

    method PickLchan(l: nat)
      requires Inv() && asg.Fi? && asgNew == NoLchan
      modifies this`asgNew, this`picked
      ensures Inv() && asgNew == Lchan(l)
    {
      asgNew := Lchan(l);
      picked := picked + {l};
    }

    /** The attempt is counted and its instance allocated. */
    method AllocAssignment()
      requires Accounted() && DtapOk() && !terminating && state == Assignment && asg == NoFi && asgNew == NoLchan
      requires (hoNew.Lchan? ==> hoFi) && results <= attempts
      modifies this`attempts, this`asg
      ensures Inv() && attempts == old(attempts) + 1 && asg == Fi(WaitLchanActive)
    {
      attempts := attempts + 1;
      asg := Fi(WaitLchanActive);
    }

    /** assignment_fsm_start: the instance exists from the first step on. It stays exactly if a channel
        of its own is needed, found and being activated. */
    method AssignmentStart(env: Env)
      requires Accounted() && DtapOk() && !terminating && state == Assignment && asg == NoFi && asgNew == NoLchan
      requires (hoNew.Lchan? ==> hoFi) && results <= attempts
      modifies this
      ensures Inv() && arrivals == old(arrivals) && attempts == old(attempts) + 1
      ensures if env.voiceModesOk && !(env.reuse && old(lchan).Lchan?) && env.selected.Lchan? && env.activateOk
              then Still(Fi(WaitLchanActive), env.selected, old(lchan), Assignment) && asgVoice == env.voice
              else asg == NoFi && asgNew == NoLchan && state == Active
      ensures asg.Fi? ==> hoNew == old(hoNew)
      ensures results == old(results) + (if asg.Fi? then 0 else Counts(Failed, old(resultDone)))
      ensures resultDone <==> asg.Fi? && old(resultDone)
    {
      AllocAssignment();
      if !env.voiceModesOk {
        Fail(env);
        return;
      }
      asgVoice := env.voice;
      if env.reuse && lchan.Lchan? {
        ReuseLchan(env);
      } else {
        SelectLchan(env);
      }
    }

    // ----- events of the assignment FSM -----

    /** ASSIGNMENT_EV_LCHAN_ACTIVE with the onenter of WAIT_RR_ASS_COMPLETE, which follows lchan. Here and
        below, !ok means that the source follows a null pointer; the model stops there. */
    method EvLchanActive(l: nat, env: Env) returns (ok: bool)
      requires Inv()
      modifies this
      ensures ok <==> old(Defined(LchanActive(l), env))
      ensures !ok ==> unchanged(this)
      ensures Inv() && arrivals == old(arrivals) && attempts == old(attempts)
      ensures ok ==>
              if old(asg) == Fi(WaitLchanActive) && old(asgNew) == Lchan(l)
              then Came(if env.rrCommandOk then Waits(WaitRrAssComplete) else Failed, old(Now()))
              else Still(old(asg), old(asgNew), old(lchan), old(state))
      ensures asg.Fi? ==> asgVoice == old(asgVoice)
      ensures old(Held()) ==> Held()
    {
      if asg != Fi(WaitLchanActive) || asgNew != Lchan(l) {
        return true;
      }
      if lchan == NoLchan {
        return false;
      }
      asg := Fi(WaitRrAssComplete);
      if !env.rrCommandOk {
        Fail(env);
      }
      return true;
    }

    /** ASSIGNMENT_EV_RR_ASSIGNMENT_COMPLETE; the onenter of WAIT_LCHAN_ESTABLISHED follows new_lchan */
    method EvRrComplete(env: Env) returns (ok: bool)
      requires Inv()
      modifies this
      ensures ok <==> old(Defined(RrComplete, env))
      ensures !ok ==> unchanged(this)
      ensures Inv() && arrivals == old(arrivals) && attempts == old(attempts)
      ensures ok ==>
              if old(asg) == Fi(WaitRrAssComplete)
              then Came(if env.established then FinishEstablished(old(asgVoice), env) else Waits(WaitLchanEstablished),
                        old(Now()))
              else Still(old(asg), old(asgNew), old(lchan), old(state))
      ensures !env.established ==> asgVoice == old(asgVoice)
      ensures old(Held()) ==> Held()
    {
      if asg != Fi(WaitRrAssComplete) {
        return true;
      }
      if asgNew == NoLchan {
        return false;
      }
      asg := Fi(WaitLchanEstablished);
      if env.established {
        PostLchanEstablished(env);
      }
      return true;
    }

    /** ASSIGNMENT_EV_RR_ASSIGNMENT_FAIL */
    method EvRrFail(env: Env)
      requires Inv()
      modifies this
      ensures Inv() && arrivals == old(arrivals)
      ensures if old(asg) == Fi(WaitRrAssComplete) then Came(Failed, old(Now()))
              else Still(old(asg), old(asgNew), old(lchan), old(state))
      ensures old(Held()) ==> Held()
    {
      if asg != Fi(WaitRrAssComplete) {
        return;
      }
      CountResult();
      Fail(env);
    }

    /** ASSIGNMENT_EV_LCHAN_ESTABLISHED; accepted but only noted while waiting for the MS */
    method EvLchanEstablished(env: Env) returns (ok: bool)
      requires Inv()
      modifies this
      ensures ok <==> old(Defined(LchanEstablished, env))
      ensures !ok ==> unchanged(this)
      ensures Inv() && arrivals == old(arrivals) && attempts == old(attempts)
      ensures ok ==>
              if old(asg) == Fi(WaitLchanEstablished)
              then Came(FinishEstablished(old(asgVoice), env), old(Now()))
              else Still(old(asg), old(asgNew), old(lchan), old(state))
      ensures old(Held()) ==> Held()
    {
      if asg != Fi(WaitLchanEstablished) {
        return true;
      }
      if asgNew == NoLchan {
        return false;
      }
      PostLchanEstablished(env);
      return true;
    }

    /** ASSIGNMENT_EV_MSC_MGW_OK; assignment_success follows new_lchan */
    method EvMgwOk(env: Env) returns (ok: bool)
      requires Inv()
      modifies this
      ensures ok <==> old(Defined(MgwOk, env))
      ensures !ok ==> unchanged(this)
      ensures Inv() && arrivals == old(arrivals) && attempts == old(attempts)
      ensures ok ==>
              if old(asg) == Fi(WaitMgwEndpoint) then Came(FinishMgw(env), old(Now()))
              else Still(old(asg), old(asgNew), old(lchan), old(state))
      ensures old(Held()) ==> Held()
    {
      if asg != Fi(WaitMgwEndpoint) {
        return true;
      }
      if env.rtpInfoOk && asgNew == NoLchan {
        return false;
      }
      OnMgwOk(env);
      return true;
    }

    /** ASSIGNMENT_EV_MSC_MGW_FAIL */
    method EvMgwFail(env: Env)
      requires Inv()
      modifies this
      ensures Inv() && arrivals == old(arrivals)
      ensures if old(asg) == Fi(WaitMgwEndpoint) then Came(Failed, old(Now()))
              else Still(old(asg), old(asgNew), old(lchan), old(state))
      ensures old(Held()) ==> Held()
    {
      if asg == Fi(WaitMgwEndpoint) {
        Fail(env);
      }
    }

    /** ASSIGNMENT_EV_LCHAN_ERROR, in any state: only the pending channel ends the assignment */
    method EvLchanError(l: nat, env: Env)
      requires Inv()
      modifies this
      ensures Inv() && asgNew != Lchan(l) && arrivals == old(arrivals)
      ensures if old(asgNew) == Lchan(l) then Came(Failed, old(Now()))
              else Still(old(asg), old(asgNew), old(lchan), old(state))
      ensures old(Held()) ==> Held()
      ensures hoFi == old(hoFi) && (old(hoNew) != Lchan(l) ==> hoNew == old(hoNew)) && (hoNew == old(hoNew) || hoNew == NoLchan)
    {
      if asg.Fi? && asgNew == Lchan(l) {
        Fail(env);
      }
    }

    /** assignment_fsm_timer_cb: it counts its own result first, so the failure counts none */
    method EvAsgTimeout(env: Env)
      requires Inv()
      modifies this
      ensures Inv() && arrivals == old(arrivals)
      ensures old(asg).Fi? ==> Came(Failed, old(Now()))
      ensures old(asg) == NoFi ==> results == old(results)
      ensures old(Held()) ==> Held()
    {
      if asg.Fi? {
        CountResult();
        Fail(env);
      }
    }

    /** ASSIGNMENT_EV_CONN_RELEASING */
    method EvConnReleasing(env: Env)
      requires Inv()
      modifies this
      ensures Inv() && arrivals == old(arrivals)
      ensures old(asg).Fi? ==> Came(Failed, old(Now()))
      ensures old(asg) == NoFi ==> results == old(results)
      ensures old(Held()) ==> Held()
    {
      if asg.Fi? {
        CountResult();
        AsgTerm(env);
      }
    }

    // ----- handover, as far as it touches the connection -----

    /** GSCON_EV_HANDOVER_END, refused outside ST_INIT and ST_HANDOVER */
    method OnHandoverEnd(ok: bool, env: Env)
      requires Core()
      modifies this`sent, this`state, this`clearRequests, this`dtapQueue, this`dtapLen
      ensures Core()
      ensures state == AfterHandover(old(state), ok && hoInterBscIn)
    {
      if state == Handover || (state == Init && ok && hoInterBscIn) {
        var _ := StateChg(Active);
        Flush(true, env);
      } else if state == Init {
        clearRequests := clearRequests + 1;
        var _ := StateChg(Clearing);
      }
    }

    /** The end of handover_end: a pending channel that is still there is released, the instance goes. */
    method DropHandover(env: Env)
      requires Core()
      modifies this`asgNew, this`hoNew, this`lchan, this`clearRequests, this`ended, this`hoFi, this`hoInterBscIn
      ensures Core() && hoNew == NoLchan && !hoFi && (asgNew == old(asgNew) || asgNew == NoLchan)
      ensures old(ended) <= ended && (old(hoNew).Lchan? ==> old(hoNew).id in ended)
      ensures lchan == if env.forgetNow && old(lchan) == old(hoNew) then NoLchan else old(lchan)
      ensures old(asgNew) != old(hoNew) ==> asgNew == old(asgNew)
    {
      if hoNew.Lchan? {
        ReleaseInError(hoNew.id, env);
        hoNew := NoLchan;
      }
      hoFi, hoInterBscIn := false, false;
    }

    /** handover_end before the result is dispatched: the new channel is taken over on success */
    method TakeHoLchan(ok: bool, releasePrimary: bool, env: Env)
      requires Core()
      modifies this`asgNew, this`hoNew, this`lchan, this`clearRequests, this`ended, this`primaries
      ensures Core() && (asgNew == old(asgNew) || asgNew == NoLchan) && old(ended) <= ended
      ensures ok ==> hoNew == NoLchan && (old(hoNew).Lchan? ==> lchan == old(hoNew))
      ensures ok && old(hoNew).Lchan? && old(lchan).Lchan? && old(lchan) != old(hoNew) ==> old(lchan).id in ended
      ensures !(ok && old(hoNew).Lchan?) ==> lchan == if !ok && env.forgetNow && releasePrimary then NoLchan else old(lchan)
      ensures !ok ==> hoNew == if env.forgetNow && releasePrimary && old(hoNew) == old(lchan) then NoLchan else old(hoNew)
      ensures !ok && releasePrimary && old(lchan).Lchan? ==> old(lchan).id in ended
      ensures old(asgNew) != old(lchan) || (!ok && !releasePrimary) ==> asgNew == old(asgNew)
    {
      if releasePrimary && !ok && lchan.Lchan? {
        ReleaseInError(lchan.id, env);
      }
      if ok && hoNew.Lchan? {
        ChangePrimary(hoNew.id);
        hoNew := NoLchan;
      }
    }

    method TellHandoverEnd(ok: bool, env: Env)
      requires Core()
      modifies this`sent, this`state, this`clearRequests, this`dtapQueue, this`dtapLen
      ensures Core()
      ensures state == if terminating && refuseWhileTerminating then old(state)
                       else AfterHandover(old(state), ok && hoInterBscIn)
    {
      if !(terminating && refuseWhileTerminating) {
        OnHandoverEnd(ok, env);
      }
    }

    /** A handover that succeeds makes its channel primary and ends the replaced one; one that fails
        ends its channel, and the primary if that is given up. */
    ghost predicate HandedOver(ok: bool, releasePrimary: bool, detaches: bool, new': Ref, primary: Ref)
      reads this`lchan, this`ended
    {
      && lchan == HandedTo(ok, releasePrimary, detaches, new', primary)
      && (ok && new'.Lchan? && primary.Lchan? && primary != new' ==> primary.id in ended)
      && (!ok && new'.Lchan? ==> new'.id in ended)
      && (!ok && releasePrimary && primary.Lchan? ==> primary.id in ended)
    }

    /** handover_end. A connection that is terminating may be past taking the event, depending on the
        FSM library. */
    method HandoverEnd(ok: bool, releasePrimary: bool, env: Env)
      requires Core()
      modifies this`asgNew, this`hoNew, this`hoFi, this`hoInterBscIn, this`lchan, this`clearRequests,
               this`ended, this`primaries, this`sent, this`state, this`dtapQueue, this`dtapLen
      ensures Core() && !hoFi && hoNew == NoLchan && (asgNew == old(asgNew) || asgNew == NoLchan)
      ensures HandedOver(ok, releasePrimary, env.forgetNow, old(hoNew), old(lchan))
      ensures old(asgNew) != old(hoNew) && (old(asgNew) != old(lchan) || (!ok && !releasePrimary)) ==>
        asgNew == old(asgNew)
      ensures state == if terminating && refuseWhileTerminating then old(state)
                       else AfterHandover(old(state), ok && old(hoInterBscIn))
    {
      TakeHoLchan(ok, releasePrimary, env);
      TellHandoverEnd(ok, env);
      DropHandover(env);
    }

    /** gscon_release_lchans */
    method ReleaseLchans(env: Env)
      requires Core()
      modifies this`asgNew, this`hoNew, this`hoFi, this`hoInterBscIn, this`lchan, this`clearRequests,
               this`ended, this`primaries, this`sent, this`state, this`dtapQueue, this`dtapLen,
               this`asgVoice, this`resultDone
      ensures Core() && lchan == NoLchan && asgNew == NoLchan && hoNew == NoLchan
      ensures old(state) == Clearing || old(state) == WaitCc ==> state == old(state)
    {
      if hoFi {
        HandoverEnd(false, false, env);
      }
      AssignmentReset(env);
      if lchan.Lchan? {
        ReleaseLchan(lchan.id);
      }
    }

    /** gscon_pre_term */
    method PreTerm(env: Env)
      requires Core()
      modifies this`asgNew, this`hoNew, this`hoFi, this`hoInterBscIn, this`lchan, this`clearRequests,
               this`ended, this`primaries, this`sent, this`state, this`dtapQueue, this`dtapLen,
               this`asgVoice, this`resultDone
      ensures Accounted() && lchan == NoLchan && asgNew == NoLchan && hoNew == NoLchan
      ensures dtapQueue == [] && dtapLen == 0 && sent <= Kept(arrivals)
    {
      ReleaseLchans(env);
      Flush(false, env);
    }

    /** The children's cleanup, which sends no parent event while the parent terminates. */
    method EndChildren(env: Env)
      requires Accounted() && lchan == NoLchan && asgNew == NoLchan && hoNew == NoLchan
      requires dtapQueue == [] && dtapLen == 0 && sent <= Kept(arrivals)
      modifies this`asg, this`asgNew, this`hoNew, this`hoFi, this`lchan, this`clearRequests, this`ended,
               this`asgVoice, this`resultDone
      ensures Gone()
    {
      AsgCleanup(env);
      hoFi := false;
    }

    method GoneAtLast(env: Env)
      requires Core()
      modifies this`asg, this`asgNew, this`hoNew, this`hoFi, this`hoInterBscIn, this`lchan, this`clearRequests,
               this`ended, this`primaries, this`sent, this`state, this`dtapQueue, this`dtapLen,
               this`asgVoice, this`resultDone
      ensures Gone()
    {
      PreTerm(env);
      EndChildren(env);
    }

    /** osmo_fsm_inst_term on the connection: every channel it ever had is ended */
    method Term(env: Env)
      requires Inv() && state != Terminated
      modifies this
      ensures Inv() && state == Terminated && arrivals == old(arrivals)
    {
      terminating := true;
      GoneAtLast(env);
      state := Terminated;
    }

    // ----- events of the connection -----

    /** GSCON_EV_A_CONN_REQ, only in ST_INIT */
    method EvConnReq(openOk: bool, env: Env)
      requires Inv()
      modifies this
      ensures Inv() && arrivals == old(arrivals)
      ensures state == if old(state) != Init then old(state) else if openOk then WaitCc else Terminated
      ensures old(Held()) ==> Held()
    {
      if state != Init {
        return;
      }
      if openOk {
        var _ := StateChg(WaitCc);
      } else {
        Term(env);
      }
    }

    method PickHoLchan(target: Ref)
      requires Core() && hoFi && hoNew == NoLchan
      modifies this`hoNew, this`hoPicked
      ensures Core() && hoNew == target
    {
      hoNew := target;
      if target.Lchan? {
        hoPicked := hoPicked + {target.id};
      }
    }

    /** handover_start_inter_bsc_in and handover_start: the instance, and its channel if one is found */
    method BeginHandover(interBscIn: bool, found: bool, target: Ref, env: Env)
      requires Core() && !terminating && !hoFi && (state == Init || state == Handover)
      modifies this`asgNew, this`hoNew, this`hoFi, this`hoInterBscIn, this`hoPicked, this`lchan, this`clearRequests,
               this`ended, this`primaries, this`sent, this`state, this`dtapQueue, this`dtapLen
      ensures Core()
      ensures found ==> hoFi && hoNew == target && state == old(state)
      ensures !found ==> !hoFi && state == if old(state) == Init then Clearing else Active
    {
      hoFi, hoInterBscIn := true, interBscIn;
      if found {
        PickHoLchan(target);
      } else {
        HandoverEnd(false, false, env);
      }
    }

    /** GSCON_EV_A_CONN_IND, only in ST_INIT: anything but a Handover Request is refused, and a second one
        fails an assertion (!ok) */
    method EvConnInd(handoverRequest: bool, target: Ref, env: Env) returns (ok: bool)
      requires Inv()
      modifies this
      ensures ok <==> old(Defined(ConnInd(handoverRequest, target), env))
      ensures !ok ==> unchanged(this)
      ensures Inv() && arrivals == old(arrivals)
      ensures old(state) != Init ==> state == old(state)
      ensures ok && old(state) == Init && !handoverRequest ==> state == Terminated
      ensures ok && old(state) == Init && handoverRequest ==>
        if target.Lchan? then state == Init && hoFi && hoNew == target else state == Clearing && !hoFi
      ensures old(Held()) ==> Held()
    {
      if state != Init {
        return true;
      }
      if handoverRequest && hoFi {
        return false;
      }
      if handoverRequest {
        BeginHandover(true, target.Lchan?, target, env);
      } else {
        Term(env);
      }
      return true;
    }

    /** GSCON_EV_A_CONN_CFM, only in ST_WAIT_CC; the queue is not flushed here, and is empty */
    method EvConnCfm()
      requires Inv()
      modifies this`state, this`clearRequests
      ensures Inv() && state == if old(state) == WaitCc then Active else old(state)
      ensures old(Held()) ==> Held()
    {
      if state == WaitCc {
        var _ := StateChg(Active);
      }
    }

    /** GSCON_EV_A_CLEAR_CMD in any state; ST_WAIT_CC cannot be left for ST_CLEARING, but the channels go */
    method EvClearCmd(env: Env)
      requires Inv()
      modifies this
      ensures Inv() && arrivals == old(arrivals)
      ensures old(state) != Terminated ==> lchan == NoLchan && asgNew == NoLchan && hoNew == NoLchan
      ensures state == if old(state) == WaitCc || old(state) == Terminated then old(state) else Clearing
      ensures asg == old(asg)
    {
      if state == Terminated {
        return;
      }
      if state != Clearing {
        var _ := StateChg(Clearing);
      }
      ReleaseLchans(env);
    }

    /** gscon_timer_cb: T993210 runs in ST_WAIT_CC, T999 in ST_CLEARING */
    method EvConnTimeout(env: Env)
      requires Inv()
      modifies this
      ensures Inv() && arrivals == old(arrivals)
      ensures state == if old(state) == WaitCc || old(state) == Clearing then Terminated else old(state)
      ensures old(Held()) ==> Held()
    {
      if state == WaitCc {
        if lchan.Lchan? {
          ReleaseLchan(lchan.id);
        }
        Term(env);
      } else if state == Clearing {
        Term(env);
      }
    }

    /** GSCON_EV_ASSIGNMENT_START, only in ST_ACTIVE and only with a channel */
    method EvAssignmentCmd(env: Env)
      requires Inv()
      modifies this
      ensures Inv() && arrivals == old(arrivals)
      ensures attempts == old(attempts) + if old(state) == Active && old(lchan).Lchan? then 1 else 0
      ensures old(state) == Active && old(lchan).Lchan? ==>
        if env.voiceModesOk && !env.reuse && env.selected.Lchan? && env.activateOk
        then Still(Fi(WaitLchanActive), env.selected, old(lchan), Assignment) && asgVoice == env.voice
        else asg == NoFi && asgNew == NoLchan && state == Active
      ensures !(old(state) == Active && old(lchan).Lchan?) ==> Still(old(asg), old(asgNew), old(lchan), old(state))
      ensures asg.Fi? ==> hoNew == old(hoNew)
      ensures old(Held()) && old(Free(AssignmentCmd, env)) ==> Held()
      ensures old(state) == Active && old(lchan).Lchan? ==>
        && results == old(results) + (if asg.Fi? then 0 else Counts(Failed, old(resultDone)))
        && (resultDone <==> asg.Fi? && old(resultDone))
    {
      if state != Active || lchan == NoLchan {
        return;
      }
      var _ := StateChg(Assignment);
      AssignmentStart(env);
    }

    /** GSCON_EV_HANDOVER_START, only in ST_ACTIVE; ignored there if a handover is still going on */
    method EvHandoverCmd(found: bool, target: Ref, env: Env)
      requires Inv()
      modifies this
      ensures Inv() && arrivals == old(arrivals)
      ensures old(state) != Active ==> state == old(state) && hoFi == old(hoFi) && hoNew == old(hoNew)
      ensures old(state) == Active && old(hoFi) ==> state == Handover && hoFi && hoNew == old(hoNew)
      ensures old(state) == Active && !old(hoFi) ==>
        if found then state == Handover && hoFi && hoNew == target else state == Active && !hoFi
      ensures old(Held()) ==> Held()
    {
      if state != Active {
        return;
      }
      var _ := StateChg(Handover);
      if !hoFi {
        BeginHandover(false, found, target, env);
      }
    }

    /** the handover instance ends with a result */
    method EvHandoverResult(ok: bool, releasePrimary: bool, env: Env)
      requires Inv()
      modifies this
      ensures Inv() && arrivals == old(arrivals)
      ensures old(hoFi) ==>
        !hoFi && hoNew == NoLchan && HandedOver(ok, releasePrimary, env.forgetNow, old(hoNew), old(lchan))
      ensures state == if old(hoFi) then AfterHandover(old(state), ok && old(hoInterBscIn)) else old(state)
      ensures old(Held()) ==> Apart() && (Backed() <==> !old(Takes(HandoverResult(ok, releasePrimary), env)))
    {
      if hoFi {
        HandoverEnd(ok, releasePrimary, env);
      }
    }

    method TakeDtap(msg: int, env: Env)
      requires DtapOk() && TakesDtap(state) && (state == Active ==> dtapQueue == [])
      modifies this`sent, this`state, this`clearRequests, this`dtapQueue, this`dtapLen, this`arrivals
      ensures DtapOk() && state == old(state) && (state == Active ==> dtapQueue == [])
      ensures arrivals == old(arrivals) + [Arrival(msg, old(state), |old(dtapQueue)|)]
    {
      KeptStep(arrivals, Arrival(msg, state, |dtapQueue|));
      arrivals := arrivals + [Arrival(msg, state, |dtapQueue|)];
      SubmitDtap(msg, env);
    }

    method RefuseDtap(msg: int)
      requires !TakesDtap(state)
      modifies this`arrivals
      ensures arrivals == old(arrivals) + [Arrival(msg, state, |dtapQueue|)] && Kept(arrivals) == old(Kept(arrivals))
    {
      KeptStep(arrivals, Arrival(msg, state, |dtapQueue|));
      arrivals := arrivals + [Arrival(msg, state, |dtapQueue|)];
    }

    /** GSCON_EV_MT_DTAP, only in ST_ACTIVE, ST_ASSIGNMENT and ST_HANDOVER */
    method EvMtDtap(msg: int, env: Env)
      requires Inv()
      modifies this`sent, this`state, this`clearRequests, this`dtapQueue, this`dtapLen, this`arrivals
      ensures Inv() && state == old(state)
      ensures arrivals == old(arrivals) + [Arrival(msg, old(state), |old(dtapQueue)|)]
    {
      if TakesDtap(state) {
        TakeDtap(msg, env);
      } else {
        RefuseDtap(msg);
      }
    }

    /** gscon_lchan_releasing, first half: whoever waits for the channel is told */
    method TellReleasing(l: nat, hoTells: bool, env: Env)
      requires Inv() && state != Terminated
      modifies this
      ensures Inv() && state != Terminated && arrivals == old(arrivals)
      ensures lchan == old(lchan) || (lchan == NoLchan && old(lchan) == Lchan(l))
      ensures if old(asgNew) == Lchan(l) then asg == NoFi && asgNew == NoLchan else asg == old(asg) && asgNew == old(asgNew)
      ensures old(hoNew) != Lchan(l) ==> hoFi == old(hoFi) && hoNew == old(hoNew)
      ensures hoNew == old(hoNew) || hoNew == NoLchan
    {
      EvLchanError(l, env);
      if hoNew == Lchan(l) && hoFi && hoTells {
        HandoverEnd(false, false, env);
      }
    }

    method AskClear()
      requires Core()
      modifies this`state, this`clearRequests
      ensures Core() && state == if old(state) == WaitCc then WaitCc else Clearing
    {
      if state != Clearing {
        var _ := StateChg(Clearing);
      }
      clearRequests := clearRequests + 1;
    }

    /** gscon_lchan_releasing, second half: without a primary channel, ask to be cleared */
    method LosePrimary(l: nat)
      requires Core() && asgNew != Lchan(l)
      modifies this`ended, this`lchan, this`state, this`clearRequests
      ensures Core() && lchan == (if old(lchan) == Lchan(l) then NoLchan else old(lchan)) && l in ended
      ensures lchan == NoLchan ==> state == Clearing || state == WaitCc
    {
      ended := ended + {l};
      if lchan == Lchan(l) {
        lchan := NoLchan;
      }
      if lchan == NoLchan {
        AskClear();
      }
    }

    /** gscon_lchan_releasing: exactly the references to this channel go, with the assignment if the
        channel was pending there */
    method EvLchanReleasing(l: nat, hoTells: bool, env: Env)
      requires Inv()
      modifies this
      ensures Inv() && arrivals == old(arrivals)
      ensures lchan == if old(lchan) == Lchan(l) then NoLchan else old(lchan)
      ensures if old(asgNew) == Lchan(l) then asg == NoFi && asgNew == NoLchan else asg == old(asg) && asgNew == old(asgNew)
      ensures old(hoNew) != Lchan(l) ==> hoFi == old(hoFi) && hoNew == old(hoNew)
      ensures old(state) != Terminated ==> l in ended && (lchan == NoLchan ==> state == Clearing || state == WaitCc)
      ensures old(Held()) ==> Apart() && (Backed() <==> !old(Takes(LchanReleasing(l, hoTells), env)))
    {
      if state != Terminated {
        TellReleasing(l, hoTells, env);
        LosePrimary(l);
      }
    }

    /** gscon_forget_lchan as an event of its own */
    method EvLchanGone(l: nat)
      requires Inv()
      modifies this`asgNew, this`hoNew, this`lchan, this`clearRequests, this`ended
      ensures Inv() && ended == old(ended) + {l}
      ensures asgNew == if old(asgNew) == Lchan(l) then NoLchan else old(asgNew)
      ensures lchan == if old(lchan) == Lchan(l) then NoLchan else old(lchan)
      ensures hoNew == if old(hoNew) == Lchan(l) then NoLchan else old(hoNew)
    {
      ForgetLchan(l);
    }

    // ----- whole runs -----

    /** False where the source would follow lchan or assignment.new_lchan although it is NULL, or start
        a second handover instance. */
    predicate Defined(ev: Event, env: Env)
      reads this
    {
      match ev
      case LchanActive(l) => asg == Fi(WaitLchanActive) && asgNew == Lchan(l) ==> lchan.Lchan?
      case RrComplete => asg == Fi(WaitRrAssComplete) ==> asgNew.Lchan?
      case LchanEstablished => asg == Fi(WaitLchanEstablished) ==> asgNew.Lchan?
      case MgwOk => asg == Fi(WaitMgwEndpoint) && env.rtpInfoOk ==> asgNew.Lchan?
      case ConnInd(request, _) => state == Init && request ==> !hoFi
      case _ => true
    }

    /** An event that takes the channel away that a running assignment needs next: the primary one
        before the MS has its command, the pending one after. */
    predicate Takes(ev: Event, env: Env)
      reads this
    {
      asg.Fi? && if asg.st == WaitLchanActive then
        asgNew.Lchan? && lchan.Lchan? && match ev
          case LchanGone(l) => lchan == Lchan(l)
          case LchanReleasing(l, _) => lchan == Lchan(l)
          case HandoverResult(ok, releasePrimary) =>
            hoFi && !ok && env.forgetNow && (releasePrimary || hoNew == lchan)
          case _ => false
      else ev.ClearCmd? || (ev.LchanGone? && asgNew == Lchan(ev.l))
    }

    /** A channel that is selected for an assignment is a free one. */
    predicate Free(ev: Event, env: Env)
      reads this
    {
      ev.AssignmentCmd? && env.selected.Lchan? ==> env.selected != lchan && env.selected != hoNew
    }

    /** The event a running assignment waits for. */
    function Awaited(): Event
      requires asg.Fi?
      reads this
    {
      match asg.st
      case WaitLchanActive => LchanActive(if asgNew.Lchan? then asgNew.id else 0)
      case WaitRrAssComplete => RrComplete
      case WaitLchanEstablished => LchanEstablished
      case WaitMgwEndpoint => MgwOk
    }

    /** An assignment is backed exactly if the event it waits for is defined. */
    lemma BackedIsDefined(env: Env)
      requires asg.Fi? && env.rtpInfoOk
      ensures Backed() <==> Defined(Awaited(), env)
    {
    }

    /** An answer the assignment waits for. */
    method AnswerStep(ev: Event, env: Env) returns (ok: bool)
      requires Inv() && IsAnswer(ev)
      modifies this
      ensures Inv() && arrivals == old(arrivals)
      ensures ok <==> old(Defined(ev, env))
      ensures old(Held()) ==> Apart() && (Backed() <==> !old(Takes(ev, env)))
    {
      match ev {
        case LchanActive(l) => ok := EvLchanActive(l, env);
        case RrComplete => ok := EvRrComplete(env);
        case LchanEstablished => ok := EvLchanEstablished(env);
        case MgwOk => ok := EvMgwOk(env);
      }
    }

    /** An event that ends the assignment. */
    method FailureStep(ev: Event, env: Env)
      requires Inv() && IsFailure(ev)
      modifies this
      ensures Inv() && arrivals == old(arrivals)
      ensures old(Held()) ==> Apart() && (Backed() <==> !old(Takes(ev, env)))
    {
      match ev {
        case RrFail => EvRrFail(env);
        case MgwFail => EvMgwFail(env);
        case LchanError(l) => EvLchanError(l, env);
        case AsgTimeout => EvAsgTimeout(env);
        case AsgReleasing => EvConnReleasing(env);
      }
    }

    /** An event of the connection itself, downlink messages aside. */
    method ConnStep(ev: Event, env: Env) returns (ok: bool)
      requires Inv() && !IsAnswer(ev) && !IsFailure(ev) && !ForChannels(ev) && !ev.MtDtap?
      modifies this
      ensures Inv() && arrivals == old(arrivals)
      ensures ok <==> old(Defined(ev, env))
      ensures old(Held()) && old(Free(ev, env)) ==> Apart() && (Backed() <==> !old(Takes(ev, env)))
    {
      ok := true;
      match ev {
        case ConnReq(openOk) => EvConnReq(openOk, env);
        case ConnInd(request, target) => ok := EvConnInd(request, target, env);
        case ConnCfm => EvConnCfm();
        case DiscInd => if state != Terminated { Term(env); }
        case ConnTimeout => EvConnTimeout(env);
        case RslConnFail => clearRequests := clearRequests + 1;
        case AssignmentCmd => EvAssignmentCmd(env);
        case HandoverCmd(found, target) => EvHandoverCmd(found, target, env);
      }
    }

    /** An event that may take channels away. */
    method ChannelStep(ev: Event, env: Env)
      requires Inv() && ForChannels(ev)
      modifies this
      ensures Inv() && arrivals == old(arrivals)
      ensures old(Held()) ==> Apart() && (Backed() <==> !old(Takes(ev, env)))
    {
      match ev {
        case ClearCmd => EvClearCmd(env);
        case HandoverResult(ok, releasePrimary) => EvHandoverResult(ok, releasePrimary, env);
        case LchanReleasing(l, hoTells) => EvLchanReleasing(l, hoTells, env);
        case LchanGone(l) => EvLchanGone(l);
      }
    }

    /** One event, in the state it finds; refused exactly if it is not Defined. A backed assignment
        stays backed exactly if the event does not take its channel. */
    method Step(ev: Event, env: Env) returns (ok: bool)
      requires Inv()
      modifies this
      ensures Inv()
      ensures ok <==> old(Defined(ev, env))
      ensures arrivals == old(arrivals) + if ev.MtDtap? then [Arrival(ev.msg, old(state), |old(dtapQueue)|)] else []
      ensures old(Held()) && old(Free(ev, env)) ==> Apart() && (Backed() <==> !old(Takes(ev, env)))
    {
      ok := true;
      if ev.MtDtap? {
        EvMtDtap(ev.msg, env);
      } else if IsAnswer(ev) {
        ok := AnswerStep(ev, env);
      } else if IsFailure(ev) {
        FailureStep(ev, env);
      } else if ForChannels(ev) {
        ChannelStep(ev, env);
      } else {
        ok := ConnStep(ev, env);
      }
    }

    /** A whole run. The instance and its state go together; a picked channel is pending, primary or
        ended; a replaced primary channel has ended; the queue is counted, bounded and empty while
        active. Every message offered is recorded with the state it found; those kept are sent in that
        order, once each, and only the end of the connection loses one of them. */
    method Run(events: seq<(Event, Env)>) returns (handled: nat)
      requires Inv() && arrivals == []
      modifies this
      ensures Inv() && handled <= |events|
      ensures handled < |events| ==> !Defined(events[handled].0, events[handled].1)
      ensures (state == Assignment ==> asg.Fi?) && (asg.Fi? ==> state == Assignment || state == Clearing)
      ensures asgNew.Lchan? ==> asg.Fi?
      ensures asg == NoFi ==> forall p :: p in picked ==> lchan == Lchan(p) || p in ended
      ensures !hoFi ==> forall p :: p in hoPicked ==> lchan == Lchan(p) || p in ended
      ensures forall p :: p in primaries ==> lchan == Lchan(p) || p in ended
      ensures dtapLen == |dtapQueue| <= MAX_DTAP && (state == Active ==> dtapQueue == [])
      ensures if state == Terminated then sent <= Kept(arrivals) else sent + dtapQueue == Kept(arrivals)
      ensures Messages(arrivals) == Offered(events[..handled])
      ensures results <= attempts
    {
      handled := 0;
      while handled < |events| && Defined(events[handled].0, events[handled].1)
        invariant Inv() && handled <= |events|
        invariant Messages(arrivals) == Offered(events[..handled])
      {
        ghost var before := arrivals;
        var _ := Step(events[handled].0, events[handled].1);
        OfferedStep(before, arrivals, events, handled);
        handled := handled + 1;
      }
    }

    /** A run in which no event takes a channel that a running assignment needs next never comes to an
        event that is not Defined, but for a second handover request. */
    method RunHeld(events: seq<(Event, Env)>) returns (handled: nat)
      requires Inv() && Held()
      modifies this
      ensures Inv() && Held() && handled <= |events|
      ensures handled < |events| ==>
        var (ev, env) := events[handled];
        Takes(ev, env) || !Free(ev, env) || (ev.ConnInd? && state == Init && hoFi)
    {
      handled := 0;
      while handled < |events|
        && !Takes(events[handled].0, events[handled].1) && Free(events[handled].0, events[handled].1)
        && (events[handled].0.ConnInd? ==> state == Init ==> !hoFi)
        invariant Inv() && Held() && handled <= |events|
      {
        var ok := Step(events[handled].0, events[handled].1);
        handled := handled + 1;
      }
    }

    /** And an event that does take it leaves the assignment waiting for an event that is not Defined. */
    method ChannelTaken(ev: Event, env: Env)
      requires Inv() && Held() && Takes(ev, env) && env.rtpInfoOk
      modifies this
      ensures Inv() && asg.Fi? && !Defined(Awaited(), env)
    {
      ChannelStep(ev, env);
      BackedIsDefined(env);
    }

    /** An assignment with a voice stream on channel l, up to the wait for the MGW. */
    method ComesToMgw(l: nat, env: Env)
      requires Inv() && state == Active && lchan.Lchan? && lchan != Lchan(l)
      requires env.voiceModesOk && !env.reuse && env.selected == Lchan(l) && env.activateOk && env.rrCommandOk
      requires env.voice && !env.established && env.mgw == AnswersLater
      modifies this
      ensures Inv() && asg == Fi(WaitMgwEndpoint) && asgNew == Lchan(l)
    {
      EvAssignmentCmd(env);
      var ok := EvLchanActive(l, env);
      ok := EvRrComplete(env);
      ok := EvLchanEstablished(env);
    }

    /** One such run: the established new channel is lost while the MGW is still to answer. */
    method LostBeforeMgwAnswers(l: nat, env: Env)
      requires Inv() && state == Active && lchan.Lchan? && lchan != Lchan(l)
      requires env.voiceModesOk && !env.reuse && env.selected == Lchan(l) && env.activateOk && env.rrCommandOk
      requires env.voice && !env.established && env.mgw == AnswersLater && env.rtpInfoOk
      modifies this
      ensures Inv() && !Defined(MgwOk, env)
    {
      ComesToMgw(l, env);
      EvLchanGone(l);
    }

    /** Another: the primary channel is lost, releasing or gone, before the new one is active. */
    method PrimaryLostBeforeActive(l: nat, releasing: bool, env: Env)
      requires Inv() && state == Active && lchan.Lchan? && lchan != Lchan(l)
      requires env.voiceModesOk && !env.reuse && env.selected == Lchan(l) && env.activateOk
      modifies this
      ensures Inv() && !Defined(LchanActive(l), env)
    {
      var primary := lchan.id;
      EvAssignmentCmd(env);
      if releasing {
        EvLchanReleasing(primary, false, env);
      } else {
        EvLchanGone(primary);
      }
    }

    /** An assignment in which everybody answers well, with a voice stream or without: the new channel
        is primary, the old one ended, and the connection is active again. */
    method AssignmentGoesThrough(l: nat, env: Env)
      requires Inv() && state == Active && lchan.Lchan? && lchan != Lchan(l)
      requires env.voiceModesOk && !env.reuse && env.selected == Lchan(l) && env.activateOk && env.rrCommandOk
      requires !env.established && env.mgw == AnswersLater && env.rtpInfoOk && env.completeOk
      modifies this
      ensures Inv() && state == Active && asg == NoFi && dtapQueue == []
      ensures lchan == Lchan(l) && old(lchan).id in ended
      ensures resultDone && results == old(results) + 1 && attempts == old(attempts) + 1
    {
      EvAssignmentCmd(env);
      var ok := EvLchanActive(l, env);
      ok := EvRrComplete(env);
      ok := EvLchanEstablished(env);
      if asg.Fi? {
        ok := EvMgwOk(env);
      }
    }

    /** The flag it leaves set keeps a second attempt that fails from being counted. */
    method SecondNotCounted(l: nat, good: Env, bad: Env)
      requires Inv() && state == Active && lchan.Lchan? && lchan != Lchan(l)
      requires good.voiceModesOk && !good.reuse && good.selected == Lchan(l) && good.activateOk && good.rrCommandOk
      requires !good.established && good.mgw == AnswersLater && good.rtpInfoOk && good.completeOk
      requires !bad.voiceModesOk
      modifies this
      ensures Inv() && asg == NoFi && attempts == old(attempts) + 2 && results == old(results) + 1
    {
      AssignmentGoesThrough(l, good);
      EvAssignmentCmd(bad);
    }
  }
}
