/** The OM2000 bring-up of an Ericsson RBS2000: the BTS, TRX and managed-object FSMs of
    src/osmo-bsc/abis_om2000.c, nested in one another. */
module Om2000 {

  const NUM_TS := 8

  datatype MoId = Cf | Tf | Con | Is | Trxc(trx: nat) | Tx(trx: nat) | Rx(trx: nat) | Ts(trx: nat, ts: nat)

  datatype MoState = WaitConnCompl | WaitResCompl | WaitStartAccept | WaitStartRes | WaitCfgAccept
                   | WaitCfgRes | WaitEnableAccept | WaitEnableRes | WaitOpinfoAccept | MoDone | MoError

  datatype TrxState = WaitTrxc | WaitTx | WaitRx | WaitTs | TrxError

  datatype TrxFsm = NoTrx | TrxFsm(nr: nat, st: TrxState, nextTs: nat)

  datatype BtsState = BtsInit | WaitCf | WaitTf | WaitCon | WaitIs | WaitTrx | BtsDone | BtsError

  datatype Cmd = Connect | Reset | Start | Configure | Enable | OpInfo

  /** Messages from the BTS, grouped as om2k_mo_fsm_recvmsg groups them. */
  datatype Msg = ConnectCompl | ConnectRej | ResetCompl | ResetRej | StartReqAck | StartReqRej | StartResult
               | ConfReqAck | ConfResult(accordance: int) | ConfResultEmpty | EnableReqAck | EnableReqRej
               | EnableResult | OpInfoAck | OpInfoRej | OtherMsg

  datatype Outcome = Live | Regular | Failed

  /** One managed object's FSM from its start on: what it sent and how it ended. */
  datatype MoRun = MoRun(id: MoId, cmds: seq<Cmd>, outcome: Outcome)

  datatype Event = Recv(id: MoId, msg: Msg) | MoTimer(id: MoId) | TrxTimer | BtsTimer

  // ----- the order that is promised -----

  function TrxObjects(t: nat): (r: seq<MoId>)
    ensures |r| == 11
  {
    [Trxc(t), Tx(t), Rx(t), Ts(t, 0), Ts(t, 1), Ts(t, 2), Ts(t, 3), Ts(t, 4), Ts(t, 5), Ts(t, 6), Ts(t, 7)]
  }

  /** Every managed object of a BTS with n transceivers, in bring-up order. */
  function Script(n: nat): (r: seq<MoId>)
    ensures |r| == 4 + 11 * n
  {
    if n == 0 then [Cf, Tf, Con, Is] else Script(n - 1) + TrxObjects(n - 1)
  }

  lemma {:induction false} ScriptAt(n: nat, t: nat)
    requires t < n
    ensures Script(n)[4 + 11 * t..15 + 11 * t] == TrxObjects(t)
    ensures Script(n)[..4] == [Cf, Tf, Con, Is]
  {
    if n > 1 {
      ScriptAt(n - 1, if t == n - 1 then 0 else t);
    }
    if t < n - 1 {
      KeptInFront(Script(n - 1), TrxObjects(n - 1), 4 + 11 * t, 15 + 11 * t);
    }
    KeptInFront(Script(n - 1), TrxObjects(n - 1), 0, 4);
  }

  lemma KeptInFront(a: seq<MoId>, b: seq<MoId>, lo: nat, hi: nat)
    requires lo <= hi <= |a|
    ensures (a + b)[lo..hi] == a[lo..hi]
  {
  }

  lemma ScriptTrx(n: nat, t: nat, k: nat)
    requires t < n && k < 11
    ensures Script(n)[4 + 11 * t + k] == TrxObjects(t)[k]
  {
    ScriptAt(n, t);
    assert Script(n)[4 + 11 * t..15 + 11 * t][k] == TrxObjects(t)[k];
  }

  lemma ScriptHead(n: nat)
    requires n >= 1
    ensures |Script(n)| >= 4 && Script(n)[0] == Cf && Script(n)[1] == Tf && Script(n)[2] == Con && Script(n)[3] == Is
  {
    ScriptAt(n, 0);
    assert Script(n)[..4][0] == Cf && Script(n)[..4][1] == Tf && Script(n)[..4][2] == Con && Script(n)[..4][3] == Is;
  }

  /** No managed object comes twice. */
  lemma {:induction false} ScriptOnce(n: nat, i: nat, j: nat)
    requires i < j < 4 + 11 * n
    ensures Script(n)[i] != Script(n)[j]
  {
    if n > 0 {
      if j < 4 + 11 * (n - 1) {
        ScriptOnce(n - 1, i, j);
      } else if i < 4 + 11 * (n - 1) {
        EarlierTrx(n - 1, i);
      }
    }
  }

  lemma {:induction false} EarlierTrx(n: nat, i: nat)
    requires i < 4 + 11 * n
    ensures match Script(n)[i] { case Trxc(t) => t < n case Tx(t) => t < n case Rx(t) => t < n
                                 case Ts(t, _) => t < n case _ => true }
  {
    if n > 0 && i < 4 + 11 * (n - 1) {
      EarlierTrx(n - 1, i);
    }
  }

  /** The commands of a complete bring-up of one managed object. */
  function Commands(id: MoId): (r: seq<Cmd>) {
    if id.Cf? then [Start, OpInfo]
    else if id.Trxc? then [Reset, Start, OpInfo]
    else [Connect, Reset, Start, Configure, Enable, OpInfo]
  }

  /** The states an object of this class passes through. */
  predicate OnPath(id: MoId, st: MoState) {
    if id.Cf? then st == WaitStartAccept || st == WaitStartRes || st == WaitOpinfoAccept
    else if id.Trxc? then st == WaitResCompl || st == WaitStartAccept || st == WaitStartRes || st == WaitOpinfoAccept
    else st != MoDone && st != MoError
  }

  /** How many of its commands an object has sent when it reaches st. */
  function SentAt(id: MoId, st: MoState): (r: nat)
    ensures r <= |Commands(id)|
  {
    if id.Cf? then (if st == WaitOpinfoAccept then 2 else 1)
    else if id.Trxc? then (if st == WaitResCompl then 1 else if st == WaitOpinfoAccept then 3 else 2)
    else match st
      case WaitConnCompl => 1
      case WaitResCompl => 2
      case WaitStartAccept => 3
      case WaitStartRes => 3
      case WaitCfgAccept => 4
      case WaitCfgRes => 4
      case WaitEnableAccept => 5
      case WaitEnableRes => 5
      case _ => 6
  }

  /** om2k_is_states[].out_state_mask */
  predicate MoOut(from: MoState, to: MoState) {
    if from == MoDone || from == MoError then false
    else if to == MoDone || to == MoError then true
    else match from
      case WaitConnCompl => to == WaitStartAccept || to == WaitResCompl
      case WaitResCompl => to == WaitStartAccept
      case WaitStartAccept => to == WaitStartRes
      case WaitStartRes => to == WaitCfgAccept || to == WaitOpinfoAccept
      case WaitCfgAccept => to == WaitCfgRes
      case WaitCfgRes => to == WaitEnableAccept
      case WaitEnableAccept => to == WaitEnableRes
      case WaitEnableRes => to == WaitOpinfoAccept
      case _ => false
  }

  function StateRank(st: MoState): (r: nat)
    ensures r <= 9
  {
    match st
    case WaitConnCompl => 9
    case WaitResCompl => 8
    case WaitStartAccept => 7
    case WaitStartRes => 6
    case WaitCfgAccept => 5
    case WaitCfgRes => 4
    case WaitEnableAccept => 3
    case WaitEnableRes => 2
    case WaitOpinfoAccept => 1
    case _ => 0
  }

  function TrxPos(st: TrxState, nextTs: nat): nat {
    match st
    case WaitTrxc => 1
    case WaitTx => 2
    case WaitRx => 3
    case _ => 3 + nextTs
  }

  /** The FSM may go from one waiting state to the other, sending these commands of its list. */
  predicate Sends(id: MoId, from: MoState, to: MoState, cmds: seq<Cmd>) {
    && OnPath(id, from) && OnPath(id, to) && MoOut(from, to) && StateRank(to) < StateRank(from)
    && Commands(id)[..SentAt(id, to)] == Commands(id)[..SentAt(id, from)] + cmds
  }

  datatype Reaction = Refused | Goes(to: MoState, cmds: seq<Cmd>) | Ends(ok: bool)

  /** The actions of the managed-object FSM: what a message does in a waiting state. A rejected
      Connect, Reset or Operational Info is taken like an accepted one. */
  function React(id: MoId, st: MoState, msg: Msg): Reaction {
    match st
    case WaitConnCompl =>
      if msg == ConnectCompl || msg == ConnectRej then Goes(WaitResCompl, [Reset]) else Refused
    case WaitResCompl =>
      if msg == ResetCompl || msg == ResetRej then Goes(WaitStartAccept, [Start]) else Refused
    case WaitStartAccept =>
      if msg == StartReqAck then Goes(WaitStartRes, [])
      else if msg == StartReqRej then Ends(false) else Refused
    case WaitStartRes =>
      if msg != StartResult then Refused
      else if id.Cf? || id.Trxc? then Goes(WaitOpinfoAccept, [OpInfo])
      else Goes(WaitCfgAccept, [Configure])
    case WaitCfgAccept =>
      if msg == ConfReqAck then Goes(WaitCfgRes, []) else Refused
    case WaitCfgRes =>
      if msg == ConfResult(0) then Goes(WaitEnableAccept, [Enable])
      else if msg.ConfResult? || msg == ConfResultEmpty then Ends(false) else Refused
    case WaitEnableAccept =>
      if msg == EnableReqAck then Goes(WaitEnableRes, [])
      else if msg == EnableReqRej then Ends(false) else Refused
    case WaitEnableRes =>
      if msg == EnableResult then Goes(WaitOpinfoAccept, [OpInfo]) else Refused
    case WaitOpinfoAccept =>
      if msg == OpInfoAck || msg == OpInfoRej then Ends(true) else Refused
    case _ => Refused
  }

  /** Every transition the actions ask for is in the mask and in the order of the commands. */
  lemma ReactSends(id: MoId, st: MoState, msg: Msg)
    requires OnPath(id, st) && React(id, st, msg).Goes?
    ensures Sends(id, st, React(id, st, msg).to, React(id, st, msg).cmds)
  {
    if StateRank(st) >= 6 {
      SendsEarly(id, st);
    } else {
      SendsLate(id, st);
    }
  }

  /** The answer a BTS gives that lets the bring-up go on. */
  function Answer(st: MoState): Msg {
    match st
    case WaitConnCompl => ConnectCompl
    case WaitResCompl => ResetCompl
    case WaitStartAccept => StartReqAck
    case WaitStartRes => StartResult
    case WaitCfgAccept => ConfReqAck
    case WaitCfgRes => ConfResult(0)
    case WaitEnableAccept => EnableReqAck
    case WaitEnableRes => EnableResult
    case _ => OpInfoAck
  }

  lemma SendsEarly(id: MoId, from: MoState)
    requires OnPath(id, from)
    ensures match from
      case WaitConnCompl => Sends(id, from, WaitResCompl, [Reset])
      case WaitResCompl => Sends(id, from, WaitStartAccept, [Start])
      case WaitStartAccept => Sends(id, from, WaitStartRes, [])
      case WaitStartRes => if id.Cf? || id.Trxc? then Sends(id, from, WaitOpinfoAccept, [OpInfo])
                           else Sends(id, from, WaitCfgAccept, [Configure])
      case _ => true
  {
  }

  lemma SendsLate(id: MoId, from: MoState)
    requires OnPath(id, from)
    ensures match from
      case WaitCfgAccept => Sends(id, from, WaitCfgRes, [])
      case WaitCfgRes => Sends(id, from, WaitEnableAccept, [Enable])
      case WaitEnableAccept => Sends(id, from, WaitEnableRes, [])
      case WaitEnableRes => Sends(id, from, WaitOpinfoAccept, [OpInfo])
      case _ => true
  {
  }

  lemma FirstCommand(id: MoId, st: MoState, cmd: Cmd)
    requires (st, cmd) == if id.Cf? then (WaitStartAccept, Start)
                          else if id.Trxc? then (WaitResCompl, Reset) else (WaitConnCompl, Connect)
    ensures OnPath(id, st) && [cmd] == Commands(id)[..SentAt(id, st)] && RunOk(MoRun(id, [cmd], Live))
  {
  }

  predicate RunOk(r: MoRun) {
    r.cmds <= Commands(r.id) && (r.outcome == Regular ==> r.cmds == Commands(r.id))
  }

  predicate Follows(runs: seq<MoRun>, script: seq<MoId>) {
    && |runs| <= |script|
    && (forall i :: 0 <= i < |runs| ==> runs[i].id == script[i] && RunOk(runs[i]))
  }

  predicate EarlierEnded(runs: seq<MoRun>) {
    forall i :: 0 <= i < |runs| - 1 ==> runs[i].outcome != Live
  }

  lemma NextRun(runs: seq<MoRun>, script: seq<MoId>, r: MoRun)
    requires Follows(runs, script) && EarlierEnded(runs) && (runs != [] ==> runs[|runs| - 1].outcome != Live)
    requires |runs| < |script| && r.id == script[|runs|] && RunOk(r)
    ensures Follows(runs + [r], script) && EarlierEnded(runs + [r])
  {
  }

  lemma LastRun(runs: seq<MoRun>, script: seq<MoId>, r: MoRun)
    requires runs != [] && Follows(runs, script) && EarlierEnded(runs)
    requires r.id == runs[|runs| - 1].id && RunOk(r)
    ensures Follows(runs[|runs| - 1 := r], script) && EarlierEnded(runs[|runs| - 1 := r])
  {
  }

  function WaitedFor(nr: nat, st: TrxState, nextTs: nat): MoId {
    match st
    case WaitTrxc => Trxc(nr)
    case WaitTx => Tx(nr)
    case WaitRx => Rx(nr)
    case _ => Ts(nr, if nextTs == 0 then 0 else nextTs - 1)
  }

  lemma WaitedForAt(nr: nat, st: TrxState, nextTs: nat)
    requires st != TrxError && (st == WaitTs ==> 1 <= nextTs <= NUM_TS)
    ensures 1 <= TrxPos(st, nextTs) <= 11
    ensures TrxObjects(nr)[TrxPos(st, nextTs) - 1] == WaitedFor(nr, st, nextTs)
  {
  }

  predicate NoneFailed(runs: seq<MoRun>) {
    forall i :: 0 <= i < |runs| ==> runs[i].outcome != Failed
  }

  lemma AnswerAccepted(id: MoId, st: MoState)
    requires OnPath(id, st)
    ensures React(id, st, Answer(st)).Goes? || React(id, st, Answer(st)) == Ends(true)
  {
  }

  lemma NoneFailedNext(was: seq<MoRun>, runs: seq<MoRun>, r: Reaction)
    requires |was| > 0 && NoneFailed(was)
    requires runs != [] ==> runs[|runs| - 1].outcome == Live || (r == Ends(true) && |runs| == |was|)
    requires r.Goes? ==> |runs| == |was| && runs[..|was| - 1] == was[..|was| - 1]
    requires !r.Goes? ==> r == Ends(true) && Closed(was, true) <= runs && |runs| <= |was| + 1
    ensures NoneFailed(runs)
  {
    forall i | 0 <= i < |runs| ensures runs[i].outcome != Failed {
      if r.Goes? && i < |was| - 1 {
        assert runs[..|was| - 1][i] == was[..|was| - 1][i];
      } else if !r.Goes? && i < |was| {
        assert runs[i] == Closed(was, true)[i];
      }
    }
  }

  /** The FSM of this timer exists and waits. */
  predicate TimerRuns(ev: Event, fsm: map<MoId, MoState>, trx: TrxFsm, bts: BtsState) {
    match ev
    case MoTimer(id) => id in fsm
    case TrxTimer => trx.TrxFsm? && trx.st != TrxError
    case BtsTimer => bts != BtsInit && bts != BtsDone && bts != BtsError
    case Recv(_, _) => false
  }

  /** The runs with the last one ended. */
  function Closed(runs: seq<MoRun>, ok: bool): (r: seq<MoRun>)
    requires |runs| > 0
    ensures |r| == |runs|
  {
    runs[|runs| - 1 := runs[|runs| - 1].(outcome := if ok then Regular else Failed)]
  }

  class Bringup {
    const numTrx: nat
    var bts: BtsState
    var nextTrx: nat
    var trx: TrxFsm
    var fsm: map<MoId, MoState>      // every managed object's mo->fsm
    ghost var runs: seq<MoRun>

    // ----- invariants -----

    /** What has been started is what the script says, each object sent its own commands in order. */
    ghost predicate RunsOk()
      reads this`runs
    {
      Follows(runs, Script(numTrx)) && EarlierEnded(runs)
    }

    ghost predicate Idle()
      reads this`runs, this`fsm
    {
      RunsOk() && fsm == map[] && (runs != [] ==> runs[|runs| - 1].outcome != Live)
    }

    /** Exactly one FSM is live: the last one started. */
    ghost predicate Busy()
      reads this`runs, this`fsm
    {
      RunsOk() && runs != [] &&
      var last := runs[|runs| - 1];
      && last.outcome == Live
      && fsm.Keys == {last.id}
      && OnPath(last.id, fsm[last.id])
      && last.cmds == Commands(last.id)[..SentAt(last.id, fsm[last.id])]
    }

    /** A TRX FSM that is not in ERROR waits for the object started last. */
    ghost predicate TrxAt()
      reads this`trx, this`runs, this`bts
    {
      trx.TrxFsm? ==>
        && trx.nr < numTrx
        && (bts == WaitTrx || bts == BtsError)
        && (trx.st != TrxError ==> |runs| == 4 + 11 * trx.nr + TrxPos(trx.st, trx.nextTs))
        && (trx.st == WaitTs ==> 1 <= trx.nextTs <= NUM_TS)
    }

    ghost predicate BtsAt()
      reads this`trx, this`runs, this`bts, this`nextTrx
    {
      match bts
      case BtsInit => |runs| == 0 && trx == NoTrx
      case WaitCf => |runs| == 1 && trx == NoTrx
      case WaitTf => |runs| == 2 && trx == NoTrx
      case WaitCon => |runs| == 3 && trx == NoTrx
      case WaitIs => |runs| == 4 && trx == NoTrx
      case WaitTrx => trx.TrxFsm? && nextTrx == trx.nr + 1
      case BtsDone => |runs| == 4 + 11 * numTrx && trx == NoTrx
      case BtsError => true
    }

    predicate Waiting()
      reads this`trx, this`bts
    {
      (bts != BtsInit && bts != WaitTrx && bts != BtsDone && bts != BtsError)
      || (trx.TrxFsm? && trx.st != TrxError)
    }

    ghost predicate Inv()
      reads this
    {
      && numTrx >= 1
      && TrxAt() && BtsAt()
      && if Waiting() then Busy() else if bts == BtsDone then Idle() else (Idle() || Busy())
    }

    /** Bounds the number of transitions still to come. */
    ghost function Rank(): nat
      reads this`runs, this`fsm, this`bts, this`trx
      requires RunsOk()
    {
      16 * (4 + 11 * numTrx - |runs|)
      + (if runs != [] && runs[|runs| - 1].id in fsm then StateRank(fsm[runs[|runs| - 1].id]) else 0)
      + (if bts == BtsError || bts == BtsDone then 0 else 1)
      + (if trx.TrxFsm? && trx.st != TrxError then 1 else 0)
    }

    constructor (numTrx: nat)
      requires numTrx >= 1
      ensures Inv() && bts == BtsInit && runs == [] && this.numTrx == numTrx
    {
      this.numTrx := numTrx;
      bts, nextTrx, trx, fsm := BtsInit, 0, NoTrx, map[];
      runs := [];
    }

    // ----- starting managed objects -----

    /** om2k_mo_fsm_start with om2k_mo_st_init: the object must be the next one of the script */
    method MoStart(id: MoId)
      requires Idle() && |runs| < 4 + 11 * numTrx && Script(numTrx)[|runs|] == id
      modifies this`fsm, this`runs
      ensures Busy() && |runs| == |old(runs)| + 1 && old(runs) <= runs
    {
      var st;
      ghost var cmd;
      match id {
        case Cf => st, cmd := WaitStartAccept, Start;
        case Trxc(_) => st, cmd := WaitResCompl, Reset;
        case _ => st, cmd := WaitConnCompl, Connect;
      }
      FirstCommand(id, st, cmd);
      fsm := fsm[id := st];
      ghost var run := MoRun(id, [cmd], Live);
      NextRun(runs, Script(numTrx), run);
      runs := runs + [run];
    }

    /** om2k_trx_fsm_start with om2k_trx_s_init */
    method TrxStart(nr: nat)
      requires Idle() && nr < numTrx && |runs| == 4 + 11 * nr && bts == WaitTrx
      modifies this`fsm, this`runs, this`trx
      ensures Busy() && TrxAt() && trx == TrxFsm(nr, WaitTrxc, 0) && |runs| == |old(runs)| + 1 && old(runs) <= runs
    {
      ScriptTrx(numTrx, nr, 0);
      trx := TrxFsm(nr, WaitTrxc, 0);
      MoStart(Trxc(nr));
    }

    predicate Healthy()
      reads this`bts, this`trx
    {
      bts != BtsError && (trx.TrxFsm? ==> trx.st != TrxError)
    }

    /** An event that ends a wait left everything in order and started at most one object, and only an
        ERROR state stops what comes next. */
    ghost predicate Passed(was: seq<MoRun>, btsWas: BtsState, healthy: bool)
      reads this
    {
      && Inv()
      && was <= runs && ((|runs| == |was| + 1 && Busy()) || (|runs| == |was| && fsm == map[]))
      && (btsWas == BtsError ==> bts == BtsError)
      && (healthy ==> Healthy())
    }

    /** Whose end it is says what is waiting for it. */
    lemma WhoWaits()
      requires RunsOk() && runs != [] && TrxAt() && BtsAt() && numTrx >= 1
      ensures var id := runs[|runs| - 1].id;
        && (bts == WaitCf ==> id == Cf) && (bts == WaitTf ==> id == Tf)
        && (bts == WaitCon ==> id == Con) && (bts == WaitIs ==> id == Is)
        && (trx.TrxFsm? && trx.st != TrxError ==> id == WaitedFor(trx.nr, trx.st, trx.nextTs))
    {
      ScriptHead(numTrx);
      if trx.TrxFsm? && trx.st != TrxError {
        ScriptTrx(numTrx, trx.nr, TrxPos(trx.st, trx.nextTs) - 1);
        WaitedForAt(trx.nr, trx.st, trx.nextTs);
      }
    }

    /** A step of the BTS FSM: the next state, and the object that is started in it. */
    method BtsNext(next: BtsState, id: MoId)
      requires Idle() && numTrx >= 1 && trx == NoTrx && 1 <= |runs| <= 3
      requires (next, id) == [(WaitTf, Tf), (WaitCon, Con), (WaitIs, Is)][|runs| - 1]
      modifies this`bts, this`fsm, this`runs
      ensures bts == next
      ensures Inv() && Busy() && Healthy() == (bts != BtsError) && |runs| == |old(runs)| + 1 && old(runs) <= runs
    {
      ScriptAt(numTrx, 0);
      assert Script(numTrx)[..4][|runs|] == id;
      bts := next;
      MoStart(id);
    }

    /** The actions of the BTS FSM up to the first TRX; events in other states are refused */
    method BtsEvent(id: MoId)
      requires Idle() && TrxAt() && BtsAt() && numTrx >= 1
      requires runs != [] && runs[|runs| - 1].id == id && (id == Cf || id == Tf || id == Con || id == Is)
      modifies this`bts, this`nextTrx, this`trx, this`fsm, this`runs
      ensures Passed(old(runs), old(bts), old(Healthy()))
    {
      WhoWaits();
      if bts == WaitCf && id == Cf {
        BtsNext(WaitTf, Tf);
      } else if bts == WaitTf && id == Tf {
        BtsNext(WaitCon, Con);
      } else if bts == WaitCon && id == Con {
        BtsNext(WaitIs, Is);
      } else if bts == WaitIs && id == Is {
        bts := WaitTrx;
        nextTrx := 1;
        TrxStart(0);
      }
    }

    /** om2k_bts_s_wait_trx, when a TRX FSM has ended; refused in ERROR */
    method BtsTrxDone()
      requires Idle() && trx == NoTrx && numTrx >= 1 && (bts == WaitTrx || bts == BtsError)
      requires bts == WaitTrx ==> 1 <= nextTrx <= numTrx && |runs| == 4 + 11 * nextTrx
      modifies this`bts, this`nextTrx, this`trx, this`fsm, this`runs
      ensures Passed(old(runs), old(bts), old(Healthy()))
    {
      if bts == WaitTrx {
        if nextTrx < numTrx {
          nextTrx := nextTrx + 1;
          TrxStart(nextTrx - 1);
        } else {
          bts := BtsDone;
        }
      }
    }

    /** A step of the TRX FSM: the next state, and the object that is started in it. */
    method TrxNext(next: TrxFsm, id: MoId)
      requires Idle() && BtsAt() && trx.TrxFsm? && (bts == WaitTrx || bts == BtsError) && numTrx >= 1
      requires next.TrxFsm? && next.nr == trx.nr < numTrx && next.st != TrxError
      requires next.st == WaitTs ==> 1 <= next.nextTs <= NUM_TS
      requires var k := TrxPos(next.st, next.nextTs);
               |runs| == 3 + 11 * next.nr + k && id == WaitedFor(next.nr, next.st, next.nextTs)
      modifies this`trx, this`fsm, this`runs
      ensures Inv() && Busy() && Healthy() == (bts != BtsError) && |runs| == |old(runs)| + 1 && old(runs) <= runs
    {
      WaitedForAt(next.nr, next.st, next.nextTs);
      ScriptTrx(numTrx, next.nr, TrxPos(next.st, next.nextTs) - 1);
      trx := next;
      MoStart(id);
    }

    /** om2k_trx_s_done_onenter: the TRX FSM ends and its parent is told */
    method TrxEnds()
      requires Idle() && TrxAt() && BtsAt() && numTrx >= 1 && trx.TrxFsm? && trx.st == WaitTs && trx.nextTs == NUM_TS
      modifies this`bts, this`nextTrx, this`trx, this`fsm, this`runs
      ensures Passed(old(runs), old(bts), old(Healthy()))
    {
      trx := NoTrx;
      BtsTrxDone();
    }

    /** om2k_trx_s_wait_ts */
    method TsDone()
      requires Idle() && TrxAt() && BtsAt() && numTrx >= 1 && trx.TrxFsm? && trx.st == WaitTs
      modifies this`bts, this`nextTrx, this`trx, this`fsm, this`runs
      ensures Passed(old(runs), old(bts), old(Healthy()))
    {
      if trx.nextTs < NUM_TS {
        TrxNext(trx.(nextTs := trx.nextTs + 1), Ts(trx.nr, trx.nextTs));
      } else {
        TrxEnds();
      }
    }

    /** The actions of the TRX FSM; events in other states are refused */
    method TrxEvent(id: MoId)
      requires Idle() && TrxAt() && BtsAt() && numTrx >= 1
      requires runs != [] && runs[|runs| - 1].id == id && id != Cf && id != Tf && id != Con && id != Is
      modifies this`bts, this`nextTrx, this`trx, this`fsm, this`runs
      ensures Passed(old(runs), old(bts), old(Healthy()))
    {
      WhoWaits();
      if trx == NoTrx {
        return;
      }
      var nr := trx.nr;
      if trx.st == WaitTrxc && id.Trxc? {
        TrxNext(trx.(st := WaitTx), Tx(nr));
      } else if trx.st == WaitTx && id.Tx? {
        TrxNext(trx.(st := WaitRx), Rx(nr));
      } else if trx.st == WaitRx && id.Rx? {
        TrxNext(TrxFsm(nr, WaitTs, 1), Ts(nr, 0));
      } else if trx.st == WaitTs && id.Ts? {
        TsDone();
      }
    }

    // ----- the managed-object FSM -----

    /** mo->fsm is gone; the run is closed */
    method MoClose(id: MoId, ok: bool)
      requires Busy() && id in fsm && (ok ==> fsm[id] == WaitOpinfoAccept)
      modifies this`fsm, this`runs
      ensures Idle() && runs == Closed(old(runs), ok) && runs[|runs| - 1].id == id
    {
      ghost var ended := runs[|runs| - 1].(outcome := if ok then Regular else Failed);
      LastRun(runs, Script(numTrx), ended);
      runs := runs[|runs| - 1 := ended];
      fsm := fsm - {id};
    }

    /** om2k_mo_s_done_onenter, om2k_mo_s_error_onenter: either way the parent is told and goes on */
    method MoTerm(id: MoId, ok: bool)
      requires Inv() && id in fsm && (ok ==> fsm[id] == WaitOpinfoAccept)
      modifies this`bts, this`nextTrx, this`trx, this`fsm, this`runs
      ensures |old(runs)| > 0 && Passed(Closed(old(runs), ok), old(bts), old(Healthy()))
    {
      MoClose(id, ok);
      if id == Cf || id == Tf || id == Con || id == Is {
        BtsEvent(id);
      } else {
        TrxEvent(id);
      }
    }

    /** A transition between waiting states, and the commands sent with it. It is never refused. */
    method MoNext(id: MoId, to: MoState, ghost cmds: seq<Cmd>)
      requires Busy() && id in fsm && Sends(id, fsm[id], to, cmds)
      modifies this`fsm, this`runs
      ensures Busy() && fsm == map[id := to] && runs[|runs| - 1].id == id
      ensures |runs| == |old(runs)| > 0 && runs[..|runs| - 1] == old(runs)[..|runs| - 1]
    {
      ghost var last := runs[|runs| - 1];
      LastRun(runs, Script(numTrx), last.(cmds := last.cmds + cmds));
      runs := runs[|runs| - 1 := last.(cmds := last.cmds + cmds)];
      fsm := fsm[id := to];
    }

    /** What one step did: nothing at all, or a step down in rank. */
    ghost predicate Descended(accepted: bool, rankWas: nat)
      reads this
    {
      Inv() && bts != BtsInit && if accepted then Rank() < rankWas else Rank() == rankWas
    }

    /** The end of an object leads down, whatever it starts. */
    method MoEnd(id: MoId, ok: bool)
      requires Inv() && id in fsm && (ok ==> fsm[id] == WaitOpinfoAccept)
      modifies this`bts, this`nextTrx, this`trx, this`fsm, this`runs
      ensures Descended(true, old(Rank()))
      ensures |old(runs)| > 0 && Passed(Closed(old(runs), ok), old(bts), old(Healthy()))
    {
      ghost var n, b, r := |runs|, bts, Rank();
      assert r >= 16 * (4 + 11 * numTrx - n) + 1 + if b == BtsError then 0 else 1;
      MoTerm(id, ok);
    }

    /** A step from one waiting state to the next leads down. */
    method MoStep(id: MoId, to: MoState, ghost cmds: seq<Cmd>)
      requires Inv() && id in fsm && Sends(id, fsm[id], to, cmds)
      modifies this`fsm, this`runs
      ensures Descended(true, old(Rank())) && fsm == map[id := to]
      ensures |runs| == |old(runs)| > 0 && runs[..|runs| - 1] == old(runs)[..|runs| - 1]
    {
      ghost var was := Rank();
      assert runs[|runs| - 1].id == id;
      MoNext(id, to, cmds);
      assert Rank() == was - StateRank(old(fsm)[id]) + StateRank(to);
    }

    /** What an accepted message did: a step of this FSM alone, or its end and what that starts. */
    ghost predicate Reacted(r: Reaction, id: MoId, was: seq<MoRun>, btsWas: BtsState, trxWas: TrxFsm, healthy: bool)
      reads this
    {
      |was| > 0 &&
      match r
      case Refused => false
      case Goes(to, _) =>
        && fsm == map[id := to] && bts == btsWas && trx == trxWas
        && |runs| == |was| && runs[..|was| - 1] == was[..|was| - 1]
      case Ends(ok) => Passed(Closed(was, ok), btsWas, healthy)
    }

    method Apply(id: MoId, r: Reaction)
      requires Inv() && id in fsm && r != Refused
      requires r.Goes? ==> Sends(id, fsm[id], r.to, r.cmds)
      requires r == Ends(true) ==> fsm[id] == WaitOpinfoAccept
      modifies this`bts, this`nextTrx, this`trx, this`fsm, this`runs
      ensures Descended(true, old(Rank()))
      ensures Reacted(r, id, old(runs), old(bts), old(trx), old(Healthy()))
    {
      match r {
        case Goes(to, cmds) => MoStep(id, to, cmds);
        case Ends(ok) => MoEnd(id, ok);
      }
    }

    /** om2k_mo_fsm_recvmsg: the message acts on this object's FSM, if there is one, and on no other */
    method Recv(id: MoId, msg: Msg) returns (accepted: bool)
      requires Inv() && bts != BtsInit
      modifies this`bts, this`nextTrx, this`trx, this`fsm, this`runs
      ensures Descended(accepted, old(Rank()))
      ensures accepted <==> id in old(fsm) && React(id, old(fsm)[id], msg) != Refused
      ensures !accepted ==> fsm == old(fsm) && runs == old(runs) && bts == old(bts) && trx == old(trx)
      ensures accepted ==>
        Reacted(React(id, old(fsm)[id], msg), id, old(runs), old(bts), old(trx), old(Healthy()))
    {
      if id !in fsm {
        return false;
      }
      var r := React(id, fsm[id], msg);
      if r == Refused {
        return false;
      }
      if r.Goes? {
        ReactSends(id, fsm[id], msg);
      }
      Apply(id, r);
      return true;
    }

    // ----- whole runs -----

    /** OM2K_BTS_EVT_START with om2k_bts_s_init */
    method BtsStart()
      requires Inv() && bts == BtsInit
      modifies this`bts, this`fsm, this`runs
      ensures Inv() && Busy() && bts == WaitCf && |runs| == 1
    {
      ScriptAt(numTrx, 0);
      assert Script(numTrx)[..4][0] == Cf;
      bts := WaitCf;
      MoStart(Cf);
    }

    /** om2k_mo_timer_cb: the object fails and its parent goes on */
    method MoTimeout(id: MoId) returns (accepted: bool)
      requires Inv() && bts != BtsInit
      modifies this`bts, this`nextTrx, this`trx, this`fsm, this`runs
      ensures Descended(accepted, old(Rank())) && (accepted <==> id in old(fsm))
      ensures accepted ==> |old(runs)| > 0 && Passed(Closed(old(runs), false), old(bts), old(Healthy()))
      ensures !accepted ==> fsm == old(fsm) && runs == old(runs) && bts == old(bts) && trx == old(trx)
    {
      accepted := id in fsm;
      if accepted {
        MoEnd(id, false);
      }
    }

    /** om2k_trx_timer_cb */
    method TrxTimeout() returns (accepted: bool)
      requires Inv() && bts != BtsInit
      modifies this`trx
      ensures Descended(accepted, old(Rank())) && (accepted <==> old(trx).TrxFsm? && old(trx).st != TrxError)
      ensures if accepted then !Healthy() else trx == old(trx)
    {
      accepted := trx.TrxFsm? && trx.st != TrxError;
      if accepted {
        trx := trx.(st := TrxError);
      }
    }

    /** om2k_bts_timer_cb */
    method BtsTimeout() returns (accepted: bool)
      requires Inv() && bts != BtsInit
      modifies this`bts
      ensures Descended(accepted, old(Rank())) && (accepted <==> old(bts) != BtsDone && old(bts) != BtsError)
      ensures if accepted then !Healthy() else bts == old(bts)
    {
      accepted := bts != BtsDone && bts != BtsError;
      if accepted {
        bts := BtsError;
      }
    }

    /** The timers; each leads to an ERROR state. ERROR of the BTS or a TRX ends nothing below it. */
    method Timer(ev: Event) returns (accepted: bool)
      requires Inv() && !ev.Recv? && bts != BtsInit
      modifies this`bts, this`nextTrx, this`trx, this`fsm, this`runs
      ensures Descended(accepted, old(Rank()))
      ensures accepted <==> TimerRuns(ev, old(fsm), old(trx), old(bts))
      ensures accepted && ev.MoTimer? ==> |old(runs)| > 0 && Passed(Closed(old(runs), false), old(bts), old(Healthy()))
      ensures accepted && !ev.MoTimer? ==> fsm == old(fsm) && runs == old(runs) && !Healthy()
      ensures !accepted ==> fsm == old(fsm) && runs == old(runs) && bts == old(bts) && trx == old(trx)
    {
      accepted := false;
      match ev {
        case MoTimer(id) => accepted := MoTimeout(id);
        case TrxTimer => accepted := TrxTimeout();
        case BtsTimer => accepted := BtsTimeout();
      }
    }

    /** One message or timer: om2k_mo_fsm_recvmsg and the timer callbacks */
    method Step(ev: Event) returns (accepted: bool)
      requires Inv() && bts != BtsInit
      modifies this`bts, this`nextTrx, this`trx, this`fsm, this`runs
      ensures Descended(accepted, old(Rank()))
      ensures !accepted ==> fsm == old(fsm) && runs == old(runs) && bts == old(bts) && trx == old(trx)
    {
      if !ev.Recv? {
        accepted := Timer(ev);
      } else {
        accepted := Recv(ev.id, ev.msg);
      }
    }

    /** What the invariant says about the objects, without naming the three FSMs' states. */
    lemma InOrder()
      requires Inv() && bts != BtsInit
      ensures Follows(runs, Script(numTrx)) && EarlierEnded(runs)
      ensures |fsm| <= 1 && forall id :: id in fsm ==> runs != [] && id == runs[|runs| - 1].id
      ensures fsm == map[] ==> runs == [] || runs[|runs| - 1].outcome != Live
      ensures fsm == map[] ==> bts == BtsDone || bts == BtsError || (trx.TrxFsm? && trx.st == TrxError)
      ensures bts == BtsDone ==> |runs| == |Script(numTrx)| && forall i :: 0 <= i < |runs| ==> runs[i].outcome != Live
    {
      if Busy() {
        assert |fsm| == |fsm.Keys|;
      }
    }

    /** A whole bring-up. Objects start in script order, each after the one before it ended; at most
        one is live; only finitely many events are accepted; it stalls only in an ERROR state; and DONE
        means every object was started and ended. */
    method Run(events: seq<Event>) returns (steps: nat)
      requires Inv() && bts == BtsInit
      modifies this`bts, this`nextTrx, this`trx, this`fsm, this`runs
      ensures Follows(runs, Script(numTrx)) && EarlierEnded(runs)
      ensures |fsm| <= 1 && forall id :: id in fsm ==> runs != [] && id == runs[|runs| - 1].id
      ensures fsm == map[] ==> runs == [] || runs[|runs| - 1].outcome != Live
      ensures fsm == map[] ==> bts == BtsDone || bts == BtsError || (trx.TrxFsm? && trx.st == TrxError)
      ensures bts == BtsDone ==> |runs| == |Script(numTrx)| && forall i :: 0 <= i < |runs| ==> runs[i].outcome != Live
      ensures steps <= 16 * |Script(numTrx)|
    {
      BtsStart();
      steps := 0;
      ghost var first := Rank();
      assert first <= 16 * |Script(numTrx)|;
      for i := 0 to |events|
        invariant Inv() && bts != BtsInit && steps + Rank() <= first
      {
        var accepted := Step(events[i]);
        if accepted {
          steps := steps + 1;
        }
      }
      InOrder();
    }

    /** A BTS that answers well is brought up: DONE is reached, and every object of the script has been
        sent all its commands and has ended regularly. */
    method Cooperate()
      requires Inv() && bts == BtsInit
      modifies this`bts, this`nextTrx, this`trx, this`fsm, this`runs
      ensures bts == BtsDone && |runs| == |Script(numTrx)|
      ensures forall i :: 0 <= i < |runs| ==> runs[i] == MoRun(Script(numTrx)[i], Commands(Script(numTrx)[i]), Regular)
    {
      BtsStart();
      while fsm != map[]
        invariant Inv() && bts != BtsInit && Healthy() && NoneFailed(runs)
        decreases Rank()
      {
        AnswerNext();
      }
      InOrder();
      assert forall i :: 0 <= i < |runs| ==> RunOk(runs[i]);
    }

    method AnswerNext()
      requires Inv() && bts != BtsInit && Healthy() && NoneFailed(runs) && fsm != map[]
      modifies this`bts, this`nextTrx, this`trx, this`fsm, this`runs
      ensures Descended(true, old(Rank())) && Healthy() && NoneFailed(runs)
    {
      var id :| id in fsm;
      AnswerAccepted(id, fsm[id]);
      ghost var was, r, b, t := runs, React(id, fsm[id], Answer(fsm[id])), bts, trx;
      var _ := Recv(id, Answer(fsm[id]));
      StillNoneFailed(r, id, was, b, t);
    }

    lemma StillNoneFailed(r: Reaction, id: MoId, was: seq<MoRun>, btsWas: BtsState, trxWas: TrxFsm)
      requires Inv() && NoneFailed(was) && Reacted(r, id, was, btsWas, trxWas, true)
      requires r.Goes? || r == Ends(true)
      ensures NoneFailed(runs)
    {
      if r.Goes? {
        assert id in fsm && Busy();
      }
      NoneFailedNext(was, runs, r);
    }
  }
}
