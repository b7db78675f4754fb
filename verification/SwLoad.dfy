/** Windowed software download to a nanoBTS (sw_load_segment, sw_fill_window, abis_nm_rcvmsg_sw
    and abis_nm_software_load in src/osmo-bsc/abis_nm.c; sections 6.2 and 8.3 of 3GPP TS 12.21). */
module SwLoad {

  const SEGMENT_SIZE := 245

  datatype State = None | WaitInitAck | WaitSegAck | WaitEndAck | Error

  datatype Received = InitAck | InitNack | SegAck | Abort | EndAck | EndNack | OtherMsg

  /** What goes over the link during one load: messages to the BTS and its segment acks. */
  datatype Item = TxInit | TxSeg(data: seq<int>) | TxEnd | RxSegAck

  // ----- reading a trace -----

  /** The file as the BTS has received it. */
  function Data(trace: seq<Item>): (d: seq<int>) {
    if trace == [] then []
    else
      var last := trace[|trace| - 1];
      Data(trace[..|trace| - 1]) + if last.TxSeg? then last.data else []
  }

  /** Segments sent since the last ack. */
  function Unacked(trace: seq<Item>): (n: nat) {
    if trace == [] then 0
    else
      var last := trace[|trace| - 1];
      if last.RxSegAck? then 0
      else Unacked(trace[..|trace| - 1]) + if last.TxSeg? then 1 else 0
  }

  /** At every moment of the trace at most `window` segments are unacknowledged. */
  predicate Windowed(trace: seq<Item>, window: nat) {
    trace == [] || (Unacked(trace) <= window && Windowed(trace[..|trace| - 1], window))
  }

  predicate HasEnd(trace: seq<Item>) {
    trace != [] && (trace[|trace| - 1].TxEnd? || HasEnd(trace[..|trace| - 1]))
  }

  /** The load end comes right after a segment ack, and nothing follows it. */
  predicate EndsAfterAck(trace: seq<Item>) {
    trace == [] || (
      var n := |trace| - 1;
      && EndsAfterAck(trace[..n]) && !HasEnd(trace[..n])
      && (trace[n].TxEnd? ==> n > 0 && trace[n - 1].RxSegAck?))
  }

  lemma TraceStep(trace: seq<Item>, item: Item, w: nat)
    ensures Data(trace + [item]) == Data(trace) + if item.TxSeg? then item.data else []
    ensures Unacked(trace + [item])
            == if item.RxSegAck? then 0 else Unacked(trace) + if item.TxSeg? then 1 else 0
    ensures Windowed(trace + [item], w) <==> Windowed(trace, w) && Unacked(trace + [item]) <= w
    ensures HasEnd(trace + [item]) <==> item.TxEnd? || HasEnd(trace)
    ensures EndsAfterAck(trace + [item]) <==>
            EndsAfterAck(trace) && !HasEnd(trace) && (item.TxEnd? ==> trace != [] && trace[|trace| - 1].RxSegAck?)
  {
    assert (trace + [item])[..|trace|] == trace;
  }

  lemma NothingOut(out: seq<Item>, w: nat)
    requires out == [] || out == [TxInit]
    ensures Data(out) == [] && Unacked(out) == 0 && Windowed(out, w) && !HasEnd(out) && EndsAfterAck(out)
  {
    if out == [TxInit] {
      TraceStep([], TxInit, w);
      assert [] + [TxInit] == out;
    }
  }

  /** How far the file has been sent when the load end goes out, from a record whose last-segment
      flag is stale or not. */
  function SentAtEnd(file: seq<int>, stale: bool, window: nat): (n: nat)
    ensures n <= |file|
  {
    if !stale then |file|
    else if window == 0 then 0
    else if |file| < SEGMENT_SIZE then |file| else SEGMENT_SIZE
  }

  /** Where a message leads. */
  function NextState(state: State, msg: Received, forced: bool, lastSeg: bool): State {
    match (state, msg)
    case (WaitInitAck, InitAck) => WaitSegAck
    case (WaitInitAck, InitNack) => if forced then WaitSegAck else Error
    case (WaitSegAck, SegAck) => if lastSeg then WaitEndAck else WaitSegAck
    case (WaitEndAck, EndAck) => None
    case (WaitEndAck, EndNack) => if forced then None else Error
    case _ => state
  }

  class Loader {
    var state: State
    var windowSize: nat
    var segInWindow: nat
    var lastSeg: bool
    var forced: bool
    var file: seq<int>
    var pos: nat                 // read position of fd
    ghost var stale: bool        // last-segment flag when the current load began
    ghost var readFailed: bool   // some read of the current load failed
    ghost var trace: seq<Item>   // current load

    ghost predicate Sending()
      reads this
    {
      && pos <= |file| && Data(trace) == file[..pos] && Windowed(trace, windowSize) && EndsAfterAck(trace)
      && (stale ==> lastSeg)
    }

    /** How much of the file is out once no further segment will follow. */
    ghost predicate AllOut()
      reads this
    {
      && (!stale ==> pos == |file|)
      && (stale ==> pos <= SEGMENT_SIZE)
      && (stale && !readFailed ==> pos == SentAtEnd(file, true, windowSize))
    }

    /** Holds before every event of every run. */
    ghost predicate Valid()
      reads this
    {
      && Sending()
      && (state == None ==> segInWindow == 0)
      && (state == WaitInitAck ==> trace == [TxInit] && pos == 0 && segInWindow == 0 && lastSeg == stale)
      && (state == WaitSegAck ==> segInWindow == Unacked(trace) && !HasEnd(trace) && (lastSeg ==> AllOut()))
      && (state == WaitEndAck ==> HasEnd(trace))
      && (HasEnd(trace) ==> lastSeg && AllOut() && segInWindow == 0)
    }

    constructor ()
      ensures Valid() && state == None && !lastSeg
    {
      state, windowSize, segInWindow, lastSeg, forced, file, pos := None, 0, 0, false, false, [], 0;
      stale, readFailed, trace := false, false, [];
    }

    /** abis_nm_software_load; typeOk says whether the BTS type has a download, fileOk whether the file
        could be opened and its header read. A file that cannot be opened leaves the record with the
        new window and flag, and a load in which nothing was sent. */
    method SoftwareLoad(newFile: seq<int>, window: nat, force: bool, typeOk: bool, fileOk: bool) returns (rc: int)
      requires Valid() && window < 256
      modifies this
      ensures Valid() && lastSeg == old(lastSeg)
      ensures rc == if old(state) != None then -16 else if typeOk && fileOk then 0 else -1
      ensures rc == 0 ==> state == WaitInitAck && file == newFile && stale == old(lastSeg)
      ensures rc == 0 ==> trace == [TxInit] && !readFailed
      ensures rc != 0 ==> state == old(state)
      ensures if old(state) == None && typeOk then windowSize == window && forced == force
              else windowSize == old(windowSize) && forced == old(forced) && trace == old(trace) && file == old(file)
      ensures old(state) == None && typeOk && !fileOk ==> trace == []
    {
      if state != None {
        return -16; // EBUSY
      }
      if !typeOk {
        return -1;
      }
      windowSize, forced := window, force;
      if !fileOk {
        BeginLoad([], None, []);
        return -1;
      }
      BeginLoad(newFile, WaitInitAck, [TxInit]);
      return 0;
    }

    /** A new load from the start of its file: nothing is out yet but the load initiation. */
    method BeginLoad(newFile: seq<int>, next: State, ghost out: seq<Item>)
      requires segInWindow == 0
      requires (next == None && out == []) || (next == WaitInitAck && out == [TxInit])
      modifies this`state, this`file, this`pos, this`stale, this`readFailed, this`trace
      ensures Valid() && state == next && file == newFile && stale == lastSeg && !readFailed && trace == out
    {
      state, file, pos := next, newFile, 0;
      stale, readFailed, trace := lastSeg, false, out;
      NothingOut(out, windowSize);
    }

    /** sw_load_segment; a read comes back short only at the end of the file */
    method LoadSegment(readOk: bool) returns (rc: int)
      requires Sending() && segInWindow == Unacked(trace) < windowSize && !HasEnd(trace)
      modifies this`pos, this`lastSeg, this`segInWindow, this`trace, this`readFailed
      ensures Sending() && segInWindow == Unacked(trace) <= windowSize && !HasEnd(trace)
      ensures rc == if readOk then 0 else -22
      ensures readFailed == (old(readFailed) || !readOk)
      ensures !readOk ==> pos == old(pos) && lastSeg == old(lastSeg)
      ensures readOk ==> pos == (if old(pos) + SEGMENT_SIZE <= |file| then old(pos) + SEGMENT_SIZE else |file|)
      ensures readOk ==> lastSeg == (old(lastSeg) || old(pos) + SEGMENT_SIZE > |file|)
      ensures trace == if readOk then old(trace) + [TxSeg(file[old(pos)..pos])] else old(trace)
      ensures readOk ==> segInWindow == old(segInWindow) + 1
    {
      if !readOk {
        readFailed := true;
        return -22;
      }
      var len := if pos + SEGMENT_SIZE <= |file| then SEGMENT_SIZE else |file| - pos;
      var data := file[pos..pos + len];
      pos := pos + len;
      if len != SEGMENT_SIZE {
        lastSeg := true;
      }
      segInWindow := segInWindow + 1;
      TraceStep(trace, TxSeg(data), windowSize);
      trace := trace + [TxSeg(data)];
      assert file[..pos] == file[..old(pos)] + data;
      return 0;
    }

    /** sw_fill_window; the first okReads reads succeed */
    method FillWindow(okReads: nat) returns (rc: int)
      requires Sending() && segInWindow == Unacked(trace) <= windowSize && !HasEnd(trace)
      requires lastSeg ==> stale && pos == 0 && segInWindow == 0
      modifies this`pos, this`lastSeg, this`segInWindow, this`trace, this`readFailed
      ensures Sending() && segInWindow == Unacked(trace) <= windowSize && !HasEnd(trace)
      ensures lastSeg ==> AllOut()
      ensures old(trace) <= trace
      ensures okReads >= windowSize ==> readFailed == old(readFailed) && (lastSeg || segInWindow == windowSize)
      ensures okReads >= windowSize > old(segInWindow) ==> lastSeg || pos > old(pos)
    {
      var done := 0;
      while segInWindow < windowSize
        invariant Sending() && segInWindow == Unacked(trace) <= windowSize && !HasEnd(trace)
        invariant lastSeg ==> stale && pos == 0 && segInWindow == 0
        invariant old(trace) <= trace
        invariant done == segInWindow - old(segInWindow) && readFailed == old(readFailed)
        invariant pos >= old(pos) && (done > 0 ==> pos > old(pos))
        decreases windowSize - segInWindow
      {
        rc := LoadSegment(done < okReads);
        if rc < 0 {
          return rc;
        }
        done := done + 1;
        if lastSeg {
          break;
        }
      }
      return 0;
    }

    /** Everything is out and acknowledged: the load end. */
    method SendEnd()
      requires Sending() && lastSeg && AllOut() && segInWindow == 0 && !HasEnd(trace)
      requires trace != [] && trace[|trace| - 1].RxSegAck?
      modifies this`state, this`trace
      ensures Valid() && state == WaitEndAck && trace == old(trace) + [TxEnd]
    {
      state := WaitEndAck;
      TraceStep(trace, TxEnd, windowSize);
      trace := trace + [TxEnd];
    }

    /** The acknowledged window is refilled, or the transfer ended. */
    method OnSegAck(okReads: nat)
      requires Valid() && state == WaitSegAck
      modifies this`state, this`pos, this`lastSeg, this`segInWindow, this`trace, this`readFailed
      ensures Valid() && old(trace) + [RxSegAck] <= trace
      ensures state == if old(lastSeg) then WaitEndAck else WaitSegAck
      ensures old(lastSeg) ==> trace == old(trace) + [RxSegAck] + [TxEnd]
      ensures okReads >= windowSize ==> readFailed == old(readFailed)
      ensures okReads >= windowSize > 0 && !old(lastSeg) ==> lastSeg || pos > old(pos)
    {
      TraceStep(trace, RxSegAck, windowSize);
      trace := trace + [RxSegAck];
      segInWindow := 0;
      if !lastSeg {
        var rc := FillWindow(okReads);
        state := WaitSegAck;
      } else {
        SendEnd();
      }
    }

    /** abis_nm_rcvmsg_sw */
    method Receive(msg: Received, okReads: nat)
      requires Valid()
      modifies this
      ensures Valid() && file == old(file) && windowSize == old(windowSize) && stale == old(stale)
      ensures old(trace) <= trace && state == NextState(old(state), msg, forced, old(lastSeg))
      ensures state == old(state) && msg != SegAck ==> trace == old(trace)
      ensures old(lastSeg) ==> lastSeg
      ensures okReads >= windowSize ==> readFailed == old(readFailed)
      ensures old(state) == WaitSegAck && msg == SegAck && okReads >= windowSize > 0 && !old(lastSeg) ==>
        lastSeg || pos > old(pos)
    {
      match state {
        case WaitInitAck =>
          if msg == InitAck || (msg == InitNack && forced) {
            var rc := FillWindow(okReads);
            state := WaitSegAck;
          } else if msg == InitNack {
            state := Error;
          }
        case WaitSegAck =>
          if msg == SegAck {
            OnSegAck(okReads);
          }
        case WaitEndAck =>
          if msg == EndAck || (msg == EndNack && forced) {
            state := None;
          } else if msg == EndNack {
            state := Error;
          }
        case None =>
        case Error =>
      }
    }
  }

  /** The load end announces a complete file exactly when the record was fresh or one segment is enough:
      the last-segment flag is never cleared, so a second load on the same record stops after its first segment. */
  lemma LoadEndComplete(l: Loader)
    requires l.Valid() && HasEnd(l.trace)
    ensures !l.stale ==> Data(l.trace) == l.file
    ensures !l.readFailed && l.windowSize > 0 ==>
              (Data(l.trace) == l.file <==> !l.stale || |l.file| <= SEGMENT_SIZE)
    ensures |l.trace| >= 2 && l.trace[|l.trace| - 1] == TxEnd && l.trace[|l.trace| - 2] == RxSegAck
  {
    assert l.file[..|l.file|] == l.file;
    EndIsLast(l.trace);
  }

  lemma EndIsLast(trace: seq<Item>)
    requires EndsAfterAck(trace) && HasEnd(trace)
    ensures |trace| >= 2 && trace[|trace| - 1].TxEnd? && trace[|trace| - 2].RxSegAck?
  {
  }

  /** The window holds at every moment, not only now. */
  lemma {:induction false} WindowedAlways(trace: seq<Item>, window: nat, n: nat)
    requires Windowed(trace, window) && n <= |trace|
    ensures Unacked(trace[..n]) <= window
  {
    if n < |trace| {
      WindowedAlways(trace[..|trace| - 1], window, n);
      assert trace[..|trace| - 1][..n] == trace[..n];
    } else {
      assert trace[..n] == trace;
    }
  }

  datatype Event = Load(file: seq<int>, window: nat, force: bool, typeOk: bool, fileOk: bool) | Rx(msg: Received, okReads: nat)

  method Run(l: Loader, events: seq<Event>)
    requires l.Valid() && (forall e :: e in events && e.Load? ==> e.window < 256)
    modifies l
    ensures l.Valid()
  {
    for i := 0 to |events|
      invariant l.Valid()
    {
      match events[i] {
        case Load(file, window, force, typeOk, fileOk) =>
          assert events[i] in events;
          var _ := l.SoftwareLoad(file, window, force, typeOk, fileOk);
        case Rx(msg, okReads) => l.Receive(msg, okReads);
      }
    }
  }

  /** With every message acknowledged and every read good, a load from a fresh record gets the whole
      file across and comes to its load end. */
  method LoadWhole(l: Loader, file: seq<int>, window: nat, force: bool)
    requires l.Valid() && l.state == None && !l.lastSeg && 1 <= window < 256
    modifies l
    ensures l.Valid() && l.state == WaitEndAck && HasEnd(l.trace) && l.file == file && Data(l.trace) == file
  {
    var _ := l.SoftwareLoad(file, window, force, true, true);
    l.Receive(InitAck, window);
    while l.state == WaitSegAck
      invariant l.Valid() && (l.state == WaitSegAck || l.state == WaitEndAck)
      invariant l.file == file && l.windowSize == window && !l.stale
      decreases l.state == WaitSegAck, !l.lastSeg, |file| - l.pos
    {
      l.Receive(SegAck, window);
    }
    LoadEndComplete(l);
  }

  /** A record that has served one load. */
  method UsedRecord() returns (l: Loader)
    ensures fresh(l) && l.Valid() && l.state == None && l.lastSeg
  {
    l := new Loader();
    LoadWhole(l, [], 1, false);
    l.Receive(EndAck, 0);
  }

  /** A later load of more than one segment on such a record announces its end with data missing. */
  method LoadAgain(l: Loader, file: seq<int>, window: nat)
    requires l.Valid() && l.state == None && l.lastSeg && 1 <= window < 256 && |file| > SEGMENT_SIZE
    modifies l
    ensures l.Valid() && HasEnd(l.trace) && l.file == file && Data(l.trace) != file
  {
    var _ := l.SoftwareLoad(file, window, false, true, true);
    l.Receive(InitAck, window);
    l.Receive(SegAck, window);
    LoadEndComplete(l);
  }
}
