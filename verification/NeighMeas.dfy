/** Neighbour cell measurements and the handover decision of algorithm 1
    (src/osmo-bsc/handover_decision.c). */
module NeighMeas {

  const MAX_NEIGH := 10
  const WIN := 10       // MAX_WIN_NEIGH_AVG

  /** One neigh_meas_proc; ARFCN 0 marks an unused slot. rxlev is a ring of WIN samples. */
  datatype Slot = Slot(arfcn: nat, bsic: nat, rxlev: seq<nat>, count: nat)

  datatype Cell = Cell(arfcn: nat, bsic: nat, rxlev: nat)

  function Sum(s: seq<nat>): (r: nat) {
    if s == [] then 0 else Sum(s[..|s| - 1]) + s[|s| - 1]
  }

  /** The mean of the last samples of a history, over at most `window` of them. */
  function Mean(history: seq<nat>, window: int): (r: nat) {
    var w := if window > |history| then |history| else window;
    if w <= 0 then 0 else Sum(history[|history| - w..]) / w
  }

  function Means(histories: seq<seq<nat>>, window: int): (r: seq<nat>)
    ensures |r| == |histories|
    ensures forall j :: 0 <= j < |r| ==> r[j] == Mean(histories[j], window)
  {
    seq(|histories|, j requires 0 <= j < |histories| => Mean(histories[j], window))
  }

  // ----- rings -----

  /** The ring holds the last WIN samples of the history. */
  ghost predicate Records(s: Slot, history: seq<nat>) {
    && |s.rxlev| == WIN
    && s.count == |history|
    && forall i :: 0 <= i < |history| && |history| - WIN <= i ==> s.rxlev[i % WIN] == history[i]
  }

  /** Storing at count modulo WIN records one more sample. */
  lemma RecordsMore(s: Slot, history: seq<nat>, v: nat)
    requires Records(s, history)
    ensures Records(s.(rxlev := s.rxlev[s.count % WIN := v], count := s.count + 1), history + [v])
  {
  }

  /** calc_initial_idx */
  function InitialIdx(size: nat, at: nat, num: nat): (r: int)
    requires num <= size && at < size
    ensures 0 <= r < size || (num == 0 && r == at)
    ensures r == at - num || r == at - num + size
  {
    var offs := at - num;
    if offs < 0 then size + offs else offs
  }

  lemma SumStep(s: seq<nat>, lo: nat, n: nat)
    requires lo + n < |s|
    ensures Sum(s[lo..lo + n + 1]) == Sum(s[lo..lo + n]) + s[lo + n]
  {
    assert s[lo..lo + n + 1][..n] == s[lo..lo + n];
  }

  /** Where the loop over the ring finds the i-th of the last w samples. */
  lemma RingIndex(count: nat, w: nat, i: nat)
    requires w <= WIN && w <= count
    ensures (InitialIdx(WIN, count % WIN, w) + i) % WIN == (count - w + i) % WIN
  {
    var at := count % WIN;
    TurnsOff(at - w + i, count / WIN);
    TurnsOff(at - w + i, 1);
    assert count == WIN * (count / WIN) + at;
  }

  lemma {:induction false} TurnsOff(x: int, q: nat)
    ensures (x + WIN * q) % WIN == x % WIN
  {
    if q > 0 {
      TurnsOff(x, q - 1);
    }
  }

  method RingSum(s: Slot, w: nat, ghost history: seq<nat>) returns (sum: nat)
    requires Records(s, history) && 0 < w <= WIN && w <= s.count
    ensures sum == Sum(history[|history| - w..])
  {
    var idx := InitialIdx(WIN, s.count % WIN, w);
    sum := 0;
    var i := 0;
    ghost var lo := |history| - w;
    while i < w
      invariant 0 <= i <= w && sum == Sum(history[lo..lo + i])
    {
      RingIndex(s.count, w, i);
      SumStep(history, lo, i);
      sum := sum + s.rxlev[(idx + i) % WIN];
      i := i + 1;
    }
    assert history[lo..lo + w] == history[|history| - w..];
  }

  /** neigh_meas_avg: the ring's average is the mean of what really was measured last */
  method NeighAvg(s: Slot, window: int, ghost history: seq<nat>) returns (avg: nat)
    requires Records(s, history) && window <= WIN
    ensures avg == Mean(history, window)
  {
    var w := if window > s.count then s.count else window;
    if w <= 0 {
      return 0;
    }
    var sum := RingSum(s, w, history);
    MeanIs(history, window, w, sum);
    return sum / w;
  }

  lemma MeanIs(history: seq<nat>, window: int, w: nat, sum: nat)
    requires w > 0 && w == (if window > |history| then |history| else window) && sum == Sum(history[|history| - w..])
    ensures Mean(history, window) == sum / w
  {
  }

  // ----- reports -----

  predicate Same(s: Slot, c: Cell) {
    s.arfcn == c.arfcn && s.bsic == c.bsic
  }

  /** A report names each cell once, by a non-zero ARFCN. */
  predicate GoodReport(cells: seq<Cell>) {
    && (forall i :: 0 <= i < |cells| ==> cells[i].arfcn != 0)
    && (forall i, j :: 0 <= i < j < |cells| ==> cells[i].arfcn != cells[j].arfcn || cells[i].bsic != cells[j].bsic)
  }

  /** No two used slots are about the same cell. */
  predicate Distinct(slots: seq<Slot>) {
    forall i, j :: 0 <= i < j < |slots| && slots[i].arfcn != 0 && slots[j].arfcn != 0 ==>
      slots[i].arfcn != slots[j].arfcn || slots[i].bsic != slots[j].bsic
  }

  predicate Known(slots: seq<Slot>, c: Cell) {
    exists j :: 0 <= j < |slots| && slots[j].arfcn != 0 && Same(slots[j], c)
  }

  /** An earlier cell of the report is the same cell. */
  predicate Repeated(cells: seq<Cell>, i: nat)
    requires i < |cells|
  {
    exists k :: 0 <= k < i && cells[k].arfcn == cells[i].arfcn && cells[k].bsic == cells[i].bsic
  }

  /** The sample a slot gets from a report: the first cell that matches, or 0 for a miss. */
  function SampleOf(cells: seq<Cell>, arfcn: nat, bsic: nat): (r: nat) {
    if cells == [] then 0
    else if cells[0].arfcn == arfcn && cells[0].bsic == bsic then cells[0].rxlev
    else SampleOf(cells[1..], arfcn, bsic)
  }

  /** A slot's history after a report. */
  function Measured(cells: seq<Cell>, s: Slot, history: seq<nat>): (r: seq<nat>) {
    if s.arfcn == 0 then history else history + [SampleOf(cells, s.arfcn, s.bsic)]
  }

  /** A slot that a report's cell has just taken. */
  predicate Taken(cells: seq<Cell>, s: Slot, history: seq<nat>) {
    exists i :: 0 <= i < |cells| && Same(s, cells[i]) && history == [cells[i].rxlev]
  }

  /** The table at one moment. */
  datatype Snapshot = Snapshot(slots: seq<Slot>, histories: seq<seq<nat>>)

  predicate Full(t: Snapshot) {
    |t.slots| == MAX_NEIGH == |t.histories|
  }

  /** Every used slot was measured once more, with 0 for a miss. */
  predicate MeasuredAll(cells: seq<Cell>, was: Snapshot, now: Snapshot) {
    && Full(was) && Full(now)
    && forall j :: 0 <= j < MAX_NEIGH ==>
      && now.slots[j].arfcn == was.slots[j].arfcn && now.slots[j].bsic == was.slots[j].bsic
      && now.histories[j] == Measured(cells, was.slots[j], was.histories[j])
  }

  /** Slots were taken by cells of the report and the others kept. A used slot was taken only when none
      was unused, and its average was not above that of any slot kept. */
  predicate Replaced(cells: seq<Cell>, was: Snapshot, now: Snapshot, taken: set<nat>) {
    && Full(was) && Full(now)
    && (forall j :: 0 <= j < MAX_NEIGH ==>
          if j in taken then Taken(cells, now.slots[j], now.histories[j])
          else now.slots[j] == was.slots[j] && now.histories[j] == was.histories[j])
    && forall j, m :: 0 <= j < MAX_NEIGH && 0 <= m < MAX_NEIGH && j in taken && m !in taken && was.slots[j].arfcn != 0 ==>
      was.slots[m].arfcn != 0 && Mean(was.histories[j], WIN) <= Mean(was.histories[m], WIN)
  }

  /** What one report does to the table. */
  ghost predicate Reported(cells: seq<Cell>, was: Snapshot, now: Snapshot) {
    exists mid, taken :: MeasuredAll(cells, was, mid) && Replaced(cells, mid, now, taken)
  }

  lemma ReplacedMore(cells: seq<Cell>, was: Snapshot, now: Snapshot, next: Snapshot, taken: set<nat>, k: nat)
    requires Replaced(cells, was, now, taken) && Full(next) && k < MAX_NEIGH
    requires forall j :: 0 <= j < MAX_NEIGH && j != k ==>
      next.slots[j] == now.slots[j] && next.histories[j] == now.histories[j]
    requires Taken(cells, next.slots[k], next.histories[k])
    requires now.slots[k].arfcn != 0 ==> forall j :: 0 <= j < MAX_NEIGH ==>
      now.slots[j].arfcn != 0 && Mean(now.histories[k], WIN) <= Mean(now.histories[j], WIN)
    ensures Replaced(cells, was, next, taken + {k})
  {
  }

  /** rxlev_for_cell_in_rep: the index of the first matching cell, or the number of cells */
  method FindCell(cells: seq<Cell>, arfcn: nat, bsic: nat) returns (k: nat)
    ensures k <= |cells|
    ensures k < |cells| ==> cells[k].arfcn == arfcn && cells[k].bsic == bsic
    ensures forall i :: 0 <= i < k ==> cells[i].arfcn != arfcn || cells[i].bsic != bsic
    ensures SampleOf(cells, arfcn, bsic) == if k < |cells| then cells[k].rxlev else 0
  {
    k := 0;
    while k < |cells|
      invariant 0 <= k <= |cells|
      invariant forall i :: 0 <= i < k ==> cells[i].arfcn != arfcn || cells[i].bsic != bsic
      invariant SampleOf(cells, arfcn, bsic) == SampleOf(cells[k..], arfcn, bsic)
    {
      if cells[k].arfcn == arfcn && cells[k].bsic == bsic {
        return;
      }
      assert cells[k..][1..] == cells[k + 1..];
      k := k + 1;
    }
  }

  class Table {
    var slots: seq<Slot>
    ghost var histories: seq<seq<nat>>   // what each slot's cell was measured at, misses as 0

    ghost predicate Valid()
      reads this
    {
      && |slots| == MAX_NEIGH == |histories|
      && forall j :: 0 <= j < MAX_NEIGH ==> Records(slots[j], histories[j])
    }

    constructor ()
      ensures Valid() && Distinct(slots) && forall j :: 0 <= j < MAX_NEIGH ==> slots[j].arfcn == 0
    {
      slots := seq(MAX_NEIGH, _ => Slot(0, 0, [0, 0, 0, 0, 0, 0, 0, 0, 0, 0], 0));
      histories := seq(MAX_NEIGH, _ => []);
    }

    ghost function Now(): Snapshot
      reads this
    {
      Snapshot(slots, histories)
    }

    /** find_evict_neigh: the first unused slot, or a used one of least average when there is none */
    method FindEvict() returns (k: nat)
      requires Valid()
      ensures k < MAX_NEIGH
      ensures slots[k].arfcn == 0 ==> forall j :: 0 <= j < k ==> slots[j].arfcn != 0
      ensures slots[k].arfcn != 0 ==> forall j :: 0 <= j < MAX_NEIGH ==>
        slots[j].arfcn != 0 && Mean(histories[k], WIN) <= Mean(histories[j], WIN)
    {
      k := 0;
      while k < MAX_NEIGH
        invariant 0 <= k <= MAX_NEIGH
        invariant forall j :: 0 <= j < k ==> slots[j].arfcn != 0
      {
        if slots[k].arfcn == 0 {
          return;
        }
        k := k + 1;
      }
      k := FindWorst();
    }

    /** The first slot of least average. */
    method FindWorst() returns (k: nat)
      requires Valid()
      ensures k < MAX_NEIGH && forall j :: 0 <= j < MAX_NEIGH ==> Mean(histories[k], WIN) <= Mean(histories[j], WIN)
    {
      k := 0;
      var worst := NeighAvg(slots[0], WIN, histories[0]);
      var j := 1;
      while j < MAX_NEIGH
        invariant 1 <= j <= MAX_NEIGH && k < j && worst == Mean(histories[k], WIN)
        invariant forall i :: 0 <= i < j ==> worst <= Mean(histories[i], WIN)
      {
        var avg := NeighAvg(slots[j], WIN, histories[j]);
        if avg < worst {
          worst, k := avg, j;
        }
        j := j + 1;
      }
    }

    /** The first half of process_meas_neigh: every used slot gets a sample, 0 if its cell is missing */
    method UpdateKnown(cells: seq<Cell>) returns (processed: set<nat>)
      requires Valid()
      modifies this
      ensures Valid()
      ensures forall j :: 0 <= j < MAX_NEIGH ==>
        && slots[j].arfcn == old(slots)[j].arfcn && slots[j].bsic == old(slots)[j].bsic
        && histories[j] == Measured(cells, slots[j], old(histories)[j])
      ensures forall i :: i in processed ==> i < |cells|
      ensures forall i :: 0 <= i < |cells| && i !in processed ==>
        !Known(slots, cells[i]) || Repeated(cells, i)
    {
      processed := {};
      var j := 0;
      while j < MAX_NEIGH
        invariant 0 <= j <= MAX_NEIGH && Valid()
        invariant forall i :: i in processed ==> i < |cells|
        invariant forall k :: j <= k < MAX_NEIGH ==> slots[k] == old(slots)[k] && histories[k] == old(histories)[k]
        invariant forall k :: 0 <= k < j ==>
          && slots[k].arfcn == old(slots)[k].arfcn && slots[k].bsic == old(slots)[k].bsic
          && histories[k] == Measured(cells, slots[k], old(histories)[k])
        invariant forall i, k ::
          (0 <= k < j && 0 <= i < |cells| && i !in processed && slots[k].arfcn != 0 && Same(slots[k], cells[i])) ==>
          Repeated(cells, i)
      {
        var s := slots[j];
        if s.arfcn != 0 {
          var c := FindCell(cells, s.arfcn, s.bsic);
          var level := 0;
          if c < |cells| {
            level := cells[c].rxlev;
            processed := processed + {c};
          }
          RecordsMore(s, histories[j], level);
          histories := histories[j := histories[j] + [level]];
          slots := slots[j := s.(rxlev := s.rxlev[s.count % WIN := level], count := s.count + 1)];
        }
        j := j + 1;
      }
    }

    /** A cell that no slot is about takes an unused slot, or the place of a worst neighbour. */
    method AddCell(c: Cell) returns (k: nat)
      requires Valid()
      modifies this
      ensures Valid() && k < MAX_NEIGH
      ensures forall j :: 0 <= j < MAX_NEIGH && j != k ==> slots[j] == old(slots)[j] && histories[j] == old(histories)[j]
      ensures Same(slots[k], c) && histories[k] == [c.rxlev]
      ensures old(slots)[k].arfcn != 0 ==> forall j :: 0 <= j < MAX_NEIGH ==>
        old(slots)[j].arfcn != 0 && Mean(old(histories)[k], WIN) <= Mean(old(histories)[j], WIN)
    {
      k := FindEvict();
      var s := Slot(c.arfcn, c.bsic, slots[k].rxlev, 0);
      RecordsMore(s, [], c.rxlev);
      assert [] + [c.rxlev] == [c.rxlev];
      slots := slots[k := s.(rxlev := s.rxlev[s.count % WIN := c.rxlev], count := s.count + 1)];
      histories := histories[k := [c.rxlev]];
    }

    /** The second half of process_meas_neigh: cells that were not processed are added in turn */
    method AddUnknown(cells: seq<Cell>, processed: set<nat>) returns (ghost taken: set<nat>)
      requires Valid()
      requires forall i :: 0 <= i < |cells| && i !in processed ==> !Known(slots, cells[i]) || Repeated(cells, i)
      modifies this
      ensures Valid() && Replaced(cells, old(Now()), Now(), taken)
      ensures GoodReport(cells) && old(Distinct(slots)) ==> Distinct(slots)
    {
      ghost var good, was := GoodReport(cells) && Distinct(slots), Now();
      taken := {};
      var i := 0;
      while i < |cells|
        invariant 0 <= i <= |cells| && Valid()
        invariant Replaced(cells, was, Now(), taken)
        invariant good ==> Distinct(slots)
        invariant good ==> forall k :: i <= k < |cells| && k !in processed ==> !Known(slots, cells[k])
      {
        if i !in processed {
          ghost var now := Now();
          var k := AddCell(cells[i]);
          ReplacedMore(cells, was, now, Now(), taken, k);
          taken := taken + {k};
        }
        i := i + 1;
      }
    }

    /** process_meas_neigh: a slot's cell is measured once more, with 0 for a miss, or replaced by a
        cell of the report, and used slots are replaced only as Replaced says */
    method Process(cells: seq<Cell>)
      requires Valid()
      modifies this
      ensures Valid() && Reported(cells, old(Now()), Now())
      ensures GoodReport(cells) && old(Distinct(slots)) ==> Distinct(slots)
    {
      var processed := UpdateKnown(cells);
      ghost var mid := Now();
      ghost var taken := AddUnknown(cells, processed);
      assert Replaced(cells, mid, Now(), taken);
    }

    /** Any run of reports: averages stay means of what was measured, and while every report names each
        cell once, so do the slots. Every report did to the table what Reported says; reports of no
        cells, or more than 6, nothing. */
    method Run(reports: seq<seq<Cell>>) returns (ghost trace: seq<Snapshot>)
      requires Valid() && Distinct(slots)
      modifies this
      ensures Valid()
      ensures (forall r :: 0 <= r < |reports| ==> GoodReport(reports[r])) ==> Distinct(slots)
      ensures |trace| == |reports| + 1 && trace[0] == old(Now()) && trace[|reports|] == Now()
      ensures forall r :: 0 <= r < |reports| ==>
        if 0 < |reports[r]| < 7 then Reported(reports[r], trace[r], trace[r + 1]) else trace[r + 1] == trace[r]
    {
      trace := [Now()];
      for r := 0 to |reports|
        invariant Valid()
        invariant (forall q :: 0 <= q < r ==> GoodReport(reports[q])) ==> Distinct(slots)
        invariant |trace| == r + 1 && trace[0] == old(Now()) && trace[r] == Now()
        invariant forall q :: 0 <= q < r ==>
          if 0 < |reports[q]| < 7 then Reported(reports[q], trace[q], trace[q + 1]) else trace[q + 1] == trace[q]
      {
        if 0 < |reports[r]| < 7 {
          Process(reports[r]);
        }
        trace := trace + [Now()];
      }
    }

    // ----- the decision -----

    /** attempt_handover: the target is a used slot that is at
        least the hysteresis better than the serving cell, and none of those is better still; there is a
        target whenever some such slot is better at all. */
    method AttemptHandover(window: int, serving: nat, hysteresis: int)
      returns (found: bool, best: nat)
      requires Valid() && window <= WIN && hysteresis >= 0
      ensures var a := Means(histories, window);
        if found then
          && best < MAX_NEIGH && slots[best].arfcn != 0
          && a[best] >= serving + hysteresis && a[best] > serving
          && forall j :: 0 <= j < MAX_NEIGH && slots[j].arfcn != 0 ==> a[j] <= a[best]
        else
          forall j :: 0 <= j < MAX_NEIGH && slots[j].arfcn != 0 ==> a[j] < serving + hysteresis || a[j] <= serving
    {
      found, best := BestSlot(window, serving, hysteresis, Means(histories, window));
    }

    ghost predicate Averages(a: seq<nat>, window: int)
      requires |histories| == MAX_NEIGH
      reads this
    {
      |a| == MAX_NEIGH && forall j {:trigger Mean(histories[j], window)} :: 0 <= j < MAX_NEIGH ==> a[j] == Mean(histories[j], window)
    }

    method SlotAvg(i: nat, window: int, ghost a: seq<nat>) returns (avg: nat)
      requires Valid() && window <= WIN && i < MAX_NEIGH && Averages(a, window)
      ensures avg == a[i]
    {
      avg := NeighAvg(slots[i], window, histories[i]);
    }

    /** The loop over the slots. */
    method BestSlot(window: int, serving: nat, hysteresis: int, ghost a: seq<nat>)
      returns (found: bool, best: nat)
      requires Valid() && window <= WIN && hysteresis >= 0 && Averages(a, window)
      ensures if found then
          && best < MAX_NEIGH && slots[best].arfcn != 0
          && a[best] >= serving + hysteresis && a[best] > serving
          && forall j :: 0 <= j < MAX_NEIGH && slots[j].arfcn != 0 ==> a[j] <= a[best]
        else
          forall j :: 0 <= j < MAX_NEIGH && slots[j].arfcn != 0 ==> a[j] < serving + hysteresis || a[j] <= serving
    {
      found, best := false, 0;
      var bestBetter := 0;
      var i := 0;
      while i < MAX_NEIGH
        invariant 0 <= i <= MAX_NEIGH
        invariant if found then best < i && slots[best].arfcn != 0 && a[best] >= serving + hysteresis
                                && bestBetter == a[best] - serving > 0
                  else bestBetter == 0
        invariant forall j :: 0 <= j < i && slots[j].arfcn != 0 && a[j] >= serving + hysteresis ==>
          a[j] - serving <= bestBetter
      {
        if slots[i].arfcn != 0 {
          var avg := SlotAvg(i, window, a);
          if avg >= serving + hysteresis {
            var better := avg - serving;
            if better > bestBetter {
              found, best, bestBetter := true, i, better;
            }
          }
        }
        i := i + 1;
      }
    }
  }
}
