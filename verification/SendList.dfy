/** Which ARFCNs the BSC announces in range format, from the bit vector on: enc_freq_lst_range with its
    selection loop, and lists that reach it, in src/osmo-bsc/system_information.c. */
module SendList {
  import opened Arith
  import opened Bits
  import opened RangeTree
  import opened RangeWords
  import opened FreqList
  import opened ArfcnList
  import opened ShippedList

  // ----- selecting the ARFCNs -----

  /** The ARFCNs that are set in the bit vector and may be used, ascending. */
  function Picked(picks: seq<bool>): (r: seq<int>)
    ensures |r| <= |picks|
  {
    if picks == [] then []
    else
      var n := |picks| - 1;
      Picked(picks[..n]) + if picks[n] then [n] else []
  }

  lemma {:induction false} PickedAscends(picks: seq<bool>)
    ensures Ascends(Picked(picks)) && forall i :: 0 <= i < |Picked(picks)| ==> 0 <= Picked(picks)[i] < |picks|
  {
    if picks != [] {
      PickedAscends(picks[..|picks| - 1]);
    }
  }

  predicate Ascends(a: seq<int>) {
    forall i, k :: 0 <= i < k < |a| ==> a[i] < a[k]
  }

  /** a holds exactly the ARFCNs that are picked. */
  ghost predicate Holds(picks: seq<bool>, a: seq<int>) {
    forall x :: x in a <==> 0 <= x < |picks| && picks[x]
  }

  lemma HoldsLast(picks: seq<bool>, a: seq<int>)
    requires picks != [] && Ascends(a) && Holds(picks, a) && picks[|picks| - 1]
    ensures a != [] && a[|a| - 1] == |picks| - 1 && Holds(picks[..|picks| - 1], a[..|a| - 1])
  {
    var n := |picks| - 1;
    assert n in a;
    var i :| 0 <= i < |a| && a[i] == n;
    assert a[|a| - 1] in a;
    forall x ensures x in a[..i] <==> 0 <= x < n && picks[x] {
      assert x in a <==> x in a[..i] || x == n;
    }
  }

  /** It is the only ascending list of exactly these ARFCNs. */
  lemma {:induction false} PickedIs(picks: seq<bool>, a: seq<int>)
    requires Ascends(a) && Holds(picks, a)
    ensures Picked(picks) == a
  {
    if picks == [] {
      assert forall i :: 0 <= i < |a| ==> a[i] in a;
    } else if picks[|picks| - 1] {
      HoldsLast(picks, a);
      PickedIs(picks[..|picks| - 1], a[..|a| - 1]);
    } else {
      PickedIs(picks[..|picks| - 1], a);
    }
  }

  datatype Selection = Selected(size: nat) | Overrun

  /** The selection loop, into an array of 29. Its guard lets a 30th ARFCN through: that one is written
      behind the array, exactly if there are so many. */
  method SelectArfcns(picks: seq<bool>, arfcns: array<int>) returns (r: Selection)
    requires arfcns.Length == MAX_ARFCNS && |picks| <= 1024
    modifies arfcns
    ensures r.Overrun? <==> |Picked(picks)| > MAX_ARFCNS
    ensures r.Selected? ==> r.size <= MAX_ARFCNS && arfcns[..r.size] == Picked(picks) && IsArfcnList(Picked(picks))
  {
    var used := 0;
    for i := 0 to |picks|
      invariant used <= MAX_ARFCNS && arfcns[..used] == Picked(picks[..i])
    {
      assert picks[..i + 1][..i] == picks[..i];
      if picks[i] {
        if used == MAX_ARFCNS {
          PickedGrows(picks, i + 1);
          return Overrun;
        }
        arfcns[used] := i;
        used := used + 1;
      }
    }
    assert picks[..|picks|] == picks;
    PickedAscends(picks);
    return Selected(used);
  }

  lemma {:induction false} PickedGrows(picks: seq<bool>, i: nat)
    requires i <= |picks|
    ensures |Picked(picks[..i])| <= |Picked(picks)|
  {
    if i == |picks| {
      assert picks[..i] == picks;
    } else {
      var front := picks[..|picks| - 1];
      assert picks[..i] == front[..i];
      PickedGrows(front, i);
    }
  }

  datatype Sending = Returned(rc: int) | OutOfBounds

  /** enc_freq_lst_range: it overruns its array if and only if 30 ARFCNs or more are selected, and
      otherwise does with them what Outcome says. */
  method EncFreqLstRange(picks: seq<bool>, f0Unset: nat, chan: array<Octet>) returns (r: Sending)
    requires |picks| <= 1024 && chan.Length == OCTETS && f0Unset < 1024
    modifies chan
    ensures r.OutOfBounds? <==> |Picked(picks)| >= 30
    ensures r.Returned? ==> Outcome(r.rc, chan[..], old(chan[..]), Picked(picks), f0Unset)
  {
    var arfcns := new int[MAX_ARFCNS];
    var selection := SelectArfcns(picks, arfcns);
    if selection.Overrun? {
      return OutOfBounds;
    }
    var rc := EncodeSelected(arfcns, selection.size, f0Unset, chan);
    return Returned(rc);
  }

  // ----- lists that are sent this way: bitvec2freq_list has no room for them in a bit map -----

  /** The lowest ARFCN, 955 to 1023 taken to come before 0. */
  function Lowest(a: seq<int>): int
    requires a != []
  {
    var i := a[|a| - 1];
    if |a| == 1 then i
    else
      var min := Lowest(a[..|a| - 1]);
      if (i >= 955 && (min < 955 || i < min)) || (i < 955 && min < 955 && i < min) then i else min
  }

  function Highest(a: seq<int>): int
    requires a != []
  {
    var i := a[|a| - 1];
    if |a| == 1 then i
    else
      var max := Highest(a[..|a| - 1]);
      if (i < 955 && (max >= 955 || i > max)) || (i >= 955 && max >= 955 && i > max) then i else max
  }

  predicate NeedsRange(a: seq<int>) {
    a != [] && Wrap(Highest(a) - Lowest(a), 1024) > 111
  }

  lemma NeedsRange2(x: int, y: int)
    requires 0 <= x < y < 955 && y - x > 111
    ensures NeedsRange([x, y])
  {
    assert [x, y][..1] == [x];
  }

  lemma Filtered2(x: int, y: int)
    requires 0 <= x < y < 1024
    ensures Filtered([x, y], x) == [y - x - 1]
  {
    assert [x, y][..1] == [x] && [x][..0] == [];
  }

  lemma Near2(m: int, p: int, q: int, x: int)
    requires m > 0
    ensures Near(m, [p, q], x) == (if Wrap(p - x, m) <= (m - 1) / 2 then 1 else 0) + if Wrap(q - x, m) <= (m - 1) / 2 then 1 else 0
  {
    assert [p, q][..1] == [p] && [p][..0] == [];
    assert Near(m, [p], x) == if Wrap(p - x, m) <= (m - 1) / 2 then 1 else 0;
  }

  /** The frequency list element for a list of ARFCNs that are all set and usable. */
  method Announce(a: seq<int>, chan: array<Octet>) returns (r: Sending)
    requires IsArfcnList(a) && |a| <= MAX_ARFCNS && chan.Length == OCTETS
    modifies chan
    ensures r.Returned? && Outcome(r.rc, chan[..], old(chan[..]), a, 0)
  {
    var picks := seq(1024, i => i in a);
    PickedIs(picks, a);
    r := EncFreqLstRange(picks, 0, chan);
  }

  /** ARFCNs 600 and 727 are announced as 600, 693 and 727. */
  method ExtraArfcn(chan: array<Octet>) returns (r: Sending)
    requires chan.Length == OCTETS
    modifies chan
    ensures r == Returned(0) && DecodeFreqList(chan[..]) == Arfcns({600, 693, 727}) && NeedsRange([600, 727])
  {
    Example600([600, 727]);
    NeedsRange2(600, 727);
    r := Announce([600, 727], chan);
  }

  lemma Example600(a: seq<int>)
    requires a == [600, 727]
    ensures IsArfcnList(a) && DetermineRange(a, 0) == Chosen(Range128, 600)
    ensures !Deadlocked(Range128, a, 600) && Common(Range128, a, 600)
    ensures ToSet(a) + {Wrap(600 + 1 + Stale(Range128, a), 1024)} == {600, 693, 727}
  {
    Filtered2(600, 727);
    WrapIsMod(727, 127);
    assert Stale(Range128, a) == 92 && Seen(Range128, a, 600) == [126, 92];
    FormatRanges();
    SearchOn600(127, [126, 92]);
    NotSent(Range128, a, 600);
    assert a[0] == 600 && a[1] == 727;
  }

  lemma SearchOn600(m: int, s: seq<int>)
    requires m == 127 && s == [126, 92]
    ensures FirstPivot(m, s, 0) == 0
  {
    Near2(m, 126, 92, 126);
    assert IsPivot(m, s, 0);
  }

  /** ARFCNs 634 and 754 are not announced at all. */
  method NothingSent(chan: array<Octet>) returns (r: Sending)
    requires chan.Length == OCTETS
    modifies chan
    ensures r == Returned(-EINVAL) && chan[..] == old(chan[..]) && NeedsRange([634, 754])
  {
    Example634([634, 754]);
    NeedsRange2(634, 754);
    r := Announce([634, 754], chan);
  }

  lemma Example634(a: seq<int>)
    requires a == [634, 754]
    ensures IsArfcnList(a) && DetermineRange(a, 0) == Chosen(Range128, 634) && Deadlocked(Range128, a, 634)
  {
    Filtered2(634, 754);
    WrapIsMod(754, 127);
    assert Stale(Range128, a) == 119 && Seen(Range128, a, 634) == [119, 119];
    FormatRanges();
    SearchOnTwice(127, 119);
    assert a[0] == 634 && a[1] == 754;
    NotSent(Range128, a, 634);
  }

  /** A value twice and nothing else: the search fails. */
  lemma SearchOnTwice(m: int, v: int)
    requires m > 0
    ensures FirstPivot(m, [v, v], 0) == -1
  {
    Near2(m, v, v, v);
    assert !IsPivot(m, [v, v], 0) && !IsPivot(m, [v, v], 1);
    assert FirstPivot(m, [v, v], 2) == -1;
  }

  /** ARFCNs 126, 200 and 240 are announced as they are: the stale value falls on the place of 240. */
  method SentAsItIs(chan: array<Octet>) returns (r: Sending)
    requires chan.Length == OCTETS
    modifies chan
    ensures r == Returned(0) && DecodeFreqList(chan[..]) == Arfcns({126, 200, 240}) && NeedsRange([126, 200, 240])
  {
    Example126([126, 200, 240]);
    r := Announce([126, 200, 240], chan);
  }

  lemma Example126(a: seq<int>)
    requires a == [126, 200, 240]
    ensures IsArfcnList(a) && DetermineRange(a, 0) == Chosen(Range128, 126) && NeedsRange(a)
    ensures !Deadlocked(Range128, a, 126) && Announced(Range128, a, 126)
    ensures ToSet(a) == {126, 200, 240}
  {
    NeedsRange3(a);
    Filtered3(a);
    FormatRanges();
    SearchOn126(127, [73, 113, 113]);
    assert Seen(Range128, a, 126) == [73, 113] + [113] == [73, 113, 113];
    assert a[0] == 126;
    NotSent(Range128, a, 126);
  }

  lemma NeedsRange3(a: seq<int>)
    requires a == [126, 200, 240]
    ensures NeedsRange(a)
  {
    assert a[..2] == [126, 200] && a[..2][..1] == [126];
    assert Lowest(a[..2]) == 126 && Highest(a[..2]) == 200;
  }

  lemma Filtered3(a: seq<int>)
    requires a == [126, 200, 240]
    ensures Filtered(a, 126) == [73, 113] && Stale(Range128, a) == 113
  {
    WrapIsMod(240, 127);
    assert a[..2] == [126, 200] && a[..2][..1] == [126] && a[..2][..1][..0] == [];
    assert Filtered(a[..2][..1], 126) == [] && Filtered(a[..2], 126) == [73];
  }

  lemma SearchOn126(m: int, s: seq<int>)
    requires m == 127 && s == [73, 113, 113]
    ensures FirstPivot(m, s, 0) == 1
  {
    assert s[..2] == [73, 113];
    Near2(m, 73, 113, 73);
    Near2(m, 73, 113, 113);
    assert !IsPivot(m, s, 0) && IsPivot(m, s, 1);
  }
}
