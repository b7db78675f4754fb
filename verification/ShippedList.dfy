/** The frequency list element as the BSC sends it: range_encode, and enc_freq_lst_range behind its
    selection loop, in src/osmo-bsc/system_information.c. The length that the filter returns is dropped, so a list that
    loses F0 to the filter is encoded with its last ARFCN once more, unshifted, at the end. */
module ShippedList {
  import opened Arith
  import opened Bits
  import opened RangeTree
  import opened RangeWords
  import opened RangeTurn
  import opened RangeTwice
  import opened FreqList
  import opened ArfcnList

  // ----- what reaches the encoder -----

  function PassedOn(a: seq<int>, f0: int): (r: seq<int>) {
    Filtered(a, f0) + if f0 in a then [a[|a| - 1]] else []
  }

  /** The place of the stale value on the circle of the format. */
  function Stale(f: Format, a: seq<int>): int
    requires a != []
  {
    Wrap(a[|a| - 1], RangeOf(f))
  }

  /** What search and split see of it. */
  function Seen(f: Format, a: seq<int>, f0: int): (r: seq<int>) {
    Filtered(a, f0) + if f0 in a then [Stale(f, a)] else []
  }

  lemma SeenSize(f: Format, a: seq<int>, f0: int)
    requires IsArfcnList(a)
    ensures |PassedOn(a, f0)| == |Seen(f, a, f0)| == |a|
  {
    FilteredSize(a, f0);
  }

  lemma SeenAlike(f: Format, a: seq<int>, f0: int)
    ensures Alike(RangeOf(f), PassedOn(a, f0), Seen(f, a, f0))
  {
    var p, s := PassedOn(a, f0), Seen(f, a, f0);
    forall i | 0 <= i < |p| ensures Wrap(p[i], RangeOf(f)) == Wrap(s[i], RangeOf(f)) {
      if i == |Filtered(a, f0)| {
        assert p[i] == a[|a| - 1] && s[i] == Stale(f, a);
      } else {
        assert p[i] == s[i];
      }
    }
  }

  lemma SeenBounded(f: Format, a: seq<int>, f0: int)
    requires IsArfcnList(a) && DetermineRange(a, f0) == Chosen(f, f0)
    ensures Bounded(RangeOf(f), Seen(f, a, f0)) && Bounded(RangeOf(f), Filtered(a, f0))
  {
    FilteredEncodable(a, f, f0);
    WellFormedBounded(RangeOf(f), Filtered(a, f0));
    forall x | x in Seen(f, a, f0) ensures 0 <= x < RangeOf(f) {
      assert x in Filtered(a, f0) || x == Stale(f, a);
    }
  }

  lemma PassedOnNats(a: seq<int>, f: Format, f0: int, i: nat)
    requires IsArfcnList(a) && DetermineRange(a, f0) == Chosen(f, f0) && i < |PassedOn(a, f0)|
    ensures PassedOn(a, f0)[i] >= 0
  {
    SeenBounded(f, a, f0);
    if i < |Filtered(a, f0)| {
      assert PassedOn(a, f0)[i] in Filtered(a, f0);
    }
  }

  /** The root carries the stale value and it is not on the circle: its word is cut to the field. */
  predicate Truncated(f: Format, a: seq<int>, f0: int) {
    f0 in a && a[|a| - 1] >= RangeOf(f) && PivotIndex(WordBits(f), Seen(f, a, f0)) == |a| - 1
  }

  // ----- when the element is right -----

  /** Exactly these lists are announced as they are. F0 in the list adds the stale value's frequency,
      unless that was one of the list's own (and no search fails for it), or had no word, or is cut to 0
      and nothing else is there. */
  predicate Announced(f: Format, a: seq<int>, f0: int) {
    var n, j := |a|, WordBits(f);
    var tree := Build(j, Seen(f, a, f0));
    if n == 0 then false
    else if f0 !in a then n <= WordCount(f)
    else if Truncated(f, a, f0) then n == 1 && (1 + a[n - 1]) % Pow2(j) == 0
    else if Stale(f, a) !in Filtered(a, f0) then
      n == WordCount(f) + 1 && At(tree, n) && Elem(tree, n) == Stale(f, a)
    else
      Passes(j, Filtered(a, f0), Stale(f, a)) && !(n == WordCount(f) + 1 && At(tree, n))
  }

  // ----- positions and frequencies -----

  lemma PlacedOut(origin: int, xs: set<int>, y: int) returns (x: int)
    requires y in Placed(origin, xs)
    ensures x in xs && y == Wrap(origin + 1 + x, 1024)
  {
    x :| x in xs && y == Wrap(origin + 1 + x, 1024);
  }

  lemma PlacedSame(origin: int, x: int, y: int)
    requires 0 <= x < 1024 && 0 <= y < 1024 && Wrap(origin + 1 + x, 1024) == Wrap(origin + 1 + y, 1024)
    ensures x == y
  {
    WrapEqual(x, y, -(origin + 1), 1024);
  }

  lemma PlacedSubset(origin: int, xs: set<int>, ys: set<int>)
    requires OnCircle(1023, xs) && OnCircle(1023, ys) && Placed(origin, xs) <= Placed(origin, ys)
    ensures xs <= ys
  {
    forall x | x in xs ensures x in ys {
      assert Wrap(origin + 1 + x, 1024) in Placed(origin, xs);
      var y := PlacedOut(origin, ys, Wrap(origin + 1 + x, 1024));
      PlacedSame(origin, x, y);
    }
  }

  /** No position behind an origin is the origin itself. */
  lemma OriginNotPlaced(origin: int, xs: set<int>)
    requires OnCircle(1023, xs) && 0 <= origin < 1024
    ensures origin !in Placed(origin, xs)
  {
    forall x | x in xs ensures Wrap(origin + 1 + x, 1024) != origin {
      WrapAdd(origin + 1 + x, -origin, 1024);
      assert Wrap(1 + x, 1024) == 1 + x;
    }
  }

  /** Elements with F0 are the same exactly if they show the same positions. */
  lemma MeantSame(f: Format, f0: nat, xs: set<int>, ys: set<int>)
    requires OnCircle(1023, xs) && OnCircle(1023, ys) && f0 < 1024 && (f.Range1024? ==> f0 == 0)
    ensures Meant(f, f0, true, xs) == Meant(f, f0, true, ys) <==> xs == ys
  {
    if Meant(f, f0, true, xs) == Meant(f, f0, true, ys) {
      OriginNotPlaced(f0, xs);
      OriginNotPlaced(f0, ys);
      assert Placed(f0, xs) == Meant(f, f0, true, xs) - {f0};
      assert Placed(f0, ys) == Meant(f, f0, true, ys) - {f0};
      PlacedSubset(f0, xs, ys);
      PlacedSubset(f0, ys, xs);
    }
  }

  // ----- the root as it is, on the circle -----

  lemma {:induction false} DistinctSize(m: int, s: seq<int>)
    requires WellFormed(m, s)
    ensures |ToSet(s)| == |s|
  {
    if s != [] {
      DistinctSize(m, s[..|s| - 1]);
      assert ToSet(s) == ToSet(s[..|s| - 1]) + {s[|s| - 1]};
    }
  }

  lemma SeenSet(f: Format, a: seq<int>, f0: int)
    requires IsArfcnList(a) && f0 in a
    ensures ToSet(Seen(f, a, f0)) == ToSet(Filtered(a, f0)) + {Stale(f, a)}
  {
    assert Seen(f, a, f0) == Filtered(a, f0) + [Stale(f, a)];
  }

  /** Without a collision everything is distinct. */
  lemma SeenEncodable(f: Format, a: seq<int>, f0: int)
    requires IsArfcnList(a) && DetermineRange(a, f0) == Chosen(f, f0) && f0 in a && Stale(f, a) !in Filtered(a, f0)
    ensures Encodable(WordBits(f), Seen(f, a, f0))
  {
    FilteredEncodable(a, f, f0);
    var s := Seen(f, a, f0);
    assert s[..|s| - 1] == Filtered(a, f0) && s[|s| - 1] == Stale(f, a);
  }

  /** What the words of the tree show, for at most one value more than there are words. */
  lemma ShownOf(f: Format, a: seq<int>, f0: int)
    requires IsArfcnList(a) && DetermineRange(a, f0) == Chosen(f, f0) && f0 in a
    ensures var tree := Build(WordBits(f), Seen(f, a, f0));
      && InRange(WordBits(f), tree) && Within(|a|, tree) && |a| <= WordCount(f) + 1
      && Shown(tree, 1, WordCount(f))
         == Members(tree) - if |a| == WordCount(f) + 1 && At(tree, |a|) then {Elem(tree, |a|)} else {}
  {
    var j, s := WordBits(f), Seen(f, a, f0);
    var tree := Build(j, s);
    SeenBounded(f, a, f0);
    SeenSize(f, a, f0);
    ChosenFew(f, a, f0);
    BuildInRange(j, s);
    BuildWithin(j, s);
    ShownFor(f, |a|, tree);
  }

  lemma ChosenFew(f: Format, a: seq<int>, f0: int)
    requires DetermineRange(a, f0) == Chosen(f, f0)
    ensures |a| <= WordCount(f) + 1
  {
  }

  lemma ShownFor(f: Format, n: nat, tree: Tree)
    requires InRange(WordBits(f), tree) && Within(n, tree) && n <= WordCount(f) + 1
    ensures Shown(tree, 1, WordCount(f))
            == Members(tree) - if n == WordCount(f) + 1 && At(tree, n) then {Elem(tree, n)} else {}
  {
    if n == WordCount(f) + 1 {
      ShownButLast(WordBits(f), tree, n);
    } else {
      WithinMore(n, WordCount(f), tree);
      ShownAll(tree, WordCount(f));
    }
  }

  /** With the root as it is, the positions shown are the list's own exactly as Announced says. */
  lemma PlainRight(f: Format, a: seq<int>, f0: int)
    requires IsArfcnList(a) && DetermineRange(a, f0) == Chosen(f, f0) && f0 in a && !Truncated(f, a, f0)
    ensures Shown(Build(WordBits(f), Seen(f, a, f0)), 1, WordCount(f)) == ToSet(Filtered(a, f0)) <==> Announced(f, a, f0)
  {
    var j, s, own := WordBits(f), Seen(f, a, f0), ToSet(Filtered(a, f0));
    var tree := Build(j, s);
    ShownOf(f, a, f0);
    SeenSet(f, a, f0);
    if Stale(f, a) !in Filtered(a, f0) {
      SeenEncodable(f, a, f0);
      BuildMembers(j, s);
      FreshRight(tree, |a|, WordCount(f), own, Stale(f, a));
    } else {
      assert own + {Stale(f, a)} == own;
      SeenBounded(f, a, f0);
      TreeMembers(j, s, tree);
      FilteredEncodable(a, f, f0);
      SplitsPath(j, Filtered(a, f0), Stale(f, a));
      if At(tree, |a|) {
        ElemIsMember(tree, |a|);
      }
    }
  }

  lemma FreshRight(tree: Tree, n: nat, words: nat, own: set<int>, stale: int)
    requires Members(tree) == own + {stale} && stale !in own
    ensures Members(tree) - (if n == words + 1 && At(tree, n) then {Elem(tree, n)} else {}) == own
            <==> n == words + 1 && At(tree, n) && Elem(tree, n) == stale
  {
    if n == words + 1 && At(tree, n) {
      if Elem(tree, n) != stale {
        assert stale in Members(tree) - {Elem(tree, n)};
      }
    } else {
      assert stale in Members(tree) - {};
    }
  }

  // ----- the root cut to its field -----

  /** A stale value that is also in the list is never the first pivot. */
  lemma TruncatedFresh(f: Format, a: seq<int>, f0: int)
    requires IsArfcnList(a) && DetermineRange(a, f0) == Chosen(f, f0) && Truncated(f, a, f0)
    ensures Stale(f, a) !in Filtered(a, f0)
  {
    var s, m := Seen(f, a, f0), RangeOf(f);
    SeenSize(f, a, f0);
    if Stale(f, a) in Filtered(a, f0) {
      var k :| 0 <= k < |Filtered(a, f0)| && Filtered(a, f0)[k] == Stale(f, a);
      FirstPivotIs(m, s, 0);
      assert s[k] == s[|a| - 1];
      FirstPivotFinds(m, s, 0, k);
    }
  }

  /** The value a word stands for; 0 works like the whole circle. */
  function ValueOf(m: int, x: int): int {
    if x == 0 then m - 1 else x - 1
  }

  /** d places before v. */
  function Back(m: int, v: int, d: int): int {
    if v >= d then v - d else v - d + m
  }

  /** How often an ARFCN goes round the circle of a format. */
  function MaxTurn(f: Format): int {
    match f case Range128 => 8 case Range256 => 4 case Range512 => 2 case Range1024 => 1
  }

  /** On 127, 255, 511 or 1023 places, cutting 1 + last to the field turns the root back by d places. */
  lemma CutTurns(f: Format, last: int) returns (d: int, x: nat)
    requires RangeOf(f) <= last <= 1023
    ensures 1 <= d <= MaxTurn(f) && x == (1 + last) % Pow2(WordBits(f)) <= RangeOf(f)
    ensures ValueOf(RangeOf(f), x) == Back(RangeOf(f), Wrap(last, RangeOf(f)), d)
  {
    var m := RangeOf(f);
    FormatRanges();
    WrapIsMod(last, m);
    var q, v := last / m, last % m;
    x := (1 + last) % Pow2(WordBits(f));
    TurnsOf(f, last);
    CutPlace(m, last, q, v, x);
    d := if v + 1 >= q then q else q - 1;
  }

  lemma TurnsOf(f: Format, last: int)
    requires 0 <= last <= 1023
    ensures last / RangeOf(f) <= MaxTurn(f) <= RangeOf(f)
  {
    assert last / 127 <= 8 && last / 255 <= 4 && last / 511 <= 2 && last / 1023 <= 1;
  }

  lemma CutPlace(m: int, last: int, q: int, v: int, x: int)
    requires m > 0 && last == q * m + v && 0 <= v < m <= last && q <= m && x == (1 + last) % (m + 1)
    ensures x == (if v + 1 >= q then v + 1 - q else v + 1 - q + m + 1) && q >= 1 && x <= m
    ensures v + 1 < q ==> q >= 2
  {
    if v + 1 >= q {
      assert 1 + last == q * (m + 1) + (v + 1 - q);
      ModUnique(1 + last, m + 1, q, v + 1 - q);
    } else {
      assert 1 + last == (q - 1) * (m + 1) + (v + 1 - q + m + 1);
      ModUnique(1 + last, m + 1, q - 1, v + 1 - q + m + 1);
    }
  }

  lemma StepsFor(f: Format, d: int)
    requires 1 <= d <= MaxTurn(f)
    ensures Legs(RangeOf(f), d, 0, WordCount(f), WordCount(f) / 2 - 1)
  {
    match f {
      case Range128 => StepsOn127(RangeOf(f), d);
      case Range256 => StepsOnMore(RangeOf(f), d, 21);
      case Range512 => StepsOnMore(RangeOf(f), d, 17);
      case Range1024 => StepsOnMore(RangeOf(f), d, 16);
    }
  }

  /** Turning back by v - c is turning back by d. */
  lemma TurnSame(m: int, v: int, c: int, d: int, xs: set<int>)
    requires m > 0 && 0 <= v < m && 1 <= d <= m && c == Back(m, v, d)
    ensures Turn(m, v - c, xs) == Turn(m, d, xs)
  {
    forall x | x in xs ensures Wrap(x - (v - c), m) == Wrap(x - d, m) {
      if v < d {
        WrapPeriod(x - d, m);
        assert x - (v - c) == x - d + m;
      } else {
        assert v - c == d;
      }
    }
  }

  /** A set that turning back by d does not change is empty, if it is small. */
  lemma TurnedSame(m: int, d: int, own: set<int>, k: nat, n: nat)
    requires m > 0 && 1 <= d <= m && OnCircle(m, own) && |own| <= k && Legs(m, d, 0, k, n) && Turn(m, d, own) == own
    ensures own == {}
  {
    TurnedCloses(m, d, own);
    if x :| x in own {
      StaysLarge(m, d, own, x, k);
    }
  }

  lemma TurnedCloses(m: int, d: int, own: set<int>)
    requires m > 0 && OnCircle(m, own) && Turn(m, d, own) == own
    ensures Closed(m, d, own)
  {
    forall y | y in own ensures Stepped(m, d, y) in own {
      TurnedFrom(m, d, own, y);
    }
  }

  /** A step from a place that was turned back by d leads to where it was. */
  lemma TurnedFrom(m: int, d: int, xs: set<int>, y: int)
    requires m > 0 && OnCircle(m, xs) && y in Turn(m, d, xs)
    ensures Stepped(m, d, y) in xs
  {
    var z := TurnOut(m, d, xs, y);
    TurnBack(m, d, z);
  }

  /** If all but one of own and v, turned back by d, are own again, own leads to v in steps of d. */
  lemma TurnedSteps(m: int, d: int, own: set<int>, v: int, xs: set<int>)
    requires m > 0 && OnCircle(m, own) && 0 <= v < m && xs <= own + {v} && Turn(m, d, xs) == own
    ensures StepsTo(m, d, own, v)
  {
    forall y | y in own ensures Stepped(m, d, y) in own || Stepped(m, d, y) == v {
      TurnedFrom(m, d, xs, y);
    }
  }

  /** Then v is no pivot: too little of the list lies ahead of it. */
  lemma NoPivotAtEnd(f: Format, a: seq<int>, f0: int, d: int)
    requires IsArfcnList(a) && DetermineRange(a, f0) == Chosen(f, f0) && Truncated(f, a, f0)
    requires 1 <= d <= MaxTurn(f) && |a| == WordCount(f) + 1
    ensures !StepsTo(RangeOf(f), d, ToSet(Filtered(a, f0)), Stale(f, a))
  {
    var own, v := ToSet(Filtered(a, f0)), Stale(f, a);
    OwnOnCircle(f, a, f0);
    OwnSize(f, a, f0);
    AheadOfPivot(f, a, f0);
    if StepsTo(RangeOf(f), d, own, v) {
      FewAhead(f, own, v, d);
    }
  }

  lemma FewAhead(f: Format, own: set<int>, v: int, d: int)
    requires OnCircle(RangeOf(f), own) && 0 <= v < RangeOf(f) && |own| <= WordCount(f)
    requires 1 <= d <= MaxTurn(f) && StepsTo(RangeOf(f), d, own, v)
    ensures |AfterSet(RangeOf(f), own, v)| < WordCount(f) / 2
  {
    StepsFor(f, d);
    AheadBound(RangeOf(f), d, own, v, WordCount(f));
  }

  lemma OwnSize(f: Format, a: seq<int>, f0: int)
    requires IsArfcnList(a) && DetermineRange(a, f0) == Chosen(f, f0) && f0 in a
    ensures |ToSet(Filtered(a, f0))| == |a| - 1 <= WordCount(f)
  {
    FilteredEncodable(a, f, f0);
    FilteredSize(a, f0);
    DistinctSize(RangeOf(f), Filtered(a, f0));
  }

  /** The pivot has exactly half of the others ahead of it. */
  lemma AheadOfPivot(f: Format, a: seq<int>, f0: int)
    requires IsArfcnList(a) && DetermineRange(a, f0) == Chosen(f, f0) && Truncated(f, a, f0)
    ensures |AfterSet(RangeOf(f), ToSet(Filtered(a, f0)), Stale(f, a))| == (|a| - 1) / 2
  {
    var s, m, v := Seen(f, a, f0), RangeOf(f), Stale(f, a);
    TruncatedFresh(f, a, f0);
    SeenEncodable(f, a, f0);
    SeenSize(f, a, f0);
    RangeOdd(WordBits(f));
    FirstPivotIs(m, s, 0);
    HalfAhead(m, s, |a| - 1);
    SeenSet(f, a, f0);
    AheadOfItself(m, ToSet(Filtered(a, f0)), v);
  }

  lemma HalfAhead(m: int, s: seq<int>, i: nat)
    requires m > 0 && m % 2 == 1 && WellFormed(m, s) && i < |s| && IsPivot(m, s, i)
    ensures |AfterSet(m, ToSet(s), s[i])| == (|s| - 1) / 2
  {
    PivotCounts(m, s, i);
    HitsMember(m, s, i);
    HitsAtMostOne(m, s, s[i]);
    AfterIsSize(m, s, s[i]);
  }

  lemma AheadOfItself(m: int, own: set<int>, v: int)
    requires m > 0
    ensures AfterSet(m, own + {v}, v) == AfterSet(m, own, v)
  {
    assert v - v == 0;
  }

  /** The tree behind a cut root: the list's own positions and the stale one, which is its value. */
  lemma CutTree(f: Format, a: seq<int>, f0: int)
    requires IsArfcnList(a) && DetermineRange(a, f0) == Chosen(f, f0) && Truncated(f, a, f0)
    ensures var tree := Build(WordBits(f), Seen(f, a, f0));
      && tree.Node? && tree.modulus == RangeOf(f) && tree.value == Stale(f, a)
      && Members(tree) == ToSet(Filtered(a, f0)) + {Stale(f, a)} && Stale(f, a) !in ToSet(Filtered(a, f0))
      && Balanced(|a|, tree)
  {
    var j, s := WordBits(f), Seen(f, a, f0);
    TruncatedFresh(f, a, f0);
    SeenEncodable(f, a, f0);
    SeenSize(f, a, f0);
    BuildBalanced(j, s);
    BuildMembers(j, s);
    SeenSet(f, a, f0);
    assert s[|a| - 1] == Stale(f, a);
  }

  /** What is known behind a cut root: n values, all but the stale one the list's own, and those do not
      lead to it in steps of d if they are one too many for the words. */
  ghost predicate Cut(f: Format, n: nat, own: set<int>, stale: int, tree: Tree, d: int) {
    IsRoot(f, n, own, stale, tree) && TurnsAway(f, n, own, stale, d)
  }

  predicate IsRoot(f: Format, n: nat, own: set<int>, stale: int, tree: Tree) {
    && tree.Node? && tree.modulus == RangeOf(f) && tree.value == stale && stale !in own
    && Members(tree) == own + {stale} && InRange(WordBits(f), tree) && Balanced(n, tree) && n <= WordCount(f) + 1
  }

  ghost predicate TurnsAway(f: Format, n: nat, own: set<int>, stale: int, d: int) {
    var m := RangeOf(f);
    && OnCircle(m, own) && 0 <= stale < m && |own| == n - 1
    && 1 <= d <= m && Legs(m, d, 0, WordCount(f), WordCount(f) / 2 - 1)
    && (n == WordCount(f) + 1 ==> !StepsTo(m, d, own, stale))
  }

  /** One place more cannot turn into fewer. */
  lemma TurnedTooMany(m: int, d: int, own: set<int>, v: int)
    requires m > 0 && OnCircle(m, own) && 0 <= v < m && v !in own
    ensures Turn(m, d, own + {v}) != own
  {
    TurnSize(m, d, own + {v});
  }

  lemma CutShown(f: Format, n: nat, own: set<int>, stale: int, tree: Tree, d: int)
    requires Cut(f, n, own, stale, tree, d)
    ensures Shown(tree, 1, WordCount(f)) <= own + {stale}
    ensures n <= WordCount(f) ==> Shown(tree, 1, WordCount(f)) == own + {stale}
  {
    BalancedWithin(n, tree);
    if n <= WordCount(f) {
      WithinMore(n, WordCount(f), tree);
      ShownAll(tree, WordCount(f));
    } else {
      ShownButLast(WordBits(f), tree, n);
    }
  }

  /** With a word left at the root, the positions are never the list's own. */
  lemma CutWrong(f: Format, n: nat, own: set<int>, stale: int, tree: Tree, d: int)
    requires Cut(f, n, own, stale, tree, d)
    ensures Turn(RangeOf(f), d, Shown(tree, 1, WordCount(f))) != own
  {
    CutShown(f, n, own, stale, tree, d);
    if n <= WordCount(f) {
      TurnedTooMany(RangeOf(f), d, own, stale);
    } else if Turn(RangeOf(f), d, Shown(tree, 1, WordCount(f))) == own {
      TurnedSteps(RangeOf(f), d, own, stale, Shown(tree, 1, WordCount(f)));
    }
  }

  lemma CutShownBelow(f: Format, n: nat, own: set<int>, stale: int, tree: Tree, d: int)
    requires Cut(f, n, own, stale, tree, d)
    ensures if n <= WordCount(f) then Shown(tree, 2, WordCount(f)) == own
            else Shown(tree, 2, WordCount(f)) <= own && |Shown(tree, 2, WordCount(f))| < |own|
  {
    BalancedWithin(n, tree);
    assert own + {stale} - {stale} == own;
    if n <= WordCount(f) {
      WithinMore(n, WordCount(f), tree);
      ShownButFirst(WordBits(f), tree, WordCount(f));
    } else {
      ShownFew(WordBits(f), tree, n);
    }
  }

  /** With the root cut to 0, they are the list's own exactly if nothing else is there. */
  lemma CutToZero(f: Format, n: nat, own: set<int>, stale: int, tree: Tree, d: int)
    requires Cut(f, n, own, stale, tree, d)
    ensures Turn(RangeOf(f), d, Shown(tree, 2, WordCount(f))) == own <==> n == 1
  {
    var m := RangeOf(f);
    CutShownBelow(f, n, own, stale, tree, d);
    if n > WordCount(f) {
      TurnSize(m, d, Shown(tree, 2, WordCount(f)));
    } else {
      assert Turn(m, d, {}) == {};
      if Turn(m, d, own) == own {
        TurnedSame(m, d, own, WordCount(f), WordCount(f) / 2 - 1);
      }
    }
  }

  // ----- decoding what is sent -----

  /** The element stands for F0 and exactly these positions behind it. */
  predicate Shows(buf: seq<Octet>, f: Format, f0: nat, xs: set<int>)
    requires |buf| == OCTETS
  {
    DecodeFreqList(buf) == Arfcns(Meant(f, f0, true, xs))
  }

  lemma WordsCut(w: seq<nat>, tree: Tree, raw: int, c: int)
    requires |w| > 0 && tree.Node? && WordsFrom(w, tree.(value := raw)) && c >= 0
    ensures WordsFrom(w[0 := 1 + c], tree.(value := c)) && w[0] == 1 + raw
  {
    assert At(tree.(value := raw), 1);
    forall t: nat | 1 <= t <= |w|
      ensures w[0 := 1 + c][t - 1] == if At(tree.(value := c), t) then Word(tree.(value := c), t) else 0 {
      WordsStay(tree, raw, t);
      WordsStay(tree, c, t);
    }
  }

  /** The element with a cut root shows the tree with another value there, or none. */
  lemma CutDecodes(buf: seq<Octet>, f: Format, f0: nat, w: seq<nat>, tree: Tree, raw: nat, x: nat, c: int)
    requires f0 < 1024 && |w| == WordCount(f) && Packed(buf, f, f0, f.Range1024?, w)
    requires tree.Node? && InRange(WordBits(f), tree) && WordsFrom(w, tree.(value := raw))
    requires x == Low(1 + raw, WordBits(f)) <= RangeOf(f) && c == ValueOf(RangeOf(f), x)
    ensures Shows(buf, f, f0, Shown(tree.(value := c), if x == 0 then 2 else 1, WordCount(f)))
  {
    CutWords(w, tree, raw, c, x);
    PackedCut(buf, f, f0, w, x);
    RootInRange(f, tree, x, c);
    CutElement(buf, f, f0, w[0 := x], tree.(value := c), x);
  }

  lemma PackedCut(buf: seq<Octet>, f: Format, f0: nat, w: seq<nat>, x: nat)
    requires |w| == WordCount(f) && Packed(buf, f, f0, f.Range1024?, w) && x == Low(w[0], WordBits(f))
    ensures Packed(buf, f, f0, f.Range1024?, w[0 := x])
  {
    PackedLow(buf, f, f0, f.Range1024?, w);
  }

  lemma RootInRange(f: Format, tree: Tree, x: nat, c: int)
    requires tree.Node? && InRange(WordBits(f), tree) && x <= RangeOf(f) && c == ValueOf(RangeOf(f), x)
    ensures c >= 0 && InRange(WordBits(f), tree.(value := c))
  {
  }

  lemma CutWords(w: seq<nat>, tree: Tree, raw: int, c: int, x: nat)
    requires |w| > 0 && tree.Node? && WordsFrom(w, tree.(value := raw)) && c >= 0
    ensures WordsFrom(w[0 := x][0 := 1 + c], tree.(value := c)) && w[0] == 1 + raw
  {
    WordsCut(w, tree, raw, c);
    assert w[0 := x][0 := 1 + c] == w[0 := 1 + c];
  }

  /** There is such a tree, and the words are its own but for the first, which is made of raw. */
  ghost predicate HasCut(f: Format, n: nat, own: set<int>, stale: int, d: int, w: seq<nat>, raw: int) {
    exists tree :: Cut(f, n, own, stale, tree, d) && WordsFrom(w, tree.(value := raw))
  }

  /** Whatever the cut leaves, the element is right exactly if it leaves nothing and nothing else is there. */
  lemma CutRight(buf: seq<Octet>, f: Format, n: nat, own: set<int>, stale: int, d: int,
                 f0: nat, w: seq<nat>, raw: nat, x: nat)
    requires HasCut(f, n, own, stale, d, w, raw) && f0 < 1024 && (f.Range1024? ==> f0 == 0)
    requires |w| == WordCount(f) && Packed(buf, f, f0, f.Range1024?, w)
    requires x == Low(1 + raw, WordBits(f)) <= RangeOf(f) && ValueOf(RangeOf(f), x) == Back(RangeOf(f), stale, d)
    ensures DecodeFreqList(buf) == Arfcns(Meant(f, f0, true, own)) <==> n == 1 && x == 0
  {
    var c := ValueOf(RangeOf(f), x);
    var tree :| Cut(f, n, own, stale, tree, d) && WordsFrom(w, tree.(value := raw));
    CutDecodes(buf, f, f0, w, tree, raw, x, c);
    CutPositions(f, n, own, stale, tree, d, x, c);
    MeantSame(f, f0, Shown(tree.(value := c), if x == 0 then 2 else 1, WordCount(f)), own);
  }

  lemma CutPositions(f: Format, n: nat, own: set<int>, stale: int, tree: Tree, d: int, x: nat, c: int)
    requires Cut(f, n, own, stale, tree, d) && c == Back(RangeOf(f), stale, d)
    ensures var shown := Shown(tree.(value := c), if x == 0 then 2 else 1, WordCount(f));
            OnCircle(1023, shown) && OnCircle(1023, own) && (shown == own <==> n == 1 && x == 0)
  {
    TurnedShown(f, tree, d, c, if x == 0 then 2 else 1);
    if x == 0 {
      CutToZero(f, n, own, stale, tree, d);
    } else {
      CutWrong(f, n, own, stale, tree, d);
    }
  }

  lemma TurnedShown(f: Format, tree: Tree, d: int, c: int, from: nat)
    requires tree.Node? && InRange(WordBits(f), tree) && 1 <= d <= RangeOf(f) && c == Back(RangeOf(f), tree.value, d)
    ensures Shown(tree.(value := c), from, WordCount(f)) == Turn(RangeOf(f), d, Shown(tree, from, WordCount(f)))
    ensures OnCircle(1023, Shown(tree.(value := c), from, WordCount(f)))
  {
    ShownTurns(WordBits(f), tree, c, from, WordCount(f));
    TurnSame(RangeOf(f), tree.value, c, d, Shown(tree, from, WordCount(f)));
    TurnOnCircle(RangeOf(f), d, Shown(tree, from, WordCount(f)));
  }

  lemma TurnOnCircle(m: int, d: int, xs: set<int>)
    requires 0 < m <= 1023
    ensures OnCircle(1023, Turn(m, d, xs))
  {
  }

  /** What range_encode builds is what search and split see, with the raw value at the root. */
  lemma RawTree(f: Format, a: seq<int>, f0: int)
    requires IsArfcnList(a) && Truncated(f, a, f0)
    ensures Build(WordBits(f), Seen(f, a, f0)).Node?
    ensures Build(WordBits(f), PassedOn(a, f0)) == Build(WordBits(f), Seen(f, a, f0)).(value := a[|a| - 1])
  {
    SeenAlike(f, a, f0);
    SeenSize(f, a, f0);
    BuildLike(WordBits(f), PassedOn(a, f0), Seen(f, a, f0));
    assert PassedOn(a, f0)[|a| - 1] == a[|a| - 1];
  }

  lemma CutElement(buf: seq<Octet>, f: Format, f0: nat, w: seq<nat>, tree: Tree, x: int)
    requires |w| == WordCount(f) && w[0] == x <= RangeOf(f) && f0 < 1024 && Packed(buf, f, f0, f.Range1024?, w)
    requires InRange(WordBits(f), tree) && tree.Node? && tree.value == ValueOf(RangeOf(f), x)
    requires WordsFrom(w[0 := 1 + tree.value], tree)
    ensures Shows(buf, f, f0, Shown(tree, if x == 0 then 2 else 1, WordCount(f)))
  {
    if x == 0 {
      assert w[0 := 1 + tree.value] == w[0 := RangeOf(f)];
      ZeroDecodes(buf, f, f0, f.Range1024?, w, tree);
    } else {
      assert w[0 := 1 + tree.value] == w;
      PackedDecodes(buf, f, f0, f.Range1024?, w, tree);
    }
  }

  // ----- the two functions -----

  /** The element is right exactly as Announced says. */
  lemma SentRight(buf: seq<Octet>, a: seq<int>, f: Format, f0: nat, w: seq<nat>)
    requires IsArfcnList(a) && DetermineRange(a, f0) == Chosen(f, f0) && f0 < 1024
    requires |w| == WordCount(f) && WordsFrom(w, Build(WordBits(f), PassedOn(a, f0)))
    requires Packed(buf, f, f0, f0 in a && f.Range1024?, w) && (a == [] || Found(WordBits(f), PassedOn(a, f0)))
    ensures DecodeFreqList(buf) == Arfcns(ToSet(a)) <==> Announced(f, a, f0)
  {
    if f0 !in a {
      assert PassedOn(a, f0) == Filtered(a, f0);
      FilteredEncodable(a, f, f0);
      RoundTrip(buf, a, f, f0, w);
      if a != [] {
        Capacity(a, f, f0);
        FilteredSize(a, f0);
      }
    } else {
      Capacity(a, f, f0);
      MeantIsList(a, f, f0);
      if Truncated(f, a, f0) {
        TruncatedRight(buf, a, f, f0, w);
      } else {
        PlainDecodes(buf, a, f, f0, w);
        PlainRight(f, a, f0);
      }
    }
  }

  lemma TruncatedRight(buf: seq<Octet>, a: seq<int>, f: Format, f0: nat, w: seq<nat>)
    requires IsArfcnList(a) && DetermineRange(a, f0) == Chosen(f, f0) && f0 < 1024 && Truncated(f, a, f0)
    requires |w| == WordCount(f) && WordsFrom(w, Build(WordBits(f), PassedOn(a, f0)))
    requires Packed(buf, f, f0, f.Range1024?, w)
    ensures Shows(buf, f, f0, ToSet(Filtered(a, f0))) <==> Announced(f, a, f0)
  {
    AnnouncedCut(f, a, f0);
    ZeroOrigin(a, f, f0);
    CutSome(f, a, f0, w);
    CutMeans(buf, f, |a|, ToSet(Filtered(a, f0)), Stale(f, a), f0, w, a[|a| - 1]);
  }

  /** The words are those of such a tree, for the turn that cutting raw causes. */
  ghost predicate IsCutBy(f: Format, n: nat, own: set<int>, stale: int, w: seq<nat>, raw: nat) {
    exists d: int ::
      && HasCut(f, n, own, stale, d, w, raw) && Low(1 + raw, WordBits(f)) <= RangeOf(f)
      && ValueOf(RangeOf(f), Low(1 + raw, WordBits(f))) == Back(RangeOf(f), stale, d)
  }

  lemma CutSome(f: Format, a: seq<int>, f0: int, w: seq<nat>)
    requires IsArfcnList(a) && DetermineRange(a, f0) == Chosen(f, f0) && Truncated(f, a, f0)
    requires WordsFrom(w, Build(WordBits(f), PassedOn(a, f0)))
    ensures IsCutBy(f, |a|, ToSet(Filtered(a, f0)), Stale(f, a), w, a[|a| - 1])
  {
    var d, x := StaleTurns(f, a);
    var tree := Build(WordBits(f), Seen(f, a, f0));
    RawWords(f, a, f0, w, tree);
    IsCut(f, a, f0, d, tree);
    assert HasCut(f, |a|, ToSet(Filtered(a, f0)), Stale(f, a), d, w, a[|a| - 1]);
  }

  lemma CutMeans(buf: seq<Octet>, f: Format, n: nat, own: set<int>, stale: int, f0: nat, w: seq<nat>, raw: nat)
    requires IsCutBy(f, n, own, stale, w, raw) && f0 < 1024 && (f.Range1024? ==> f0 == 0)
    requires |w| == WordCount(f) && Packed(buf, f, f0, f.Range1024?, w)
    ensures Shows(buf, f, f0, own) <==> n == 1 && Low(1 + raw, WordBits(f)) == 0
  {
    var d: int :|
      && HasCut(f, n, own, stale, d, w, raw) && Low(1 + raw, WordBits(f)) <= RangeOf(f)
      && ValueOf(RangeOf(f), Low(1 + raw, WordBits(f))) == Back(RangeOf(f), stale, d);
    CutRight(buf, f, n, own, stale, d, f0, w, raw, Low(1 + raw, WordBits(f)));
  }

  lemma ZeroOrigin(a: seq<int>, f: Format, f0: int)
    requires IsArfcnList(a) && a != [] && DetermineRange(a, f0) == Chosen(f, f0)
    ensures f.Range1024? ==> f0 == 0
  {
    Capacity(a, f, f0);
  }

  lemma RawWords(f: Format, a: seq<int>, f0: int, w: seq<nat>, tree: Tree)
    requires IsArfcnList(a) && Truncated(f, a, f0) && tree == Build(WordBits(f), Seen(f, a, f0))
    requires WordsFrom(w, Build(WordBits(f), PassedOn(a, f0)))
    ensures tree.Node? && WordsFrom(w, tree.(value := a[|a| - 1]))
  {
    RawTree(f, a, f0);
  }

  lemma StaleTurns(f: Format, a: seq<int>) returns (d: int, x: nat)
    requires IsArfcnList(a) && a != [] && a[|a| - 1] >= RangeOf(f)
    ensures 1 <= d <= MaxTurn(f) && x == Low(1 + a[|a| - 1], WordBits(f)) <= RangeOf(f)
    ensures ValueOf(RangeOf(f), x) == Back(RangeOf(f), Stale(f, a), d)
  {
    d, x := CutTurns(f, a[|a| - 1]);
    LowIsMod(1 + a[|a| - 1], WordBits(f));
  }

  lemma IsCut(f: Format, a: seq<int>, f0: int, d: int, tree: Tree)
    requires IsArfcnList(a) && DetermineRange(a, f0) == Chosen(f, f0) && Truncated(f, a, f0)
    requires tree == Build(WordBits(f), Seen(f, a, f0)) && 1 <= d <= MaxTurn(f)
    ensures Cut(f, |a|, ToSet(Filtered(a, f0)), Stale(f, a), tree, d)
  {
    IsCutRoot(f, a, f0, tree);
    IsCutAway(f, a, f0, d);
  }

  lemma IsCutRoot(f: Format, a: seq<int>, f0: int, tree: Tree)
    requires IsArfcnList(a) && DetermineRange(a, f0) == Chosen(f, f0) && Truncated(f, a, f0)
    requires tree == Build(WordBits(f), Seen(f, a, f0))
    ensures IsRoot(f, |a|, ToSet(Filtered(a, f0)), Stale(f, a), tree)
  {
    CutTree(f, a, f0);
    ShownOf(f, a, f0);
  }

  lemma IsCutAway(f: Format, a: seq<int>, f0: int, d: int)
    requires IsArfcnList(a) && DetermineRange(a, f0) == Chosen(f, f0) && Truncated(f, a, f0)
    requires 1 <= d <= MaxTurn(f)
    ensures TurnsAway(f, |a|, ToSet(Filtered(a, f0)), Stale(f, a), d)
  {
    OwnOnCircle(f, a, f0);
    OwnSize(f, a, f0);
    StepsFor(f, d);
    if |a| == WordCount(f) + 1 {
      NoPivotAtEnd(f, a, f0, d);
    }
  }

  lemma OwnOnCircle(f: Format, a: seq<int>, f0: int)
    requires IsArfcnList(a) && DetermineRange(a, f0) == Chosen(f, f0)
    ensures OnCircle(RangeOf(f), ToSet(Filtered(a, f0)))
  {
    SeenBounded(f, a, f0);
  }

  lemma AnnouncedCut(f: Format, a: seq<int>, f0: int)
    requires a != [] && Truncated(f, a, f0)
    requires IsArfcnList(a)
    ensures Announced(f, a, f0) <==> |a| == 1 && Low(1 + a[|a| - 1], WordBits(f)) == 0
  {
    LowIsMod(1 + a[|a| - 1], WordBits(f));
  }

  /** With the root as it is, the element shows the tree that search and split see. */
  lemma PlainDecodes(buf: seq<Octet>, a: seq<int>, f: Format, f0: nat, w: seq<nat>)
    requires IsArfcnList(a) && DetermineRange(a, f0) == Chosen(f, f0) && f0 < 1024 && f0 in a && !Truncated(f, a, f0)
    requires |w| == WordCount(f) && WordsFrom(w, Build(WordBits(f), PassedOn(a, f0)))
    requires Packed(buf, f, f0, f.Range1024?, w)
    ensures var shown := Shown(Build(WordBits(f), Seen(f, a, f0)), 1, WordCount(f));
      && DecodeFreqList(buf) == Arfcns(Meant(f, f0, true, shown))
      && (DecodeFreqList(buf) == Arfcns(Meant(f, f0, true, ToSet(Filtered(a, f0)))) <==> shown == ToSet(Filtered(a, f0)))
  {
    var tree := Build(WordBits(f), Seen(f, a, f0));
    PlainShows(buf, a, f, f0, w, tree);
    ShownOf(f, a, f0);
    SeenBounded(f, a, f0);
    ShownOnCircle(f, tree, WordCount(f));
    Capacity(a, f, f0);
    MeantSame(f, f0, Shown(tree, 1, WordCount(f)), ToSet(Filtered(a, f0)));
  }

  lemma PlainShows(buf: seq<Octet>, a: seq<int>, f: Format, f0: nat, w: seq<nat>, tree: Tree)
    requires IsArfcnList(a) && DetermineRange(a, f0) == Chosen(f, f0) && f0 < 1024 && f0 in a && !Truncated(f, a, f0)
    requires |w| == WordCount(f) && WordsFrom(w, Build(WordBits(f), PassedOn(a, f0)))
    requires Packed(buf, f, f0, f.Range1024?, w) && tree == Build(WordBits(f), Seen(f, a, f0))
    ensures DecodeFreqList(buf) == Arfcns(Meant(f, f0, true, Shown(tree, 1, WordCount(f))))
  {
    PlainTree(f, a, f0);
    ShownOf(f, a, f0);
    PackedDecodes(buf, f, f0, f.Range1024?, w, tree);
  }

  lemma ShownOnCircle(f: Format, tree: Tree, n: nat)
    requires InRange(WordBits(f), tree)
    ensures OnCircle(1023, Shown(tree, 1, n))
  {
    FormatRanges();
    forall t: nat | 1 <= t <= n && At(tree, t) ensures 0 <= Elem(tree, t) < 1023 {
      ElemBounds(WordBits(f), tree, t);
    }
  }

  lemma PlainTree(f: Format, a: seq<int>, f0: int)
    requires IsArfcnList(a) && f0 in a && !Truncated(f, a, f0)
    ensures Build(WordBits(f), PassedOn(a, f0)) == Build(WordBits(f), Seen(f, a, f0))
  {
    var j, p, s := WordBits(f), PassedOn(a, f0), Seen(f, a, f0);
    SeenAlike(f, a, f0);
    SeenSize(f, a, f0);
    BuildLike(j, p, s);
    if Found(j, p) {
      var i := PivotIndex(j, s);
      assert p[i] == s[i];
    }
  }

  /** The common case: F0 in the list, a word for every value, no collision, no cut. */
  predicate Common(f: Format, a: seq<int>, f0: int) {
    f0 in a && |a| <= WordCount(f) && Stale(f, a) !in Filtered(a, f0) && !Truncated(f, a, f0)
  }

  /** There the element announces the list and one ARFCN that is not in it. */
  lemma CommonSent(buf: seq<Octet>, a: seq<int>, f: Format, f0: nat, w: seq<nat>)
    requires IsArfcnList(a) && DetermineRange(a, f0) == Chosen(f, f0) && f0 < 1024 && Common(f, a, f0)
    requires |w| == WordCount(f) && WordsFrom(w, Build(WordBits(f), PassedOn(a, f0)))
    requires Packed(buf, f, f0, f.Range1024?, w)
    ensures DecodeFreqList(buf) == Arfcns(ToSet(a) + {Wrap(f0 + 1 + Stale(f, a), 1024)})
  {
    PlainShows(buf, a, f, f0, w, Build(WordBits(f), Seen(f, a, f0)));
    CommonMeans(f, a, f0, Shown(Build(WordBits(f), Seen(f, a, f0)), 1, WordCount(f)));
  }

  lemma CommonMeans(f: Format, a: seq<int>, f0: nat, shown: set<int>)
    requires IsArfcnList(a) && DetermineRange(a, f0) == Chosen(f, f0) && Common(f, a, f0)
    requires shown == Shown(Build(WordBits(f), Seen(f, a, f0)), 1, WordCount(f))
    ensures Meant(f, f0, true, shown) == ToSet(a) + {Wrap(f0 + 1 + Stale(f, a), 1024)}
  {
    CommonShown(f, a, f0);
    MeantIsList(a, f, f0);
    Capacity(a, f, f0);
    MeantOneMore(f, f0, ToSet(Filtered(a, f0)), Stale(f, a));
  }

  lemma CommonShown(f: Format, a: seq<int>, f0: int)
    requires IsArfcnList(a) && DetermineRange(a, f0) == Chosen(f, f0) && Common(f, a, f0)
    ensures Shown(Build(WordBits(f), Seen(f, a, f0)), 1, WordCount(f)) == ToSet(Filtered(a, f0)) + {Stale(f, a)}
  {
    ShownOf(f, a, f0);
    SeenSet(f, a, f0);
    SeenEncodable(f, a, f0);
    BuildMembers(WordBits(f), Seen(f, a, f0));
  }

  lemma MeantOneMore(f: Format, f0: nat, xs: set<int>, v: int)
    requires f.Range1024? ==> f0 == 0
    ensures Meant(f, f0, true, xs + {v}) == Meant(f, f0, true, xs) + {Wrap(f0 + 1 + v, 1024)}
  {
    var more, less, p := Placed(f0, xs + {v}), Placed(f0, xs), Wrap(f0 + 1 + v, 1024);
    forall y | y in more ensures y in less || y == p {
      var x := PlacedOut(f0, xs + {v}, y);
      assert x in xs || x == v;
    }
    forall y | y in less ensures y in more {
      var x := PlacedOut(f0, xs, y);
      assert x in xs + {v};
    }
    assert p in more by {
      assert v in xs + {v};
    }
    assert more == less + {p};
  }

  /** What a sent element says: the list exactly if Announced, and in the common case one ARFCN more. */
  predicate Says(buf: seq<Octet>, a: seq<int>, f: Format, f0: int)
    requires |buf| == OCTETS
  {
    && (DecodeFreqList(buf) == Arfcns(ToSet(a)) <==> Announced(f, a, f0))
    && (Common(f, a, f0) ==> DecodeFreqList(buf) == Arfcns(ToSet(a) + {Wrap(f0 + 1 + Stale(f, a), 1024)}))
  }

  /** range_encode for the format that was chosen. It fails exactly if the search at the top does, and
      then writes nothing. */
  method RangeEncode(f: Format, arfcns: array<int>, size: nat, f0: nat, chan: array<Octet>) returns (rc: int)
    requires size <= arfcns.Length && IsArfcnList(arfcns[..size]) && chan.Length == OCTETS
    requires DetermineRange(arfcns[..size], f0) == Chosen(f, f0) && f0 < 1024
    modifies arfcns, chan
    ensures rc == if size == 0 || Found(WordBits(f), Seen(f, old(arfcns[..size]), f0)) then 0 else -EINVAL
    ensures rc != 0 ==> chan[..] == old(chan[..])
    ensures rc == 0 ==> Says(chan[..], old(arfcns[..size]), f, f0)
  {
    ghost var a := arfcns[..size];
    PassedOnReady(f, a, f0);
    var f0Included := FilterInPlace(arfcns, size, f0);
    forall i | 0 <= i < size ensures arfcns[i] >= 0 {
      PassedOnNats(a, f, f0, i);
      assert arfcns[i] == arfcns[..size][i];
    }
    ghost var w;
    rc, w := EncodeAndPack(f, arfcns, size, f0, f0Included, chan);
    if rc == 0 {
      SentAs(chan[..], a, f, f0, w);
    }
  }

  lemma SentAs(buf: seq<Octet>, a: seq<int>, f: Format, f0: nat, w: seq<nat>)
    requires IsArfcnList(a) && DetermineRange(a, f0) == Chosen(f, f0) && f0 < 1024
    requires |w| == WordCount(f) && WordsFrom(w, Build(WordBits(f), PassedOn(a, f0)))
    requires Packed(buf, f, f0, f0 in a && f.Range1024?, w) && (a == [] || Found(WordBits(f), PassedOn(a, f0)))
    ensures Says(buf, a, f, f0)
  {
    SentRight(buf, a, f, f0, w);
    if Common(f, a, f0) {
      CommonSent(buf, a, f, f0, w);
    }
  }

  lemma PassedOnReady(f: Format, a: seq<int>, f0: int)
    requires IsArfcnList(a) && DetermineRange(a, f0) == Chosen(f, f0)
    ensures |a| <= MAX_ARFCNS && |PassedOn(a, f0)| == |a|
    ensures Found(WordBits(f), PassedOn(a, f0)) <==> Found(WordBits(f), Seen(f, a, f0))
  {
    SeenSize(f, a, f0);
    SeenAlike(f, a, f0);
    BuildLike(WordBits(f), PassedOn(a, f0), Seen(f, a, f0));
  }

  /** The filter as range_encode uses it: the returned length is dropped. */
  method FilterInPlace(arfcns: array<int>, size: nat, f0: nat) returns (f0Included: bool)
    requires size <= arfcns.Length && IsArfcnList(arfcns[..size])
    modifies arfcns
    ensures arfcns[..size] == PassedOn(old(arfcns[..size]), f0)
    ensures f0Included <==> f0 in old(arfcns[..size])
  {
    ghost var a := arfcns[..size];
    FilteredSize(a, f0);
    var n;
    n, f0Included := FilterArfcns(arfcns, size, f0);
    if f0 in a {
      assert arfcns[..size] == arfcns[..n] + [arfcns[n]];
    }
  }

  /** What the BSC announces for a list: nothing without a format or if the search is Deadlocked, and
      otherwise the element that Says describes. For an empty list F0 is whatever was in it. */
  predicate Outcome(rc: int, buf: seq<Octet>, was: seq<Octet>, a: seq<int>, f0Unset: int)
    requires |buf| == |was| == OCTETS
  {
    match DetermineRange(a, f0Unset)
    case Invalid => rc == -2 && buf == was
    case Chosen(f, f0) =>
      && rc == (if Deadlocked(f, a, f0) then -EINVAL else 0)
      && (rc != 0 ==> buf == was)
      && (rc == 0 ==> Says(buf, a, f, f0))
  }

  /** enc_freq_lst_range behind its selection loop */
  method EncodeSelected(arfcns: array<int>, size: nat, f0Unset: nat, chan: array<Octet>) returns (rc: int)
    requires size <= arfcns.Length && IsArfcnList(arfcns[..size]) && chan.Length == OCTETS && f0Unset < 1024
    modifies arfcns, chan
    ensures Outcome(rc, chan[..], old(chan[..]), old(arfcns[..size]), f0Unset)
  {
    var c := DetermineRange(arfcns[..size], f0Unset);
    if c.Invalid? {
      return -2;
    }
    ghost var a := arfcns[..size];
    ChosenF0(a, f0Unset);
    if a != [] {
      NotSent(c.format, a, c.f0);
    }
    rc := RangeEncode(c.format, arfcns, size, c.f0, chan);
  }

  lemma ChosenF0(a: seq<int>, f0Unset: nat)
    requires IsArfcnList(a) && f0Unset < 1024
    ensures match DetermineRange(a, f0Unset)
            case Invalid => true
            case Chosen(f, f0) => 0 <= f0 < 1024 && DetermineRange(a, f0) == Chosen(f, f0)
  {
  }

  // ----- when the search at the top fails -----

  /** The stale value falls on a position of the list, has exactly half of the others ahead of it, and
      no other position has. */
  predicate Deadlocked(f: Format, a: seq<int>, f0: int) {
    f0 in a && Stale(f, a) in Filtered(a, f0) && Stuck(RangeOf(f), Filtered(a, f0), Stale(f, a))
  }

  /** Exactly then the search at the top fails and the element is not sent. */
  lemma NotSent(f: Format, a: seq<int>, f0: int)
    requires IsArfcnList(a) && a != [] && DetermineRange(a, f0) == Chosen(f, f0)
    ensures Found(WordBits(f), Seen(f, a, f0)) <==> !Deadlocked(f, a, f0)
  {
    var own, v := Filtered(a, f0), Stale(f, a);
    FilteredEncodable(a, f, f0);
    FilteredSize(a, f0);
    if f0 !in a {
      assert Seen(f, a, f0) == own;
      PivotFound(WordBits(f), own);
    } else if v !in own {
      SeenEncodable(f, a, f0);
      PivotFound(WordBits(f), Seen(f, a, f0));
    } else {
      assert Seen(f, a, f0) == own + [v];
      RangeOdd(WordBits(f));
      StuckNotFound(RangeOf(f), own, v);
    }
  }
}
