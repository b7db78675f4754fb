/** The balanced search tree behind the range formats of the frequency list
    (src/osmo-bsc/arfcn_range_encode.c): pivot search, split and slot order. */
module RangeTree {
  import opened Arith

  // ----- counting points on a circle of `range` positions -----

  /** Points of s that lie in the half circle strictly after position x. */
  function After(range: int, s: seq<int>, x: int): (n: nat)
    requires range > 0
    ensures n <= |s|
  {
    if s == [] then 0
    else After(range, s[..|s| - 1], x) +
         if 1 <= Wrap(s[|s| - 1] - x, range) <= (range - 1) / 2 then 1 else 0
  }

  /** Points of s at position x. */
  function Hits(range: int, s: seq<int>, x: int): (n: nat)
    requires range > 0
    ensures n <= |s|
  {
    if s == [] then 0
    else Hits(range, s[..|s| - 1], x) + if Wrap(s[|s| - 1] - x, range) == 0 then 1 else 0
  }

  /** Distinct positions on the circle. */
  predicate WellFormed(range: int, s: seq<int>) {
    s == [] || (0 <= s[|s| - 1] < range && s[|s| - 1] !in s[..|s| - 1] && WellFormed(range, s[..|s| - 1]))
  }

  lemma {:induction false} WellFormedBounds(range: int, s: seq<int>, v: int)
    requires WellFormed(range, s) && v in s
    ensures 0 <= v < range
  {
    if v != s[|s| - 1] {
      WellFormedBounds(range, s[..|s| - 1], v);
    }
  }

  lemma {:induction false} DistinctWellFormed(range: int, s: seq<int>)
    requires forall i :: 0 <= i < |s| ==> 0 <= s[i] < range
    requires forall i, j :: 0 <= i < j < |s| ==> s[i] != s[j]
    ensures WellFormed(range, s)
  {
    if s != [] {
      DistinctWellFormed(range, s[..|s| - 1]);
    }
  }

  /** One clockwise step loses at most the points it lands on. */
  lemma {:induction false} AfterStep(range: int, s: seq<int>, x: int)
    requires range > 0 && range % 2 == 1
    ensures After(range, s, x + 1) >= After(range, s, x) - Hits(range, s, x + 1)
  {
    if s != [] {
      var v := s[|s| - 1];
      AfterStep(range, s[..|s| - 1], x);
      WrapStep(v - x - 1, 1, range);
      assert v - x - 1 + 1 == v - x;
      assert v - (x + 1) == v - x - 1;
    }
  }

  lemma HalfTurn(range: int, v: int, x: int)
    requires range > 0 && range % 2 == 1
    ensures var h := (range - 1) / 2;
            1 <= Wrap(v - (x + h), range) <= h <==> Wrap(v - x, range) > h
  {
    var h := (range - 1) / 2;
    WrapStep(v - (x + h), h, range);
    assert v - (x + h) + h == v - x;
  }

  /** The half circle after x, the one after its antipode, and x itself cover everything once. */
  lemma {:induction false} AfterAntipode(range: int, s: seq<int>, x: int)
    requires range > 0 && range % 2 == 1
    ensures After(range, s, x) + After(range, s, x + (range - 1) / 2) + Hits(range, s, x) == |s|
  {
    if s != [] {
      var v := s[|s| - 1];
      AfterAntipode(range, s[..|s| - 1], x);
      HalfTurn(range, v, x);
    }
  }

  lemma {:induction false} SamePlaceCounts(range: int, s: seq<int>, x: int, y: int)
    requires range > 0 && Wrap(x, range) == Wrap(y, range)
    ensures After(range, s, x) == After(range, s, y) && Hits(range, s, x) == Hits(range, s, y)
  {
    if s != [] {
      SamePlaceCounts(range, s[..|s| - 1], x, y);
      WrapSub(s[|s| - 1], x, range);
      WrapSub(s[|s| - 1], y, range);
    }
  }

  lemma {:induction false} HitsWitness(range: int, s: seq<int>, x: int) returns (i: int)
    requires range > 0 && Hits(range, s, x) >= 1
    ensures 0 <= i < |s| && Wrap(s[i] - x, range) == 0
  {
    if Wrap(s[|s| - 1] - x, range) == 0 {
      i := |s| - 1;
    } else {
      i := HitsWitness(range, s[..|s| - 1], x);
    }
  }

  lemma {:induction false} HitsNone(range: int, s: seq<int>, x: int)
    requires range > 0
    requires forall i :: 0 <= i < |s| ==> Wrap(s[i] - x, range) != 0
    ensures Hits(range, s, x) == 0
  {
    if s != [] {
      HitsNone(range, s[..|s| - 1], x);
    }
  }

  lemma {:induction false} HitsAtMostOne(range: int, s: seq<int>, x: int)
    requires range > 0 && WellFormed(range, s)
    ensures Hits(range, s, x) <= 1
  {
    if s != [] {
      var s' := s[..|s| - 1];
      var v := s[|s| - 1];
      if Wrap(v - x, range) == 0 {
        forall i | 0 <= i < |s'| ensures Wrap(s'[i] - x, range) != 0 {
          assert s'[i] == s[i];
          if Wrap(s[i] - x, range) == 0 {
            WellFormedBounds(range, s, s[i]);
            WrapEqual(s[i], v, x, range);
          }
        }
        HitsNone(range, s', x);
      } else {
        HitsAtMostOne(range, s', x);
      }
    }
  }

  lemma {:induction false} HitsMember(range: int, s: seq<int>, i: int)
    requires range > 0 && 0 <= i < |s|
    ensures Hits(range, s, s[i]) >= 1
  {
    if i == |s| - 1 {
    } else {
      HitsMember(range, s[..|s| - 1], i);
    }
  }

  /** Walking clockwise from a crowded half circle to a sparse one, the count
      passes every value in between exactly at a point of s. */
  lemma {:induction false} Crossing(range: int, s: seq<int>, x: int, y: int, m: int) returns (i: int)
    requires range > 0 && range % 2 == 1 && WellFormed(range, s)
    requires x < y && After(range, s, x) > m && After(range, s, y) <= m
    ensures 0 <= i < |s| && After(range, s, s[i]) == m
    decreases y - x
  {
    if After(range, s, y - 1) > m {
      AfterStep(range, s, y - 1);
      HitsAtMostOne(range, s, y);
      i := HitsWitness(range, s, y);
      WrapAdd(s[i] - y, y, range);
      SamePlaceCounts(range, s, s[i], y);
    } else {
      i := Crossing(range, s, x, y - 1, m);
    }
  }

  /** The same without distinctness: the place where the count comes down to m is one of s, and the
      count loses no more there than the points that lie on it. */
  lemma {:induction false} ComesDown(range: int, s: seq<int>, x: int, y: int, m: int) returns (i: int)
    requires range > 0 && range % 2 == 1 && x < y && After(range, s, x) > m && After(range, s, y) <= m
    ensures 0 <= i < |s| && m + 1 - Hits(range, s, s[i]) <= After(range, s, s[i]) <= m
    decreases y - x
  {
    if After(range, s, y - 1) > m {
      AfterStep(range, s, y - 1);
      i := HitsWitness(range, s, y);
      WrapAdd(s[i] - y, y, range);
      SamePlaceCounts(range, s, s[i], y);
    } else {
      i := ComesDown(range, s, x, y - 1, m);
    }
  }

  // ----- range_enc_find_index -----

  /** What the inner loop of range_enc_find_index counts. */
  function Near(range: int, s: seq<int>, x: int): (n: nat)
    requires range > 0
  {
    if s == [] then 0
    else Near(range, s[..|s| - 1], x) + if Wrap(s[|s| - 1] - x, range) <= (range - 1) / 2 then 1 else 0
  }

  lemma {:induction false} NearSplit(range: int, s: seq<int>, x: int)
    requires range > 0
    ensures Near(range, s, x) == After(range, s, x) + Hits(range, s, x)
  {
    if s != [] {
      NearSplit(range, s[..|s| - 1], x);
    }
  }

  predicate IsPivot(range: int, s: seq<int>, i: int)
    requires range > 0 && 0 <= i < |s|
  {
    Near(range, s, s[i]) - 1 == (|s| - 1) / 2
  }

  /** Some element always splits the others evenly: the search cannot fail. */
  lemma PivotExists(range: int, s: seq<int>) returns (i: int)
    requires range > 0 && range % 2 == 1 && s != [] && WellFormed(range, s)
    ensures 0 <= i < |s| && IsPivot(range, s, i)
  {
    var n, m, h := |s|, (|s| - 1) / 2, (range - 1) / 2;
    var x := s[0];
    HitsMember(range, s, 0);
    HitsAtMostOne(range, s, x);
    AfterAntipode(range, s, x);
    if After(range, s, x) == m {
      i := 0;
    } else if After(range, s, x) > m {
      i := Crossing(range, s, x, x + h, m);
    } else {
      WrapPeriod(x, range);
      SamePlaceCounts(range, s, x, x + range);
      i := Crossing(range, s, x + h, x + range, m);
    }
    NearSplit(range, s, s[i]);
    HitsMember(range, s, i);
    HitsAtMostOne(range, s, s[i]);
  }

  /** The index the search returns: the first pivot at or after `from`, or -1. */
  function FirstPivot(range: int, s: seq<int>, from: nat): (i: int)
    requires range > 0 && from <= |s|
    ensures -1 <= i < |s|
    decreases |s| - from
  {
    if from == |s| then -1
    else if IsPivot(range, s, from) then from
    else FirstPivot(range, s, from + 1)
  }

  lemma {:induction false} FirstPivotFinds(range: int, s: seq<int>, from: nat, i: int)
    requires range > 0 && from <= i < |s| && IsPivot(range, s, i)
    ensures from <= FirstPivot(range, s, from) <= i && IsPivot(range, s, FirstPivot(range, s, from))
    decreases |s| - from
  {
    if !IsPivot(range, s, from) {
      FirstPivotFinds(range, s, from + 1, i);
    }
  }

  /** C's remainder truncates towards zero. */
  function CRem(a: int, m: int): int
    requires m > 0
  {
    if a >= 0 then a % m else -((-a) % m)
  }

  lemma CRemWraps(a: int, m: int)
    requires m > 0
    ensures -m < CRem(a, m) < m && Wrap(CRem(a, m), m) == Wrap(a, m)
  {
    if a >= 0 {
      WrapIsMod(a, m);
    } else {
      WrapIsMod(-a, m);
      WrapSub(0, -a, m);
    }
  }

  method Mod(data: int, range: int) returns (res: int)
    requires range > 0
    ensures res == Wrap(data, range) == data % range
  {
    CRemWraps(data, range);
    WrapIsMod(data, range);
    res := CRem(data, range);
    while res < 0
      invariant -range < res < range && Wrap(res, range) == Wrap(data, range)
      decreases -res
    {
      res := res + range;
    }
  }

  lemma OddFinds(range: int, s: seq<int>)
    requires range > 0
    ensures range % 2 == 1 && s != [] && WellFormed(range, s) ==> FirstPivot(range, s, 0) >= 0
  {
    if range % 2 == 1 && s != [] && WellFormed(range, s) {
      var w := PivotExists(range, s);
      FirstPivotFinds(range, s, 0, w);
    }
  }

  lemma NearNext(range: int, s: seq<int>, j: nat, x: int)
    requires range > 0 && j < |s|
    ensures Near(range, s[..j + 1], x) == Near(range, s[..j], x) + if Wrap(s[j] - x, range) <= (range - 1) / 2 then 1 else 0
  {
    assert s[..j + 1][..j] == s[..j];
  }

  method FindIndex(range: int, freqs: array<int>, size: nat) returns (r: int)
    requires range > 0 && size <= freqs.Length
    ensures r == FirstPivot(range, freqs[..size], 0)
    ensures range % 2 == 1 && size > 0 && WellFormed(range, freqs[..size]) ==> 0 <= r < size
  {
    ghost var s := freqs[..size];
    OddFinds(range, s);
    var delta := (range - 1) / 2;
    for i := 0 to size
      invariant FirstPivot(range, s, 0) == FirstPivot(range, s, i)
    {
      var n := 0;
      for j := 0 to size
        invariant n == Near(range, s[..j], s[i])
      {
        var d := Mod(freqs[j] - freqs[i], range);
        NearNext(range, s, j, s[i]);
        if d <= delta {
          n := n + 1;
        }
      }
      assert s[..size] == s;
      if n - 1 == (size - 1) / 2 {
        return i;
      }
    }
    return -1;
  }

  // ----- splitting at the pivot -----

  /** The elements within the first half circle from `origin`, relative to it
      (the partition loop of _range_enc_arfcns). */
  function Part(range: int, s: seq<int>, origin: int): (r: seq<int>)
    requires range > 0
  {
    if s == [] then []
    else
      var d := Wrap(s[|s| - 1] - origin, range);
      Part(range, s[..|s| - 1], origin) + if d < range / 2 then [d] else []
  }

  lemma {:induction false} PartSize(range: int, s: seq<int>, origin: int)
    requires range > 0 && range % 2 == 1
    ensures |Part(range, s, origin)| == After(range, s, origin - 1)
  {
    if s != [] {
      var v := s[|s| - 1];
      PartSize(range, s[..|s| - 1], origin);
      WrapStep(v - origin, 1, range);
      assert v - origin + 1 == v - (origin - 1);
    }
  }

  lemma {:induction false} PartHas(range: int, s: seq<int>, origin: int, i: nat)
    requires range > 0 && i < |s| && Wrap(s[i] - origin, range) < range / 2
    ensures Wrap(s[i] - origin, range) in Part(range, s, origin)
  {
    if i < |s| - 1 {
      PartHas(range, s[..|s| - 1], origin, i);
    }
  }

  lemma {:induction false} PartFrom(range: int, s: seq<int>, origin: int, y: int) returns (i: nat)
    requires range > 0 && y in Part(range, s, origin)
    ensures i < |s| && Wrap(s[i] - origin, range) == y && y < range / 2
  {
    i := |s| - 1;
    if Wrap(s[i] - origin, range) != y || y >= range / 2 {
      i := PartFrom(range, s[..i], origin, y);
    }
  }

  lemma PartFresh(range: int, s: seq<int>, origin: int)
    requires range > 0 && s != [] && WellFormed(range, s)
    ensures Wrap(s[|s| - 1] - origin, range) !in Part(range, s[..|s| - 1], origin)
  {
    var s', v := s[..|s| - 1], s[|s| - 1];
    if Wrap(v - origin, range) in Part(range, s', origin) {
      var i := PartFrom(range, s', origin, Wrap(v - origin, range));
      WellFormedBounds(range, s', s'[i]);
      WrapEqual(s'[i], v, origin, range);
      assert false;
    }
  }

  lemma {:induction false} PartWellFormed(range: int, s: seq<int>, origin: int)
    requires range > 0 && WellFormed(range, s)
    ensures WellFormed(range / 2, Part(range, s, origin))
  {
    if s != [] {
      PartWellFormed(range, s[..|s| - 1], origin);
      PartFresh(range, s, origin);
      var part := Part(range, s, origin);
      if Wrap(s[|s| - 1] - origin, range) < range / 2 {
        assert part[..|part| - 1] == Part(range, s[..|s| - 1], origin);
      } else {
        assert part == Part(range, s[..|s| - 1], origin);
      }
    }
  }

  /** The modulus at a tree level with j bits: 1023, 511, 255, 127, 63, ... */
  function Range(j: nat): (r: nat) {
    Pow2(j) - 1
  }

  lemma RangeOdd(j: nat)
    requires j > 0
    ensures Range(j) > 0 && Range(j) % 2 == 1
    ensures Range(j) / 2 == Range(j - 1) && (Range(j) - 1) / 2 == Range(j - 1)
  {
    assert Pow2(j) == 2 * Pow2(j - 1);
  }

  /** Every list the encoder is meant for: distinct positions on the circle of its level. */
  predicate Encodable(j: nat, s: seq<int>) {
    WellFormed(Range(j), s)
  }

  lemma NonEmptyHasRange(j: nat, s: seq<int>)
    requires Encodable(j, s) && s != []
    ensures j > 0 && Range(j) > 0
  {
    assert 0 <= s[|s| - 1] < Range(j);
  }

  /** Where the search on level j stops, or -1. It works on any list, also with values that are not on
      the circle or not distinct. */
  function PivotIndex(j: nat, s: seq<int>): (i: int)
    requires j > 0
    ensures -1 <= i < |s|
  {
    RangeOdd(j);
    FirstPivot(Range(j), s, 0)
  }

  predicate Found(j: nat, s: seq<int>) {
    j > 0 && PivotIndex(j, s) >= 0
  }

  function Pivot(j: nat, s: seq<int>): (v: int)
    requires Found(j, s)
    ensures v in s
  {
    s[PivotIndex(j, s)]
  }

  lemma PivotFound(j: nat, s: seq<int>)
    requires Encodable(j, s) && s != []
    ensures Found(j, s)
  {
    NonEmptyHasRange(j, s);
    RangeOdd(j);
    var i := PivotExists(Range(j), s);
    FirstPivotFinds(Range(j), s, 0, i);
  }

  lemma {:induction false} FirstPivotIs(range: int, s: seq<int>, from: nat)
    requires range > 0 && from <= |s| && FirstPivot(range, s, from) >= 0
    ensures IsPivot(range, s, FirstPivot(range, s, from))
    decreases |s| - from
  {
    if !IsPivot(range, s, from) {
      FirstPivotIs(range, s, from + 1);
    }
  }

  function LeftOrigin(range: int, v: int): int
    requires range > 0
  {
    Wrap(v + (range - 1) / 2 + 1, range)
  }

  function RightOrigin(range: int, v: int): int
    requires range > 0
  {
    Wrap(v + 1, range)
  }

  lemma PartShift(range: int, s: seq<int>, origin: int)
    requires range > 0 && range % 2 == 1
    ensures |Part(range, s, Wrap(origin, range))| == After(range, s, origin - 1)
  {
    PartSize(range, s, Wrap(origin, range));
    WrapAdd(origin, -1, range);
    SamePlaceCounts(range, s, Wrap(origin, range) - 1, origin - 1);
  }

  lemma PivotCounts(range: int, s: seq<int>, i: int)
    requires range > 0 && range % 2 == 1 && 0 <= i < |s| && IsPivot(range, s, i)
    ensures After(range, s, s[i]) == (|s| - 1) / 2 + 1 - Hits(range, s, s[i]) <= (|s| - 1) / 2
    ensures After(range, s, s[i] + (range - 1) / 2) == |s| / 2
  {
    NearSplit(range, s, s[i]);
    HitsMember(range, s, i);
    AfterAntipode(range, s, s[i]);
  }

  lemma PivotSplit(range: int, s: seq<int>, i: int)
    requires range > 0 && range % 2 == 1 && 0 <= i < |s| && IsPivot(range, s, i)
    ensures |Part(range, s, LeftOrigin(range, s[i]))| == |s| / 2
    ensures |Part(range, s, RightOrigin(range, s[i]))| == (|s| - 1) / 2 + 1 - Hits(range, s, s[i]) <= (|s| - 1) / 2
  {
    PivotCounts(range, s, i);
    PartShift(range, s, s[i] + 1);
    PartShift(range, s, s[i] + (range - 1) / 2 + 1);
  }

  function Left(j: nat, s: seq<int>): (l: seq<int>)
    requires Found(j, s)
  {
    RangeOdd(j);
    Part(Range(j), s, LeftOrigin(Range(j), Pivot(j, s)))
  }

  function Right(j: nat, s: seq<int>): (r: seq<int>)
    requires Found(j, s)
  {
    RangeOdd(j);
    Part(Range(j), s, RightOrigin(Range(j), Pivot(j, s)))
  }

  /** Below the pivot hang size/2 elements on the left and at most (size-1)/2 on the right, so both
      parts fit their size/2 buffers, whatever the list. */
  lemma SplitSizes(j: nat, s: seq<int>)
    requires Found(j, s)
    ensures |Left(j, s)| == |s| / 2 && |Right(j, s)| <= (|s| - 1) / 2
    ensures Bounded(Range(j - 1), Left(j, s)) && Bounded(Range(j - 1), Right(j, s))
  {
    RangeOdd(j);
    FirstPivotIs(Range(j), s, 0);
    PivotSplit(Range(j), s, PivotIndex(j, s));
    PartBounded(Range(j), s, LeftOrigin(Range(j), Pivot(j, s)));
    PartBounded(Range(j), s, RightOrigin(Range(j), Pivot(j, s)));
  }

  /** On distinct positions nothing is lost, and each part is again encodable. */
  lemma StrictSplit(j: nat, s: seq<int>)
    requires Encodable(j, s) && s != []
    ensures Found(j, s) && 0 <= Pivot(j, s) < Range(j)
    ensures |Left(j, s)| == |s| / 2 && |Right(j, s)| == (|s| - 1) / 2
    ensures Encodable(j - 1, Left(j, s)) && Encodable(j - 1, Right(j, s))
  {
    PivotFound(j, s);
    RangeOdd(j);
    FirstPivotIs(Range(j), s, 0);
    PivotSplit(Range(j), s, PivotIndex(j, s));
    HitsMember(Range(j), s, PivotIndex(j, s));
    HitsAtMostOne(Range(j), s, Pivot(j, s));
    WellFormedBounds(Range(j), s, Pivot(j, s));
    PartWellFormed(Range(j), s, LeftOrigin(Range(j), Pivot(j, s)));
    PartWellFormed(Range(j), s, RightOrigin(Range(j), Pivot(j, s)));
  }

  predicate Bounded(range: int, s: seq<int>) {
    forall x :: x in s ==> 0 <= x < range
  }

  lemma WellFormedBounded(range: int, s: seq<int>)
    requires WellFormed(range, s)
    ensures Bounded(range, s)
  {
    forall x | x in s ensures 0 <= x < range {
      WellFormedBounds(range, s, x);
    }
  }

  lemma PartBounded(range: int, s: seq<int>, origin: int)
    requires range > 0
    ensures Bounded(range / 2, Part(range, s, origin))
  {
    forall y | y in Part(range, s, origin) ensures 0 <= y < range / 2 {
      var i := PartFrom(range, s, origin, y);
    }
  }

  lemma PartBack(range: int, s: seq<int>, origin: int, y: int)
    requires range > 0 && Bounded(range, s) && y in Part(range, s, origin)
    ensures Wrap(y + origin, range) in s
  {
    var i := PartFrom(range, s, origin, y);
    assert s[i] in s;
    WrapAdd(s[i] - origin, origin, range);
  }

  lemma PartOf(range: int, s: seq<int>, origin: int, x: int)
    requires range > 0 && Bounded(range, s) && x in s && Wrap(x - origin, range) < range / 2
    ensures Wrap(x - origin, range) in Part(range, s, origin)
    ensures Wrap(Wrap(x - origin, range) + origin, range) == x
  {
    var i :| 0 <= i < |s| && s[i] == x;
    PartHas(range, s, origin, i);
    WrapAdd(x - origin, origin, range);
  }

  /** Every position other than the pivot is in exactly one of the two halves, the pivot in none. */
  lemma HalvesCover(range: int, v: int, x: int)
    requires range > 0 && range % 2 == 1 && 0 <= v < range && 0 <= x < range
    ensures var l, r := Wrap(x - LeftOrigin(range, v), range) < range / 2, Wrap(x - RightOrigin(range, v), range) < range / 2;
            (x != v <==> l || r) && !(l && r)
  {
    var h := (range - 1) / 2;
    if Wrap(x - v, range) == 0 {
      WrapEqual(x, v, v, range);
    }
    OriginShift(range, x, v, 1);
    OriginShift(range, x, v, h + 1);
    assert v + h + 1 == v + (h + 1);
  }

  /** Distance from an origin k places after v. */
  lemma OriginShift(range: int, x: int, v: int, k: int)
    requires range > 0 && 0 <= k <= range
    ensures var d := Wrap(x - v, range);
            Wrap(x - Wrap(v + k, range), range) == if d >= k then d - k else d - k + range
  {
    WrapSub(x, v + k, range);
    WrapAdd(x - v, -k, range);
  }

  function Shift(range: int, origin: int, ys: set<int>): (r: set<int>)
    requires range > 0
  {
    set y | y in ys :: Wrap(y + origin, range)
  }

  function ToSet(s: seq<int>): (r: set<int>) {
    set x | x in s
  }

  lemma PartShiftedBack(range: int, s: seq<int>, origin: int)
    requires range > 0 && Bounded(range, s)
    ensures Shift(range, origin, ToSet(Part(range, s, origin))) <= ToSet(s)
  {
    forall y | y in Part(range, s, origin) ensures Wrap(y + origin, range) in s {
      PartBack(range, s, origin, y);
    }
  }

  lemma InOneHalf(range: int, s: seq<int>, v: int, x: int)
    requires range > 0 && range % 2 == 1 && Bounded(range, s) && v in s && x in s && x != v
    ensures var lo, ro := LeftOrigin(range, v), RightOrigin(range, v);
            || x in Shift(range, lo, ToSet(Part(range, s, lo)))
            || x in Shift(range, ro, ToSet(Part(range, s, ro)))
  {
    var lo, ro := LeftOrigin(range, v), RightOrigin(range, v);
    HalvesCover(range, v, x);
    if Wrap(x - lo, range) < range / 2 {
      BackInHalf(range, s, lo, x);
    } else {
      BackInHalf(range, s, ro, x);
    }
  }

  lemma BackInHalf(range: int, s: seq<int>, origin: int, x: int)
    requires range > 0 && Bounded(range, s) && x in s && Wrap(x - origin, range) < range / 2
    ensures x in Shift(range, origin, ToSet(Part(range, s, origin)))
  {
    PartOf(range, s, origin, x);
    assert Wrap(x - origin, range) in ToSet(Part(range, s, origin));
  }

  /** Pivot and parts together are the list. */
  lemma SplitMembers(range: int, s: seq<int>, v: int)
    requires range > 0 && range % 2 == 1 && Bounded(range, s) && v in s
    ensures var lo, ro := LeftOrigin(range, v), RightOrigin(range, v);
            ToSet(s) == {v} + Shift(range, lo, ToSet(Part(range, s, lo))) + Shift(range, ro, ToSet(Part(range, s, ro)))
  {
    var lo, ro := LeftOrigin(range, v), RightOrigin(range, v);
    var left, right := Shift(range, lo, ToSet(Part(range, s, lo))), Shift(range, ro, ToSet(Part(range, s, ro)));
    PartShiftedBack(range, s, lo);
    PartShiftedBack(range, s, ro);
    forall x | x in s && x != v ensures x in left + right {
      InOneHalf(range, s, v, x);
    }
  }

  // ----- the tree -----

  type Modulus = m: int | m > 0 witness 1

  /** A node knows the size of the circle its value lies on. */
  datatype Tree = Nil | Node(modulus: Modulus, value: int, left: Tree, right: Tree)

  /** What the encoder makes of any list: where the search fails, the whole part is dropped. */
  function Build(j: nat, s: seq<int>): (tree: Tree)
    decreases j
  {
    if s == [] || !Found(j, s) then Nil
    else
      RangeOdd(j);
      Node(Range(j), Pivot(j, s), Build(j - 1, Left(j, s)), Build(j - 1, Right(j, s)))
  }

  /** The search never fails, at any level. */
  predicate Splits(j: nat, s: seq<int>)
    decreases j
  {
    s == [] || (Found(j, s) && Splits(j - 1, Left(j, s)) && Splits(j - 1, Right(j, s)))
  }

  lemma {:induction false} EncodableSplits(j: nat, s: seq<int>)
    requires Encodable(j, s)
    ensures Splits(j, s)
    decreases j
  {
    if s != [] {
      StrictSplit(j, s);
      EncodableSplits(j - 1, Left(j, s));
      EncodableSplits(j - 1, Right(j, s));
    }
  }

  /** A tree of n nodes whose subtrees have n/2 and (n-1)/2 nodes. */
  predicate Balanced(n: nat, tree: Tree) {
    match tree
    case Nil => n == 0
    case Node(_, _, l, r) => n > 0 && Balanced(n / 2, l) && Balanced((n - 1) / 2, r)
  }

  /** A tree that has no nodes but those of such a tree. */
  predicate Within(n: nat, tree: Tree) {
    match tree
    case Nil => true
    case Node(_, _, l, r) => n > 0 && Within(n / 2, l) && Within((n - 1) / 2, r)
  }

  lemma {:induction false} BalancedWithin(n: nat, tree: Tree)
    requires Balanced(n, tree)
    ensures Within(n, tree)
    decreases tree
  {
    if tree.Node? {
      BalancedWithin(n / 2, tree.left);
      BalancedWithin((n - 1) / 2, tree.right);
    }
  }

  lemma {:induction false} WithinMore(n: nat, n': nat, tree: Tree)
    requires Within(n, tree) && n <= n'
    ensures Within(n', tree)
    decreases tree
  {
    if tree.Node? {
      WithinMore(n / 2, n' / 2, tree.left);
      WithinMore((n - 1) / 2, (n' - 1) / 2, tree.right);
    }
  }

  /** Values lie on the circle of their level: 2^j-1 places at the root, half of it below. */
  predicate InRange(j: nat, tree: Tree) {
    match tree
    case Nil => true
    case Node(m, v, l, r) => j > 0 && m == Range(j) && 0 <= v < m && InRange(j - 1, l) && InRange(j - 1, r)
  }

  lemma {:induction false} BuildBalanced(j: nat, s: seq<int>)
    requires Encodable(j, s)
    ensures Balanced(|s|, Build(j, s)) && InRange(j, Build(j, s))
    decreases j
  {
    if s != [] {
      StrictSplit(j, s);
      BuildBalanced(j - 1, Left(j, s));
      BuildBalanced(j - 1, Right(j, s));
    }
  }

  /** n values never need a node beyond the n-th, distinct or not. */
  lemma {:induction false} BuildWithin(j: nat, s: seq<int>)
    ensures Within(|s|, Build(j, s))
    decreases j
  {
    if s != [] && Found(j, s) {
      SplitSizes(j, s);
      BuildWithin(j - 1, Left(j, s));
      BuildWithin(j - 1, Right(j, s));
      WithinMore(|Right(j, s)|, (|s| - 1) / 2, Build(j - 1, Right(j, s)));
    }
  }

  lemma {:induction false} BuildInRange(j: nat, s: seq<int>)
    requires Bounded(Range(j), s)
    ensures InRange(j, Build(j, s))
    decreases j
  {
    if s != [] && Found(j, s) {
      RangeOdd(j);
      SplitSizes(j, s);
      BuildInRange(j - 1, Left(j, s));
      BuildInRange(j - 1, Right(j, s));
    }
  }

  /** Node numbers: the root is 1, the even numbers are in the left subtree and
      the odd ones in the right, each numbered by half. */
  predicate At(tree: Tree, t: nat)
    decreases t
  {
    && tree.Node?
    && t >= 1
    && (t == 1 || At(if t % 2 == 0 then tree.left else tree.right, t / 2))
  }

  lemma {:induction false} AtWithin(n: nat, tree: Tree, t: nat)
    requires Within(n, tree) && At(tree, t)
    ensures 1 <= t <= n
    decreases t
  {
    if t > 1 {
      if t % 2 == 0 {
        AtWithin(n / 2, tree.left, t / 2);
      } else {
        AtWithin((n - 1) / 2, tree.right, t / 2);
      }
    }
  }

  lemma {:induction false} AtBalanced(n: nat, tree: Tree, t: nat)
    requires Balanced(n, tree)
    ensures At(tree, t) <==> 1 <= t <= n
    decreases t
  {
    if tree.Node? && t > 1 {
      if t % 2 == 0 {
        AtBalanced(n / 2, tree.left, t / 2);
      } else {
        AtBalanced((n - 1) / 2, tree.right, t / 2);
      }
    }
  }

  function Word(tree: Tree, t: nat): (w: int)
    requires At(tree, t)
    decreases t
  {
    if t == 1 then 1 + tree.value else Word(if t % 2 == 0 then tree.left else tree.right, t / 2)
  }

  /** Tree level of node t: 0 for the root, 1 for nodes 2 and 3, ... */
  function Level(t: nat): (l: nat)
    requires t >= 1
  {
    if t == 1 then 0 else 1 + Level(t / 2)
  }

  lemma {:induction false} LevelBounds(t: nat)
    requires t >= 1
    ensures Pow2(Level(t)) <= t < 2 * Pow2(Level(t))
  {
    if t > 1 {
      LevelBounds(t / 2);
    }
  }

  /** A word at level L is never 0 and fits in j-L bits. */
  lemma {:induction false} WordBounds(j: nat, tree: Tree, t: nat)
    requires InRange(j, tree) && At(tree, t)
    ensures Level(t) < j && 1 <= Word(tree, t) <= Range(j - Level(t))
    decreases t
  {
    if t > 1 {
      WordBounds(j - 1, if t % 2 == 0 then tree.left else tree.right, t / 2);
    }
  }

  /** The element that node t stands for, in the coordinates of the whole tree. */
  function Elem(tree: Tree, t: nat): (v: int)
    requires At(tree, t)
    decreases t
  {
    if t == 1 then tree.value
    else if t % 2 == 0 then Wrap(Elem(tree.left, t / 2) + LeftOrigin(tree.modulus, tree.value), tree.modulus)
    else Wrap(Elem(tree.right, t / 2) + RightOrigin(tree.modulus, tree.value), tree.modulus)
  }

  /** The elements a tree stands for. */
  function Members(tree: Tree): (r: set<int>) {
    match tree
    case Nil => {}
    case Node(m, v, l, r) =>
      {v} + Shift(m, LeftOrigin(m, v), Members(l)) + Shift(m, RightOrigin(m, v), Members(r))
  }

  /** Building the tree keeps the elements of an encodable list. */
  lemma BuildMembers(j: nat, s: seq<int>)
    requires Encodable(j, s)
    ensures Members(Build(j, s)) == ToSet(s)
  {
    WellFormedBounded(Range(j), s);
    TreeMembers(j, s, Build(j, s));
    EncodableSplits(j, s);
  }

  /** Of any list on the circle the tree has no other elements, and has them all exactly if no search
      fails. */
  predicate StandsFor(tree: Tree, s: seq<int>, all: bool) {
    Members(tree) <= ToSet(s) && (Members(tree) == ToSet(s) <==> all)
  }

  lemma {:induction false} TreeMembers(j: nat, s: seq<int>, tree: Tree)
    requires Bounded(Range(j), s) && tree == Build(j, s)
    ensures StandsFor(tree, s, Splits(j, s))
    decreases j
  {
    if s != [] {
      if Found(j, s) {
        SplitSizes(j, s);
        TreeMembers(j - 1, Left(j, s), tree.left);
        TreeMembers(j - 1, Right(j, s), tree.right);
        NodeMembers(j, s, Left(j, s), Right(j, s), tree.left, tree.right, Splits(j - 1, Left(j, s)), Splits(j - 1, Right(j, s)));
      } else {
        assert s[0] in ToSet(s);
      }
    }
  }

  lemma NodeMembers(j: nat, s: seq<int>, left: seq<int>, right: seq<int>, l: Tree, r: Tree, lAll: bool, rAll: bool)
    requires Bounded(Range(j), s) && Found(j, s) && left == Left(j, s) && right == Right(j, s)
    requires Bounded(Range(j - 1), left) && Bounded(Range(j - 1), right)
    requires StandsFor(l, left, lAll) && StandsFor(r, right, rAll)
    ensures Range(j) > 0 && StandsFor(Node(Range(j), Pivot(j, s), l, r), s, lAll && rAll)
  {
    var m, v := Range(j), Pivot(j, s);
    RangeOdd(j);
    SplitMembers(m, s, v);
    HalvesMembers(m, v, Members(l), Members(r), ToSet(left), ToSet(right));
  }

  /** Two halves that are parts of the full ones make the whole exactly if both are full. */
  lemma HalvesMembers(m: int, v: int, ls: set<int>, rs: set<int>, left: set<int>, right: set<int>)
    requires m > 0 && m % 2 == 1 && 0 <= v < m && ls <= left && rs <= right
    requires (forall y :: y in left ==> 0 <= y < m / 2) && (forall y :: y in right ==> 0 <= y < m / 2)
    ensures var some := {v} + Shift(m, LeftOrigin(m, v), ls) + Shift(m, RightOrigin(m, v), rs);
            var whole := {v} + Shift(m, LeftOrigin(m, v), left) + Shift(m, RightOrigin(m, v), right);
            some <= whole && (some == whole <==> ls == left && rs == right)
  {
    var lo, ro := LeftOrigin(m, v), RightOrigin(m, v);
    var some := {v} + Shift(m, lo, ls) + Shift(m, ro, rs);
    forall y | y in left && y !in ls ensures Wrap(y + lo, m) !in some {
      OneHalf(m, v, y, true, ls, rs);
    }
    forall y | y in right && y !in rs ensures Wrap(y + ro, m) !in some {
      OneHalf(m, v, y, false, ls, rs);
    }
  }

  /** A position of one half that is missing there is nowhere else. */
  lemma OneHalf(m: int, v: int, y: int, inLeft: bool, ls: set<int>, rs: set<int>)
    requires m > 0 && m % 2 == 1 && 0 <= v < m && 0 <= y < m / 2
    requires (forall z :: z in ls ==> 0 <= z < m / 2) && (forall z :: z in rs ==> 0 <= z < m / 2)
    requires y !in if inLeft then ls else rs
    ensures Wrap(y + (if inLeft then LeftOrigin(m, v) else RightOrigin(m, v)), m)
            !in {v} + Shift(m, LeftOrigin(m, v), ls) + Shift(m, RightOrigin(m, v), rs)
  {
    var x := Wrap(y + (if inLeft then LeftOrigin(m, v) else RightOrigin(m, v)), m);
    PlaceInHalf(m, v, y, inLeft, x);
    NotShifted(m, LeftOrigin(m, v), ls, x);
    NotShifted(m, RightOrigin(m, v), rs, x);
  }

  lemma PlaceInHalf(m: int, v: int, y: int, inLeft: bool, x: int)
    requires m > 0 && m % 2 == 1 && 0 <= v < m && 0 <= y < m / 2
    requires x == Wrap(y + (if inLeft then LeftOrigin(m, v) else RightOrigin(m, v)), m)
    ensures x != v
    ensures var l, r := Wrap(x - LeftOrigin(m, v), m), Wrap(x - RightOrigin(m, v), m);
            if inLeft then l == y && r >= m / 2 else r == y && l >= m / 2
  {
    BackTo(y, if inLeft then LeftOrigin(m, v) else RightOrigin(m, v), m);
    HalvesCover(m, v, x);
  }

  lemma NotShifted(m: int, origin: int, zs: set<int>, x: int)
    requires m > 0 && 0 <= x < m && (forall z :: z in zs ==> 0 <= z < m) && Wrap(x - origin, m) !in zs
    ensures x !in Shift(m, origin, zs)
  {
    forall z | z in zs ensures Wrap(z + origin, m) != x {
      BackTo(z, origin, m);
    }
  }

  lemma BackTo(y: int, origin: int, m: int)
    requires m > 0 && 0 <= y < m
    ensures Wrap(Wrap(y + origin, m) - origin, m) == y
  {
    WrapAdd(y + origin, -origin, m);
    assert y + origin + -origin == y;
  }

  /** Every node carries an element of the tree ... */
  lemma {:induction false} ElemIsMember(tree: Tree, t: nat)
    requires At(tree, t)
    ensures Elem(tree, t) in Members(tree)
    decreases t
  {
    if t > 1 {
      ElemIsMember(if t % 2 == 0 then tree.left else tree.right, t / 2);
    }
  }

  lemma ElemLeft(tree: Tree, t: nat)
    requires tree.Node? && At(tree.left, t)
    ensures At(tree, 2 * t)
    ensures Elem(tree, 2 * t) == Wrap(Elem(tree.left, t) + LeftOrigin(tree.modulus, tree.value), tree.modulus)
  {
    assert (2 * t) / 2 == t && (2 * t) % 2 == 0;
  }

  lemma ElemRight(tree: Tree, t: nat)
    requires tree.Node? && At(tree.right, t)
    ensures At(tree, 2 * t + 1)
    ensures Elem(tree, 2 * t + 1) == Wrap(Elem(tree.right, t) + RightOrigin(tree.modulus, tree.value), tree.modulus)
  {
    assert (2 * t + 1) / 2 == t && (2 * t + 1) % 2 == 1;
  }

  lemma MemberCases(tree: Tree, x: int) returns (inLeft: bool, y: int)
    requires x in Members(tree) && x != tree.value
    ensures if inLeft then y in Members(tree.left) && x == Wrap(y + LeftOrigin(tree.modulus, tree.value), tree.modulus)
            else y in Members(tree.right) && x == Wrap(y + RightOrigin(tree.modulus, tree.value), tree.modulus)
  {
    var m, v := tree.modulus, tree.value;
    inLeft := x in Shift(m, LeftOrigin(m, v), Members(tree.left));
    if inLeft {
      y :| y in Members(tree.left) && x == Wrap(y + LeftOrigin(m, v), m);
    } else {
      y :| y in Members(tree.right) && x == Wrap(y + RightOrigin(m, v), m);
    }
  }

  /** ... and every element is carried by a node. */
  lemma {:induction false} MemberHasNode(tree: Tree, x: int) returns (t: nat)
    requires x in Members(tree)
    ensures At(tree, t) && Elem(tree, t) == x
    decreases tree, 1
  {
    if x == tree.value {
      t := 1;
    } else {
      var inLeft, y := MemberCases(tree, x);
      if inLeft {
        t := MemberInLeft(tree, y, x);
      } else {
        t := MemberInRight(tree, y, x);
      }
    }
  }

  lemma {:induction false} MemberInLeft(tree: Tree, y: int, x: int) returns (t: nat)
    requires tree.Node? && y in Members(tree.left)
    requires x == Wrap(y + LeftOrigin(tree.modulus, tree.value), tree.modulus)
    ensures At(tree, t) && Elem(tree, t) == x
    decreases tree, 0
  {
    var u := MemberHasNode(tree.left, y);
    t := 2 * u;
    ElemLeft(tree, u);
  }

  lemma {:induction false} MemberInRight(tree: Tree, y: int, x: int) returns (t: nat)
    requires tree.Node? && y in Members(tree.right)
    requires x == Wrap(y + RightOrigin(tree.modulus, tree.value), tree.modulus)
    ensures At(tree, t) && Elem(tree, t) == x
    decreases tree, 0
  {
    var u := MemberHasNode(tree.right, y);
    t := 2 * u + 1;
    ElemRight(tree, u);
  }

  /** The elements of the nodes from `from` on to n. */
  function Shown(tree: Tree, from: nat, n: nat): (r: set<int>) {
    set t | from <= t <= n && At(tree, t) :: Elem(tree, t)
  }

  /** Up to the last node, all elements are shown. */
  lemma ShownAll(tree: Tree, n: nat)
    requires Within(n, tree)
    ensures Shown(tree, 1, n) == Members(tree)
  {
    forall t: nat | 1 <= t <= n && At(tree, t) ensures Elem(tree, t) in Members(tree) {
      ElemIsMember(tree, t);
    }
    forall x | x in Members(tree) ensures x in Shown(tree, 1, n) {
      var t := MemberHasNode(tree, x);
      AtWithin(n, tree, t);
    }
  }
}
