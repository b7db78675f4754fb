/** Lists on a circle in which one value is there twice: own + [v], with v in own. Such a list reaches
    the range encoder of src/osmo-bsc/arfcn_range_encode.c from src/osmo-bsc/system_information.c. */
module RangeTwice {
  import opened Arith
  import opened RangeTree

  // ----- when the search fails -----

  /** The value v twice, everything else once: a pivot exists unless v itself has exactly half of the
      list ahead of it. */
  lemma PivotUnlessHalf(m: int, own: seq<int>, v: int) returns (i: int)
    requires m > 0 && m % 2 == 1 && WellFormed(m, own) && v in own && |own| >= 2
    requires After(m, own + [v], v) != |own| / 2
    ensures 0 <= i <= |own| && IsPivot(m, own + [v], i)
  {
    var s, half, h := own + [v], |own| / 2, (m - 1) / 2;
    var k := OtherThan(m, own, v);
    var x := s[k];
    OnceOrTwice(m, own, v, k);
    AfterAntipode(m, s, x);
    if After(m, s, x) == half {
      i := k;
    } else if After(m, s, x) > half {
      i := ComesDown(m, s, x, x + h, half);
    } else {
      WrapPeriod(x, m);
      SamePlaceCounts(m, s, x, x + m);
      i := ComesDown(m, s, x + h, x + m, half);
    }
    OnceOrTwice(m, own, v, i);
    NearSplit(m, s, s[i]);
  }

  lemma OtherThan(m: int, own: seq<int>, v: int) returns (k: int)
    requires WellFormed(m, own) && |own| >= 2
    ensures 0 <= k < |own| && own[k] != v
  {
    k := if own[|own| - 1] != v then |own| - 1 else |own| - 2;
    assert own[|own| - 2] in own[..|own| - 1];
  }

  /** How many points lie on the place of a list member. */
  lemma OnceOrTwice(m: int, own: seq<int>, v: int, i: int)
    requires m > 0 && WellFormed(m, own) && v in own && 0 <= i <= |own|
    ensures Hits(m, own + [v], (own + [v])[i]) == if (own + [v])[i] == v then 2 else 1
  {
    var s := own + [v];
    var x := s[i];
    assert s[..|own|] == own && x in own;
    var k :| 0 <= k < |own| && own[k] == x;
    HitsMember(m, own, k);
    HitsAtMostOne(m, own, x);
    WellFormedBounds(m, own, x);
    WellFormedBounds(m, own, v);
    if Wrap(v - x, m) == 0 {
      WrapEqual(v, x, x, m);
    }
  }

  /** v has exactly half of the others ahead of it, and no other value has. */
  predicate Stuck(m: int, own: seq<int>, v: int)
    requires m > 0
  {
    && After(m, own + [v], v) == |own| / 2
    && forall x :: x in own && x != v ==> After(m, own + [v], x) != |own| / 2
  }

  /** Search and count agree: v is there twice, everything else once. */
  lemma PivotCount(m: int, own: seq<int>, v: int, i: int)
    requires m > 0 && WellFormed(m, own) && v in own && 0 <= i <= |own|
    ensures IsPivot(m, own + [v], i)
            <==> After(m, own + [v], (own + [v])[i]) + (if (own + [v])[i] == v then 1 else 0) == |own| / 2
  {
    OnceOrTwice(m, own, v, i);
    NearSplit(m, own + [v], (own + [v])[i]);
  }

  /** The search fails exactly if the list is stuck. */
  lemma StuckNotFound(m: int, own: seq<int>, v: int)
    requires m > 0 && m % 2 == 1 && WellFormed(m, own) && v in own
    ensures FirstPivot(m, own + [v], 0) < 0 <==> Stuck(m, own, v)
  {
    if FirstPivot(m, own + [v], 0) >= 0 {
      FoundNotStuck(m, own, v);
    } else {
      NotFoundHalf(m, own, v);
      NotFoundOther(m, own, v);
    }
  }

  lemma FoundNotStuck(m: int, own: seq<int>, v: int)
    requires m > 0 && WellFormed(m, own) && v in own && FirstPivot(m, own + [v], 0) >= 0
    ensures !Stuck(m, own, v)
  {
    var i := FirstPivot(m, own + [v], 0);
    FirstPivotIs(m, own + [v], 0);
    PivotCount(m, own, v, i);
    assert (own + [v])[i] in own;
  }

  lemma NotFoundOther(m: int, own: seq<int>, v: int)
    requires m > 0 && WellFormed(m, own) && v in own && FirstPivot(m, own + [v], 0) < 0
    ensures forall x :: x in own && x != v ==> After(m, own + [v], x) != |own| / 2
  {
    forall x | x in own && x != v ensures After(m, own + [v], x) != |own| / 2 {
      var i :| 0 <= i < |own| && own[i] == x;
      if After(m, own + [v], x) == |own| / 2 {
        PivotCount(m, own, v, i);
        FirstPivotFinds(m, own + [v], 0, i);
      }
    }
  }

  lemma NotFoundHalf(m: int, own: seq<int>, v: int)
    requires m > 0 && m % 2 == 1 && WellFormed(m, own) && v in own && FirstPivot(m, own + [v], 0) < 0
    ensures After(m, own + [v], v) == |own| / 2
  {
    if |own| == 1 {
      assert own == [v] && v - v == 0;
      assert (own + [v])[..1] == [v] && [v][..0] == [];
    } else if After(m, own + [v], v) != |own| / 2 {
      var i := PivotUnlessHalf(m, own, v);
      FirstPivotFinds(m, own + [v], 0, i);
    }
  }

  // ----- when some search further down fails -----

  /** The origin of the half of p in which x lies. */
  function HalfOf(m: int, p: int, x: int): int
    requires m > 0
  {
    if Wrap(x - LeftOrigin(m, p), m) < m / 2 then LeftOrigin(m, p) else RightOrigin(m, p)
  }

  /** Down the one path on which v is still there twice, no list is stuck before v is picked. */
  predicate Passes(j: nat, own: seq<int>, v: int)
    decreases j, 1
  {
    j > 0 && (
      RangeOdd(j);
      var m := Range(j);
      !Stuck(m, own, v) && Found(j, own + [v]) && (
        var p := Pivot(j, own + [v]);
        p == v || PassesIn(j, own, v, HalfOf(m, p, v))))
  }

  /** The same in the half that begins at `origin`. */
  predicate PassesIn(j: nat, own: seq<int>, v: int, origin: int)
    requires j > 0 && Range(j) > 0
    decreases j, 0
  {
    Passes(j - 1, Part(Range(j), own, origin), Wrap(v - origin, Range(j)))
  }

  lemma PartAppend(m: int, own: seq<int>, v: int, origin: int)
    requires m > 0
    ensures Part(m, own + [v], origin)
            == Part(m, own, origin) + if Wrap(v - origin, m) < m / 2 then [Wrap(v - origin, m)] else []
  {
    assert (own + [v])[..|own|] == own;
  }

  lemma PartEncodable(j: nat, own: seq<int>, origin: int)
    requires j > 0 && Range(j) > 0 && Encodable(j, own)
    ensures Encodable(j - 1, Part(Range(j), own, origin))
  {
    RangeOdd(j);
    PartWellFormed(Range(j), own, origin);
  }

  /** The half without v splits all the way down. */
  lemma OtherHalf(j: nat, own: seq<int>, v: int, origin: int, part: seq<int>)
    requires j > 0 && Range(j) > 0 && Encodable(j, own) && Wrap(v - origin, Range(j)) >= Range(j) / 2
    requires part == Part(Range(j), own + [v], origin)
    ensures Splits(j - 1, part)
  {
    PartAppend(Range(j), own, v, origin);
    assert part == Part(Range(j), own, origin);
    PartEncodable(j, own, origin);
    EncodableSplits(j - 1, part);
  }

  /** The half with v is again such a list. */
  lemma SameHalf(j: nat, own: seq<int>, v: int, origin: int, part: seq<int>)
    requires j > 0 && Range(j) > 0 && Encodable(j, own) && v in own && Wrap(v - origin, Range(j)) < Range(j) / 2
    requires part == Part(Range(j), own + [v], origin)
    ensures Splits(j - 1, part) <==> PassesIn(j, own, v, origin)
    decreases j, 0
  {
    PartAppend(Range(j), own, v, origin);
    PartEncodable(j, own, origin);
    WellFormedBounded(Range(j), own);
    PartOf(Range(j), own, origin, v);
    SplitsPath(j - 1, Part(Range(j), own, origin), Wrap(v - origin, Range(j)));
  }

  /** No search fails exactly if the path passes. */
  lemma {:induction false} SplitsPath(j: nat, own: seq<int>, v: int)
    requires Encodable(j, own) && v in own
    ensures Splits(j, own + [v]) <==> Passes(j, own, v)
    decreases j, 2
  {
    NonEmptyHasRange(j, own);
    RangeOdd(j);
    var m, s := Range(j), own + [v];
    StuckNotFound(m, own, v);
    if Found(j, s) {
      PathBelow(j, own, v, Pivot(j, s), Left(j, s), Right(j, s));
    }
  }

  /** One level of it. */
  lemma {:induction false} PathBelow(j: nat, own: seq<int>, v: int, p: int, left: seq<int>, right: seq<int>)
    requires j > 0 && Range(j) > 0 && Encodable(j, own) && v in own && p in own
    requires left == Part(Range(j), own + [v], LeftOrigin(Range(j), p))
    requires right == Part(Range(j), own + [v], RightOrigin(Range(j), p))
    ensures Splits(j - 1, left) && Splits(j - 1, right) <==> p == v || PassesIn(j, own, v, HalfOf(Range(j), p, v))
    decreases j, 1
  {
    var m := Range(j);
    VInOneHalf(j, own, v, p);
    var l, r := LeftOrigin(m, p), RightOrigin(m, p);
    if p == v {
      OtherHalf(j, own, v, l, left);
      OtherHalf(j, own, v, r, right);
    } else if Wrap(v - l, m) < m / 2 {
      OtherHalf(j, own, v, r, right);
      SameHalf(j, own, v, l, left);
    } else {
      OtherHalf(j, own, v, l, left);
      SameHalf(j, own, v, r, right);
    }
  }

  lemma VInOneHalf(j: nat, own: seq<int>, v: int, p: int)
    requires j > 0 && Range(j) > 0 && Encodable(j, own) && v in own && p in own
    ensures var l, r := Wrap(v - LeftOrigin(Range(j), p), Range(j)) < Range(j) / 2,
                        Wrap(v - RightOrigin(Range(j), p), Range(j)) < Range(j) / 2;
            (v != p <==> l || r) && !(l && r)
  {
    RangeOdd(j);
    WellFormedBounds(Range(j), own, p);
    WellFormedBounds(Range(j), own, v);
    HalvesCover(Range(j), p, v);
  }
}
