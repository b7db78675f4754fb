/** What the encoder makes of values that are not on the circle: search and split see them modulo the
    range, so only the root can carry a value as it is. Turning the root's value turns the whole tree. */
module RangeTurn {
  import opened Arith
  import opened RangeTree

  // ----- lists that differ by whole turns -----

  predicate Alike(m: int, s: seq<int>, s': seq<int>)
    requires m > 0
  {
    |s| == |s'| && forall i :: 0 <= i < |s| ==> Wrap(s[i], m) == Wrap(s'[i], m)
  }

  lemma AlikeFront(m: int, s: seq<int>, s': seq<int>)
    requires m > 0 && Alike(m, s, s') && s != []
    ensures Alike(m, s[..|s| - 1], s'[..|s'| - 1])
  {
  }

  lemma WrapLike(a: int, a': int, x: int, x': int, m: int)
    requires m > 0 && Wrap(a, m) == Wrap(a', m) && Wrap(x, m) == Wrap(x', m)
    ensures Wrap(a - x, m) == Wrap(a' - x', m)
  {
    WrapSub(a, x, m);
    WrapSub(a', x', m);
    WrapAdd(a, -Wrap(x, m), m);
    WrapAdd(a', -Wrap(x', m), m);
  }

  lemma {:induction false} NearLike(m: int, s: seq<int>, s': seq<int>, x: int, x': int)
    requires m > 0 && Alike(m, s, s') && Wrap(x, m) == Wrap(x', m)
    ensures Near(m, s, x) == Near(m, s', x')
  {
    if s != [] {
      AlikeFront(m, s, s');
      NearLike(m, s[..|s| - 1], s'[..|s'| - 1], x, x');
      WrapLike(s[|s| - 1], s'[|s'| - 1], x, x', m);
    }
  }

  lemma {:induction false} FirstPivotLike(m: int, s: seq<int>, s': seq<int>, from: nat)
    requires m > 0 && Alike(m, s, s') && from <= |s|
    ensures FirstPivot(m, s, from) == FirstPivot(m, s', from)
    decreases |s| - from
  {
    if from < |s| {
      NearLike(m, s, s', s[from], s'[from]);
      FirstPivotLike(m, s, s', from + 1);
    }
  }

  lemma {:induction false} PartLike(m: int, s: seq<int>, s': seq<int>, origin: int)
    requires m > 0 && Alike(m, s, s')
    ensures Part(m, s, origin) == Part(m, s', origin)
  {
    if s != [] {
      AlikeFront(m, s, s');
      PartLike(m, s[..|s| - 1], s'[..|s'| - 1], origin);
      WrapLike(s[|s| - 1], s'[|s'| - 1], origin, origin, m);
    }
  }

  lemma OriginsLike(m: int, v: int, v': int)
    requires m > 0 && Wrap(v, m) == Wrap(v', m)
    ensures LeftOrigin(m, v) == LeftOrigin(m, v') && RightOrigin(m, v) == RightOrigin(m, v')
  {
    ShiftLike(v, v', (m - 1) / 2 + 1, m);
    ShiftLike(v, v', 1, m);
  }

  lemma ShiftLike(v: int, v': int, k: int, m: int)
    requires m > 0 && Wrap(v, m) == Wrap(v', m)
    ensures Wrap(v + k, m) == Wrap(v' + k, m)
  {
    WrapAdd(v, k, m);
    WrapAdd(v', k, m);
  }

  /** Alike lists have the same tree, but for the value at the root. */
  lemma BuildLike(j: nat, s: seq<int>, s': seq<int>)
    requires j > 0 && Range(j) > 0 && Alike(Range(j), s, s')
    ensures PivotIndex(j, s) == PivotIndex(j, s')
    ensures Found(j, s) ==> Build(j, s').Node? && Build(j, s) == Build(j, s').(value := Pivot(j, s))
    ensures !Found(j, s) ==> Build(j, s) == Build(j, s') == Nil
  {
    var m := Range(j);
    FirstPivotLike(m, s, s', 0);
    if Found(j, s) {
      var v, v' := Pivot(j, s), Pivot(j, s');
      OriginsLike(m, v, v');
      PartLike(m, s, s', LeftOrigin(m, v));
      PartLike(m, s, s', RightOrigin(m, v));
    }
  }

  // ----- the elements of different nodes -----

  lemma {:induction false} ElemBounds(j: nat, tree: Tree, t: nat)
    requires InRange(j, tree) && At(tree, t)
    ensures 0 <= Elem(tree, t) < Range(j)
    decreases t
  {
  }

  function Origin(m: int, v: int, left: bool): int
    requires m > 0
  {
    if left then LeftOrigin(m, v) else RightOrigin(m, v)
  }

  function SubOf(tree: Tree, left: bool): Tree
    requires tree.Node?
  {
    if left then tree.left else tree.right
  }

  lemma ElemBelow(tree: Tree, t: nat, left: bool)
    requires At(tree, t) && t > 1 && left == (t % 2 == 0)
    ensures At(SubOf(tree, left), t / 2)
    ensures Elem(tree, t) == Wrap(Elem(SubOf(tree, left), t / 2) + Origin(tree.modulus, tree.value, left), tree.modulus)
  {
  }

  /** x is y places into one half, so it is not the pivot and not in the other half. */
  predicate OnSide(m: int, v: int, y: int, left: bool, x: int)
    requires m > 0
  {
    x != v && Wrap(x - Origin(m, v, left), m) == y < m / 2 && Wrap(x - Origin(m, v, !left), m) >= m / 2
  }

  lemma SidePlace(m: int, v: int, y: int, left: bool, x: int)
    requires m > 0 && m % 2 == 1 && 0 <= v < m && 0 <= y < m / 2 && x == Wrap(y + Origin(m, v, left), m)
    ensures OnSide(m, v, y, left, x)
  {
    BackTo(y, Origin(m, v, left), m);
    HalvesCover(m, v, x);
  }

  /** An element below the root lies in the half of its subtree and nowhere else. */
  lemma SideOf(j: nat, tree: Tree, t: nat, left: bool)
    requires InRange(j, tree) && At(tree, t) && t > 1 && left == (t % 2 == 0)
    ensures At(SubOf(tree, left), t / 2)
    ensures OnSide(tree.modulus, tree.value, Elem(SubOf(tree, left), t / 2), left, Elem(tree, t))
  {
    RangeOdd(j);
    ElemBelow(tree, t, left);
    ElemBounds(j - 1, SubOf(tree, left), t / 2);
    SidePlace(tree.modulus, tree.value, Elem(SubOf(tree, left), t / 2), left, Elem(tree, t));
  }

  /** Different nodes carry different elements. */
  lemma {:induction false} ElemDistinct(j: nat, tree: Tree, t: nat, u: nat)
    requires InRange(j, tree) && At(tree, t) && At(tree, u) && t != u
    ensures Elem(tree, t) != Elem(tree, u)
    decreases t
  {
    if t > 1 {
      SideOf(j, tree, t, t % 2 == 0);
    }
    if u > 1 {
      SideOf(j, tree, u, u % 2 == 0);
    }
    if t > 1 && u > 1 && t % 2 == u % 2 {
      ElemDistinct(j - 1, SubOf(tree, t % 2 == 0), t / 2, u / 2);
    }
  }

  // ----- turning -----

  /** Everything d places back. */
  function Turn(m: int, d: int, xs: set<int>): (r: set<int>)
    requires m > 0
  {
    set x | x in xs :: Wrap(x - d, m)
  }

  lemma TurnPlace(m: int, v: int, c: int, y: int, k: int)
    requires m > 0
    ensures Wrap(y + Wrap(c + k, m), m) == Wrap(Wrap(y + Wrap(v + k, m), m) - (v - c), m)
  {
    WrapAdd(c + k, y, m);
    WrapAdd(v + k, y, m);
    WrapAdd(v + k + y, c - v, m);
    assert Wrap(c + k, m) + y == y + Wrap(c + k, m);
    assert Wrap(v + k, m) + y == y + Wrap(v + k, m);
    assert v + k + y + (c - v) == c + k + y;
  }

  /** With another value at the root every element turns by the difference ... */
  lemma ElemTurns(j: nat, tree: Tree, c: int, t: nat)
    requires InRange(j, tree) && At(tree, t) && 0 <= c < tree.modulus
    ensures At(tree.(value := c), t)
    ensures Elem(tree.(value := c), t) == Wrap(Elem(tree, t) - (tree.value - c), tree.modulus)
  {
    if t > 1 {
      TurnBelow(tree, tree.(value := c), t, t % 2 == 0);
    }
  }

  lemma TurnBelow(tree: Tree, tree': Tree, t: nat, left: bool)
    requires At(tree, t) && At(tree', t) && t > 1 && left == (t % 2 == 0) && tree.modulus == tree'.modulus > 0
    requires SubOf(tree, left) == SubOf(tree', left)
    ensures Elem(tree', t) == Wrap(Elem(tree, t) - (tree.value - tree'.value), tree.modulus)
  {
    ElemBelow(tree, t, left);
    ElemBelow(tree', t, left);
    TurnSide(tree.modulus, tree.value, tree'.value, Elem(SubOf(tree, left), t / 2), left);
  }

  /** ... and the other words stay. */
  lemma WordsStay(tree: Tree, c: int, t: nat)
    requires tree.Node?
    ensures At(tree.(value := c), t) <==> At(tree, t)
    ensures At(tree, t) && t > 1 ==> Word(tree.(value := c), t) == Word(tree, t)
  {
  }

  lemma ShownTurns(j: nat, tree: Tree, c: int, from: nat, n: nat)
    requires InRange(j, tree) && tree.Node? && 0 <= c < tree.modulus
    ensures Shown(tree.(value := c), from, n) == Turn(tree.modulus, tree.value - c, Shown(tree, from, n))
  {
    var tree', d := tree.(value := c), tree.value - c;
    var turned := Turn(tree.modulus, d, Shown(tree, from, n));
    forall t: nat | from <= t <= n && At(tree', t) ensures Elem(tree', t) in turned {
      WordsStay(tree, c, t);
      ElemTurns(j, tree, c, t);
      assert Elem(tree, t) in Shown(tree, from, n);
    }
    forall y | y in turned ensures y in Shown(tree', from, n) {
      var x := TurnOut(tree.modulus, d, Shown(tree, from, n), y);
      var t: nat :| from <= t <= n && At(tree, t) && Elem(tree, t) == x;
      ElemTurns(j, tree, c, t);
    }
  }

  lemma TurnOut(m: int, d: int, xs: set<int>, y: int) returns (x: int)
    requires m > 0 && y in Turn(m, d, xs)
    ensures x in xs && y == Wrap(x - d, m)
  {
    x :| x in xs && y == Wrap(x - d, m);
  }

  lemma TurnSplit(m: int, d: int, xs: set<int>, x: int)
    requires m > 0 && x in xs
    ensures Turn(m, d, xs) == Turn(m, d, xs - {x}) + {Wrap(x - d, m)}
  {
    forall y | y in Turn(m, d, xs) ensures y in Turn(m, d, xs - {x}) || y == Wrap(x - d, m) {
      var z := TurnOut(m, d, xs, y);
      assert z in xs - {x} || z == x;
    }
    forall y | y in Turn(m, d, xs - {x}) ensures y in Turn(m, d, xs) {
      var z := TurnOut(m, d, xs - {x}, y);
      assert z in xs;
    }
  }

  lemma TurnSide(m: int, v: int, c: int, y: int, left: bool)
    requires m > 0
    ensures Wrap(y + Origin(m, c, left), m) == Wrap(Wrap(y + Origin(m, v, left), m) - (v - c), m)
  {
    var h := (m - 1) / 2;
    TurnPlace(m, v, c, y, if left then h + 1 else 1);
    assert v + h + 1 == v + (h + 1) && c + h + 1 == c + (h + 1);
  }

  // ----- all nodes but one -----

  /** Without the word of the last node exactly its element is missing. */
  lemma ShownButLast(j: nat, tree: Tree, n: nat)
    requires InRange(j, tree) && Within(n, tree) && n > 0
    ensures Shown(tree, 1, n - 1) == Members(tree) - if At(tree, n) then {Elem(tree, n)} else {}
  {
    ShownAll(tree, n);
    forall t: nat | 1 <= t <= n - 1 && At(tree, t) ensures At(tree, n) ==> Elem(tree, t) != Elem(tree, n) {
      if At(tree, n) {
        ElemDistinct(j, tree, t, n);
      }
    }
    ShownOneMore(tree, n);
  }

  lemma ShownOneMore(tree: Tree, n: nat)
    requires n > 0
    ensures Shown(tree, 1, n) == Shown(tree, 1, n - 1) + if At(tree, n) then {Elem(tree, n)} else {}
  {
  }

  /** Without the word of the root exactly its value is missing. */
  lemma ShownButFirst(j: nat, tree: Tree, n: nat)
    requires InRange(j, tree) && Within(n, tree) && tree.Node?
    ensures Shown(tree, 2, n) == Members(tree) - {tree.value}
  {
    ShownAll(tree, n);
    forall t: nat | 2 <= t <= n && At(tree, t) ensures Elem(tree, t) != tree.value {
      ElemDistinct(j, tree, t, 1);
    }
  }

  /** Without either, at least one element below the root is missing. */
  lemma ShownFew(j: nat, tree: Tree, n: nat)
    requires InRange(j, tree) && Balanced(n, tree) && n >= 2
    ensures var below := Members(tree) - {tree.value};
            Shown(tree, 2, n - 1) <= below && |Shown(tree, 2, n - 1)| < |below|
  {
    BalancedWithin(n, tree);
    AtBalanced(n, tree, n);
    var below, last := Members(tree) - {tree.value}, Elem(tree, n);
    ShownButFirst(j, tree, n);
    assert last in Shown(tree, 2, n);
    ShownNotLast(j, tree, n);
    SubsetSize(Shown(tree, 2, n - 1), below - {last});
  }

  lemma ShownNotLast(j: nat, tree: Tree, n: nat)
    requires InRange(j, tree) && At(tree, n) && n >= 2
    ensures Shown(tree, 2, n - 1) <= Shown(tree, 2, n) - {Elem(tree, n)}
  {
    forall t: nat | 2 <= t <= n - 1 && At(tree, t) ensures Elem(tree, t) != Elem(tree, n) {
      ElemDistinct(j, tree, t, n);
    }
  }

  // ----- sets on the circle -----

  predicate OnCircle(m: int, xs: set<int>) {
    forall x :: x in xs ==> 0 <= x < m
  }

  lemma {:induction false} TurnSize(m: int, d: int, xs: set<int>)
    requires m > 0 && OnCircle(m, xs)
    ensures |Turn(m, d, xs)| == |xs|
    decreases xs
  {
    if exists x :: x in xs {
      var x :| x in xs;
      var rest := xs - {x};
      TurnSize(m, d, rest);
      TurnSplit(m, d, xs, x);
      if Wrap(x - d, m) in Turn(m, d, rest) {
        var y := TurnOut(m, d, rest, Wrap(x - d, m));
        WrapEqual(x, y, d, m);
      }
    } else {
      assert xs == {} && Turn(m, d, {}) == {};
    }
  }

  lemma TurnBack(m: int, d: int, x: int)
    requires m > 0 && 0 <= x < m
    ensures Wrap(Wrap(x - d, m) + d, m) == x
  {
    WrapAdd(x - d, d, m);
  }

  /** The place k steps of d after x. */
  function Walk(m: int, d: int, x: int, k: nat): (y: int)
    requires m > 0 && 0 <= x < m
    ensures 0 <= y < m
  {
    if k == 0 then x else Wrap(Walk(m, d, x, k - 1) + d, m)
  }

  lemma {:induction false} WalkOn(m: int, d: int, x: int, i: nat, k: nat)
    requires m > 0 && 0 <= x < m
    ensures Walk(m, d, x, i + k) == Walk(m, d, Walk(m, d, x, i), k)
  {
    if k > 0 {
      WalkOn(m, d, x, i, k - 1);
    }
  }

  lemma {:induction false} WalkFrom(m: int, d: int, x: int, k: nat)
    requires m > 0 && 0 <= x < m
    ensures Walk(m, d, x, k) == Wrap(x + Walk(m, d, 0, k), m)
  {
    if k > 0 {
      WalkFrom(m, d, x, k - 1);
      StepFrom(m, d, x, Walk(m, d, 0, k - 1));
    }
  }

  lemma StepFrom(m: int, d: int, x: int, w: int)
    requires m > 0
    ensures Wrap(Wrap(x + w, m) + d, m) == Wrap(x + Wrap(w + d, m), m)
  {
    WrapAdd(x + w, d, m);
    WrapAdd(w + d, x, m);
    assert Wrap(w + d, m) + x == x + Wrap(w + d, m);
    assert w + d + x == x + w + d;
  }

  function Next(m: int, d: int, p: int): int {
    if p + d < m then p + d else p + d - m
  }

  lemma NextIsWalk(m: int, d: int, p: int)
    requires 0 <= d <= m && 0 <= p < m
    ensures Next(m, d, p) == Wrap(p + d, m)
  {
  }

  /** No walk of 1 to k steps comes back, seen from place p. */
  predicate NoReturn(m: int, d: int, p: int, k: nat)
    decreases k
  {
    k == 0 || (Next(m, d, p) != 0 && NoReturn(m, d, Next(m, d, p), k - 1))
  }

  lemma {:induction false} NoReturnAt(m: int, d: int, p: int, k: nat, i: nat)
    requires 0 <= d <= m && 0 <= p < m && NoReturn(m, d, p, k) && 1 <= i <= k
    ensures Walk(m, d, p, i) != 0
    decreases i
  {
    NextIsWalk(m, d, p);
    WalkOn(m, d, p, 1, i - 1);
    assert Walk(m, d, p, 0) == p;
    if i > 1 {
      NoReturnAt(m, d, Next(m, d, p), k - 1, i - 1);
    }
  }

  /** A walk visits different places as long as it does not come back. */
  lemma WalkDistinct(m: int, d: int, x: int, i: nat, k: nat)
    requires 0 <= d <= m && 0 <= x < m && NoReturn(m, d, 0, k) && i < k
    ensures Walk(m, d, x, i) != Walk(m, d, x, k)
  {
    var p, w := Walk(m, d, x, i), Walk(m, d, 0, k - i);
    WalkOn(m, d, x, i, k - i);
    WalkFrom(m, d, p, k - i);
    NoReturnAt(m, d, 0, k, k - i);
    assert p + w < 2 * m;
  }

  lemma {:induction false} NoReturnLess(m: int, d: int, p: int, k: nat, i: nat)
    requires NoReturn(m, d, p, k) && i <= k
    ensures NoReturn(m, d, p, i)
    decreases i
  {
    if i > 0 {
      NoReturnLess(m, d, Next(m, d, p), k - 1, i - 1);
    }
  }

  /** The places visited in k steps. */
  function Trail(m: int, d: int, x: int, k: nat): (r: set<int>)
    requires m > 0 && 0 <= x < m
  {
    if k == 0 then {x} else Trail(m, d, x, k - 1) + {Walk(m, d, x, k)}
  }

  lemma {:induction false} TrailFrom(m: int, d: int, x: int, k: nat, y: int) returns (i: nat)
    requires m > 0 && 0 <= x < m && y in Trail(m, d, x, k)
    ensures i <= k && y == Walk(m, d, x, i)
  {
    i := k;
    if y != Walk(m, d, x, k) {
      i := TrailFrom(m, d, x, k - 1, y);
    }
  }

  lemma {:induction false} TrailSize(m: int, d: int, x: int, k: nat)
    requires 0 <= d <= m && 0 <= x < m && NoReturn(m, d, 0, k)
    ensures |Trail(m, d, x, k)| == k + 1
  {
    if k > 0 {
      NoReturnLess(m, d, 0, k, k - 1);
      TrailSize(m, d, x, k - 1);
      if Walk(m, d, x, k) in Trail(m, d, x, k - 1) {
        var i := TrailFrom(m, d, x, k - 1, Walk(m, d, x, k));
        WalkDistinct(m, d, x, i, k);
      }
    }
  }

  lemma SubsetSize(a: set<int>, b: set<int>)
    requires a <= b
    ensures |a| <= |b|
  {
    assert b == a + (b - a);
  }

  function Stepped(m: int, d: int, x: int): int
    requires m > 0
  {
    Wrap(x + d, m)
  }

  /** A step of d from xs leads into xs, or to e. */
  predicate StepsTo(m: int, d: int, xs: set<int>, e: int) {
    m > 0 && forall x {:trigger Stepped(m, d, x)} :: x in xs ==> Stepped(m, d, x) in xs || Stepped(m, d, x) == e
  }

  /** It always leads into xs. */
  predicate Closed(m: int, d: int, xs: set<int>) {
    m > 0 && forall x {:trigger Stepped(m, d, x)} :: x in xs ==> Stepped(m, d, x) in xs
  }

  /** A walk from xs that could only leave it through e does so within |xs| steps. */
  lemma {:induction false} MeetsEnd(m: int, d: int, xs: set<int>, e: int, x: int, k: nat, i: nat) returns (n: nat)
    requires 0 <= d <= m && OnCircle(m, xs) && x in xs && |xs| <= k && NoReturn(m, d, 0, k) && StepsTo(m, d, xs, e)
    requires i <= k && Trail(m, d, x, i) <= xs
    ensures 1 <= n <= k && Walk(m, d, x, n) == e
    decreases k - i
  {
    NoReturnLess(m, d, 0, k, i);
    TrailSize(m, d, x, i);
    SubsetSize(Trail(m, d, x, i), xs);
    assert Walk(m, d, x, i) in Trail(m, d, x, i);
    assert Walk(m, d, x, i + 1) == Stepped(m, d, Walk(m, d, x, i));
    if Walk(m, d, x, i + 1) in xs {
      n := MeetsEnd(m, d, xs, e, x, k, i + 1);
    } else {
      n := i + 1;
    }
  }

  /** So a set that steps of d never leave has more than k places. */
  lemma StaysLarge(m: int, d: int, xs: set<int>, x: int, k: nat)
    requires 0 <= d <= m && OnCircle(m, xs) && x in xs && NoReturn(m, d, 0, k) && Closed(m, d, xs)
    ensures |xs| > k
  {
    if |xs| <= k {
      var n := MeetsEnd(m, d, xs, -1, x, k, 0);
      assert false;
    }
  }

  // ----- how many places of a walk lie ahead of its end -----

  predicate IsAhead(m: int, y: int)
    requires m > 0
  {
    1 <= Wrap(y, m) <= (m - 1) / 2
  }

  /** Of the places 1 to k steps of d before the end of a walk, those in the half circle after it; seen
      from p, the steps already counted. */
  function AheadCount(m: int, d: int, p: int, k: nat): (n: nat)
    decreases k
  {
    if k == 0 then 0
    else (if 2 * Next(m, d, p) > m then 1 else 0) + AheadCount(m, d, Next(m, d, p), k - 1)
  }

  function Ahead(m: int, d: int, p: int, k: nat): (r: set<int>)
    decreases k
  {
    if k == 0 then {}
    else (if 2 * Next(m, d, p) > m then {m - Next(m, d, p)} else {}) + Ahead(m, d, Next(m, d, p), k - 1)
  }

  lemma {:induction false} AheadSize(m: int, d: int, p: int, k: nat)
    ensures |Ahead(m, d, p, k)| <= AheadCount(m, d, p, k)
    decreases k
  {
    if k > 0 {
      AheadSize(m, d, Next(m, d, p), k - 1);
    }
  }

  lemma {:induction false} AheadHas(m: int, d: int, p: int, k: nat, i: nat)
    requires 0 <= d <= m && 0 <= p < m && 1 <= i <= k && 2 * Walk(m, d, p, i) > m
    ensures m - Walk(m, d, p, i) in Ahead(m, d, p, k)
    decreases i
  {
    NextIsWalk(m, d, p);
    WalkOn(m, d, p, 1, i - 1);
    assert Walk(m, d, p, 0) == p;
    if i > 1 {
      AheadHas(m, d, Next(m, d, p), k - 1, i - 1);
    }
  }

  lemma AheadOfEnd(m: int, w: int)
    requires m > 0 && m % 2 == 1 && 0 <= w < m && IsAhead(m, -w)
    ensures 2 * w > m && Wrap(-w, m) == m - w
  {
    if w > 0 {
      assert Wrap(-w, m) == Wrap(-w + m, m) == m - w;
    }
  }

  /** Where the start of a walk lies, seen from its end. */
  lemma WalkStart(m: int, d: int, x: int, i: nat)
    requires m > 0 && 0 <= x < m
    ensures Wrap(x - Walk(m, d, x, i), m) == Wrap(-Walk(m, d, 0, i), m)
  {
    var w := Walk(m, d, 0, i);
    WalkFrom(m, d, x, i);
    WrapSub(x, x + w, m);
    assert x - (x + w) == -w;
  }

  /** The places of xs in the half circle after e. */
  function AfterSet(m: int, xs: set<int>, e: int): (r: set<int>)
    requires m > 0
  {
    set x | x in xs && IsAhead(m, x - e)
  }

  /** If steps of d lead from all of xs to e, no more of xs lies ahead of e than of such a walk. */
  lemma AheadBound(m: int, d: int, xs: set<int>, e: int, k: nat)
    requires 0 <= d <= m && m % 2 == 1 && 0 <= e < m && OnCircle(m, xs) && StepsTo(m, d, xs, e)
    requires |xs| <= k && NoReturn(m, d, 0, k)
    ensures |AfterSet(m, xs, e)| <= AheadCount(m, d, 0, k)
  {
    var g := AfterSet(m, xs, e);
    var turned := Turn(m, e, g);
    forall y | y in turned ensures y in Ahead(m, d, 0, k) {
      var x := TurnOut(m, e, g, y);
      var n := MeetsEnd(m, d, xs, e, x, k, 0);
      WalkStart(m, d, x, n);
      AheadOfEnd(m, Walk(m, d, 0, n));
      AheadHas(m, d, 0, k, n);
    }
    TurnSize(m, e, g);
    SubsetSize(turned, Ahead(m, d, 0, k));
    AheadSize(m, d, 0, k);
  }

  lemma {:induction false} AfterIsSize(m: int, s: seq<int>, x: int)
    requires m > 0 && WellFormed(m, s)
    ensures After(m, s, x) == |AfterSet(m, ToSet(s), x)|
  {
    if s != [] {
      var s', v := s[..|s| - 1], s[|s| - 1];
      AfterIsSize(m, s', x);
      var rest := AfterSet(m, ToSet(s'), x);
      assert ToSet(s) == ToSet(s') + {v};
      assert AfterSet(m, ToSet(s), x) == rest + if IsAhead(m, v - x) then {v} else {};
    } else {
      assert AfterSet(m, ToSet(s), x) == {};
    }
  }

  /** k steps from p do not come back and leave at most n places ahead. */
  predicate Legs(m: int, d: int, p: int, k: nat, n: nat) {
    NoReturn(m, d, p, k) && AheadCount(m, d, p, k) <= n
  }

  lemma LegsEnd(m: int, d: int, p: int)
    ensures Legs(m, d, p, 0, 0)
  {
  }

  /** k steps that stay in one half circle, then the rest. */
  lemma {:induction false} Leg(m: int, d: int, p: int, k: nat, rest: nat, n: nat)
    requires d > 0 && p >= 0 && p + d * k < m && (2 * (p + d * k) <= m || 2 * (p + d) > m)
    requires Legs(m, d, p + d * k, rest, n)
    ensures Legs(m, d, p, k + rest, n + if 2 * (p + d) > m then k else 0)
    decreases k
  {
    if k > 0 {
      OneStepLess(d, k);
      assert k + rest - 1 == k - 1 + rest;
      if k > 1 {
        Leg(m, d, p + d, k - 1, rest, n);
      }
    }
  }

  lemma OneStepLess(d: int, k: nat)
    requires d > 0 && k > 0
    ensures d * k == d + d * (k - 1) && d * (k - 1) >= if k > 1 then d else 0
  {
  }

  /** A step across the end of the circle into its first half. */
  lemma LegAcross(m: int, d: int, p: int, rest: nat, n: nat)
    requires p + d > m && 2 * (p + d - m) <= m && Legs(m, d, p + d - m, rest, n)
    ensures Legs(m, d, p, 1 + rest, n)
  {
  }

  /** Steps of up to 8 on 127 places do not come back soon and leave fewer than 14 of 28 ahead. */
  lemma StepsOn127(m: int, d: int)
    requires m == 127 && 1 <= d <= 8
    ensures Legs(m, d, 0, 28, 13)
  {
    if d <= 4 {
      StepsUpTo4(m, d);
    } else if d == 5 {
      StepsOf5(m, d);
    } else if d == 6 {
      StepsOf6(m, d);
    } else if d == 7 {
      StepsOf7(m, d);
    } else {
      StepsOf8(m, d);
    }
  }

  lemma StepsUpTo4(m: int, d: int)
    requires m == 127 && 1 <= d <= 4
    ensures Legs(m, d, 0, 28, 13)
  {
    if d <= 2 {
      StepsOnMore(m, d, 28);
    } else if d == 3 {
      StepsOf3(m, d);
    } else {
      StepsOf4(m, d);
    }
  }

  lemma StepsOf3(m: int, d: int)
    requires m == 127 && d == 3
    ensures Legs(m, d, 0, 28, 13)
  {
    LegsEnd(m, d, 84);
    Leg(m, d, 63, 7, 0, 0);
    Leg(m, d, 0, 21, 7, 7);
  }

  lemma StepsOf4(m: int, d: int)
    requires m == 127 && d == 4
    ensures Legs(m, d, 0, 28, 13)
  {
    LegsEnd(m, d, 112);
    Leg(m, d, 60, 13, 0, 0);
    Leg(m, d, 0, 15, 13, 13);
  }

  lemma StepsOf5(m: int, d: int)
    requires m == 127 && d == 5
    ensures Legs(m, d, 0, 28, 13)
  {
    LegsEnd(m, d, 13);
    Leg(m, d, 3, 2, 0, 0);
    LegAcross(m, d, 125, 2, 0);
    Leg(m, d, 60, 13, 3, 0);
    Leg(m, d, 0, 12, 16, 13);
  }

  lemma StepsOf6(m: int, d: int)
    requires m == 127 && d == 6
    ensures Legs(m, d, 0, 28, 13)
  {
    LegsEnd(m, d, 41);
    Leg(m, d, 5, 6, 0, 0);
    LegAcross(m, d, 126, 6, 0);
    Leg(m, d, 60, 11, 7, 0);
    Leg(m, d, 0, 10, 18, 11);
  }

  lemma StepsOf7(m: int, d: int)
    requires m == 127 && d == 7
    ensures Legs(m, d, 0, 28, 13)
  {
    LegsEnd(m, d, 69);
    Leg(m, d, 62, 1, 0, 0);
    Leg(m, d, 6, 8, 1, 1);
    LegAcross(m, d, 126, 9, 1);
    Leg(m, d, 63, 9, 10, 1);
    Leg(m, d, 0, 9, 19, 10);
  }

  lemma StepsOf8(m: int, d: int)
    requires m == 127 && d == 8
    ensures Legs(m, d, 0, 28, 13)
  {
    LegsEnd(m, d, 97);
    Leg(m, d, 57, 5, 0, 0);
    Leg(m, d, 1, 7, 5, 5);
    LegAcross(m, d, 120, 12, 5);
    Leg(m, d, 56, 8, 13, 5);
    Leg(m, d, 0, 7, 21, 13);
  }

  /** On the larger circles short walks with the steps possible there stay in one half. */
  lemma StepsOnMore(m: int, d: int, k: nat)
    requires m > 0 && d > 0 && 2 * (d * k) < m
    ensures Legs(m, d, 0, k, 0)
  {
    if k > 0 {
      assert d * k >= d;
    }
    LegsEnd(m, d, d * k);
    Leg(m, d, 0, k, 0, 0);
  }
}
