/** The reference decoder of the range formats: Annex J of 3GPP TS 04.08 climbs from a
    node to the root and undoes one split per level. */
module AnnexJ {
  import opened Arith
  import opened RangeTree

  /** Is index a left child? J is the greatest power of two up to index. */
  predicate IsLeft(index: nat)
    requires index > 1
  {
    2 * index < 3 * Pow2(Level(index))
  }

  function Parent(index: nat): (r: nat)
    requires index > 1
    ensures 1 <= r < index
  {
    LevelBounds(index);
    if IsLeft(index) then index - Pow2(Level(index)) / 2 else index - Pow2(Level(index))
  }

  /** One level up: n is the number of a node at level l, w the word of its parent. */
  function StepUp(j: nat, l: nat, left: bool, w: int, n: int): (r: int)
    requires 1 <= l <= j
  {
    var half := Pow2(j - l);
    if left then Wrap(n + w - half - 1, 2 * half - 1) + 1 else Wrap(n + w - 1, 2 * half - 1) + 1
  }

  /** The frequency number of the node whose number at `index` is n. */
  function Climb(w: seq<nat>, j: nat, index: nat, n: int): (r: int)
    requires 1 <= index <= |w| && Level(index) <= j
    decreases index
  {
    if index == 1 then n
    else
      ParentLevel(index);
      Climb(w, j, Parent(index), StepUp(j, Level(index), IsLeft(index), w[Parent(index) - 1], n))
  }

  function Frequency(w: seq<nat>, j: nat, k: nat): (f: int)
    requires 1 <= k <= |w| && Level(k) <= j
  {
    Climb(w, j, k, w[k - 1])
  }

  lemma {:induction false} ParentLevel(index: nat)
    requires index > 1
    ensures Level(Parent(index)) == Level(index) - 1
  {
    if index > 3 {
      ParentLevel(index / 2);
      ParentHalves(index);
    }
  }

  /** Parent and numbering by halves commute. */
  lemma ParentHalves(t: nat)
    requires t > 3
    ensures IsLeft(t) == IsLeft(t / 2)
    ensures Parent(t) / 2 == Parent(t / 2) && Parent(t) % 2 == t % 2 && Parent(t) > 1
  {
    var p := Pow2(Level(t / 4));
    assert t / 2 / 2 == t / 4;
    LevelBounds(t / 4);
    LevelTwice(t / 2);
    LevelTwice(t);
    ParentBy(t, 4 * p);
    ParentBy(t / 2, 2 * p);
    HalvesOf(t, p);
  }

  lemma ParentBy(t: nat, q: nat)
    requires t > 1 && q == Pow2(Level(t))
    ensures IsLeft(t) <==> 2 * t < 3 * q
    ensures Parent(t) == if 2 * t < 3 * q then t - q / 2 else t - q
  {
  }

  lemma LevelTwice(t: nat)
    requires t > 1
    ensures Pow2(Level(t)) == 2 * Pow2(Level(t / 2))
  {
  }

  lemma HalvesOf(t: nat, p: nat)
    requires p <= t / 4 < 2 * p
    ensures 2 * t < 12 * p <==> 2 * (t / 2) < 6 * p
    ensures (t - 2 * p) / 2 == t / 2 - p && (t - 2 * p) % 2 == t % 2
    ensures (t - 4 * p) / 2 == t / 2 - 2 * p && (t - 4 * p) % 2 == t % 2
    ensures 2 * t < 12 * p ==> t - 2 * p > 1
    ensures 2 * t >= 12 * p ==> t - 4 * p > 1
  {
  }

  // ----- climbing is the inverse of splitting -----

  /** The number that number n at node t has in the coordinates of the whole tree. */
  function Lift(tree: Tree, t: nat, n: int): (r: int)
    requires At(tree, t)
    decreases t
  {
    if t == 1 then n
    else if t % 2 == 0 then
      1 + Wrap(Lift(tree.left, t / 2, n) - 1 + LeftOrigin(tree.modulus, tree.value), tree.modulus)
    else
      1 + Wrap(Lift(tree.right, t / 2, n) - 1 + RightOrigin(tree.modulus, tree.value), tree.modulus)
  }

  lemma {:induction false} LiftElem(tree: Tree, t: nat)
    requires At(tree, t)
    ensures Lift(tree, t, Word(tree, t)) == 1 + Elem(tree, t)
    decreases t
  {
    if t > 1 {
      LiftElem(if t % 2 == 0 then tree.left else tree.right, t / 2);
    }
  }

  lemma OriginsByHalf(half: int, v: int, n: int)
    requires half >= 1
    ensures var m := 2 * half - 1;
            && Wrap(n - 1 + LeftOrigin(m, v), m) == Wrap(n + (1 + v) - half - 1, m)
            && Wrap(n - 1 + RightOrigin(m, v), m) == Wrap(n + (1 + v) - 1, m)
  {
    var m := 2 * half - 1;
    WrapAdd(v + half, n - 1, m);
    WrapAdd(v + 1, n - 1, m);
    WrapPeriod(n + v - half, m);
  }

  /** At the root the annex step is the shift by the origin of the half. */
  lemma StepUpRoot(j: nat, v: int, n: int)
    requires j >= 1
    ensures Range(j) > 0
    ensures StepUp(j, 1, true, 1 + v, n) == 1 + Wrap(n - 1 + LeftOrigin(Range(j), v), Range(j))
    ensures StepUp(j, 1, false, 1 + v, n) == 1 + Wrap(n - 1 + RightOrigin(Range(j), v), Range(j))
  {
    RangeOdd(j);
    OriginsByHalf(Pow2(j - 1), v, n);
    assert Range(j) == 2 * Pow2(j - 1) - 1;
  }

  lemma AtParent(tree: Tree, t: nat)
    requires At(tree, t) && t > 1
    ensures At(tree, Parent(t))
    decreases t
  {
    if t > 3 {
      ParentHalves(t);
      AtParent(if t % 2 == 0 then tree.left else tree.right, t / 2);
    }
  }

  lemma StepUpDeeper(j: nat, l: nat, left: bool, w: int, n: int)
    requires 2 <= l <= j
    ensures StepUp(j, l, left, w, n) == StepUp(j - 1, l - 1, left, w, n)
  {
  }

  lemma WordParent(tree: Tree, t: nat)
    requires At(tree, t) && t > 3
    ensures var sub := if t % 2 == 0 then tree.left else tree.right;
            && At(tree, Parent(t)) && At(sub, Parent(t / 2))
            && Word(tree, Parent(t)) == Word(sub, Parent(t / 2))
  {
    ParentHalves(t);
    AtParent(tree, t);
    AtParent(if t % 2 == 0 then tree.left else tree.right, t / 2);
  }

  lemma LiftParent(tree: Tree, t: nat, n: int, x: int)
    requires At(tree, t) && t > 3
    requires var sub := if t % 2 == 0 then tree.left else tree.right;
             At(sub, Parent(t / 2)) && Lift(sub, t / 2, n) == Lift(sub, Parent(t / 2), x)
    ensures At(tree, Parent(t)) && Lift(tree, t, n) == Lift(tree, Parent(t), x)
  {
    ParentHalves(t);
    AtParent(tree, t);
  }

  lemma LiftStepRoot(j: nat, tree: Tree, t: nat, n: int)
    requires InRange(j, tree) && At(tree, t) && (t == 2 || t == 3)
    ensures Level(t) == 1 <= j && At(tree, Parent(t))
    ensures Lift(tree, t, n) == Lift(tree, Parent(t), StepUp(j, Level(t), IsLeft(t), Word(tree, Parent(t)), n))
  {
    StepUpRoot(j, tree.value, n);
    SmallNodes(t);
    assert Lift(if t == 2 then tree.left else tree.right, 1, n) == n;
  }

  /** One annex step moves a number from a node to its parent. */
  lemma {:induction false} LiftStep(j: nat, tree: Tree, t: nat, n: int)
    requires InRange(j, tree) && At(tree, t) && t > 1
    ensures Level(t) <= j && At(tree, Parent(t))
    ensures Lift(tree, t, n) == Lift(tree, Parent(t), StepUp(j, Level(t), IsLeft(t), Word(tree, Parent(t)), n))
    decreases t
  {
    WordBounds(j, tree, t);
    if t <= 3 {
      LiftStepRoot(j, tree, t, n);
    } else {
      var sub := if t % 2 == 0 then tree.left else tree.right;
      LiftStep(j - 1, sub, t / 2, n);
      WordParent(tree, t);
      ParentHalves(t);
      StepUpDeeper(j, Level(t), IsLeft(t), Word(tree, Parent(t)), n);
      LiftParent(tree, t, n, StepUp(j, Level(t), IsLeft(t), Word(tree, Parent(t)), n));
    }
  }

  lemma SmallNodes(t: nat)
    requires t == 2 || t == 3
    ensures Level(t) == 1 && Parent(t) == 1 && IsLeft(t) == (t == 2)
  {
    assert Pow2(1) == 2;
  }

  /** Climbing the annex way from any node gives its element plus one. */
  lemma {:induction false} ClimbLift(w: seq<nat>, j: nat, tree: Tree, t: nat, n: int)
    requires InRange(j, tree) && At(tree, t) && t <= |w| && Level(t) <= j
    requires forall u :: 1 <= u <= |w| && At(tree, u) ==> w[u - 1] == Word(tree, u)
    ensures Climb(w, j, t, n) == Lift(tree, t, n)
    decreases t
  {
    if t > 1 {
      LiftStep(j, tree, t, n);
      ParentLevel(t);
      var p := Parent(t);
      ClimbLift(w, j, tree, p, StepUp(j, Level(t), IsLeft(t), w[p - 1], n));
    }
  }

  /** The annex decoder inverts the tree: node t decodes to its element plus one. */
  lemma DecodesElem(w: seq<nat>, j: nat, tree: Tree, t: nat)
    requires InRange(j, tree) && At(tree, t) && t <= |w|
    requires forall u :: 1 <= u <= |w| && At(tree, u) ==> w[u - 1] == Word(tree, u)
    ensures Level(t) <= j && Frequency(w, j, t) == 1 + Elem(tree, t)
  {
    WordBounds(j, tree, t);
    ClimbLift(w, j, tree, t, w[t - 1]);
    LiftElem(tree, t);
  }

  // ----- a root word of 0 -----

  /** A parent word of 0 works like one of the whole circle. */
  lemma StepUpZero(j: nat, left: bool, n: int)
    requires j >= 1
    ensures StepUp(j, 1, left, 0, n) == StepUp(j, 1, left, Range(j), n)
  {
    var half := Pow2(j - 1);
    assert Range(j) == 2 * half - 1;
    WrapPeriod(n - half - 1, 2 * half - 1);
    WrapPeriod(n - 1, 2 * half - 1);
  }

  lemma {:induction false} ClimbZeroRoot(w: seq<nat>, j: nat, t: nat, n: int)
    requires 2 <= t <= |w| && Level(t) <= j && w[0] == 0
    ensures Climb(w, j, t, n) == Climb(w[0 := Range(j)], j, t, n)
    decreases t
  {
    ParentLevel(t);
    if t <= 3 {
      SmallNodes(t);
      StepUpZero(j, IsLeft(t), n);
    } else {
      ParentHalves(t);
      ClimbZeroRoot(w, j, Parent(t), StepUp(j, Level(t), IsLeft(t), w[Parent(t) - 1], n));
    }
  }

  lemma FrequencyZeroRoot(w: seq<nat>, j: nat, t: nat)
    requires 2 <= t <= |w| && Level(t) <= j && w[0] == 0
    ensures Frequency(w, j, t) == Frequency(w[0 := Range(j)], j, t)
  {
    ClimbZeroRoot(w, j, t, w[t - 1]);
  }
}
