/** Writing the tree into the word array (range_enc_arfcns and its worker in
    src/osmo-bsc/arfcn_range_encode.c). */
module RangeWords {
  import opened Arith
  import opened RangeTree

  const EINVAL := 22

  // ----- where the nodes go -----

  /** Array slot of node t of the subtree that owns the slots r+p-1, r+2p-1, ... */
  function Slot(r: int, p: int, t: nat): int {
    if t == 0 then r - 1 else Slot(r, p, t - 1) + p
  }

  lemma {:induction false} SlotChildren(r: int, p: int, t: nat)
    ensures Slot(r, 2 * p, t) == Slot(r, p, 2 * t)
    ensures Slot(r + p, 2 * p, t) == Slot(r, p, 2 * t + 1)
  {
    if t > 0 {
      SlotChildren(r, p, t - 1);
      assert Slot(r, p, 2 * t) == Slot(r, p, 2 * t - 1) + p;
    }
  }

  lemma {:induction false} SlotOrder(r: int, p: int, t: nat, u: nat)
    requires p > 0 && t < u
    ensures Slot(r, p, t) < Slot(r, p, u)
  {
    if t < u - 1 {
      SlotOrder(r, p, t, u - 1);
    }
  }

  lemma {:induction false} SlotTop(t: nat)
    ensures Slot(0, 1, t) == t - 1
  {
    if t > 0 {
      SlotTop(t - 1);
    }
  }

  lemma SlotBound(r: nat, p: nat, t: nat, n: nat)
    requires p > 0 && 1 <= t <= n
    ensures r <= Slot(r, p, t) <= Slot(r, p, n)
  {
    if t < n {
      SlotOrder(r, p, t, n);
    }
    SlotOrder(r, p, 0, t);
  }

  predicate Fits(len: nat, r: nat, p: nat, n: nat) {
    p > 0 && (n > 0 ==> Slot(r, p, n) < len)
  }

  lemma FitsChildren(len: nat, r: nat, p: nat, n: nat)
    requires Fits(len, r, p, n) && n > 0
    ensures Fits(len, r, 2 * p, n / 2) && Fits(len, r + p, 2 * p, (n - 1) / 2)
    ensures 0 <= Slot(r, p, 1) < len
  {
    SlotChildren(r, p, n / 2);
    SlotChildren(r, p, (n - 1) / 2);
    SlotBound(r, p, 1, n);
    if n > 1 {
      SlotBound(r, p, 2 * (n / 2), n);
    }
    if n > 2 {
      SlotBound(r, p, 2 * ((n - 1) / 2) + 1, n);
    }
  }

  /** The words of a tree written to the slots of its nodes. */
  function Place(out: seq<int>, tree: Tree, r: nat, p: nat, n: nat): (res: seq<int>)
    requires Within(n, tree) && Fits(|out|, r, p, n)
    ensures |res| == |out|
    decreases tree
  {
    match tree
    case Nil => out
    case Node(_, v, left, right) =>
      FitsChildren(|out|, r, p, n);
      var out' := Place(out[Slot(r, p, 1) := 1 + v], left, r, 2 * p, n / 2);
      Place(out', right, r + p, 2 * p, (n - 1) / 2)
  }

  predicate Misses(r: nat, p: nat, n: nat, k: int) {
    forall t :: 1 <= t <= n ==> Slot(r, p, t) != k
  }

  lemma MissesChildren(r: nat, p: nat, n: nat, k: int)
    requires Misses(r, p, n, k) && n > 0
    ensures Misses(r, 2 * p, n / 2, k) && Misses(r + p, 2 * p, (n - 1) / 2, k)
  {
    forall t | 1 <= t <= n / 2 ensures Slot(r, 2 * p, t) != k {
      SlotChildren(r, p, t);
    }
    var r', p' := r + p, 2 * p;
    forall t | 1 <= t <= (n - 1) / 2 ensures Slot(r', p', t) != k {
      SlotChildren(r, p, t);
    }
  }

  /** No slot outside the subtree is touched. */
  lemma {:induction false} PlaceMiss(out: seq<int>, tree: Tree, r: nat, p: nat, n: nat, k: nat)
    requires Within(n, tree) && Fits(|out|, r, p, n) && k < |out| && Misses(r, p, n, k)
    ensures Place(out, tree, r, p, n)[k] == out[k]
    decreases tree
  {
    match tree
    case Nil =>
    case Node(_, v, left, right) =>
      FitsChildren(|out|, r, p, n);
      MissesChildren(r, p, n, k);
      var out0 := out[Slot(r, p, 1) := 1 + v];
      var out1 := Place(out0, left, r, 2 * p, n / 2);
      PlaceMiss(out0, left, r, 2 * p, n / 2, k);
      PlaceMiss(out1, right, r + p, 2 * p, (n - 1) / 2, k);
  }

  /** The slots of the two subtrees and of the root are disjoint. */
  lemma OddMissesLeft(r: nat, p: nat, n: nat, u: nat)
    requires p > 0
    ensures Misses(r, 2 * p, n, Slot(r, p, 2 * u + 1))
  {
    forall t | 1 <= t <= n ensures Slot(r, 2 * p, t) != Slot(r, p, 2 * u + 1) {
      SlotChildren(r, p, t);
      if 2 * t < 2 * u + 1 {
        SlotOrder(r, p, 2 * t, 2 * u + 1);
      } else {
        SlotOrder(r, p, 2 * u + 1, 2 * t);
      }
    }
  }

  lemma OthersMissRight(r: nat, p: nat, n: nat, u: nat)
    requires p > 0 && (u == 1 || u % 2 == 0)
    ensures Misses(r + p, 2 * p, n, Slot(r, p, u))
  {
    var r', p' := r + p, 2 * p;
    forall t | 1 <= t <= n ensures Slot(r', p', t) != Slot(r, p, u) {
      SlotChildren(r, p, t);
      if 2 * t + 1 < u {
        SlotOrder(r, p, 2 * t + 1, u);
      } else {
        SlotOrder(r, p, u, 2 * t + 1);
      }
    }
  }

  lemma RootMisses(r: nat, p: nat, n: nat, k: int)
    requires p > 0 && n > 0 && k == Slot(r, p, 1)
    ensures Misses(r, 2 * p, n / 2, k) && Misses(r + p, 2 * p, (n - 1) / 2, k)
  {
    OddMissesLeft(r, p, n / 2, 0);
    OthersMissRight(r, p, (n - 1) / 2, 1);
  }

  /** Node t ends up, once, in its slot. */
  lemma {:induction false} PlaceHit(out: seq<int>, tree: Tree, r: nat, p: nat, n: nat, t: nat)
    requires Within(n, tree) && Fits(|out|, r, p, n) && 1 <= t <= n && At(tree, t)
    ensures 0 <= Slot(r, p, t) < |out|
    ensures Place(out, tree, r, p, n)[Slot(r, p, t)] == Word(tree, t)
    decreases tree
  {
    SlotBound(r, p, t, n);
    FitsChildren(|out|, r, p, n);
    var k := Slot(r, p, t);
    var out0 := out[Slot(r, p, 1) := 1 + tree.value];
    var out1 := Place(out0, tree.left, r, 2 * p, n / 2);
    if t == 1 {
      RootMisses(r, p, n, k);
      PlaceMiss(out0, tree.left, r, 2 * p, n / 2, k);
      PlaceMiss(out1, tree.right, r + p, 2 * p, (n - 1) / 2, k);
    } else {
      SlotChildren(r, p, t / 2);
      if t % 2 == 0 {
        PlaceHit(out0, tree.left, r, 2 * p, n / 2, t / 2);
        OthersMissRight(r, p, (n - 1) / 2, t);
        PlaceMiss(out1, tree.right, r + p, 2 * p, (n - 1) / 2, k);
      } else {
        PlaceHit(out1, tree.right, r + p, 2 * p, (n - 1) / 2, t / 2);
      }
    }
  }

  /** A slot whose node does not exist is not touched either. */
  lemma {:induction false} PlaceGap(out: seq<int>, tree: Tree, r: nat, p: nat, n: nat, t: nat)
    requires Within(n, tree) && Fits(|out|, r, p, n) && 1 <= t <= n && !At(tree, t)
    ensures 0 <= Slot(r, p, t) < |out|
    ensures Place(out, tree, r, p, n)[Slot(r, p, t)] == out[Slot(r, p, t)]
    decreases tree
  {
    SlotBound(r, p, t, n);
    if tree.Node? {
      FitsChildren(|out|, r, p, n);
      var k := Slot(r, p, t);
      var out0 := out[Slot(r, p, 1) := 1 + tree.value];
      var out1 := Place(out0, tree.left, r, 2 * p, n / 2);
      SlotOrder(r, p, 1, t);
      SlotChildren(r, p, t / 2);
      if t % 2 == 0 {
        PlaceGap(out0, tree.left, r, 2 * p, n / 2, t / 2);
        OthersMissRight(r, p, (n - 1) / 2, t);
        PlaceMiss(out1, tree.right, r + p, 2 * p, (n - 1) / 2, k);
      } else {
        OddMissesLeft(r, p, n / 2, t / 2);
        PlaceMiss(out0, tree.left, r, 2 * p, n / 2, k);
        PlaceGap(out1, tree.right, r + p, 2 * p, (n - 1) / 2, t / 2);
      }
    }
  }

  lemma PlaceTop(out: seq<int>, tree: Tree, n: nat, t: nat)
    requires Within(n, tree) && Fits(|out|, 0, 1, n) && 1 <= t <= n && At(tree, t)
    ensures t <= |out| && Place(out, tree, 0, 1, n)[t - 1] == Word(tree, t)
  {
    SlotTop(t);
    PlaceHit(out, tree, 0, 1, n, t);
  }

  lemma PlaceTopGap(out: seq<int>, tree: Tree, n: nat, t: nat)
    requires Within(n, tree) && Fits(|out|, 0, 1, n) && 1 <= t <= n && !At(tree, t)
    ensures t <= |out| && Place(out, tree, 0, 1, n)[t - 1] == out[t - 1]
  {
    SlotTop(t);
    PlaceGap(out, tree, 0, 1, n, t);
  }

  lemma PlaceRest(out: seq<int>, tree: Tree, n: nat, k: nat)
    requires Within(n, tree) && Fits(|out|, 0, 1, n) && n <= k < |out|
    ensures Place(out, tree, 0, 1, n)[k] == out[k]
  {
    assert Misses(0, 1, n, k) by {
      forall t | 1 <= t <= n ensures Slot(0, 1, t) != k { SlotTop(t); }
    }
    PlaceMiss(out, tree, 0, 1, n, k);
  }

  /** The word array after encoding: the word of node t in slot t-1, every other slot as before. */
  predicate Encodes(w: seq<int>, was: seq<int>, tree: Tree) {
    && |w| == |was|
    && forall t :: 1 <= t <= |w| ==> w[t - 1] == if At(tree, t) then Word(tree, t) else was[t - 1]
  }

  lemma PlaceEncodes(out: seq<int>, tree: Tree, n: nat)
    requires Within(n, tree) && n <= |out|
    ensures Fits(|out|, 0, 1, n) && Encodes(Place(out, tree, 0, 1, n), out, tree)
  {
    SlotTop(n);
    var w := Place(out, tree, 0, 1, n);
    forall t | 1 <= t <= |w| ensures w[t - 1] == if At(tree, t) then Word(tree, t) else out[t - 1] {
      PlaceSlot(out, tree, n, t, w);
    }
  }

  lemma PlaceSlot(out: seq<int>, tree: Tree, n: nat, t: nat, w: seq<int>)
    requires Within(n, tree) && n <= |out| && 1 <= t <= |out| && Fits(|out|, 0, 1, n)
    requires w == Place(out, tree, 0, 1, n)
    ensures w[t - 1] == if At(tree, t) then Word(tree, t) else out[t - 1]
  {
    if At(tree, t) {
      AtWithin(n, tree, t);
      PlaceTop(out, tree, n, t);
    } else if t <= n {
      PlaceTopGap(out, tree, n, t);
    } else {
      PlaceRest(out, tree, n, t - 1);
    }
  }

  // ----- the code -----

  lemma {:induction false} Pow2Order(a: nat, b: nat)
    requires a < b
    ensures 2 * Pow2(a) <= Pow2(b)
  {
    if a + 1 < b {
      Pow2Order(a, b - 1);
    }
  }

  method GreatestPowerOf2(index: nat) returns (res: nat)
    requires index >= 1
    ensures res == Pow2(Level(index)) && res <= index < 2 * res
  {
    LevelBounds(index);
    ghost var l := 0;
    var power := 1;
    power := power * 2;
    while power <= index
      invariant power == 2 * Pow2(l) && Pow2(l) <= index
      decreases index - power
    {
      power := power * 2;
      l := l + 1;
    }
    if l < Level(index) {
      Pow2Order(l, Level(index));
    } else if Level(index) < l {
      Pow2Order(Level(index), l);
    }
    return power / 2;
  }

  lemma {:induction false} PartGrows(range: int, s: seq<int>, origin: int, i: nat)
    requires range > 0 && i <= |s|
    ensures |Part(range, s[..i], origin)| <= |Part(range, s, origin)|
    decreases |s|
  {
    if i < |s| {
      PartGrows(range, s[..|s| - 1], origin, i);
      assert s[..|s| - 1][..i] == s[..i];
    } else {
      assert s[..i] == s;
    }
  }

  lemma PartTakes(range: int, s: seq<int>, origin: int, i: nat)
    requires range > 0 && i < |s|
    ensures Part(range, s[..i + 1], origin)
            == Part(range, s[..i], origin) + if Wrap(s[i] - origin, range) < range / 2 then [Wrap(s[i] - origin, range)] else []
    ensures |Part(range, s[..i + 1], origin)| <= |Part(range, s, origin)|
  {
    assert s[..i + 1][..i] == s[..i];
    PartGrows(range, s, origin, i + 1);
  }

  /** An ARFCN joins the half that begins at `origin`, if it lies there. */
  method TakeInto(range: int, x: int, origin: int, half: array<int>, size: nat, ghost s: seq<int>, ghost i: nat)
    returns (newSize: nat)
    requires range > 0 && i < |s| && x == s[i] && |Part(range, s, origin)| <= half.Length
    requires size <= half.Length && half[..size] == Part(range, s[..i], origin)
    modifies half
    ensures newSize <= half.Length && half[..newSize] == Part(range, s[..i + 1], origin)
  {
    PartTakes(range, s, origin, i);
    newSize := size;
    var d := Mod(x - origin, range);
    if d < range / 2 {
      half[size] := d;
      newSize := size + 1;
    }
  }

  method SplitAround(range: int, arfcns: array<int>, size: nat, lOrigin: int, rOrigin: int,
                     left: array<int>, right: array<int>)
    returns (lSize: nat, rSize: nat)
    requires range > 0 && size <= arfcns.Length
    requires left != right && left != arfcns && right != arfcns
    requires |Part(range, arfcns[..size], lOrigin)| <= left.Length
    requires |Part(range, arfcns[..size], rOrigin)| <= right.Length
    modifies left, right
    ensures lSize <= left.Length && left[..lSize] == Part(range, old(arfcns[..size]), lOrigin)
    ensures rSize <= right.Length && right[..rSize] == Part(range, old(arfcns[..size]), rOrigin)
  {
    ghost var s := arfcns[..size];
    lSize, rSize := 0, 0;
    for i := 0 to size
      invariant arfcns[..size] == s
      invariant lSize <= left.Length && left[..lSize] == Part(range, s[..i], lOrigin)
      invariant rSize <= right.Length && right[..rSize] == Part(range, s[..i], rOrigin)
    {
      lSize := TakeInto(range, arfcns[i], lOrigin, left, lSize, s, i);
      rSize := TakeInto(range, arfcns[i], rOrigin, right, rSize, s, i);
    }
    assert s[..size] == s;
  }

  /** The subtree numbering that an array index encodes: index = p + r - 1 with p a
      power of two above r. */
  predicate IndexOf(index: nat, r: nat, p: nat, level: nat) {
    p == Pow2(level) && r < p && index == p + r - 1
  }

  lemma IndexLevel(index: nat, r: nat, p: nat, level: nat)
    requires IndexOf(index, r, p, level)
    ensures Pow2(Level(index + 1)) == p
    ensures IndexOf(index + p, r, 2 * p, level + 1) && IndexOf(index + 2 * p, r + p, 2 * p, level + 1)
  {
    LevelBounds(index + 1);
    var l := Level(index + 1);
    if l < level {
      Pow2Order(l, level);
    } else if level < l {
      Pow2Order(level, l);
    }
  }

  lemma PlaceNode(out: seq<int>, tree: Tree, r: nat, p: nat, n: nat)
    requires tree.Node? && Within(n, tree) && Fits(|out|, r, p, n)
    ensures n > 0 && Slot(r, p, 1) == r + p - 1 < |out|
    ensures Fits(|out|, r, 2 * p, n / 2) && Fits(|out|, r + p, 2 * p, (n - 1) / 2)
    ensures var out' := out[r + p - 1 := 1 + tree.value];
            Place(out, tree, r, p, n)
            == Place(Place(out', tree.left, r, 2 * p, n / 2), tree.right, r + p, 2 * p, (n - 1) / 2)
  {
    FitsChildren(|out|, r, p, n);
    assert Slot(r, p, 0) == r - 1;
  }

  /** The tree of a list, with room for n nodes. */
  predicate Grown(j: nat, s: seq<int>, tree: Tree, n: nat) {
    tree == Build(j, s) && Within(n, tree)
  }

  /** range_enc_arfcns, on any list. It fails exactly if the search at the top does; failures below are
      not reported. The ghost arguments say which subtree the call is for. */
  method RangeEncArfcns(range: int, arfcns: array<int>, size: nat, out: array<int>, index: nat,
                        ghost j: nat, ghost tree: Tree, ghost r: nat, ghost p: nat, ghost level: nat, ghost n: nat)
    returns (rc: int)
    requires range == Range(j) && size <= arfcns.Length && arfcns != out && (size > 0 ==> j > 0)
    requires Grown(j, arfcns[..size], tree, n)
    requires IndexOf(index, r, p, level) && Fits(out.Length, r, p, n)
    modifies out
    ensures rc == if size == 0 || Found(j, old(arfcns[..size])) then 0 else -EINVAL
    ensures out[..] == Place(old(out[..]), tree, r, p, n)
    decreases j, 1
  {
    if size <= 0 {
      return 0;
    }
    if size == 1 {
      SingleTree(j, arfcns[..size]);
      PlaceNode(out[..], tree, r, p, n);
      out[index] := 1 + arfcns[0];
      return 0;
    }
    rc := RangeEncWorker(range, arfcns, size, out, index, j, tree, r, p, level, n);
  }

  /** One value is its own pivot, whatever it is. */
  lemma SingleTree(j: nat, s: seq<int>)
    requires j > 0 && |s| == 1
    ensures Found(j, s) && Range(j) > 0 && Build(j, s) == Node(Range(j), s[0], Nil, Nil)
  {
    RangeOdd(j);
    assert s[..0] == [] && s[0] - s[0] == 0;
    assert Near(Range(j), s, s[0]) == 1;
    assert IsPivot(Range(j), s, 0);
    SplitSizes(j, s);
    assert Left(j, s) == [] && Right(j, s) == [];
  }

  /** The two recursive calls of the worker, left before right. */
  method EncodeHalves(lRange: int, left: array<int>, lSize: nat, rRange: int, right: array<int>, rSize: nat,
                      out: array<int>, lIndex: nat, rIndex: nat, ghost j: nat, ghost lTree: Tree, ghost rTree: Tree,
                      ghost r: nat, ghost p: nat, ghost level: nat, ghost ln: nat, ghost rn: nat)
    requires lRange == rRange == Range(j) && left != out && right != out && (lSize > 0 || rSize > 0 ==> j > 0)
    requires lSize <= left.Length && Grown(j, left[..lSize], lTree, ln)
    requires rSize <= right.Length && Grown(j, right[..rSize], rTree, rn)
    requires IndexOf(lIndex, r, 2 * p, level) && Fits(out.Length, r, 2 * p, ln)
    requires IndexOf(rIndex, r + p, 2 * p, level) && Fits(out.Length, r + p, 2 * p, rn)
    modifies out
    ensures out[..] == Place(Place(old(out[..]), lTree, r, 2 * p, ln), rTree, r + p, 2 * p, rn)
    decreases j, 2
  {
    if lSize != 0 {
      var _ := RangeEncArfcns(lRange, left, lSize, out, lIndex, j, lTree, r, 2 * p, level, ln);
    }
    if rSize != 0 {
      var _ := RangeEncArfcns(rRange, right, rSize, out, rIndex, j, rTree, r + p, 2 * p, level, rn);
    }
  }

  method StorePivot(pivot: int, out: array<int>, index: nat,
                    ghost tree: Tree, ghost r: nat, ghost p: nat, ghost level: nat, ghost n: nat)
    requires tree.Node? && tree.value == pivot && Within(n, tree)
    requires IndexOf(index, r, p, level) && Fits(out.Length, r, p, n)
    modifies out
    ensures n > 0 && Fits(out.Length, r, 2 * p, n / 2) && Fits(out.Length, r + p, 2 * p, (n - 1) / 2)
    ensures Place(old(out[..]), tree, r, p, n)
         == Place(Place(out[..], tree.left, r, 2 * p, n / 2), tree.right, r + p, 2 * p, (n - 1) / 2)
  {
    PlaceNode(out[..], tree, r, p, n);
    out[index] := 1 + pivot;
    assert out[..] == old(out[..])[r + p - 1 := 1 + tree.value];
  }

  /** Store the pivot word and encode both parts. */
  method EncodeNode(range: int, pivot: int, left: array<int>, lSize: nat, right: array<int>, rSize: nat,
                    out: array<int>, index: nat,
                    ghost j: nat, ghost tree: Tree, ghost r: nat, ghost p: nat, ghost level: nat, ghost n: nat)
    requires j > 0 && range == Range(j) && left != out && right != out && (lSize > 0 || rSize > 0 ==> j > 1)
    requires tree.Node? && tree.value == pivot && Within(n, tree)
    requires lSize <= left.Length && tree.left == Build(j - 1, left[..lSize])
    requires rSize <= right.Length && tree.right == Build(j - 1, right[..rSize])
    requires IndexOf(index, r, p, level) && Fits(out.Length, r, p, n)
    modifies out
    ensures out[..] == Place(old(out[..]), tree, r, p, n)
    decreases j, 0, 0
  {
    StorePivot(pivot, out, index, tree, r, p, level, n);
    var g := GreatestPowerOf2(index + 1);
    IndexLevel(index, r, p, level);
    RangeOdd(j);
    EncodeHalves(range / 2, left, lSize, (range - 1) / 2, right, rSize, out, index + g, index + 2 * g,
                 j - 1, tree.left, tree.right, r, p, level + 1, n / 2, (n - 1) / 2);
  }

  /** _range_enc_arfcns. */
  method RangeEncWorker(range: int, arfcns: array<int>, size: nat, out: array<int>, index: nat,
                        ghost j: nat, ghost tree: Tree, ghost r: nat, ghost p: nat, ghost level: nat, ghost n: nat)
    returns (rc: int)
    requires range == Range(j) && 0 < size <= arfcns.Length && arfcns != out && j > 0
    requires Grown(j, arfcns[..size], tree, n)
    requires IndexOf(index, r, p, level) && Fits(out.Length, r, p, n)
    modifies out
    ensures rc == if Found(j, old(arfcns[..size])) then 0 else -EINVAL
    ensures out[..] == Place(old(out[..]), tree, r, p, n)
    decreases j, 0, 1
  {
    var left := new int[size / 2];
    var right := new int[size / 2];
    var splitAt, lSize, rSize := SplitAtPivot(range, arfcns, size, left, right, j);
    if splitAt < 0 {
      return -EINVAL;
    }
    EncodeNode(range, arfcns[splitAt], left, lSize, right, rSize, out, index, j, tree, r, p, level, n);
    return 0;
  }

  /** Pivot search and partition of the worker; the parts fit their buffers whatever the list. */
  method SplitAtPivot(range: int, arfcns: array<int>, size: nat, left: array<int>, right: array<int>, ghost j: nat)
    returns (splitAt: int, lSize: nat, rSize: nat)
    requires range == Range(j) && 0 < size <= arfcns.Length && j > 0
    requires left.Length == right.Length == size / 2
    requires left != right && left != arfcns && right != arfcns
    modifies left, right
    ensures splitAt == PivotIndex(j, old(arfcns[..size]))
    ensures splitAt >= 0 ==> lSize <= left.Length && left[..lSize] == Left(j, old(arfcns[..size]))
    ensures splitAt >= 0 ==> rSize <= right.Length && right[..rSize] == Right(j, old(arfcns[..size]))
    ensures splitAt >= 0 && (lSize > 0 || rSize > 0) ==> j > 1
  {
    ghost var s := arfcns[..size];
    RangeOdd(j);
    lSize, rSize := 0, 0;
    splitAt := FindIndex(range, arfcns, size);
    if splitAt < 0 {
      return;
    }
    SplitSizes(j, s);
    var pivot := arfcns[splitAt];
    var lOrigin := Mod(pivot + (range - 1) / 2 + 1, range);
    var rOrigin := Mod(pivot + 1, range);
    lSize, rSize := SplitAround(range, arfcns, size, lOrigin, rOrigin, left, right);
    PartsBelow(j, s);
  }

  /** There is nothing below the circle of one place. */
  lemma PartsBelow(j: nat, s: seq<int>)
    requires Found(j, s)
    ensures |Left(j, s)| > 0 || |Right(j, s)| > 0 ==> j > 1
  {
    SplitSizes(j, s);
    assert Range(0) == 0;
    if |Left(j, s)| > 0 {
      BoundedFirst(Range(j - 1), Left(j, s));
    }
    if |Right(j, s)| > 0 {
      BoundedFirst(Range(j - 1), Right(j, s));
    }
  }

  lemma BoundedFirst(range: int, s: seq<int>)
    requires Bounded(range, s) && s != []
    ensures range > 0
  {
    assert s[0] in s && 0 <= s[0] < range;
  }
}
