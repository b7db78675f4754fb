/** Powers of two and arithmetic on a circle, shared by the other modules. */
module Arith {

  function Pow2(n: nat): (p: nat)
    ensures p >= 1
  {
    if n == 0 then 1 else 2 * Pow2(n - 1)
  }

  /** The position of a on a circle of m places. It is the Euclidean remainder
      (see WrapIsMod), written with additions only, which keeps proofs linear. */
  function Wrap(a: int, m: int): (r: int)
    requires m > 0
    ensures 0 <= r < m
    decreases a < 0, if a < 0 then -a else a
  {
    if a < 0 then Wrap(a + m, m) else if a < m then a else Wrap(a - m, m)
  }

  lemma WrapPeriod(a: int, m: int)
    requires m > 0
    ensures Wrap(a + m, m) == Wrap(a, m)
  {
  }

  /** Wrapping early does not change where a sum ends up. */
  lemma {:induction false} WrapAdd(a: int, b: int, m: int)
    requires m > 0
    ensures Wrap(Wrap(a, m) + b, m) == Wrap(a + b, m)
    decreases a < 0, if a < 0 then -a else a
  {
    if a < 0 {
      WrapAdd(a + m, b, m);
      WrapPeriod(a + b, m);
    } else if a >= m {
      WrapAdd(a - m, b, m);
      WrapPeriod(a - m + b, m);
    }
  }

  lemma {:induction false} WrapSub(a: int, b: int, m: int)
    requires m > 0
    ensures Wrap(a - Wrap(b, m), m) == Wrap(a - b, m)
    decreases b < 0, if b < 0 then -b else b
  {
    if b < 0 {
      WrapSub(a, b + m, m);
      WrapPeriod(a - b - m, m);
    } else if b >= m {
      WrapSub(a, b - m, m);
      WrapPeriod(a - b, m);
    }
  }

  /** A step of at most one turn. */
  lemma WrapStep(a: int, b: int, m: int)
    requires m > 0 && 0 <= b <= m
    ensures Wrap(a + b, m) == if Wrap(a, m) + b < m then Wrap(a, m) + b else Wrap(a, m) + b - m
  {
    WrapAdd(a, b, m);
  }

  /** Positions that look alike from x are the same position. */
  lemma WrapEqual(a: int, b: int, x: int, m: int)
    requires m > 0 && 0 <= a < m && 0 <= b < m && Wrap(a - x, m) == Wrap(b - x, m)
    ensures a == b
  {
    WrapAdd(a - x, x, m);
    WrapAdd(b - x, x, m);
  }

  lemma MulAtLeast(k: int, m: int)
    requires k >= 1 && m > 0
    ensures k * m >= m
  {
  }

  lemma ModUnique(a: int, m: int, q: int, r: int)
    requires m > 0 && a == q * m + r && 0 <= r < m
    ensures a % m == r
  {
    QuotientUnique(m, q, r, a / m, a % m);
  }

  lemma QuotientUnique(m: int, q: int, r: int, q': int, r': int)
    requires m > 0 && q * m + r == q' * m + r' && 0 <= r < m && 0 <= r' < m
    ensures r == r'
  {
    var d := q' - q;
    assert d * m == r - r';
    if d > 0 {
      MulAtLeast(d, m);
    } else if d < 0 {
      MulAtLeast(-d, m);
    }
  }

  lemma MulNext(q: int, m: int)
    ensures (q + 1) * m == q * m + m
  {
  }

  /** Wrapping takes off whole turns. */
  lemma {:induction false} WrapTurns(a: int, m: int) returns (q: int)
    requires m > 0
    ensures a == q * m + Wrap(a, m)
    decreases a < 0, if a < 0 then -a else a
  {
    q := 0;
    if a < 0 {
      var next := WrapTurns(a + m, m);
      q := next - 1;
      MulNext(q, m);
    } else if a >= m {
      var next := WrapTurns(a - m, m);
      q := next + 1;
      MulNext(next, m);
    }
  }

  lemma WrapIsMod(a: int, m: int)
    requires m > 0
    ensures Wrap(a, m) == a % m
  {
    var q := WrapTurns(a, m);
    ModUnique(a, m, q, Wrap(a, m));
  }
}
