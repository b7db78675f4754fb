/** Bitwise operators on non-negative integers and bit fields in octet buffers,
    most significant bit first. */
module Bits {
  import opened Arith

  type Octet = x: int | 0 <= x < 256

  /** Bit i of x, counting from the least significant one. */
  predicate Bit(x: nat, i: nat) {
    if i == 0 then x % 2 == 1 else Bit(x / 2, i - 1)
  }

  function And(x: nat, y: nat): (r: nat)
    ensures r <= x
  {
    if x == 0 || y == 0 then 0 else 2 * And(x / 2, y / 2) + if x % 2 == 1 && y % 2 == 1 then 1 else 0
  }

  function Or(x: nat, y: nat): (r: nat) {
    if x == 0 then y else if y == 0 then x
    else 2 * Or(x / 2, y / 2) + if x % 2 == 1 || y % 2 == 1 then 1 else 0
  }

  function Shl(x: nat, n: nat): (r: nat) {
    if n == 0 then x else 2 * Shl(x, n - 1)
  }

  function Shr(x: nat, n: nat): (r: nat) {
    if n == 0 then x else Shr(x / 2, n - 1)
  }

  function Mask(n: nat): (r: nat) {
    Pow2(n) - 1
  }

  lemma {:induction false} ZeroBits(i: nat)
    ensures !Bit(0, i)
  {
    if i > 0 {
      ZeroBits(i - 1);
    }
  }

  lemma {:induction false} AndBits(x: nat, y: nat, i: nat)
    ensures Bit(And(x, y), i) <==> Bit(x, i) && Bit(y, i)
  {
    if x == 0 || y == 0 {
      ZeroBits(i);
    } else if i > 0 {
      AndBits(x / 2, y / 2, i - 1);
      assert And(x, y) / 2 == And(x / 2, y / 2);
    }
  }

  lemma {:induction false} OrBits(x: nat, y: nat, i: nat)
    ensures Bit(Or(x, y), i) <==> Bit(x, i) || Bit(y, i)
  {
    ZeroBits(i);
    if i > 0 && x != 0 && y != 0 {
      OrBits(x / 2, y / 2, i - 1);
      assert Or(x, y) / 2 == Or(x / 2, y / 2);
    }
  }

  lemma {:induction false} ShlBits(x: nat, n: nat, i: nat)
    ensures Bit(Shl(x, n), i) <==> i >= n && Bit(x, i - n)
  {
    if n > 0 && i > 0 {
      ShlBits(x, n - 1, i - 1);
      assert Shl(x, n) / 2 == Shl(x, n - 1);
    }
  }

  lemma {:induction false} ShrBits(x: nat, n: nat, i: nat)
    ensures Bit(Shr(x, n), i) <==> Bit(x, n + i)
  {
    if n > 0 {
      ShrBits(x / 2, n - 1, i);
    }
  }

  lemma {:induction false} MaskBits(n: nat, i: nat)
    ensures Bit(Mask(n), i) <==> i < n
  {
    if n == 0 {
      ZeroBits(i);
    } else if i > 0 {
      MaskBits(n - 1, i - 1);
      assert Mask(n) / 2 == Mask(n - 1);
    }
  }

  /** Complement within n bits. */
  lemma {:induction false} NotBits(x: nat, n: nat, i: nat)
    requires x <= Mask(n) && i < n
    ensures Bit(Mask(n) - x, i) <==> !Bit(x, i)
  {
    assert Mask(n) == 2 * Mask(n - 1) + 1;
    if i > 0 {
      NotBits(x / 2, n - 1, i - 1);
      assert (Mask(n) - x) / 2 == Mask(n - 1) - x / 2;
    }
  }

  lemma {:induction false} OrFits(x: nat, y: nat, n: nat)
    requires x <= Mask(n) && y <= Mask(n)
    ensures Or(x, y) <= Mask(n)
  {
    if n > 0 && x != 0 && y != 0 {
      OrFits(x / 2, y / 2, n - 1);
    }
  }

  lemma {:induction false} ShlFits(x: nat, n: nat, c: nat)
    requires x <= Mask(c)
    ensures Shl(x, n) <= Mask(c + n)
  {
    if n > 0 {
      ShlFits(x, n - 1, c);
    }
  }

  lemma {:induction false} AndMask(x: nat, n: nat)
    ensures And(x, Mask(n)) <= Mask(n)
    ensures x <= Mask(n) ==> And(x, Mask(n)) == x
  {
    if n > 0 {
      AndMask(x / 2, n - 1);
      assert Mask(n) / 2 == Mask(n - 1) && Mask(n) % 2 == 1;
    }
  }

  lemma MaskOctet()
    ensures Mask(8) == 255
  {
    assert Pow2(4) == 16;
    assert Pow2(6) == 64;
  }

  /** The n least significant bits of x. */
  function Low(x: nat, n: nat): (r: nat) {
    if n == 0 then 0 else 2 * Low(x / 2, n - 1) + x % 2
  }

  lemma {:induction false} LowBits(x: nat, n: nat, i: nat)
    requires i < n
    ensures Bit(Low(x, n), i) <==> Bit(x, i)
  {
    if i > 0 {
      LowBits(x / 2, n - 1, i - 1);
    }
  }

  lemma {:induction false} LowRest(x: nat, n: nat) returns (q: nat)
    ensures x == q * Pow2(n) + Low(x, n) && Low(x, n) < Pow2(n)
  {
    if n == 0 {
      q := x;
    } else {
      q := LowRest(x / 2, n - 1);
      DoubleProduct(q, Pow2(n - 1));
    }
  }

  lemma DoubleProduct(q: int, p: int)
    ensures q * (2 * p) == 2 * (q * p)
  {
  }

  lemma LowIsMod(x: nat, n: nat)
    ensures Low(x, n) == x % Pow2(n)
  {
    var q := LowRest(x, n);
    ModUnique(x, Pow2(n), q, Low(x, n));
  }

  // ----- octet buffers -----

  /** Bit at position q of a buffer; position 0 is the top bit of octet 0. */
  predicate BitAt(buf: seq<Octet>, q: nat)
    requires q < 8 * |buf|
  {
    Bit(buf[q / 8], 7 - q % 8)
  }

  function ReadField(buf: seq<Octet>, start: nat, len: nat): (v: nat)
    requires start + len <= 8 * |buf|
  {
    if len == 0 then 0
    else 2 * ReadField(buf, start, len - 1) + if BitAt(buf, start + len - 1) then 1 else 0
  }

  predicate FieldIs(buf: seq<Octet>, start: nat, len: nat, v: nat)
    requires start + len <= 8 * |buf|
  {
    forall q :: start <= q < start + len ==> (BitAt(buf, q) <==> Bit(v, start + len - 1 - q))
  }

  predicate SameOutside(buf: seq<Octet>, was: seq<Octet>, lo: int, hi: int) {
    && |buf| == |was|
    && forall q :: 0 <= q < 8 * |buf| && !(lo <= q < hi) ==> (BitAt(buf, q) <==> BitAt(was, q))
  }

  /** Reading a written field gives the value back. */
  lemma {:induction false} ReadBack(buf: seq<Octet>, start: nat, len: nat, v: nat)
    requires start + len <= 8 * |buf| && FieldIs(buf, start, len, v) && v < Pow2(len)
    ensures ReadField(buf, start, len) == v
    decreases len
  {
    if len > 0 {
      assert FieldIs(buf, start, len - 1, v / 2) by {
        forall q | start <= q < start + (len - 1)
          ensures BitAt(buf, q) <==> Bit(v / 2, start + (len - 1) - 1 - q) {
          assert BitAt(buf, q) <==> Bit(v, start + len - 1 - q);
        }
      }
      ReadBack(buf, start, len - 1, v / 2);
      assert BitAt(buf, start + len - 1) <==> Bit(v, 0);
    }
  }
}
