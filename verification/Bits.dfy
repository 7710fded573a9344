/** Bitwise operators on unbounded integers in two's complement, as Ruby's Integer has them. C's
    operators on a w-bit type are these operators followed by reduction to w bits. Division and
    remainder by a positive power of two are floor operations, so `x / 2` is an arithmetic shift. */
module Bits {

  function Abs(x: int): nat {
    if x < 0 then -x else x
  }

  function Pow2(n: nat): (p: nat)
    ensures p > 0
  {
    if n == 0 then 1 else 2 * Pow2(n - 1)
  }

  const TWO_31: int := 0x8000_0000
  const TWO_32: int := 0x1_0000_0000
  const TWO_62: int := 0x4000_0000_0000_0000
  const TWO_63: int := 0x8000_0000_0000_0000
  const TWO_64: int := 0x1_0000_0000_0000_0000

  lemma WordSizes()
    ensures Pow2(8) == 0x100 && Pow2(16) == 0x1_0000
    ensures Pow2(31) == TWO_31 && Pow2(32) == TWO_32
    ensures Pow2(63) == TWO_63 && Pow2(64) == TWO_64
  {
    assert Pow2(4) == 0x10;
    Pow2Add(4, 4);
    Pow2Add(8, 8);
    Pow2Add(16, 16);
    Pow2Add(32, 32);
    Pow2Half(32);
    Pow2Half(64);
  }

  lemma Pow2Half(n: nat)
    requires n > 0
    ensures Pow2(n) == 2 * Pow2(n - 1)
  {
  }

  ghost predicate IsPow2(a: int) {
    exists k: nat :: a == Pow2(k)
  }

  function And(x: int, y: int): int
    decreases Abs(x)
  {
    if x == 0 || y == 0 then 0
    else if x == -1 then y
    else 2 * And(x / 2, y / 2) + Both(x, y)
  }

  /** The conjunction of the lowest bits. */
  function Both(x: int, y: int): int {
    if x % 2 == 1 && y % 2 == 1 then 1 else 0
  }

  function Not(x: int): int {
    -x - 1
  }

  function Or(x: int, y: int): int {
    Not(And(Not(x), Not(y)))
  }

  function Xor(x: int, y: int): int {
    Or(x, y) - And(x, y)
  }

  function Shl(x: int, n: nat): int {
    x * Pow2(n)
  }

  function Shr(x: int, n: nat): int {
    x / Pow2(n)
  }

  /** Bit i of the infinite two's-complement expansion of x. */
  predicate Bit(x: int, i: nat)
    decreases i
  {
    if i == 0 then x % 2 == 1 else Bit(x / 2, i - 1)
  }

  // ---------------------------------------------------------------- what a bit of a result is

  lemma {:induction false} AndUnfold(x: int, y: int)
    ensures And(x, y) == 2 * And(x / 2, y / 2) + Both(x, y)
  {
    if x == 0 || y == 0 {
    } else if x == -1 {
      assert And(-1, y / 2) == y / 2;
    }
  }

  lemma AndHalves(x: int, y: int)
    ensures And(x, y) / 2 == And(x / 2, y / 2) && And(x, y) % 2 == Both(x, y)
  {
    var h := And(x / 2, y / 2);
    AndUnfold(x, y);
    HalfOfDigit(h, Both(x, y));
  }

  lemma HalfOfDigit(h: int, d: int)
    requires 0 <= d < 2
    ensures (2 * h + d) / 2 == h && (2 * h + d) % 2 == d
  {
  }

  lemma {:induction false} BitAnd(x: int, y: int, i: nat)
    ensures Bit(And(x, y), i) <==> Bit(x, i) && Bit(y, i)
    decreases i
  {
    var a := And(x, y);
    AndHalves(x, y);
    if i == 0 {
      assert Bit(a, 0) <==> a % 2 == 1;
    } else {
      BitAnd(x / 2, y / 2, i - 1);
      assert Bit(a, i) <==> Bit(a / 2, i - 1);
    }
  }

  lemma {:induction false} BitNot(x: int, i: nat)
    ensures Bit(Not(x), i) <==> !Bit(x, i)
    decreases i
  {
    if i > 0 {
      assert Not(x) / 2 == Not(x / 2);
      BitNot(x / 2, i - 1);
    }
  }

  lemma {:induction false} BitOr(x: int, y: int, i: nat)
    ensures Bit(Or(x, y), i) <==> Bit(x, i) || Bit(y, i)
  {
    BitNot(x, i);
    BitNot(y, i);
    BitAnd(Not(x), Not(y), i);
    BitNot(And(Not(x), Not(y)), i);
  }

  lemma OrUnfold(x: int, y: int)
    ensures Or(x, y) == 2 * Or(x / 2, y / 2) + (if x % 2 == 1 || y % 2 == 1 then 1 else 0)
  {
    AndUnfold(Not(x), Not(y));
    assert Not(x) / 2 == Not(x / 2) && Not(y) / 2 == Not(y / 2);
    assert Both(Not(x), Not(y)) == if x % 2 == 1 || y % 2 == 1 then 0 else 1;
  }

  lemma {:induction false} BitXor(x: int, y: int, i: nat)
    ensures Bit(Xor(x, y), i) <==> Bit(x, i) != Bit(y, i)
    decreases i
  {
    AndUnfold(x, y);
    OrUnfold(x, y);
    var b := if x % 2 != y % 2 then 1 else 0;
    assert Xor(x, y) == 2 * Xor(x / 2, y / 2) + b;
    if i > 0 {
      assert Xor(x, y) / 2 == Xor(x / 2, y / 2);
      BitXor(x / 2, y / 2, i - 1);
    }
  }

  /** Integers with the same bits are equal: the principle every bitwise identity below is proved by. */
  lemma {:induction false} BitsDetermine(x: int, y: int)
    requires forall i: nat :: Bit(x, i) == Bit(y, i)
    ensures x == y
    decreases Abs(x) + Abs(y)
  {
    assert Bit(x, 0) == Bit(y, 0);
    if x != y {
      forall i: nat ensures Bit(x / 2, i) == Bit(y / 2, i) {
        assert Bit(x, i + 1) == Bit(y, i + 1);
      }
      if Abs(x / 2) + Abs(y / 2) < Abs(x) + Abs(y) {
        BitsDetermine(x / 2, y / 2);
      }
    }
  }

  lemma {:induction false} BitShl(x: int, n: nat, i: nat)
    ensures Bit(Shl(x, n), i) <==> i >= n && Bit(x, i - n)
    decreases n
  {
    if n > 0 {
      assert Shl(x, n) == 2 * Shl(x, n - 1) by {
        assert x * (2 * Pow2(n - 1)) == 2 * (x * Pow2(n - 1));
      }
      if i > 0 {
        assert Shl(x, n) / 2 == Shl(x, n - 1);
        BitShl(x, n - 1, i - 1);
      }
    }
  }

  lemma {:induction false} BitPow2(n: nat, i: nat)
    ensures Bit(Pow2(n), i) <==> i == n
  {
    BitShl(1, n, i);
    assert Shl(1, n) == Pow2(n);
    if i > n {
      BitOfZero(i - n - 1);
      assert 1 / 2 == 0;
    }
  }

  lemma {:induction false} BitOfZero(i: nat)
    ensures !Bit(0, i)
    ensures Bit(-1, i)
    decreases i
  {
    if i > 0 {
      BitOfZero(i - 1);
    }
  }

  // ---------------------------------------------------------------- masks

  lemma {:induction false} Pow2Add(a: nat, b: nat)
    ensures Pow2(a + b) == Pow2(a) * Pow2(b)
    decreases a
  {
    if a > 0 {
      Pow2Add(a - 1, b);
    }
  }

  lemma {:induction false} Pow2Monotone(a: nat, b: nat)
    requires a <= b
    ensures Pow2(a) <= Pow2(b)
    decreases b
  {
    if a < b {
      Pow2Monotone(a, b - 1);
    }
  }

  lemma {:induction false} Pow2Divides(a: nat, b: nat)
    requires a <= b
    ensures Pow2(b) % Pow2(a) == 0
  {
    Pow2Add(a, b - a);
    ModOfMultiple(Pow2(b - a), Pow2(a));
  }

  lemma ModOfMultiple(q: int, m: int)
    requires m > 0
    ensures (q * m) % m == 0
    ensures (m * q) % m == 0
  {
    ModUnique(q * m, m, q, 0);
  }

  /** Quotient and remainder are determined by x == q * m + r with 0 <= r < m. */
  lemma ModUnique(x: int, m: int, q: int, r: int)
    requires m > 0 && 0 <= r < m && x == q * m + r
    ensures x / m == q && x % m == r
  {
    var q', r' := x / m, x % m;
    assert x == q' * m + r';
    assert (q - q') * m == r' - r;
    assert (q' - q) * m == r - r';
    if q > q' {
      MulGe(q - q', m);
    } else if q < q' {
      MulGe(q' - q, m);
    }
  }

  lemma MulGe(k: int, m: int)
    requires k >= 1 && m >= 0
    ensures k * m >= m
  {
    assert k * m == (k - 1) * m + m;
    assert (k - 1) * m >= 0;
  }

  /** Low-order bits: halving commutes with reduction modulo a power of two. */
  lemma ModPow2Step(x: int, n: nat)
    requires n > 0
    ensures x % Pow2(n) == 2 * ((x / 2) % Pow2(n - 1)) + x % 2
  {
    var m := Pow2(n - 1);
    var h := x / 2;
    assert h == (h / m) * m + h % m;
    assert x == (h / m) * (2 * m) + (2 * (h % m) + x % 2);
    ModUnique(x, 2 * m, h / m, 2 * (h % m) + x % 2);
  }

  /** `x & (2**n - 1)` is x modulo 2**n, for negative x too. */
  lemma {:induction false} AndLowMask(x: int, n: nat)
    ensures And(x, Pow2(n) - 1) == x % Pow2(n)
    decreases n
  {
    if n == 0 {
    } else {
      AndUnfold(x, Pow2(n) - 1);
      assert (Pow2(n) - 1) / 2 == Pow2(n - 1) - 1 && (Pow2(n) - 1) % 2 == 1;
      AndLowMask(x / 2, n - 1);
      ModPow2Step(x, n);
    }
  }

  /** `x & ~(2**n - 1)` clears the n low bits. */
  lemma {:induction false} AndHighMask(x: int, n: nat)
    ensures And(x, Not(Pow2(n) - 1)) == x - x % Pow2(n)
    decreases n
  {
    AndMinusPow2(x, n);
  }

  lemma {:induction false} AndMinusPow2(x: int, n: nat)
    ensures And(x, 0 - Pow2(n)) == x - x % Pow2(n)
    decreases n
  {
    if n == 0 {
      AndMinusOne(x);
    } else {
      var m, h := 0 - Pow2(n), 0 - Pow2(n - 1);
      assert m == 2 * h;
      HalfOfEven(h);
      AndUnfold(x, m);
      assert And(x, m) == 2 * And(x / 2, h);
      AndMinusPow2(x / 2, n - 1);
      ModPow2Step(x, n);
    }
  }

  lemma HalfOfEven(h: int)
    ensures (2 * h) / 2 == h && (2 * h) % 2 == 0
  {
  }

  lemma {:induction false} AndMinusOne(x: int)
    ensures And(x, -1) == x
    decreases Abs(x)
  {
    if x != 0 && x != -1 {
      AndMinusOne(x / 2);
    }
  }

  lemma NotMod(x: int, m: int)
    requires m > 0
    ensures Not(x) % m == m - 1 - x % m
  {
    var q := x / m;
    assert x == q * m + x % m;
    assert (-q - 1) * m == -(q * m) - m;
    ModUnique(Not(x), m, -q - 1, m - 1 - x % m);
  }

  /** `x | (2**n - 1)` sets the n low bits. */
  lemma OrLowMask(x: int, n: nat)
    ensures Or(x, Pow2(n) - 1) == x - x % Pow2(n) + Pow2(n) - 1
  {
    AndHighMask(Not(x), n);
    NotMod(x, Pow2(n));
  }

  lemma {:induction false} AndNonNegative(x: int, y: int)
    ensures And(x, y) < 0 <==> x < 0 && y < 0
    decreases Abs(x)
  {
    AndUnfold(x, y);
    if x != 0 && y != 0 && x != -1 {
      AndNonNegative(x / 2, y / 2);
    }
  }

  /** The sign bit of `x | y` is set exactly when one of the operands has it set. */
  lemma OrSign(x: int, y: int)
    ensures Or(x, y) < 0 <==> x < 0 || y < 0
  {
    AndNonNegative(Not(x), Not(y));
  }

  lemma {:induction false} AndNot(x: int, y: int)
    ensures And(x, Not(y)) == x - And(x, y)
    decreases Abs(x)
  {
    AndUnfold(x, y);
    AndUnfold(x, Not(y));
    assert Not(y) / 2 == Not(y / 2) && Not(y) % 2 == 1 - y % 2;
    if x != 0 && x != -1 {
      AndNot(x / 2, y / 2);
    }
  }

  lemma {:induction false} AndBetween(x: int, y: int)
    requires y >= 0
    ensures 0 <= And(x, y) <= y
    decreases Abs(x)
  {
    AndUnfold(x, y);
    if x != 0 && x != -1 {
      AndBetween(x / 2, y / 2);
    }
  }

  lemma AndCommutes(x: int, y: int)
    ensures And(x, y) == And(y, x)
  {
    forall i: nat ensures Bit(And(x, y), i) == Bit(And(y, x), i) {
      BitAnd(x, y, i);
      BitAnd(y, x, i);
    }
    BitsDetermine(And(x, y), And(y, x));
  }

  lemma OrAtLeast(x: int, y: int)
    requires x >= 0 && y >= 0
    ensures x <= Or(x, y) <= x + y && y <= Or(x, y)
  {
    AndNot(Not(x), y);
    AndBetween(Not(x), y);
    AndCommutes(Not(x), Not(y));
    AndNot(Not(y), x);
    AndBetween(Not(y), x);
  }

  lemma {:induction false} OrBelow(x: int, y: int, n: nat)
    requires 0 <= x < Pow2(n) && 0 <= y < Pow2(n)
    ensures Or(x, y) < Pow2(n)
    decreases n
  {
    if n > 0 {
      OrUnfold(x, y);
      OrBelow(x / 2, y / 2, n - 1);
    }
  }

  /** Clearing bits keeps low zeros. */
  lemma {:induction false} AndMultiple(x: int, y: int, k: nat)
    requires y % Pow2(k) == 0
    ensures And(x, y) % Pow2(k) == 0
    decreases k
  {
    if k > 0 {
      AndUnfold(x, y);
      ModPow2Step(y, k);
      AndMultiple(x / 2, y / 2, k - 1);
      AndHalves(x, y);
      ModPow2Step(And(x, y), k);
    }
  }

  /** Bits at and above n do not depend on the n low bits being cleared, and the converse. */
  lemma {:induction false} BitMod(x: int, n: nat, i: nat)
    ensures Bit(x % Pow2(n), i) <==> i < n && Bit(x, i)
  {
    AndLowMask(x, n);
    BitAnd(x, Pow2(n) - 1, i);
    BitLowMask(n, i);
  }

  lemma {:induction false} BitLowMask(n: nat, i: nat)
    ensures Bit(Pow2(n) - 1, i) <==> i < n
    decreases n
  {
    if n == 0 {
      BitOfZero(i);
    } else if i > 0 {
      assert (Pow2(n) - 1) / 2 == Pow2(n - 1) - 1;
      BitLowMask(n - 1, i - 1);
    }
  }

  /** Testing a single bit. */
  lemma AndOneBit(y: int, j: nat)
    ensures And(Pow2(j), y) == if Bit(y, j) then Pow2(j) else 0
  {
    var r := if Bit(y, j) then Pow2(j) else 0;
    forall i: nat ensures Bit(And(Pow2(j), y), i) == Bit(r, i) {
      BitAnd(Pow2(j), y, i);
      BitPow2(j, i);
      BitOfZero(i);
    }
    BitsDetermine(And(Pow2(j), y), r);
  }
}
