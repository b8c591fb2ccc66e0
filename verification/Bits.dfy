/** Bitwise operations on natural numbers, bit by bit, and what masks and shifts mean
    arithmetically. */
module Bits {

  function And(x: nat, y: nat): nat {
    if x == 0 || y == 0 then 0 else 2 * And(x / 2, y / 2) + (if x % 2 == 1 && y % 2 == 1 then 1 else 0)
  }

  function Or(x: nat, y: nat): nat
    decreases x + y
  {
    if x == 0 then y else if y == 0 then x
    else 2 * Or(x / 2, y / 2) + (if x % 2 == 1 || y % 2 == 1 then 1 else 0)
  }

  function Pow2(k: nat): (p: nat)
    ensures p >= 1
  {
    if k == 0 then 1 else 2 * Pow2(k - 1)
  }

  lemma DivModUnique(x: int, d: nat, q: int, r: nat)
    requires r < d && x == q * d + r
    ensures x / d == q && x % d == r
  {
    var q' := x / d;
    assert x == q' * d + x % d;
    assert q' < q ==> (q' + 1) * d <= q * d;
    assert q' > q ==> (q + 1) * d <= q' * d;
  }

  /** The low bits of x below 2m are those below m of x / 2, and the last bit. */
  lemma ModDouble(x: nat, m: nat)
    requires m >= 1
    ensures x % (2 * m) == 2 * ((x / 2) % m) + x % 2
    ensures x / (2 * m) == (x / 2) / m
  {
    var q, r := (x / 2) / m, (x / 2) % m;
    assert x / 2 == q * m + r;
    assert q * (2 * m) == 2 * (q * m);
    DivModUnique(x, 2 * m, q, 2 * r + x % 2);
  }

  /** A mask of k ones takes the remainder modulo 2^k. */
  lemma {:induction false} AndLowMask(x: nat, k: nat)
    ensures And(x, Pow2(k) - 1) == x % Pow2(k)
    decreases k
  {
    if k == 0 {
      AndNothing(x);
    } else {
      AndLowMask(x / 2, k - 1);
      AndLowStep(x, Pow2(k - 1));
      assert Pow2(k) == 2 * Pow2(k - 1);
    }
  }

  lemma {:induction false} AndNothing(x: nat)
    ensures And(x, 0) == 0 == x % 1
  {
  }

  lemma {:induction false} AndLowStep(x: nat, m: nat)
    requires m >= 1 && And(x / 2, m - 1) == (x / 2) % m
    ensures And(x, 2 * m - 1) == x % (2 * m)
  {
    ModDouble(x, m);
    OddHalf(m);
    AndOdd(x, 2 * m - 1, m - 1);
  }

  lemma {:induction false} AndOdd(x: nat, y: nat, half: nat)
    requires y % 2 == 1 && y / 2 == half
    ensures And(x, y) == 2 * And(x / 2, half) + x % 2
  {
    AndHalves(x, y);
  }

  lemma OddHalf(m: nat)
    requires m >= 1
    ensures (2 * m - 1) / 2 == m - 1 && (2 * m - 1) % 2 == 1
  {
  }

  /** Clearing the k low bits of an n-bit number rounds it down to a multiple of 2^k. */
  lemma {:induction false} AndHighMask(x: nat, k: nat, n: nat, mask: nat)
    requires k <= n && x < Pow2(n) && mask + Pow2(k) == Pow2(n)
    ensures And(x, mask) == x - x % Pow2(k)
    decreases k
  {
    if k == 0 {
      AndAllOnes(x, n);
    } else {
      var p, h := Pow2(k - 1), Pow2(n - 1);
      assert Pow2(k) == 2 * p && Pow2(n) == 2 * h;
      HalfMask(x, mask, p, h);
      AndHighMask(x / 2, k - 1, n - 1, h - p);
      AndHighStep(x, mask, p);
    }
  }

  lemma {:induction false} AndAllOnes(x: nat, n: nat)
    requires x < Pow2(n)
    ensures And(x, Pow2(n) - 1) == x == x - x % 1
  {
    AndLowMask(x, n);
    ModSmall(x, Pow2(n));
  }

  lemma HalfMask(x: nat, mask: nat, p: nat, h: nat)
    requires mask + 2 * p == 2 * h && x < 2 * h
    ensures p <= h && mask / 2 == h - p && mask % 2 == 0 && x / 2 < h
  {
  }

  lemma ModSmall(x: nat, d: nat)
    requires x < d
    ensures x % d == x && x % 1 == 0
  {
  }

  lemma {:induction false} AndHighStep(x: nat, mask: nat, p: nat)
    requires mask % 2 == 0 && p >= 1 && And(x / 2, mask / 2) == x / 2 - (x / 2) % p
    ensures And(x, mask) == x - x % (2 * p)
  {
    ModDouble(x, p);
    AndHalves(x, mask);
  }

  lemma {:induction false} AndHalves(x: nat, y: nat)
    ensures And(x, y) == 2 * And(x / 2, y / 2) + (if x % 2 == 1 && y % 2 == 1 then 1 else 0)
  {
  }

  lemma {:induction false} Pow2Monotone(a: nat, b: nat)
    requires a <= b
    ensures Pow2(a) <= Pow2(b)
  {
    if a < b { Pow2Monotone(a, b - 1); }
  }

  /** Bits that do not overlap add up. */
  lemma {:induction false} OrIsSum(x: nat, y: nat, k: nat)
    requires y < Pow2(k)
    ensures Or(x * Pow2(k), y) == x * Pow2(k) + y
    decreases k
  {
    if k > 0 && x > 0 && y > 0 {
      var m := Pow2(k - 1);
      assert x * Pow2(k) == 2 * (x * m);
      OrIsSum(x, y / 2, k - 1);
      assert x * m > 0;
    }
  }

  /** A mask only sees the bits below its own length. */
  lemma {:induction false} AndSeesLowBits(x: nat, k: nat, mask: nat)
    requires mask < Pow2(k)
    ensures And(x, mask) == And(x % Pow2(k), mask)
    decreases k
  {
    if k > 0 {
      var p := Pow2(k - 1);
      ModDouble(x, p);
      AndSeesLowBits(x / 2, k - 1, mask / 2);
      AndHalves(x, mask);
      AndHalves(x % (2 * p), mask);
    }
  }

  lemma {:induction false} OrHalves(x: nat, y: nat)
    ensures Or(x, y) / 2 == Or(x / 2, y / 2)
    ensures Or(x, y) % 2 == if x % 2 == 1 || y % 2 == 1 then 1 else 0
  {
  }

  lemma {:induction false} OrCommutes(x: nat, y: nat)
    ensures Or(x, y) == Or(y, x)
    decreases x + y
  {
    if x > 0 && y > 0 { OrCommutes(x / 2, y / 2); }
  }

  lemma {:induction false} OrAssociates(x: nat, y: nat, z: nat)
    ensures Or(Or(x, y), z) == Or(x, Or(y, z))
    decreases x + y + z
  {
    if x > 0 && y > 0 && z > 0 {
      OrHalves(x, y);
      OrHalves(y, z);
      OrHalves(Or(x, y), z);
      OrHalves(x, Or(y, z));
      OrAssociates(x / 2, y / 2, z / 2);
    }
  }

  /** The last two operands of a chain can be exchanged. */
  lemma {:induction false} OrSwaps(x: nat, y: nat, z: nat)
    ensures Or(Or(x, y), z) == Or(Or(x, z), y)
  {
    OrAssociates(x, y, z);
    OrCommutes(y, z);
    OrAssociates(x, z, y);
  }

  /** A mask is applied to each part of a union of bits. */
  lemma {:induction false} AndOverOr(x: nat, y: nat, mask: nat)
    ensures And(Or(x, y), mask) == Or(And(x, mask), And(y, mask))
    decreases x + y
  {
    if x > 0 && y > 0 {
      AndOverOr(x / 2, y / 2, mask / 2);
      AndOverOrStep(x, y, mask);
    }
  }

  lemma {:induction false} AndOverOrStep(x: nat, y: nat, mask: nat)
    requires And(Or(x / 2, y / 2), mask / 2) == Or(And(x / 2, mask / 2), And(y / 2, mask / 2))
    ensures And(Or(x, y), mask) == Or(And(x, mask), And(y, mask))
  {
    OrHalves(x, y);
    AndParts(Or(x, y), mask);
    AndParts(x, mask);
    AndParts(y, mask);
    OrHalves(And(x, mask), And(y, mask));
    SameHalves(And(Or(x, y), mask), Or(And(x, mask), And(y, mask)));
  }

  lemma {:induction false} AndParts(x: nat, y: nat)
    ensures And(x, y) / 2 == And(x / 2, y / 2)
    ensures And(x, y) % 2 == if x % 2 == 1 && y % 2 == 1 then 1 else 0
  {
    AndHalves(x, y);
  }

  lemma SameHalves(x: nat, y: nat)
    requires x / 2 == y / 2 && x % 2 == y % 2
    ensures x == y
  {
  }

  lemma {:induction false} OrZero(x: nat, y: nat)
    ensures Or(x, y) == 0 <==> x == 0 && y == 0
    decreases x + y
  {
    if x > 0 && y > 0 {
      OrHalves(x, y);
      OrZero(x / 2, y / 2);
    }
  }

  /** A union has exactly the bits of its parts. */
  lemma OrBits(x: nat, y: nat, z: nat, bits: nat)
    ensures And(Or(Or(x, y), z), bits) == 0 <==> And(x, bits) == 0 && And(y, bits) == 0 && And(z, bits) == 0
  {
    AndOverOr(Or(x, y), z, bits);
    AndOverOr(x, y, bits);
    OrZero(Or(And(x, bits), And(y, bits)), And(z, bits));
    OrZero(And(x, bits), And(y, bits));
  }

  lemma Powers()
    ensures Pow2(4) == 16 && Pow2(6) == 64 && Pow2(12) == 4096 && Pow2(16) == 65536
  {
  }
}
