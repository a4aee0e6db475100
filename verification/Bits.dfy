/** Bitwise operators on unbounded naturals, defined digit by digit in base two, and the
    arithmetic facts the kernel code relies on when it masks, flips and shifts. */
module Bits {

  /** 1 << k */
  function Pow2(k: nat): (r: nat)
    ensures r >= 1
    ensures k < r
  {
    if k == 0 then 1 else 2 * Pow2(k - 1)
  }

  /** x & y */
  function And(x: nat, y: nat): nat
    decreases x + y
  {
    if x == 0 || y == 0 then 0
    else (if x % 2 == 1 && y % 2 == 1 then 1 else 0) + 2 * And(x / 2, y / 2)
  }

  /** x ^ y */
  function Xor(x: nat, y: nat): nat
    decreases x + y
  {
    if x == 0 && y == 0 then 0
    else (if x % 2 != y % 2 then 1 else 0) + 2 * Xor(x / 2, y / 2)
  }

  lemma {:induction false} Pow2Add(a: nat, b: nat)
    ensures Pow2(a + b) == Pow2(a) * Pow2(b)
  {
    if a > 0 {
      Pow2Add(a - 1, b);
      Assoc(2, Pow2(a - 1), Pow2(b));
    }
  }

  lemma Assoc(x: int, y: int, z: int)
    ensures (x * y) * z == x * (y * z)
  {
  }

  lemma {:induction false} Pow2Mono(a: nat, b: nat)
    requires a <= b
    ensures Pow2(a) <= Pow2(b)
    ensures a < b ==> 2 * Pow2(a) <= Pow2(b)
  {
    if a < b {
      Pow2Mono(a, b - 1);
    }
  }

  lemma MulMod(k: int, m: int)
    requires m > 0
    ensures (k * m) % m == 0
  {
    DivModUnique(k * m, m, k, 0);
  }

  lemma MulSign(k: int, m: int)
    requires m > 0
    ensures k >= 1 ==> k * m >= m
    ensures k <= -1 ==> k * m <= -m
  {
  }

  lemma Distribute(x: int, y: int, m: int)
    ensures (x - y) * m == x * m - y * m
    ensures (x + y) * m == x * m + y * m
  {
  }

  /** Quotient and remainder are determined by the division equation. */
  lemma DivModUnique(x: int, m: int, q: int, r: int)
    requires m > 0 && 0 <= r < m && x == q * m + r
    ensures x / m == q && x % m == r
  {
    Distribute(q, x / m, m);
    MulSign(q - x / m, m);
  }

  lemma HalveMod(x: int, p: nat)
    requires p > 0
    ensures x % (2 * p) == 2 * ((x / 2) % p) + x % 2
    ensures x / (2 * p) == (x / 2) / p
  {
    var q, r := (x / 2) / p, (x / 2) % p;
    assert x / 2 == q * p + r;
    Assoc(2, p, q);
    assert q * (2 * p) == 2 * (q * p);
    DivModUnique(x, 2 * p, q, 2 * r + x % 2);
  }

  /** Masking with k ones keeps the value modulo 2^k. */
  lemma {:induction false} AndMask(x: nat, k: nat)
    ensures And(x, Pow2(k) - 1) == x % Pow2(k)
  {
    if x == 0 {
      DivModUnique(0, Pow2(k), 0, 0);
    } else if k > 0 {
      AndMask(x / 2, k - 1);
      HalveMod(x, Pow2(k - 1));
      AndOdd(x, Pow2(k - 1) - 1);
    }
  }

  lemma AndOdd(x: nat, h: nat)
    ensures And(x, 2 * h + 1) == x % 2 + 2 * And(x / 2, h)
  {
    assert (2 * h + 1) / 2 == h;
  }

  lemma {:induction false} XorZero(x: nat)
    ensures Xor(x, 0) == x
  {
    if x > 0 {
      XorZero(x / 2);
    }
  }

  /** 2^k divides y, halving k times. */
  predicate Divides(k: nat, y: int) {
    k == 0 || (y % 2 == 0 && Divides(k - 1, y / 2))
  }

  lemma {:induction false} DividesIsMod(k: nat, y: int)
    ensures Divides(k, y) <==> y % Pow2(k) == 0
  {
    if k > 0 {
      DividesIsMod(k - 1, y / 2);
      HalveMod(y, Pow2(k - 1));
    }
  }

  lemma {:induction false} AddMultiples(k: nat, a: int, b: int)
    requires Divides(k, a) && Divides(k, b)
    ensures Divides(k, a + b)
  {
    if k > 0 {
      AddMultiples(k - 1, a / 2, b / 2);
      assert (a + b) / 2 == a / 2 + b / 2;
    }
  }

  lemma DividesTwice(k: nat, y: int)
    ensures Divides(k + 1, 2 * y) <==> Divides(k, y)
  {
    assert (2 * y) / 2 == y;
  }

  lemma {:induction false} PowerValuation(k: nat)
    ensures Divides(k, Pow2(k)) && !Divides(k + 1, Pow2(k))
  {
    if k > 0 {
      PowerValuation(k - 1);
      assert Pow2(k) == 2 * Pow2(k - 1);
      hide *;
      DividesTwice(k - 1, Pow2(k - 1));
      DividesTwice(k, Pow2(k - 1));
    }
  }

  lemma {:induction false} SubMultiples(k: nat, a: int, b: int)
    requires Divides(k, a) && Divides(k, b)
    ensures Divides(k, a - b)
  {
    if k > 0 {
      SubMultiples(k - 1, a / 2, b / 2);
      assert (a - b) / 2 == a / 2 - b / 2;
    }
  }

  lemma {:induction false} WeakerPower(a: nat, b: nat, x: int)
    requires a <= b && Divides(b, x)
    ensures Divides(a, x)
  {
    if a > 0 {
      WeakerPower(a - 1, b - 1, x / 2);
    }
  }

  /** Two different multiples of 2^k are at least 2^k apart. */
  lemma {:induction false} MultiplesApart(k: nat, x: int, y: int)
    requires Divides(k, x) && Divides(k, y) && x < y
    ensures x + Pow2(k) <= y
  {
    if k > 0 {
      MultiplesApart(k - 1, x / 2, y / 2);
    }
  }

  /** On a multiple of 2^k, flipping bit k moves to the other half of the enclosing 2^(k+1) block. */
  lemma {:induction false} XorAligned(x: nat, k: nat)
    requires Divides(k, x)
    ensures Divides(k + 1, x) ==> Xor(x, Pow2(k)) == x + Pow2(k)
    ensures !Divides(k + 1, x) ==> Xor(x, Pow2(k)) == x - Pow2(k) && Divides(k + 1, x - Pow2(k))
  {
    if k == 0 {
      XorZero(x / 2);
      assert Xor(x, 1) == (if x % 2 == 1 then 0 else 1) + 2 * (x / 2);
      assert Divides(1, x) <==> x % 2 == 0;
    } else {
      XorAligned(x / 2, k - 1);
      assert (2 * Pow2(k - 1)) / 2 == Pow2(k - 1);
      assert (x - Pow2(k)) / 2 == x / 2 - Pow2(k - 1);
    }
  }
}
