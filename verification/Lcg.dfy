/** The 48-bit linear congruential generator behind rand and srand (lab5/libs/rand.c). */
module Lcg {
  import opened Bits

  const MULTIPLIER: nat := 0x5DEECE66D
  const INCREMENT: nat := 0xB
  const WORD: nat := 0x1_0000_0000_0000_0000
  const RAND_MAX: nat := 2147483647

  /** The generator's static variable, an unsigned 64-bit word. */
  class Generator {
    var next: nat

    constructor ()
      ensures next == 1
    {
      next := 1;
    }

    /** Advances the state by the 48-bit congruence and returns a number made of its upper bits. The macro do_div
        does not parenthesise its second argument, so 1 is added to the remainder and not to the divisor. */
    method Rand() returns (r: nat)
      requires next < WORD
      modifies this
      ensures next == Step(old(next), 48) < Pow2(48)
      ensures r == Output(next) && 1 <= r <= RAND_MAX
    {
      Constants();
      next := And((next * MULTIPLIER + INCREMENT) % WORD, Pow2(48) - 1);
      AndMask((old(next) * MULTIPLIER + INCREMENT) % WORD, 48);
      ModMod(old(next) * MULTIPLIER + INCREMENT, Pow2(16), Pow2(48));
      var result := next / Pow2(12);
      r := result % RAND_MAX + 1;
    }

    method Srand(seed: nat)
      requires seed < Pow2(32)
      modifies this
      ensures next == seed
    {
      next := seed;
    }
  }

  /** What rand makes of a state. */
  function Output(x: nat): nat {
    x / Pow2(12) % RAND_MAX + 1
  }

  /** It drops the low twelve bits; what is left gives the number by its remainder. */
  lemma OutputIs(x: nat) returns (q: nat, low: nat)
    ensures low < 4096 && 1 <= Output(x) <= 2147483647
    ensures x == 4096 * (2147483647 * q + (Output(x) - 1)) + low
  {
    Constants();
    hide Pow2;
    q, low := x / Pow2(12) / RAND_MAX, x % Pow2(12);
  }

  /** The numbers rand can return are exactly those from 1 to RAND_MAX, and from any state each of them comes up
      within one period. */
  lemma OutputsExactly(x: nat, r: nat)
    requires x < Pow2(48)
    ensures 1 <= r <= RAND_MAX <==> exists n: nat :: n < Pow2(48) && OutputAfter(x, n) == r
  {
    hide Iterate, Pow2;
    if 1 <= r <= RAND_MAX {
      OutputAt(r);
      var n := Reaches(x, (r - 1) * Pow2(12), 48);
      hide Output;
      assert OutputAfter(x, n) == r;
    }
  }

  function OutputAfter(x: nat, n: nat): nat {
    Output(Iterate(x, n, 48))
  }

  lemma OutputAt(r: nat)
    requires 1 <= r <= RAND_MAX
    ensures (r - 1) * Pow2(12) < Pow2(48) && Output((r - 1) * Pow2(12)) == r
  {
    Constants();
    hide Pow2;
    DivModUnique((r - 1) * Pow2(12), Pow2(12), r - 1, 0);
  }

  /** One step of the congruence modulo 2^k; the generator uses k = 48. */
  function Step(x: nat, k: nat): nat {
    (x * MULTIPLIER + INCREMENT) % Pow2(k)
  }

  /** The state after n steps from x. */
  function Iterate(x: nat, n: nat, k: nat): nat {
    if n == 0 then x else Step(Iterate(x, n - 1, k), k)
  }

  /** The same orbit without reduction. */
  function Unreduced(x: nat, n: nat): nat {
    if n == 0 then x else Unreduced(x, n - 1) * MULTIPLIER + INCREMENT
  }

  /** 1 + a + a^2 + ... + a^(n-1) for the multiplier a. */
  function Geometric(n: nat): nat {
    if n == 0 then 0 else Geometric(n - 1) + Power(n - 1)
  }

  function Power(n: nat): nat {
    if n == 0 then 1 else Power(n - 1) * MULTIPLIER
  }

  lemma Constants()
    ensures Pow2(12) == 0x1000 && Pow2(16) == 0x1_0000 && Pow2(31) == 0x8000_0000
    ensures Pow2(32) == 0x1_0000_0000 && Pow2(48) == 0x1_0000_0000_0000
    ensures Pow2(48) * Pow2(16) == WORD
  {
    assert Pow2(8) == 0x100;
    Pow2Add(8, 4);
    Pow2Add(8, 8);
    Pow2Add(16, 16);
    Pow2Add(16, 15);
    assert Pow2(15) == 0x8000;
    Pow2Add(32, 16);
  }

  /** Reducing modulo a multiple of m first changes nothing modulo m. */
  lemma ModMod(x: nat, f: nat, m: nat)
    requires f > 0 && m > 0
    ensures m * f > 0
    ensures (x % (m * f)) % m == x % m
  {
    assert m * f > 0;
    var q, r := x / (m * f), x % (m * f);
    var q2, r2 := r / m, r % m;
    assert q * (m * f) == (q * f) * m;
    Distribute(q * f, q2, m);
    DivModUnique(x, m, q * f + q2, r2);
  }

  // ---------- The orbit in closed form ----------

  lemma {:induction false} GeometricIsQuotient(n: nat)
    ensures Power(n) == 1 + Geometric(n) * (MULTIPLIER - 1)
  {
    if n > 0 {
      GeometricIsQuotient(n - 1);
    }
  }

  /** n unreduced steps move x by Geometric(n) times an amount that depends on x alone. */
  lemma {:induction false} ClosedForm(x: nat, n: nat)
    ensures Unreduced(x, n) == x + Geometric(n) * (x * (MULTIPLIER - 1) + INCREMENT)
  {
    if n > 0 {
      ClosedForm(x, n - 1);
      GeometricIsQuotient(n - 1);
      StepAlgebra(x, Geometric(n - 1), Power(n - 1), MULTIPLIER);
    }
  }

  lemma StepAlgebra(x: int, g: int, p: int, m: int)
    requires p == 1 + g * (m - 1)
    ensures (x + g * (x * (m - 1) + INCREMENT)) * m + INCREMENT == x + (g + p) * (x * (m - 1) + INCREMENT)
  {
    var d := x * (m - 1) + INCREMENT;
    assert (x + g * d) * m == x * m + g * d * m;
    assert p * d == d + (g * (m - 1)) * d;
    assert (g * (m - 1)) * d == g * d * (m - 1) == g * d * m - g * d;
    Distribute(g, p, d);
  }

  /** Reduction at every step or only at the end gives the same state. */
  lemma {:induction false} ReduceOnce(x: nat, n: nat, k: nat)
    requires x < Pow2(k)
    ensures Iterate(x, n, k) == Unreduced(x, n) % Pow2(k)
  {
    if n == 0 {
      DivModUnique(x, Pow2(k), 0, x);
    } else {
      ReduceOnce(x, n - 1, k);
      StepReduced(Unreduced(x, n - 1), k);
    }
  }

  lemma StepReduced(y: nat, k: nat)
    ensures Step(y % Pow2(k), k) == Step(y, k)
  {
    ModStep(y, Pow2(k));
  }

  lemma ModStep(y: nat, m: nat)
    requires m > 0
    ensures ((y % m) * MULTIPLIER + INCREMENT) % m == (y * MULTIPLIER + INCREMENT) % m
  {
    var q, r := y / m, y % m;
    assert y * MULTIPLIER + INCREMENT == (q * MULTIPLIER) * m + (r * MULTIPLIER + INCREMENT) by {
      assert y == q * m + r;
      assert (q * m) * MULTIPLIER == (q * MULTIPLIER) * m;
    }
    var z := r * MULTIPLIER + INCREMENT;
    Distribute(q * MULTIPLIER, z / m, m);
    DivModUnique(y * MULTIPLIER + INCREMENT, m, q * MULTIPLIER + z / m, z % m);
  }

  // ---------- Divisibility by powers of two ----------

  /** An odd factor does not affect divisibility by a power of two. */
  lemma {:induction false} OddFactor(k: nat, y: int, d: int)
    requires d % 2 == 1
    ensures Divides(k, y * d) <==> Divides(k, y)
  {
    if k > 0 {
      Parity(y, d);
      if y % 2 == 0 {
        OddFactor(k - 1, y / 2, d);
        Assoc(2, y / 2, d);
      }
    }
  }

  lemma Parity(y: int, d: int)
    requires d % 2 == 1
    ensures (y * d) % 2 == y % 2
  {
    var h := d / 2;
    assert y * d == y * (2 * h + 1) == 2 * (y * h) + y;
  }

  lemma {:induction false} GeometricSplit(m: nat, j: nat)
    ensures Power(m + j) == Power(m) * Power(j)
    ensures Geometric(m + j) == Geometric(m) + Power(m) * Geometric(j)
  {
    if j > 0 {
      GeometricSplit(m, j - 1);
      assert m + j - 1 == m + (j - 1);
      Assoc(Power(m), Power(j - 1), MULTIPLIER);
      assert Power(m) * (Geometric(j - 1) + Power(j - 1)) == Power(m) * Geometric(j - 1) + Power(m) * Power(j - 1);
    }
  }

  lemma MultiplierResidue(p: nat)
    ensures (p * MULTIPLIER) % 4 == p % 4
  {
    assert p * MULTIPLIER == 4 * (p * 0x177BB399B) + p;
  }

  lemma {:induction false} PowerResidue(n: nat)
    ensures Power(n) % 4 == 1
  {
    if n > 0 {
      PowerResidue(n - 1);
      MultiplierResidue(Power(n - 1));
    }
  }

  lemma OddPower(p: int)
    requires p % 4 == 1
    ensures p % 2 == 1
  {
    DivModUnique(p, 2, 2 * (p / 4), 1);
  }

  lemma {:induction false} SumParity(n: nat)
    ensures Geometric(n) % 2 == n % 2
  {
    if n > 0 {
      SumParity(n - 1);
      PowerResidue(n - 1);
      OddPower(Power(n - 1));
      ParityStep(Geometric(n - 1), Power(n - 1), n - 1);
    }
  }

  lemma ParityStep(g: int, p: int, n: int)
    requires g % 2 == n % 2 && p % 2 == 1
    ensures (g + p) % 2 == (n + 1) % 2
  {
  }

  /** The partial sums have exactly as many factors of two as their length. */
  lemma {:induction false} Valuation(k: nat, n: nat)
    ensures Divides(k, Geometric(n)) <==> Divides(k, n)
  {
    if k > 0 {
      SumParity(n);
      if n % 2 == 0 {
        var m := n / 2;
        Valuation(k - 1, m);
        var h := DoubledSum(m);
        OddFactor(k - 1, Geometric(m), h);
      }
    }
  }

  /** Doubling the length multiplies the sum by twice an odd number. */
  lemma DoubledSum(m: nat) returns (h: int)
    ensures h % 2 == 1
    ensures Geometric(m + m) == 2 * (Geometric(m) * h)
  {
    PowerResidue(m);
    h := HalfOdd(Power(m));
    GeometricSplit(m, m);
    DoubledAlgebra(Geometric(m), Power(m), h);
  }

  lemma HalfOdd(p: int) returns (h: int)
    requires p % 4 == 1
    ensures 1 + p == 2 * h && h % 2 == 1
  {
    h := (1 + p) / 2;
  }

  lemma DoubledAlgebra(g: int, p: int, h: int)
    requires 1 + p == 2 * h
    ensures g + p * g == 2 * (g * h)
  {
    Distribute(1, p, g);
    Assoc(2, h, g);
  }

  // ---------- Period, bijectivity, reachability ----------

  lemma OddDrift(x: nat)
    ensures (x * (MULTIPLIER - 1) + INCREMENT) % 2 == 1
  {
    assert x * (MULTIPLIER - 1) == 2 * (x * 0x2EF767336);
  }

  lemma SameResidue(a: int, b: int, m: int)
    requires m > 0
    ensures a % m == b % m <==> (a - b) % m == 0
  {
    var qa, ra, qb, rb := a / m, a % m, b / m, b % m;
    Distribute(qa, qb, m);
    if ra == rb {
      DivModUnique(a - b, m, qa - qb, 0);
    }
    if (a - b) % m == 0 {
      var q := (a - b) / m;
      Distribute(qb, q, m);
      DivModUnique(a, m, qb + q, rb);
    }
  }

  /** The generator returns to a state exactly after multiples of 2^48 steps (here for every k). */
  lemma FullPeriod(x: nat, n: nat, k: nat)
    requires x < Pow2(k)
    ensures Iterate(x, n, k) == x <==> n % Pow2(k) == 0
  {
    ReduceOnce(x, n, k);
    ClosedForm(x, n);
    OddDrift(x);
    DivModUnique(x, Pow2(k), 0, x);
    SameResidue(Unreduced(x, n), x, Pow2(k));
    DividesIsMod(k, Unreduced(x, n) - x);
    OddFactor(k, Geometric(n), x * (MULTIPLIER - 1) + INCREMENT);
    Valuation(k, n);
    DividesIsMod(k, n);
  }

  lemma {:induction false} UnreducedSplit(x: nat, n: nat, m: nat)
    ensures Unreduced(x, n + m) == Unreduced(Unreduced(x, n), m)
  {
    if m > 0 {
      UnreducedSplit(x, n, m - 1);
      assert n + m - 1 == n + (m - 1);
    }
  }

  /** Advancing 2^k steps flips bit k and keeps the bits below it. */
  lemma HalfPeriod(z: nat, k: nat)
    ensures Divides(k + 1, Unreduced(z, Pow2(k)) - z - Pow2(k))
  {
    var p, d := Pow2(k), z * (MULTIPLIER - 1) + INCREMENT;
    ClosedForm(z, p);
    OddDrift(z);
    OddFactor(k, Geometric(p), d);
    OddFactor(k + 1, Geometric(p), d);
    Valuation(k, p);
    Valuation(k + 1, p);
    PowerValuation(k);
    OddMultiple(k, Geometric(p) * d);
  }

  lemma {:induction false} OddMultiple(k: nat, g: int)
    requires Divides(k, g) && !Divides(k + 1, g)
    ensures Divides(k + 1, g - Pow2(k))
  {
    if k > 0 {
      OddMultiple(k - 1, g / 2);
      assert (g - Pow2(k)) / 2 == g / 2 - Pow2(k - 1);
    }
  }

  /** From any state every state is reached within one period. */
  lemma Reaches(x: nat, y: nat, k: nat) returns (n: nat)
    requires x < Pow2(k) && y < Pow2(k)
    ensures n < Pow2(k) && Iterate(x, n, k) == y
  {
    n := ReachesUnreduced(x, y, k);
    ReduceOnce(x, n, k);
    DividesIsMod(k, Unreduced(x, n) - y);
    SameResidue(Unreduced(x, n), y, Pow2(k));
    DivModUnique(y, Pow2(k), 0, y);
  }

  lemma {:induction false} ReachesUnreduced(x: nat, y: nat, k: nat) returns (n: nat)
    ensures n < Pow2(k) && Divides(k, Unreduced(x, n) - y)
  {
    if k == 0 {
      n := 0;
    } else {
      n := ReachesUnreduced(x, y, k - 1);
      n := ReachesOneMoreBit(x, y, n, k - 1);
    }
  }

  lemma ReachesOneMoreBit(x: nat, y: nat, n: nat, k: nat) returns (n': nat)
    requires n < Pow2(k) && Divides(k, Unreduced(x, n) - y)
    ensures n' < Pow2(k + 1) && Divides(k + 1, Unreduced(x, n') - y)
  {
    if Divides(k + 1, Unreduced(x, n) - y) {
      n' := n;
    } else {
      n' := n + Pow2(k);
      UnreducedSplit(x, n, Pow2(k));
      HalfPeriod(Unreduced(x, n), k);
      FlippedBit(Unreduced(x, n'), Unreduced(x, n), y, k);
    }
  }

  lemma FlippedBit(w: int, z: int, y: int, k: nat)
    requires Divides(k + 1, w - z - Pow2(k))
    requires Divides(k, z - y) && !Divides(k + 1, z - y)
    ensures Divides(k + 1, w - y)
  {
    OddMultiple(k, z - y);
    AddMultiples(k + 1, w - z - Pow2(k), z - y - Pow2(k));
    PowerValuation(k + 1);
    AddMultiples(k + 1, w - y - 2 * Pow2(k), Pow2(k + 1));
  }

  /** The step permutes the states: equal successors come from equal states. */
  lemma StepInjective(x: nat, y: nat, k: nat)
    requires x < Pow2(k) && y < Pow2(k)
    requires Step(x, k) == Step(y, k)
    ensures x == y
  {
    var p := Pow2(k);
    SameResidue(x * MULTIPLIER + INCREMENT, y * MULTIPLIER + INCREMENT, p);
    Distribute(x, y, MULTIPLIER);
    DividesIsMod(k, (x - y) * MULTIPLIER);
    OddFactor(k, x - y, MULTIPLIER);
    DividesIsMod(k, x - y);
    SameResidue(x, y, p);
    DivModUnique(x, p, 0, x);
    DivModUnique(y, p, 0, y);
  }

  /** ... and every state is the successor of some state. */
  lemma StepSurjective(y: nat, k: nat) returns (x: nat)
    requires y < Pow2(k)
    ensures x < Pow2(k) && Step(x, k) == y
  {
    FullPeriod(y, Pow2(k), k);
    MulMod(1, Pow2(k));
    x := Iterate(y, Pow2(k) - 1, k);
  }
}
