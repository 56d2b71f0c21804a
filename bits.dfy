/** Python's bitwise `&` and `|` on non-negative integers, defined one binary digit at a
    time, with the facts the octet arithmetic of `apl2.py` relies on. */
module Bits {
  import Arith

  function Pow2(k: nat): (p: nat)
    ensures p >= 1
  {
    if k == 0 then 1 else 2 * Pow2(k - 1)
  }

  /** `a & b`. */
  function And(a: nat, b: nat): (r: nat)
    ensures r <= a && r <= b
    decreases a
  {
    if a == 0 || b == 0 then 0
    else 2 * And(a / 2, b / 2) + (if a % 2 == 1 && b % 2 == 1 then 1 else 0)
  }

  /** `a | b`. */
  function Or(a: nat, b: nat): (r: nat)
    ensures a <= r && b <= r && r <= a + b
    decreases a + b
  {
    if a == 0 then b
    else if b == 0 then a
    else 2 * Or(a / 2, b / 2) + (if a % 2 == 1 || b % 2 == 1 then 1 else 0)
  }

  /** The lowest binary digit of `a & b` and the digits above it. */
  lemma AndHalves(a: nat, b: nat)
    ensures And(a, b) % 2 == (if a % 2 == 1 && b % 2 == 1 then 1 else 0)
    ensures And(a, b) / 2 == And(a / 2, b / 2)
  {
  }

  /** The lowest binary digit of `a | b` and the digits above it. */
  lemma OrHalves(a: nat, b: nat)
    ensures Or(a, b) % 2 == (if a % 2 == 1 || b % 2 == 1 then 1 else 0)
    ensures Or(a, b) / 2 == Or(a / 2, b / 2)
  {
  }

  /** A number is fixed by its lowest binary digit and the digits above it. */
  lemma SameHalves(x: nat, y: nat)
    requires x % 2 == y % 2 && x / 2 == y / 2
    ensures x == y
  {
  }

  /** `x % (2 * p)` splits into the lowest bit of `x` and `(x / 2) % p`. */
  lemma ModDouble(x: nat, p: nat)
    requires p > 0
    ensures x % (2 * p) == 2 * ((x / 2) % p) + x % 2
  {
    var h, q, s := x / 2, (x / 2) / p, (x / 2) % p;
    assert h == q * p + s;
    assert x == q * (2 * p) + (2 * s + x % 2);
    Arith.DivModUnique(x, 2 * p, q, 2 * s + x % 2);
  }

  /** `x & (2**k - 1)` keeps the lowest `k` bits: it is `x % 2**k`. */
  lemma {:induction false} AndLowOnes(x: nat, k: nat)
    ensures And(x, Pow2(k) - 1) == x % Pow2(k)
    decreases k
  {
    if k == 0 {
      assert Pow2(k) - 1 == 0;
    } else if x == 0 {
      Arith.DivModUnique(x, Pow2(k), 0, 0);
    } else {
      AndLowOnes(x / 2, k - 1);
      AndLowOnesStep(x, k);
    }
  }

  lemma AndLowOnesStep(x: nat, k: nat)
    requires k > 0 && x > 0
    requires And(x / 2, Pow2(k - 1) - 1) == (x / 2) % Pow2(k - 1)
    ensures And(x, Pow2(k) - 1) == x % Pow2(k)
  {
    var p := Pow2(k - 1);
    var pk := Pow2(k);
    assert pk == 2 * p;
    LowOnesStep(x, p);
    ModDouble(x, p);
    calc {
      And(x, pk - 1);
      And(x, 2 * p - 1);
      2 * And(x / 2, p - 1) + x % 2;
      2 * ((x / 2) % p) + x % 2;
      x % (2 * p);
      x % pk;
    }
  }

  /** One more low one-bit in the mask keeps one more bit of `x`. */
  lemma LowOnesStep(x: nat, p: nat)
    requires p >= 1 && x > 0
    ensures And(x, 2 * p - 1) == 2 * And(x / 2, p - 1) + x % 2
  {
    var b := 2 * p - 1;
    assert b / 2 == p - 1 && b % 2 == 1;
  }

  /** Bits above position `k` of `m` do not meet a `y` below `2**k`. */
  lemma {:induction false} AndBelow(m: nat, y: nat, k: nat)
    requires y < Pow2(k)
    ensures And(m, y) == And(m % Pow2(k), y)
    decreases k
  {
    if k > 0 {
      var p := Pow2(k - 1);
      ModDouble(m, p);
      var lo := m % Pow2(k);
      assert lo / 2 == (m / 2) % p && lo % 2 == m % 2;
      AndBelow(m / 2, y / 2, k - 1);
      AndHalves(m, y);
      AndHalves(lo, y);
      SameHalves(And(m, y), And(lo, y));
    }
  }

  /** Below `2**k`, `a` and `2**k - 1 - a` share no bit and together fill all `k` bits. */
  lemma {:induction false} Complement(a: nat, k: nat)
    requires a < Pow2(k)
    ensures And(a, Pow2(k) - 1 - a) == 0
    ensures Or(a, Pow2(k) - 1 - a) == Pow2(k) - 1
    decreases k
  {
    if k > 0 {
      Complement(a / 2, k - 1);
      ComplementStep(a, k);
    }
  }

  lemma ComplementStep(a: nat, k: nat)
    requires k > 0 && a < Pow2(k)
    requires And(a / 2, Pow2(k - 1) - 1 - a / 2) == 0
    requires Or(a / 2, Pow2(k - 1) - 1 - a / 2) == Pow2(k - 1) - 1
    ensures And(a, Pow2(k) - 1 - a) == 0
    ensures Or(a, Pow2(k) - 1 - a) == Pow2(k) - 1
  {
    var p := Pow2(k - 1);
    var b := Pow2(k) - 1 - a;
    assert b / 2 == p - 1 - a / 2 && a % 2 + b % 2 == 1;
    AndHalves(a, b);
    OrHalves(a, b);
    SameHalves(And(a, b), 0);
    SameHalves(Or(a, b), Pow2(k) - 1);
  }

  /** Combining `x` under mask `m` with `r` under a disjoint mask `i` keeps both parts:
      the result agrees with `x` on `m` and with `r` on `i`. */
  lemma {:induction false} MergeMasked(x: nat, r: nat, m: nat, i: nat)
    requires And(m, i) == 0
    ensures And(Or(And(x, m), And(r, i)), m) == And(x, m)
    ensures And(Or(And(x, m), And(r, i)), i) == And(r, i)
    decreases x + r
  {
    var out := Or(And(x, m), And(r, i));
    if x == 0 && r == 0 {
      assert And(x, m) == 0 && And(r, i) == 0;
    } else {
      AndHalves(m, i);
      MergeMasked(x / 2, r / 2, m / 2, i / 2);
      AndHalves(x, m);
      AndHalves(r, i);
      OrHalves(And(x, m), And(r, i));
      AndHalves(out, m);
      AndHalves(out, i);
      SameHalves(And(out, m), And(x, m));
      SameHalves(And(out, i), And(r, i));
    }
  }
}
