/** Facts of integer arithmetic with variable factors, which the solver does not find alone. */
module Arith {

  lemma MultipleIsFar(m: int, k: int)
    requires m > 0
    ensures k > 0 ==> m * k >= m
    ensures k < 0 ==> m * k <= -m
  {
  }

  lemma RemainderIsUnique(v: int, m: int, q: int, r: int)
    requires m > 0 && 0 <= r < m && v == m * q + r
    ensures v % m == r && v / m == q
  {
    var k := v / m - q;
    assert v % m - r == -(m * k);
    MultipleIsFar(m, k);
  }

  // ---------- greatest common divisor ----------

  function Gcd(a: nat, b: nat): nat
    decreases b
  {
    if b == 0 then a else Gcd(b, a % b)
  }

  lemma DivisorOfSum(a: int, b: int, q: int, r: int, g: int, u: int, v: int)
    requires a == b * q + r && b == g * u && r == g * v
    ensures a == g * (u * q + v)
  {
  }

  lemma {:induction false} GcdDivides(a: nat, b: nat) returns (x: int, y: int)
    requires a + b > 0
    ensures Gcd(a, b) > 0
    ensures a == Gcd(a, b) * x && b == Gcd(a, b) * y
    decreases b
  {
    if b == 0 {
      x, y := 1, 0;
    } else {
      var q, r, g := a / b, a % b, Gcd(a, b);
      var u, v := GcdDivides(b, r);
      DivisorOfSum(a, b, q, r, g, u, v);
      x, y := u * q + v, u;
    }
  }

  lemma CombinationStep(a: int, b: int, q: int, r: int, g: int, u: int, v: int)
    requires a == b * q + r && b * u + r * v == g
    ensures a * v + b * (u - q * v) == g
  {
  }

  lemma {:induction false} Bezout(a: nat, b: nat) returns (x: int, y: int)
    ensures a * x + b * y == Gcd(a, b)
    decreases b
  {
    if b == 0 {
      x, y := 1, 0;
    } else {
      var u, v := Bezout(b, a % b);
      CombinationStep(a, b, a / b, a % b, Gcd(a, b), u, v);
      x, y := v, u - a / b * v;
    }
  }

  lemma CommonFactor(a: int, b: int, d: int, x: int, y: int, u: int, v: int)
    requires a == d * x && b == d * y
    ensures a * u + b * v == d * (x * u + y * v)
  {
    assert (d * x) * u == d * (x * u);
    assert (d * y) * v == d * (y * v);
  }

  /** Every common divisor is at most `Gcd`, which by `GcdDivides` is one itself. */
  lemma GcdIsGreatest(a: nat, b: nat, d: nat, x: int, y: int)
    requires a + b > 0 && d > 0 && a == d * x && b == d * y
    ensures d <= Gcd(a, b)
  {
    var u, v := Bezout(a, b);
    var p, q := GcdDivides(a, b);
    CommonFactor(a, b, d, x, y, u, v);
    MultipleIsFar(d, x * u + y * v);
  }

  lemma CombinationOfOne(a: nat, b: nat, u: int, v: int)
    requires a + b > 0 && a * u + b * v == 1
    ensures Gcd(a, b) == 1
  {
    var g := Gcd(a, b);
    var x, y := GcdDivides(a, b);
    CommonFactor(a, b, g, x, y, u, v);
    MultipleIsFar(g, x * u + y * v);
  }

  lemma MulIsMonotone(g: int, a: int, b: int)
    requires g >= 0 && a <= b
    ensures g * a <= g * b
  {
  }

  /** A multiple of `g` below another multiple of `g` is at least `g` below it. */
  lemma NextMultiple(g: int, z: int, y: int)
    requires g > 0 && g * z < g * y
    ensures g * z <= g * y - g
  {
    if z >= y {
      MulIsMonotone(g, y, z);
    }
    MulIsMonotone(g, z, y - 1);
  }

  lemma RemainderIsMultiple(a: int, m: int, q: int, r: int, k: int, g: int, x: int, y: int)
    requires k * a == m * q + r && a == g * x && m == g * y
    ensures r == g * (k * x - y * q)
  {
  }

  /** Multiples of `a` stay at least one divisor below `m` when reduced modulo `m`. */
  lemma ResidueBound(a: nat, m: nat, k: nat)
    requires m > 0
    ensures k * a % m <= m - Gcd(a, m)
  {
    var g := Gcd(a, m);
    var x, y := GcdDivides(a, m);
    var n := k * a;
    var q, r := n / m, n % m;
    RemainderIsMultiple(a, m, q, r, k, g, x, y);
    NextMultiple(g, k * x - y * q, y);
  }

  lemma ShiftedCombination(a: int, m: int, x: int, y: int, g: int, c: int)
    requires a * x + m * y == g
    ensures (c * m - x) * a == m * (y + c * a - 1) + (m - g)
  {
  }

  /** And some multiple reaches that bound. */
  lemma ResidueReached(a: nat, m: nat) returns (k: nat)
    requires m > 0
    ensures k * a % m == m - Gcd(a, m)
  {
    var g := Gcd(a, m);
    var u, v := GcdDivides(a, m);
    NextMultiple(g, 0, v);
    var x, y := Bezout(a, m);
    var c := if x < 0 then 0 else x;
    MulIsMonotone(c, 1, m);
    ShiftedCombination(a, m, x, y, g, c);
    k := c * m - x;
    RemainderIsUnique(k * a, m, y + c * a - 1, m - g);
  }
}
