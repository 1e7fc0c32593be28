/** Arithmetic modulo the group order. */
module Modular {
  /** Congruence modulo q. */
  predicate Eq(q: nat, a: int, b: int)
    requires q > 0
  {
    a % q == b % q
  }

  lemma MulAtLeast(q: nat, d: int)
    requires q > 0 && d != 0
    ensures q * d >= q || q * d <= -(q as int)
  {
    if d >= 1 {
      assert q * (d - 1) >= 0;
    } else {
      assert q * (-1 - d) >= 0;
    }
  }

  lemma ModUnique(q: nat, a: int, k: int, r: nat)
    requires q > 0 && r < q && a == q * k + r
    ensures a % q == r
  {
    var d := k - a / q;
    assert a == q * (a / q) + a % q;
    assert q * d == q * k - q * (a / q);
    if d != 0 {
      MulAtLeast(q, d);
    }
  }

  lemma FromQuotient(q: nat, a: int, b: int, k: int)
    requires q > 0 && a == b + q * k
    ensures Eq(q, a, b)
  {
    assert b == q * (b / q) + b % q;
    assert q * (b / q + k) == q * (b / q) + q * k;
    ModUnique(q, a, b / q + k, b % q);
  }

  lemma Quotient(q: nat, a: int, b: int) returns (k: int)
    requires q > 0 && Eq(q, a, b)
    ensures a == b + q * k
  {
    k := a / q - b / q;
    assert a == q * (a / q) + a % q && b == q * (b / q) + b % q;
    assert q * k == q * (a / q) - q * (b / q);
  }

  lemma EqMod(q: nat, a: int)
    requires q > 0
    ensures Eq(q, a % q, a)
  {
  }

  lemma EqRefl(q: nat, a: int)
    requires q > 0
    ensures Eq(q, a, a)
  {
  }

  lemma EqSym(q: nat, a: int, b: int)
    requires q > 0 && Eq(q, a, b)
    ensures Eq(q, b, a)
  {
  }

  lemma EqTrans(q: nat, a: int, b: int, c: int)
    requires q > 0 && Eq(q, a, b) && Eq(q, b, c)
    ensures Eq(q, a, c)
  {
  }

  /** Congruent numbers reduce to the same one. */
  lemma EqReduced(q: nat, a: int, b: int)
    requires q > 0 && Eq(q, a, b)
    ensures a % q == b % q
  {
  }

  lemma EqAdd(q: nat, a: int, a': int, b: int, b': int)
    requires q > 0 && Eq(q, a, a') && Eq(q, b, b')
    ensures Eq(q, a + b, a' + b')
  {
    hide Eq;
    var j := Quotient(q, a, a');
    var k := Quotient(q, b, b');
    assert q * (j + k) == q * j + q * k;
    FromQuotient(q, a + b, a' + b', j + k);
  }

  lemma EqSub(q: nat, a: int, a': int, b: int, b': int)
    requires q > 0 && Eq(q, a, a') && Eq(q, b, b')
    ensures Eq(q, a - b, a' - b')
  {
    hide Eq;
    var j := Quotient(q, a, a');
    var k := Quotient(q, b, b');
    assert q * (j - k) == q * j - q * k;
    FromQuotient(q, a - b, a' - b', j - k);
  }

  lemma EqScale(q: nat, k: int, a: int, b: int)
    requires q > 0 && Eq(q, a, b)
    ensures Eq(q, k * a, k * b)
  {
    hide Eq;
    var j := Quotient(q, a, b);
    calc {
      k * a;
      k * (b + q * j);
      k * b + q * (k * j);
    }
    FromQuotient(q, k * a, k * b, k * j);
  }

  lemma EqMul(q: nat, a: int, a': int, b: int, b': int)
    requires q > 0 && Eq(q, a, a') && Eq(q, b, b')
    ensures Eq(q, a * b, a' * b')
  {
    hide Eq;
    EqScale(q, a, b, b');
    EqScale(q, b', a, a');
    assert b' * a == a * b' && b' * a' == a' * b';
    EqTrans(q, a * b, a * b', a' * b');
  }

  // ---------- Inverses modulo a prime ----------

  ghost predicate Prime(q: nat) {
    q > 1 && forall d | 1 < d < q :: q % d != 0
  }

  lemma DividesSum(g: nat, b: nat, k: int, r: nat)
    requires g > 0 && b % g == 0 && r % g == 0
    ensures (b * k + r) % g == 0
  {
    EqMul(g, b, 0, k, k);
    EqAdd(g, b * k, 0, r, 0);
  }

  /** A common divisor of a and b, written as a combination of them. */
  lemma {:induction false} Bezout(a: nat, b: nat) returns (g: nat, x: int, y: int)
    requires a > 0 || b > 0
    ensures g > 0 && a % g == 0 && b % g == 0 && g == a * x + b * y
    decreases b
  {
    if b == 0 {
      g, x, y := a, 1, 0;
      ModUnique(a, 0, 0, 0);
    } else {
      var x', y';
      g, x', y' := Bezout(b, a % b);
      assert a == b * (a / b) + a % b;
      DividesSum(g, b, a / b, a % b);
      x, y := y', x' - (a / b) * y';
      calc {
        a * x + b * y;
        a * y' + b * x' - b * ((a / b) * y');
        { assert b * ((a / b) * y') == (b * (a / b)) * y'; }
        b * x' + (a - b * (a / b)) * y';
        b * x' + (a % b) * y';
      }
    }
  }

  /** Every number that the prime does not divide has an inverse. */
  lemma InverseExists(q: nat, a: nat) returns (b: nat)
    requires Prime(q) && a % q != 0
    ensures b < q && Eq(q, a * b, 1)
  {
    var r := a % q;
    var g, x, y := Bezout(q, r);
    assert g <= r by {
      if g > r {
        ModUnique(g, r, 0, r);
      }
    }
    assert g == 1;
    b := y % q;
    EqMod(q, a);
    EqMod(q, y);
    EqMul(q, a, r, b, y);
    assert r * y == 1 + q * (-x);
    FromQuotient(q, r * y, 1, -x);
  }

  /** The inverse found by search; nothing is said when there is none. */
  function Inverse(q: nat, a: nat): (b: nat)
    requires q > 0
    ensures b < q
  {
    InverseFrom(q, a, 0)
  }

  function InverseFrom(q: nat, a: nat, c: nat): (b: nat)
    requires q > 0 && c <= q
    ensures b < q
    ensures (exists d :: c <= d < q && Eq(q, a * d, 1)) ==> Eq(q, a * b, 1)
    decreases q - c
  {
    if c == q then 0 else if Eq(q, a * c, 1) then c else InverseFrom(q, a, c + 1)
  }

  lemma InverseIsInverse(q: nat, a: nat)
    requires Prime(q) && a % q != 0
    ensures Eq(q, a * Inverse(q, a), 1)
  {
    var b := InverseExists(q, a);
  }

  /** A product vanishes only if a factor does. */
  lemma ProductNonZero(q: nat, a: nat, b: nat)
    requires Prime(q) && a % q != 0
    ensures (a * b) % q == 0 <==> b % q == 0
  {
    var c := InverseExists(q, a);
    if Eq(q, a * b, 0) {
      EqMul(q, a * b, 0, c, c);
      EqMul(q, a * c, 1, b, b);
      assert (a * b) * c == (a * c) * b;
    }
    if Eq(q, b, 0) {
      EqMul(q, a, a, b, 0);
    }
  }
}
