/** Bitwise operations on naturals, and powers of two. */
module Bits {

  function Pow2(n: nat): (p: nat)
    ensures p >= 1
  {
    if n == 0 then 1 else 2 * Pow2(n - 1)
  }

  function And(a: nat, b: nat): nat {
    if a == 0 || b == 0 then 0
    else (if a % 2 == 1 && b % 2 == 1 then 1 else 0) + 2 * And(a / 2, b / 2)
  }

  function Or(a: nat, b: nat): nat {
    if a == 0 then b else if b == 0 then a
    else (if a % 2 == 1 || b % 2 == 1 then 1 else 0) + 2 * Or(a / 2, b / 2)
  }

  /** `a & !b`. */
  function AndNot(a: nat, b: nat): nat {
    if a == 0 then 0
    else (if a % 2 == 1 && b % 2 == 0 then 1 else 0) + 2 * AndNot(a / 2, b / 2)
  }

  lemma Pow2Add(m: nat, n: nat)
    ensures Pow2(m + n) == Pow2(m) * Pow2(n)
  {
    if m > 0 {
      Pow2Add(m - 1, n);
    }
  }

  lemma {:induction false} AndSplit(a: nat, b: nat)
    ensures And(a, b) + AndNot(a, b) == a
    ensures And(a, b) <= b
  {
    if a != 0 && b != 0 {
      AndSplit(a / 2, b / 2);
    } else if a != 0 {
      AndNotZero(a);
    }
  }

  lemma {:induction false} AndNotZero(a: nat)
    ensures AndNot(a, 0) == a
  {
    if a != 0 {
      AndNotZero(a / 2);
    }
  }

  /** Masking with a run of ones is a remainder. */
  lemma {:induction false} AndMask(a: nat, k: nat)
    ensures And(a, Pow2(k) - 1) == a % Pow2(k)
  {
    hide And;
    if k == 0 {
      AndZero(a);
    } else {
      var h := Pow2(k - 1);
      AndMask(a / 2, k - 1);
      ModDouble(a, h);
      AndOnes(a, h);
    }
  }

  lemma AndZero(a: nat)
    ensures And(a, 0) == 0
  {}

  lemma AndOnes(a: nat, h: nat)
    requires h >= 1
    ensures And(a, 2 * h - 1) == a % 2 + 2 * And(a / 2, h - 1)
  {
    HalfOfOnes(h);
  }

  lemma HalfOfOnes(h: nat)
    requires h >= 1
    ensures (2 * h - 1) / 2 == h - 1 && (2 * h - 1) % 2 == 1
  {}

  lemma ModDouble(a: nat, h: nat)
    requires h > 0
    ensures a % (2 * h) == 2 * (a / 2 % h) + a % 2
  {
    var q, r := a / 2 / h, a / 2 % h;
    assert a / 2 == h * q + r;
    assert 2 * (h * q) == (2 * h) * q;
    ModUnique(a, 2 * h, q, 2 * r + a % 2);
  }

  lemma ModUnique(a: nat, d: nat, q: nat, r: nat)
    requires d > 0 && a == d * q + r && r < d
    ensures a % d == r && a / d == q
  {
    var q', r' := a / d, a % d;
    assert a == d * q' + r';
    assert d * (q' - q) == d * q' - d * q == r - r';
    if q' - q >= 1 {
      MulAtLeast(d, q' - q);
    } else if q - q' >= 1 {
      MulAtLeast(d, q - q');
    }
  }

  lemma MulAtLeast(d: nat, k: nat)
    requires k >= 1
    ensures d * k >= d
  {}

  lemma OrCommutes(a: nat, b: nat)
    ensures Or(a, b) == Or(b, a)
  {}

  /** Bits that do not overlap are added. */
  lemma {:induction false} OrDisjoint(low: nat, high: nat, k: nat)
    requires low < Pow2(k)
    ensures Or(low, high * Pow2(k)) == low + high * Pow2(k)
    ensures Or(high * Pow2(k), low) == low + high * Pow2(k)
  {
    hide Or;
    OrCommutes(low, high * Pow2(k));
    OrZero(low);
    OrZero(high * Pow2(k));
    if k > 0 && low != 0 && high != 0 {
      var h := high * Pow2(k - 1);
      assert high * Pow2(k) == 2 * h;
      OrDisjoint(low / 2, high, k - 1);
      OrStep(low, h);
    }
  }

  lemma OrZero(a: nat)
    ensures Or(a, 0) == a == Or(0, a)
  {}

  lemma OrStep(a: nat, h: nat)
    ensures Or(a, 2 * h) == a % 2 + 2 * Or(a / 2, h)
  {
    assert 2 * h / 2 == h && 2 * h % 2 == 0;
  }

  lemma OrParts(a: nat, b: nat)
    ensures Or(a, b) / 2 == Or(a / 2, b / 2)
    ensures Or(a, b) % 2 == if a % 2 == 1 || b % 2 == 1 then 1 else 0
  {}

  lemma {:induction false} OrAssociates(a: nat, b: nat, c: nat)
    ensures Or(a, Or(b, c)) == Or(Or(a, b), c)
    decreases a + b + c
  {
    if a == 0 || b == 0 || c == 0 {
      OrZero(a);
      OrZero(b);
      OrZero(c);
      OrZero(Or(a, b));
      OrZero(Or(b, c));
    } else {
      hide Or;
      OrParts(b, c);
      OrParts(a, Or(b, c));
      OrParts(a, b);
      OrParts(Or(a, b), c);
      OrAssociates(a / 2, b / 2, c / 2);
    }
  }

  lemma {:induction false} OrBound(a: nat, b: nat, k: nat)
    requires a < Pow2(k) && b < Pow2(k)
    ensures Or(a, b) < Pow2(k)
  {
    if k > 0 {
      OrParts(a, b);
      OrBound(a / 2, b / 2, k - 1);
    }
  }

  /** Testing a single bit of a number that has none above it. */
  lemma {:induction false} AndTopBit(a: nat, k: nat)
    requires a < Pow2(k + 1)
    ensures And(a, Pow2(k)) == if a >= Pow2(k) then Pow2(k) else 0
  {
    if a != 0 {
      if k == 0 {
        assert a == 1;
        assert And(1, 1) == 1;
      } else {
        AndTopBit(a / 2, k - 1);
      }
    }
  }

  // ----- masks that are not runs of ones -----

  lemma AndShift(q: nat, m: nat)
    ensures And(2 * q, m) == 2 * And(q, m / 2)
    ensures And(2 * q + 1, m) == m % 2 + 2 * And(q, m / 2)
  {
    assert 2 * q / 2 == q && 2 * q % 2 == 0;
    assert (2 * q + 1) / 2 == q && (2 * q + 1) % 2 == 1;
  }

  lemma {:induction false} ShiftedContainsSelf(q: nat)
    requires And(2 * q, q) == q
    ensures q == 0
  {
    AndShift(q, q);
    hide And;
    if q != 0 {
      assert q == 2 * (q / 2);
      ShiftedContainsSelf(q / 2);
    }
  }

  /** `m` is contained in `2m + 1` only if it is a run of ones. */
  lemma {:induction false} RunOfOnes(m: nat) returns (k: nat)
    requires And(2 * m + 1, m) == m
    ensures m + 1 == Pow2(k)
  {
    k := 0;
    if m != 0 {
      AndShift(m, m);
      hide And;
      var q := m / 2;
      if m % 2 == 0 {
        assert m == 2 * q;
        ShiftedContainsSelf(q);
      } else {
        assert m == 2 * q + 1;
        k := RunOfOnes(q);
        k := k + 1;
      }
    }
  }
}
