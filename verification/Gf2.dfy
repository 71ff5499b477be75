/** Exclusive or of natural numbers, bit by bit: addition of polynomials over GF(2). */
module Gf2 {
  function Xor(a: nat, b: nat): nat
    decreases a + b
  {
    if a == 0 && b == 0 then 0 else 2 * Xor(a / 2, b / 2) + (a % 2 + b % 2) % 2
  }

  /** 2 to the power of n. */
  function Pow2(n: nat): (p: nat)
    ensures p > 0
  {
    if n == 0 then 1 else 2 * Pow2(n - 1)
  }

  lemma {:induction false} XorUnfold(a: nat, b: nat)
    ensures Xor(a, b) == 2 * Xor(a / 2, b / 2) + (a % 2 + b % 2) % 2
  {
  }

  lemma DoubleAndBit(x: nat, bit: nat)
    requires bit < 2
    ensures (2 * x + bit) % 2 == bit && (2 * x + bit) / 2 == x
  {
  }

  /** The last bit and the others of an exclusive or. */
  lemma {:induction false} XorBits(a: nat, b: nat)
    ensures Xor(a, b) % 2 == (a % 2 + b % 2) % 2 && Xor(a, b) / 2 == Xor(a / 2, b / 2)
  {
    XorUnfold(a, b);
    hide Xor;
    DoubleAndBit(Xor(a / 2, b / 2), (a % 2 + b % 2) % 2);
  }

  lemma {:induction false} XorComm(a: nat, b: nat)
    ensures Xor(a, b) == Xor(b, a)
    decreases a + b
  {
    if a + b > 0 {
      XorComm(a / 2, b / 2);
    }
  }

  lemma {:induction false} XorZero(a: nat)
    ensures Xor(a, 0) == a && Xor(0, a) == a
  {
    if a > 0 {
      XorZero(a / 2);
    }
  }

  lemma {:induction false} XorSelf(a: nat)
    ensures Xor(a, a) == 0
  {
    if a > 0 {
      XorSelf(a / 2);
    }
  }

  lemma SameHalves(x: nat, y: nat)
    requires x / 2 == y / 2 && x % 2 == y % 2
    ensures x == y
  {
  }

  lemma {:induction false} XorAssoc(a: nat, b: nat, c: nat)
    ensures Xor(Xor(a, b), c) == Xor(a, Xor(b, c))
    decreases a + b + c
  {
    hide Xor;
    if a + b + c > 0 {
      XorAssoc(a / 2, b / 2, c / 2);
      XorBits(a, b);
      XorBits(b, c);
      XorBits(Xor(a, b), c);
      XorBits(a, Xor(b, c));
      Parity(a, b, c);
      SameHalves(Xor(Xor(a, b), c), Xor(a, Xor(b, c)));
    } else {
      XorZero(0);
    }
  }

  lemma Parity(a: nat, b: nat, c: nat)
    ensures ((a % 2 + b % 2) % 2 % 2 + c % 2) % 2 == (a % 2 + (b % 2 + c % 2) % 2 % 2) % 2
  {
  }

  /** Undoing an exclusive or. */
  lemma XorCancel(a: nat, k: nat)
    ensures Xor(Xor(a, k), k) == a
  {
    XorAssoc(a, k, k);
    XorSelf(k);
    XorZero(a);
  }

  lemma {:induction false} XorBound(a: nat, b: nat, n: nat)
    requires a < Pow2(n) && b < Pow2(n)
    ensures Xor(a, b) < Pow2(n)
    decreases n
  {
    if n > 0 {
      XorBound(a / 2, b / 2, n - 1);
    }
  }

  // ----- polynomials: the number is the vector of coefficients

  /** The leading term: adding x^n to one operand or to both. */
  lemma {:induction false} XorTop(a: nat, b: nat, n: nat)
    requires a < Pow2(n) && b < Pow2(n)
    ensures Xor(a + Pow2(n), b) == Xor(a, b) + Pow2(n)
    ensures Xor(a + Pow2(n), b + Pow2(n)) == Xor(a, b)
    decreases n
  {
    hide Xor;
    if n == 0 {
      XorZero(1);
      XorSelf(1);
      XorZero(0);
    } else {
      var p := Pow2(n - 1);
      assert a / 2 < p && b / 2 < p;
      XorTop(a / 2, b / 2, n - 1);
      AddAbove(a, b, p, 0);
      AddAbove(a, b, p, p);
    }
  }

  /** Adding even numbers does not touch the last bit. */
  lemma AddAbove(a: nat, b: nat, p: nat, q: nat)
    ensures Xor(a + 2 * p, b + 2 * q) == 2 * Xor(a / 2 + p, b / 2 + q) + (a % 2 + b % 2) % 2
    ensures Xor(a, b) == 2 * Xor(a / 2, b / 2) + (a % 2 + b % 2) % 2
  {
    hide Xor;
    XorBits(a, b);
    XorBits(a + 2 * p, b + 2 * q);
    assert (a + 2 * p) / 2 == a / 2 + p && (a + 2 * p) % 2 == a % 2;
    assert (b + 2 * q) / 2 == b / 2 + q && (b + 2 * q) % 2 == b % 2;
  }

  lemma TimesTwo(a: nat, p: nat)
    ensures a * (2 * p) == 2 * (a * p)
  {
  }

  /** Terms that do not overlap add up. */
  lemma {:induction false} XorDisjoint(a: nat, b: nat, n: nat)
    requires b < Pow2(n)
    ensures Xor(a * Pow2(n), b) == a * Pow2(n) + b
    decreases n
  {
    if n == 0 {
      XorZero(a);
    } else {
      var half := Pow2(n - 1);
      XorDisjoint(a, b / 2, n - 1);
      assert Pow2(n) == 2 * half;
      TimesTwo(a, half);
      var p := a * half;
      assert a * Pow2(n) == 2 * p;
      hide Xor, Pow2;
      XorBits(2 * p, b);
      BitBelow(p, b);
      SameHalves(Xor(2 * p, b), 2 * p + b);
    }
  }

  lemma BitBelow(p: nat, b: nat)
    ensures (2 * p) / 2 == p && (2 * p) % 2 == 0
    ensures (2 * p + b) / 2 == p + b / 2 && (2 * p + b) % 2 == b % 2 == (0 + b % 2) % 2
  {
  }

  lemma XorDouble(a: nat, b: nat)
    ensures Xor(2 * a, 2 * b) == 2 * Xor(a, b)
  {
    hide Xor;
    XorBits(2 * a, 2 * b);
  }

  /** Multiplying by x^n distributes. */
  lemma {:induction false} XorShift(a: nat, b: nat, n: nat)
    ensures Xor(a * Pow2(n), b * Pow2(n)) == Xor(a, b) * Pow2(n)
    decreases n
  {
    hide Xor;
    if n > 0 {
      XorShift(a, b, n - 1);
      var p := Pow2(n - 1);
      XorDouble(a * p, b * p);
      TimesTwo(a, p);
      TimesTwo(b, p);
      TimesTwo(Xor(a, b), p);
    }
  }

  lemma {:induction false} Pow2Add(m: nat, n: nat)
    ensures Pow2(m + n) == Pow2(m) * Pow2(n)
    decreases m
  {
    if m > 0 {
      Pow2Add(m - 1, n);
      assert Pow2(m) * Pow2(n) == 2 * (Pow2(m - 1) * Pow2(n));
    }
  }

  /** (a + b) + (c + d) == (a + c) + (b + d). */
  lemma XorSwap(a: nat, b: nat, c: nat, d: nat)
    ensures Xor(Xor(a, b), Xor(c, d)) == Xor(Xor(a, c), Xor(b, d))
  {
    XorAssoc(a, b, Xor(c, d));
    XorAssoc(b, c, d);
    XorComm(b, c);
    XorAssoc(c, b, d);
    XorAssoc(a, c, Xor(b, d));
  }

  /** Product of polynomials. */
  function Times(g: nat, q: nat): nat
    decreases q
  {
    if q == 0 then 0 else Xor(if q % 2 == 1 then g else 0, 2 * Times(g, q / 2))
  }

  lemma {:induction false} TimesXor(g: nat, p: nat, q: nat)
    ensures Times(g, Xor(p, q)) == Xor(Times(g, p), Times(g, q))
    decreases p + q
  {
    hide Xor;
    if p == 0 || q == 0 {
      XorZero(if p == 0 then q else p);
      XorZero(Times(g, if p == 0 then q else p));
    } else {
      TimesXor(g, p / 2, q / 2);
      XorBits(p, q);
      var a, b := if p % 2 == 1 then g else 0, if q % 2 == 1 then g else 0;
      var r := Xor(p, q);
      XorSelf(g);
      XorZero(g);
      XorZero(0);
      assert Xor(a, b) == if r % 2 == 1 then g else 0;
      XorDouble(Times(g, p / 2), Times(g, q / 2));
      XorSwap(a, 2 * Times(g, p / 2), b, 2 * Times(g, q / 2));
      TimesUnfold(g, r);
    }
  }

  lemma TimesUnfold(g: nat, q: nat)
    ensures Times(g, q) == Xor(if q % 2 == 1 then g else 0, 2 * Times(g, q / 2))
  {
    if q == 0 {
      XorZero(0);
    }
  }

  lemma TimesDouble(g: nat, q: nat)
    ensures Times(g, 2 * q) == 2 * Times(g, q)
  {
    hide Xor, Times;
    TimesUnfold(g, 2 * q);
    XorZero(2 * Times(g, q));
  }

  /** A non-zero multiple of a polynomial of degree n has degree at least n. */
  lemma {:induction false} TimesLarge(g: nat, q: nat, n: nat)
    requires Pow2(n) <= g < 2 * Pow2(n) && q != 0
    ensures Times(g, q) >= Pow2(n)
    decreases q
  {
    if q == 1 {
      assert Times(g, 0) == 0;
      XorZero(g);
    } else {
      TimesLarge(g, q / 2, n);
      var t := 2 * Times(g, q / 2);
      var a := if q % 2 == 1 then g else 0;
      if a == 0 {
        XorZero(t);
      } else {
        if Xor(g, t) < Pow2(n) {
          XorComm(g, t);
          XorCancel(t, g);
          XorBoundTop(Xor(g, t), g, n);
        }
      }
    }
  }

  /** A small polynomial added to one of degree n has degree n. */
  lemma XorBoundTop(a: nat, g: nat, n: nat)
    requires a < Pow2(n) && Pow2(n) <= g < 2 * Pow2(n)
    ensures Xor(a, g) < 2 * Pow2(n)
  {
    XorTop(g - Pow2(n), a, n);
    XorBound(g - Pow2(n), a, n);
    XorComm(a, g);
  }
}
