/** Bit patterns as natural numbers: powers of two, bit length, bitwise
    exclusive-or, and polynomial arithmetic over GF(2), where a natural
    number stands for the polynomial whose coefficients are its binary
    digits (bit k is the coefficient of x^k). */
module GF2 {

  function Pow2(k: nat): (r: nat)
    ensures r >= 1
  {
    if k == 0 then 1 else 2 * Pow2(k - 1)
  }

  /** Number of binary digits of v (0 for 0). */
  function BitLength(v: nat): nat
  {
    if v == 0 then 0 else 1 + BitLength(v / 2)
  }

  /** The bit length is the n with 2^(n-1) <= v < 2^n, and 0 only for 0. */
  lemma {:induction false} BitLengthBounds(v: nat)
    ensures v == 0 <==> BitLength(v) == 0
    ensures v > 0 ==> Pow2(BitLength(v) - 1) <= v < Pow2(BitLength(v))
  {
    if v > 1 {
      BitLengthBounds(v / 2);
    }
  }

  /** Conversely, bounds by two consecutive powers of two fix the bit length. */
  lemma {:induction false} BitLengthUnique(v: nat, n: nat)
    requires n > 0 && Pow2(n - 1) <= v < Pow2(n)
    ensures BitLength(v) == n
  {
    if n > 1 {
      BitLengthUnique(v / 2, n - 1);
    }
  }

  lemma {:induction false} BitLengthBelow(v: nat, n: nat)
    requires v < Pow2(n)
    ensures BitLength(v) <= n
  {
    if v > 0 {
      BitLengthBounds(v);
      if BitLength(v) > n {
        Pow2Mono(n, BitLength(v) - 1);
      }
    }
  }

  lemma {:induction false} Pow2Mono(a: nat, b: nat)
    requires a <= b
    ensures Pow2(a) <= Pow2(b)
  {
    if a < b {
      Pow2Mono(a, b - 1);
    }
  }

  lemma {:induction false} Pow2Add(a: nat, b: nat)
    ensures Pow2(a + b) == Pow2(a) * Pow2(b)
  {
    if b > 0 {
      Pow2Add(a, b - 1);
      assert Pow2(a + b) == 2 * Pow2(a + b - 1);
    }
  }

  /** Shifting left by s adds s to the bit length of a non-zero value. */
  lemma {:induction false} BitLengthShift(p: nat, s: nat)
    requires p > 0
    ensures BitLength(p * Pow2(s)) == BitLength(p) + s
  {
    if s > 0 {
      BitLengthShift(p, s - 1);
      var q := p * Pow2(s - 1);
      assert p * Pow2(s) == 2 * q;
      assert (2 * q) / 2 == q;
    }
  }

  /** Bitwise exclusive-or of two naturals. */
  function Xor(a: nat, b: nat): nat
    decreases a + b
  {
    if a == 0 then b
    else if b == 0 then a
    else 2 * Xor(a / 2, b / 2) + (if a % 2 == b % 2 then 0 else 1)
  }

  /** The lowest digit of Xor(a, b) is the exclusive-or of the lowest digits, the rest is Xor of the rest. */
  lemma XorDigits(a: nat, b: nat)
    ensures Xor(a, b) % 2 == (if a % 2 == b % 2 then 0 else 1)
    ensures Xor(a, b) / 2 == Xor(a / 2, b / 2)
  {
    if a != 0 && b != 0 {
      var d := if a % 2 == b % 2 then 0 else 1;
      var h := Xor(a / 2, b / 2);
      assert Xor(a, b) == 2 * h + d;
      Halve(Xor(a, b), h, d);
    }
  }

  /** 2h + d, for a digit d, halves to h with remainder d. */
  lemma Halve(x: nat, h: nat, d: nat)
    requires d < 2 && x == 2 * h + d
    ensures x / 2 == h && x % 2 == d
  {
  }

  lemma DigitsEqual(x: nat, y: nat)
    requires x % 2 == y % 2 && x / 2 == y / 2
    ensures x == y
  {
  }

  lemma {:induction false} XorComm(a: nat, b: nat)
    ensures Xor(a, b) == Xor(b, a)
    decreases a + b
  {
    if a != 0 && b != 0 {
      XorComm(a / 2, b / 2);
    }
  }

  lemma {:induction false} XorSelf(a: nat)
    ensures Xor(a, a) == 0
    decreases a
  {
    if a != 0 {
      XorSelf(a / 2);
    }
  }

  lemma XorZero(a: nat)
    ensures Xor(a, 0) == a && Xor(0, a) == a
  {
  }

  lemma {:induction false} XorAssoc(a: nat, b: nat, c: nat)
    ensures Xor(Xor(a, b), c) == Xor(a, Xor(b, c))
    decreases a + b + c
  {
    if a + b + c > 0 {
      XorAssoc(a / 2, b / 2, c / 2);
      XorDigits(a, b);
      XorDigits(b, c);
      XorDigits(Xor(a, b), c);
      XorDigits(a, Xor(b, c));
      DigitsEqual(Xor(Xor(a, b), c), Xor(a, Xor(b, c)));
    }
  }

  /** Exclusive-or cancels: Xor(Xor(a, b), b) == a. */
  lemma XorCancel(a: nat, b: nat)
    ensures Xor(Xor(a, b), b) == a
  {
    XorAssoc(a, b, b);
    XorSelf(b);
  }

  /** Rearranging four operands of exclusive-or. */
  lemma XorSwapMiddle(w: nat, x: nat, y: nat, z: nat)
    ensures Xor(Xor(w, x), Xor(y, z)) == Xor(Xor(w, y), Xor(x, z))
  {
    calc {
      Xor(Xor(w, x), Xor(y, z));
      { XorAssoc(w, x, Xor(y, z)); }
      Xor(w, Xor(x, Xor(y, z)));
      { XorAssoc(x, y, z); XorComm(x, y); XorAssoc(y, x, z); }
      Xor(w, Xor(y, Xor(x, z)));
      { XorAssoc(w, y, Xor(x, z)); }
      Xor(Xor(w, y), Xor(x, z));
    }
  }

  lemma {:induction false} XorZeroIff(a: nat, b: nat)
    ensures Xor(a, b) == 0 <==> a == b
    decreases a + b
  {
    if a == b {
      XorSelf(a);
    } else if a != 0 && b != 0 {
      XorZeroIff(a / 2, b / 2);
      XorDigits(a, b);
      if Xor(a, b) == 0 {
        DigitsEqual(a, b);
      }
    }
  }

  lemma XorDouble(a: nat, b: nat)
    ensures Xor(2 * a, 2 * b) == 2 * Xor(a, b)
  {
    XorDigits(2 * a, 2 * b);
    assert (2 * a) / 2 == a && (2 * b) / 2 == b;
    DigitsEqual(Xor(2 * a, 2 * b), 2 * Xor(a, b));
  }

  /** The exclusive-or of two values of bit length L > 0 has a smaller bit length: the top bits cancel. */
  lemma {:induction false} XorTopCancels(a: nat, b: nat)
    requires BitLength(a) == BitLength(b) > 0
    ensures BitLength(Xor(a, b)) < BitLength(a)
    decreases a
  {
    BitLengthBounds(a);
    BitLengthBounds(b);
    if BitLength(a) == 1 {
      assert a == 1 && b == 1;
      XorSelf(1);
    } else {
      XorTopCancels(a / 2, b / 2);
      XorDigits(a, b);
      BitLengthHalf(Xor(a, b));
    }
  }

  lemma BitLengthHalf(v: nat)
    ensures BitLength(v) <= 1 + BitLength(v / 2)
  {
  }

  /** Exclusive-or never lengthens: its bit length is at most the larger bit length. */
  lemma {:induction false} XorLengthMax(a: nat, b: nat)
    ensures BitLength(Xor(a, b)) <= if BitLength(a) < BitLength(b) then BitLength(b) else BitLength(a)
    decreases a + b
  {
    if a != 0 && b != 0 {
      XorLengthMax(a / 2, b / 2);
      XorDigits(a, b);
      BitLengthHalf(Xor(a, b));
    }
  }

  /** A shorter operand leaves the bit length of the longer one unchanged. */
  lemma {:induction false} XorKeepsLength(a: nat, b: nat)
    requires BitLength(b) < BitLength(a)
    ensures BitLength(Xor(a, b)) == BitLength(a)
    decreases a + b
  {
    if b != 0 {
      XorKeepsLength(a / 2, b / 2);
      XorDigits(a, b);
      assert Xor(a, b) != 0 by {
        XorZeroIff(a, b);
      }
    }
  }

  /** Exclusive-or with a value below 2^k into a value shifted by k is addition. */
  lemma {:induction false} XorDisjoint(a: nat, k: nat, b: nat)
    requires b < Pow2(k)
    ensures Xor(a * Pow2(k), b) == a * Pow2(k) + b
  {
    if k == 0 {
      assert b == 0;
    } else {
      MulDouble(a, Pow2(k - 1));
      var h: nat := a * Pow2(k - 1);
      assert a * Pow2(k) == 2 * h;
      XorDisjoint(a, k - 1, b / 2);
      XorDigits(2 * h, b);
      Halve(2 * h, h, 0);
      Halve(2 * h + b, h + b / 2, b % 2);
      DigitsEqual(Xor(2 * h, b), 2 * h + b);
    }
  }

  /** Carry-less (GF(2) polynomial) product of a and p. */
  function CMul(a: nat, p: nat): nat
    decreases a
  {
    if a == 0 then 0 else Xor(2 * CMul(a / 2, p), if a % 2 == 1 then p else 0)
  }

  lemma CMulUnfold(a: nat, p: nat)
    ensures CMul(a, p) == Xor(2 * CMul(a / 2, p), if a % 2 == 1 then p else 0)
  {
  }

  /** Multiplying by the monomial x^s is a left shift by s. */
  lemma {:induction false} CMulPow2(s: nat, p: nat)
    ensures CMul(Pow2(s), p) == p * Pow2(s)
  {
    if s == 0 {
      CMulUnfold(1, p);
      XorZero(p);
    } else {
      CMulPow2(s - 1, p);
      var h := Pow2(s - 1);
      assert Pow2(s) == 2 * h;
      CMulDouble(h, p);
      MulDouble(p, h);
    }
  }

  lemma CMulDouble(h: nat, p: nat)
    ensures CMul(2 * h, p) == 2 * CMul(h, p)
  {
    assert (2 * h) / 2 == h && (2 * h) % 2 == 0;
    CMulUnfold(2 * h, p);
    XorZero(2 * CMul(h, p));
  }

  lemma MulDouble(p: nat, h: nat)
    ensures p * h >= 0
    ensures p * (2 * h) == 2 * (p * h)
  {
  }

  /** The carry-less product distributes over exclusive-or. */
  lemma {:induction false} CMulXor(a: nat, b: nat, p: nat)
    ensures CMul(Xor(a, b), p) == Xor(CMul(a, p), CMul(b, p))
    decreases a + b
  {
    if a + b > 0 {
      CMulXor(a / 2, b / 2, p);
      var c := Xor(a, b);
      XorDigits(a, b);
      var A, B := CMul(a / 2, p), CMul(b / 2, p);
      var pa := if a % 2 == 1 then p else 0;
      var pb := if b % 2 == 1 then p else 0;
      var pc := if c % 2 == 1 then p else 0;
      assert pc == Xor(pa, pb) by {
        XorSelf(p);
        XorZero(p);
      }
      CMulUnfold(c, p);
      CMulUnfold(a, p);
      CMulUnfold(b, p);
      XorDouble(A, B);
      XorSwapMiddle(2 * A, 2 * B, pa, pb);
    }
  }

  /** Bit length of a product: L(x) + L(p) - 1 for non-zero factors. */
  lemma {:induction false} CMulLength(x: nat, p: nat)
    requires x > 0 && p > 0
    ensures BitLength(CMul(x, p)) == BitLength(x) + BitLength(p) - 1
    decreases x
  {
    if x == 1 {
      CMulUnfold(1, p);
    } else {
      CMulLength(x / 2, p);
      var c := CMul(x / 2, p);
      assert c > 0 by { BitLengthBounds(c); }
      assert (2 * c) / 2 == c;
      assert BitLength(2 * c) == BitLength(c) + 1;
      CMulUnfold(x, p);
      if x % 2 == 1 {
        XorKeepsLength(2 * c, p);
      }
    }
  }

  /** GF(2) polynomial remainder of a divided by p, computed by repeatedly cancelling the top bit. */
  function PolyMod(a: nat, p: nat): nat
    requires p > 0
    decreases BitLength(a)
  {
    if BitLength(a) < BitLength(p) then a
    else
      var s := BitLength(a) - BitLength(p);
      BitLengthShift(p, s);
      XorTopCancels(a, p * Pow2(s));
      PolyMod(Xor(a, p * Pow2(s)), p)
  }

  /** The quotient that goes with PolyMod. */
  function PolyQuot(a: nat, p: nat): nat
    requires p > 0
    decreases BitLength(a)
  {
    if BitLength(a) < BitLength(p) then 0
    else
      var s := BitLength(a) - BitLength(p);
      BitLengthShift(p, s);
      XorTopCancels(a, p * Pow2(s));
      Xor(Pow2(s), PolyQuot(Xor(a, p * Pow2(s)), p))
  }

  /** PolyMod is a remainder: shorter than the divisor, and a XOR r is a multiple of p. */
  lemma {:induction false} PolyModIsRemainder(a: nat, p: nat)
    requires p > 0
    ensures BitLength(PolyMod(a, p)) < BitLength(p)
    ensures Xor(a, PolyMod(a, p)) == CMul(PolyQuot(a, p), p)
    decreases BitLength(a)
  {
    if BitLength(a) < BitLength(p) {
      XorSelf(a);
    } else {
      var s := BitLength(a) - BitLength(p);
      var m := p * Pow2(s);
      BitLengthShift(p, s);
      XorTopCancels(a, m);
      var a' := Xor(a, m);
      PolyModIsRemainder(a', p);
      var r, q' := PolyMod(a', p), PolyQuot(a', p);
      calc {
        Xor(a, r);
        { XorCancel(a, m); }
        Xor(Xor(a', m), r);
        { XorAssoc(a', m, r); XorComm(m, r); XorAssoc(a', r, m); }
        Xor(Xor(a', r), m);
        { CMulPow2(s, p); }
        Xor(CMul(q', p), CMul(Pow2(s), p));
        { CMulXor(q', Pow2(s), p); XorComm(q', Pow2(s)); }
        CMul(PolyQuot(a, p), p);
      }
    }
  }

  /** The remainder is unique: any r shorter than p with a XOR r a multiple of p is PolyMod(a, p). */
  lemma PolyModUnique(a: nat, p: nat, q: nat, r: nat)
    requires p > 0
    requires BitLength(r) < BitLength(p)
    requires Xor(a, r) == CMul(q, p)
    ensures r == PolyMod(a, p)
  {
    PolyModIsRemainder(a, p);
    var r0, q0 := PolyMod(a, p), PolyQuot(a, p);
    calc {
      Xor(r, r0);
      { XorSelf(a); XorZero(Xor(r, r0)); }
      Xor(Xor(a, a), Xor(r, r0));
      { XorSwapMiddle(a, a, r, r0); }
      Xor(Xor(a, r), Xor(a, r0));
      { CMulXor(q, q0, p); }
      CMul(Xor(q, q0), p);
    }
    XorLengthMax(r, r0);
    if Xor(q, q0) != 0 {
      CMulLength(Xor(q, q0), p);
      BitLengthBounds(Xor(q, q0));
      assert false;
    }
    assert Xor(r, r0) == 0;
    XorZeroIff(r, r0);
  }

  /** A polynomial is divisible by p exactly when it is a carry-less multiple of p. */
  lemma MultipleHasZeroRemainder(q: nat, p: nat)
    requires p > 0
    ensures PolyMod(CMul(q, p), p) == 0
  {
    XorZero(CMul(q, p));
    PolyModUnique(CMul(q, p), p, q, 0);
  }
}
