/** Bit tricks on natural numbers: masks, and rounding up to a power of two. */
module Bits {

  const WORD: nat := 0x1_0000_0000_0000_0000

  function Pow2(k: nat): (r: nat)
    ensures r > 0
  {
    if k == 0 then 1 else 2 * Pow2(k - 1)
  }

  ghost predicate LeastPow2(r: nat, n: nat) {
    IsPow2(r) && n <= r && forall k: nat :: n <= Pow2(k) ==> r <= Pow2(k)
  }

  ghost predicate IsPow2(n: nat) {
    exists k: nat :: n == Pow2(k)
  }

  function And(x: nat, y: nat): nat {
    if x == 0 || y == 0 then 0 else (if x % 2 == 1 && y % 2 == 1 then 1 else 0) + 2 * And(x / 2, y / 2)
  }

  function Or(x: nat, y: nat): nat
    decreases x + y
  {
    if x == 0 then y else if y == 0 then x
    else (if x % 2 == 1 || y % 2 == 1 then 1 else 0) + 2 * Or(x / 2, y / 2)
  }

  function Shr(x: nat, t: nat): nat {
    if t == 0 then x else Shr(x / 2, t - 1)
  }

  /** Masking with one less than a power of two is the remainder modulo that power. */
  lemma {:induction false} AndMask(x: nat, k: nat)
    ensures And(x, Pow2(k) - 1) == x % Pow2(k)
  {
    if x == 0 {
      ModIs(0, Pow2(k), 0, 0);
    } else if k > 0 {
      AndMask(x / 2, k - 1);
      AndStep(x, Pow2(k - 1));
    }
  }

  lemma AndStep(x: nat, h: nat)
    requires x > 0 && h > 0 && And(x / 2, h - 1) == (x / 2) % h
    ensures And(x, 2 * h - 1) == x % (2 * h)
  {
    assert (2 * h - 1) / 2 == h - 1 && (2 * h - 1) % 2 == 1;
    HalfMod(x, h);
  }

  lemma HalfMod(x: nat, h: nat)
    requires h > 0
    ensures x % (2 * h) == 2 * ((x / 2) % h) + x % 2
  {
    var q, r := (x / 2) / h, (x / 2) % h;
    assert x == q * (2 * h) + (2 * r + x % 2) by {
      assert x / 2 == q * h + r;
      assert x == 2 * (x / 2) + x % 2;
    }
    ModIs(x, 2 * h, q, 2 * r + x % 2);
  }

  lemma MulOrder(a: nat, b: nat, d: nat)
    ensures a < b ==> (a + 1) * d <= b * d
    ensures b < a ==> (b + 1) * d <= a * d
  {
  }

  lemma ModIs(x: nat, d: nat, q: nat, r: nat)
    requires r < d && x == q * d + r
    ensures x % d == r
  {
    MulOrder(q, x / d, d);
  }

  lemma {:induction false} Pow2Grows(a: nat, b: nat)
    requires a <= b
    ensures Pow2(a) <= Pow2(b)
  {
    if a < b {
      Pow2Grows(a, b - 1);
    }
  }

  /** The number of binary digits. */
  function Digits(m: nat): (p: nat)
    ensures m < Pow2(p)
    ensures m > 0 ==> p > 0 && Pow2(p - 1) <= m
  {
    if m == 0 then 0 else 1 + Digits(m / 2)
  }

  lemma {:induction false} DigitsBelow(m: nat, k: nat)
    requires m < Pow2(k)
    ensures Digits(m) <= k
  {
    if Digits(m) > k {
      Pow2Grows(k, Digits(m) - 1);
    }
  }

  /** The top t of the p binary digits of m are ones. */
  predicate TopOnes(m: nat, t: nat, p: nat) {
    m < Pow2(p) && if t <= p then m >= Pow2(p) - Pow2(p - t) else m == Pow2(p) - 1
  }

  lemma {:induction false} OrLow(m: nat, q: nat)
    ensures Or(m, Pow2(q) - 1) == m - m % Pow2(q) + (Pow2(q) - 1)
  {
    if q > 0 && m > 0 {
      OrLow(m / 2, q - 1);
      OrStep(m, Pow2(q - 1));
    }
  }

  lemma OrStep(m: nat, h: nat)
    requires m > 0 && h > 0 && Or(m / 2, h - 1) == m / 2 - (m / 2) % h + (h - 1)
    ensures Or(m, 2 * h - 1) == m - m % (2 * h) + (2 * h - 1)
  {
    assert (2 * h - 1) / 2 == h - 1 && (2 * h - 1) % 2 == 1;
    HalfMod(m, h);
  }

  lemma {:induction false} ShrBelow(m: nat, k: nat, p: nat)
    requires k <= p && m < Pow2(p)
    ensures Shr(m, k) < Pow2(p - k)
  {
    if k > 0 {
      ShrBelow(m / 2, k - 1, p - 1);
    }
  }

  /** Dropping the digits below leading ones leaves ones. */
  lemma {:induction false} ShrOnes(m: nat, k: nat, t: nat, p: nat)
    requires k <= p && p - k <= t <= p && m < Pow2(p) && m >= Pow2(p) - Pow2(p - t)
    ensures Shr(m, k) == Pow2(p - k) - 1
    decreases k
  {
    if k > 0 {
      if t == p {
        ShrOnes(m / 2, k - 1, p - 1, p - 1);
      } else {
        ShrOnes(m / 2, k - 1, t, p - 1);
      }
    }
  }

  /** m |= m >> t doubles the run of leading ones. */
  lemma {:induction false} SmearStep(m: nat, t: nat, p: nat)
    requires t > 0 && TopOnes(m, t, p)
    ensures TopOnes(Or(m, Shr(m, t)), 2 * t, p)
    decreases p
  {
    if t > p {
      ShrAll(m, t, p);
    } else if 2 * t >= p {
      ShrOnes(m, t, t, p);
      OrLow(m, p - t);
      RoundDown(m, p - t, p);
    } else {
      SmearStep(m / 2, t, p - 1);
      ShrHalf(m, t);
      OrHalf(m, Shr(m, t));
    }
  }

  lemma {:induction false} ShrAll(m: nat, t: nat, p: nat)
    requires m < Pow2(p) && p <= t
    ensures Shr(m, t) == 0
    decreases t
  {
    if t > 0 {
      ShrAll(m / 2, t - 1, if p > 0 then p - 1 else 0);
    }
  }

  lemma {:induction false} ShrHalf(m: nat, t: nat)
    ensures Shr(m, t) / 2 == Shr(m / 2, t)
  {
    if t > 0 {
      ShrHalf(m / 2, t - 1);
    }
  }

  lemma OrHalf(x: nat, y: nat)
    ensures Or(x, y) / 2 == Or(x / 2, y / 2)
  {
  }

  lemma RoundDown(m: nat, q: nat, p: nat)
    requires q <= p && Pow2(p) - Pow2(q) <= m < Pow2(p)
    ensures m - m % Pow2(q) == Pow2(p) - Pow2(q)
  {
    Pow2Splits(q, p);
    RoundDownBy(m, Pow2(q), Pow2(p - q));
  }

  lemma RoundDownBy(m: nat, d: nat, c: nat)
    requires d > 0 && c > 0 && c * d - d <= m < c * d
    ensures m - m % d == c * d - d
  {
    assert (c - 1) * d == c * d - d;
    ModIs(m, d, c - 1, m - (c - 1) * d);
  }

  lemma {:induction false} Pow2Splits(q: nat, p: nat)
    requires q <= p
    ensures Pow2(p - q) * Pow2(q) == Pow2(p)
  {
    if q < p {
      Pow2Splits(q, p - 1);
      assert Pow2(p - q) == 2 * Pow2(p - 1 - q);
    }
  }

  lemma WordIsPow2()
    ensures Pow2(64) == WORD && Pow2(63) == WORD / 2 && Pow2(32) == 0x1_0000_0000
  {
    assert Pow2(8) == 256;
    Pow2Splits(8, 16);
    Pow2Splits(16, 32);
    Pow2Splits(32, 64);
  }

  function Smear(m: nat, t: nat): nat {
    Or(m, Shr(m, t))
  }

  /** Six smears fill every digit below the leading one. */
  lemma SmearFills(m: nat)
    requires m < WORD
    ensures Smear(Smear(Smear(Smear(Smear(Smear(m, 1), 2), 4), 8), 16), 32) == Pow2(Digits(m)) - 1
  {
    var p := Digits(m);
    WordIsPow2();
    DigitsBelow(m, 64);
    SmearStep(m, 1, p);
    var m1 := Smear(m, 1);
    SmearStep(m1, 2, p);
    var m2 := Smear(m1, 2);
    SmearStep(m2, 4, p);
    var m4 := Smear(m2, 4);
    SmearStep(m4, 8, p);
    var m8 := Smear(m4, 8);
    SmearStep(m8, 16, p);
    var m16 := Smear(m8, 16);
    SmearStep(m16, 32, p);
    FullWord(Smear(m16, 32), p);
  }

  lemma FullWord(m: nat, p: nat)
    requires TopOnes(m, 64, p) && p <= 64
    ensures m == Pow2(p) - 1
  {
    assert Pow2(0) == 1;
  }

  /** What rounding up to a power of two yields from the filled digits. */
  lemma RoundedUp(n: nat)
    requires 0 < n < WORD
    ensures var p := Digits(n - 1); n <= Pow2(p) && forall k: nat :: n <= Pow2(k) ==> Pow2(p) <= Pow2(k)
    ensures Pow2(Digits(n - 1)) <= WORD / 2 <==> n <= WORD / 2
    ensures n > WORD / 2 ==> Pow2(Digits(n - 1)) == WORD
  {
    var p := Digits(n - 1);
    WordIsPow2();
    DigitsBelow(n - 1, 64);
    forall k: nat | n <= Pow2(k) ensures Pow2(p) <= Pow2(k) {
      DigitsBelow(n - 1, k);
      Pow2Grows(p, k);
    }
    if p < 64 {
      Pow2Grows(p, 63);
    }
  }

  /** The least power of two that is at least n, for 1 <= n <= 2^63; above that the 64-bit sum
      wraps to 0. */
  method NextPow2(n: nat) returns (r: nat)
    requires n < WORD
    ensures n == 0 ==> r == 1
    ensures 1 <= n <= WORD / 2 ==> LeastPow2(r, n)
    ensures n > WORD / 2 ==> r == 0
  {
    hide Smear, Digits, Pow2;
    if n == 0 {
      return 1;
    }
    var m := n - 1;
    m := Smear(m, 1);
    m := Smear(m, 2);
    m := Smear(m, 4);
    m := Smear(m, 8);
    m := Smear(m, 16);
    m := Smear(m, 32);
    r := (m + 1) % WORD;
    SmearFills(n - 1);
    RoundedUp(n);
  }
}
