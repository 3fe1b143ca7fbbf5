/** Powers of two and the bitwise operations on natural numbers. */
module PowersOfTwo {

  function Pow2(k: nat): (r: nat)
    ensures r >= 1
  {
    if k == 0 then 1 else 2 * Pow2(k - 1)
  }

  function And(a: nat, b: nat): nat
    decreases a
  {
    if a == 0 || b == 0 then 0 else (if a % 2 == 1 && b % 2 == 1 then 1 else 0) + 2 * And(a / 2, b / 2)
  }

  function Xor(a: nat, b: nat): nat
    decreases a + b
  {
    if a == 0 && b == 0 then 0 else (if a % 2 == b % 2 then 0 else 1) + 2 * Xor(a / 2, b / 2)
  }

  predicate IsPower2(n: nat) {
    n != 0 && And(n, n - 1) == 0
  }

  lemma {:induction false} AndBelow(a: nat, b: nat)
    ensures And(a, b) <= b
    decreases a
  {
    if a != 0 && b != 0 {
      AndBelow(a / 2, b / 2);
    }
  }

  lemma {:induction false} AndSelf(a: nat)
    ensures And(a, a) == a
  {
    if a != 0 {
      AndSelf(a / 2);
    }
  }

  lemma {:induction false} IsPower2Pow2(k: nat)
    ensures IsPower2(Pow2(k))
  {
    if k > 0 {
      IsPower2Pow2(k - 1);
      Doubled(Pow2(k - 1));
    }
  }

  lemma Doubled(m: nat)
    requires m > 0
    ensures And(2 * m, 2 * m - 1) == 2 * And(m, m - 1)
  {
    assert (2 * m) / 2 == m && (2 * m - 1) / 2 == m - 1;
  }

  lemma OddAnd(n: nat)
    requires n % 2 == 1
    ensures And(n, n - 1) == n - 1
  {
    AndSelf(n / 2);
    assert (n - 1) / 2 == n / 2 && (n - 1) % 2 == 0;
  }

  /** The source's test picks out exactly the powers of two. */
  lemma {:induction false} Exponent(n: nat) returns (k: nat)
    requires IsPower2(n)
    ensures n == Pow2(k)
    decreases n
  {
    if n % 2 == 0 {
      Doubled(n / 2);
      k := Exponent(n / 2);
      k := k + 1;
    } else {
      OddAnd(n);
      k := 0;
    }
  }

  /** Masking with 2^k - 1 is the remainder modulo 2^k. */
  lemma {:induction false} Mask(a: nat, k: nat)
    ensures And(a, Pow2(k) - 1) == a % Pow2(k)
    decreases k
  {
    if k > 0 {
      Mask(a / 2, k - 1);
      MaskStep(a, Pow2(k - 1));
    }
  }

  lemma MaskStep(a: nat, p: nat)
    requires p > 0 && And(a / 2, p - 1) == (a / 2) % p
    ensures And(a, 2 * p - 1) == a % (2 * p)
  {
    assert (2 * p - 1) / 2 == p - 1 && (2 * p - 1) % 2 == 1;
    HalfMod(a, p);
  }

  lemma HalfMod(a: nat, p: nat)
    requires p > 0
    ensures a % (2 * p) == a % 2 + 2 * ((a / 2) % p) && a / (2 * p) == a / 2 / p
  {
    var q, r := a / 2 / p, (a / 2) % p;
    assert a / 2 == p * q + r;
    assert a == (2 * p) * q + (a % 2 + 2 * r) by { assert (2 * p) * q == 2 * (p * q); }
    ModUnique(a, 2 * p, q, a % 2 + 2 * r);
  }

  lemma ModUnique(a: int, n: int, q: int, r: int)
    requires 0 <= r < n && a == n * q + r
    ensures a % n == r && a / n == q
  {
    var d := q - a / n;
    assert n * (a / n) + a % n == a;
    assert n * d == a % n - r by { assert n * d == n * q - n * (a / n); }
    assert d >= 1 ==> n * d >= n;
    assert d <= -1 ==> n * d <= -n;
  }

  lemma {:induction false} Pow2Sum(j: nat, k: nat)
    ensures Pow2(j + k) == Pow2(j) * Pow2(k)
  {
    if j > 0 {
      Pow2Sum(j - 1, k);
      assert j - 1 + k == j + k - 1;
      assert Pow2(j) * Pow2(k) == 2 * (Pow2(j - 1) * Pow2(k)) by { Assoc(2, Pow2(j - 1), Pow2(k)); }
    }
  }

  lemma Assoc(a: int, b: int, c: int)
    ensures (a * b) * c == a * (b * c)
  {
  }

  lemma MulLe(a: int, b: int, c: int)
    requires a <= b && 0 <= c
    ensures a * c <= b * c && c * a <= c * b
  {
  }

  lemma {:induction false} Pow2UpTo(j: nat, k: nat)
    requires j <= k
    ensures Pow2(j) <= Pow2(k)
  {
    if j < k {
      Pow2UpTo(j, k - 1);
    }
  }

  lemma Pow2Below(j: nat, k: nat)
    requires Pow2(j) < Pow2(k)
    ensures j < k
  {
    if j >= k {
      Pow2UpTo(k, j);
    }
  }

  lemma Pow2Divides(j: nat, k: nat)
    requires j <= k
    ensures Pow2(k) % Pow2(j) == 0
  {
    Pow2Sum(j, k - j);
    ModUnique(Pow2(k), Pow2(j), Pow2(k - j), 0);
  }

  /** The "and" of a power of two and a smaller-than-twice number tells which is larger. */
  lemma {:induction false} AndTop(k: nat, v: nat)
    requires v < 2 * Pow2(k)
    ensures And(Pow2(k), v) == 0 <==> v < Pow2(k)
  {
    if k > 0 && v > 0 {
      AndTop(k - 1, v / 2);
      AndDouble(Pow2(k - 1), v);
    }
  }

  lemma AndDouble(p: nat, v: nat)
    ensures And(2 * p, v) == 2 * And(p, v / 2)
  {
  }

  /** The "exclusive or" is below a power of two exactly when all bits from there on agree. */
  lemma {:induction false} XorBelow(a: nat, b: nat, k: nat)
    ensures Xor(a, b) < Pow2(k) <==> a / Pow2(k) == b / Pow2(k)
    decreases k
  {
    if k == 0 {
      XorZero(a, b);
    } else {
      XorBelow(a / 2, b / 2, k - 1);
      HalfMod(a, Pow2(k - 1));
      HalfMod(b, Pow2(k - 1));
      assert a == b == 0 ==> Xor(a / 2, b / 2) == 0;
    }
  }

  lemma {:induction false} XorZero(a: nat, b: nat)
    ensures Xor(a, b) == 0 <==> a == b
    decreases a + b
  {
    if a != 0 || b != 0 {
      XorZero(a / 2, b / 2);
    }
  }

  /** A divisor of a power of two is one. */
  lemma {:induction false} DivisorOfPow2(n: nat, m: nat, k: nat) returns (j: nat)
    requires n * m == Pow2(k)
    ensures n == Pow2(j) && j <= k
    decreases n + m
  {
    if n == 1 {
      j := 0;
    } else if n % 2 == 0 {
      assert n * m == 2 * ((n / 2) * m) by { Assoc(2, n / 2, m); }
      assert n > 0 && k > 0;
      j := DivisorOfPow2(n / 2, m, k - 1);
      j := j + 1;
    } else {
      EvenCofactor(n, m, k);
      j := DivisorOfPow2(n, m / 2, k - 1);
    }
  }

  lemma EvenCofactor(n: nat, m: nat, k: nat)
    requires n * m == Pow2(k) && n % 2 == 1 && n > 1
    ensures k > 0 && m > 0 && m % 2 == 0 && n * (m / 2) == Pow2(k - 1)
  {
    assert m > 0;
    MulLe(1, m, n);
    if m % 2 == 1 {
      OddTimesOdd(n, m);
    }
    Assoc(2, m / 2, n);
  }

  lemma OddTimesOdd(u: int, w: int)
    requires u % 2 == 1 && w % 2 == 1
    ensures (u * w) % 2 == 1
  {
    var a, b := u / 2, w / 2;
    assert (2 * a + 1) * (2 * b + 1) == 2 * (2 * (a * b) + a + b) + 1;
  }

  /** Taking a remainder modulo a multiple first changes nothing. */
  lemma ModMod(a: int, n: nat, m: nat)
    requires n > 0 && m > 0 && m % n == 0
    ensures (a % m) % n == a % n
  {
    var q := m / n;
    assert m == n * q;
    var t := a / m;
    assert a == m * t + a % m;
    assert m * t == n * (q * t) by { Assoc(n, q, t); }
    ModUnique(a, n, q * t + (a % m) / n, (a % m) % n) by {
      assert n * (q * t + (a % m) / n) == n * (q * t) + n * ((a % m) / n);
    }
  }

  const TWO32: nat := 0x1_0000_0000
  const TWO64: nat := 0x1_0000_0000_0000_0000
  const TOP64: nat := 0x8000_0000_0000_0000

  lemma SmallPowers()
    ensures Pow2(2) == 4 && Pow2(4) == 16 && Pow2(8) == 0x100 && Pow2(16) == 0x1_0000
  {
    assert Pow2(1) == 2;
    hide Pow2;
    Pow2Sum(1, 1);
    Pow2Sum(2, 2);
    Pow2Sum(4, 4);
    Pow2Sum(8, 8);
  }

  lemma TopIsPow2()
    ensures TOP64 == Pow2(63) && TWO64 == Pow2(64) && TWO32 == Pow2(32)
  {
    SmallPowers();
    hide Pow2;
    Pow2Sum(16, 16);
    Pow2Sum(32, 32);
    Half64();
  }

  lemma Half64()
    ensures Pow2(64) == 2 * Pow2(63)
  {
  }
}
