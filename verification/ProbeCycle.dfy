/** The probe sequence of the table index: a linear congruential generator that, for a power of
    two of slots, goes through all of them before it repeats. */
module ProbeCycle {
  import opened PowersOfTwo
  import opened Collections

  const COLLISION_MULTIPLIER: nat := 71 * 7487 * 4 + 1
  const COLLISION_INCREMENTER: nat := 1017234223

  function Next(x: nat, n: nat): (r: nat)
    requires n > 0
    ensures r < n
  {
    (x * COLLISION_MULTIPLIER + COLLISION_INCREMENTER) % n
  }

  /** The slot j probes after x. */
  function Walk(x: nat, j: nat, n: nat): (r: nat)
    requires x < n
    ensures r < n
  {
    if j == 0 then x else Next(Walk(x, j - 1, n), n)
  }

  lemma WalkNext(x: nat, j: nat, n: nat)
    requires x < n
    ensures Walk(x, j + 1, n) == Next(Walk(x, j, n), n)
  {
  }

  lemma {:induction false} WalkOn(x: nat, i: nat, j: nat, n: nat)
    requires x < n
    ensures Walk(Walk(x, i, n), j, n) == Walk(x, i + j, n)
    decreases j
  {
    if j > 0 {
      WalkOn(x, i, j - 1, n);
      assert i + j - 1 == i + (j - 1);
    }
  }

  // --------------------------------------------------------- without modulus

  function Free(x: nat, j: nat): nat {
    if j == 0 then x else Free(x, j - 1) * COLLISION_MULTIPLIER + COLLISION_INCREMENTER
  }

  /** 1 + a + ... + a^(j-1) for the multiplier a. */
  function Sum(j: nat): nat {
    if j == 0 then 0 else Sum(j - 1) * COLLISION_MULTIPLIER + 1
  }

  function Power(j: nat): nat {
    if j == 0 then 1 else Power(j - 1) * COLLISION_MULTIPLIER
  }

  lemma {:induction false} WalkIsFree(x: nat, j: nat, n: nat)
    requires x < n
    ensures Walk(x, j, n) == Free(x, j) % n
  {
    if j > 0 {
      WalkIsFree(x, j - 1, n);
      StepMod(Free(x, j - 1), n);
    } else {
      ModUnique(x, n, 0, x);
    }
  }

  lemma StepMod(y: nat, n: nat)
    requires n > 0
    ensures Next(y % n, n) == Next(y, n)
  {
    var q, r, a, c := y / n, y % n, COLLISION_MULTIPLIER, COLLISION_INCREMENTER;
    var u := r * a + c;
    assert y == n * q + r;
    assert (n * q) * a == n * (q * a) by { Assoc(n, q, a); }
    assert y * a == n * (q * a) + r * a;
    assert n * (q * a) + n * (u / n) == n * (q * a + u / n);
    ModUnique(y * a + c, n, q * a + u / n, u % n);
  }

  lemma {:induction false} FreeIsSum(x: nat, j: nat)
    ensures Free(x, j) == x + Sum(j) * (x * (COLLISION_MULTIPLIER - 1) + COLLISION_INCREMENTER)
  {
    if j > 0 {
      FreeIsSum(x, j - 1);
      Expand(x, Sum(j - 1), COLLISION_MULTIPLIER, COLLISION_INCREMENTER);
    }
  }

  lemma Expand(x: nat, s: nat, a: nat, c: nat)
    requires a >= 1
    ensures (x + s * (x * (a - 1) + c)) * a + c == x + (s * a + 1) * (x * (a - 1) + c)
  {
    var t := x * (a - 1) + c;
    assert (x + s * t) * a == x * a + s * t * a;
    assert (s * a + 1) * t == s * a * t + t;
    assert s * t * a == s * a * t;
    assert x * a == x * (a - 1) + x;
  }

  lemma {:induction false} SumSplit(i: nat, j: nat)
    ensures Sum(i + j) == Sum(i) * Power(j) + Sum(j)
    decreases j
  {
    if j > 0 {
      SumSplit(i, j - 1);
      assert i + j - 1 == i + (j - 1);
      Assoc(Sum(i), Power(j - 1), COLLISION_MULTIPLIER);
    }
  }

  lemma {:induction false} PowerMod4(j: nat)
    ensures Power(j) % 4 == 1
  {
    if j > 0 {
      PowerMod4(j - 1);
    }
  }

  // ------------------------------------------------------------ divisibility

  predicate Divides2(k: nat, u: int) {
    u % Pow2(k) == 0
  }

  lemma TwiceDivides(k: nat, u: int)
    ensures Divides2(k + 1, 2 * u) <==> Divides2(k, u)
  {
    var p := Pow2(k);
    var q, r := u / p, u % p;
    assert u == p * q + r;
    assert 2 * u == (2 * p) * q + 2 * r by { Assoc(2, p, q); }
    ModUnique(2 * u, 2 * p, q, 2 * r);
  }

  lemma OddDivides(k: nat, u: int)
    requires u % 2 == 1
    ensures Divides2(k, u) <==> k == 0
  {
    if k > 0 {
      var p := Pow2(k - 1);
      assert Pow2(k) == 2 * p;
      var q := u / (2 * p);
      assert u == (2 * p) * q + u % (2 * p);
      assert (2 * p) * q == 2 * (p * q) by { Assoc(2, p, q); }
    }
  }

  lemma {:induction false} OddFactor(k: nat, u: int, w: int)
    requires w % 2 == 1
    ensures Divides2(k, u * w) <==> Divides2(k, u)
    decreases k
  {
    if k > 0 {
      if u % 2 == 1 {
        OddTimesOdd(u, w);
        OddDivides(k, u);
        OddDivides(k, u * w);
      } else {
        var v := u / 2;
        OddFactor(k - 1, v, w);
        TwiceDivides(k - 1, v);
        TwiceDivides(k - 1, v * w);
        assert u * w == 2 * (v * w) by { Assoc(2, v, w); }
      }
    }
  }

  lemma SumParity(j: nat)
    ensures Sum(j) % 2 == j % 2
  {
  }

  /** The sum of j powers has exactly the factors two that j has. */
  lemma {:induction false} SumDivides(k: nat, j: nat)
    ensures Divides2(k, Sum(j)) <==> Divides2(k, j)
    decreases k
  {
    if k > 0 {
      SumParity(j);
      if j % 2 == 1 {
        OddDivides(k, j);
        OddDivides(k, Sum(j));
      } else {
        var i := j / 2;
        SumDivides(k - 1, i);
        EvenSum(i);
        OddFactor(k - 1, Sum(i), (Power(i) + 1) / 2);
        TwiceDivides(k - 1, Sum(i) * ((Power(i) + 1) / 2));
        TwiceDivides(k - 1, i);
      }
    }
  }

  lemma EvenSum(i: nat)
    ensures ((Power(i) + 1) / 2) % 2 == 1
    ensures Sum(2 * i) == 2 * (Sum(i) * ((Power(i) + 1) / 2))
  {
    hide Sum, Power;
    PowerMod4(i);
    SumSplit(i, i);
    var w := (Power(i) + 1) / 2;
    assert Power(i) == 2 * w - 1 && w % 2 == 1;
    TwiceLess(Sum(i), w);
  }

  lemma TwiceLess(s: nat, w: nat)
    requires w > 0
    ensures s * (2 * w - 1) + s == 2 * (s * w)
  {
  }

  // ------------------------------------------------------------- full period

  /** The walk returns to where it started only after a multiple of n probes. */
  lemma Returns(x: nat, d: nat, k: nat)
    requires x < Pow2(k)
    ensures Walk(x, d, Pow2(k)) == x <==> Divides2(k, d)
  {
    var n := Pow2(k);
    var t := x * (COLLISION_MULTIPLIER - 1) + COLLISION_INCREMENTER;
    WalkIsFree(x, d, n);
    FreeIsSum(x, d);
    assert x * (COLLISION_MULTIPLIER - 1) == 2 * (x * (71 * 7487 * 2));
    assert t % 2 == 1;
    BackAgain(x, Sum(d) * t, n);
    OddFactor(k, Sum(d), t);
    SumDivides(k, d);
  }

  lemma BackAgain(x: nat, s: nat, n: nat)
    requires x < n
    ensures (x + s) % n == x <==> s % n == 0
  {
    var q, r := s / n, s % n;
    assert s == n * q + r;
    if x + r < n {
      ModUnique(x + s, n, q, x + r);
    } else {
      assert n * (q + 1) == n * q + n;
      ModUnique(x + s, n, q + 1, x + r - n);
    }
  }

  /** Fewer than n probes never meet the same slot twice. */
  lemma Separate(x: nat, i: nat, j: nat, k: nat)
    requires x < Pow2(k) && i < j < i + Pow2(k)
    ensures Walk(x, i, Pow2(k)) != Walk(x, j, Pow2(k))
  {
    var n := Pow2(k);
    WalkOn(x, i, j - i, n);
    Returns(Walk(x, i, n), j - i, k);
    ModUnique(j - i, n, 0, j - i);
  }

  /** The first j slots of the walk. */
  ghost function Visited(x: nat, j: nat, n: nat): set<nat>
    requires x < n
  {
    set i | 0 <= i < j :: Walk(x, i, n)
  }

  lemma {:induction false} VisitedSize(x: nat, j: nat, k: nat)
    requires x < Pow2(k) && j <= Pow2(k)
    ensures |Visited(x, j, Pow2(k))| == j
  {
    hide Walk, Next;
    var n := Pow2(k);
    if j > 0 {
      VisitedSize(x, j - 1, k);
      forall i | 0 <= i < j - 1
        ensures Walk(x, i, n) != Walk(x, j - 1, n)
      {
        Separate(x, i, j - 1, k);
      }
      assert Visited(x, j, n) == Visited(x, j - 1, n) + {Walk(x, j - 1, n)};
    }
  }

  /** The walk from any slot meets every slot within n probes. */
  lemma MeetsAll(x: nat, y: nat, k: nat) returns (j: nat)
    requires x < Pow2(k) && y < Pow2(k)
    ensures j < Pow2(k) && Walk(x, j, Pow2(k)) == y
  {
    var n := Pow2(k);
    VisitedSize(x, n, k);
    BelowSize(n);
    SubsetEqual(Visited(x, n, n), Below(n));
    assert y in Visited(x, n, n);
    j :| 0 <= j < n && Walk(x, j, n) == y;
  }
}
