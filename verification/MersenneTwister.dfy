/** The random number generator: words are generated 624 at a time, in place, and handed out
    tempered. The reference is mersenne_twister_engine of section 26.5.3.2 of ISO/IEC 14882:2011
    with the parameters of mt19937; only the seeding is another. */
module MersenneTwister {

  const N: nat := 624
  const M: nat := 397

  // ---------------------------------------------------------------- reference

  /** The top bit of one word and the 31 other bits of the next. */
  function Joined(x: bv32, y: bv32): (j: bv32)
    ensures j >> 31 == x >> 31 && j << 1 == y << 1
  {
    ((x >> 31) << 31) | ((y << 1) >> 1)
  }

  predicate Odd(y: bv32) {
    y & 1 == 1
  }

  function Shifted(x: bv32, odd: bool): bv32 {
    if odd then (x >> 1) ^ 0x9908_B0DF else x >> 1
  }

  /** What the twist transformation adds: the joined words shifted, and a mask if they are odd. */
  function Twist(x: bv32, y: bv32): bv32 {
    Shifted(Joined(x, y), Odd(Joined(x, y)))
  }

  /** Term i of the sequence that starts with the words of a state. */
  function Term(first: seq<bv32>, i: nat): bv32
    requires |first| == N
  {
    if i < N then first[i] else Term(first, i - N + M) ^ Twist(Term(first, i - N), Term(first, i - N + 1))
  }

  function Temper(x: bv32): bv32 {
    Fourth(Third(Second(First(x))))
  }

  function First(x: bv32): bv32 {
    Sum(x, Down11(x))
  }

  function Second(x: bv32): bv32 {
    Sum(x, Up7(x))
  }

  function Third(x: bv32): bv32 {
    Sum(x, Up15(x))
  }

  function Fourth(x: bv32): bv32 {
    Sum(x, Down18(x))
  }

  function Sum(x: bv32, y: bv32): bv32 {
    x ^ y
  }

  function Down11(x: bv32): bv32 {
    x >> 11
  }

  function Up7(x: bv32): bv32 {
    (x << 7) & 0x9D2C_5680
  }

  function Up15(x: bv32): bv32 {
    (x << 15) & 0xEFC6_0000
  }

  function Down18(x: bv32): bv32 {
    x >> 18
  }

  /** The words of a seeded state. */
  function SeedWord(seed: bv32, i: nat): bv32 {
    if i == 0 then seed | 1 else NextSeed(SeedWord(seed, i - 1))
  }

  function Seeded(seed: bv32): (s: seq<bv32>)
    ensures |s| == N && forall i :: 0 <= i < N ==> s[i] == SeedWord(seed, i)
  {
    seq(N, i requires 0 <= i < N => SeedWord(seed, i))
  }

  // ---------------------------------------------------------------- generator

  lemma JoinedByMasks(x: bv32, y: bv32)
    ensures Joined(x, y) == (x & 0x8000_0000) | (y & 0x7FFF_FFFF)
  {
  }

  lemma ParityOfSecond(x: bv32, y: bv32)
    ensures Odd(Joined(x, y)) == (y & 1 != 0)
  {
  }

  lemma ShiftedInto(w: bv32, x: bv32, odd: bool)
    ensures w ^ Shifted(x, odd) == w ^ (x >> 1) ^ (if odd then 0x9908_B0DF else 0)
  {
  }

  /** What the source writes for a word: the low bit is taken from the second word and not from
      the joined ones. */
  method Mixed(w: bv32, s0: bv32, s1: bv32) returns (r: bv32)
    ensures r == w ^ Twist(s0, s1)
  {
    hide Joined, Odd, Shifted;
    JoinedByMasks(s0, s1);
    ParityOfSecond(s0, s1);
    var mixBits := (s0 & 0x8000_0000) | (s1 & 0x7FFF_FFFF);
    ShiftedInto(w, mixBits, s1 & 1 != 0);
    r := w ^ (mixBits >> 1) ^ (if s1 & 1 != 0 then 0x9908_B0DF else 0);
  }

  function NextSeed(x: bv32): bv32 {
    x * 69069
  }

  lemma NextSeedIs(x: bv32)
    ensures NextSeed(x) == x * 69069
  {
  }

  lemma SeedStart(seed: bv32)
    ensures SeedWord(seed, 0) == seed | 1
  {
  }

  lemma SeedNext(seed: bv32, i: nat)
    requires i > 0
    ensures SeedWord(seed, i) == NextSeed(SeedWord(seed, i - 1))
  {
  }

  lemma FirstTerms(first: seq<bv32>)
    requires |first| == N
    ensures forall i :: 0 <= i < N ==> Term(first, i) == first[i]
  {
  }

  lemma NextTerm(first: seq<bv32>, i: nat)
    requires |first| == N
    ensures Term(first, i + N) == Term(first, i + M) ^ Twist(Term(first, i), Term(first, i + 1))
  {
  }

  /** The four statements at the end of the source's two functions. */
  method Tempered(word: bv32) returns (y: bv32)
    ensures y == Temper(word)
  {
    hide Sum, Down11, Up7, Up15, Down18;
    y := word;
    var shifted := y >> 11;
    Down11Is(y);
    SumIs(y, shifted);
    y := y ^ shifted;
    shifted := (y << 7) & 0x9D2C_5680;
    Up7Is(y);
    SumIs(y, shifted);
    y := y ^ shifted;
    shifted := (y << 15) & 0xEFC6_0000;
    Up15Is(y);
    SumIs(y, shifted);
    y := y ^ shifted;
    shifted := y >> 18;
    Down18Is(y);
    SumIs(y, shifted);
    y := y ^ shifted;
  }

  lemma SumIs(x: bv32, y: bv32)
    ensures Sum(x, y) == x ^ y
  {
  }

  lemma Down11Is(y: bv32)
    ensures Down11(y) == y >> 11
  {
  }

  lemma Up7Is(y: bv32)
    ensures Up7(y) == (y << 7) & 0x9D2C_5680
  {
  }

  lemma Up15Is(y: bv32)
    ensures Up15(y) == (y << 15) & 0xEFC6_0000
  {
  }

  lemma Down18Is(y: bv32)
    ensures Down18(y) == y >> 18
  {
  }

  class Generator {
    const state: array<bv32>
    var next: nat
    var left: int
    ghost var first: seq<bv32>  // the state the sequence starts with
    ghost var base: nat         // the term in state[0]

    ghost predicate Terms()
      reads this, state
    {
      && state.Length == N + 1 && |first| == N
      && forall i :: 0 <= i < N ==> state[i] == Term(first, base + i)
    }

    ghost predicate Valid()
      reads this, state
    {
      Terms() && -1 <= left < N && (left > 0 ==> next == N - left)
    }

    /** The term to be handed out next. */
    ghost function Position(): int
      reads this
    {
      base + N - if left < 0 then 0 else left
    }

    /** A generator that has not been seeded starts with whatever its memory holds. */
    constructor ()
      ensures Valid() && left == -1 && fresh(state)
    {
      state := new bv32[N + 1];
      next := 0;
      left := -1;
      base := 0;
      new;
      first := state[..N];
    }

    method SeedMT(seed: bv32)
      requires state.Length == N + 1
      modifies this, state
      ensures Valid() && left == 0 && first == Seeded(seed) && Position() == N
    {
      hide NextSeed, Term, Seeded, SeedWord, Temper;
      SeedStart(seed);
      var x := seed | 1;
      left := 0;
      state[0] := x;
      for j := 1 to N
        invariant x == SeedWord(seed, j - 1) && left == 0
        invariant forall i :: 0 <= i < j ==> state[i] == SeedWord(seed, i)
      {
        SeedNext(seed, j);
        NextSeedIs(x);
        x := x * 69069;
        state[j] := x;
      }
      first, base := Seeded(seed), 0;
      FirstTerms(first);
    }

    /** Generate the next N terms in place and return the first of them, tempered. A generator
        that was never seeded seeds the shared one, which may not be itself. */
    method ReloadMT(shared: Generator) returns (y: bv32)
      requires Terms() && -2 <= left < 0 && shared.state.Length == N + 1 && (shared != this ==> shared.state != state)
      modifies this, state, shared, shared.state
      ensures Valid() && left == N - 1 && y == Temper(Term(first, base))
      ensures if old(left) < -1 && shared == this then first == Seeded(4357) && base == N
              else first == old(first) && base == old(base) + N
      ensures if shared == this then true
              else if old(left) < -1 then shared.Valid() && shared.left == 0 && shared.first == Seeded(4357)
              else unchanged(shared) && unchanged(shared.state)
    {
      hide Term, Temper, SeedWord;
      if left < -1 {
        shared.SeedMT(4357);
      }
      left := N - 1;
      next := 1;
      Twisted();
      base := base + N;
      y := Tempered(state[0]);
    }

    /** The words of the state, of which the first i have been replaced by later terms. */
    ghost predicate Replaced(i: nat)
      requires state.Length == N + 1 && |first| == N
      reads this, state
    {
      forall t :: 0 <= t < N ==> state[t] == Term(first, base + t + if t < i then N else 0)
    }

    /** Replace every word by the term N later. */
    method Twisted()
      requires Terms()
      modifies state
      ensures state.Length == N + 1 && Replaced(N)
    {
      hide Twist, Term;
      var s0, s1 := state[0], state[1];
      for i := 0 to N - M
        invariant Replaced(i) && s0 == Term(first, base + i) && s1 == Term(first, base + i + 1)
      {
        ReplaceWord(i, i + M, s0, s1);
        s0, s1 := s1, state[i + 2];
      }
      for i := N - M to N - 1
        invariant Replaced(i) && s0 == Term(first, base + i) && (i < N - 1 ==> s1 == Term(first, base + i + 1))
      {
        ReplaceWord(i, i - (N - M), s0, s1);
        s0, s1 := s1, state[i + 2];
      }
      s1 := state[0];
      ReplaceWord(N - 1, M - 1, s0, s1);
    }

    /** Replace one word, from the two that follow N places before the new one and one that
        follows M places before it. */
    method ReplaceWord(i: nat, from: nat, s0: bv32, s1: bv32)
      requires state.Length == N + 1 && |first| == N && i < N && Replaced(i)
      requires from == if i < N - M then i + M else i - (N - M)
      requires s0 == Term(first, base + i) && s1 == Term(first, base + i + 1)
      modifies state
      ensures state.Length == N + 1 && Replaced(i + 1) && state[i + 1] == old(state[i + 1])
    {
      hide Twist, Term;
      NextTerm(first, base + i);
      assert state[from] == Term(first, base + i + M);
      var word := Mixed(state[from], s0, s1);
      state[i] := word;
    }

    /** The next random word. */
    method RandomMT(shared: Generator) returns (y: bv32)
      requires Valid() && shared.state.Length == N + 1 && (shared != this ==> shared.state != state)
      modifies this, state, shared, shared.state
      ensures Valid() && left >= 0
      ensures if old(left) == -1 && shared == this then first == Seeded(4357) && Position() == N + 1
              else first == old(first) && Position() == old(Position()) + 1
      ensures y == Temper(Term(first, Position() - 1))
      ensures if shared == this then true
              else if old(left) == -1 then shared.Valid() && shared.left == 0 && shared.first == Seeded(4357)
              else unchanged(shared) && unchanged(shared.state)
    {
      hide Term, SeedWord, Temper;
      left := left - 1;
      if left < 0 {
        y := ReloadMT(shared);
        return;
      }
      y := Tempered(state[next]);
      next := next + 1;
    }
  }

  /** The numbers drawn from a seeded generator are the terms from N on, tempered. */
  method Draw(seed: bv32, count: nat) returns (numbers: seq<bv32>)
    ensures |numbers| == count
    ensures forall k :: 0 <= k < count ==> numbers[k] == Temper(Term(Seeded(seed), N + k))
  {
    hide Term, Temper, SeedWord;
    var generator := new Generator();
    generator.SeedMT(seed);
    numbers := [];
    for k := 0 to count
      invariant generator.Valid() && fresh(generator) && fresh(generator.state) && generator.left >= 0
      invariant generator.first == Seeded(seed) && generator.Position() == N + k
      invariant |numbers| == k && forall i :: 0 <= i < k ==> numbers[i] == Temper(Term(Seeded(seed), N + i))
    {
      var y := generator.RandomMT(generator);
      numbers := numbers + [y];
    }
  }

  // ------------------------------------------------------------- the numbers

  /** Tempering is linear over "exclusive or", so the images of the single bits determine it. */
  lemma TemperSum(x: bv32, y: bv32)
    ensures Temper(Sum(x, y)) == Sum(Temper(x), Temper(y))
  {
    hide First, Second, Third, Fourth, Sum;
    StagesSum(x, y);
    StagesSum(First(x), First(y));
    StagesSum(Second(First(x)), Second(First(y)));
    StagesSum(Third(Second(First(x))), Third(Second(First(y))));
  }

  lemma StagesSum(x: bv32, y: bv32)
    ensures First(Sum(x, y)) == Sum(First(x), First(y)) && Second(Sum(x, y)) == Sum(Second(x), Second(y))
    ensures Third(Sum(x, y)) == Sum(Third(x), Third(y)) && Fourth(Sum(x, y)) == Sum(Fourth(x), Fourth(y))
  {
    hide Sum, Down11, Up7, Up15, Down18;
    ShiftsSum(x, y);
    Exchange(x, y, Down11(x), Down11(y));
    Exchange(x, y, Up7(x), Up7(y));
    Exchange(x, y, Up15(x), Up15(y));
    Exchange(x, y, Down18(x), Down18(y));
  }

  lemma ShiftsSum(x: bv32, y: bv32)
    ensures Down11(Sum(x, y)) == Sum(Down11(x), Down11(y)) && Up7(Sum(x, y)) == Sum(Up7(x), Up7(y))
    ensures Up15(Sum(x, y)) == Sum(Up15(x), Up15(y)) && Down18(Sum(x, y)) == Sum(Down18(x), Down18(y))
  {
    hide Sum, Down11, Up7, Up15, Down18;
    Down11Sum(x, y);
    Up7Sum(x, y);
    Up15Sum(x, y);
    Down18Sum(x, y);
  }

  lemma Down11Sum(x: bv32, y: bv32)
    ensures Down11(Sum(x, y)) == Sum(Down11(x), Down11(y))
  {
  }

  lemma Up7Sum(x: bv32, y: bv32)
    ensures Up7(Sum(x, y)) == Sum(Up7(x), Up7(y))
  {
  }

  lemma Up15Sum(x: bv32, y: bv32)
    ensures Up15(Sum(x, y)) == Sum(Up15(x), Up15(y))
  {
  }

  lemma Down18Sum(x: bv32, y: bv32)
    ensures Down18(Sum(x, y)) == Sum(Down18(x), Down18(y))
  {
  }

  lemma Exchange(a: bv32, b: bv32, c: bv32, d: bv32)
    ensures Sum(Sum(a, b), Sum(c, d)) == Sum(Sum(a, c), Sum(b, d))
  {
    hide Sum;
    Assoc(a, b, Sum(c, d));
    Assoc(b, c, d);
    Comm(b, c);
    Assoc(c, b, d);
    Assoc(a, c, Sum(b, d));
  }

  lemma Comm(x: bv32, y: bv32)
    ensures Sum(x, y) == Sum(y, x)
  {
  }

  lemma Assoc(x: bv32, y: bv32, z: bv32)
    ensures Sum(Sum(x, y), z) == Sum(x, Sum(y, z))
  {
  }

  function Bit(k: nat): bv32
    requires k < 32
  {
    1 << k
  }

  const IMAGES0: seq<bv32> := [
    0x0040_0091, 0x0000_0002, 0x0102_0244, 0x0204_0489, 0x0000_0010, 0x0800_1220, 0x0000_0040, 0x2040_4890]
  const IMAGES8: seq<bv32> := [
    0x0080_0120, 0x0100_0240, 0x0200_0480, 0x0444_0990, 0x0808_1200, 0x0102_2244, 0x2224_4C81, 0x4000_9010]
  const IMAGES16: seq<bv32> := [
    0x8801_3220, 0x0102_0000, 0x2044_4891, 0x0488_0022, 0x0910_0044, 0x1220_0088, 0x0444_0911, 0x0888_1222]
  const IMAGES24: seq<bv32> := [
    0x8100_0040, 0x2220_4888, 0x4400_9100, 0x8801_2200, 0x1102_0440, 0x2004_0801, 0x4408_1102, 0x8810_2204]

  function Image(k: nat): bv32
    requires k < 32
  {
    if k < 8 then IMAGES0[k] else if k < 16 then IMAGES8[k - 8] else if k < 24 then IMAGES16[k - 16] else IMAGES24[k - 24]
  }

  predicate ImageAt(k: nat)
    requires k < 32
  {
    Temper(Bit(k)) == Image(k) && Single(Bit(k)) && Above(Bit(k)) == if k < 31 then Bit(k + 1) else 0
  }

  function Above(bit: bv32): bv32 {
    bit << 1
  }

  predicate Has(x: bv32, bit: bv32) {
    Both(x, bit) != 0
  }

  predicate Single(bit: bv32) {
    bit != 0 && bit & (bit - 1) == 0
  }

  lemma Images(k: nat)
    requires k < 32
    ensures ImageAt(k)
  {
    hide *;
    Images0();
    Images8();
    Images16();
    Images24();
  }

  lemma Images0()
    ensures ImageAt(0) && ImageAt(1) && ImageAt(2) && ImageAt(3) && ImageAt(4) && ImageAt(5) && ImageAt(6) && ImageAt(7)
  {
  }

  lemma Images8()
    ensures ImageAt(8) && ImageAt(9) && ImageAt(10) && ImageAt(11) && ImageAt(12) && ImageAt(13) && ImageAt(14) && ImageAt(15)
  {
  }

  lemma Images16()
    ensures ImageAt(16) && ImageAt(17) && ImageAt(18) && ImageAt(19) && ImageAt(20) && ImageAt(21) && ImageAt(22) && ImageAt(23)
  {
  }

  lemma Images24()
    ensures ImageAt(24) && ImageAt(25) && ImageAt(26) && ImageAt(27) && ImageAt(28) && ImageAt(29) && ImageAt(30) && ImageAt(31)
  {
  }

  /** The "exclusive or" of the images of the bits of x, from bit k on. */
  function Product(x: bv32, k: nat): bv32
    requires k <= 32
    decreases 32 - k
  {
    if k == 32 then 0 else Sum(Product(x, k + 1), if Has(x, Bit(k)) then Image(k) else 0)
  }

  /** The bits of x from one bit on. */
  function From(x: bv32, bit: bv32): bv32 {
    Both(x, Mask(bit))
  }

  function Both(x: bv32, y: bv32): bv32 {
    x & y
  }

  function Mask(bit: bv32): bv32 {
    !(bit - 1)
  }

  lemma LowestBit(x: bv32, bit: bv32)
    requires Single(bit)
    ensures From(x, bit) == Sum(From(x, Above(bit)), if Has(x, bit) then bit else 0)
  {
    hide Sum, Both, Mask, Above, Single;
    MaskParts(bit);
    BitOrNone(x, bit);
    BothSum(x, Mask(Above(bit)), bit);
  }

  lemma MaskParts(bit: bv32)
    requires Single(bit)
    ensures Mask(bit) == Sum(Mask(Above(bit)), bit)
  {
  }

  lemma BitOrNone(x: bv32, bit: bv32)
    requires Single(bit)
    ensures Both(x, bit) == if Has(x, bit) then bit else 0
  {
  }

  lemma BothSum(x: bv32, y: bv32, z: bv32)
    ensures Both(x, Sum(y, z)) == Sum(Both(x, y), Both(x, z))
  {
  }

  lemma AllAndNone(x: bv32)
    ensures From(x, 1) == x && From(x, 0) == 0 && Temper(0) == 0
  {
  }

  lemma {:induction false} HighBits(x: bv32, k: nat)
    requires k < 32
    ensures Temper(From(x, Bit(k))) == Product(x, k)
    decreases 32 - k
  {
    hide Temper, From, Single, Sum, Above, Has, Bit, Image;
    Images(k);
    AllAndNone(x);
    LowestBit(x, Bit(k));
    TemperSum(From(x, Above(Bit(k))), if Has(x, Bit(k)) then Bit(k) else 0);
    if k < 31 {
      HighBits(x, k + 1);
    }
  }

  lemma TemperIsMatrix(x: bv32)
    ensures Temper(x) == Product(x, 0)
  {
    hide Temper, From, Product;
    HighBits(x, 0);
    AllAndNone(x);
  }

  /** The first number of seed 4357, from the three words of its state that it depends on. */
  lemma FirstNumber(first: seq<bv32>)
    requires |first| == 624 && first[0] == 4357 && first[1] == SeedWord(4357, 1) && first[397] == 0x03B1_E2B1
    ensures first[0] == SeedWord(4357, 0) && first[1] == 0x11EF_E201
    ensures Temper(Term(first, 624)) == 0xD13C_8AF5
  {
    assert Term(first, N) == first[M] ^ Twist(first[0], first[1]);
  }

  /** Every word of a seeded state is odd; the first is the seed but for its lowest bit. */
  lemma {:induction false} SeedsAreOdd(seed: bv32, i: nat)
    ensures Odd(SeedWord(seed, i)) && SeedWord(seed, 0) >> 1 == seed >> 1
  {
    if i > 0 {
      hide SeedWord, Odd, NextSeed;
      SeedsAreOdd(seed, i - 1);
      SeedNext(seed, i);
      OddTimesOdd(SeedWord(seed, i - 1));
    }
  }

  lemma OddTimesOdd(x: bv32)
    requires Odd(x)
    ensures Odd(NextSeed(x))
  {
  }
}
