/** Bytes as eight bits, most significant first, and bit strings cut out of them. */
module Bits {
  import opened PowersOfTwo

  type Octet = b: seq<bool> | |b| == 8 witness seq(8, _ => false)

  function Zeros(n: nat): (z: seq<bool>)
    ensures |z| == n && forall i :: 0 <= i < n ==> !z[i]
  {
    seq(n, _ => false)
  }

  function ShiftRight(b: Octet, k: nat): (r: Octet)
    requires k <= 8
    ensures forall i :: 0 <= i < 8 ==> r[i] == (i >= k && b[i - k])
  {
    Zeros(k) + b[..8 - k]
  }

  function ShiftLeft(b: Octet, k: nat): (r: Octet)
    requires k <= 8
    ensures forall i :: 0 <= i < 8 ==> r[i] == (i + k < 8 && b[i + k])
  {
    b[k..] + Zeros(k)
  }

  function Or(a: Octet, b: Octet): (r: Octet)
    ensures forall i :: 0 <= i < 8 ==> r[i] == (a[i] || b[i])
  {
    seq(8, i requires 0 <= i < 8 => a[i] || b[i])
  }

  function BytesFor(bits: nat): nat {
    (bits + 7) / 8
  }

  /** The first n bits of a buffer. */
  function BitsOf(data: seq<Octet>, n: nat): (s: seq<bool>)
    requires n <= 8 * |data|
    ensures |s| == n && forall i :: 0 <= i < n ==> s[i] == data[i / 8][i % 8]
  {
    seq(n, i requires 0 <= i < n => data[i / 8][i % 8])
  }

  /** The bits a caller hands over in bytes: whole bytes, then the bits of a last partial byte,
      which lie at its right or its left end. */
  function HandedBits(src: seq<Octet>, n: nat, right: bool): (s: seq<bool>)
    requires BytesFor(n) <= |src|
    ensures |s| == n
    ensures forall i :: 0 <= i < n ==> s[i] == src[i / 8][if right && i / 8 == n / 8 then 8 - n % 8 + i % 8 else i % 8]
  {
    seq(n, i requires 0 <= i < n => src[i / 8][if right && i / 8 == n / 8 then 8 - n % 8 + i % 8 else i % 8])
  }

  /** The bytes a caller gets for a bit string: a last partial byte is right-aligned. */
  function HandedBytes(s: seq<bool>): (bytes: seq<Octet>)
    ensures |bytes| == BytesFor(|s|)
  {
    seq(BytesFor(|s|), j requires 0 <= j < BytesFor(|s|) =>
      if 8 * j + 8 <= |s| then s[8 * j..8 * j + 8] else Zeros(8 * j + 8 - |s|) + s[8 * j..])
  }

  /** The unused left end of a right-aligned last byte is zero. */
  predicate LeftClear(src: seq<Octet>, n: nat)
    requires BytesFor(n) <= |src|
  {
    n % 8 != 0 ==> forall k :: 0 <= k < 8 - n % 8 ==> !src[n / 8][k]
  }

  lemma HandedByteAt(s: seq<bool>, j: nat, k: nat)
    requires j < BytesFor(|s|) && k < 8
    ensures HandedBytes(s)[j][k] ==
            if 8 * j + 8 <= |s| then s[8 * j + k] else 8 * j + 8 - |s| <= k && s[|s| - 8 + k]
  {
    if 8 * j + 8 <= |s| {
      assert s[8 * j..8 * j + 8][k] == s[8 * j + k];
    }
  }

  /** Bits handed over right-aligned are handed back as the same bytes. */
  lemma HandedBack(src: seq<Octet>, n: nat)
    requires BytesFor(n) <= |src| && LeftClear(src, n)
    ensures HandedBytes(HandedBits(src, n, true)) == src[..BytesFor(n)]
  {
    var s := HandedBits(src, n, true);
    hide HandedBytes, HandedBits, LeftClear;
    forall j | 0 <= j < BytesFor(n)
      ensures HandedBytes(s)[j] == src[j]
    {
      forall k | 0 <= k < 8
        ensures HandedBytes(s)[j][k] == src[j][k]
      {
        HandedSame(src, n, j, k);
      }
    }
  }

  lemma HandedSame(src: seq<Octet>, n: nat, j: nat, k: nat)
    requires BytesFor(n) <= |src| && LeftClear(src, n) && j < BytesFor(n) && k < 8
    ensures HandedBytes(HandedBits(src, n, true))[j][k] == src[j][k]
  {
    HandedByteAt(HandedBits(src, n, true), j, k);
    HandedBitAt(src, n, j, k);
  }

  lemma HandedBitAt(src: seq<Octet>, n: nat, j: nat, k: nat)
    requires BytesFor(n) <= |src| && j < BytesFor(n) && k < 8
    ensures 8 * j + 8 <= n ==> HandedBits(src, n, true)[8 * j + k] == src[j][k]
    ensures 8 * j + 8 > n && 8 * j + 8 - n <= k ==> HandedBits(src, n, true)[n - 8 + k] == src[j][k]
  {
    assert 8 * j + 8 <= n ==> (8 * j + k) / 8 == j && (8 * j + k) % 8 == k && j < n / 8;
    assert 8 * j + 8 > n ==> j == n / 8 && 8 * j + 8 - n == 8 - n % 8;
  }

  // ------------------------------------------------------------------ numbers

  /** The number a bit string stands for. */
  function Value(s: seq<bool>): nat {
    if s == [] then 0 else 2 * Value(s[..|s| - 1]) + (if s[|s| - 1] then 1 else 0)
  }

  /** The last n bits of the binary form of v. */
  function Binary(v: nat, n: nat): (s: seq<bool>)
    ensures |s| == n
  {
    if n == 0 then [] else Binary(v / 2, n - 1) + [v % 2 == 1]
  }

  lemma {:induction false} ValueOfBinary(v: nat, n: nat)
    requires v < Pow2(n)
    ensures Value(Binary(v, n)) == v
  {
    if n > 0 {
      ValueOfBinary(v / 2, n - 1);
      assert Binary(v, n)[..n - 1] == Binary(v / 2, n - 1);
    }
  }

  lemma {:induction false} BinaryOfValue(s: seq<bool>)
    ensures Value(s) < Pow2(|s|) && Binary(Value(s), |s|) == s
  {
    if s != [] {
      BinaryOfValue(s[..|s| - 1]);
      assert s == s[..|s| - 1] + [s[|s| - 1]];
    }
  }

  /** v without its last m bits. */
  function High(v: nat, m: nat): nat {
    if m == 0 then v else High(v / 2, m - 1)
  }

  lemma {:induction false} HighQuotient(v: nat, m: nat)
    ensures High(v, m) == v / Pow2(m)
  {
    if m > 0 {
      HighQuotient(v / 2, m - 1);
      HalfMod(v, Pow2(m - 1));
    }
  }

  lemma {:induction false} BinaryParts(v: nat, n: nat, m: nat)
    ensures Binary(v, n + m) == Binary(High(v, m), n) + Binary(v, m)
    decreases m
  {
    if m > 0 {
      BinaryParts(v / 2, n, m - 1);
      assert n + m - 1 == n + (m - 1);
      assert Binary(v, n + m) == Binary(v / 2, n + (m - 1)) + [v % 2 == 1];
    } else {
      assert Binary(v, n + m) == Binary(v, n) + [];
    }
  }

  // ------------------------------------------------------------ whole numbers

  /** The bytes of a number in memory, lowest first. */
  function LittleBytes(v: nat, size: nat): (bytes: seq<Octet>)
    ensures |bytes| == size
  {
    if size == 0 then [] else [Binary(v, 8)] + LittleBytes(v / 256, size - 1)
  }

  function FromLittle(bytes: seq<Octet>): nat {
    if bytes == [] then 0 else Value(bytes[0]) + 256 * FromLittle(bytes[1..])
  }

  function Reverse<T>(s: seq<T>): (r: seq<T>)
    ensures |r| == |s| && forall i :: 0 <= i < |s| ==> r[i] == s[|s| - 1 - i]
  {
    if s == [] then [] else Reverse(s[1..]) + [s[0]]
  }

  lemma ReverseTwice<T>(s: seq<T>)
    ensures Reverse(Reverse(s)) == s
  {
  }

  lemma {:induction false} LittleBack(v: nat, size: nat)
    requires v < Pow2(8 * size)
    ensures FromLittle(LittleBytes(v, size)) == v
    decreases size
  {
    if size > 0 {
      Pow2Sum(8, 8 * (size - 1));
      assert Pow2(8) == 256;
      LittleBack(v / 256, size - 1);
      LowByte(v);
      assert LittleBytes(v, size)[1..] == LittleBytes(v / 256, size - 1);
    }
  }

  lemma LowByte(v: nat)
    ensures Value(Binary(v, 8)) == v % 256
  {
    assert Pow2(8) == 256;
    ValueOfBinary(v % 256, 8);
    SameLow(v, v % 256, 8);
  }

  lemma {:induction false} SameLow(v: nat, w: nat, n: nat)
    requires v % Pow2(n) == w % Pow2(n)
    ensures Binary(v, n) == Binary(w, n)
  {
    if n > 0 {
      HalfMod(v, Pow2(n - 1));
      HalfMod(w, Pow2(n - 1));
      SameLow(v / 2, w / 2, n - 1);
    }
  }

  /** The bytes of a number, highest first, are its binary form. */
  lemma {:induction false} NetworkOrder(v: nat, size: nat)
    ensures BitsOf(Reverse(LittleBytes(v, size)), 8 * size) == Binary(v, 8 * size)
    decreases size
  {
    if size > 0 {
      NetworkOrder(v / 256, size - 1);
      BinaryParts(v, 8 * (size - 1), 8);
      HighQuotient(v, 8);
      assert Pow2(8) == 256;
      var front := Reverse(LittleBytes(v / 256, size - 1));
      assert LittleBytes(v, size)[1..] == LittleBytes(v / 256, size - 1);
      assert Reverse(LittleBytes(v, size)) == front + [Binary(v, 8)];
      BitsAppend(front, Binary(v, 8));
    }
  }

  lemma BitsAppend(front: seq<Octet>, b: Octet)
    ensures BitsOf(front + [b], 8 * |front| + 8) == BitsOf(front, 8 * |front|) + b
  {
    var n := 8 * |front|;
    forall i | 0 <= i < n + 8
      ensures BitsOf(front + [b], n + 8)[i] == (BitsOf(front, n) + b)[i]
    {
      assert i < n ==> (front + [b])[i / 8] == front[i / 8];
    }
  }
}
