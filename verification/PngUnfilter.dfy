/** Undoing the scanline filters of a PNG image in place. The filters are those of section 6 of
    RFC 2083. A row is a filter type byte followed by the bytes of its pixels. */
module PngUnfilter {
  import opened Wrappers

  // --------------------------------------------------------------- filtering

  function Abs(x: int): int {
    if x < 0 then -x else x
  }

  /** The predictor of section 6.6 of RFC 2083: whichever of left, above and upper left is nearest
      to a + b - c, the earlier one of two equally near. */
  function Paeth(a: int, b: int, c: int): (r: int)
    ensures r == a || r == b || r == c
    ensures var p, d := a + b - c, Abs(a + b - c - r);
            && d <= Abs(p - a) && d <= Abs(p - b) && d <= Abs(p - c)
            && (d == Abs(p - a) ==> r == a) && (d == Abs(p - b) ==> r == a || r == b)
  {
    var p := a + b - c;
    if Abs(p - a) <= Abs(p - b) && Abs(p - a) <= Abs(p - c) then a
    else if Abs(p - b) <= Abs(p - c) then b
    else c
  }

  /** Half the sum, rounded down; the sum itself is not cut to a byte. */
  function Average(a: int, b: int): (r: int)
    ensures 2 * r <= a + b <= 2 * r + 1
  {
    (a + b) / 2
  }

  /** What a filter type predicts from the bytes to the left, above, and above to the left. */
  function Predict(filter: Byte, a: Byte, b: Byte, c: Byte): int {
    match filter
    case 1 => a
    case 2 => b
    case 3 => Average(a, b)
    case 4 => Paeth(a, b, c)
    case _ => 0
  }

  /** The byte of the pixel to the left; beyond the edge it is zero. */
  function Left(row: seq<Byte>, j: nat, bpp: nat): Byte
    requires j < |row|
  {
    if j > bpp then row[j - bpp] else 0
  }

  /** Byte j of a filtered row; the filter type itself is not filtered. */
  function FilteredByte(row: seq<Byte>, prior: seq<Byte>, bpp: nat, j: nat): Byte
    requires |row| == |prior| && j < |row|
  {
    if j == 0 then row[0]
    else (row[j] - Predict(row[0], Left(row, j, bpp), prior[j], Left(prior, j, bpp))) % 256
  }

  /** The row above row i; above the first one there are zeros. */
  function Prior(rows: seq<seq<Byte>>, i: nat, n: nat): seq<Byte>
    requires i < |rows|
  {
    if i == 0 then seq(n, _ => 0) else rows[i - 1]
  }

  /** All rows have the same length, of at least a filter type and one pixel. */
  predicate Image(rows: seq<seq<Byte>>, n: nat, bpp: nat) {
    0 < bpp < n && forall i :: 0 <= i < |rows| ==> |rows[i]| == n
  }

  // ------------------------------------------------------------- unfiltering

  /** The predictor in the source's terms. */
  function PaethPredictor(left: int, above: int, upperLeft: int): int {
    var pa := above - upperLeft;
    var pb := left - upperLeft;
    var pc := pa + pb;
    if Abs(pa) <= Abs(pb) && Abs(pa) <= Abs(pc) then left
    else if Abs(pb) <= Abs(pc) then above
    else upperLeft
  }

  /** Row at an offset of the buffer, restored up to byte j and filtered from there on. */
  ghost predicate HalfDone(data: seq<Byte>, at: nat, row: seq<Byte>, prior: seq<Byte>, bpp: nat, j: nat)
    requires |row| == |prior| && at + |row| <= |data|
  {
    && (forall t :: 0 <= t < |row| && t < j ==> data[at + t] == row[t])
    && (forall t :: j <= t < |row| ==> data[at + t] == FilteredByte(row, prior, bpp, t))
  }

  /** Adding what was predicted restores a byte. */
  lemma Restores(row: seq<Byte>, prior: seq<Byte>, bpp: nat, j: nat)
    requires |row| == |prior| && 0 < j < |row|
    ensures (FilteredByte(row, prior, bpp, j) + Predict(row[0], Left(row, j, bpp), prior[j], Left(prior, j, bpp))) % 256 == row[j]
  {
    PlusMinus(row[j], Predict(row[0], Left(row, j, bpp), prior[j], Left(prior, j, bpp)));
  }

  lemma PlusMinus(x: Byte, p: int)
    ensures ((x - p) % 256 + p) % 256 == x
  {
  }

  /** One byte restored. */
  method Restore(data: array<Byte>, at: nat, j: nat, predicted: int,
                 ghost row: seq<Byte>, ghost prior: seq<Byte>, ghost bpp: nat)
    requires |row| == |prior| && at + |row| <= data.Length && 0 < j < |row|
    requires HalfDone(data[..], at, row, prior, bpp, j)
    requires predicted == Predict(row[0], Left(row, j, bpp), prior[j], Left(prior, j, bpp))
    modifies data
    ensures HalfDone(data[..], at, row, prior, bpp, j + 1)
    ensures forall t :: 0 <= t < data.Length && t != at + j ==> data[t] == old(data[t])
  {
    Restores(row, prior, bpp, j);
    hide FilteredByte, Predict, Left;
    data[at + j] := (data[at + j] + predicted) % 256;
  }

  /** Bytes predicted to be zero were never changed. */
  lemma Skip(data: seq<Byte>, at: nat, row: seq<Byte>, prior: seq<Byte>, bpp: nat, j: nat, k: nat)
    requires |row| == |prior| && at + |row| <= |data| && 0 < j <= k
    requires HalfDone(data, at, row, prior, bpp, j)
    requires forall t :: j <= t < |row| && t < k ==>
               Predict(row[0], Left(row, t, bpp), prior[t], Left(prior, t, bpp)) == 0
    ensures HalfDone(data, at, row, prior, bpp, k)
  {
    forall t | j <= t < |row| && t < k
      ensures data[at + t] == row[t]
    {
      assert data[at + t] == FilteredByte(row, prior, bpp, t);
      assert Predict(row[0], Left(row, t, bpp), prior[t], Left(prior, t, bpp)) == 0;
    }
  }

  lemma PaethAgrees(a: int, b: int, c: int)
    ensures PaethPredictor(a, b, c) == Paeth(a, b, c)
    ensures Paeth(a, 0, 0) == a && Paeth(0, b, 0) == b
  {
  }

  lemma TypeStays(data: seq<Byte>, at: nat, row: seq<Byte>, prior: seq<Byte>, bpp: nat)
    requires |row| == |prior| && 0 < |row| && at + |row| <= |data| && HalfDone(data, at, row, prior, bpp, 0)
    ensures data[at] == row[0] && HalfDone(data, at, row, prior, bpp, 1)
  {
    assert data[at + 0] == FilteredByte(row, prior, bpp, 0);
  }

  /** The first row, above which there are only zeros. */
  method FirstRow(data: array<Byte>, n: nat, bpp: nat, ghost row: seq<Byte>)
    requires |row| == n <= data.Length && 0 < bpp < n && HalfDone(data[..], 0, row, seq(n, _ => 0), bpp, 0)
    modifies data
    ensures data[..n] == row && data[n..] == old(data[n..])
  {
    ghost var prior: seq<Byte> := seq(n, _ => 0);
    TypeStays(data[..], 0, row, prior, bpp);
    match data[0] {
      case 1 => FirstSub(data, n, bpp, row, prior);
      case 4 => FirstSub(data, n, bpp, row, prior);
      case 3 => FirstAverage(data, n, bpp, row, prior);
      case _ => Skip(data[..], 0, row, prior, bpp, 1, n);
    }
    assert data[..n] == row;
  }

  method FirstSub(data: array<Byte>, n: nat, bpp: nat, ghost row: seq<Byte>, ghost prior: seq<Byte>)
    requires |row| == n <= data.Length && 0 < bpp < n && prior == seq(n, _ => 0) && (row[0] == 1 || row[0] == 4)
    requires HalfDone(data[..], 0, row, prior, bpp, 1)
    modifies data
    ensures HalfDone(data[..], 0, row, prior, bpp, n) && data[n..] == old(data[n..])
  {
    Skip(data[..], 0, row, prior, bpp, 1, bpp + 1);
    for j := bpp + 1 to n
      invariant HalfDone(data[..], 0, row, prior, bpp, j) && data[n..] == old(data[n..])
    {
      PaethAgrees(row[j - bpp], 0, 0);
      Restore(data, 0, j, data[j - bpp], row, prior, bpp);
    }
  }

  method FirstAverage(data: array<Byte>, n: nat, bpp: nat, ghost row: seq<Byte>, ghost prior: seq<Byte>)
    requires |row| == n <= data.Length && 0 < bpp < n && prior == seq(n, _ => 0) && row[0] == 3
    requires HalfDone(data[..], 0, row, prior, bpp, 1)
    modifies data
    ensures HalfDone(data[..], 0, row, prior, bpp, n) && data[n..] == old(data[n..])
  {
    Skip(data[..], 0, row, prior, bpp, 1, bpp + 1);
    for j := bpp + 1 to n
      invariant HalfDone(data[..], 0, row, prior, bpp, j) && data[n..] == old(data[n..])
    {
      Restore(data, 0, j, data[j - bpp] / 2, row, prior, bpp);
    }
  }

  /** The buffer around a row that is being restored: the row above is, the rest is as it was. */
  ghost predicate Around(data: seq<Byte>, before: seq<Byte>, last: nat, prior: seq<Byte>, at: nat, n: nat) {
    && |data| == |before| && |prior| == n && last + n <= at && at + n <= |data|
    && data[last..last + n] == prior
    && data[..at] == before[..at] && data[at + n..] == before[at + n..]
  }

  method SubRow(data: array<Byte>, at: nat, n: nat, bpp: nat, ghost last: nat, ghost row: seq<Byte>, ghost prior: seq<Byte>)
    requires |row| == n && 0 < bpp < n && row[0] == 1 && Around(data[..], data[..], last, prior, at, n)
    requires HalfDone(data[..], at, row, prior, bpp, 1)
    modifies data
    ensures Around(data[..], old(data[..]), last, prior, at, n) && HalfDone(data[..], at, row, prior, bpp, n)
  {
    Skip(data[..], at, row, prior, bpp, 1, bpp + 1);
    for j := bpp + 1 to n
      invariant Around(data[..], old(data[..]), last, prior, at, n) && HalfDone(data[..], at, row, prior, bpp, j)
    {
      Restore(data, at, j, data[at + j - bpp], row, prior, bpp);
    }
  }

  method AverageRow(data: array<Byte>, at: nat, n: nat, bpp: nat, last: nat, ghost row: seq<Byte>, ghost prior: seq<Byte>)
    requires |row| == n && 0 < bpp < n && row[0] == 3 && Around(data[..], data[..], last, prior, at, n)
    requires HalfDone(data[..], at, row, prior, bpp, 1)
    modifies data
    ensures Around(data[..], old(data[..]), last, prior, at, n) && HalfDone(data[..], at, row, prior, bpp, n)
  {
    for j := 1 to bpp + 1
      invariant Around(data[..], old(data[..]), last, prior, at, n) && HalfDone(data[..], at, row, prior, bpp, j)
    {
      AboveAt(data[..], last, prior, n, j);
      Restore(data, at, j, data[last + j] / 2, row, prior, bpp);
    }
    for k := bpp + 1 to n
      invariant Around(data[..], old(data[..]), last, prior, at, n) && HalfDone(data[..], at, row, prior, bpp, k)
    {
      AboveAt(data[..], last, prior, n, k);
      var left: int, above: int := data[at + k - bpp], data[last + k];
      Restore(data, at, k, (left + above) / 2, row, prior, bpp);
    }
  }

  method PaethRow(data: array<Byte>, at: nat, n: nat, bpp: nat, last: nat, ghost row: seq<Byte>, ghost prior: seq<Byte>)
    requires |row| == n && 0 < bpp < n && row[0] == 4 && Around(data[..], data[..], last, prior, at, n)
    requires HalfDone(data[..], at, row, prior, bpp, 1)
    modifies data
    ensures Around(data[..], old(data[..]), last, prior, at, n) && HalfDone(data[..], at, row, prior, bpp, n)
  {
    for j := 1 to bpp + 1
      invariant Around(data[..], old(data[..]), last, prior, at, n) && HalfDone(data[..], at, row, prior, bpp, j)
    {
      AboveAt(data[..], last, prior, n, j);
      PaethAgrees(0, prior[j], 0);
      Restore(data, at, j, data[last + j], row, prior, bpp);
    }
    for k := bpp + 1 to n
      invariant Around(data[..], old(data[..]), last, prior, at, n) && HalfDone(data[..], at, row, prior, bpp, k)
    {
      AboveAt(data[..], last, prior, n, k);
      AboveAt(data[..], last, prior, n, k - bpp);
      PaethAgrees(row[k - bpp], prior[k], prior[k - bpp]);
      Restore(data, at, k, PaethPredictor(data[at + k - bpp], data[last + k], data[last + k - bpp]), row, prior, bpp);
    }
  }

  lemma AboveAt(data: seq<Byte>, last: nat, prior: seq<Byte>, n: nat, j: nat)
    requires last + n <= |data| && data[last..last + n] == prior && j < n
    ensures data[last + j] == prior[j]
  {
    assert data[last..last + n][j] == data[last + j];
  }

  /** One byte of an up row. */
  method UpByte(data: array<Byte>, at: nat, n: nat, bpp: nat, last: nat, j: nat, ghost row: seq<Byte>, ghost prior: seq<Byte>,
                ghost before: seq<Byte>)
    requires |row| == |prior| == n && at + n <= data.Length && 0 < bpp < n && row[0] == 2 && 0 < j < n && Around(data[..], before, last, prior, at, n)
    requires HalfDone(data[..], at, row, prior, bpp, j)
    modifies data
    ensures Around(data[..], before, last, prior, at, n) && HalfDone(data[..], at, row, prior, bpp, j + 1)
  {
    AboveAt(data[..], last, prior, n, j);
    Restore(data, at, j, data[last + j], row, prior, bpp);
  }

  /** An up row, sixteen bytes a turn and then the rest. */
  method UpRow(data: array<Byte>, at: nat, n: nat, bpp: nat, last: nat, ghost row: seq<Byte>, ghost prior: seq<Byte>)
    requires |row| == |prior| == n && at + n <= data.Length && 0 < bpp < n && row[0] == 2
    requires Around(data[..], data[..], last, prior, at, n) && HalfDone(data[..], at, row, prior, bpp, 1)
    modifies data
    ensures Around(data[..], old(data[..]), last, prior, at, n) && HalfDone(data[..], at, row, prior, bpp, n)
  {
    hide HalfDone, Around;
    ghost var before := data[..];
    var j, ctr := 1, n - 1;
    var ctr16 := ctr / 16;
    while ctr16 > 0
      invariant Around(data[..], before, last, prior, at, n) && HalfDone(data[..], at, row, prior, bpp, j)
      invariant 0 < j && 0 <= ctr16 && j + 16 * ctr16 + (n - 1) % 16 == n
    {
      UpByte(data, at, n, bpp, last, j, row, prior, before);
      UpByte(data, at, n, bpp, last, j + 1, row, prior, before);
      UpByte(data, at, n, bpp, last, j + 2, row, prior, before);
      UpByte(data, at, n, bpp, last, j + 3, row, prior, before);
      UpByte(data, at, n, bpp, last, j + 4, row, prior, before);
      UpByte(data, at, n, bpp, last, j + 5, row, prior, before);
      UpByte(data, at, n, bpp, last, j + 6, row, prior, before);
      UpByte(data, at, n, bpp, last, j + 7, row, prior, before);
      UpByte(data, at, n, bpp, last, j + 8, row, prior, before);
      UpByte(data, at, n, bpp, last, j + 9, row, prior, before);
      UpByte(data, at, n, bpp, last, j + 10, row, prior, before);
      UpByte(data, at, n, bpp, last, j + 11, row, prior, before);
      UpByte(data, at, n, bpp, last, j + 12, row, prior, before);
      UpByte(data, at, n, bpp, last, j + 13, row, prior, before);
      UpByte(data, at, n, bpp, last, j + 14, row, prior, before);
      UpByte(data, at, n, bpp, last, j + 15, row, prior, before);
      j := j + 16;
      ctr16 := ctr16 - 1;
    }
    ctr := ctr % 16;
    while ctr > 0
      invariant Around(data[..], before, last, prior, at, n) && HalfDone(data[..], at, row, prior, bpp, j)
      invariant 0 < j && 0 <= ctr && j + ctr == n
    {
      UpByte(data, at, n, bpp, last, j, row, prior, before);
      j := j + 1;
      ctr := ctr - 1;
    }
  }

  /** Any later row, given the restored row above. */
  method LaterRow(data: array<Byte>, at: nat, n: nat, bpp: nat, last: nat, ghost row: seq<Byte>, ghost prior: seq<Byte>)
    requires |row| == n && 0 < bpp < n && Around(data[..], data[..], last, prior, at, n)
    requires HalfDone(data[..], at, row, prior, bpp, 0)
    modifies data
    ensures Around(data[..], old(data[..]), last, prior, at, n) && data[at..at + n] == row
  {
    TypeStays(data[..], at, row, prior, bpp);
    match data[at] {
      case 1 => SubRow(data, at, n, bpp, last, row, prior);
      case 2 => UpRow(data, at, n, bpp, last, row, prior);
      case 3 => AverageRow(data, at, n, bpp, last, row, prior);
      case 4 => PaethRow(data, at, n, bpp, last, row, prior);
      case _ => Skip(data[..], at, row, prior, bpp, 1, n);
    }
    assert data[at..at + n] == row;
  }

  // ------------------------------------------------------------------- images

  /** Where row i starts. */
  function RowAt(i: nat, n: nat): nat {
    i * n
  }

  /** The buffer holds the first i rows restored and the others filtered. */
  ghost predicate RowsDone(data: seq<Byte>, rows: seq<seq<Byte>>, n: nat, bpp: nat, i: nat)
    requires Image(rows, n, bpp) && |data| >= RowAt(|rows|, n)
  {
    forall k :: 0 <= k < |rows| ==>
      && RowAt(k, n) + n <= |data|
      && if k < i then data[RowAt(k, n)..RowAt(k, n) + n] == rows[k]
         else HalfDone(data, RowAt(k, n), rows[k], Prior(rows, k, n), bpp, 0)
  }

  lemma RowsApart(i: nat, k: nat, n: nat)
    requires i < k
    ensures RowAt(i, n) + n <= RowAt(k, n)
  {
    assert k * n == (i + 1) * n + (k - i - 1) * n;
  }

  /** A row that is restored leaves the other rows as they were. */
  lemma RowDone(before: seq<Byte>, after: seq<Byte>, rows: seq<seq<Byte>>, n: nat, bpp: nat, i: nat)
    requires Image(rows, n, bpp) && i < |rows| && |before| == |after| >= RowAt(|rows|, n)
    requires RowsDone(before, rows, n, bpp, i)
    requires RowAt(i, n) + n <= |after| && after[RowAt(i, n)..RowAt(i, n) + n] == rows[i]
    requires after[..RowAt(i, n)] == before[..RowAt(i, n)] && after[RowAt(i, n) + n..] == before[RowAt(i, n) + n..]
    ensures RowsDone(after, rows, n, bpp, i + 1)
  {
    forall k | 0 <= k < |rows|
      ensures RowAt(k, n) + n <= |after|
      ensures if k < i + 1 then after[RowAt(k, n)..RowAt(k, n) + n] == rows[k]
              else HalfDone(after, RowAt(k, n), rows[k], Prior(rows, k, n), bpp, 0)
    {
      OtherRow(before, after, rows, n, bpp, i, k);
    }
  }

  lemma RowStands(data: seq<Byte>, rows: seq<seq<Byte>>, n: nat, bpp: nat, i: nat, k: nat)
    requires Image(rows, n, bpp) && k < |rows| && |data| >= RowAt(|rows|, n) && RowsDone(data, rows, n, bpp, i)
    ensures RowAt(k, n) + n <= |data| && |rows[k]| == |Prior(rows, k, n)| == n
    ensures if k < i then data[RowAt(k, n)..RowAt(k, n) + n] == rows[k]
            else HalfDone(data, RowAt(k, n), rows[k], Prior(rows, k, n), bpp, 0)
  {
    hide HalfDone;
  }

  lemma OtherRow(before: seq<Byte>, after: seq<Byte>, rows: seq<seq<Byte>>, n: nat, bpp: nat, i: nat, k: nat)
    requires Image(rows, n, bpp) && i < |rows| && k < |rows| && |before| == |after| >= RowAt(|rows|, n)
    requires RowsDone(before, rows, n, bpp, i)
    requires RowAt(i, n) + n <= |after| && after[RowAt(i, n)..RowAt(i, n) + n] == rows[i]
    requires after[..RowAt(i, n)] == before[..RowAt(i, n)] && after[RowAt(i, n) + n..] == before[RowAt(i, n) + n..]
    ensures RowAt(k, n) + n <= |after|
    ensures if k < i + 1 then after[RowAt(k, n)..RowAt(k, n) + n] == rows[k]
            else HalfDone(after, RowAt(k, n), rows[k], Prior(rows, k, n), bpp, 0)
  {
    hide RowAt, FilteredByte, HalfDone, RowsDone, Image;
    RowStands(before, rows, n, bpp, i, k);
    var a, b := RowAt(i, n), RowAt(k, n);
    if k < i {
      RowsApart(k, i, n);
      SameBelow(before, after, a, b, n);
    } else if k > i {
      RowsApart(i, k, n);
      SameAbove(before, after, a + n, b, n);
      SameRow(before, after, b, rows[k], Prior(rows, k, n), bpp);
    }
  }

  lemma SameBelow(before: seq<Byte>, after: seq<Byte>, a: nat, b: nat, n: nat)
    requires b + n <= a <= |before| == |after| && after[..a] == before[..a]
    ensures after[b..b + n] == before[b..b + n]
  {
    assert after[b..b + n] == after[..a][b..b + n];
    assert before[b..b + n] == before[..a][b..b + n];
  }

  lemma SameAbove(before: seq<Byte>, after: seq<Byte>, c: nat, b: nat, n: nat)
    requires c <= b && b + n <= |before| == |after| && after[c..] == before[c..]
    ensures after[b..b + n] == before[b..b + n]
  {
    assert after[b..b + n] == after[c..][b - c..b - c + n];
    assert before[b..b + n] == before[c..][b - c..b - c + n];
  }

  lemma SameRow(before: seq<Byte>, after: seq<Byte>, at: nat, row: seq<Byte>, prior: seq<Byte>, bpp: nat)
    requires |row| == |prior| && at + |row| <= |before| == |after| && HalfDone(before, at, row, prior, bpp, 0)
    requires after[at..at + |row|] == before[at..at + |row|]
    ensures HalfDone(after, at, row, prior, bpp, 0)
  {
    forall t | 0 <= t < |row|
      ensures after[at + t] == FilteredByte(row, prior, bpp, t)
    {
      assert after[at..at + |row|][t] == after[at + t] && before[at..at + |row|][t] == before[at + t];
    }
  }

  lemma RowAtNext(i: nat, n: nat)
    ensures RowAt(i + 1, n) == RowAt(i, n) + n && RowAt(0, n) == 0
  {
  }

  /** The next row to restore, and the restored one above it. */
  lemma RowToDo(data: seq<Byte>, rows: seq<seq<Byte>>, n: nat, bpp: nat, i: nat)
    requires Image(rows, n, bpp) && i < |rows| && |data| >= RowAt(|rows|, n) && RowsDone(data, rows, n, bpp, i)
    ensures RowAt(i, n) + n <= |data| && HalfDone(data, RowAt(i, n), rows[i], Prior(rows, i, n), bpp, 0)
    ensures i > 0 ==> Around(data, data, RowAt(i - 1, n), rows[i - 1], RowAt(i, n), n)
  {
    if i > 0 {
      RowAtNext(i - 1, n);
    }
  }

  method NextRow(data: array<Byte>, at: nat, n: nat, bpp: nat, last: nat, ghost rows: seq<seq<Byte>>, ghost i: nat)
    requires Image(rows, n, bpp) && 0 < i < |rows| && data.Length == RowAt(|rows|, n) && RowsDone(data[..], rows, n, bpp, i)
    requires last == RowAt(i - 1, n) && at == RowAt(i, n)
    modifies data
    ensures RowsDone(data[..], rows, n, bpp, i + 1)
  {
    hide HalfDone, RowsDone, RowAt;
    ghost var before := data[..];
    RowToDo(before, rows, n, bpp, i);
    LaterRow(data, at, n, bpp, last, rows[i], rows[i - 1]);
    RowDone(before, data[..], rows, n, bpp, i);
  }

  /** Rows that were filtered as in section 6 of RFC 2083, each with its own filter type, are
      restored exactly, in place. */
  method UnfilterImage(data: array<Byte>, height: nat, n: nat, bpp: nat, ghost rows: seq<seq<Byte>>)
    requires Image(rows, n, bpp) && |rows| == height > 0 && data.Length == RowAt(height, n)
    requires RowsDone(data[..], rows, n, bpp, 0)
    modifies data
    ensures RowsDone(data[..], rows, n, bpp, height)
  {
    hide HalfDone, RowsDone, RowAt;
    ghost var filtered := data[..];
    RowToDo(data[..], rows, n, bpp, 0);
    RowAtNext(0, n);
    FirstRow(data, n, bpp, rows[0]);
    assert data[..n] == data[0..0 + n];
    RowDone(filtered, data[..], rows, n, bpp, 0);
    var last, at := 0, n;
    for i := 1 to height
      invariant RowsDone(data[..], rows, n, bpp, i) && last == RowAt(i - 1, n) && at == RowAt(i, n)
    {
      NextRow(data, at, n, bpp, last, rows, i);
      RowAtNext(i, n);
      last := at;
      at := at + n;
    }
  }
}
