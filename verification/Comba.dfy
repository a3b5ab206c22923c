// Column sums of a digit-by-digit square: the columns, each scaled to its place, add up
// to the square of the value.
module Comba {
  import opened MachineInts
  import opened Bigits
  import opened Powers

  /** The products s[j] * s[k - j] with j below m, in column k. */
  function Column(s: seq<Bigit>, k: nat, m: nat): (c: int)
    requires m <= |s|
    ensures 0 <= c <= m * 0x100_0000_0000_0000
  {
    if m == 0 then 0
    else
      BigitProduct(s[m - 1], DigitAt(s, m - 1, k));
      Column(s, k, m - 1) + s[m - 1] * DigitAt(s, m - 1, k)
  }

  /** The first columns, each scaled to its place. */
  function Columns(s: seq<Bigit>, count: nat, m: nat): int
    requires m <= |s|
  {
    if count == 0 then 0 else Columns(s, count - 1, m) + Scale(Column(s, count - 1, m), count - 1)
  }

  lemma BigitProduct(a: Bigit, b: Bigit)
    ensures 0 <= a * b <= 0x100_0000_0000_0000
  {
    MulMono(0, a, b);
    MulMono(a, 0x1000_0000, b);
  }

  lemma NoRow(s: seq<Bigit>, k: nat)
    ensures Column(s, k, 0) == 0
  {
  }

  lemma NextRow(s: seq<Bigit>, k: nat, m: nat)
    requires m < |s| <= 64 && 0 <= k - m < |s|
    ensures Column(s, k, m + 1) == Column(s, k, m) + (s[k - m] as int) * s[m]
    ensures 0 <= (s[k - m] as int) * s[m] && 0 <= Column(s, k, m + 1) <= 0x4000_0000_0000_0000
  {
    hide Column;
    BigitProduct(s[k - m], s[m]);
    ColumnNext(s, k, m);
    MulAssoc(1, s[m], s[k - m]);
  }

  lemma ColumnNext(s: seq<Bigit>, k: nat, m: nat)
    requires m < |s|
    ensures Column(s, k, m + 1) == Column(s, k, m) + s[m] * DigitAt(s, m, k)
  {
  }

  /** Rows above the column's own number do not reach it. */
  lemma {:induction false} ColumnStops(s: seq<Bigit>, k: nat, from: nat, m: nat)
    requires k < from <= m <= |s|
    ensures Column(s, k, m) == Column(s, k, from)
    decreases m
  {
    if from < m {
      ColumnStops(s, k, from, m - 1);
    }
  }

  /** Rows too short to reach the column contribute nothing. */
  lemma {:induction false} ColumnStarts(s: seq<Bigit>, k: nat, m: nat)
    requires m <= |s| && m + |s| <= k + 1
    ensures Column(s, k, m) == 0
  {
    if m > 0 {
      ColumnStarts(s, k, m - 1);
    }
  }

  /** One more row adds the digit times the number shifted to the row's place. */
  lemma {:induction false} AddRow(s: seq<Bigit>, count: nat, m: nat)
    requires m < |s|
    ensures Columns(s, count, m + 1) == Columns(s, count, m) + s[m] * Low(s, m, count)
  {
    hide Scale;
    if count > 0 {
      var k := count - 1;
      AddRow(s, k, m);
      ScaledSum(Column(s, k, m), s[m], DigitAt(s, m, k), k, Low(s, m, k));
    }
  }

  lemma ScaledSum(c: int, d: int, e: int, k: nat, low: int)
    ensures Scale(c + d * e, k) == Scale(c, k) + d * Scale(e, k)
    ensures d * (low + Scale(e, k)) == d * low + d * Scale(e, k)
  {
    hide Scale;
    ScaleAdd(c, d * e, k);
    ScaleTimes(d, e, k);
    Distribute(d, low, Scale(e, k));
  }

  lemma {:induction false} NoRows(s: seq<Bigit>, count: nat)
    ensures Columns(s, count, 0) == 0
  {
    if count > 0 {
      NoRows(s, count - 1);
      ScaleZero(count - 1);
    }
  }

  lemma {:induction false} RowsAreProduct(s: seq<Bigit>, m: nat)
    requires m <= |s|
    ensures Columns(s, 2 * |s|, m) == Val(s, 0) * Val(s[..m], 0)
  {
    hide Column, Columns, Scale, Low, Val;
    if m == 0 {
      NoRows(s, 2 * |s|);
      ValNone(s, 0);
    } else {
      RowsAreProduct(s, m - 1);
      AddRow(s, 2 * |s|, m - 1);
      LowAll(s, m - 1, |s|, 2 * |s|);
      ValOffset(s, m - 1);
      ScaledRow(s[m - 1], Val(s, 0), m - 1);
      ValPush(s, 0, m - 1);
      Distribute(Val(s, 0), Val(s[..m - 1], 0), Scale(s[m - 1], m - 1));
    }
  }

  lemma ScaledRow(d: int, v: int, n: nat)
    ensures d * Scale(v, n) == v * Scale(d, n)
  {
    ScaleTimes(v, d, n);
    ScaleTimes(d, v, n);
  }

  /** The columns of a square add up to the square. */
  lemma ColumnsAreSquare(s: seq<Bigit>)
    ensures Columns(s, 2 * |s|, |s|) == Val(s, 0) * Val(s, 0)
  {
    RowsAreProduct(s, |s|);
    assert s[..|s|] == s;
  }

  /** The square has at most twice the digits. */
  lemma SquareBound(s: seq<Bigit>)
    ensures 0 <= Val(s, 0) * Val(s, 0) < Weight(2 * |s|)
  {
    hide Scale, Val;
    var v, w := Val(s, 0), Weight(|s|);
    ValBounds(s, 0);
    MulMono(v, w - 1, v);
    MulMono(v, w - 1, w);
    MulStrict(w - 1, w, w);
    ScaleScale(1, |s|, |s|);
    ScaleMono(1, 1, |s|);
    ScaleMono(1, 1, 2 * |s|);
    ScaleTimes(w, 1, |s|);
  }

  lemma NoColumns(s: seq<Bigit>, t: seq<Bigit>)
    requires t == []
    ensures Val(t, 0) + Scale(0, 0) == Columns(s, 0, |s|)
  {
  }

  /** Storing one column and carrying on with the next. */
  lemma NextColumn(s: seq<Bigit>, t: seq<Bigit>, i: nat, total: int)
    requires |t| == i && 0 <= total
    requires Val(t, 0) + Scale(total - Column(s, i, |s|), i) == Columns(s, i, |s|)
    ensures Val(t + [total % 0x1000_0000], 0) + Scale(total / 0x1000_0000, i + 1) == Columns(s, i + 1, |s|)
  {
    hide Scale;
    var digit: Bigit := total % 0x1000_0000;
    assert (t + [digit])[..i] == t;
    CarryStep(total, digit, total / 0x1000_0000, i);
    ScaleAdd(total - Column(s, i, |s|), Column(s, i, |s|), i);
  }

  lemma AccumulatorEmpty(s: seq<Bigit>, t: seq<Bigit>, accumulator: int)
    requires |t| == 2 * |s| && 0 <= accumulator
    requires Val(t, 0) + Scale(accumulator, |t|) == Val(s, 0) * Val(s, 0)
    ensures accumulator == 0 && Val(t, 0) == Val(s, 0) * Val(s, 0)
  {
    hide Scale, Val, Weight;
    SquareBound(s);
    ValBounds(t, 0);
    ScaleZero(|t|);
    if accumulator > 0 {
      ScaleMono(1, accumulator, |t|);
    }
  }

  /** Doubling the hidden exponent squares its weight. */
  lemma SquareOffset(s: seq<Bigit>, t: seq<Bigit>, e: nat)
    requires Val(t, 0) == Val(s, 0) * Val(s, 0)
    ensures Val(t, 2 * e) == Val(s, e) * Val(s, e)
  {
    hide Scale, Val;
    var m := Val(s, 0);
    ValOffset(s, e);
    ValOffset(t, 2 * e);
    ScaleScale(m * m, e, e);
    ScaleTimes(m, m, e);
    ScaleTimes(m, Scale(m, e), e);
    ScaledRow(m, m, e);
    SquareArith(m, Scale(m, e), Weight(e), Scale(m * Scale(m, e), e)) by {
      ScaleTimes(m * Scale(m, e), 1, e);
      ScaleTimes(m, 1, e);
    }
  }

  lemma SquareArith(m: int, v: int, w: int, r: int)
    requires v == m * w && r == m * v * w
    ensures r == v * v
  {
    MulAssoc(m, v, w);
  }
}
