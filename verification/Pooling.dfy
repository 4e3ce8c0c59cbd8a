/** Mean pooling over token embeddings and L2 normalization, over the reals. */
module Pooling {

  type Vector = seq<real>

  predicate Uniform(rows: seq<Vector>, dim: nat) {
    forall i :: 0 <= i < |rows| ==> |rows[i]| == dim
  }

  /** The first `n` token rows whose mask is set. */
  function Active(hidden: seq<Vector>, mask: seq<nat>, n: nat): seq<Vector>
    requires n <= |hidden| && n <= |mask|
  {
    if n == 0 then [] else Active(hidden, mask, n - 1) + if mask[n - 1] > 0 then [hidden[n - 1]] else []
  }

  /** All positions that have both a row and a mask. */
  function Seen(hidden: seq<Vector>, mask: seq<nat>): (n: nat)
    ensures n <= |hidden| && n <= |mask| && (n == |hidden| || n == |mask|)
  {
    if |mask| <= |hidden| then |mask| else |hidden|
  }

  function ColumnSum(rows: seq<Vector>, j: nat): real
    requires forall i :: 0 <= i < |rows| ==> j < |rows[i]|
  {
    if rows == [] then 0.0 else ColumnSum(rows[..|rows| - 1], j) + rows[|rows| - 1][j]
  }

  lemma {:induction false} ActiveUniform(hidden: seq<Vector>, mask: seq<nat>, n: nat, dim: nat)
    requires n <= |hidden| && n <= |mask| && Uniform(hidden, dim)
    ensures Uniform(Active(hidden, mask, n), dim)
  {
    if n > 0 {
      ActiveUniform(hidden, mask, n - 1, dim);
    }
  }

  /** The positions below `n` whose mask is set, in order. */
  ghost function Positions(mask: seq<nat>, n: nat): seq<nat>
    requires n <= |mask|
  {
    if n == 0 then [] else Positions(mask, n - 1) + if mask[n - 1] >= 1 then [n - 1] else []
  }

  lemma {:induction false} PositionsMeaning(mask: seq<nat>, n: nat)
    requires n <= |mask|
    ensures var f := Positions(mask, n);
            && (forall a, b :: 0 <= a < b < |f| ==> f[a] < f[b])
            && (forall i :: i in f <==> 0 <= i < n && mask[i] > 0)
  {
    if n > 0 {
      PositionsMeaning(mask, n - 1);
      var f := Positions(mask, n - 1);
      assert forall a :: 0 <= a < |f| ==> f[a] in f;
    }
  }

  lemma {:induction false} ActiveAtPositions(hidden: seq<Vector>, mask: seq<nat>, n: nat)
    requires n <= |hidden| && n <= |mask|
    ensures var f, rows := Positions(mask, n), Active(hidden, mask, n);
            |rows| == |f| && forall a :: 0 <= a < |f| ==> f[a] < n && rows[a] == hidden[f[a]]
  {
    if n > 0 {
      ActiveAtPositions(hidden, mask, n - 1);
    }
  }

  /** Exactly the rows with a positive mask are pooled, each once and in order. */
  lemma ActiveMeaning(hidden: seq<Vector>, mask: seq<nat>, n: nat)
    requires n <= |hidden| && n <= |mask|
    ensures var f, rows := Positions(mask, n), Active(hidden, mask, n);
            && (forall a, b :: 0 <= a < b < |f| ==> f[a] < f[b])
            && (forall i :: i in f <==> 0 <= i < n && mask[i] > 0)
            && |rows| == |f| && forall a :: 0 <= a < |f| ==> f[a] < n && rows[a] == hidden[f[a]]
  {
    PositionsMeaning(mask, n);
    ActiveAtPositions(hidden, mask, n);
  }

  /** Rows that the mask leaves out do not matter. */
  lemma {:induction false} OnlyActiveRowsMatter(hidden: seq<Vector>, other: seq<Vector>, mask: seq<nat>, n: nat)
    requires n <= |hidden| && n <= |other| && n <= |mask|
    requires forall i :: 0 <= i < n && mask[i] > 0 ==> hidden[i] == other[i]
    ensures Active(hidden, mask, n) == Active(other, mask, n)
  {
    if n > 0 {
      OnlyActiveRowsMatter(hidden, other, mask, n - 1);
    }
  }

  function Mean(rows: seq<Vector>, j: nat): real
    requires forall i :: 0 <= i < |rows| ==> j < |rows[i]|
  {
    if rows == [] then 0.0 else ColumnSum(rows, j) / |rows| as real
  }

  /** The sum of one row is that row, sums of parts add up, and the mean times the number of rows is the sum. */
  lemma {:induction false} MeanIsSumOverCount(a: seq<Vector>, b: seq<Vector>, j: nat)
    requires forall i :: 0 <= i < |a| ==> j < |a[i]|
    requires forall i :: 0 <= i < |b| ==> j < |b[i]|
    ensures |a| == 1 ==> ColumnSum(a, j) == a[0][j]
    ensures ColumnSum(a + b, j) == ColumnSum(a, j) + ColumnSum(b, j)
    ensures a != [] ==> Mean(a, j) * |a| as real == ColumnSum(a, j)
  {
    if b == [] {
      assert a + b == a;
    } else {
      var n := |b| - 1;
      MeanIsSumOverCount(a, b[..n], j);
      assert (a + b)[..|a + b| - 1] == a + b[..n];
    }
  }

  lemma {:induction false} ColumnSumBounds(rows: seq<Vector>, j: nat, lo: real, hi: real)
    requires forall i :: 0 <= i < |rows| ==> j < |rows[i]| && lo <= rows[i][j] <= hi
    ensures |rows| as real * lo <= ColumnSum(rows, j) <= |rows| as real * hi
  {
    if rows != [] {
      var n := |rows| - 1;
      ColumnSumBounds(rows[..n], j, lo, hi);
      assert |rows| as real == n as real + 1.0;
    }
  }

  /** Every component of the mean lies between the smallest and the largest of the pooled components. */
  lemma MeanIsBetween(rows: seq<Vector>, j: nat, lo: real, hi: real)
    requires rows != [] && forall i :: 0 <= i < |rows| ==> j < |rows[i]| && lo <= rows[i][j] <= hi
    ensures lo <= Mean(rows, j) <= hi
  {
    ColumnSumBounds(rows, j, lo, hi);
    var n, sum := |rows| as real, ColumnSum(rows, j);
    DivideBounds(sum, n, lo, hi);
  }

  lemma DivideBounds(sum: real, n: real, lo: real, hi: real)
    requires n > 0.0 && n * lo <= sum <= n * hi
    ensures lo <= sum / n <= hi
  {
    var q := sum / n;
    assert q * n == sum;
    assert (q - lo) * n >= 0.0;
    assert (hi - q) * n >= 0.0;
  }

  /** Adds a row to the accumulator, component by component. */
  method AddRow(pooled: array<real>, row: Vector)
    requires |row| == pooled.Length
    modifies pooled
    ensures forall j :: 0 <= j < pooled.Length ==> pooled[j] == old(pooled[j]) + row[j]
  {
    for j := 0 to pooled.Length
      invariant forall k :: 0 <= k < j ==> pooled[k] == old(pooled[k]) + row[k]
      invariant forall k :: j <= k < pooled.Length ==> pooled[k] == old(pooled[k])
    {
      pooled[j] := pooled[j] + row[j];
    }
  }

  /** Divides every component, in place. */
  method DivideBy(pooled: array<real>, d: real)
    requires d != 0.0
    modifies pooled
    ensures forall j :: 0 <= j < pooled.Length ==> pooled[j] == old(pooled[j]) / d
  {
    for j := 0 to pooled.Length
      invariant forall k :: 0 <= k < j ==> pooled[k] == old(pooled[k]) / d
      invariant forall k :: j <= k < pooled.Length ==> pooled[k] == old(pooled[k])
    {
      pooled[j] := pooled[j] / d;
    }
  }

  lemma ColumnSumAppend(rows: seq<Vector>, row: Vector, j: nat)
    requires forall i :: 0 <= i < |rows| ==> j < |rows[i]|
    requires j < |row|
    ensures forall i :: 0 <= i < |rows + [row]| ==> j < |(rows + [row])[i]|
    ensures ColumnSum(rows + [row], j) == ColumnSum(rows, j) + row[j]
  {
    assert (rows + [row])[..|rows|] == rows;
  }

  /** Accumulates the active rows and divides by their number. */
  method MeanPooling(hidden: seq<Vector>, mask: seq<nat>, dim: nat) returns (r: Vector)
    requires Uniform(hidden, dim)
    ensures |r| == dim && Uniform(Active(hidden, mask, Seen(hidden, mask)), dim)
    ensures forall j :: 0 <= j < dim ==> r[j] == Mean(Active(hidden, mask, Seen(hidden, mask)), j)
  {
    var pooled := new real[dim](_ => 0.0);
    var maskSum := 0.0;
    for i := 0 to Seen(hidden, mask)
      invariant Uniform(Active(hidden, mask, i), dim)
      invariant maskSum == |Active(hidden, mask, i)| as real
      invariant forall j :: 0 <= j < dim ==> pooled[j] == ColumnSum(Active(hidden, mask, i), j)
    {
      ActiveUniform(hidden, mask, i + 1, dim);
      if mask[i] > 0 {
        forall j | 0 <= j < dim
          ensures ColumnSum(Active(hidden, mask, i + 1), j) == ColumnSum(Active(hidden, mask, i), j) + hidden[i][j]
        {
          ColumnSumAppend(Active(hidden, mask, i), hidden[i], j);
        }
        AddRow(pooled, hidden[i]);
        maskSum := maskSum + 1.0;
      } else {
        assert Active(hidden, mask, i + 1) == Active(hidden, mask, i);
      }
    }
    if maskSum > 0.0 {
      DivideBy(pooled, maskSum);
    }
    r := pooled[..];
  }

  // ----- normalization -----

  function Times(x: real, y: real): real {
    x * y
  }

  function Square(x: real): real {
    Times(x, x)
  }

  function Squares(v: Vector): Vector {
    seq(|v|, i requires 0 <= i < |v| => Square(v[i]))
  }

  function Total(s: Vector): real {
    if s == [] then 0.0 else Total(s[..|s| - 1]) + s[|s| - 1]
  }

  lemma {:induction false} TotalScaled(a: Vector, b: Vector, q: real)
    requires |a| == |b| && forall i :: 0 <= i < |a| ==> a[i] == b[i] * q
    ensures Total(a) == Total(b) * q
  {
    if a != [] {
      var k := |a| - 1;
      TotalScaled(a[..k], b[..k], q);
      Distribute(Total(b[..k]), b[k], q);
    }
  }

  lemma Distribute(s: real, t: real, q: real)
    ensures (s + t) * q == s * q + t * q
  {
  }

  lemma {:induction false} TotalZero(a: Vector)
    requires forall i :: 0 <= i < |a| ==> a[i] >= 0.0
    ensures Total(a) >= 0.0
    ensures Total(a) == 0.0 <==> forall i :: 0 <= i < |a| ==> a[i] == 0.0
  {
    if a != [] {
      var k := |a| - 1;
      TotalZero(a[..k]);
      assert forall i :: 0 <= i < k ==> a[..k][i] == a[i];
      if Total(a) == 0.0 {
        forall i | 0 <= i < |a| ensures a[i] == 0.0 {
          if i < k { assert a[..k][i] == 0.0; }
        }
      }
    }
  }

  lemma SquareSign(x: real)
    ensures Square(x) >= 0.0
    ensures x != 0.0 ==> Square(x) > 0.0
  {
    if x != 0.0 {
      TimesSign(x, x);
    }
  }

  lemma TimesSign(x: real, y: real)
    requires (x > 0.0 && y > 0.0) || (x < 0.0 && y < 0.0)
    ensures Times(x, y) > 0.0
  {
  }

  lemma SquaresZero(v: Vector)
    ensures Total(Squares(v)) >= 0.0
    ensures Total(Squares(v)) == 0.0 <==> forall i :: 0 <= i < |v| ==> v[i] == 0.0
  {
    forall i | 0 <= i < |v|
      ensures Squares(v)[i] >= 0.0
      ensures v[i] != 0.0 ==> Squares(v)[i] > 0.0
      ensures v[i] == 0.0 ==> Squares(v)[i] == 0.0
    {
      SquareSign(v[i]);
    }
    TotalZero(Squares(v));
    assert (forall i :: 0 <= i < |v| ==> Squares(v)[i] == 0.0) <==> forall i :: 0 <= i < |v| ==> v[i] == 0.0;
  }

  lemma UnitScale(s: real, q: real, t: real)
    requires q > 0.0 && t == q && t == s * q
    ensures s == 1.0
  {
    assert (s - 1.0) * q == 0.0;
  }

  lemma UnitTotal(a: Vector, b: Vector, q: real)
    requires |a| == |b| && forall i :: 0 <= i < |a| ==> a[i] == b[i] * q
    requires q > 0.0 && Total(a) == q
    ensures Total(b) == 1.0
  {
    TotalScaled(a, b, q);
    UnitScale(Total(b), q, Total(a));
  }

  lemma QuotientSquare(x: real, y: real, n: real, q: real)
    requires n > 0.0 && q == Square(n) && y == x / n
    ensures x == y * n && Square(x) == Square(y) * q
  {
    assert x == y * n;
    assert x * x == (y * n) * (y * n);
  }

  lemma QuotientSquares(v: Vector, w: Vector, n: real, q: real)
    requires n > 0.0 && q == Square(n)
    requires |v| == |w| && forall i :: 0 <= i < |v| ==> w[i] == v[i] / n
    ensures forall i :: 0 <= i < |v| ==> v[i] == w[i] * n
    ensures forall i :: 0 <= i < |v| ==> Squares(v)[i] == Squares(w)[i] * q
  {
    forall i | 0 <= i < |v| ensures v[i] == w[i] * n && Squares(v)[i] == Squares(w)[i] * q {
      QuotientSquare(v[i], w[i], n, q);
    }
  }

  /** `w` has unit length and the direction of `v`, unless `v` is zero and left as it is. */
  ghost predicate IsNormalized(v: Vector, w: Vector, n: real) {
    |w| == |v| &&
    if forall i :: 0 <= i < |v| ==> v[i] == 0.0 then w == v
    else Total(Squares(w)) == 1.0 && forall i :: 0 <= i < |v| ==> v[i] == w[i] * n
  }

  /** Dividing by the root `n` of the sum of squares normalizes, and a root of 0 means a zero vector. */
  lemma DividedIsNormalized(v: Vector, w: Vector, n: real)
    requires n >= 0.0 && Square(n) == Total(Squares(v)) && |w| == |v|
    requires if n > 0.0 then forall i :: 0 <= i < |v| ==> w[i] == v[i] / n else w == v
    ensures IsNormalized(v, w, n)
  {
    SquaresZero(v);
    SquareSign(n);
    if n > 0.0 {
      QuotientSquares(v, w, n, Square(n));
      UnitTotal(Squares(v), Squares(w), Square(n));
    }
  }

  /** `norm` is the root of the sum of squares. */
  method Normalize(v: array<real>, norm: real)
    requires norm >= 0.0 && Square(norm) == Total(Squares(v[..]))
    modifies v
    ensures IsNormalized(old(v[..]), v[..], norm)
  {
    ghost var before := v[..];
    if norm > 0.0 {
      DivideBy(v, norm);
    }
    DividedIsNormalized(before, v[..], norm);
  }
}
