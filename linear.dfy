/**
  linear.go: probability amplitudes of a state vector against a pair of kets.
  The function puts the kets into the columns of a d x 2 matrix a, transposes
  it and multiplies the transpose by a matrix built from the state vector.
*/
module Linear {
  import opened Options
  import opened Grids
  import opened Vectors
  import opened Matrices

  /** The d x 2 grid with k1 in column 0 and k2, padded with zeros, in column 1. */
  function Columns(k1: seq<int>, k2: seq<int>): (a: Grid)
    requires |k2| <= |k1|
  {
    Grid(|k1|, 2, seq(|k1| * 2, i requires 0 <= i < |k1| * 2 =>
      if i % 2 == 0 then k1[i / 2] else if i / 2 < |k2| then k2[i / 2] else 0))
  }

  lemma ColumnsAt(k1: seq<int>, k2: seq<int>, i: nat)
    requires |k2| <= |k1| && i < |k1|
    ensures Columns(k1, k2).Shaped()
    ensures At(Columns(k1, k2), i, 0) == k1[i]
    ensures At(Columns(k1, k2), i, 1) == if i < |k2| then k2[i] else 0
  {
    IndexInRange(|k1|, 2, i, 1);
  }

  /**
    The two loops of ProbabiltyAmpl: a := DimM(ket1.Dim(), 2), then
    SetEntry(i, 0, ket1[i]) for every i and SetEntry(i, 1, ket2[i]) for every
    i of ket2; SetEntry stays inside a only when ket2 is no longer than ket1.
  */
  method KetColumns(ket1: Vector, ket2: Vector) returns (a: Matrix)
    requires ket2.Dim() <= ket1.Dim()
    ensures fresh(a) && fresh(a.es) && a.Valid()
    ensures a.Value() == Columns(ket1.e[..], ket2.e[..])
  {
    var d := ket1.Dim();
    a := DimM(d, 2);
    var i := 0;
    while i < ket1.e.Length
      invariant 0 <= i <= d
      invariant forall j :: 0 <= j < 2 * d ==> a.es[j] == if j % 2 == 0 && j / 2 < i then ket1.e[j / 2] else 0
    {
      a.SetEntry(i, 0, ket1.e[i]);
      i := i + 1;
    }
    i := 0;
    while i < ket2.e.Length
      invariant 0 <= i <= ket2.e.Length
      invariant forall j :: 0 <= j < 2 * d ==>
        a.es[j] == if j % 2 == 0 then ket1.e[j / 2] else if j / 2 < i then ket2.e[j / 2] else 0
    {
      a.SetEntry(i, 1, ket2.e[i]);
      i := i + 1;
    }
    assert a.es[..] == Columns(ket1.e[..], ket2.e[..]).cells;
  }

  /** M([]Vector{v}) is the 1 x |v| matrix holding v as its only row. */
  lemma SingleBra(v: Vector)
    ensures Rows([v]) == [v.e[..]]
    ensures FromRows(Rows([v])) == Some(Grid(1, v.Dim(), v.e[..]))
    ensures Uniform(Rows([v]), v.Dim())
  {
    assert Rows([v]) == [v.e[..]];
    ConcatSingle(v.e[..]);
  }

  /**
    The product computed at linear.go:28 when ket1 has one entry: the
    transpose of a is 2 x 1, the row matrix of v is 1 x |v|, and the first
    column of their product is ket1[0]*v[0] over ket2[0]*v[0] (0 for an empty
    ket2).
  */
  lemma {:induction false} RowProduct(k1: seq<int>, k2: seq<int>, vs: seq<int>)
    requires |k1| == 1 && |k2| <= 1 && |vs| >= 1
    ensures Columns(k1, k2).Shaped() && Transposed(Columns(k1, k2)).Shaped()
    ensures Transposed(Columns(k1, k2)).cols == 1
    ensures var p := Product(Transposed(Columns(k1, k2)), Grid(1, |vs|, vs));
      p.Shaped() && p.rows == 2 && p.cols == |vs| &&
      At(p, 0, 0) == k1[0] * vs[0] &&
      At(p, 1, 0) == if |k2| == 1 then k2[0] * vs[0] else 0
  {
    var c := Columns(k1, k2);
    var t := Transposed(c);
    var row := Grid(1, |vs|, vs);
    ColumnsAt(k1, k2, 0);
    TransposedAt(c, 0, 0);
    TransposedAt(c, 0, 1);
    ProductAt(t, row, 0, 0);
    ProductAt(t, row, 1, 0);
    IndexInRange(1, |vs|, 0, 0);
  }

  /**
    ProbabiltyAmpl as written. M([]Vector{v}) is a 1 x v.Dim() row matrix,
    so the Multiply at linear.go:28 returns nil unless ket1 has exactly one
    entry, and the Entry calls then fail; SetEntry(i, 1, ...) fails unless
    ket2 is no longer than ket1; and Entry(0, 0) needs v to be non-empty.
    Under those conditions the result is read off the first column of the
    2 x v.Dim() product. No orthonormality of the kets is checked.
  */
  method ProbabiltyAmpl(v: Vector, ket1: Vector, ket2: Vector) returns (x1: int, x2: int)
    requires ket1.Dim() == 1 && ket2.Dim() <= 1 && v.Dim() >= 1
    ensures x1 == ket1.e[0] * v.e[0]
    ensures x2 == if ket2.Dim() == 1 then ket2.e[0] * v.e[0] else 0
  {
    var a := KetColumns(ket1, ket2);
    var aT := a.Transpose();
    var row := M([v]);
    SingleBra(v);
    RowProduct(ket1.e[..], ket2.e[..], v.e[..]);
    var result := aT.Multiply(row.value);
    x1 := result.value.Entry(0, 0);
    x2 := result.value.Entry(1, 0);
  }

  /**
    With the standard basis kets V([1, 0]) and V([0, 1]) the transpose of a
    is 2 x 2 while the row matrix of any v has one row, so the Multiply at
    linear.go:28 returns nil for every v.
  */
  lemma StandardBasisRowMismatch(vs: seq<int>)
    ensures FromRows([vs]) == Some(Grid(1, |vs|, vs))
    ensures Transposed(Columns([1, 0], [0, 1])).cols != FromRows([vs]).value.rows
  {
    ConcatSingle(vs);
  }

  // ---------------------------------------------------------------------
  // The computation the doc-comment describes: aT * v with v as a column.

  /** Row 0 of aT against the column of v sums ket1[i]*v[i] over the first k indices. */
  lemma {:induction false} ColumnInnerFirst(k1: seq<int>, k2: seq<int>, vs: seq<int>, k: nat)
    requires |k2| <= |k1| == |vs| && k <= |k1|
    ensures Columns(k1, k2).Shaped() && Transposed(Columns(k1, k2)).Shaped()
    ensures Grid(1, |vs|, vs).Shaped() && Transposed(Grid(1, |vs|, vs)).Shaped()
    ensures Inner(Transposed(Columns(k1, k2)), Transposed(Grid(1, |vs|, vs)), 0, 0, k) == Dot(vs, k1[..k])
  {
    if k > 0 {
      ColumnInnerFirst(k1, k2, vs, k - 1);
      FirstRowStep(k1, k2, vs, k - 1);
      assert k1[..k][..k - 1] == k1[..k - 1];
    }
  }

  lemma FirstRowStep(k1: seq<int>, k2: seq<int>, vs: seq<int>, i: nat)
    requires |k2| <= |k1| == |vs| && i < |k1|
    ensures Columns(k1, k2).Shaped() && Transposed(Columns(k1, k2)).Shaped()
    ensures Grid(1, |vs|, vs).Shaped() && Transposed(Grid(1, |vs|, vs)).Shaped()
    ensures var t, col := Transposed(Columns(k1, k2)), Transposed(Grid(1, |vs|, vs));
      Inner(t, col, 0, 0, i + 1) == Inner(t, col, 0, 0, i) + vs[i] * k1[i]
  {
    var c := Columns(k1, k2);
    var row := Grid(1, |vs|, vs);
    ColumnsAt(k1, k2, i);
    TransposedAt(c, i, 0);
    TransposedAt(row, 0, i);
    IndexInRange(1, |vs|, 0, i);
  }

  /** Row 1 of aT against the column of v sums ket2[i]*v[i] over the first k indices ket2 has. */
  lemma {:induction false} ColumnInnerSecond(k1: seq<int>, k2: seq<int>, vs: seq<int>, k: nat)
    requires |k2| <= |k1| == |vs| && k <= |k1|
    ensures Columns(k1, k2).Shaped() && Transposed(Columns(k1, k2)).Shaped()
    ensures Grid(1, |vs|, vs).Shaped() && Transposed(Grid(1, |vs|, vs)).Shaped()
    ensures Inner(Transposed(Columns(k1, k2)), Transposed(Grid(1, |vs|, vs)), 1, 0, k)
      == Dot(vs, k2[..if k < |k2| then k else |k2|])
  {
    var c := Columns(k1, k2);
    var row := Grid(1, |vs|, vs);
    if k > 0 {
      ColumnInnerSecond(k1, k2, vs, k - 1);
      SecondRowStep(k1, k2, vs, k - 1);
      if k - 1 < |k2| {
        assert k2[..k][..k - 1] == k2[..k - 1];
      }
    }
  }

  lemma SecondRowStep(k1: seq<int>, k2: seq<int>, vs: seq<int>, i: nat)
    requires |k2| <= |k1| == |vs| && i < |k1|
    ensures Columns(k1, k2).Shaped() && Transposed(Columns(k1, k2)).Shaped()
    ensures Grid(1, |vs|, vs).Shaped() && Transposed(Grid(1, |vs|, vs)).Shaped()
    ensures var t, col := Transposed(Columns(k1, k2)), Transposed(Grid(1, |vs|, vs));
      Inner(t, col, 1, 0, i + 1) == Inner(t, col, 1, 0, i) + if i < |k2| then vs[i] * k2[i] else 0
  {
    var c := Columns(k1, k2);
    var row := Grid(1, |vs|, vs);
    ColumnsAt(k1, k2, i);
    TransposedAt(c, i, 1);
    TransposedAt(row, 0, i);
    IndexInRange(1, |vs|, 0, i);
  }

  /** The first column of aT * column(v): the inner products of v with ket1 and with ket2. */
  lemma {:induction false} ColumnProduct(k1: seq<int>, k2: seq<int>, vs: seq<int>)
    requires |k2| <= |k1| == |vs|
    ensures Columns(k1, k2).Shaped() && Transposed(Columns(k1, k2)).Shaped()
    ensures Grid(1, |vs|, vs).Shaped() && Transposed(Grid(1, |vs|, vs)).Shaped()
    ensures var p := Product(Transposed(Columns(k1, k2)), Transposed(Grid(1, |vs|, vs)));
      p.Shaped() && p.rows == 2 && p.cols == 1 &&
      At(p, 0, 0) == Dot(vs, k1) && At(p, 1, 0) == Dot(vs, k2)
  {
    var t := Transposed(Columns(k1, k2));
    var col := Transposed(Grid(1, |vs|, vs));
    ColumnInnerFirst(k1, k2, vs, |k1|);
    ColumnInnerSecond(k1, k2, vs, |k1|);
    ProductAt(t, col, 0, 0);
    ProductAt(t, col, 1, 0);
    assert k1[..|k1|] == k1;
    assert k2[..|k2|] == k2;
  }

  /**
    ProbabiltyAmpl with the state vector turned into a d x 1 column, as the
    formula aT * v = [x1, x2] of its doc-comment means: defined for every v
    of the kets' dimension, it returns the inner products of v with the kets.
  */
  method ProbabilityAmplColumn(v: Vector, ket1: Vector, ket2: Vector) returns (x1: int, x2: int)
    requires ket2.Dim() <= ket1.Dim() && v.Dim() == ket1.Dim()
    ensures x1 == Dot(v.e[..], ket1.e[..])
    ensures x2 == Dot(v.e[..], ket2.e[..])
  {
    var a := KetColumns(ket1, ket2);
    var aT := a.Transpose();
    var row := M([v]);
    SingleBra(v);
    var column := row.value.Transpose();
    ColumnProduct(ket1.e[..], ket2.e[..], v.e[..]);
    var result := aT.Multiply(column);
    IndexInRange(2, 1, 1, 0);
    x1 := result.value.Entry(0, 0);
    x2 := result.value.Entry(1, 0);
  }

  /**
    For an orthonormal pair of kets, the inner products recover the
    coefficients: if v = x1*ket1 + x2*ket2 then v.ket1 == x1 and v.ket2 == x2.
  */
  lemma AmplitudesRecoverCoefficients(k1: seq<int>, k2: seq<int>, x1: int, x2: int)
    requires |k1| == |k2|
    requires Dot(k1, k1) == 1 && Dot(k2, k2) == 1 && Dot(k1, k2) == 0
    ensures Dot(Vectors.Plus(Scaled(k1, x1), Scaled(k2, x2)), k1) == x1
    ensures Dot(Vectors.Plus(Scaled(k1, x1), Scaled(k2, x2)), k2) == x2
  {
    DotPlus(Scaled(k1, x1), Scaled(k2, x2), k1);
    DotPlus(Scaled(k1, x1), Scaled(k2, x2), k2);
    DotScaled(k1, x1, k1);
    DotScaled(k2, x2, k1);
    DotScaled(k1, x1, k2);
    DotScaled(k2, x2, k2);
    DotCommutes(k2, k1);
  }

  /** The standard basis: the amplitudes of a 2-dimensional v are its own entries. */
  lemma StandardBasisAmplitudes(vs: seq<int>)
    requires |vs| == 2
    ensures Dot(vs, [1, 0]) == vs[0] && Dot(vs, [0, 1]) == vs[1]
  {
    assert [1, 0][..1] == [1] && [0, 1][..1] == [0];
  }
}
