/**
  The value semantics of matrix.go. A Grid is what a matrix object holds:
  its row count, its column count and its row-major store. The functions
  here say what each constructor and each arithmetic operation of the
  Matrix class computes; the lemmas state the algebra the library is for.
*/
module Grids {
  import opened Options

  /** rows x cols entries stored row-major: entry (r, c) lives at cols*r + c. */
  datatype Grid = Grid(rows: nat, cols: nat, cells: seq<int>) {
    /** The store holds exactly rows*cols entries. */
    predicate Shaped() {
      |cells| == rows * cols
    }
  }

  /** The position of (row, col) in a row-major store with `cols` columns. */
  function Index(cols: int, row: int, col: int): (i: int) {
    cols * row + col
  }

  /** Euclidean division undoes Index: (q, r) is recovered from n*q + r. */
  lemma {:induction false} DivModUnique(n: nat, q: nat, r: nat)
    requires r < n
    ensures (n * q + r) / n == q && (n * q + r) % n == r
  {
    var i := n * q + r;
    var d, m := i / n, i % n;
    assert i == n * d + m && 0 <= m < n;
    if d > q {
      assert n * d >= n * (q + 1) by { MulMonotone(n, q + 1, d); }
      assert false;
    } else if d < q {
      assert n * q >= n * (d + 1) by { MulMonotone(n, d + 1, q); }
      assert false;
    }
  }

  lemma MulMonotone(n: nat, a: int, b: int)
    requires a <= b
    ensures n * a <= n * b
  {
  }

  /** Every position of a rows x cols store is the Index of a valid (row, col). */
  lemma {:induction false} Decode(i: int, rows: nat, cols: nat)
    requires 0 <= i < rows * cols
    ensures cols > 0 && 0 <= i / cols < rows && 0 <= i % cols < cols
    ensures Index(cols, i / cols, i % cols) == i
  {
    assert cols > 0;
    var d := i / cols;
    assert i == cols * d + i % cols;
    if d >= rows {
      assert cols * d >= cols * rows by { MulMonotone(cols, rows, d); }
      assert false;
    }
  }

  /** A valid (row, col) has its Index inside a rows x cols store. */
  lemma {:induction false} IndexInRange(rows: nat, cols: nat, r: nat, c: nat)
    requires r < rows && c < cols
    ensures 0 <= Index(cols, r, c) < rows * cols
  {
    assert cols * r + c < cols * (r + 1);
    MulMonotone(cols, r + 1, rows);
  }

  /** Distinct valid positions have distinct indices. */
  lemma {:induction false} IndexInjective(cols: nat, r: nat, c: nat, r': nat, c': nat)
    requires c < cols && c' < cols
    requires Index(cols, r, c) == Index(cols, r', c')
    ensures r == r' && c == c'
  {
    DivModUnique(cols, r, c);
    DivModUnique(cols, r', c');
  }

  /** The facts about Index a matrix's index function promises, for any integer (row, col). */
  lemma IndexDecodes(rows: nat, cols: nat, row: int, col: int)
    ensures 0 <= row && 0 <= col < cols ==> Index(cols, row, col) / cols == row && Index(cols, row, col) % cols == col
    ensures 0 <= row < rows && 0 <= col < cols ==> 0 <= Index(cols, row, col) < rows * cols
  {
    if 0 <= row && 0 <= col < cols {
      DivModUnique(cols, row, col);
      if row < rows {
        IndexInRange(rows, cols, row, col);
      }
    }
  }

  /** Entry (r, c) of a shaped grid. */
  function At(g: Grid, r: nat, c: nat): (x: int)
    requires g.Shaped() && r < g.rows && c < g.cols
  {
    IndexInRange(g.rows, g.cols, r, c);
    g.cells[Index(g.cols, r, c)]
  }

  /** Two shaped grids of one shape that agree entry by entry are equal. */
  lemma {:induction false} Extensionality(g: Grid, h: Grid)
    requires g.Shaped() && h.Shaped() && g.rows == h.rows && g.cols == h.cols
    requires forall r: nat, c: nat :: r < g.rows && c < g.cols ==> At(g, r, c) == At(h, r, c)
    ensures g == h
  {
    forall i | 0 <= i < |g.cells|
      ensures g.cells[i] == h.cells[i]
    {
      Decode(i, g.rows, g.cols);
      assert At(g, i / g.cols, i % g.cols) == At(h, i / g.cols, i % g.cols);
    }
  }

  // ---------------------------------------------------------------------
  // Constructors

  /** DimM(m, n): m x n zeros. */
  function Zero(m: nat, n: nat): (z: Grid) {
    Grid(m, n, seq(m * n, _ => 0))
  }

  /** IdentityM(n): the store position i holds 1 exactly when i / n == i % n. */
  function Identity(n: nat): (e: Grid) {
    Grid(n, n, seq(n * n, i requires 0 <= i < n * n => if i / n == i % n then 1 else 0))
  }

  lemma ZeroAt(m: nat, n: nat, r: nat, c: nat)
    requires r < m && c < n
    ensures Zero(m, n).Shaped() && At(Zero(m, n), r, c) == 0
  {
    IndexInRange(m, n, r, c);
  }

  lemma {:induction false} IdentityAt(n: nat, r: nat, c: nat)
    requires r < n && c < n
    ensures Identity(n).Shaped()
    ensures At(Identity(n), r, c) == if r == c then 1 else 0
  {
    IndexInRange(n, n, r, c);
    DivModUnique(n, r, c);
  }

  /** M(bras): the bras' entries appended one after the other. */
  function Concat(rows: seq<seq<int>>): (s: seq<int>) {
    if |rows| == 0 then [] else Concat(rows[..|rows| - 1]) + rows[|rows| - 1]
  }

  lemma ConcatSingle(row: seq<int>)
    ensures Concat([row]) == row
  {
    assert [row][..0] == [];
  }

  /** Every row has n entries. */
  predicate Uniform(rows: seq<seq<int>>, n: nat) {
    forall k :: 0 <= k < |rows| ==> |rows[k]| == n
  }

  /** M(bras): nil for no bras, else |bras| rows of bras[0]'s length over the concatenation. */
  function FromRows(rows: seq<seq<int>>): (o: Option<Grid>) {
    if |rows| == 0 then None else Some(Grid(|rows|, |rows[0]|, Concat(rows)))
  }

  lemma {:induction false} ConcatLength(rows: seq<seq<int>>, n: nat)
    requires Uniform(rows, n)
    ensures |Concat(rows)| == |rows| * n
  {
    if |rows| > 0 {
      var front := rows[..|rows| - 1];
      ConcatLength(front, n);
      assert |Concat(rows)| == |front| * n + n;
      assert |front| * n + n == (|front| + 1) * n;
    }
  }

  /** Entry c of row r sits at position n*r + c of the concatenation. */
  lemma {:induction false} ConcatAt(rows: seq<seq<int>>, n: nat, r: nat, c: nat)
    requires Uniform(rows, n) && r < |rows| && c < n
    ensures |Concat(rows)| == |rows| * n && n * r + c < |Concat(rows)|
    ensures Concat(rows)[n * r + c] == rows[r][c]
  {
    ConcatLength(rows, n);
    IndexInRange(|rows|, n, r, c);
    var front := rows[..|rows| - 1];
    ConcatLength(front, n);
    assert Concat(rows) == Concat(front) + rows[|rows| - 1];
    if r < |front| {
      ConcatAt(front, n, r, c);
      assert front[r] == rows[r];
    } else {
      assert n * r == |Concat(front)|;
    }
  }

  /** Bras of one length make a shaped grid whose (r, c) entry is entry c of bras[r]. */
  lemma FromRowsAt(rows: seq<seq<int>>)
    requires |rows| > 0 && Uniform(rows, |rows[0]|)
    ensures FromRows(rows).Some? && FromRows(rows).value.Shaped()
    ensures forall r: nat, c: nat :: r < |rows| && c < |rows[0]| ==> At(FromRows(rows).value, r, c) == rows[r][c]
  {
    ConcatLength(rows, |rows[0]|);
    forall r: nat, c: nat | r < |rows| && c < |rows[0]|
      ensures At(FromRows(rows).value, r, c) == rows[r][c]
    {
      ConcatAt(rows, |rows[0]|, r, c);
    }
  }

  // ---------------------------------------------------------------------
  // Arithmetic

  /** MultiplyScalar(s): every stored entry e becomes e*s. */
  function Scale(g: Grid, s: int): (p: Grid) {
    Grid(g.rows, g.cols, seq(|g.cells|, i requires 0 <= i < |g.cells| => g.cells[i] * s))
  }

  /** Add: the entrywise sum of two grids of one shape. */
  function Plus(g: Grid, h: Grid): (p: Grid)
    requires g.Shaped() && h.Shaped() && g.rows == h.rows && g.cols == h.cols
  {
    Grid(g.rows, g.cols, seq(|g.cells|, i requires 0 <= i < |g.cells| => g.cells[i] + h.cells[i]))
  }

  /** The sum over i < k of g(r, i) * h(i, c): the accumulation of Multiply's inner loop. */
  function Inner(g: Grid, h: Grid, r: nat, c: nat, k: nat): (x: int)
    requires g.Shaped() && h.Shaped() && g.cols == h.rows
    requires r < g.rows && c < h.cols && k <= g.cols
  {
    if k == 0 then 0 else Inner(g, h, r, c, k - 1) + At(g, r, k - 1) * At(h, k - 1, c)
  }

  /** Multiply: the rows x cols2 grid whose store position i holds the inner sum for (i / cols2, i % cols2). */
  function Product(g: Grid, h: Grid): (p: Grid)
    requires g.Shaped() && h.Shaped() && g.cols == h.rows
  {
    Grid(g.rows, h.cols, seq(g.rows * h.cols, i requires 0 <= i < g.rows * h.cols =>
      Decode(i, g.rows, h.cols);
      Inner(g, h, i / h.cols, i % h.cols, g.cols)))
  }

  /** Transpose: cols x rows, store position j holds entry (j % rows, j / rows) of g. */
  function Transposed(g: Grid): (t: Grid)
    requires g.Shaped()
  {
    Grid(g.cols, g.rows, seq(g.rows * g.cols, j requires 0 <= j < g.rows * g.cols =>
      Decode(j, g.cols, g.rows);
      At(g, j % g.rows, j / g.rows)))
  }

  lemma ScaleAt(g: Grid, s: int, r: nat, c: nat)
    requires g.Shaped() && r < g.rows && c < g.cols
    ensures Scale(g, s).Shaped() && At(Scale(g, s), r, c) == At(g, r, c) * s
  {
    IndexInRange(g.rows, g.cols, r, c);
  }

  lemma PlusAt(g: Grid, h: Grid, r: nat, c: nat)
    requires g.Shaped() && h.Shaped() && g.rows == h.rows && g.cols == h.cols
    requires r < g.rows && c < g.cols
    ensures Plus(g, h).Shaped() && At(Plus(g, h), r, c) == At(g, r, c) + At(h, r, c)
  {
    IndexInRange(g.rows, g.cols, r, c);
  }

  lemma PlusCommutes(g: Grid, h: Grid)
    requires g.Shaped() && h.Shaped() && g.rows == h.rows && g.cols == h.cols
    ensures Plus(g, h) == Plus(h, g)
  {
  }

  lemma ScaleTwice(g: Grid, s: int, t: int)
    ensures Scale(Scale(g, s), t) == Scale(g, s * t)
  {
  }

  /** Entry (r, c) of a product is the inner sum over the shared dimension. */
  lemma {:induction false} ProductAt(g: Grid, h: Grid, r: nat, c: nat)
    requires g.Shaped() && h.Shaped() && g.cols == h.rows
    requires r < g.rows && c < h.cols
    ensures Product(g, h).Shaped()
    ensures At(Product(g, h), r, c) == Inner(g, h, r, c, g.cols)
  {
    IndexInRange(g.rows, h.cols, r, c);
    DivModUnique(h.cols, r, c);
  }

  lemma {:induction false} TransposedAt(g: Grid, r: nat, c: nat)
    requires g.Shaped() && r < g.rows && c < g.cols
    ensures Transposed(g).Shaped()
    ensures At(Transposed(g), c, r) == At(g, r, c)
  {
    IndexInRange(g.cols, g.rows, c, r);
    DivModUnique(g.rows, c, r);
  }

  /**
    Where Transpose finds the entry it stores at position j of the cols x rows
    result: entry (j % rows, j / rows) of the rows x cols source.
  */
  function TransposeSource(rows: nat, cols: nat, j: int): (i: int)
    requires 0 <= j < rows * cols
    ensures 0 <= i < rows * cols
  {
    Decode(j, cols, rows);
    IndexInRange(rows, cols, j % rows, j / rows);
    Index(cols, j % rows, j / rows)
  }

  /** Transpose stores source position i at i / cols + (i % cols) * rows, and reading that back gives i. */
  lemma {:induction false} TransposeTarget(rows: nat, cols: nat, i: int)
    requires 0 <= i < rows * cols
    ensures cols > 0 && rows > 0
    ensures 0 <= i / cols + (i % cols) * rows < rows * cols
    ensures TransposeSource(rows, cols, i / cols + (i % cols) * rows) == i
  {
    Decode(i, rows, cols);
    var r, c := i / cols, i % cols;
    IndexInRange(cols, rows, c, r);
    assert r + c * rows == Index(rows, c, r);
    DivModUnique(rows, c, r);
  }

  /** Every position j of the result is the target of its source position. */
  lemma {:induction false} TransposeSourceTarget(rows: nat, cols: nat, j: int)
    requires 0 <= j < rows * cols
    ensures 0 <= TransposeSource(rows, cols, j) < rows * cols
    ensures var i := TransposeSource(rows, cols, j); i / cols + (i % cols) * rows == j
  {
    Decode(j, cols, rows);
    var c, r := j / rows, j % rows;
    IndexInRange(rows, cols, r, c);
    DivModUnique(cols, r, c);
  }

  /** The state of Transpose's store after the first i source positions have been copied. */
  ghost predicate TransposedUpTo(rows: nat, cols: nat, src: seq<int>, dst: seq<int>, i: int) {
    |src| == rows * cols && |dst| == rows * cols &&
    forall j :: 0 <= j < rows * cols ==>
      dst[j] == if TransposeSource(rows, cols, j) < i then src[TransposeSource(rows, cols, j)] else 0
  }

  /** Copying source position i to its target extends the copied prefix by one. */
  lemma TransposeStep(rows: nat, cols: nat, src: seq<int>, dst: seq<int>, i: nat)
    requires i < rows * cols && TransposedUpTo(rows, cols, src, dst, i)
    ensures cols > 0 && 0 <= i / cols + (i % cols) * rows < rows * cols
    ensures TransposedUpTo(rows, cols, src, dst[i / cols + (i % cols) * rows := src[i]], i + 1)
  {
    TransposeTarget(rows, cols, i);
    var t := i / cols + (i % cols) * rows;
    var dst' := dst[t := src[i]];
    forall j | 0 <= j < rows * cols
      ensures dst'[j] == if TransposeSource(rows, cols, j) < i + 1 then src[TransposeSource(rows, cols, j)] else 0
    {
      TransposeSourceTarget(rows, cols, j);
    }
  }

  /** Once every source position is copied, the store is the transposed grid's. */
  lemma TransposeDone(g: Grid, dst: seq<int>)
    requires g.Shaped() && TransposedUpTo(g.rows, g.cols, g.cells, dst, g.rows * g.cols)
    ensures dst == Transposed(g).cells
  {
    forall j | 0 <= j < g.rows * g.cols
      ensures dst[j] == Transposed(g).cells[j]
    {
      TransposeSourceTarget(g.rows, g.cols, j);
    }
  }

  /** Transposing twice restores every entry. */
  lemma {:induction false} TransposeTwice(g: Grid)
    requires g.Shaped()
    ensures Transposed(g).Shaped() && Transposed(Transposed(g)) == g
  {
    var t := Transposed(g);
    forall r: nat, c: nat | r < g.rows && c < g.cols
      ensures At(Transposed(t), r, c) == At(g, r, c)
    {
      TransposedAt(g, r, c);
      TransposedAt(t, c, r);
    }
    Extensionality(Transposed(t), g);
  }

  lemma {:induction false} InnerIdentity(g: Grid, r: nat, c: nat, k: nat)
    requires g.Shaped() && r < g.rows && c < g.cols && k <= g.rows
    ensures Inner(Identity(g.rows), g, r, c, k) == if r < k then At(g, r, c) else 0
  {
    if k > 0 {
      InnerIdentity(g, r, c, k - 1);
      IdentityAt(g.rows, r, k - 1);
    }
  }

  /** IdentityM(n).Multiply(m) is m for every n x k matrix m. */
  lemma {:induction false} IdentityLeft(g: Grid)
    requires g.Shaped()
    ensures Identity(g.rows).Shaped() && Product(Identity(g.rows), g) == g
  {
    var p := Product(Identity(g.rows), g);
    forall r: nat, c: nat | r < g.rows && c < g.cols
      ensures At(p, r, c) == At(g, r, c)
    {
      ProductAt(Identity(g.rows), g, r, c);
      InnerIdentity(g, r, c, g.rows);
    }
    Extensionality(p, g);
  }

  lemma {:induction false} InnerTransposed(a: Grid, b: Grid, r: nat, c: nat, k: nat)
    requires a.Shaped() && b.Shaped() && a.cols == b.rows
    requires r < a.rows && c < b.cols && k <= a.cols
    ensures Transposed(a).Shaped() && Transposed(b).Shaped()
    ensures Inner(a, b, r, c, k) == Inner(Transposed(b), Transposed(a), c, r, k)
  {
    TransposeShape(a);
    TransposeShape(b);
    if k > 0 {
      var at, bt := Transposed(a), Transposed(b);
      InnerTransposed(a, b, r, c, k - 1);
      TransposedAt(a, r, k - 1);
      TransposedAt(b, k - 1, c);
      var x, y := At(a, r, k - 1), At(b, k - 1, c);
      assert At(bt, c, k - 1) * At(at, k - 1, r) == y * x == x * y;
      assert Inner(bt, at, c, r, k) == Inner(bt, at, c, r, k - 1) + At(bt, c, k - 1) * At(at, k - 1, r);
    }
  }

  lemma TransposeShape(g: Grid)
    requires g.Shaped()
    ensures Transposed(g).Shaped() && Transposed(g).rows == g.cols && Transposed(g).cols == g.rows
  {
  }

  /** (a*b)^T == b^T * a^T. */
  lemma {:induction false} ProductTransposed(a: Grid, b: Grid)
    requires a.Shaped() && b.Shaped() && a.cols == b.rows
    ensures Product(a, b).Shaped() && Transposed(a).Shaped() && Transposed(b).Shaped()
    ensures Transposed(Product(a, b)) == Product(Transposed(b), Transposed(a))
  {
    TransposeShape(a);
    TransposeShape(b);
    var p := Product(a, b);
    var q := Product(Transposed(b), Transposed(a));
    forall c: nat, r: nat | c < b.cols && r < a.rows
      ensures At(Transposed(p), c, r) == At(q, c, r)
    {
      ProductAt(a, b, r, c);
      TransposedAt(p, r, c);
      ProductAt(Transposed(b), Transposed(a), c, r);
      InnerTransposed(a, b, r, c, a.cols);
    }
    Extensionality(Transposed(p), q);
  }

  // ---------------------------------------------------------------------
  // Identity detection

  /** What the doc-comment of IsIdentity describes: square, 1 on the diagonal, 0 elsewhere. */
  predicate IsIdentityGrid(g: Grid)
    requires g.Shaped()
  {
    g.rows == g.cols &&
    forall r: nat, c: nat :: r < g.rows && c < g.cols ==> At(g, r, c) == if r == c then 1 else 0
  }

  /** The diagonal check accepts exactly the identity grids. */
  lemma IsIdentityGridExactly(g: Grid)
    requires g.Shaped()
    ensures IsIdentityGrid(g) <==> g == Identity(g.rows)
  {
    if IsIdentityGrid(g) {
      forall r: nat, c: nat | r < g.rows && c < g.cols
        ensures At(Identity(g.rows), r, c) == At(g, r, c)
      {
        IdentityAt(g.rows, r, c);
      }
      Extensionality(Identity(g.rows), g);
    }
    if g == Identity(g.rows) {
      forall r: nat, c: nat | r < g.rows && c < g.cols
        ensures At(g, r, c) == if r == c then 1 else 0
      {
        IdentityAt(g.rows, r, c);
      }
    }
  }
}
