/**
  matrix.go: a row-major matrix of integers. The class keeps the Go struct's
  fields: the row count rs, the column count cs and the backing array es.
  Every arithmetic operation allocates a result, fills it entry by entry and
  returns it; only SetEntry writes into an existing matrix. Each result is
  tied to the Grid function (module Grids) that says what it computes.
*/
module Matrices {
  import opened Options
  import opened Grids
  import Vectors

  class Matrix {
    const rs: nat
    const cs: nat
    const es: array<int>

    /** newMatrix: rows x cols over a fresh copy of the given entries. */
    constructor (rows: nat, cols: nat, src: seq<int>)
      ensures rs == rows && cs == cols
      ensures fresh(es) && es[..] == src
    {
      rs, cs := rows, cols;
      es := new int[|src|](i requires 0 <= i < |src| => src[i]);
    }

    /** The store holds rs*cs entries: DimM and IdentityM give this, and M does when its bras have one length. */
    predicate Valid() {
      es.Length == rs * cs
    }

    /** The matrix as a value. */
    ghost function Value(): (g: Grid)
      reads es
    {
      Grid(rs, cs, es[..])
    }

    /**
      index: the store position of (row, col). A column inside the row
      width is read back by ForEach's i / cs and i % cs, and a valid
      (row, col) lies inside an rs x cs store.
    */
    function Index(row: int, col: int): (i: int)
      ensures 0 <= row && 0 <= col < cs ==> i / cs == row && i % cs == col
      ensures 0 <= row < rs && 0 <= col < cs ==> 0 <= i < rs * cs
    {
      IndexDecodes(rs, cs, row, col);
      Grids.Index(cs, row, col)
    }

    /** Dim: the row and column counts; on a well-shaped matrix their product is the store size. */
    function Dim(): (d: (nat, nat))
      ensures d.0 == rs && d.1 == cs
      ensures Valid() ==> d.0 * d.1 == es.Length
    {
      (rs, cs)
    }

    /** Entry: the stored value at (row, col); on a well-shaped matrix that is entry (row, col) of its value. */
    function Entry(row: int, col: int): (x: int)
      requires 0 <= Index(row, col) < es.Length
      reads es
      ensures Valid() && 0 <= row < rs && 0 <= col < cs ==> x == At(Value(), row, col)
    {
      es[Index(row, col)]
    }

    /** SetEntry: overwrites the one stored entry that (row, col) indexes. */
    method SetEntry(row: int, col: int, entry: int)
      requires 0 <= Index(row, col) < es.Length
      modifies es
      ensures es[..] == old(es[..])[Index(row, col) := entry]
      ensures Entry(row, col) == entry
    {
      es[Index(row, col)] := entry;
    }

    /**
      ForEach: calls fn(i / cs, i % cs, es[i]) for ascending store positions i
      and stops right after the first call that answers false. The calls
      made are returned in order. (Go divides by cs, which must then be
      non-zero.)
    */
    method ForEach(fn: (int, int, int) -> bool) returns (visited: seq<(int, int, int)>)
      requires es.Length > 0 ==> cs > 0
      ensures |visited| <= es.Length
      ensures forall k :: 0 <= k < |visited| ==> visited[k] == (k / cs, k % cs, es[k])
      ensures forall k :: 0 <= k < |visited| - 1 ==> fn(k / cs, k % cs, es[k])
      ensures |visited| < es.Length ==>
        |visited| > 0 && !fn((|visited| - 1) / cs, (|visited| - 1) % cs, es[|visited| - 1])
    {
      visited := [];
      var i := 0;
      while i < es.Length
        invariant i == |visited| <= es.Length
        invariant forall k :: 0 <= k < i ==> visited[k] == (k / cs, k % cs, es[k]) && fn(k / cs, k % cs, es[k])
      {
        var row, col := i / cs, i % cs;
        visited := visited + [(row, col, es[i])];
        if !fn(row, col, es[i]) {
          return;
        }
        i := i + 1;
      }
    }

    /**
      Equals: false on a dimension mismatch; otherwise ok starts false and is
      overwritten by each comparison until one fails. A matrix without
      entries is therefore unequal even to itself.
    */
    method Equals(m: Matrix) returns (ok: bool)
      requires Valid() && m.Valid()
      ensures ok <==> rs == m.rs && cs == m.cs && es.Length > 0 && es[..] == m.es[..]
    {
      var (rows, cols) := Dim();
      var (rows2, cols2) := m.Dim();
      if rows != rows2 || cols != cols2 {
        return false;
      }
      ok := false;
      var i := 0;
      while i < m.es.Length
        invariant 0 <= i <= m.es.Length
        invariant ok <==> i > 0
        invariant es[..i] == m.es[..i]
      {
        var r, c := i / m.cs, i % m.cs;
        Decode(i, m.rs, m.cs);
        ok := Entry(r, c) == m.es[i];
        if !ok {
          assert es[..][i] != m.es[..][i];
          return;
        }
        i := i + 1;
      }
      assert es[..] == es[..i];
    }

    /** MultiplyScalar: a fresh matrix of the same shape with every entry multiplied by s. */
    method MultiplyScalar(s: int) returns (res: Matrix)
      requires Valid()
      ensures fresh(res) && fresh(res.es) && res.Valid()
      ensures res.Value() == Scale(Value(), s)
    {
      res := new Matrix(rs, cs, es[..]);
      var i := 0;
      while i < res.es.Length
        invariant 0 <= i <= res.es.Length == es.Length
        invariant forall k :: 0 <= k < es.Length ==> res.es[k] == if k < i then es[k] * s else es[k]
      {
        var r, c := i / res.cs, i % res.cs;
        Decode(i, rs, cs);
        res.SetEntry(r, c, res.es[i] * s);
        i := i + 1;
      }
      assert res.es[..] == Scale(Value(), s).cells;
    }

    /** Add: nil on a dimension mismatch, else a fresh matrix holding the entrywise sum. */
    method Add(m: Matrix) returns (res: Option<Matrix>)
      requires Valid() && m.Valid()
      ensures res.None? <==> rs != m.rs || cs != m.cs
      ensures res.Some? ==> fresh(res.value) && fresh(res.value.es) && res.value.Valid()
      ensures res.Some? ==> res.value.Value() == Plus(Value(), m.Value())
    {
      var (rows, cols) := Dim();
      var (rows2, cols2) := m.Dim();
      if rows != rows2 || cols != cols2 {
        return None;
      }
      var sum := new Matrix(rows, cols, es[..]);
      var i := 0;
      while i < m.es.Length
        invariant 0 <= i <= m.es.Length
        invariant sum.es.Length == es.Length
        invariant forall k :: 0 <= k < es.Length ==> sum.es[k] == if k < i then es[k] + m.es[k] else es[k]
      {
        var r, c := i / m.cs, i % m.cs;
        Decode(i, m.rs, m.cs);
        var en := sum.Entry(r, c);
        sum.SetEntry(r, c, en + m.es[i]);
        i := i + 1;
      }
      assert sum.es[..] == Plus(Value(), m.Value()).cells;
      res := Some(sum);
    }

    /**
      Multiply: nil unless cs equals m's row count; else the fresh
      rs x m.cs product, each entry summed over the shared dimension.
    */
    method Multiply(m: Matrix) returns (res: Option<Matrix>)
      requires Valid() && m.Valid()
      ensures res.None? <==> cs != m.rs
      ensures res.Some? ==> fresh(res.value) && fresh(res.value.es) && res.value.Valid()
      ensures res.Some? ==> res.value.Value() == Product(Value(), m.Value())
    {
      var (rows, cols) := Dim();
      var (rows2, cols2) := m.Dim();
      if cols != rows2 {
        return None;
      }
      var prod := DimM(rows, cols2);
      ghost var g, h := Value(), m.Value();
      ghost var p := Product(g, h);
      var i := 0;
      while i < prod.es.Length
        invariant 0 <= i <= prod.es.Length == rows * cols2
        invariant es[..] == g.cells && m.es[..] == h.cells
        invariant forall k :: 0 <= k < i ==> prod.es[k] == p.cells[k]
      {
        var r, c := i / cols2, i % cols2;
        Decode(i, rows, cols2);
        var entry := RowTimesColumn(m, r, c);
        assert entry == p.cells[i];
        assert prod.Index(r, c) == i;
        prod.SetEntry(r, c, entry);
        i := i + 1;
      }
      assert prod.es[..] == p.cells;
      res := Some(prod);
    }

    /** The body of Multiply's visitor: row r of this matrix times column c of m. */
    method RowTimesColumn(m: Matrix, r: nat, c: nat) returns (entry: int)
      requires Valid() && m.Valid() && cs == m.rs && r < rs && c < m.cs
      ensures entry == Inner(Value(), m.Value(), r, c, cs)
    {
      entry := 0;
      var i := 0;
      while i < cs
        invariant 0 <= i <= cs
        invariant entry == Inner(Value(), m.Value(), r, c, i)
      {
        IndexInRange(rs, cs, r, i);
        IndexInRange(m.rs, m.cs, i, c);
        entry := entry + Entry(r, i) * m.Entry(i, c);
        i := i + 1;
      }
    }

    /** Transpose: a fresh cs x rs matrix; source entry (r, c) is stored at r + c*rs. */
    method Transpose() returns (res: Matrix)
      requires Valid()
      ensures fresh(res) && fresh(res.es) && res.Valid()
      ensures res.Value() == Transposed(Value())
    {
      res := new Matrix(cs, rs, seq(rs * cs, _ => 0));
      var i := 0;
      while i < es.Length
        invariant 0 <= i <= es.Length
        invariant TransposedUpTo(rs, cs, es[..], res.es[..], i)
      {
        var r, c := i / cs, i % cs;
        TransposeStep(rs, cs, es[..], res.es[..], i);
        res.es[r + c * rs] := es[i];
        i := i + 1;
      }
      TransposeDone(Value(), res.es[..]);
    }

    /** IsIdentity: as written, a stub that answers false for every matrix. */
    predicate IsIdentity(): (r: bool)
      ensures !r
    {
      false
    }
  }

  /** DimM: a fresh m x n matrix of zeros. */
  method DimM(m: nat, n: nat) returns (mx: Matrix)
    ensures fresh(mx) && fresh(mx.es) && mx.Valid()
    ensures mx.Value() == Zero(m, n)
  {
    mx := new Matrix(m, n, seq(m * n, _ => 0));
  }

  /** IdentityM: fills an n*n store, writing 1 where the row i / n equals the column i % n. */
  method IdentityM(n: nat) returns (mx: Matrix)
    ensures fresh(mx) && fresh(mx.es) && mx.Valid()
    ensures mx.Value() == Identity(n)
  {
    var es := new int[n * n](_ => 0);
    var i := 0;
    while i < es.Length
      invariant 0 <= i <= es.Length
      invariant forall k :: 0 <= k < es.Length ==> es[k] == if k < i && k / n == k % n then 1 else 0
    {
      var row, col := i / n, i % n;
      if row == col {
        es[i] := 1;
      }
      i := i + 1;
    }
    mx := new Matrix(n, n, es[..]);
    assert mx.es[..] == Identity(n).cells;
  }

  /** The entries of each bra, in order. */
  ghost function Rows(bras: seq<Vectors.Vector>): (s: seq<seq<int>>)
    reads set v | v in bras :: v.e
  {
    seq(|bras|, k requires 0 <= k < |bras| reads set v | v in bras :: v.e => bras[k].e[..])
  }

  /**
    M: nil for no bras; otherwise |bras| rows of bras[0].Dim() columns over
    the bras' entries appended in order. The bras' lengths are not checked:
    the store has rs*cs entries when they all agree (and may by chance when
    they do not).
  */
  method M(bras: seq<Vectors.Vector>) returns (res: Option<Matrix>)
    ensures res.None? <==> |bras| == 0
    ensures res.Some? ==> fresh(res.value) && fresh(res.value.es)
    ensures res.Some? ==> FromRows(Rows(bras)) == Some(res.value.Value())
    ensures res.Some? && Uniform(Rows(bras), bras[0].Dim()) ==> res.value.Valid()
  {
    var rows := |bras|;
    if rows == 0 {
      return None;
    }
    ghost var all := Rows(bras);
    var entries: seq<int> := [];
    var k := 0;
    while k < |bras|
      invariant 0 <= k <= |bras|
      invariant entries == Concat(all[..k])
    {
      var v := bras[k];
      var j := 0;
      while j < v.e.Length
        invariant 0 <= j <= v.e.Length
        invariant entries == Concat(all[..k]) + v.e[..j]
      {
        entries := entries + [v.e[j]];
        j := j + 1;
      }
      assert all[..k + 1][..k] == all[..k];
      assert v.e[..j] == all[k];
      k := k + 1;
    }
    assert all[..k] == all;
    var mx := new Matrix(rows, bras[0].Dim(), entries);
    if Uniform(all, bras[0].Dim()) {
      ConcatLength(all, bras[0].Dim());
    }
    res := Some(mx);
  }

  /**
    IsIdentity disagrees with its doc-comment: a matrix that holds exactly
    the identity, such as IdentityM(n), is answered false.
  */
  lemma IsIdentityStubDisagrees(mx: Matrix)
    requires mx.Valid() && mx.Value() == Identity(mx.rs)
    ensures IsIdentityGrid(mx.Value()) && !mx.IsIdentity()
  {
    IsIdentityGridExactly(mx.Value());
  }

  /** SetEntry changes only the entry it names: a different valid (r, c) keeps its value. */
  lemma SetEntryLeavesOthers(mx: Matrix, row: nat, col: nat, r: nat, c: nat)
    requires mx.Valid() && row < mx.rs && col < mx.cs && r < mx.rs && c < mx.cs
    requires (r, c) != (row, col)
    ensures 0 <= mx.Index(r, c) < mx.es.Length && 0 <= mx.Index(row, col) < mx.es.Length
    ensures mx.Index(r, c) != mx.Index(row, col)
  {
    // Index decodes back to its (row, col), so two positions that differ have different indices.
    assert mx.Index(r, c) / mx.cs == r && mx.Index(r, c) % mx.cs == c;
  }
}
