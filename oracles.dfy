/**
  The concrete values the repository's tests expect, derived here from the
  contracts of the model. Each method builds its inputs the way the test
  does and returns what the test observes.
*/
module Oracles {
  import opened Options
  import opened Grids
  import opened Vectors
  import opened Matrices

  /** The number of calls in a trace and the sum of the values they were given. */
  function CountAndSum(visited: seq<(int, int)>): (p: (int, int)) {
    if |visited| == 0 then (0, 0)
    else
      var (n, s) := CountAndSum(visited[..|visited| - 1]);
      (n + 1, s + visited[|visited| - 1].1)
  }

  /** V({1, 2}).ForEach: a visitor that always continues sees both entries, one that stops sees the first only. */
  method VectorForEachOnOneTwo() returns (all: (int, int), first: (int, int))
    ensures all == (2, 3) && first == (1, 1)
  {
    var src := new int[2];
    src[0], src[1] := 1, 2;
    var v := V(src);
    assert v.e[..] == [1, 2];
    var visitedAll := v.ForEach((i, n) => true);
    var stop := (i: int, n: int) => false;
    var visitedFirst := v.ForEach(stop);
    assert visitedAll == [(0, 1), (1, 2)];
    assert !stop(0, v.e[0]);
    assert |visitedFirst| == 1;
    assert visitedFirst == [(0, 1)];
    assert visitedFirst[..0] == [];
    assert CountAndSum(visitedFirst) == (1, 1);
    assert visitedAll[..1] == visitedFirst;
    all := CountAndSum(visitedAll);
    first := CountAndSum(visitedFirst);
  }

  /** Two empty vectors compare equal, because Equals starts from true. */
  method EmptyVectorsEqual() returns (ok: bool)
    ensures ok
  {
    var a := DimV(0);
    var b := DimV(0);
    ok := a.Equals(b);
  }

  /** Two 0 x 0 matrices compare unequal, because Equals starts from false and visits nothing. */
  method EmptyMatricesUnequal() returns (ok: bool)
    ensures !ok
  {
    var a := DimM(0, 0);
    var b := DimM(0, 0);
    ok := a.Equals(b);
  }

  /** DimM(2, 2) equals DimM(2, 2) but not DimM(3, 2). */
  method ZeroMatricesCompare() returns (same: bool, taller: bool)
    ensures same && !taller
  {
    var a := DimM(2, 2);
    var b := DimM(2, 2);
    var c := DimM(3, 2);
    same := a.Equals(b);
    taller := a.Equals(c);
  }

  /**
    IdentityM(2).ForEach: a visitor that always continues is called 4 times
    and sees entries summing to 2; one that stops is called once and sees 1.
  */
  method IdentityForEach() returns (calls: nat, sum: int, stoppedCalls: nat, stoppedSum: int)
    ensures calls == 4 && sum == 2 && stoppedCalls == 1 && stoppedSum == 1
  {
    var id := IdentityM(2);
    assert id.es[..] == [1, 0, 0, 1];
    var visited := id.ForEach((r, c, e) => true);
    assert |visited| == 4;
    calls := |visited|;
    sum := visited[0].2 + visited[1].2 + visited[2].2 + visited[3].2;
    var stopped := id.ForEach((r, c, e) => false);
    stoppedCalls := |stopped|;
    stoppedSum := stopped[0].2;
  }

  /** Vector inner products of the tests: {1,0} is unit, {1,1} and {0,2} are not, {1,0} and {0,1} are orthogonal. */
  method UnitAndOrthogonal() returns (unit10: bool, unit11: bool, unit02: bool, orth: bool, orthSelf: bool)
    ensures unit10 && !unit11 && !unit02 && orth && !orthSelf
  {
    var va := Pair(1, 0);
    var vb := Pair(1, 1);
    var vc := Pair(0, 2);
    var vd := Pair(0, 1);
    PairDot(1, 0, 1, 0);
    PairDot(1, 1, 1, 1);
    PairDot(0, 2, 0, 2);
    PairDot(1, 0, 0, 1);
    unit10 := va.IsUnit();
    unit11 := vb.IsUnit();
    unit02 := vc.IsUnit();
    orth := va.IsOrthogonal(vd);
    orthSelf := va.IsOrthogonal(va);
  }

  /** V({x, y}). */
  method Pair(x: int, y: int) returns (v: Vector)
    ensures fresh(v) && v.e[..] == [x, y]
  {
    var src := new int[2];
    src[0], src[1] := x, y;
    v := V(src);
  }

  lemma PairDot(a: int, b: int, c: int, d: int)
    ensures Dot([a, b], [c, d]) == a * c + b * d
  {
    assert [c, d][..1] == [c];
    assert [c][..0] == [];
    assert Dot([a, b], [c]) == a * c;
  }

  /** V({1, 0, 3}).Add(V({2, 5, -4})) equals V({3, 5, -1}). */
  method VectorAddExample() returns (ok: bool)
    ensures ok
  {
    var va := Triple(1, 0, 3);
    var vb := Triple(2, 5, -4);
    var vc := Triple(3, 5, -1);
    var sum := va.Add(vb);
    assert sum.e[..] == [3, 5, -1];
    ok := sum.Equals(vc);
  }

  /** V({x, y, z}). */
  method Triple(x: int, y: int, z: int) returns (v: Vector)
    ensures fresh(v) && v.e[..] == [x, y, z]
  {
    var src := new int[3];
    src[0], src[1], src[2] := x, y, z;
    v := V(src);
  }

  /**
    The product of a 2 x 3 and a 3 x 2 matrix, entry by entry;
    matrix_test.go:172-187 checks it for [[1,-4,2],[2,3,0]] * [[1,2],[7,5],[6,1]].
  */
  lemma MultiplyTwoByThree(g: Grid, h: Grid)
    requires g.rows == 2 && g.cols == 3 && g.Shaped()
    requires h.rows == 3 && h.cols == 2 && h.Shaped()
    ensures Product(g, h) == Grid(2, 2, [
      ProductCell(g.cells, h.cells, 0, 0), ProductCell(g.cells, h.cells, 0, 1),
      ProductCell(g.cells, h.cells, 1, 0), ProductCell(g.cells, h.cells, 1, 1)])
  {
    ProductRow(g, h, 0);
    ProductRow(g, h, 1);
  }

  /** Row r of a times column c of b, for a 2 x 3 store a and a 3 x 2 store b. */
  function ProductCell(a: seq<int>, b: seq<int>, r: nat, c: nat): (x: int)
    requires |a| == 6 && |b| == 6 && r < 2 && c < 2
  {
    a[3 * r] * b[c] + a[3 * r + 1] * b[2 + c] + a[3 * r + 2] * b[4 + c]
  }

  /** Row r of the product of a 2 x 3 and a 3 x 2 grid. */
  lemma ProductRow(g: Grid, h: Grid, r: nat)
    requires g.rows == 2 && g.cols == 3 && g.Shaped()
    requires h.rows == 3 && h.cols == 2 && h.Shaped() && r < 2
    ensures Product(g, h).rows == 2 && Product(g, h).cols == 2 && |Product(g, h).cells| == 4
    ensures Product(g, h).cells[2 * r] == ProductCell(g.cells, h.cells, r, 0)
    ensures Product(g, h).cells[2 * r + 1] == ProductCell(g.cells, h.cells, r, 1)
  {
    ProductStore(g, h, r, 0);
    ProductStore(g, h, r, 1);
  }

  /** Store position 2*r + c of the product of a 2 x 3 and a 3 x 2 grid. */
  lemma ProductStore(g: Grid, h: Grid, r: nat, c: nat)
    requires g.rows == 2 && g.cols == 3 && g.Shaped()
    requires h.rows == 3 && h.cols == 2 && h.Shaped() && r < 2 && c < 2
    ensures Product(g, h).rows == 2 && Product(g, h).cols == 2 && |Product(g, h).cells| == 4
    ensures Product(g, h).cells[2 * r + c] == ProductCell(g.cells, h.cells, r, c)
  {
    ProductAt(g, h, r, c);
    InnerThree(g, h, r, c);
  }

  /** The inner sum over a shared dimension of 3, written out. */
  lemma InnerThree(g: Grid, h: Grid, r: nat, c: nat)
    requires g.Shaped() && h.Shaped() && g.cols == h.rows == 3 && h.cols == 2 && r < g.rows && c < 2
    ensures Inner(g, h, r, c, 3) == g.cells[3 * r] * h.cells[c] + g.cells[3 * r + 1] * h.cells[2 + c] + g.cells[3 * r + 2] * h.cells[4 + c]
  {
    assert Inner(g, h, r, c, 1) == At(g, r, 0) * At(h, 0, c);
    assert Inner(g, h, r, c, 2) == Inner(g, h, r, c, 1) + At(g, r, 1) * At(h, 1, c);
  }

  /**
    The transpose of a 2 x 3 matrix [[a, b, c], [d, e, f]] is [[a, d], [b, e], [c, f]];
    matrix_test.go:189-200 checks it for [[1,-4,2],[2,3,0]].
  */
  lemma TransposeTwoByThree(g: Grid)
    requires g.rows == 2 && g.cols == 3 && g.Shaped()
    ensures Transposed(g) == Grid(3, 2, [g.cells[0], g.cells[3], g.cells[1], g.cells[4], g.cells[2], g.cells[5]])
  {
    TransposedRow(g, 0);
    TransposedRow(g, 1);
    TransposedRow(g, 2);
    ThreeByTwo(Transposed(g));
  }

  /** Row c of the transpose of a 2 x 3 grid is column c of the grid. */
  lemma TransposedRow(g: Grid, c: nat)
    requires g.rows == 2 && g.cols == 3 && g.Shaped() && c < 3
    ensures Transposed(g).Shaped() && Transposed(g).rows == 3 && Transposed(g).cols == 2
    ensures At(Transposed(g), c, 0) == g.cells[c] && At(Transposed(g), c, 1) == g.cells[3 + c]
  {
    TransposedAt(g, 0, c);
    TransposedAt(g, 1, c);
  }

  /** A 3 x 2 grid is the row-major list of its six entries. */
  lemma ThreeByTwo(p: Grid)
    requires p.rows == 3 && p.cols == 2 && p.Shaped()
    ensures p.cells == [At(p, 0, 0), At(p, 0, 1), At(p, 1, 0), At(p, 1, 1), At(p, 2, 0), At(p, 2, 1)]
  {
  }

  /** Test_Matrix_Multiply's numbers: [[1,-4,2],[2,3,0]] times [[1,2],[7,5],[6,1]]. */
  lemma MultiplyTestNumbers()
    ensures Product(Grid(2, 3, [1, -4, 2, 2, 3, 0]), Grid(3, 2, [1, 2, 7, 5, 6, 1])) == Grid(2, 2, [-15, -16, 23, 19])
  {
    MultiplyTwoByThree(Grid(2, 3, [1, -4, 2, 2, 3, 0]), Grid(3, 2, [1, 2, 7, 5, 6, 1]));
  }

  /** Test_Matrix_Transpose's numbers: [[1,-4,2],[2,3,0]] transposed. */
  lemma TransposeTestNumbers()
    ensures Transposed(Grid(2, 3, [1, -4, 2, 2, 3, 0])) == Grid(3, 2, [1, 2, -4, 3, 2, 0])
  {
    TransposeTwoByThree(Grid(2, 3, [1, -4, 2, 2, 3, 0]));
  }

  /** Test_Matrix_Transpose_2's numbers: [[1,2],[-4,3],[2,0]] transposed back. */
  lemma TransposeBackTestNumbers()
    ensures Transposed(Grid(3, 2, [1, 2, -4, 3, 2, 0])) == Grid(2, 3, [1, -4, 2, 2, 3, 0])
  {
    TransposeTestNumbers();
    TransposeTwice(Grid(2, 3, [1, -4, 2, 2, 3, 0]));
  }

  /** Test_Matrix_Add's numbers: [[1,-4,2],[2,3,0]] plus [[1,2,0],[7,-3,17]]. */
  lemma AddTestNumbers()
    ensures Grids.Plus(Grid(2, 3, [1, -4, 2, 2, 3, 0]), Grid(2, 3, [1, 2, 0, 7, -3, 17])) == Grid(2, 3, [2, -2, 2, 9, 0, 17])
  {
  }
}
