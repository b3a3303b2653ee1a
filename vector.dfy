/**
  vector.go: a dense vector of integers. The class keeps the Go struct's one
  field, the backing array; every operation that returns a vector fills a
  fresh copy and leaves its operands alone. The functions on seq<int> below
  say what those operations compute, and the lemmas state their algebra.
*/
module Vectors {

  // ---------------------------------------------------------------------
  // What the operations compute

  /** MultiplyScalar(s): entry i becomes a[i]*s. */
  function Scaled(a: seq<int>, s: int): (r: seq<int>) {
    seq(|a|, i requires 0 <= i < |a| => a[i] * s)
  }

  /**
    Add: a with b added onto its first |b| entries. The loop runs over the
    argument, so a shorter argument leaves the tail of a as it was.
  */
  function Plus(a: seq<int>, b: seq<int>): (r: seq<int>)
    requires |b| <= |a|
  {
    seq(|a|, i requires 0 <= i < |a| => if i < |b| then a[i] + b[i] else a[i])
  }

  /** Multiply: the sum over i < |b| of a[i]*b[i], accumulated in index order. */
  function Dot(a: seq<int>, b: seq<int>): (x: int)
    requires |b| <= |a|
    decreases |b|
  {
    if |b| == 0 then 0 else Dot(a, b[..|b| - 1]) + a[|b| - 1] * b[|b| - 1]
  }

  /** Only the first |b| entries of a take part in Dot(a, b). */
  lemma {:induction false} DotPrefix(a: seq<int>, b: seq<int>, n: nat)
    requires |b| <= n <= |a|
    ensures Dot(a, b) == Dot(a[..n], b)
  {
    if |b| > 0 {
      DotPrefix(a, b[..|b| - 1], n);
    }
  }

  /** The inner product of two vectors of one dimension does not depend on their order. */
  lemma {:induction false} DotCommutes(a: seq<int>, b: seq<int>)
    requires |a| == |b|
    ensures Dot(a, b) == Dot(b, a)
  {
    if |b| > 0 {
      var n := |b| - 1;
      DotCommutes(a[..n], b[..n]);
      DotPrefix(a, b[..n], n);
      DotPrefix(b, a[..n], n);
      assert Dot(a, b) == Dot(a[..n], b[..n]) + a[n] * b[n];
      assert Dot(b, a) == Dot(b[..n], a[..n]) + b[n] * a[n];
    }
  }

  /** The radicand of Len: a sum of squares, so never negative. */
  lemma {:induction false} DotSelfNonnegative(a: seq<int>)
    ensures Dot(a, a) >= 0
  {
    SquaresNonnegative(a, |a|);
    assert a[..|a|] == a;
    DotPrefix(a, a, |a|);
  }

  lemma {:induction false} SquaresNonnegative(a: seq<int>, k: nat)
    requires k <= |a|
    ensures Dot(a[..k], a[..k]) >= 0
  {
    if k > 0 {
      SquaresNonnegative(a, k - 1);
      var p := a[..k];
      assert p[..k - 1] == a[..k - 1];
      DotPrefix(p, a[..k - 1], k - 1);
      assert Dot(p, p) == Dot(a[..k - 1], a[..k - 1]) + a[k - 1] * a[k - 1];
    }
  }

  /** Dot is linear in its first argument: scaling. */
  lemma {:induction false} DotScaled(a: seq<int>, s: int, b: seq<int>)
    requires |b| <= |a|
    ensures Dot(Scaled(a, s), b) == s * Dot(a, b)
  {
    if |b| > 0 {
      var n := |b| - 1;
      DotScaled(a, s, b[..n]);
      assert Scaled(a, s)[n] * b[n] == s * (a[n] * b[n]);
    }
  }

  /** Dot is linear in its first argument: sums. */
  lemma {:induction false} DotPlus(a: seq<int>, a': seq<int>, b: seq<int>)
    requires |a'| == |a| && |b| <= |a|
    ensures Dot(Plus(a, a'), b) == Dot(a, b) + Dot(a', b)
  {
    if |b| > 0 {
      DotPlus(a, a', b[..|b| - 1]);
    }
  }

  /** Adding vectors of one dimension does not depend on their order. */
  lemma PlusCommutes(a: seq<int>, b: seq<int>)
    requires |a| == |b|
    ensures Plus(a, b) == Plus(b, a)
  {
  }

  /** Scaling by s and then by t is scaling by s*t. */
  lemma ScaledTwice(a: seq<int>, s: int, t: int)
    ensures Scaled(Scaled(a, s), t) == Scaled(a, s * t)
  {
    forall i | 0 <= i < |a|
      ensures a[i] * s * t == a[i] * (s * t)
    {
    }
  }

  // ---------------------------------------------------------------------
  // The vector object

  class Vector {
    /** The backing array; never replaced, and never written once the vector is returned. */
    const e: array<int>

    /** newVector: a vector over a fresh copy of the given entries. */
    constructor (src: seq<int>)
      ensures fresh(e) && e[..] == src
    {
      e := new int[|src|](i requires 0 <= i < |src| => src[i]);
    }

    /** Dim: the number of entries, which is the number of indices ForEach visits when never stopped. */
    function Dim(): (n: nat)
      ensures n == e.Length
    {
      e.Length
    }

    /**
      ForEach: calls fn(i, e[i]) for ascending i and stops right after the
      first call that answers false. The calls made are returned in order.
    */
    method ForEach(fn: (int, int) -> bool) returns (visited: seq<(int, int)>)
      ensures |visited| <= e.Length
      ensures forall k :: 0 <= k < |visited| ==> visited[k] == (k, e[k])
      ensures forall k :: 0 <= k < |visited| - 1 ==> fn(k, e[k])
      ensures |visited| < e.Length ==> |visited| > 0 && !fn(|visited| - 1, e[|visited| - 1])
    {
      visited := [];
      var i := 0;
      while i < e.Length
        invariant i == |visited| <= e.Length
        invariant forall k :: 0 <= k < i ==> visited[k] == (k, e[k]) && fn(k, e[k])
      {
        visited := visited + [(i, e[i])];
        if !fn(i, e[i]) {
          return;
        }
        i := i + 1;
      }
    }

    /**
      Equals: false on a dimension mismatch; otherwise ok starts true and is
      overwritten by each comparison until one fails. Two empty vectors are
      therefore equal.
    */
    method Equals(vec: Vector) returns (ok: bool)
      ensures ok <==> e[..] == vec.e[..]
    {
      if Dim() != vec.Dim() {
        return false;
      }
      ok := true;
      var i := 0;
      while i < vec.e.Length
        invariant 0 <= i <= vec.e.Length
        invariant ok && e[..i] == vec.e[..i]
      {
        ok := e[i] == vec.e[i];
        if !ok {
          assert e[..][i] != vec.e[..][i];
          return;
        }
        i := i + 1;
      }
      assert e[..] == e[..i];
    }

    /** MultiplyScalar: a fresh vector with entry i equal to e[i]*s. */
    method MultiplyScalar(s: int) returns (res: Vector)
      ensures fresh(res) && fresh(res.e)
      ensures res.e[..] == Scaled(e[..], s)
    {
      res := new Vector(e[..]);
      var i := 0;
      while i < res.e.Length
        invariant 0 <= i <= res.e.Length == e.Length
        invariant res.e[..i] == Scaled(e[..], s)[..i]
        invariant res.e[i..] == e[i..]
      {
        res.e[i] := res.e[i] * s;
        i := i + 1;
      }
    }

    /**
      Add: copies the receiver and adds the argument's entries onto it. The
      loop runs over the argument, which therefore may not be longer.
    */
    method Add(vec: Vector) returns (res: Vector)
      requires vec.Dim() <= Dim()
      ensures fresh(res) && fresh(res.e)
      ensures res.e[..] == Plus(e[..], vec.e[..])
    {
      res := new Vector(e[..]);
      var i := 0;
      while i < vec.e.Length
        invariant 0 <= i <= vec.e.Length
        invariant res.e.Length == e.Length
        invariant forall k :: 0 <= k < e.Length ==> res.e[k] == if k < i then e[k] + vec.e[k] else e[k]
      {
        res.e[i] := res.e[i] + vec.e[i];
        i := i + 1;
      }
    }

    /** Multiply: the inner product, summed over the argument's indices. */
    method Multiply(vec: Vector) returns (x: int)
      requires vec.Dim() <= Dim()
      ensures x == Dot(e[..], vec.e[..])
    {
      x := 0;
      var i := 0;
      while i < vec.e.Length
        invariant 0 <= i <= vec.e.Length
        invariant x == Dot(e[..], vec.e[..i])
      {
        assert vec.e[..i + 1][..i] == vec.e[..i];
        x := x + e[i] * vec.e[i];
        i := i + 1;
      }
      assert vec.e[..i] == vec.e[..];
    }

    /** IsUnit: the squared length is exactly 1. */
    method IsUnit() returns (r: bool)
      ensures r <==> Dot(e[..], e[..]) == 1
    {
      var x := Multiply(this);
      r := x == 1;
    }

    /** IsOrthogonal: the inner product with vec is exactly 0. */
    method IsOrthogonal(vec: Vector) returns (r: bool)
      requires vec.Dim() <= Dim()
      ensures r <==> Dot(e[..], vec.e[..]) == 0
    {
      var x := Multiply(vec);
      r := x == 0;
    }
  }

  /** DimV: n zeros. */
  method DimV(n: nat) returns (v: Vector)
    ensures fresh(v) && fresh(v.e)
    ensures v.e[..] == seq(n, _ => 0)
  {
    var zeros := new int[n](_ => 0);
    v := new Vector(zeros[..]);
  }

  /** V: a vector over a copy of the caller's slice. */
  method V(src: array<int>) returns (v: Vector)
    ensures fresh(v) && fresh(v.e)
    ensures v.e[..] == src[..]
  {
    v := new Vector(src[..]);
  }

  /** The copy made by V is not shared: writing to the caller's slice afterwards leaves the vector as it was. */
  method CopyOnConstruction(src: array<int>, i: nat, x: int) returns (v: Vector)
    requires i < src.Length
    modifies src
    ensures fresh(v) && v.e[..] == old(src[..])
  {
    v := V(src);
    src[i] := x;
  }
}
