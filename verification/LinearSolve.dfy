/** The Gauss-Jordan solver of gdal_crs.c (solvemat): in-place elimination with row
    pivoting of one square matrix against two right-hand sides, over exact reals. */
module LinearSolve {
  import opened Basics

  type Vector = seq<real>
  type Matrix = seq<Vector>

  // ---------------------------------------------------------------------
  //  Linear systems
  // ---------------------------------------------------------------------

  ghost function Dot(u: Vector, v: Vector): real
    requires |u| == |v|
  {
    if |u| == 0 then 0.0 else Dot(u[..|u|-1], v[..|v|-1]) + u[|u|-1] * v[|v|-1]
  }

  ghost predicate Square(m: Matrix, n: nat) {
    |m| == n && forall r :: 0 <= r < n ==> |m[r]| == n
  }

  /** m * x == a */
  ghost predicate Solves(m: Matrix, a: Vector, x: Vector) {
    |a| == |m| && forall r :: 0 <= r < |m| ==> |m[r]| == |x| && Dot(m[r], x) == a[r]
  }

  ghost function Zeros(n: nat): (z: Vector)
    ensures |z| == n && forall i :: 0 <= i < n ==> z[i] == 0.0
  {
    seq(n, _ => 0.0)
  }

  ghost predicate NonZero(x: Vector) {
    exists i :: 0 <= i < |x| && x[i] != 0.0
  }

  ghost predicate InKernel(m: Matrix, x: Vector) {
    |x| == |m| && NonZero(x) && Solves(m, Zeros(|m|), x)
  }

  /** Some non-zero vector is mapped to zero. */
  ghost predicate Singular(m: Matrix) {
    exists x :: InKernel(m, x)
  }

  // ---------------------------------------------------------------------
  //  Dot products
  // ---------------------------------------------------------------------

  function MinusMultiple(u: real, f: real, v: real): real { u - f * v }

  /** u - f * v */
  ghost function RowMinus(u: Vector, f: real, v: Vector): (r: Vector)
    requires |u| == |v|
    ensures |r| == |u|
  {
    seq(|u|, j requires 0 <= j < |u| => MinusMultiple(u[j], f, v[j]))
  }

  lemma {:induction false} DotRowMinus(u: Vector, f: real, v: Vector, x: Vector)
    requires |u| == |v| == |x|
    ensures Dot(RowMinus(u, f, v), x) == MinusMultiple(Dot(u, x), f, Dot(v, x))
  {
    if |u| > 0 {
      var k := |u| - 1;
      DotRowMinus(u[..k], f, v[..k], x[..k]);
      assert forall j :: 0 <= j < k ==> u[..k][j] == u[j] && v[..k][j] == v[j];
      assert forall j :: 0 <= j < k ==> RowMinus(u, f, v)[..k][j] == RowMinus(u[..k], f, v[..k])[j];
      assert RowMinus(u, f, v)[..k] == RowMinus(u[..k], f, v[..k]);
      Distribute(f, Dot(v[..k], x[..k]), v[k], u[k], x[k]);
    }
  }

  lemma Distribute(f: real, d: real, v: real, u: real, x: real)
    ensures (u - f * v) * x - f * d == u * x - f * (d + v * x)
  {
  }

  ghost predicate Vanishes(u: Vector, x: Vector, c: int)
    requires |u| == |x| && 0 <= c < |u|
  {
    u[c] * x[c] == 0.0
  }

  /** The products outside positions p and q vanish. */
  lemma {:induction false} DotTwo(u: Vector, x: Vector, p: nat, q: nat)
    requires |u| == |x| && p < q < |u|
    requires forall c :: 0 <= c < |u| && c != p && c != q ==> Vanishes(u, x, c)
    ensures Dot(u, x) == u[p] * x[p] + u[q] * x[q]
  {
    var k := |u| - 1;
    forall c | 0 <= c < k && c != p && c != q ensures Vanishes(u[..k], x[..k], c) {
      assert Vanishes(u, x, c);
    }
    if q == k {
      DotOne(u[..k], x[..k], p);
    } else {
      assert Vanishes(u, x, k);
      DotTwo(u[..k], x[..k], p, q);
    }
  }

  /** The products outside position p vanish. */
  lemma {:induction false} DotOne(u: Vector, x: Vector, p: nat)
    requires |u| == |x| && p < |u|
    requires forall c :: 0 <= c < |u| && c != p ==> Vanishes(u, x, c)
    ensures Dot(u, x) == u[p] * x[p]
  {
    var k := |u| - 1;
    forall c | 0 <= c < k && c != p ensures Vanishes(u[..k], x[..k], c) {
      assert Vanishes(u, x, c);
    }
    if p == k {
      DotNone(u[..k], x[..k]);
    } else {
      assert Vanishes(u, x, k);
      DotOne(u[..k], x[..k], p);
    }
  }

  lemma {:induction false} DotNone(u: Vector, x: Vector)
    requires |u| == |x|
    requires forall c :: 0 <= c < |u| ==> Vanishes(u, x, c)
    ensures Dot(u, x) == 0.0
  {
    if |u| > 0 {
      var k := |u| - 1;
      forall c | 0 <= c < k ensures Vanishes(u[..k], x[..k], c) {
        assert Vanishes(u, x, c);
      }
      assert Vanishes(u, x, k);
      DotNone(u[..k], x[..k]);
    }
  }

  // ---------------------------------------------------------------------
  //  Row operations keep the solutions
  // ---------------------------------------------------------------------

  ghost function Swapped<T>(s: seq<T>, p: nat, q: nat): (r: seq<T>)
    requires p < |s| && q < |s|
    ensures |r| == |s|
  {
    s[p := s[q]][q := s[p]]
  }

  lemma SwapKeepsSolutions(m: Matrix, a: Vector, p: nat, q: nat, x: Vector)
    requires Square(m, |m|) && |a| == |m| == |x| && p < |m| && q < |m|
    ensures Solves(Swapped(m, p, q), Swapped(a, p, q), x) <==> Solves(m, a, x)
  {
    var m', a' := Swapped(m, p, q), Swapped(a, p, q);
    forall r | 0 <= r < |m|
      ensures var o := if r == p then q else if r == q then p else r; m'[r] == m[o] && a'[r] == a[o]
    {
    }
    if Solves(m', a', x) {
      forall r | 0 <= r < |m| ensures Dot(m[r], x) == a[r] {
        var o := if r == p then q else if r == q then p else r;
        assert Dot(m'[o], x) == a'[o];
      }
    }
  }

  /** m' is m with multiples of row i taken from the other rows. */
  ghost predicate Eliminated(m: Matrix, m': Matrix, i: nat, f: Vector)
    requires Square(m, |m|) && i < |m| == |f|
  {
    && Square(m', |m|) && m'[i] == m[i]
    && forall r :: 0 <= r < |m| && r != i ==> m'[r] == RowMinus(m[r], f[r], m[i])
  }

  ghost predicate EliminatedVector(a: Vector, a': Vector, i: nat, f: Vector)
    requires i < |a| == |f|
  {
    |a'| == |a| && a'[i] == a[i] && forall r :: 0 <= r < |a| && r != i ==> a'[r] == MinusMultiple(a[r], f[r], a[i])
  }

  lemma EliminationKeepsSolutions(m: Matrix, m': Matrix, a: Vector, a': Vector, i: nat, f: Vector, x: Vector)
    requires Square(m, |m|) && |a| == |m| == |x| == |f| && i < |m|
    requires Eliminated(m, m', i, f) && EliminatedVector(a, a', i, f)
    ensures Solves(m', a', x) <==> Solves(m, a, x)
  {
    forall r | 0 <= r < |m| && r != i
      ensures Dot(m'[r], x) == MinusMultiple(Dot(m[r], x), f[r], Dot(m[i], x))
    {
      DotRowMinus(m[r], f[r], m[i], x);
    }
    if Solves(m', a', x) {
      forall r | 0 <= r < |m| ensures Dot(m[r], x) == a[r] {
        assert Dot(m'[i], x) == a'[i];
        assert Dot(m'[r], x) == a'[r];
      }
    }
    if Solves(m, a, x) {
      forall r | 0 <= r < |m| ensures Dot(m'[r], x) == a'[r] {
        assert Dot(m[i], x) == a[i];
        assert Dot(m[r], x) == a[r];
      }
    }
  }

  /** Two systems have the same solutions. */
  ghost predicate Equivalent(m: Matrix, a: Vector, m': Matrix, a': Vector) {
    |m| == |m'| && forall x: Vector :: |x| == |m| ==> (Solves(m, a, x) <==> Solves(m', a', x))
  }

  // ---------------------------------------------------------------------
  //  The shape elimination works towards
  // ---------------------------------------------------------------------

  /** The first i columns are those of a diagonal matrix. */
  ghost predicate Reduced(m: Matrix, i: nat)
    requires Square(m, |m|) && i <= |m|
  {
    && (forall c :: 0 <= c < i ==> m[c][c] != 0.0)
    && (forall r, c :: 0 <= r < |m| && 0 <= c < i && r != c ==> m[r][c] == 0.0)
  }

  ghost function Quotients(m: Matrix, a: Vector): (x: Vector)
    requires Square(m, |m|) && |a| == |m| && Reduced(m, |m|)
    ensures |x| == |m|
  {
    seq(|m|, i requires 0 <= i < |m| => a[i] / m[i][i])
  }

  lemma DiagonalSolution(m: Matrix, a: Vector, x: Vector)
    requires Square(m, |m|) && |a| == |m| == |x| && Reduced(m, |m|)
    ensures Solves(m, a, x) <==> x == Quotients(m, a)
  {
    forall r | 0 <= r < |m|
      ensures Dot(m[r], x) == m[r][r] * x[r]
      ensures m[r][r] * x[r] == a[r] <==> x[r] == a[r] / m[r][r]
    {
      DotOne(m[r], x, r);
      QuotientUnique(m[r][r], x[r], a[r]);
    }
    if Solves(m, a, x) {
      forall r | 0 <= r < |m| ensures x[r] == Quotients(m, a)[r] {
        assert Dot(m[r], x) == a[r];
      }
    }
  }

  lemma QuotientUnique(d: real, x: real, a: real)
    requires d != 0.0
    ensures d * x == a <==> x == a / d
  {
  }

  /** When no row from i on has a pivot in column i, the matrix is singular. */
  ghost function KernelVector(m: Matrix, i: nat): (x: Vector)
    requires Square(m, |m|) && i < |m| && Reduced(m, i)
    ensures |x| == |m|
  {
    seq(|m|, c requires 0 <= c < |m| => if c < i then -m[c][i] / m[c][c] else if c == i then 1.0 else 0.0)
  }

  lemma StuckIsSingular(m: Matrix, i: nat)
    requires Square(m, |m|) && i < |m| && Reduced(m, i)
    requires forall r :: i <= r < |m| ==> m[r][i] == 0.0
    ensures InKernel(m, KernelVector(m, i))
  {
    var x := KernelVector(m, i);
    assert x[i] == 1.0;
    forall r | 0 <= r < |m|
      ensures Dot(m[r], x) == 0.0
    {
      if r < i {
        DotTwo(m[r], x, r, i);
        QuotientUnique(m[r][r], x[r], -m[r][i]);
      } else {
        DotNone(m[r], x);
      }
    }
  }

  // ---------------------------------------------------------------------
  //  The solver
  // ---------------------------------------------------------------------

  datatype Status = Success | NotEnoughPoints | Unsolvable | ParameterError | InternalError

  ghost function Rows(m: array2<real>): (r: Matrix)
    reads m
    ensures |r| == m.Length0 && forall i :: 0 <= i < m.Length0 ==> |r[i]| == m.Length1
    ensures forall i, j :: 0 <= i < m.Length0 && 0 <= j < m.Length1 ==> r[i][j] == m[i, j]
  {
    seq(m.Length0, i requires 0 <= i < m.Length0 reads m =>
      seq(m.Length1, j requires 0 <= j < m.Length1 reads m => m[i, j]))
  }

  lemma RowsEqual(m: array2<real>, r: Matrix)
    requires |r| == m.Length0 && forall i :: 0 <= i < m.Length0 ==> |r[i]| == m.Length1
    requires forall i, j :: 0 <= i < m.Length0 && 0 <= j < m.Length1 ==> r[i][j] == m[i, j]
    ensures Rows(m) == r
  {
    forall i | 0 <= i < |r| ensures Rows(m)[i] == r[i] {
      assert forall j :: 0 <= j < m.Length1 ==> Rows(m)[i][j] == r[i][j];
    }
  }

  /** The row from i on with the largest magnitude in column i. */
  method FindPivot(m: array2<real>, i: nat) returns (pivot: real, imark: nat)
    requires m.Length0 == m.Length1 && i < m.Length0
    ensures i <= imark < m.Length0 && pivot == m[imark, i]
    ensures forall r :: i <= r < m.Length0 ==> Magnitude(m[r, i]) <= Magnitude(pivot)
    ensures pivot == 0.0 ==> forall r :: i <= r < m.Length0 ==> Rows(m)[r][i] == 0.0
  {
    pivot, imark := m[i, i], i;
    for i2 := i + 1 to m.Length0
      invariant i <= imark < m.Length0 && pivot == m[imark, i]
      invariant forall r :: i <= r < i2 ==> Magnitude(m[r, i]) <= Magnitude(pivot)
    {
      var temp := Magnitude(m[i2, i]);
      if temp > Magnitude(pivot) {
        pivot, imark := m[i2, i], i2;
      }
    }
  }

  method SwapRows(m: array2<real>, p: nat, q: nat)
    requires m.Length0 == m.Length1 && p < m.Length0 && q < m.Length0
    modifies m
    ensures Rows(m) == Swapped(old(Rows(m)), p, q)
  {
    ghost var m0 := Rows(m);
    for j := 0 to m.Length1
      invariant forall r, c :: 0 <= r < m.Length0 && 0 <= c < m.Length1 ==>
                  m[r, c] == (if c < j then Swapped(m0, p, q)[r][c] else m0[r][c])
    {
      var temp := m[p, j];
      m[p, j] := m[q, j];
      m[q, j] := temp;
    }
    RowsEqual(m, Swapped(m0, p, q));
  }

  method SwapEntries(a: array<real>, p: nat, q: nat)
    requires p < a.Length && q < a.Length
    modifies a
    ensures a[..] == Swapped(old(a[..]), p, q)
  {
    var temp := a[p];
    a[p] := a[q];
    a[q] := temp;
  }

  /** Takes a multiple of row i from row i2; the columns before i hold zeroes in row i. */
  method EliminateRow(m: array2<real>, i: nat, i2: nat, factor: real)
    requires m.Length0 == m.Length1 && i < m.Length0 && i2 < m.Length0 && i != i2
    requires forall c :: 0 <= c < i ==> m[i, c] == 0.0
    modifies m
    ensures Rows(m) == old(Rows(m))[i2 := RowMinus(old(Rows(m))[i2], factor, old(Rows(m))[i])]
  {
    ghost var m0 := Rows(m);
    ghost var row := RowMinus(m0[i2], factor, m0[i]);
    for j2 := i to m.Length1
      invariant forall r, c :: 0 <= r < m.Length0 && 0 <= c < m.Length1 ==>
                  m[r, c] == (if r == i2 && c < j2 then row[c] else m0[r][c])
    {
      m[i2, j2] := MinusMultiple(m[i2, j2], factor, m[i, j2]);
    }
    RowsEqual(m, m0[i2 := row]);
  }

  ghost function Factors(m: Matrix, i: nat, pivot: real): (f: Vector)
    requires Square(m, |m|) && i < |m| && pivot != 0.0
    ensures |f| == |m|
  {
    seq(|m|, r requires 0 <= r < |m| => m[r][i] / pivot)
  }

  lemma EliminationReduces(m: Matrix, m': Matrix, i: nat)
    requires Square(m, |m|) && i < |m| && Reduced(m, i) && m[i][i] != 0.0
    requires Eliminated(m, m', i, Factors(m, i, m[i][i]))
    ensures Reduced(m', i + 1)
  {
  }

  /** The state of the elimination of column i after the first k rows. */
  ghost predicate EliminatedUpTo(m: Matrix, m': Matrix, a: Vector, a': Vector, b: Vector, b': Vector, i: nat, f: Vector, k: nat)
    requires Square(m, |m|) && i < |m| == |f| == |a| == |b|
  {
    && |m'| == |m| && |a'| == |a| && |b'| == |b|
    && (forall r :: 0 <= r < |m| ==> m'[r] == if r < k && r != i then RowMinus(m[r], f[r], m[i]) else m[r])
    && (forall r :: 0 <= r < |m| ==> a'[r] == if r < k && r != i then MinusMultiple(a[r], f[r], a[i]) else a[r])
    && (forall r :: 0 <= r < |m| ==> b'[r] == if r < k && r != i then MinusMultiple(b[r], f[r], b[i]) else b[r])
  }

  /** Zeroes above and below the pivot. */
  method EliminateColumn(m: array2<real>, a: array<real>, b: array<real>, i: nat, pivot: real)
    requires m.Length0 == m.Length1 == a.Length == b.Length && i < m.Length0 && a != b
    requires Reduced(Rows(m), i) && pivot == m[i, i] != 0.0
    modifies m, a, b
    ensures var f := Factors(old(Rows(m)), i, pivot);
            && Eliminated(old(Rows(m)), Rows(m), i, f)
            && EliminatedVector(old(a[..]), a[..], i, f) && EliminatedVector(old(b[..]), b[..], i, f)
  {
    ghost var m0, a0, b0 := Rows(m), a[..], b[..];
    ghost var f := Factors(m0, i, pivot);
    for i2 := 0 to m.Length0
      invariant EliminatedUpTo(m0, Rows(m), a0, a[..], b0, b[..], i, f, i2)
    {
      if i2 != i {
        EliminateFrom(m, a, b, i, i2, pivot, m0, a0, b0, f);
      }
    }
  }

  method EliminateEntry(a: array<real>, i: nat, i2: nat, factor: real)
    requires i < a.Length && i2 < a.Length
    modifies a
    ensures a[..] == old(a[..])[i2 := MinusMultiple(old(a[..])[i2], factor, old(a[..])[i])]
  {
    a[i2] := MinusMultiple(a[i2], factor, a[i]);
  }

  lemma EliminatedNext(m: Matrix, m': Matrix, a: Vector, a': Vector, b: Vector, b': Vector, i: nat, f: Vector, k: nat)
    requires Square(m, |m|) && i < |m| == |f| == |a| == |b| && k < |m| && k != i
    requires EliminatedUpTo(m, m', a, a', b, b', i, f, k)
    ensures EliminatedUpTo(m, m'[k := RowMinus(m[k], f[k], m[i])], a, a'[k := MinusMultiple(a[k], f[k], a[i])],
                           b, b'[k := MinusMultiple(b[k], f[k], b[i])], i, f, k + 1)
  {
  }

  method EliminateFrom(m: array2<real>, a: array<real>, b: array<real>, i: nat, i2: nat, pivot: real,
                       ghost m0: Matrix, ghost a0: Vector, ghost b0: Vector, ghost f: Vector)
    requires m.Length0 == m.Length1 == a.Length == b.Length && i < m.Length0 && i2 < m.Length0 && i != i2 && a != b
    requires Square(m0, |m0|) && i < |m0| == |a0| == |b0| && Reduced(m0, i) && pivot == m0[i][i] != 0.0
    requires f == Factors(m0, i, pivot)
    requires EliminatedUpTo(m0, Rows(m), a0, a[..], b0, b[..], i, f, i2)
    modifies m, a, b
    ensures EliminatedUpTo(m0, Rows(m), a0, a[..], b0, b[..], i, f, i2 + 1)
  {
    ghost var m1, a1, b1 := Rows(m), a[..], b[..];
    assert m1[i2] == m0[i2] && m1[i] == m0[i] && a1[i] == a0[i] && b1[i] == b0[i] && a1[i2] == a0[i2] && b1[i2] == b0[i2];
    var factor := m[i2, i] / pivot;
    assert factor == m0[i2][i] / pivot == f[i2];
    EliminateLine(m, a, b, i, i2, factor);
    EliminatedNext(m0, m1, a0, a1, b0, b1, i, f, i2);
  }

  /** The work on row i2 and its right-hand sides. */
  method EliminateLine(m: array2<real>, a: array<real>, b: array<real>, i: nat, i2: nat, factor: real)
    requires m.Length0 == m.Length1 == a.Length == b.Length && i < m.Length0 && i2 < m.Length0 && i != i2 && a != b
    requires forall c :: 0 <= c < i ==> Rows(m)[i][c] == 0.0
    modifies m, a, b
    ensures Rows(m) == old(Rows(m))[i2 := RowMinus(old(Rows(m))[i2], factor, old(Rows(m))[i])]
    ensures a[..] == old(a[..])[i2 := MinusMultiple(old(a[..])[i2], factor, old(a[..])[i])]
    ensures b[..] == old(b[..])[i2 := MinusMultiple(old(b[..])[i2], factor, old(b[..])[i])]
  {
    assert forall c :: 0 <= c < i ==> m[i, c] == Rows(m)[i][c];
    EliminateEntry(a, i, i2, factor);
    EliminateEntry(b, i, i2, factor);
    EliminateRow(m, i, i2, factor);
  }

  /** Everything the elimination preserves. */
  ghost predicate SameSystems(m0: Matrix, a0: Vector, b0: Vector, m: Matrix, a: Vector, b: Vector) {
    && Square(m0, |m0|) && Square(m, |m0|) && |a0| == |b0| == |a| == |b| == |m0|
    && Equivalent(m0, a0, m, a) && Equivalent(m0, b0, m, b) && Equivalent(m0, Zeros(|m0|), m, Zeros(|m0|))
  }

  lemma EquivalentAfterSwap(m0: Matrix, a0: Vector, m: Matrix, a: Vector, p: nat, q: nat)
    requires Square(m, |m|) && |a| == |m| && p < |m| && q < |m| && Equivalent(m0, a0, m, a)
    ensures Equivalent(m0, a0, Swapped(m, p, q), Swapped(a, p, q))
  {
    forall x: Vector | |x| == |m0|
      ensures Solves(m0, a0, x) <==> Solves(Swapped(m, p, q), Swapped(a, p, q), x)
    {
      SwapKeepsSolutions(m, a, p, q, x);
    }
  }

  lemma SwappedZeros(n: nat, p: nat, q: nat)
    requires p < n && q < n
    ensures Swapped(Zeros(n), p, q) == Zeros(n)
  {
  }

  lemma SwappedSquare(m: Matrix, p: nat, q: nat)
    requires Square(m, |m|) && p < |m| && q < |m|
    ensures Square(Swapped(m, p, q), |m|)
  {
  }

  lemma SameAfterSwap(m0: Matrix, a0: Vector, b0: Vector, m: Matrix, a: Vector, b: Vector, p: nat, q: nat)
    requires SameSystems(m0, a0, b0, m, a, b) && p < |m| && q < |m|
    ensures SameSystems(m0, a0, b0, Swapped(m, p, q), Swapped(a, p, q), Swapped(b, p, q))
  {
    SwappedZeros(|m0|, p, q);
    SwappedSquare(m, p, q);
    EquivalentAfterSwap(m0, a0, m, a, p, q);
    EquivalentAfterSwap(m0, b0, m, b, p, q);
    EquivalentAfterSwap(m0, Zeros(|m0|), m, Zeros(|m0|), p, q);
  }

  lemma EquivalentAfterElimination(m0: Matrix, a0: Vector, m: Matrix, a: Vector, m': Matrix, a': Vector, i: nat, f: Vector)
    requires Square(m, |m|) && |a| == |m| == |f| && i < |m| && Equivalent(m0, a0, m, a)
    requires Eliminated(m, m', i, f) && EliminatedVector(a, a', i, f)
    ensures Equivalent(m0, a0, m', a')
  {
    forall x: Vector | |x| == |m0|
      ensures Solves(m0, a0, x) <==> Solves(m', a', x)
    {
      EliminationKeepsSolutions(m, m', a, a', i, f, x);
    }
  }

  lemma SameAfterElimination(m0: Matrix, a0: Vector, b0: Vector, m: Matrix, a: Vector, b: Vector,
                             m': Matrix, a': Vector, b': Vector, i: nat, f: Vector)
    requires SameSystems(m0, a0, b0, m, a, b) && i < |m| == |f|
    requires Eliminated(m, m', i, f) && EliminatedVector(a, a', i, f) && EliminatedVector(b, b', i, f)
    ensures SameSystems(m0, a0, b0, m', a', b')
  {
    var z := Zeros(|m0|);
    assert EliminatedVector(z, z, i, f);
    EquivalentAfterElimination(m0, a0, m, a, m', a', i, f);
    EquivalentAfterElimination(m0, b0, m, b, m', b', i, f);
    EquivalentAfterElimination(m0, z, m, z, m', z, i, f);
  }

  lemma SwapReduced(m: Matrix, i: nat, imark: nat)
    requires Square(m, |m|) && i <= imark < |m| && Reduced(m, i)
    ensures Reduced(Swapped(m, i, imark), i)
  {
  }

  lemma NoPivot(m0: Matrix, a0: Vector, b0: Vector, m: Matrix, a: Vector, b: Vector, i: nat)
    requires Square(m, |m|) && i < |m| && Reduced(m, i) && forall r :: i <= r < |m| ==> m[r][i] == 0.0
    requires SameSystems(m0, a0, b0, m, a, b)
    ensures Singular(m0)
  {
    StuckIsSingular(m, i);
    assert InKernel(m0, KernelVector(m, i));
  }

  /** Column i: choose a pivot, bring it up, clear the column.  Fails when there is no pivot. */
  method PivotColumn(m: array2<real>, a: array<real>, b: array<real>, i: nat,
                     ghost m0: Matrix, ghost a0: Vector, ghost b0: Vector) returns (ok: bool)
    requires m.Length0 == m.Length1 == a.Length == b.Length && i < m.Length0 && a != b
    requires Reduced(Rows(m), i) && SameSystems(m0, a0, b0, Rows(m), a[..], b[..])
    modifies m, a, b
    ensures ok ==> Reduced(Rows(m), i + 1) && SameSystems(m0, a0, b0, Rows(m), a[..], b[..])
    ensures !ok ==> Singular(m0)
  {
    var pivot, imark := FindPivot(m, i);
    if pivot == 0.0 {
      NoPivot(m0, a0, b0, Rows(m), a[..], b[..], i);
      return false;
    }
    if imark != i {
      BringUpPivot(m, a, b, i, imark, m0, a0, b0);
    }
    SameAndReduced(m, a, b, i, pivot, m0, a0, b0);
    return true;
  }

  method ExchangeRows(m: array2<real>, a: array<real>, b: array<real>, i: nat, imark: nat)
    requires m.Length0 == m.Length1 == a.Length == b.Length && i < m.Length0 && imark < m.Length0 && a != b
    modifies m, a, b
    ensures Rows(m) == Swapped(old(Rows(m)), i, imark)
    ensures a[..] == Swapped(old(a[..]), i, imark) && b[..] == Swapped(old(b[..]), i, imark)
    ensures m[i, i] == old(m[imark, i])
  {
    ghost var m1 := Rows(m);
    SwapRows(m, i, imark);
    assert m[i, i] == Swapped(m1, i, imark)[i][i];
    SwapEntries(a, i, imark);
    SwapEntries(b, i, imark);
  }

  method BringUpPivot(m: array2<real>, a: array<real>, b: array<real>, i: nat, imark: nat,
                      ghost m0: Matrix, ghost a0: Vector, ghost b0: Vector)
    requires m.Length0 == m.Length1 == a.Length == b.Length && i <= imark < m.Length0 && a != b
    requires Reduced(Rows(m), i) && SameSystems(m0, a0, b0, Rows(m), a[..], b[..])
    modifies m, a, b
    ensures Reduced(Rows(m), i) && SameSystems(m0, a0, b0, Rows(m), a[..], b[..])
    ensures m[i, i] == old(m[imark, i])
  {
    ghost var m1, a1, b1 := Rows(m), a[..], b[..];
    ExchangeRows(m, a, b, i, imark);
    StageAfterSwap(m0, a0, b0, m1, a1, b1, i, imark);
  }

  lemma StageAfterSwap(m0: Matrix, a0: Vector, b0: Vector, m: Matrix, a: Vector, b: Vector, i: nat, q: nat)
    requires SameSystems(m0, a0, b0, m, a, b) && i <= q < |m| && Reduced(m, i)
    ensures SameSystems(m0, a0, b0, Swapped(m, i, q), Swapped(a, i, q), Swapped(b, i, q)) && Reduced(Swapped(m, i, q), i)
  {
    SameAfterSwap(m0, a0, b0, m, a, b, i, q);
    SwapReduced(m, i, q);
  }

  method SameAndReduced(m: array2<real>, a: array<real>, b: array<real>, i: nat, pivot: real,
                        ghost m0: Matrix, ghost a0: Vector, ghost b0: Vector)
    requires m.Length0 == m.Length1 == a.Length == b.Length && i < m.Length0 && a != b
    requires Reduced(Rows(m), i) && SameSystems(m0, a0, b0, Rows(m), a[..], b[..]) && pivot == m[i, i] != 0.0
    modifies m, a, b
    ensures Reduced(Rows(m), i + 1) && SameSystems(m0, a0, b0, Rows(m), a[..], b[..])
  {
    ghost var m1, a1, b1 := Rows(m), a[..], b[..];
    EliminateColumn(m, a, b, i, pivot);
    EliminationReduces(m1, Rows(m), i);
    SameAfterElimination(m0, a0, b0, m1, a1, b1, Rows(m), a[..], b[..], i, Factors(m1, i, pivot));
  }

  /** Divides a column vector by the diagonal. */
  method DivideByDiagonal(m: array2<real>, a: array<real>, e: array<real>)
    requires m.Length0 == m.Length1 == a.Length <= e.Length && e != a
    requires Reduced(Rows(m), m.Length0)
    modifies e
    ensures e[..a.Length] == Quotients(Rows(m), a[..]) && e[a.Length..] == old(e[a.Length..])
  {
    assert forall i :: 0 <= i < m.Length0 ==> m[i, i] == Rows(m)[i][i];
    for i := 0 to a.Length
      invariant forall k :: 0 <= k < i ==> e[k] == a[k] / m[k, k]
      invariant forall k :: i <= k < e.Length ==> e[k] == old(e[k])
    {
      e[i] := a[i] / m[i, i];
    }
  }

  /** x is the only solution of m * x == a. */
  ghost predicate UniqueSolution(m: Matrix, a: Vector, x: Vector) {
    |x| == |m| && forall y: Vector :: |y| == |m| ==> (Solves(m, a, y) <==> y == x)
  }

  lemma DiagonalUnique(m0: Matrix, a0: Vector, m: Matrix, a: Vector)
    requires Square(m0, |m0|) && Square(m, |m0|) && |a0| == |a| == |m0| && Reduced(m, |m|)
    requires Equivalent(m0, a0, m, a)
    ensures UniqueSolution(m0, a0, Quotients(m, a))
  {
    forall y: Vector | |y| == |m0|
      ensures Solves(m0, a0, y) <==> y == Quotients(m, a)
    {
      DiagonalSolution(m, a, y);
    }
  }

  lemma DiagonalRegular(m0: Matrix, m: Matrix)
    requires Square(m0, |m0|) && Square(m, |m0|) && Reduced(m, |m|)
    requires Equivalent(m0, Zeros(|m0|), m, Zeros(|m0|))
    ensures !Singular(m0)
  {
    var z := Zeros(|m0|);
    forall i | 0 <= i < |m| ensures Quotients(m, z)[i] == 0.0 {
      QuotientUnique(m[i][i], 0.0, 0.0);
    }
    forall x: Vector | |x| == |m0| && Solves(m0, z, x) ensures !NonZero(x) {
      DiagonalSolution(m, z, x);
    }
  }

  /** Solves both systems, or reports that the matrix is singular. */
  method SolveMat(m: array2<real>, a: array<real>, b: array<real>, e: array<real>, n: array<real>) returns (status: Status)
    requires m.Length0 == m.Length1 == a.Length == b.Length && a.Length <= e.Length && a.Length <= n.Length
    requires a != b && e != a && e != b && n != a && n != b && e != n
    modifies m, a, b, e, n
    ensures status == Success || status == Unsolvable
    ensures status == Unsolvable <==> Singular(old(Rows(m)))
    ensures status == Success ==> UniqueSolution(old(Rows(m)), old(a[..]), e[..a.Length])
                                  && UniqueSolution(old(Rows(m)), old(b[..]), n[..a.Length])
    ensures status == Unsolvable ==> e[..] == old(e[..]) && n[..] == old(n[..])
  {
    hide Solves, Dot;
    ghost var m0, a0, b0 := Rows(m), a[..], b[..];
    for i := 0 to m.Length0
      invariant Reduced(Rows(m), i) && SameSystems(m0, a0, b0, Rows(m), a[..], b[..])
      invariant e[..] == old(e[..]) && n[..] == old(n[..])
    {
      var ok := PivotColumn(m, a, b, i, m0, a0, b0);
      if !ok {
        return Unsolvable;
      }
    }
    DiagonalUnique(m0, a0, Rows(m), a[..]);
    DiagonalUnique(m0, b0, Rows(m), b[..]);
    DiagonalRegular(m0, Rows(m));
    DivideByDiagonal(m, a, e);
    DivideByDiagonal(m, b, n);
    return Success;
  }
}
