/** The control point fit of gdal_crs.c: polynomial coefficients from the minimum number of
    control points (exactdet) or by least squares (calcls), and their evaluation (CRS_georef). */
module GcpFit {
  import opened LinearSolve

  // ---------------------------------------------------------------------
  //  Polynomials
  // ---------------------------------------------------------------------

  function Term(term: int, e: real, n: real): real {
    match term
    case 1 => 1.0
    case 2 => e
    case 3 => n
    case 4 => e * e
    case 5 => e * n
    case 6 => n * n
    case 7 => e * e * e
    case 8 => e * e * n
    case 9 => e * n * n
    case 10 => n * n * n
    case _ => 0.0
  }

  /** The number of coefficients of an order. */
  function TermCount(order: nat): nat { ((order + 1) * (order + 2)) / 2 }

  lemma TermCounts()
    ensures TermCount(1) == 3 && TermCount(2) == 6 && TermCount(3) == 10
  {
  }

  /** The terms of a point, in coefficient order. */
  ghost function Terms(count: nat, e: real, n: real): (t: Vector)
    ensures |t| == count
  {
    seq(count, j requires 0 <= j < count => Term(j + 1, e, n))
  }

  datatype Point = NoPoint | Point(e: real, n: real)

  /** Evaluates both polynomials at a point, as CRS_georef writes them out. */
  function Georef(e1: real, n1: real, ce: seq<real>, cn: seq<real>, order: int): (p: Point)
    requires |ce| >= 10 && |cn| >= 10
    ensures p.Point? <==> 1 <= order <= 3
  {
    match order
    case 1 =>
      Point(ce[0] + ce[1] * e1 + ce[2] * n1,
            cn[0] + cn[1] * e1 + cn[2] * n1)
    case 2 =>
      var e2, n2, en := e1 * e1, n1 * n1, e1 * n1;
      Point(ce[0] + ce[1] * e1 + ce[2] * n1 + ce[3] * e2 + ce[4] * en + ce[5] * n2,
            cn[0] + cn[1] * e1 + cn[2] * n1 + cn[3] * e2 + cn[4] * en + cn[5] * n2)
    case 3 =>
      var e2, en, n2 := e1 * e1, e1 * n1, n1 * n1;
      var e3, e2n, en2, n3 := e1 * e2, e2 * n1, e1 * n2, n1 * n2;
      Point(ce[0] + ce[1] * e1 + ce[2] * n1 + ce[3] * e2 + ce[4] * en + ce[5] * n2
            + ce[6] * e3 + ce[7] * e2n + ce[8] * en2 + ce[9] * n3,
            cn[0] + cn[1] * e1 + cn[2] * n1 + cn[3] * e2 + cn[4] * en + cn[5] * n2
            + cn[6] * e3 + cn[7] * e2n + cn[8] * en2 + cn[9] * n3)
    case _ => NoPoint
  }

  lemma DotPrefix(u: Vector, v: Vector, k: nat)
    requires k < |u| && k < |v|
    ensures Dot(u[..k+1], v[..k+1]) == Dot(u[..k], v[..k]) + u[k] * v[k]
  {
    assert u[..k+1][..k] == u[..k] && v[..k+1][..k] == v[..k];
  }

  /** The value of one polynomial, summed term by term. */
  ghost function Poly(order: nat, c: seq<real>, e: real, n: real): real
    requires 1 <= order <= 3 && |c| >= 10
  {
    Dot(Terms(TermCount(order), e, n), c[..TermCount(order)])
  }

  lemma DotThree(t: Vector, c: Vector, k: nat)
    requires k + 3 <= |t| && k + 3 <= |c|
    ensures Dot(t[..k+3], c[..k+3]) == Dot(t[..k], c[..k]) + t[k] * c[k] + t[k+1] * c[k+1] + t[k+2] * c[k+2]
  {
    DotPrefix(t, c, k);
    DotPrefix(t, c, k + 1);
    DotPrefix(t, c, k + 2);
  }

  lemma PolyOne(c: seq<real>, e: real, n: real)
    requires |c| >= 10
    ensures Poly(1, c, e, n) == c[0] + c[1] * e + c[2] * n
  {
    var t := Terms(3, e, n);
    assert t[..0] == [] && c[..0] == [] && t[..3] == t;
    DotThree(t, c, 0);
  }

  lemma PolyTwo(c: seq<real>, e: real, n: real)
    requires |c| >= 10
    ensures Poly(2, c, e, n) == Poly(1, c, e, n) + c[3] * (e * e) + c[4] * (e * n) + c[5] * (n * n)
  {
    var t := Terms(6, e, n);
    assert Terms(3, e, n) == t[..3] && t[..6] == t;
    DotThree(t, c, 3);
    assert t[3] == e * e && t[4] == e * n && t[5] == n * n;
  }

  lemma PolyThree(c: seq<real>, e: real, n: real)
    requires |c| >= 10
    ensures Poly(3, c, e, n)
            == Poly(2, c, e, n) + c[6] * (e * e * e) + c[7] * (e * e * n) + c[8] * (e * n * n) + c[9] * (n * n * n)
  {
    var t := Terms(10, e, n);
    assert Terms(6, e, n) == t[..6] && t[..10] == t;
    DotThree(t, c, 6);
    DotPrefix(t, c, 9);
    assert t[6] == e * e * e && t[7] == e * e * n && t[8] == e * n * n && t[9] == n * n * n;
  }

  lemma PolySums(c: seq<real>, e: real, n: real)
    requires |c| >= 10
    ensures Poly(1, c, e, n) == c[0] + c[1] * e + c[2] * n
    ensures Poly(2, c, e, n) == Poly(1, c, e, n) + c[3] * (e * e) + c[4] * (e * n) + c[5] * (n * n)
    ensures Poly(3, c, e, n)
            == Poly(2, c, e, n) + c[6] * (e * (e * e)) + c[7] * ((e * e) * n) + c[8] * (e * (n * n)) + c[9] * (n * (n * n))
  {
    PolyOne(c, e, n);
    PolyTwo(c, e, n);
    PolyThree(c, e, n);
    assert e * e * e == e * (e * e) && e * n * n == e * (n * n) && n * n * n == n * (n * n);
  }

  /** The written-out evaluation is the sum over the terms. */
  lemma GeorefIsPoly(e1: real, n1: real, ce: seq<real>, cn: seq<real>, order: nat)
    requires |ce| >= 10 && |cn| >= 10 && 1 <= order <= 3
    ensures Georef(e1, n1, ce, cn, order) == Point(Poly(order, ce, e1, n1), Poly(order, cn, e1, n1))
  {
    PolySums(ce, e1, n1);
    PolySums(cn, e1, n1);
  }

  // ---------------------------------------------------------------------
  //  The active control points
  // ---------------------------------------------------------------------

  /** The term vectors of the active points among the first k. */
  ghost function ActiveRows(e: seq<real>, n: seq<real>, status: seq<int>, count: nat, k: nat): (r: Matrix)
    requires |e| == |n| == |status| && k <= |e|
    ensures forall i :: 0 <= i < |r| ==> |r[i]| == count
  {
    if k == 0 then [] else
      ActiveRows(e, n, status, count, k - 1) + (if status[k-1] > 0 then [Terms(count, e[k-1], n[k-1])] else [])
  }

  ghost function ActiveValues(v: seq<real>, status: seq<int>, k: nat): (r: Vector)
    requires |v| == |status| && k <= |v|
  {
    if k == 0 then [] else ActiveValues(v, status, k - 1) + (if status[k-1] > 0 then [v[k-1]] else [])
  }

  function ActiveCount(status: seq<int>, k: nat): (r: nat)
    requires k <= |status|
    ensures r <= k
  {
    if k == 0 then 0 else ActiveCount(status, k - 1) + (if status[k-1] > 0 then 1 else 0)
  }

  lemma {:induction false} ActiveLengths(e: seq<real>, n: seq<real>, v: seq<real>, status: seq<int>, count: nat, k: nat)
    requires |e| == |n| == |v| == |status| && k <= |e|
    ensures |ActiveRows(e, n, status, count, k)| == |ActiveValues(v, status, k)| == ActiveCount(status, k)
  {
    if k > 0 { ActiveLengths(e, n, v, status, count, k - 1); }
  }

  /** Every active point has its row and its value, at the same place. */
  lemma {:induction false} ActivePlace(e: seq<real>, n: seq<real>, v: seq<real>, status: seq<int>, count: nat, k: nat, p: nat)
    returns (i: nat)
    requires |e| == |n| == |v| == |status| && p < k <= |e| && status[p] > 0
    ensures i < |ActiveRows(e, n, status, count, k)| && i < |ActiveValues(v, status, k)|
    ensures ActiveRows(e, n, status, count, k)[i] == Terms(count, e[p], n[p])
    ensures ActiveValues(v, status, k)[i] == v[p]
  {
    ActiveLengths(e, n, v, status, count, k - 1);
    if p == k - 1 {
      i := |ActiveRows(e, n, status, count, k - 1)|;
    } else {
      i := ActivePlace(e, n, v, status, count, k - 1, p);
    }
  }

  lemma {:induction false} ActiveMonotone(status: seq<int>, k: nat, m: nat)
    requires k <= m <= |status|
    ensures ActiveCount(status, k) <= ActiveCount(status, m)
  {
    if k < m { ActiveMonotone(status, k, m - 1); }
  }

  // ---------------------------------------------------------------------
  //  Least squares
  // ---------------------------------------------------------------------

  ghost predicate Table(rows: Matrix, count: nat) {
    forall r :: 0 <= r < |rows| ==> |rows[r]| == count
  }

  ghost function Sq(x: real): (r: real)
    ensures r >= 0.0
  {
    x * x
  }

  lemma SqZero(x: real)
    ensures Sq(x) == 0.0 <==> x == 0.0
  {
    if x != 0.0 { QuotientUnique(x, x, 0.0); }
  }

  /** The sum of squared residuals of the coefficients x. */
  ghost function SumSquares(rows: Matrix, y: Vector, x: Vector): real
    requires |rows| == |y| && Table(rows, |x|)
  {
    if |rows| == 0 then 0.0 else
      var k := |rows| - 1;
      var d := Dot(rows[k], x) - y[k];
      SumSquares(rows[..k], y[..k], x) + Sq(d)
  }

  /** Row i of the matrix of the normal equations. */
  ghost function NormalRow(rows: Matrix, count: nat, i: nat): (r: Vector)
    requires Table(rows, count) && i < count
    ensures |r| == count
  {
    if |rows| == 0 then Zeros(count) else
      var k := |rows| - 1;
      RowMinus(NormalRow(rows[..k], count, i), -rows[k][i], rows[k])
  }

  function PlusMultiple(u: real, f: real, v: real): real { u + f * v }

  ghost function NormalValue(rows: Matrix, y: Vector, count: nat, i: nat): real
    requires |rows| == |y| && Table(rows, count) && i < count
  {
    if |rows| == 0 then 0.0 else
      var k := |rows| - 1;
      PlusMultiple(NormalValue(rows[..k], y[..k], count, i), y[k], rows[k][i])
  }

  ghost function NormalMatrix(rows: Matrix, count: nat): (m: Matrix)
    requires Table(rows, count)
    ensures Square(m, count)
  {
    seq(count, i requires 0 <= i < count && Table(rows, count) => NormalRow(rows, count, i))
  }

  ghost function NormalVector(rows: Matrix, y: Vector, count: nat): (v: Vector)
    requires |rows| == |y| && Table(rows, count)
    ensures |v| == count
  {
    seq(count, i requires 0 <= i < count && |rows| == |y| && Table(rows, count) => NormalValue(rows, y, count, i))
  }

  /** The residuals weighted by the rows: half the gradient of the sum of squares. */
  ghost function Gradient(rows: Matrix, y: Vector, x: Vector): (g: Vector)
    requires |rows| == |y| && Table(rows, |x|)
    ensures |g| == |x|
  {
    if |rows| == 0 then Zeros(|x|) else
      var k := |rows| - 1;
      RowMinus(Gradient(rows[..k], y[..k], x), -(Dot(rows[k], x) - y[k]), rows[k])
  }

  lemma {:induction false} GradientEntry(rows: Matrix, y: Vector, x: Vector, i: nat)
    requires |rows| == |y| && Table(rows, |x|) && i < |x|
    ensures Gradient(rows, y, x)[i] == Dot(NormalRow(rows, |x|, i), x) - NormalValue(rows, y, |x|, i)
  {
    if |rows| == 0 {
      ZeroDot(x);
    } else {
      var k := |rows| - 1;
      var g, nr, nv := Gradient(rows[..k], y[..k], x), NormalRow(rows[..k], |x|, i), NormalValue(rows[..k], y[..k], |x|, i);
      GradientEntry(rows[..k], y[..k], x, i);
      DotRowMinus(nr, -rows[k][i], rows[k], x);
      GradientStep(g[i], Dot(nr, x), nv, rows[k][i], Dot(rows[k], x), y[k]);
      assert Gradient(rows, y, x)[i] == MinusMultiple(g[i], -(Dot(rows[k], x) - y[k]), rows[k][i]);
    }
  }

  lemma GradientStep(g: real, nd: real, nv: real, t: real, d: real, y: real)
    requires g == nd - nv
    ensures MinusMultiple(g, -(d - y), t) == MinusMultiple(nd, -t, d) - PlusMultiple(nv, y, t)
  {
  }

  lemma ZeroDot(x: Vector)
    ensures Dot(Zeros(|x|), x) == 0.0
  {
    assert forall c :: 0 <= c < |x| ==> Vanishes(Zeros(|x|), x, c);
    DotNone(Zeros(|x|), x);
  }

  /** The sum of squares of a row table applied to d. */
  ghost function SumImages(rows: Matrix, d: Vector): (s: real)
    requires Table(rows, |d|)
    ensures s >= 0.0
  {
    if |rows| == 0 then 0.0 else
      var k := |rows| - 1;
      SumImages(rows[..k], d) + Sq(Dot(rows[k], d))
  }

  /** x + d */
  ghost function Plus(x: Vector, d: Vector): (z: Vector)
    requires |x| == |d|
    ensures |z| == |x|
  {
    RowMinus(x, -1.0, d)
  }

  lemma {:induction false} DotSym(u: Vector, v: Vector)
    requires |u| == |v|
    ensures Dot(u, v) == Dot(v, u)
  {
    if |u| > 0 { DotSym(u[..|u|-1], v[..|v|-1]); }
  }

  lemma DotPlus(u: Vector, x: Vector, d: Vector)
    requires |u| == |x| == |d|
    ensures Dot(u, Plus(x, d)) == Dot(u, x) + Dot(u, d)
  {
    DotSym(u, Plus(x, d));
    DotRowMinus(x, -1.0, d, u);
    DotSym(u, x);
    DotSym(u, d);
  }

  /** Moving by d changes the sum of squares by a linear and a quadratic part. */
  lemma {:induction false} SumSquaresMoved(rows: Matrix, y: Vector, x: Vector, d: Vector)
    requires |rows| == |y| && Table(rows, |x|) && |d| == |x|
    ensures SumSquares(rows, y, Plus(x, d))
            == SumSquares(rows, y, x) + 2.0 * Dot(Gradient(rows, y, x), d) + SumImages(rows, d)
  {
    if |rows| == 0 {
      ZeroDot(d);
    } else {
      var k := |rows| - 1;
      var rows0, y0, z := rows[..k], y[..k], Plus(x, d);
      SumSquaresMoved(rows0, y0, x, d);
      DotPlus(rows[k], x, d);
      var rho, g, t := Dot(rows[k], x) - y[k], Gradient(rows0, y0, x), Dot(rows[k], d);
      DotRowMinus(g, -rho, rows[k], d);
      MovedStep(SumSquares(rows0, y0, z), SumSquares(rows0, y0, x), Dot(g, d), SumImages(rows0, d), rho, t);
    }
  }

  lemma MovedStep(moved: real, still: real, slope: real, images: real, r: real, s: real)
    requires moved == still + 2.0 * slope + images
    ensures moved + Sq(r + s) == (still + Sq(r)) + 2.0 * MinusMultiple(slope, -r, s) + (images + Sq(s))
  {
  }

  // ---------------------------------------------------------------------
  //  When the fit is unsolvable
  // ---------------------------------------------------------------------

  ghost predicate VanishesOn(rows: Matrix, d: Vector) {
    Table(rows, |d|) && forall r :: 0 <= r < |rows| ==> Dot(rows[r], d) == 0.0
  }

  ghost predicate NullPolynomial(rows: Matrix, count: nat, d: Vector) {
    |d| == count && NonZero(d) && VanishesOn(rows, d)
  }

  /** Some non-zero polynomial of the order vanishes at every active point. */
  ghost predicate Degenerate(rows: Matrix, count: nat) {
    exists d :: NullPolynomial(rows, count, d)
  }

  lemma {:induction false} NoImages(rows: Matrix, d: Vector)
    requires Table(rows, |d|)
    ensures SumImages(rows, d) == 0.0 <==> VanishesOn(rows, d)
  {
    if |rows| > 0 {
      var k := |rows| - 1;
      NoImages(rows[..k], d);
      SqZero(Dot(rows[k], d));
      assert VanishesOn(rows, d) <==> VanishesOn(rows[..k], d) && Dot(rows[k], d) == 0.0 by {
        if VanishesOn(rows[..k], d) && Dot(rows[k], d) == 0.0 {
          forall r | 0 <= r < |rows| ensures Dot(rows[r], d) == 0.0 {
            if r < k { assert rows[..k][r] == rows[r]; }
          }
        }
        if VanishesOn(rows, d) {
          forall r | 0 <= r < k ensures Dot(rows[..k][r], d) == 0.0 {
            assert rows[..k][r] == rows[r];
          }
        }
      }
    }
  }

  /** The normal matrix applied to d, against d, is the sum of the squared images. */
  lemma {:induction false} NormalForm(rows: Matrix, d: Vector, g: Vector)
    requires Table(rows, |d|) && |g| == |d|
    requires forall i :: 0 <= i < |d| ==> g[i] == Dot(NormalRow(rows, |d|, i), d)
    ensures Dot(g, d) == SumImages(rows, d)
    ensures VanishesOn(rows, d) ==> g == Zeros(|d|)
  {
    var z := Zeros(|rows|);
    forall i | 0 <= i < |d| ensures Gradient(rows, z, d)[i] == g[i] {
      GradientEntry(rows, z, d, i);
      ZeroNormalValue(rows, |d|, i);
    }
    assert Gradient(rows, z, d) == g;
    GradientAgainst(rows, d);
    if VanishesOn(rows, d) { VanishingGradient(rows, d); }
  }

  lemma {:induction false} ZeroNormalValue(rows: Matrix, count: nat, i: nat)
    requires Table(rows, count) && i < count
    ensures NormalValue(rows, Zeros(|rows|), count, i) == 0.0
  {
    if |rows| > 0 {
      var k := |rows| - 1;
      ZeroNormalValue(rows[..k], count, i);
      assert Zeros(|rows|)[..k] == Zeros(k);
    }
  }

  lemma {:induction false} GradientAgainst(rows: Matrix, d: Vector)
    requires Table(rows, |d|)
    ensures Dot(Gradient(rows, Zeros(|rows|), d), d) == SumImages(rows, d)
  {
    if |rows| == 0 {
      ZeroDot(d);
    } else {
      var k := |rows| - 1;
      GradientAgainst(rows[..k], d);
      assert Zeros(|rows|)[..k] == Zeros(k);
      var g := Gradient(rows[..k], Zeros(k), d);
      DotRowMinus(g, -Dot(rows[k], d), rows[k], d);
      AgainstStep(Dot(g, d), Dot(rows[k], d));
      assert Gradient(rows, Zeros(|rows|), d) == RowMinus(g, -Dot(rows[k], d), rows[k]);
    }
  }

  lemma AgainstStep(s: real, t: real)
    ensures MinusMultiple(s, -t, t) == s + Sq(t)
  {
  }

  lemma {:induction false} VanishingGradient(rows: Matrix, d: Vector)
    requires VanishesOn(rows, d)
    ensures Gradient(rows, Zeros(|rows|), d) == Zeros(|d|)
  {
    if |rows| > 0 {
      var k := |rows| - 1;
      assert forall r :: 0 <= r < k ==> rows[..k][r] == rows[r];
      VanishingGradient(rows[..k], d);
      assert Zeros(|rows|)[..k] == Zeros(k);
      assert Dot(rows[k], d) == 0.0;
      assert forall i :: 0 <= i < |d| ==> MinusMultiple(0.0, -0.0, rows[k][i]) == 0.0;
    }
  }

  /** The normal equations are singular exactly for degenerate point sets. */
  lemma NormalSingular(rows: Matrix, count: nat)
    requires Table(rows, count)
    ensures Singular(NormalMatrix(rows, count)) <==> Degenerate(rows, count)
  {
    hide Dot;
    var m := NormalMatrix(rows, count);
    forall d: Vector | |d| == count
      ensures Solves(m, Zeros(count), d) <==> VanishesOn(rows, d)
    {
      var g := seq(count, i requires 0 <= i < count => Dot(m[i], d));
      NormalForm(rows, d, g);
      NoImages(rows, d);
      if Solves(m, Zeros(count), d) {
        assert forall i :: 0 <= i < count ==> Dot(m[i], d) == 0.0;
        assert g == Zeros(count);
        ZeroDot(d);
      }
      if VanishesOn(rows, d) {
        assert forall i :: 0 <= i < count ==> Dot(m[i], d) == g[i];
      }
    }
    if Singular(m) {
      var d :| InKernel(m, d);
      assert NullPolynomial(rows, count, d);
    }
    if Degenerate(rows, count) {
      var d :| NullPolynomial(rows, count, d);
      assert InKernel(m, d);
    }
  }

  lemma SquareSingular(rows: Matrix, count: nat)
    requires Square(rows, count)
    ensures Singular(rows) <==> Degenerate(rows, count)
  {
    if Singular(rows) {
      var d :| InKernel(rows, d);
      assert forall r :: 0 <= r < count ==> Dot(rows[r], d) == Zeros(count)[r];
      assert NullPolynomial(rows, count, d);
    }
    if Degenerate(rows, count) {
      var d :| NullPolynomial(rows, count, d);
      assert InKernel(rows, d);
    }
  }

  // ---------------------------------------------------------------------
  //  What a fit is
  // ---------------------------------------------------------------------

  /** x has a strictly smaller sum of squared residuals than every other coefficient vector. */
  ghost predicate BestFit(rows: Matrix, y: Vector, count: nat, x: Vector) {
    && |rows| == |y| && Table(rows, count) && |x| == count
    && forall z: Vector :: |z| == count && z != x ==> SumSquares(rows, y, x) < SumSquares(rows, y, z)
  }

  lemma FlatGradientIsBest(rows: Matrix, y: Vector, count: nat, x: Vector)
    requires |rows| == |y| && Table(rows, count) && |x| == count && !Degenerate(rows, count)
    requires Gradient(rows, y, x) == Zeros(count)
    ensures BestFit(rows, y, count, x)
  {
    forall z: Vector | |z| == count && z != x
      ensures SumSquares(rows, y, x) < SumSquares(rows, y, z)
    {
      var d := RowMinus(z, 1.0, x);
      assert Plus(x, d) == z;
      SumSquaresMoved(rows, y, x, d);
      ZeroDot(d);
      NoImages(rows, d);
      var i :| 0 <= i < count && z[i] != x[i];
      assert d[i] != 0.0;
      assert VanishesOn(rows, d) ==> NullPolynomial(rows, count, d);
    }
  }

  /** A solution of the normal equations is the best fit. */
  lemma NormalSolutionIsBest(rows: Matrix, y: Vector, count: nat, x: Vector)
    requires |rows| == |y| && Table(rows, count) && |x| == count && !Degenerate(rows, count)
    requires Solves(NormalMatrix(rows, count), NormalVector(rows, y, count), x)
    ensures BestFit(rows, y, count, x)
  {
    forall i | 0 <= i < count ensures Gradient(rows, y, x)[i] == 0.0 {
      GradientEntry(rows, y, x, i);
      assert Dot(NormalMatrix(rows, count)[i], x) == NormalVector(rows, y, count)[i];
    }
    assert Gradient(rows, y, x) == Zeros(count);
    FlatGradientIsBest(rows, y, count, x);
  }

  /** A solution without residuals is the best fit. */
  lemma ExactSolutionIsBest(rows: Matrix, y: Vector, count: nat, x: Vector)
    requires |rows| == |y| && Table(rows, count) && |x| == count && !Degenerate(rows, count)
    requires Solves(rows, y, x)
    ensures BestFit(rows, y, count, x)
  {
    NoResidualsFlat(rows, y, x);
    FlatGradientIsBest(rows, y, count, x);
  }

  lemma {:induction false} NoResidualsFlat(rows: Matrix, y: Vector, x: Vector)
    requires Table(rows, |x|) && Solves(rows, y, x)
    ensures Gradient(rows, y, x) == Zeros(|x|)
  {
    if |rows| > 0 {
      var k := |rows| - 1;
      assert forall r :: 0 <= r < k ==> rows[..k][r] == rows[r];
      NoResidualsFlat(rows[..k], y[..k], x);
      assert Dot(rows[k], x) == y[k];
      assert forall i :: 0 <= i < |x| ==> MinusMultiple(0.0, -0.0, rows[k][i]) == 0.0;
    }
  }

  // ---------------------------------------------------------------------
  //  Fitting
  // ---------------------------------------------------------------------

  class ControlPoints {
    var e1: array<real>
    var n1: array<real>
    var e2: array<real>
    var n2: array<real>
    var status: array<int>

    ghost predicate Valid()
      reads this
    {
      e1.Length == n1.Length == e2.Length == n2.Length == status.Length
    }

    /** c is none of the coordinate arrays. */
    ghost predicate Apart(c: array<real>)
      reads this
    {
      c != e1 && c != n1 && c != e2 && c != n2
    }

    /** The rows of the fit from the first to the second coordinates. */
    ghost function RowsFor(count: nat): (r: Matrix)
      requires Valid()
      reads this, e1, n1, status
      ensures Table(r, count)
    {
      ActiveRows(e1[..], n1[..], status[..], count, e1.Length)
    }

    ghost function Eastings(): Vector
      requires Valid()
      reads this, e2, status
    {
      ActiveValues(e2[..], status[..], e2.Length)
    }

    ghost function Northings(): Vector
      requires Valid()
      reads this, n2, status
    {
      ActiveValues(n2[..], status[..], n2.Length)
    }

    ghost function Active(): nat
      requires Valid()
      reads this, status
    {
      ActiveCount(status[..], status.Length)
    }

    /** Exchanges the two coordinate systems. */
    method Switch()
      modifies this
      ensures e1 == old(e2) && e2 == old(e1) && n1 == old(n2) && n2 == old(n1) && status == old(status)
    {
      var temp := e1;
      e1 := e2;
      e2 := temp;
      temp := n1;
      n1 := n2;
      n2 := temp;
    }
  }

  /** One row of the system for the minimum number of points. */
  method FillRow(m: array2<real>, row: nat, e: real, n: real)
    requires row < m.Length0
    modifies m
    ensures Rows(m) == old(Rows(m))[row := Terms(m.Length1, e, n)]
  {
    ghost var m0 := Rows(m);
    for j := 0 to m.Length1
      invariant forall r, c :: 0 <= r < m.Length0 && 0 <= c < m.Length1 ==>
                  m[r, c] == (if r == row && c < j then Term(c + 1, e, n) else m0[r][c])
    {
      m[row, j] := Term(j + 1, e, n);
    }
    RowsEqual(m, m0[row := Terms(m.Length1, e, n)]);
  }

  /** One equation of each of the two systems. */
  method PutPoint(e1: real, n1: real, e2: real, n2: real, m: array2<real>, a: array<real>, b: array<real>, row: nat)
    requires row < m.Length0 == m.Length1 == a.Length == b.Length && a != b
    modifies m, a, b
    ensures Rows(m)[..row+1] == old(Rows(m))[..row] + [Terms(m.Length0, e1, n1)]
    ensures a[..row+1] == old(a[..row]) + [e2] && b[..row+1] == old(b[..row]) + [n2]
  {
    FillRow(m, row, e1, n1);
    a[row] := e2;
    b[row] := n2;
  }

  /** The system of the minimum number of points: one equation per active point. */
  method ExactSystem(cp: ControlPoints, m: array2<real>, a: array<real>, b: array<real>) returns (rows: nat)
    requires cp.Valid() && m.Length0 == m.Length1 == a.Length == b.Length == cp.Active() && a != b
    requires cp.Apart(a) && cp.Apart(b)
    modifies m, a, b
    ensures rows == m.Length0
    ensures Rows(m) == cp.RowsFor(m.Length0) && a[..] == cp.Eastings() && b[..] == cp.Northings()
  {
    hide Rows, Terms;
    rows := 0;
    ghost var st := cp.status[..];
    for p := 0 to cp.status.Length
      invariant cp.status[..] == st && rows == ActiveCount(st, p)
      invariant rows <= m.Length0
      invariant Rows(m)[..rows] == ActiveRows(cp.e1[..], cp.n1[..], st, m.Length0, p)
      invariant a[..rows] == ActiveValues(cp.e2[..], st, p) && b[..rows] == ActiveValues(cp.n2[..], st, p)
    {
      ActiveMonotone(st, p + 1, cp.status.Length);
      if cp.status[p] > 0 {
        PutPoint(cp.e1[p], cp.n1[p], cp.e2[p], cp.n2[p], m, a, b, rows);
        rows := rows + 1;
      }
    }
    assert Rows(m)[..rows] == Rows(m) && a[..rows] == a[..] && b[..rows] == b[..];
  }

  /** The upper half of m, diagonal included, is that of w. */
  ghost predicate UpperIs(m: array2<real>, w: Matrix)
    requires Square(w, m.Length0) && m.Length0 == m.Length1
    reads m
  {
    forall i, j :: 0 <= i <= j < m.Length0 ==> m[i, j] == w[i][j]
  }

  lemma NormalMatrixGrows(rows: Matrix, count: nat, t: Vector, i: nat, j: nat)
    requires Table(rows, count) && |t| == count && i < count && j < count
    ensures Table(rows + [t], count)
    ensures NormalMatrix(rows + [t], count)[i][j] == PlusMultiple(NormalMatrix(rows, count)[i][j], t[i], t[j])
  {
  }

  lemma NormalVectorGrows(rows: Matrix, y: Vector, count: nat, t: Vector, v: real, i: nat)
    requires Table(rows, count) && |t| == count && i < count && |rows| == |y|
    ensures Table(rows + [t], count)
    ensures NormalVector(rows + [t], y + [v], count)[i] == PlusMultiple(NormalVector(rows, y, count)[i], v, t[i])
  {
  }

  lemma {:induction false} NormalSymmetric(rows: Matrix, count: nat, i: nat, j: nat)
    requires Table(rows, count) && i < count && j < count
    ensures NormalRow(rows, count, i)[j] == NormalRow(rows, count, j)[i]
  {
    if |rows| > 0 {
      var k := |rows| - 1;
      NormalSymmetric(rows[..k], count, i, j);
      assert -rows[k][i] * rows[k][j] == -rows[k][j] * rows[k][i];
    }
  }

  method AccumulateRow(m: array2<real>, i: nat, e: real, n: real)
    requires m.Length0 == m.Length1 && i < m.Length0
    modifies m
    ensures forall r, c :: 0 <= r < m.Length0 && 0 <= c < m.Length1 ==>
              m[r, c] == if r == i && i <= c then PlusMultiple(old(m[r, c]), Term(i + 1, e, n), Term(c + 1, e, n)) else old(m[r, c])
  {
    for j := i to m.Length1
      invariant forall r, c :: 0 <= r < m.Length0 && 0 <= c < m.Length1 ==>
                  m[r, c] == if r == i && i <= c < j then PlusMultiple(old(m[r, c]), Term(i + 1, e, n), Term(c + 1, e, n))
                             else old(m[r, c])
    {
      m[i, j] := PlusMultiple(m[i, j], Term(i + 1, e, n), Term(j + 1, e, n));
    }
  }

  method AccumulateMatrix(m: array2<real>, e: real, n: real, ghost rows: Matrix)
    requires m.Length0 == m.Length1 && Table(rows, m.Length0) && UpperIs(m, NormalMatrix(rows, m.Length0))
    modifies m
    ensures Table(rows + [Terms(m.Length0, e, n)], m.Length0)
    ensures UpperIs(m, NormalMatrix(rows + [Terms(m.Length0, e, n)], m.Length0))
  {
    ghost var t := Terms(m.Length0, e, n);
    ghost var w := NormalMatrix(rows, m.Length0);
    for i := 0 to m.Length0
      invariant forall r, c :: 0 <= r <= c < m.Length0 ==>
                  m[r, c] == if r < i then PlusMultiple(w[r][c], t[r], t[c]) else w[r][c]
    {
      AccumulateRow(m, i, e, n);
    }
    forall i, j | 0 <= i <= j < m.Length0
      ensures NormalMatrix(rows + [t], m.Length0)[i][j] == PlusMultiple(w[i][j], t[i], t[j])
    {
      NormalMatrixGrows(rows, m.Length0, t, i, j);
    }
  }

  method AccumulateVector(a: array<real>, e: real, n: real, v: real, ghost rows: Matrix, ghost y: Vector)
    requires |rows| == |y| && Table(rows, a.Length) && a[..] == NormalVector(rows, y, a.Length)
    modifies a
    ensures Table(rows + [Terms(a.Length, e, n)], a.Length)
    ensures a[..] == NormalVector(rows + [Terms(a.Length, e, n)], y + [v], a.Length)
  {
    ghost var t := Terms(a.Length, e, n);
    ghost var w := NormalVector(rows, y, a.Length);
    for i := 0 to a.Length
      invariant forall k :: 0 <= k < a.Length ==> a[k] == if k < i then PlusMultiple(w[k], v, t[k]) else w[k]
    {
      a[i] := PlusMultiple(a[i], v, Term(i + 1, e, n));
    }
    forall i | 0 <= i < a.Length
      ensures NormalVector(rows + [t], y + [v], a.Length)[i] == PlusMultiple(w[i], v, t[i])
    {
      NormalVectorGrows(rows, y, a.Length, t, v, i);
    }
  }

  method Clear(m: array2<real>, a: array<real>, b: array<real>)
    requires m.Length0 == m.Length1 == a.Length == b.Length && a != b
    modifies m, a, b
    ensures UpperIs(m, NormalMatrix([], m.Length0))
    ensures a[..] == NormalVector([], [], a.Length) && b[..] == NormalVector([], [], b.Length)
  {
    for i := 0 to m.Length0
      invariant forall r, c :: 0 <= r < i && r <= c < m.Length0 ==> m[r, c] == 0.0
      invariant forall k :: 0 <= k < i ==> a[k] == 0.0 && b[k] == 0.0
    {
      for j := i to m.Length0
        invariant forall r, c :: 0 <= r < i && r <= c < m.Length0 ==> m[r, c] == 0.0
        invariant forall c :: i <= c < j ==> m[i, c] == 0.0
        invariant forall k :: 0 <= k < i ==> a[k] == 0.0 && b[k] == 0.0
      {
        m[i, j] := 0.0;
      }
      a[i], b[i] := 0.0, 0.0;
    }
  }

  /** Copies the upper half to the lower one. */
  method Transpose(m: array2<real>, ghost rows: Matrix)
    requires m.Length0 == m.Length1 && Table(rows, m.Length0) && UpperIs(m, NormalMatrix(rows, m.Length0))
    modifies m
    ensures Rows(m) == NormalMatrix(rows, m.Length0)
  {
    ghost var w := NormalMatrix(rows, m.Length0);
    for i := 0 to m.Length0
      invariant UpperIs(m, w)
      invariant forall r, c :: 0 <= c < r < i ==> m[r, c] == w[r][c]
    {
      for j := 0 to i
        invariant UpperIs(m, w)
        invariant forall r, c :: 0 <= c < r < i ==> m[r, c] == w[r][c]
        invariant forall c :: 0 <= c < j ==> m[i, c] == w[i][c]
      {
        NormalSymmetric(rows, m.Length0, i, j);
        m[i, j] := m[j, i];
      }
    }
    RowsEqual(m, w);
  }

  /** The normal equations of all active points. */
  method NormalSystem(cp: ControlPoints, m: array2<real>, a: array<real>, b: array<real>)
    requires cp.Valid() && m.Length0 == m.Length1 == a.Length == b.Length && a != b
    requires cp.Apart(a) && cp.Apart(b)
    modifies m, a, b
    ensures |cp.RowsFor(m.Length0)| == |cp.Eastings()| == |cp.Northings()|
    ensures Rows(m) == NormalMatrix(cp.RowsFor(m.Length0), m.Length0)
    ensures a[..] == NormalVector(cp.RowsFor(m.Length0), cp.Eastings(), m.Length0)
    ensures b[..] == NormalVector(cp.RowsFor(m.Length0), cp.Northings(), m.Length0)
  {
    hide Rows;
    ghost var e1, n1, e2, n2, st := cp.e1[..], cp.n1[..], cp.e2[..], cp.n2[..], cp.status[..];
    ghost var rows, y, z := [], [], [];
    Clear(m, a, b);
    for p := 0 to cp.status.Length
      invariant cp.e1[..] == e1 && cp.n1[..] == n1 && cp.e2[..] == e2 && cp.n2[..] == n2 && cp.status[..] == st
      invariant rows == ActiveRows(e1, n1, st, m.Length0, p) && Table(rows, m.Length0)
      invariant y == ActiveValues(e2, st, p) && z == ActiveValues(n2, st, p) && |rows| == |y| == |z|
      invariant UpperIs(m, NormalMatrix(rows, m.Length0))
      invariant a[..] == NormalVector(rows, y, m.Length0) && b[..] == NormalVector(rows, z, m.Length0)
    {
      if cp.status[p] > 0 {
        AccumulateMatrix(m, cp.e1[p], cp.n1[p], rows);
        AccumulateVector(a, cp.e1[p], cp.n1[p], cp.e2[p], rows, y);
        AccumulateVector(b, cp.e1[p], cp.n1[p], cp.n2[p], rows, z);
        rows, y, z := rows + [Terms(m.Length0, e1[p], n1[p])], y + [e2[p]], z + [n2[p]];
      }
    }
    Transpose(m, rows);
  }

  // ---------------------------------------------------------------------
  //  Coefficients of one direction, and of both
  // ---------------------------------------------------------------------

  /** What CalcCoef promises about the coefficients of one direction. */
  ghost predicate Fitted(rows: Matrix, y: Vector, count: nat, c: seq<real>) {
    && count <= |c| && BestFit(rows, y, count, c[..count])
    && (|rows| == count ==> forall r :: 0 <= r < |rows| ==> Dot(rows[r], c[..count]) == y[r])
  }

  ghost predicate Outcome(status: Status, rows: Matrix, y: Vector, z: Vector, count: nat, ce: seq<real>, cn: seq<real>) {
    && Table(rows, count)
    && (status == NotEnoughPoints <==> |rows| < count)
    && (status == Unsolvable <==> |rows| >= count && Degenerate(rows, count))
    && (status == Success <==> |rows| >= count && !Degenerate(rows, count))
    && (status == Success ==> Fitted(rows, y, count, ce) && Fitted(rows, z, count, cn))
  }

  /** What SolveMat promises. */
  ghost predicate Solved(status: Status, m: Matrix, y: Vector, z: Vector, ce: seq<real>, cn: seq<real>) {
    && (status == Success || status == Unsolvable)
    && (status == Unsolvable <==> Singular(m))
    && (status == Success ==> |m| <= |ce| && |m| <= |cn| && UniqueSolution(m, y, ce[..|m|]) && UniqueSolution(m, z, cn[..|m|]))
  }

  lemma ExactOutcome(status: Status, rows: Matrix, y: Vector, z: Vector, count: nat, ce: seq<real>, cn: seq<real>)
    requires Square(rows, count) && |y| == |z| == count && Solved(status, rows, y, z, ce, cn)
    ensures Outcome(status, rows, y, z, count, ce, cn)
  {
    hide Dot;
    SquareSingular(rows, count);
    if status == Success {
      assert Solves(rows, y, ce[..count]) && Solves(rows, z, cn[..count]);
      ExactSolutionIsBest(rows, y, count, ce[..count]);
      ExactSolutionIsBest(rows, z, count, cn[..count]);
    }
  }

  lemma UniqueSolves(m: Matrix, a: Vector, x: Vector)
    requires UniqueSolution(m, a, x)
    ensures Solves(m, a, x)
  {
  }

  lemma NormalFitted(rows: Matrix, y: Vector, count: nat, c: seq<real>)
    requires Table(rows, count) && |y| == |rows| > count && !Degenerate(rows, count) && count <= |c|
    requires UniqueSolution(NormalMatrix(rows, count), NormalVector(rows, y, count), c[..count])
    ensures Fitted(rows, y, count, c)
  {
    var x := c[..count];
    UniqueSolves(NormalMatrix(rows, count), NormalVector(rows, y, count), x);
    NormalSolutionIsBest(rows, y, count, x);
  }

  lemma NormalOutcome(status: Status, rows: Matrix, y: Vector, z: Vector, count: nat, ce: seq<real>, cn: seq<real>)
    requires Table(rows, count) && |y| == |z| == |rows| > count
    requires Solved(status, NormalMatrix(rows, count), NormalVector(rows, y, count), NormalVector(rows, z, count), ce, cn)
    ensures Outcome(status, rows, y, z, count, ce, cn)
  {
    NormalSingular(rows, count);
    if status == Success {
      NormalFitted(rows, y, count, ce);
      NormalFitted(rows, z, count, cn);
    }
  }

  method ExactDet(cp: ControlPoints, m: array2<real>, a: array<real>, b: array<real>, ce: array<real>, cn: array<real>,
                  ghost rows: Matrix, ghost y: Vector, ghost z: Vector)
    returns (status: Status)
    requires cp.Valid() && m.Length0 == m.Length1 == a.Length == b.Length == cp.Active()
    requires a.Length <= ce.Length && a.Length <= cn.Length && a != b && ce != cn && ce != a && ce != b && cn != a && cn != b
    requires cp.Apart(a) && cp.Apart(b)
    requires cp.Apart(ce) && cp.Apart(cn)
    requires rows == cp.RowsFor(m.Length0) && y == cp.Eastings() && z == cp.Northings()
    modifies m, a, b, ce, cn
    ensures Outcome(status, rows, y, z, m.Length0, ce[..], cn[..])
  {
    ghost var count := m.Length0;
    ActiveLengths(cp.e1[..], cp.n1[..], cp.e2[..], cp.status[..], count, cp.status.Length);
    ActiveLengths(cp.e1[..], cp.n1[..], cp.n2[..], cp.status[..], count, cp.status.Length);
    var _ := ExactSystem(cp, m, a, b);
    status := SolveMat(m, a, b, ce, cn);
    ExactOutcome(status, rows, y, z, m.Length0, ce[..], cn[..]);
  }

  method CalcLs(cp: ControlPoints, m: array2<real>, a: array<real>, b: array<real>, ce: array<real>, cn: array<real>,
                ghost rows: Matrix, ghost y: Vector, ghost z: Vector)
    returns (status: Status)
    requires cp.Valid() && m.Length0 == m.Length1 == a.Length == b.Length < cp.Active()
    requires a.Length <= ce.Length && a.Length <= cn.Length && a != b && ce != cn && ce != a && ce != b && cn != a && cn != b
    requires cp.Apart(a) && cp.Apart(b)
    requires cp.Apart(ce) && cp.Apart(cn)
    requires rows == cp.RowsFor(m.Length0) && y == cp.Eastings() && z == cp.Northings()
    modifies m, a, b, ce, cn
    ensures Outcome(status, rows, y, z, m.Length0, ce[..], cn[..])
  {
    ghost var count := m.Length0;
    ActiveLengths(cp.e1[..], cp.n1[..], cp.e2[..], cp.status[..], count, cp.status.Length);
    NormalSystem(cp, m, a, b);
    status := SolveMat(m, a, b, ce, cn);
    NormalOutcome(status, rows, y, z, count, ce[..], cn[..]);
  }

  method CountActive(status: array<int>) returns (n: nat)
    ensures n == ActiveCount(status[..], status.Length)
  {
    n := 0;
    for i := 0 to status.Length
      invariant n == ActiveCount(status[..], i)
    {
      if status[i] > 0 { n := n + 1; }
    }
  }

  /** The coefficients of one direction. */
  method CalcCoef(cp: ControlPoints, ce: array<real>, cn: array<real>, order: nat,
                  ghost rows: Matrix, ghost y: Vector, ghost z: Vector) returns (status: Status)
    requires cp.Valid() && 1 <= order <= 3 && ce.Length == cn.Length == 20 && ce != cn
    requires cp.Apart(ce) && cp.Apart(cn)
    requires rows == cp.RowsFor(TermCount(order)) && y == cp.Eastings() && z == cp.Northings()
    modifies ce, cn
    ensures Outcome(status, rows, y, z, TermCount(order), ce[..], cn[..])
  {
    var count := TermCount(order);
    var active := CountActive(cp.status);
    ActiveLengths(cp.e1[..], cp.n1[..], cp.e2[..], cp.status[..], count, cp.status.Length);
    if active < count {
      return NotEnoughPoints;
    }
    status := SolveWith(cp, ce, cn, count, active, rows, y, z);
  }

  method SolveWith(cp: ControlPoints, ce: array<real>, cn: array<real>, count: nat, active: nat,
                   ghost rows: Matrix, ghost y: Vector, ghost z: Vector) returns (status: Status)
    requires cp.Valid() && count <= 20 && ce.Length == cn.Length == 20 && ce != cn
    requires cp.Apart(ce) && cp.Apart(cn)
    requires active == cp.Active() >= count
    requires rows == cp.RowsFor(count) && y == cp.Eastings() && z == cp.Northings()
    modifies ce, cn
    ensures Outcome(status, rows, y, z, count, ce[..], cn[..])
  {
    var m, a, b := new real[count, count], new real[count], new real[count];
    if active == count {
      status := ExactDet(cp, m, a, b, ce, cn, rows, y, z);
    } else {
      status := CalcLs(cp, m, a, b, ce, cn, rows, y, z);
    }
  }

  /** Coefficients of the first direction, then of the second with the coordinates exchanged. */
  method ComputeGeorefEquations(cp: ControlPoints, e12: array<real>, n12: array<real>, e21: array<real>, n21: array<real>,
                                order: int, ghost rows12: Matrix, ghost rows21: Matrix,
                                ghost y1: Vector, ghost z1: Vector, ghost y2: Vector, ghost z2: Vector)
    returns (status: Status)
    requires cp.Valid() && e12.Length == n12.Length == e21.Length == n21.Length == 20
    requires e12 != n12 && e12 != e21 && e12 != n21 && n12 != e21 && n12 != n21 && e21 != n21
    requires cp.Apart(e12) && cp.Apart(n12) && cp.Apart(e21) && cp.Apart(n21)
    requires 1 <= order <= 3 ==>
      && rows12 == ActiveRows(cp.e1[..], cp.n1[..], cp.status[..], TermCount(order), cp.e1.Length)
      && rows21 == ActiveRows(cp.e2[..], cp.n2[..], cp.status[..], TermCount(order), cp.e1.Length)
    requires y1 == ActiveValues(cp.e1[..], cp.status[..], cp.e1.Length) && z1 == ActiveValues(cp.n1[..], cp.status[..], cp.e1.Length)
    requires y2 == ActiveValues(cp.e2[..], cp.status[..], cp.e1.Length) && z2 == ActiveValues(cp.n2[..], cp.status[..], cp.e1.Length)
    modifies cp, e12, n12, e21, n21
    ensures cp.e1 == old(cp.e1) && cp.n1 == old(cp.n1) && cp.e2 == old(cp.e2) && cp.n2 == old(cp.n2) && cp.status == old(cp.status)
    ensures status == ParameterError <==> !(1 <= order <= 3)
    ensures status == Success ==> Outcome(Success, rows12, y2, z2, TermCount(order), e12[..], n12[..])
    ensures status == Success ==> Outcome(Success, rows21, y1, z1, TermCount(order), e21[..], n21[..])
    ensures status == NotEnoughPoints <==> 1 <= order <= 3 && |rows12| < TermCount(order)
    ensures status == Unsolvable <==> 1 <= order <= 3 && |rows12| >= TermCount(order)
                                      && (Degenerate(rows12, TermCount(order)) || Degenerate(rows21, TermCount(order)))
    ensures status != InternalError
  {
    if order < 1 || order > 3 {
      return ParameterError;
    }
    ActiveLengths(cp.e1[..], cp.n1[..], cp.e2[..], cp.status[..], TermCount(order), cp.e1.Length);
    ActiveLengths(cp.e2[..], cp.n2[..], cp.e2[..], cp.status[..], TermCount(order), cp.e1.Length);
    status := CalcCoef(cp, e12, n12, order, rows12, y2, z2);
    if status != Success {
      return;
    }
    status := CalcBackward(cp, e21, n21, order, rows21, y1, z1);
  }

  method CalcBackward(cp: ControlPoints, e21: array<real>, n21: array<real>, order: nat,
                      ghost rows21: Matrix, ghost y1: Vector, ghost z1: Vector) returns (status: Status)
    requires cp.Valid() && 1 <= order <= 3 && e21.Length == n21.Length == 20 && e21 != n21
    requires cp.Apart(e21) && cp.Apart(n21)
    requires rows21 == ActiveRows(cp.e2[..], cp.n2[..], cp.status[..], TermCount(order), cp.e1.Length)
    requires y1 == ActiveValues(cp.e1[..], cp.status[..], cp.e1.Length) && z1 == ActiveValues(cp.n1[..], cp.status[..], cp.e1.Length)
    modifies cp, e21, n21
    ensures cp.e1 == old(cp.e1) && cp.n1 == old(cp.n1) && cp.e2 == old(cp.e2) && cp.n2 == old(cp.n2) && cp.status == old(cp.status)
    ensures Outcome(status, rows21, y1, z1, TermCount(order), e21[..], n21[..])
  {
    cp.Switch();
    status := CalcCoef(cp, e21, n21, order, rows21, y1, z1);
    cp.Switch();
  }

  // ---------------------------------------------------------------------
  //  Interpolation and the transformer
  // ---------------------------------------------------------------------

  /** With the minimum number of points the fitted polynomials pass through every active point. */
  lemma ExactFitInterpolates(e: seq<real>, n: seq<real>, v: seq<real>, w: seq<real>, status: seq<int>, order: nat, p: nat,
                             ce: seq<real>, cn: seq<real>)
    requires |e| == |n| == |v| == |w| == |status| && p < |e| && status[p] > 0 && 1 <= order <= 3
    requires |ce| >= 10 && |cn| >= 10 && ActiveCount(status, |e|) == TermCount(order)
    requires Outcome(Success, ActiveRows(e, n, status, TermCount(order), |e|), ActiveValues(v, status, |e|),
                     ActiveValues(w, status, |e|), TermCount(order), ce, cn)
    ensures Georef(e[p], n[p], ce, cn, order) == Point(v[p], w[p])
  {
    PassesThrough(e, n, v, status, order, p, ce);
    PassesThrough(e, n, w, status, order, p, cn);
    GeorefIsPoly(e[p], n[p], ce, cn, order);
  }

  /** One coordinate of an exact fit. */
  lemma PassesThrough(e: seq<real>, n: seq<real>, v: seq<real>, status: seq<int>, order: nat, p: nat, c: seq<real>)
    requires |e| == |n| == |v| == |status| && p < |e| && status[p] > 0 && 1 <= order <= 3 && |c| >= 10
    requires ActiveCount(status, |e|) == TermCount(order)
    requires Table(ActiveRows(e, n, status, TermCount(order), |e|), TermCount(order))
    requires Fitted(ActiveRows(e, n, status, TermCount(order), |e|), ActiveValues(v, status, |e|), TermCount(order), c)
    ensures Poly(order, c, e[p], n[p]) == v[p]
  {
    var count := TermCount(order);
    ActiveLengths(e, n, v, status, count, |e|);
    var i := ActivePlace(e, n, v, status, count, |e|, p);
  }

  /** With the minimum number of points the two directions undo each other on every active point. */
  lemma ExactFitRoundTrip(e1: seq<real>, n1: seq<real>, e2: seq<real>, n2: seq<real>, status: seq<int>, order: nat, p: nat,
                          e12: seq<real>, n12: seq<real>, e21: seq<real>, n21: seq<real>)
    requires |e1| == |n1| == |e2| == |n2| == |status| && p < |e1| && status[p] > 0 && 1 <= order <= 3
    requires |e12| >= 10 && |n12| >= 10 && |e21| >= 10 && |n21| >= 10 && ActiveCount(status, |e1|) == TermCount(order)
    requires Outcome(Success, ActiveRows(e1, n1, status, TermCount(order), |e1|), ActiveValues(e2, status, |e1|),
                     ActiveValues(n2, status, |e1|), TermCount(order), e12, n12)
    requires Outcome(Success, ActiveRows(e2, n2, status, TermCount(order), |e1|), ActiveValues(e1, status, |e1|),
                     ActiveValues(n1, status, |e1|), TermCount(order), e21, n21)
    ensures var there := Georef(e1[p], n1[p], e12, n12, order);
            there.Point? && Georef(there.e, there.n, e21, n21, order) == Point(e1[p], n1[p])
    ensures var back := Georef(e2[p], n2[p], e21, n21, order);
            back.Point? && Georef(back.e, back.n, e12, n12, order) == Point(e2[p], n2[p])
  {
    ExactFitInterpolates(e1, n1, e2, n2, status, order, p, e12, n12);
    ExactFitInterpolates(e2, n2, e1, n1, status, order, p, e21, n21);
  }

  datatype Gcp = Gcp(pixel: real, line: real, x: real, y: real)

  function Pixels(g: seq<Gcp>): (r: seq<real>)
    ensures |r| == |g| && forall i :: 0 <= i < |g| ==> r[i] == g[i].pixel
  {
    seq(|g|, i requires 0 <= i < |g| => g[i].pixel)
  }

  function Lines(g: seq<Gcp>): (r: seq<real>)
    ensures |r| == |g| && forall i :: 0 <= i < |g| ==> r[i] == g[i].line
  {
    seq(|g|, i requires 0 <= i < |g| => g[i].line)
  }

  function GeoXs(g: seq<Gcp>): (r: seq<real>)
    ensures |r| == |g| && forall i :: 0 <= i < |g| ==> r[i] == g[i].x
  {
    seq(|g|, i requires 0 <= i < |g| => g[i].x)
  }

  function GeoYs(g: seq<Gcp>): (r: seq<real>)
    ensures |r| == |g| && forall i :: 0 <= i < |g| ==> r[i] == g[i].y
  {
    seq(|g|, i requires 0 <= i < |g| => g[i].y)
  }

  ghost function AllActive(n: nat): (r: seq<int>)
    ensures |r| == n && forall i :: 0 <= i < n ==> r[i] == 1
  {
    seq(n, _ => 1)
  }

  /** The order that is fitted when order 0, "the best available", is asked for. */
  function ChosenOrder(requested: int, count: nat): int {
    if requested != 0 then requested else if count >= 6 then 2 else 1
  }

  // ---------------------------------------------------------------------
  //  What the points of a fit come to
  // ---------------------------------------------------------------------

  /** The sum of the squared differences of the first k values. */
  ghost function Errors(a: seq<real>, b: seq<real>, k: nat): real
    requires k <= |a| && k <= |b|
  {
    if k == 0 then 0.0 else Errors(a, b, k - 1) + Sq(a[k-1] - b[k-1])
  }

  ghost function PolyValues(order: nat, c: seq<real>, e: seq<real>, n: seq<real>): (r: seq<real>)
    requires 1 <= order <= 3 && |c| >= 10 && |e| == |n|
    ensures |r| == |e| && forall k :: 0 <= k < |e| ==> r[k] == Poly(order, c, e[k], n[k])
  {
    seq(|e|, k requires 0 <= k < |e| => Poly(order, c, e[k], n[k]))
  }

  /** No polynomial of the order comes closer to v at the points. */
  ghost predicate Least(order: nat, e: seq<real>, n: seq<real>, v: seq<real>, out: seq<real>)
    requires 1 <= order <= 3 && |e| == |n| == |v| == |out|
  {
    forall c: seq<real> :: |c| >= 10 ==> AtMostAs(order, e, n, v, out, c)
  }

  ghost predicate AtMostAs(order: nat, e: seq<real>, n: seq<real>, v: seq<real>, out: seq<real>, c: seq<real>)
    requires 1 <= order <= 3 && |e| == |n| == |v| == |out| && |c| >= 10
  {
    Errors(out, v, |v|) <= Errors(PolyValues(order, c, e, n), v, |v|)
  }

  /** Points from (e, n) to (v, w): as many as there are coefficients are met wherever they occur, and the
      points as a whole go where their errors are least. */
  ghost predicate FitsPoints(order: nat, e: seq<real>, n: seq<real>, v: seq<real>, w: seq<real>, x0: seq<real>, y0: seq<real>,
                             x: seq<real>, y: seq<real>, hugeVal: real)
    requires 1 <= order <= 3 && |e| == |n| == |v| == |w| && |x0| == |y0| == |x| == |y|
  {
    && (|e| == TermCount(order) ==>
          forall i, k :: 0 <= i < |x0| && 0 <= k < |e| && x0[i] == e[k] != hugeVal && y0[i] == n[k] != hugeVal ==> x[i] == v[k] && y[i] == w[k])
    && (x0 == e && y0 == n && hugeVal !in e && hugeVal !in n ==> Least(order, e, n, v, x) && Least(order, e, n, w, y))
  }

  lemma {:induction false} SquaresAreErrors(e: seq<real>, n: seq<real>, v: seq<real>, order: nat, c: seq<real>, k: nat)
    requires |e| == |n| == |v| && k <= |e| && 1 <= order <= 3 && |c| >= 10
    ensures var count, st := TermCount(order), AllActive(|e|);
            && |ActiveRows(e, n, st, count, k)| == |ActiveValues(v, st, k)|
            && SumSquares(ActiveRows(e, n, st, count, k), ActiveValues(v, st, k), c[..count]) == Errors(PolyValues(order, c, e, n), v, k)
  {
    hide Term, Terms, Dot;
    var count, st := TermCount(order), AllActive(|e|);
    if k > 0 {
      SquaresAreErrors(e, n, v, order, c, k - 1);
      var rows, y := ActiveRows(e, n, st, count, k - 1), ActiveValues(v, st, k - 1);
      assert (rows + [Terms(count, e[k-1], n[k-1])])[..|rows|] == rows && (y + [v[k-1]])[..|y|] == y;
    }
  }

  lemma FittedAtMostAs(e: seq<real>, n: seq<real>, v: seq<real>, order: nat, c: seq<real>, z: seq<real>)
    requires |e| == |n| == |v| && 1 <= order <= 3 && |c| >= 10 && |z| >= 10
    requires var st := AllActive(|e|);
             Fitted(ActiveRows(e, n, st, TermCount(order), |e|), ActiveValues(v, st, |e|), TermCount(order), c)
    ensures AtMostAs(order, e, n, v, PolyValues(order, c, e, n), z)
  {
    hide ActiveRows, ActiveValues, PolyValues, Errors, SumSquares, AllActive, BestFit, TermCount;
    TermCounts();
    assert order == 1 || order == 2 || order == 3;
    SquaresAreErrors(e, n, v, order, c, |e|);
    SquaresAreErrors(e, n, v, order, z, |e|);
    var count, st := TermCount(order), AllActive(|e|);
    BestAtMost(ActiveRows(e, n, st, count, |e|), ActiveValues(v, st, |e|), count, c[..count], z[..count]);
  }

  lemma BestAtMost(rows: Matrix, y: Vector, count: nat, x: Vector, z: Vector)
    requires BestFit(rows, y, count, x) && |z| == count
    ensures SumSquares(rows, y, x) <= SumSquares(rows, y, z)
  {
    hide SumSquares;
  }

  lemma FittedIsLeast(e: seq<real>, n: seq<real>, v: seq<real>, order: nat, c: seq<real>, out: seq<real>)
    requires |e| == |n| == |v| == |out| && 1 <= order <= 3 && |c| >= 10
    requires var st := AllActive(|e|);
             Fitted(ActiveRows(e, n, st, TermCount(order), |e|), ActiveValues(v, st, |e|), TermCount(order), c)
    requires forall k :: 0 <= k < |e| ==> out[k] == Poly(order, c, e[k], n[k])
    ensures Least(order, e, n, v, out)
  {
    hide Fitted, Poly, AtMostAs, ActiveRows, ActiveValues;
    assert out == PolyValues(order, c, e, n);
    forall z: seq<real> | |z| >= 10 ensures AtMostAs(order, e, n, v, out, z) {
      FittedAtMostAs(e, n, v, order, c, z);
    }
  }

  lemma ImagesFit(order: nat, e: seq<real>, n: seq<real>, v: seq<real>, w: seq<real>, ce: seq<real>, cn: seq<real>,
                  x0: seq<real>, y0: seq<real>, x: seq<real>, y: seq<real>, hugeVal: real)
    requires 1 <= order <= 3 && |ce| >= 10 && |cn| >= 10 && |e| == |n| == |v| == |w| && |x0| == |y0| == |x| == |y|
    requires var (count, st) := (TermCount(order), AllActive(|e|));
             Outcome(Success, ActiveRows(e, n, st, count, |e|), ActiveValues(v, st, |e|), ActiveValues(w, st, |e|), count, ce, cn)
    requires forall i :: 0 <= i < |x0| && x0[i] != hugeVal && y0[i] != hugeVal ==> Point(x[i], y[i]) == Georef(x0[i], y0[i], ce, cn, order)
    ensures FitsPoints(order, e, n, v, w, x0, y0, x, y, hugeVal)
  {
    hide TermCount, Least, Poly, Georef, ActiveRows, ActiveValues;
    TermCounts();
    assert order == 1 || order == 2 || order == 3;
    var st := AllActive(|e|);
    AllCounted(|e|, |e|);
    if |e| == TermCount(order) {
      forall i, k | 0 <= i < |x0| && 0 <= k < |e| && x0[i] == e[k] != hugeVal && y0[i] == n[k] != hugeVal ensures x[i] == v[k] && y[i] == w[k] {
        ExactFitInterpolates(e, n, v, w, st, order, k, ce, cn);
      }
    }
    if x0 == e && y0 == n && hugeVal !in e && hugeVal !in n {
      forall k | 0 <= k < |e| ensures x[k] == Poly(order, ce, e[k], n[k]) && y[k] == Poly(order, cn, e[k], n[k]) {
        GeorefIsPoly(e[k], n[k], ce, cn, order);
      }
      FittedIsLeast(e, n, v, order, ce, x);
      FittedIsLeast(e, n, w, order, cn, y);
    }
  }

  class GcpTransformer {
    const toGeoX: array<real>
    const toGeoY: array<real>
    const fromGeoX: array<real>
    const fromGeoY: array<real>
    const order: int
    const reversed: bool
    const hugeVal: real
    ghost const gcps: seq<Gcp>

    constructor (toGeoX: array<real>, toGeoY: array<real>, fromGeoX: array<real>, fromGeoY: array<real>, order: int, reversed: bool,
                 hugeVal: real, ghost gcps: seq<Gcp>)
      ensures this.toGeoX == toGeoX && this.toGeoY == toGeoY && this.fromGeoX == fromGeoX && this.fromGeoY == fromGeoY
      ensures this.order == order && this.reversed == reversed && this.hugeVal == hugeVal && this.gcps == gcps
    {
      this.toGeoX, this.toGeoY, this.fromGeoX, this.fromGeoY := toGeoX, toGeoY, fromGeoX, fromGeoY;
      this.order, this.reversed, this.hugeVal := order, reversed, hugeVal;
      this.gcps := gcps;
    }

    ghost predicate Valid() {
      toGeoX.Length == toGeoY.Length == fromGeoX.Length == fromGeoY.Length == 20 && 1 <= order <= 3
    }

    /** The coefficients are those of both fits to the control points. */
    ghost predicate Fits()
      reads toGeoX, toGeoY, fromGeoX, fromGeoY
    {
      && Valid()
      && var (count, st, k) := (TermCount(order), AllActive(|gcps|), |gcps|);
         && Outcome(Success, ActiveRows(Pixels(gcps), Lines(gcps), st, count, k), ActiveValues(GeoXs(gcps), st, k),
                    ActiveValues(GeoYs(gcps), st, k), count, toGeoX[..], toGeoY[..])
         && Outcome(Success, ActiveRows(GeoXs(gcps), GeoYs(gcps), st, count, k), ActiveValues(Pixels(gcps), st, k),
                    ActiveValues(Lines(gcps), st, k), count, fromGeoX[..], fromGeoY[..])
    }

    /** A coordinate of a point that failed before, HUGE_VAL, is marked by one number. */
    predicate Failed(x: real, y: real) {
      x == hugeVal || y == hugeVal
    }

    /** Where one point goes. */
    ghost function Image(dstToSrc: bool, x: real, y: real): Point
      requires Valid()
      reads toGeoX, toGeoY, fromGeoX, fromGeoY
    {
      if dstToSrc != reversed then Georef(x, y, fromGeoX[..], fromGeoY[..], order)
      else Georef(x, y, toGeoX[..], toGeoY[..], order)
    }

    /** Transforms the points in place; one that is already marked as failed stays as it is. */
    method Transform(dstToSrc: bool, x: array<real>, y: array<real>, success: array<bool>)
      requires Valid() && x.Length == y.Length == success.Length && x != y
      requires x != toGeoX && x != toGeoY && x != fromGeoX && x != fromGeoY
      requires y != toGeoX && y != toGeoY && y != fromGeoX && y != fromGeoY
      modifies x, y, success
      ensures forall i :: 0 <= i < x.Length ==> (success[i] <==> !old(Failed(x[i], y[i])))
      ensures forall i :: 0 <= i < x.Length && (old(x[i]) == hugeVal || old(y[i]) == hugeVal) ==>
                !success[i] && x[i] == old(x[i]) && y[i] == old(y[i])
      ensures forall i :: 0 <= i < x.Length ==>
                Point(x[i], y[i]) == if success[i] then old(Image(dstToSrc, x[i], y[i])) else old(Point(x[i], y[i]))
      ensures old(Fits()) && dstToSrc == reversed ==>
                FitsPoints(order, Pixels(gcps), Lines(gcps), GeoXs(gcps), GeoYs(gcps), old(x[..]), old(y[..]), x[..], y[..], hugeVal)
      ensures old(Fits()) && dstToSrc != reversed ==>
                FitsPoints(order, GeoXs(gcps), GeoYs(gcps), Pixels(gcps), Lines(gcps), old(x[..]), old(y[..]), x[..], y[..], hugeVal)
    {
      hide Outcome, Georef, FitsPoints;
      var inverse := if reversed then !dstToSrc else dstToSrc;
      for i := 0 to x.Length
        invariant forall k :: 0 <= k < i ==> (success[k] <==> !old(Failed(x[k], y[k])))
        invariant forall k :: 0 <= k < i ==>
                    Point(x[k], y[k]) == if success[k] then old(Image(dstToSrc, x[k], y[k])) else old(Point(x[k], y[k]))
        invariant forall k :: i <= k < x.Length ==> x[k] == old(x[k]) && y[k] == old(y[k])
      {
        if Failed(x[i], y[i]) {
          success[i] := false;
          continue;
        }
        var p := if inverse then Georef(x[i], y[i], fromGeoX[..], fromGeoY[..], order)
                 else Georef(x[i], y[i], toGeoX[..], toGeoY[..], order);
        x[i], y[i] := p.e, p.n;
        success[i] := true;
      }
      if Fits() {
        if dstToSrc == reversed {
          ImagesFit(order, Pixels(gcps), Lines(gcps), GeoXs(gcps), GeoYs(gcps), toGeoX[..], toGeoY[..],
                    old(x[..]), old(y[..]), x[..], y[..], hugeVal);
        } else {
          ImagesFit(order, GeoXs(gcps), GeoYs(gcps), Pixels(gcps), Lines(gcps), fromGeoX[..], fromGeoY[..],
                    old(x[..]), old(y[..]), x[..], y[..], hugeVal);
        }
      }
    }
  }

  method Coordinates(v: seq<real>) returns (a: array<real>)
    ensures fresh(a) && a[..] == v
  {
    a := new real[|v|](i requires 0 <= i < |v| => v[i]);
  }

  /** The working lists: raster positions first, geographic positions second, every point active. */
  method WorkingPoints(gcps: seq<Gcp>) returns (cp: ControlPoints)
    ensures fresh(cp) && fresh(cp.e1) && fresh(cp.n1) && fresh(cp.e2) && fresh(cp.n2) && fresh(cp.status) && cp.Valid()
    ensures cp.e1[..] == Pixels(gcps) && cp.n1[..] == Lines(gcps) && cp.e2[..] == GeoXs(gcps) && cp.n2[..] == GeoYs(gcps)
    ensures cp.status[..] == AllActive(|gcps|)
  {
    cp := new ControlPoints;
    cp.e1 := Coordinates(Pixels(gcps));
    cp.n1 := Coordinates(Lines(gcps));
    cp.e2 := Coordinates(GeoXs(gcps));
    cp.n2 := Coordinates(GeoYs(gcps));
    cp.status := new int[|gcps|](_ => 1);
  }

  method FreshCoefficients() returns (a: array<real>, b: array<real>, c: array<real>, d: array<real>)
    ensures fresh(a) && fresh(b) && fresh(c) && fresh(d) && a.Length == b.Length == c.Length == d.Length == 20
    ensures a != b && a != c && a != d && b != c && b != d && c != d
  {
    a, b, c, d := new real[20], new real[20], new real[20], new real[20];
  }

  /** No polynomial with so many terms is determined by the raster positions, or none by the geographic ones. */
  ghost predicate SomeDegenerate(gcps: seq<Gcp>, count: nat) {
    var st := AllActive(|gcps|);
    || Degenerate(ActiveRows(Pixels(gcps), Lines(gcps), st, count, |gcps|), count)
    || Degenerate(ActiveRows(GeoXs(gcps), GeoYs(gcps), st, count, |gcps|), count)
  }

  /** Fits both directions.  The transformer exists exactly when both fits succeed. */
  method CreateGcpTransformer(gcps: seq<Gcp>, requested: int, reversed: bool, hugeVal: real)
    returns (status: Status, t: GcpTransformer?)
    ensures t != null <==> status == Success
    ensures status == ParameterError <==> !(1 <= ChosenOrder(requested, |gcps|) <= 3)
    ensures status == NotEnoughPoints <==> 1 <= ChosenOrder(requested, |gcps|) <= 3 && |gcps| < TermCount(ChosenOrder(requested, |gcps|))
    ensures status == Unsolvable <==>
              && 1 <= ChosenOrder(requested, |gcps|) <= 3 && |gcps| >= TermCount(ChosenOrder(requested, |gcps|))
              && SomeDegenerate(gcps, TermCount(ChosenOrder(requested, |gcps|)))
    ensures status != InternalError
    ensures t != null ==> t.order == if requested != 0 then requested else if |gcps| < 6 then 1 else 2
    ensures t != null ==>
      && fresh(t) && t.order == ChosenOrder(requested, |gcps|) && t.reversed == reversed && t.hugeVal == hugeVal
      && t.gcps == gcps && t.Fits()
  {
    var order := ChosenOrder(requested, |gcps|);
    var cp := WorkingPoints(gcps);
    var toX, toY, fromX, fromY := FreshCoefficients();
    ghost var st, k, count := AllActive(|gcps|), |gcps|, TermCount(if 0 <= order then order else 0);
    ghost var rows12, rows21 := ActiveRows(Pixels(gcps), Lines(gcps), st, count, k), ActiveRows(GeoXs(gcps), GeoYs(gcps), st, count, k);
    ActiveLengths(Pixels(gcps), Lines(gcps), GeoXs(gcps), st, count, k);
    AllCounted(k, k);
    status := ComputeGeorefEquations(cp, toX, toY, fromX, fromY, order, rows12, rows21,
                                     ActiveValues(Pixels(gcps), st, k), ActiveValues(Lines(gcps), st, k),
                                     ActiveValues(GeoXs(gcps), st, k), ActiveValues(GeoYs(gcps), st, k));
    if status != Success {
      return status, null;
    }
    t := new GcpTransformer(toX, toY, fromX, fromY, order, reversed, hugeVal, gcps);
  }

  lemma {:induction false} AllCounted(n: nat, k: nat)
    requires k <= n
    ensures ActiveCount(AllActive(n), k) == k
  {
    if k > 0 { AllCounted(n, k - 1); }
  }
}
