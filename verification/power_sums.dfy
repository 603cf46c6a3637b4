/** Power sums S_m = sum of u_k * x_k^m over GF(256), and the linear recurrences they satisfy:
    what makes a Reed-Solomon syndrome sequence decodable. */
module PowerSums {
  import opened Gf256
  import opened Polynomials

  // ---------- convolution ----------

  ghost function ConvTerm(p: seq<byte>, s: seq<byte>, j: nat): nat -> byte
  {
    (i: nat) => Mul(Coef(p, i), Coef(s, j - i))
  }

  /** The coefficient of z^j in the product of p and s. */
  ghost function Conv(p: seq<byte>, s: seq<byte>, j: nat): byte
  {
    Sum(j + 1, ConvTerm(p, s, j))
  }

  ghost predicate DegreeAtMost(p: seq<byte>, d: int)
  {
    forall i :: 0 <= i < |p| && i > d ==> p[i] == 0
  }

  // A convolution only needs the terms up to the degree of p.
  lemma ConvTruncate(p: seq<byte>, s: seq<byte>, j: nat, n: nat)
    requires n <= j + 1
    requires forall i :: n <= i < |p| ==> p[i] == 0
    ensures Conv(p, s, j) == Sum(n, ConvTerm(p, s, j))
  {
    hide Add, Mul, Sum;
    forall i: nat | n <= i < j + 1
      ensures ConvTerm(p, s, j)(i) == 0
    {
      MulZero(Coef(s, j - i));
    }
    SumExtend(n, j + 1, ConvTerm(p, s, j));
  }

  /** p generates s on [from, to): every term there is a fixed combination of the ones before. */
  ghost predicate Generates(p: seq<byte>, s: seq<byte>, from: int, to: int)
  {
    forall j: nat {:trigger Conv(p, s, j)} :: from <= j < to ==> Conv(p, s, j) == 0
  }

  // ---------- power sums ----------

  ghost function PowerTerm(u: seq<byte>, xs: seq<byte>, m: nat): nat -> byte
  {
    (k: nat) => Mul(Coef(u, k), Pow(Coef(xs, k), m))
  }

  ghost function PowerSum(u: seq<byte>, xs: seq<byte>, m: nat): byte
  {
    Sum(|xs|, PowerTerm(u, xs, m))
  }

  ghost function ValueTerm(p: seq<byte>, u: seq<byte>, xs: seq<byte>): nat -> byte
  {
    (k: nat) => Mul(Coef(u, k), Eval(p, Coef(xs, k)))
  }

  ghost function WeightedTerm(p: seq<byte>, u: seq<byte>, xs: seq<byte>): nat -> byte
  {
    (m: nat) => Mul(Coef(p, m), PowerSum(u, xs, m))
  }

  /** Weighting power sums by the coefficients of p evaluates p at every x. */
  lemma PolynomialOfPowerSums(p: seq<byte>, u: seq<byte>, xs: seq<byte>)
    ensures Sum(|p|, WeightedTerm(p, u, xs)) == Sum(|xs|, ValueTerm(p, u, xs))
  {
    hide Add, Mul, Sum, Eval, Coef, Pow;
    var t := (m: nat, k: nat) => Mul(Coef(p, m), Mul(Coef(u, k), Pow(Coef(xs, k), m)));
    forall m: nat | m < |p|
      ensures WeightedTerm(p, u, xs)(m) == Sum(|xs|, k => t(m, k))
    {
      SumScale(|xs|, Coef(p, m), PowerTerm(u, xs, m), k => t(m, k));
    }
    forall k: nat | k < |xs|
      ensures ValueTerm(p, u, xs)(k) == Sum(|p|, m => t(m, k))
    {
      ValueTermSum(p, Coef(u, k), Coef(xs, k), m => t(m, k));
    }
    SumSwap(|p|, |xs|, t, WeightedTerm(p, u, xs), ValueTerm(p, u, xs));
  }

  lemma ValueTermSum(p: seq<byte>, c: byte, x: byte, f: nat -> byte)
    requires forall m: nat :: m < |p| ==> f(m) == Mul(Coef(p, m), Mul(c, Pow(x, m)))
    ensures Mul(c, Eval(p, x)) == Sum(|p|, f)
  {
    hide Add, Mul, Sum, Eval, Coef, Pow;
    EvalIsSum(p, x);
    forall m: nat | m < |p|
      ensures f(m) == Mul(c, EvalTerm(p, x)(m))
    {
      MulAssoc(Coef(p, m), c, Pow(x, m));
      MulComm(Coef(p, m), c);
      MulAssoc(c, Coef(p, m), Pow(x, m));
    }
    SumScale(|p|, c, EvalTerm(p, x), f);
  }

  /** Power sums at distinct points are independent: if as many of them as there are points
      vanish, every weight is zero. */
  lemma Independent(u: seq<byte>, xs: seq<byte>)
    requires |u| == |xs| && Distinct(xs)
    requires forall m: nat {:trigger PowerSum(u, xs, m)} :: m < |xs| ==> PowerSum(u, xs, m) == 0
    ensures IsZero(u)
  {
    forall k | 0 <= k < |u|
      ensures u[k] == 0
    {
      IndependentAt(u, xs, k);
    }
  }

  lemma IndependentAt(u: seq<byte>, xs: seq<byte>, k: nat)
    requires |u| == |xs| && Distinct(xs) && k < |xs|
    requires forall m: nat {:trigger PowerSum(u, xs, m)} :: m < |xs| ==> PowerSum(u, xs, m) == 0
    ensures u[k] == 0
  {
    hide Add, Mul, Sum, Eval, RootPoly, PowerSum;
    var others := xs[..k] + xs[k + 1..];
    var p := RootPoly(others);
    forall m: nat | m < |p|
      ensures WeightedTerm(p, u, xs)(m) == 0
    {
      MulZero(Coef(p, m));
    }
    SumZero(|p|, WeightedTerm(p, u, xs));
    PolynomialOfPowerSums(p, u, xs);
    forall i: nat | i < |xs| && i != k
      ensures ValueTerm(p, u, xs)(i) == 0
    {
      assert xs[i] == others[if i < k then i else i - 1];
      RootPolyRoots(others, xs[i]);
      MulZero(u[i]);
    }
    SumSingle(|xs|, k, ValueTerm(p, u, xs));
    RootPolyRoots(others, xs[k]);
    MulIsZero(u[k], Eval(p, xs[k]));
  }

  ghost function Scaled(u: seq<byte>, xs: seq<byte>, a: nat): (r: seq<byte>)
    requires |u| == |xs|
    ensures |r| == |u|
  {
    seq(|u|, (k: nat) requires k < |u| => Mul(u[k], Pow(xs[k], a)))
  }

  lemma PowerSumShift(u: seq<byte>, xs: seq<byte>, a: nat, m: nat)
    requires |u| == |xs|
    ensures PowerSum(u, xs, a + m) == PowerSum(Scaled(u, xs, a), xs, m)
  {
    hide Add, Mul, Sum, Pow;
    forall k: nat | k < |xs|
      ensures PowerTerm(u, xs, a + m)(k) == PowerTerm(Scaled(u, xs, a), xs, m)(k)
    {
      PowAdd(xs[k], a, m);
      MulAssoc(u[k], Pow(xs[k], a), Pow(xs[k], m));
    }
    SumEq(|xs|, PowerTerm(u, xs, a + m), PowerTerm(Scaled(u, xs, a), xs, m));
  }

  // ---------- reversal ----------

  ghost function Rev(p: seq<byte>): (r: seq<byte>)
    ensures |r| == |p|
  {
    seq(|p|, (i: nat) requires i < |p| => p[|p| - 1 - i])
  }

  lemma {:induction false} SumReverse(n: nat, f: nat -> byte, g: nat -> byte)
    requires forall i: nat :: i < n ==> g(i) == f(n - 1 - i)
    ensures Sum(n, f) == Sum(n, g)
  {
    hide Add;
    if n == 0 {
    } else {
      var g' := (i: nat) => g(i + 1);
      SumReverse(n - 1, f, g');
      SumShift(n - 1, g, g');
      AddComm(f(n - 1), Sum(n - 1, f));
    }
  }

  lemma {:induction false} PowInverse(x: byte, w: byte, n: nat)
    requires Mul(x, w) == 1
    ensures Mul(Pow(x, n), Pow(w, n)) == 1
  {
    hide Mul;
    if n == 0 {
      MulOne(1);
    } else {
      PowInverse(x, w, n - 1);
      var a, b := Pow(x, n - 1), Pow(w, n - 1);
      MulAssoc(Mul(x, a), w, b);
      MulComm(x, a);
      MulAssoc(a, x, w);
      MulOne(a);
    }
  }

  // x^(m+i) * w^i == x^m
  lemma PowDown(x: byte, w: byte, m: nat, i: nat)
    requires Mul(x, w) == 1
    ensures Mul(Pow(x, m + i), Pow(w, i)) == Pow(x, m)
  {
    hide Mul, Pow;
    PowAdd(x, m, i);
    PowInverse(x, w, i);
    MulAssoc(Pow(x, m), Pow(x, i), Pow(w, i));
    MulOne(Pow(x, m));
  }

  /** Reversing the coefficients turns roots into their inverses. */
  lemma EvalRev(p: seq<byte>, x: byte, w: byte)
    requires |p| > 0 && Mul(x, w) == 1
    ensures Eval(Rev(p), x) == Mul(Pow(x, |p| - 1), Eval(p, w))
  {
    hide Add, Mul, Sum, Eval, Pow, Rev;
    var n, d := |p|, Pow(x, |p| - 1);
    var f, g := EvalTerm(Rev(p), x), EvalTerm(p, w);
    var dg := (i: nat) => Mul(d, g(i));
    EvalIsSum(Rev(p), x);
    EvalIsSum(p, w);
    SumScale(n, d, g, dg);
    forall i: nat | i < n
      ensures dg(i) == f(n - 1 - i)
    {
      EvalRevTerm(p, x, w, i);
    }
    SumReverse(n, f, dg);
  }

  lemma EvalRevTerm(p: seq<byte>, x: byte, w: byte, i: nat)
    requires i < |p| && Mul(x, w) == 1
    ensures Mul(Pow(x, |p| - 1), EvalTerm(p, w)(i)) == EvalTerm(Rev(p), x)(|p| - 1 - i)
  {
    hide Mul, Pow;
    var d, c := Pow(x, |p| - 1), p[i];
    MulComm(c, Pow(w, i));
    MulAssoc(d, Pow(w, i), c);
    PowDown(x, w, |p| - 1 - i, i);
    MulComm(Pow(x, |p| - 1 - i), c);
  }

  // ---------- recurrences of power sums ----------

  ghost predicate IsPowerSums(s: seq<byte>, u: seq<byte>, xs: seq<byte>)
  {
    |u| == |xs| && forall i :: 0 <= i < |s| ==> s[i] == PowerSum(u, xs, i)
  }

  /** Convolving power sums with p evaluates the reversed p at every x. */
  lemma ConvOfPowerSums(p: seq<byte>, s: seq<byte>, u: seq<byte>, xs: seq<byte>, j: nat)
    requires |p| > 0 && |p| - 1 <= j < |s| && IsPowerSums(s, u, xs)
    ensures Conv(p, s, j) == Sum(|xs|, ValueTerm(Rev(p), Scaled(u, xs, j - (|p| - 1)), xs))
  {
    hide Add, Mul, Sum, Eval, PowerSum;
    var n, a := |p|, j - (|p| - 1);
    var v := Scaled(u, xs, a);
    ConvTruncate(p, s, j, n);
    var f, g := ConvTerm(p, s, j), WeightedTerm(Rev(p), v, xs);
    forall i: nat | i < n
      ensures g(i) == f(n - 1 - i)
    {
      PowerSumShift(u, xs, a, i);
    }
    SumReverse(n, f, g);
    PolynomialOfPowerSums(Rev(p), v, xs);
  }

  /** The reversed root polynomial, the error locator, generates the power sums. */
  lemma LocatorGenerates(s: seq<byte>, u: seq<byte>, xs: seq<byte>)
    requires IsPowerSums(s, u, xs)
    ensures Generates(Rev(RootPoly(xs)), s, |xs|, |s|)
  {
    hide Add, Mul, Sum, Eval, RootPoly, Conv;
    var p := RootPoly(xs);
    assert Rev(Rev(p)) == p;
    forall j: nat | |xs| <= j < |s|
      ensures Conv(Rev(p), s, j) == 0
    {
      ConvOfPowerSums(Rev(p), s, u, xs, j);
      var v := Scaled(u, xs, j - |xs|);
      forall k: nat | k < |xs|
        ensures ValueTerm(p, v, xs)(k) == 0
      {
        RootPolyRoots(xs, xs[k]);
        MulZero(v[k]);
      }
      SumZero(|xs|, ValueTerm(p, v, xs));
    }
  }

  ghost predicate Inverses(xs: seq<byte>, ws: seq<byte>)
  {
    |xs| == |ws| && forall k :: 0 <= k < |xs| ==> Mul(xs[k], ws[k]) == 1
  }

  /** If p of degree at most |xs| generates twice that many power sums, it vanishes at the
      inverse of every point whose weight is nonzero. */
  lemma GeneratorRoots(p: seq<byte>, s: seq<byte>, u: seq<byte>, xs: seq<byte>, ws: seq<byte>)
    requires |p| == |xs| + 1 && 2 * |xs| <= |s| && IsPowerSums(s, u, xs)
    requires Generates(p, s, |xs|, |s|)
    requires Distinct(xs) && Inverses(xs, ws)
    requires forall k :: 0 <= k < |u| ==> u[k] != 0
    ensures AllRoots(p, ws)
  {
    hide Add, Mul, Sum, Eval, Conv, PowerSum, Pow, Rev;
    var v := |xs|;
    var e := seq(v, (k: nat) requires k < v => Mul(u[k], Eval(Rev(p), xs[k])));
    forall m: nat | m < v
      ensures PowerSum(e, xs, m) == 0
    {
      ConvOfPowerSums(p, s, u, xs, v + m);
      GeneratorTerms(Rev(p), u, xs, e, m);
    }
    Independent(e, xs);
    forall k | 0 <= k < v
      ensures Eval(p, ws[k]) == 0
    {
      assert e[k] == 0;
      MulIsZero(u[k], Eval(Rev(p), xs[k]));
      EvalRev(p, xs[k], ws[k]);
      PowNonzero(xs[k], ws[k], v);
      MulIsZero(Pow(xs[k], v), Eval(p, ws[k]));
    }
  }

  lemma GeneratorTerms(r: seq<byte>, u: seq<byte>, xs: seq<byte>, e: seq<byte>, m: nat)
    requires |u| == |xs| == |e|
    requires forall k: nat :: k < |xs| ==> e[k] == Mul(u[k], Eval(r, xs[k]))
    ensures PowerSum(e, xs, m) == Sum(|xs|, ValueTerm(r, Scaled(u, xs, m), xs))
  {
    hide Add, Mul, Sum, Eval, Pow;
    forall k: nat | k < |xs|
      ensures PowerTerm(e, xs, m)(k) == ValueTerm(r, Scaled(u, xs, m), xs)(k)
    {
      MulAssoc(u[k], Eval(r, xs[k]), Pow(xs[k], m));
      MulComm(Eval(r, xs[k]), Pow(xs[k], m));
      MulAssoc(u[k], Pow(xs[k], m), Eval(r, xs[k]));
    }
    SumEq(|xs|, PowerTerm(e, xs, m), ValueTerm(r, Scaled(u, xs, m), xs));
  }

  lemma PowNonzero(x: byte, w: byte, n: nat)
    requires Mul(x, w) == 1
    ensures Pow(x, n) != 0
  {
    hide *;
    PowInverse(x, w, n);
    MulZero(Pow(w, n));
  }

  ghost function ScaledConvTerm(c: byte, p: seq<byte>, s: seq<byte>, j: nat): nat -> byte
  {
    (k: nat) => Mul(c, ConvTerm(p, s, j)(k))
  }

  // One row of the double sum in MasseyBound.
  lemma MasseyRow(c: byte, p: seq<byte>, el: nat, s: seq<byte>, j: nat)
    requires DegreeAtMost(p, el) && el <= j
    ensures Sum(el + 1, ScaledConvTerm(c, p, s, j)) == Mul(c, Conv(p, s, j))
  {
    hide Add, Mul, Sum, Conv;
    ConvTruncate(p, s, j, el + 1);
    SumScale(el + 1, c, ConvTerm(p, s, j), ScaledConvTerm(c, p, s, j));
  }

  ghost function MasseyTable(p: seq<byte>, q: seq<byte>, s: seq<byte>, r: nat): (nat, nat) -> byte
  {
    (i: nat, k: nat) => Mul(Coef(q, i), Mul(Coef(p, k), Coef(s, r - i - k)))
  }

  /** Massey's bound: when p of length el generates s up to r but not at r, anything of length
      v that generates s at r as well has v >= r + 1 - el. */
  lemma MasseyBound(p: seq<byte>, el: nat, q: seq<byte>, v: nat, s: seq<byte>, r: nat)
    requires DegreeAtMost(p, el) && Generates(p, s, el, r) && Conv(p, s, r) != 0
    requires |q| > 0 && q[0] == 1 && DegreeAtMost(q, v) && Generates(q, s, v, r + 1)
    ensures v + el >= r + 1
  {
    hide Add, Mul, Sum, Conv;
    if v + el <= r {
      var t := MasseyTable(p, q, s, r);
      var row := (i: nat) => Sum(el + 1, k => t(i, k));
      var col := (k: nat) => Sum(v + 1, i => t(i, k));
      forall i: nat | i <= v
        ensures row(i) == if i == 0 then Conv(p, s, r) else 0
      {
        MasseyRow(Coef(q, i), p, el, s, r - i);
        MasseyRowTerms(p, q, s, r, i, el);
        SumEq(el + 1, k => t(i, k), ScaledConvTerm(Coef(q, i), p, s, r - i));
        MulOne(Conv(p, s, r));
        MulZero(Coef(q, i));
      }
      SumSingle(v + 1, 0, row);
      forall k: nat | k <= el
        ensures col(k) == 0
      {
        MasseyRow(Coef(p, k), q, v, s, r - k);
        MasseyColumn(p, q, s, r, k, v);
        SumEq(v + 1, i => t(i, k), ScaledConvTerm(Coef(p, k), q, s, r - k));
        MulZero(Coef(p, k));
      }
      SumZero(el + 1, col);
      SumSwap(v + 1, el + 1, t, row, col);
      assert false;
    }
  }

  lemma MasseyRowTerms(p: seq<byte>, q: seq<byte>, s: seq<byte>, r: nat, i: nat, el: nat)
    requires el + i <= r
    ensures forall k: nat :: k <= el ==> MasseyTable(p, q, s, r)(i, k) == ScaledConvTerm(Coef(q, i), p, s, r - i)(k)
  {
    hide Mul;
    forall k: nat | k <= el
      ensures MasseyTable(p, q, s, r)(i, k) == ScaledConvTerm(Coef(q, i), p, s, r - i)(k)
    {
      assert ConvTerm(p, s, r - i)(k) == Mul(Coef(p, k), Coef(s, r - i - k));
    }
  }

  lemma MasseyColumn(p: seq<byte>, q: seq<byte>, s: seq<byte>, r: nat, k: nat, v: nat)
    requires v + k <= r
    ensures forall i: nat :: i <= v ==> MasseyTable(p, q, s, r)(i, k) == ScaledConvTerm(Coef(p, k), q, s, r - k)(i)
  {
    hide Mul;
    forall i: nat | i <= v
      ensures MasseyTable(p, q, s, r)(i, k) == ScaledConvTerm(Coef(p, k), q, s, r - k)(i)
    {
      var a, b, c := Coef(q, i), Coef(p, k), Coef(s, r - i - k);
      assert ConvTerm(q, s, r - k)(i) == Mul(a, c) by {
        assert r - k - i == r - i - k;
      }
      MulAssoc(a, b, c);
      MulComm(a, b);
      MulAssoc(b, a, c);
    }
  }
}
