/** Forney's formula: the weights of a power-sum sequence, recovered from a locator polynomial. */
module ErrorValues {
  import opened Gf256
  import opened Polynomials
  import opened PowerSums

  ghost function GeometricTerm(p: seq<byte>, x: byte, i: nat): nat -> byte
  {
    (j: nat) => if j <= i then Mul(Coef(p, j), Pow(x, i - j)) else 0
  }

  // The power series p(z) / (1 - x z) is the quotient of p by (z - w), times w, when x w = 1.
  lemma {:induction false} GeometricSeries(p: seq<byte>, x: byte, w: byte, i: nat)
    requires |p| >= 2 && Mul(x, w) == 1 && Eval(p, w) == 0
    ensures Sum(i + 1, GeometricTerm(p, x, i)) == Mul(w, Coef(Quot(p, w), i))
    decreases i
  {
    hide Add, Mul, Sum, Eval;
    if i == 0 {
      FirstTerm(p, x, w);
    } else {
      GeometricSeries(p, x, w, i - 1);
      var f, g := GeometricTerm(p, x, i), GeometricTerm(p, x, i - 1);
      forall j: nat | j < i
        ensures f(j) == Mul(x, g(j))
      {
        PowUnder(x, Coef(p, j), i - 1 - j);
      }
      SumScale(i, x, g, f);
      SumStep(i, f);
      MulOne(Coef(p, i));
      QuotCoef(p, w, i);
      var a, b := Coef(Quot(p, w), i - 1), Mul(w, Coef(Quot(p, w), i));
      MulAssoc(x, w, a);
      MulOne(a);
      AddCancel(a, b);
    }
  }

  lemma SumStep(n: nat, f: nat -> byte)
    ensures Sum(n + 1, f) == Add(Sum(n, f), f(n))
  {
  }

  lemma FirstTerm(p: seq<byte>, x: byte, w: byte)
    requires |p| >= 2 && Eval(p, w) == 0
    ensures Sum(1, GeometricTerm(p, x, 0)) == p[0] == Mul(w, Coef(Quot(p, w), 0))
  {
    hide Add, Mul, Sum, Eval;
    var f := GeometricTerm(p, x, 0);
    SumSingle(1, 0, f);
    MulOne(p[0]);
    EvalCons(p, w);
    AddIsZero(p[0], Mul(w, Eval(p[1..], w)));
  }

  // ---------- the error evaluator ----------

  ghost function EvaluatorTerm(p: seq<byte>, u: seq<byte>, ws: seq<byte>, i: nat): nat -> byte
  {
    (k: nat) => if k < |ws| && |p| > 0 then Mul(Coef(u, k), Mul(ws[k], Coef(Quot(p, ws[k]), i))) else 0
  }

  ghost predicate LocatorFor(p: seq<byte>, xs: seq<byte>, ws: seq<byte>)
  {
    && |p| == |xs| + 1 >= 2 && p[0] == 1
    && Distinct(xs) && Inverses(xs, ws) && AllRoots(p, ws)
  }

  // Each coefficient of the error evaluator, split by error.
  lemma EvaluatorCoef(p: seq<byte>, s: seq<byte>, u: seq<byte>, xs: seq<byte>, ws: seq<byte>, i: nat)
    requires LocatorFor(p, xs, ws) && IsPowerSums(s, u, xs) && i < |s|
    ensures Conv(p, s, i) == Sum(|xs|, EvaluatorTerm(p, u, ws, i))
  {
    hide Add, Mul, Sum, Eval, PowerSum, Quot;
    var t := (j: nat, k: nat) => Mul(Coef(u, k), GeometricTerm(p, Coef(xs, k), i)(j));
    forall j: nat | j <= i
      ensures ConvTerm(p, s, i)(j) == Sum(|xs|, k => t(j, k))
    {
      ConvTermSum(p, s, u, xs, i, j, k => t(j, k));
    }
    forall k: nat | k < |xs|
      ensures EvaluatorTerm(p, u, ws, i)(k) == Sum(i + 1, j => t(j, k))
    {
      assert Coef(xs, k) == xs[k];
      GeometricSeries(p, Coef(xs, k), ws[k], i);
      SumScale(i + 1, Coef(u, k), GeometricTerm(p, Coef(xs, k), i), j => t(j, k));
    }
    SumSwap(i + 1, |xs|, t, ConvTerm(p, s, i), EvaluatorTerm(p, u, ws, i));
  }

  lemma ConvTermSum(p: seq<byte>, s: seq<byte>, u: seq<byte>, xs: seq<byte>, i: nat, j: nat, f: nat -> byte)
    requires j <= i < |s| && IsPowerSums(s, u, xs)
    requires forall k: nat :: k < |xs| ==> f(k) == Mul(Coef(u, k), GeometricTerm(p, Coef(xs, k), i)(j))
    ensures ConvTerm(p, s, i)(j) == Sum(|xs|, f)
  {
    hide Add, Mul, Sum, Pow;
    var c, g := Coef(p, j), PowerTerm(u, xs, i - j);
    forall k: nat | k < |xs|
      ensures f(k) == Mul(c, g(k))
    {
      var w := Pow(xs[k], i - j);
      MulAssoc(u[k], c, w);
      MulComm(u[k], c);
      MulAssoc(c, u[k], w);
    }
    SumScale(|xs|, c, g, f);
    assert s[i - j] == PowerSum(u, xs, i - j);
  }

  ghost function QuotientTerm(p: seq<byte>, u: seq<byte>, ws: seq<byte>, w: byte): nat -> byte
  {
    (k: nat) => if k < |ws| && |p| > 0 then Mul(Mul(Coef(u, k), ws[k]), Eval(Quot(p, ws[k]), w)) else 0
  }

  ghost predicate IsEvaluator(omega: seq<byte>, p: seq<byte>, s: seq<byte>)
  {
    |omega| == |s| && forall i: nat :: i < |s| ==> omega[i] == Conv(p, s, i)
  }

  lemma EvaluatorValue(omega: seq<byte>, p: seq<byte>, s: seq<byte>, u: seq<byte>, xs: seq<byte>, ws: seq<byte>,
                       w: byte)
    requires LocatorFor(p, xs, ws) && IsPowerSums(s, u, xs) && IsEvaluator(omega, p, s) && |xs| <= |s|
    ensures Eval(omega, w) == Sum(|xs|, QuotientTerm(p, u, ws, w))
  {
    hide Add, Mul, Sum, Eval, PowerSum, Quot, Conv, Pow;
    var n := |s|;
    EvalIsSum(omega, w);
    var t := (i: nat, k: nat) => Mul(EvaluatorTerm(p, u, ws, i)(k), Pow(w, i));
    forall i: nat | i < n
      ensures EvalTerm(omega, w)(i) == Sum(|xs|, k => t(i, k))
    {
      EvaluatorCoef(p, s, u, xs, ws, i);
      ScaleRight(|xs|, EvaluatorTerm(p, u, ws, i), Pow(w, i), k => t(i, k));
    }
    forall k: nat | k < |xs|
      ensures QuotientTerm(p, u, ws, w)(k) == Sum(n, i => t(i, k))
    {
      var a := Coef(u, k);
      forall i: nat | i < n
        ensures t(i, k) == Mul(Mul(a, Mul(ws[k], Coef(Quot(p, ws[k]), i))), Pow(w, i))
      {
        assert EvaluatorTerm(p, u, ws, i)(k) == Mul(a, Mul(ws[k], Coef(Quot(p, ws[k]), i)));
      }
      QuotientSum(Quot(p, ws[k]), a, ws[k], w, n, i => t(i, k));
    }
    SumSwap(n, |xs|, t, EvalTerm(omega, w), QuotientTerm(p, u, ws, w));
  }

  lemma ScaleRight(n: nat, f: nat -> byte, c: byte, g: nat -> byte)
    requires forall i: nat :: i < n ==> g(i) == Mul(f(i), c)
    ensures Sum(n, g) == Mul(Sum(n, f), c)
  {
    hide Add, Mul, Sum;
    forall i: nat | i < n
      ensures g(i) == Mul(c, f(i))
    {
      MulComm(f(i), c);
    }
    SumScale(n, c, f, g);
    MulComm(c, Sum(n, f));
  }

  lemma QuotientSum(q: seq<byte>, a: byte, b: byte, w: byte, n: nat, f: nat -> byte)
    requires |q| <= n
    requires forall i: nat :: i < n ==> f(i) == Mul(Mul(a, Mul(b, Coef(q, i))), Pow(w, i))
    ensures Mul(Mul(a, b), Eval(q, w)) == Sum(n, f)
  {
    hide Add, Mul, Sum, Eval, Pow;
    var g := EvalTerm(q, w);
    EvalExtend(q, n, w);
    forall i: nat | i < n
      ensures f(i) == Mul(Mul(a, b), g(i))
    {
      var c, z := Coef(q, i), Pow(w, i);
      MulAssoc(a, b, c);
      MulAssoc(Mul(a, b), c, z);
    }
    SumScale(n, Mul(a, b), g, f);
  }

  lemma InversesDistinct(xs: seq<byte>, ws: seq<byte>)
    requires Distinct(xs) && Inverses(xs, ws)
    ensures Distinct(ws)
  {
    hide Mul;
    forall i, j | 0 <= i < j < |ws|
      ensures ws[i] != ws[j]
    {
      // x_i == x_i (x_j w) == (x_i w) x_j == x_j if the inverses were equal
      MulAssoc(xs[i], ws[i], xs[j]);
      MulComm(ws[i], xs[j]);
      MulOne(xs[i]);
      MulOne(xs[j]);
    }
  }

  // The roots of a locator are simple.
  lemma DerivNonzero(p: seq<byte>, xs: seq<byte>, ws: seq<byte>, m: nat)
    requires LocatorFor(p, xs, ws) && m < |xs|
    ensures Deriv(p, ws[m]) != 0
  {
    hide Add, Mul, Eval, Deriv, Quot;
    var q := Quot(p, ws[m]);
    InversesDistinct(xs, ws);
    DerivIsQuot(p, ws[m]);
    if Deriv(p, ws[m]) == 0 {
      forall k | 0 <= k < |ws|
        ensures Eval(q, ws[k]) == 0
      {
        if k != m {
          OtherRoot(p, ws[m], ws[k]);
        }
      }
      TooManyRoots(q, ws);
      FirstTerm(p, xs[m], ws[m]);
      MulZero(ws[m]);
      assert false;
    }
  }

  /** Forney's formula: at the inverse w of the m-th point, the evaluator is the m-th weight
      times w times the derivative of the locator. */
  lemma Forney(omega: seq<byte>, p: seq<byte>, s: seq<byte>, u: seq<byte>, xs: seq<byte>, ws: seq<byte>, m: nat)
    requires LocatorFor(p, xs, ws) && IsPowerSums(s, u, xs) && IsEvaluator(omega, p, s) && |xs| <= |s|
    requires m < |xs|
    ensures Eval(omega, ws[m]) == Mul(Mul(u[m], ws[m]), Deriv(p, ws[m]))
  {
    hide Add, Mul, Eval, Deriv, Quot, Sum;
    InversesDistinct(xs, ws);
    EvaluatorValue(omega, p, s, u, xs, ws, ws[m]);
    DerivIsQuot(p, ws[m]);
    var f := QuotientTerm(p, u, ws, ws[m]);
    forall k: nat | k < |xs| && k != m
      ensures f(k) == 0
    {
      OtherRoot(p, ws[k], ws[m]);
      MulZero(Mul(u[k], ws[k]));
    }
    SumSingle(|xs|, m, f);
  }
}
