/** Finite sums and polynomials over GF(256). A polynomial is its sequence of coefficients,
    lowest degree first. */
module Polynomials {
  import opened Gf256

  // ---------- finite sums ----------

  ghost function Sum(n: nat, f: nat -> byte): byte
  {
    if n == 0 then 0 else Add(Sum(n - 1, f), f(n - 1))
  }

  lemma {:induction false} SumEq(n: nat, f: nat -> byte, g: nat -> byte)
    requires forall i: nat :: i < n ==> f(i) == g(i)
    ensures Sum(n, f) == Sum(n, g)
  {
    hide Add;
    if n == 0 {
    } else {
      SumEq(n - 1, f, g);
    }
  }

  lemma {:induction false} SumZero(n: nat, f: nat -> byte)
    requires forall i: nat :: i < n ==> f(i) == 0
    ensures Sum(n, f) == 0
  {
    hide Add;
    if n == 0 {
    } else {
      SumZero(n - 1, f);
      AddZero(0);
    }
  }

  lemma {:induction false} SumAdd(n: nat, f: nat -> byte, g: nat -> byte, h: nat -> byte)
    requires forall i: nat :: i < n ==> h(i) == Add(f(i), g(i))
    ensures Sum(n, h) == Add(Sum(n, f), Sum(n, g))
  {
    hide Add;
    AddZero(0);
    if n == 0 {
    } else {
      SumAdd(n - 1, f, g, h);
      AddSwap(Sum(n - 1, f), Sum(n - 1, g), f(n - 1), g(n - 1));
    }
  }

  lemma {:induction false} SumScale(n: nat, c: byte, f: nat -> byte, g: nat -> byte)
    requires forall i: nat :: i < n ==> g(i) == Mul(c, f(i))
    ensures Sum(n, g) == Mul(c, Sum(n, f))
  {
    hide Add, Mul;
    MulZero(c);
    if n == 0 {
    } else {
      SumScale(n - 1, c, f, g);
      MulAddRight(c, Sum(n - 1, f), f(n - 1));
    }
  }

  lemma {:induction false} SumExtend(m: nat, n: nat, f: nat -> byte)
    requires m <= n
    requires forall i: nat :: m <= i < n ==> f(i) == 0
    ensures Sum(n, f) == Sum(m, f)
    decreases n
  {
    hide Add;
    if m >= n {
    } else {
      SumExtend(m, n - 1, f);
      AddZero(Sum(m, f));
    }
  }

  lemma {:induction false} SumSingle(n: nat, k: nat, f: nat -> byte)
    requires k < n
    requires forall i: nat :: i < n && i != k ==> f(i) == 0
    ensures Sum(n, f) == f(k)
  {
    hide Add;
    SumZero(k, f);
    AddZero(f(k));
    SumExtend(k + 1, n, f);
  }

  lemma {:induction false} SumShift(n: nat, f: nat -> byte, g: nat -> byte)
    requires forall i: nat :: i < n ==> g(i) == f(i + 1)
    ensures Sum(n + 1, f) == Add(f(0), Sum(n, g))
  {
    hide Add;
    AddZero(f(0));
    if n == 0 {
      assert Sum(1, f) == Add(Sum(0, f), f(0));
    } else {
      SumShift(n - 1, f, g);
      AddAssoc(f(0), Sum(n - 1, g), g(n - 1));
    }
  }

  /** Summing a table by rows or by columns gives the same total. */
  lemma {:induction false} SumSwap(m: nat, n: nat, t: (nat, nat) -> byte, row: nat -> byte, col: nat -> byte)
    requires forall i: nat :: i < m ==> row(i) == Sum(n, j => t(i, j))
    requires forall j: nat :: j < n ==> col(j) == Sum(m, i => t(i, j))
    ensures Sum(m, row) == Sum(n, col)
    decreases m
  {
    hide Add;
    if m == 0 {
      SumZero(n, col);
    } else {
      var col' := (j: nat) => Sum(m - 1, i => t(i, j));
      var last := (j: nat) => t(m - 1, j);
      SumSwap(m - 1, n, t, row, col');
      forall j: nat | j < n
        ensures col(j) == Add(col'(j), last(j))
      {
        SumEq(m - 1, i => t(i, j), i => t(i, j));
      }
      SumAdd(n, col', last, col);
      SumEq(n, last, j => t(m - 1, j));
    }
  }

  // ---------- polynomials ----------

  ghost function Coef(p: seq<byte>, i: int): byte
  {
    if 0 <= i < |p| then p[i] else 0
  }

  ghost function Eval(p: seq<byte>, x: byte): byte
  {
    if p == [] then 0 else Add(p[0], Mul(x, Eval(p[1..], x)))
  }

  ghost predicate IsZero(p: seq<byte>)
  {
    forall i :: 0 <= i < |p| ==> p[i] == 0
  }

  ghost function EvalTerm(p: seq<byte>, x: byte): nat -> byte
  {
    (i: nat) => Mul(Coef(p, i), Pow(x, i))
  }

  lemma EvalTermShift(p: seq<byte>, x: byte, i: nat)
    requires |p| > 0
    ensures EvalTerm(p, x)(i + 1) == Mul(x, EvalTerm(p[1..], x)(i))
  {
    hide Mul;
    var c := Coef(p, i + 1);
    MulAssoc(x, c, Pow(x, i));
    MulComm(x, c);
    MulAssoc(c, x, Pow(x, i));
  }

  lemma {:induction false} EvalIsSum(p: seq<byte>, x: byte)
    ensures Eval(p, x) == Sum(|p|, EvalTerm(p, x))
  {
    hide Add, Mul, EvalTerm;
    if p == [] {
    } else {
      EvalIsSum(p[1..], x);
      var f, g := EvalTerm(p, x), EvalTerm(p[1..], x);
      var xg := (i: nat) => Mul(x, g(i));
      SumScale(|p| - 1, x, g, xg);
      forall i: nat | i < |p| - 1
        ensures xg(i) == f(i + 1)
      {
        EvalTermShift(p, x, i);
      }
      SumShift(|p| - 1, f, xg);
      ConstantTerm(p, x);
    }
  }

  lemma ConstantTerm(p: seq<byte>, x: byte)
    requires p != []
    ensures EvalTerm(p, x)(0) == p[0]
  {
    MulOne(p[0]);
  }

  lemma EvalCons(p: seq<byte>, x: byte)
    requires p != []
    ensures Eval(p, x) == Add(p[0], Mul(x, Eval(p[1..], x)))
  {
  }

  // Padding with zero coefficients does not change a polynomial.
  lemma EvalExtend(p: seq<byte>, n: nat, x: byte)
    requires |p| <= n
    ensures Eval(p, x) == Sum(n, EvalTerm(p, x))
  {
    hide Add, Mul, Eval;
    EvalIsSum(p, x);
    forall i: nat | |p| <= i < n
      ensures EvalTerm(p, x)(i) == 0
    {
      MulZero(Pow(x, i));
    }
    SumExtend(|p|, n, EvalTerm(p, x));
  }

  /** The quotient of p by (z - r), by synthetic division. */
  ghost function Quot(p: seq<byte>, r: byte): (q: seq<byte>)
    requires |p| > 0
    ensures |q| == |p| - 1
  {
    if |p| == 1 then [] else [Eval(p[1..], r)] + Quot(p[1..], r)
  }

  /** p(z) - p(r) == (z - r) * quotient(z) */
  lemma {:induction false} Factor(p: seq<byte>, r: byte, z: byte)
    requires |p| > 0
    ensures Add(Eval(p, z), Eval(p, r)) == Mul(Add(z, r), Eval(Quot(p, r), z))
  {
    var t := p[1..];
    var d := Add(z, r);
    EvalCons(p, z);
    EvalCons(p, r);
    if |p| == 1 {
      FactorConstant(p[0], z, r);
    } else {
      Factor(t, r, z);
      var q := Quot(p, r);
      assert q[0] == Eval(t, r) && q[1..] == Quot(t, r);
      EvalCons(q, z);
      FactorStep(p[0], Eval(t, z), Eval(t, r), Eval(Quot(t, r), z), r, z);
    }
  }

  lemma FactorConstant(c: byte, z: byte, r: byte)
    ensures Add(Add(c, Mul(z, 0)), Add(c, Mul(r, 0))) == Mul(Add(z, r), 0)
  {
    hide *;
    MulZero(z);
    MulZero(r);
    MulZero(Add(z, r));
    AddZero(c);
    AddSelf(c);
  }

  // c + z*a + c + r*b == (z + r)*(b + z*q) when a + b == (z + r)*q
  lemma FactorStep(c: byte, a: byte, b: byte, q: byte, r: byte, z: byte)
    requires Add(a, b) == Mul(Add(z, r), q)
    ensures Add(Add(c, Mul(z, a)), Add(c, Mul(r, b))) == Mul(Add(z, r), Add(b, Mul(z, q)))
  {
    hide *;
    var d := Add(z, r);
    // left side: z*a + r*b
    AddSwap(c, Mul(z, a), c, Mul(r, b));
    AddSelf(c);
    AddZero(Add(Mul(z, a), Mul(r, b)));
    // right side: d*b + z*(a + b) == z*b + r*b + z*a + z*b
    MulAddRight(d, b, Mul(z, q));
    MulAssoc(d, z, q);
    MulComm(d, z);
    MulAssoc(z, d, q);
    MulAddRight(z, a, b);
    MulAddLeft(z, r, b);
    AddComm(Mul(z, a), Mul(z, b));
    AddSwap(Mul(z, b), Mul(r, b), Mul(z, b), Mul(z, a));
    AddSelf(Mul(z, b));
    AddZero(Add(Mul(r, b), Mul(z, a)));
    AddComm(Mul(r, b), Mul(z, a));
  }

  // Any other root of p is a root of the quotient by (z - r).
  lemma OtherRoot(p: seq<byte>, r: byte, z: byte)
    requires |p| > 0 && Eval(p, r) == 0 && Eval(p, z) == 0 && z != r
    ensures Eval(Quot(p, r), z) == 0
  {
    hide *;
    Factor(p, r, z);
    AddSelf(0);
    AddIsZero(z, r);
    MulIsZero(Add(z, r), Eval(Quot(p, r), z));
  }

  ghost predicate Distinct(xs: seq<byte>)
  {
    forall i, j :: 0 <= i < j < |xs| ==> xs[i] != xs[j]
  }

  ghost predicate AllRoots(p: seq<byte>, xs: seq<byte>)
  {
    forall i :: 0 <= i < |xs| ==> Eval(p, xs[i]) == 0
  }

  // The coefficients of the quotient: p_i == q_(i-1) - r*q_i.
  lemma {:induction false} QuotCoef(p: seq<byte>, r: byte, i: nat)
    requires |p| > 0 && 0 < i
    ensures Coef(p, i) == Add(Coef(Quot(p, r), i - 1), Mul(r, Coef(Quot(p, r), i)))
    decreases i
  {
    hide Add, Mul;
    MulZero(r);
    AddZero(0);
    if |p| <= 1 {
    } else {
      EvalCons(p[1..], r);
      AddCancel(Mul(r, Eval(p[2..], r)), p[1]);
      if i > 1 {
        QuotCoef(p[1..], r, i - 1);
      } else if |p| > 2 {
        assert p[1..][1..] == p[2..];
      } else {
        assert p[1..][1..] == [] == p[2..];
      }
    }
  }

  /** A polynomial with as many distinct roots as coefficients is zero. */
  lemma {:induction false} TooManyRoots(p: seq<byte>, xs: seq<byte>)
    requires |xs| >= |p| && Distinct(xs) && AllRoots(p, xs)
    ensures IsZero(p)
    decreases |p|
  {
    if p == [] {
    } else {
      var r := xs[0];
      var q := Quot(p, r);
      forall i | 0 <= i < |xs| - 1
        ensures Eval(q, xs[1..][i]) == 0
      {
        OtherRoot(p, r, xs[i + 1]);
      }
      TooManyRoots(q, xs[1..]);
      ZeroQuotient(p, r);
    }
  }

  lemma ZeroQuotient(p: seq<byte>, r: byte)
    requires |p| > 0 && Eval(p, r) == 0 && IsZero(Quot(p, r))
    ensures IsZero(p)
  {
    hide Add, Mul;
    MulZero(r);
    AddZero(p[0]);
    AddZero(0);
    EvalCons(p, r);
    if |p| > 1 {
      assert Quot(p, r)[0] == Eval(p[1..], r);
    }
    forall i | 0 < i < |p|
      ensures p[i] == 0
    {
      QuotCoef(p, r, i);
    }
  }

  /** (z + r) * p */
  ghost function TimesRoot(p: seq<byte>, r: byte): (q: seq<byte>)
    ensures |q| == |p| + 1
  {
    seq(|p| + 1, (i: nat) => Add(Coef(p, i - 1), Mul(r, Coef(p, i))))
  }

  ghost function Times(c: byte, g: nat -> byte): nat -> byte
  {
    (i: nat) => Mul(c, g(i))
  }

  ghost function Delayed(c: byte, g: nat -> byte): nat -> byte
  {
    (i: nat) => DelayedAt(c, g, i)
  }

  ghost function DelayedAt(c: byte, g: nat -> byte, i: nat): byte
  {
    if i == 0 then 0 else Mul(c, g(i - 1))
  }

  lemma SumTimes(n: nat, c: byte, g: nat -> byte)
    ensures Sum(n, Times(c, g)) == Mul(c, Sum(n, g))
  {
    hide Mul;
    SumScale(n, c, g, Times(c, g));
  }

  lemma SumDelayed(n: nat, c: byte, g: nat -> byte)
    ensures Sum(n + 1, Delayed(c, g)) == Mul(c, Sum(n, g))
  {
    hide Mul, Sum;
    SumTimes(n, c, g);
    SumShift(n, Delayed(c, g), Times(c, g));
    AddZero(Mul(c, Sum(n, g)));
  }

  lemma EvalTimesRoot(p: seq<byte>, r: byte, z: byte)
    ensures Eval(TimesRoot(p, r), z) == Mul(Add(z, r), Eval(p, z))
  {
    hide Add, Mul, Eval, EvalTerm, Pow, TimesRoot, Sum, Times, Delayed;
    var n, q := |p|, TimesRoot(p, r);
    var f, g := EvalTerm(q, z), EvalTerm(p, z);
    EvalIsSum(q, z);
    EvalIsSum(p, z);
    EvalExtend(p, n + 1, z);
    forall i: nat | i < n + 1
      ensures f(i) == Add(Delayed(z, g)(i), Times(r, g)(i))
    {
      TimesRootTerm(p, r, z, i);
    }
    SumAdd(n + 1, Delayed(z, g), Times(r, g), f);
    SumTimes(n + 1, r, g);
    SumDelayed(n, z, g);
    MulAddLeft(z, r, Eval(p, z));
  }

  lemma TimesRootCoef(p: seq<byte>, r: byte, i: nat)
    requires i <= |p|
    ensures Coef(TimesRoot(p, r), i) == Add(Coef(p, i - 1), Mul(r, Coef(p, i)))
  {
    hide Add, Mul;
  }

  lemma NoCoef(p: seq<byte>)
    ensures Coef(p, -1) == 0
  {
  }

  lemma TimesRootTerm(p: seq<byte>, r: byte, z: byte, i: nat)
    requires i <= |p|
    ensures EvalTerm(TimesRoot(p, r), z)(i)
         == Add(Delayed(z, EvalTerm(p, z))(i), Times(r, EvalTerm(p, z))(i))
  {
    hide Add, Mul, Pow, Coef, TimesRoot;
    var a, b, w := Coef(p, i - 1), Coef(p, i), Pow(z, i);
    TimesRootCoef(p, r, i);
    SpreadTerm(a, b, r, w);
    if i == 0 {
      NoCoef(p);
      MulZero(w);
    } else {
      PowUnder(z, a, i - 1);
    }
  }

  lemma SpreadTerm(a: byte, b: byte, r: byte, w: byte)
    ensures Mul(Add(a, Mul(r, b)), w) == Add(Mul(a, w), Mul(r, Mul(b, w)))
  {
    hide *;
    MulAddLeft(a, Mul(r, b), w);
    MulAssoc(r, b, w);
  }

  lemma PowUnder(z: byte, c: byte, i: nat)
    ensures Mul(z, Mul(c, Pow(z, i))) == Mul(c, Pow(z, i + 1))
  {
    hide Mul;
    MulAssoc(z, c, Pow(z, i));
    MulComm(z, c);
    MulAssoc(c, z, Pow(z, i));
  }

  /** The product of (z + x) over the given x: leading coefficient one, roots exactly the x. */
  ghost function RootPoly(xs: seq<byte>): (p: seq<byte>)
    ensures |p| == |xs| + 1
  {
    if xs == [] then [1] else TimesRoot(RootPoly(xs[..|xs| - 1]), xs[|xs| - 1])
  }

  lemma {:induction false} RootPolyRoots(xs: seq<byte>, z: byte)
    ensures Eval(RootPoly(xs), z) == 0 <==> z in xs
  {
    if xs == [] {
      EvalOfOne(z);
    } else {
      var init, r := xs[..|xs| - 1], xs[|xs| - 1];
      assert xs == init + [r];
      RootPolyRoots(init, z);
      hide Add, Mul, Eval, TimesRoot;
      EvalTimesRoot(RootPoly(init), r, z);
      MulIsZero(Add(z, r), Eval(RootPoly(init), z));
      AddIsZero(z, r);
    }
  }

  lemma EvalOfOne(z: byte)
    ensures Eval([1], z) == 1
  {
    MulZero(z);
    AddZero(1);
  }

  lemma {:induction false} RootPolyMonic(xs: seq<byte>)
    ensures RootPoly(xs)[|xs|] == 1
  {
    if xs == [] {
    } else {
      var init, r := xs[..|xs| - 1], xs[|xs| - 1];
      RootPolyMonic(init);
      MulZero(r);
      AddZero(1);
      hide Add, Mul;
    }
  }

  /** The formal derivative: only the odd coefficients survive in characteristic two. */
  ghost function Deriv(p: seq<byte>, x: byte): byte
  {
    if |p| < 2 then 0 else Add(p[1], Mul(Mul(x, x), Deriv(p[2..], x)))
  }

  /** The quotient by (z - x), taken at x, is the derivative at x. */
  lemma {:induction false} DerivIsQuot(p: seq<byte>, x: byte)
    requires |p| > 0
    ensures Eval(Quot(p, x), x) == Deriv(p, x)
    decreases |p|
  {
    if |p| < 2 {
    } else {
      var t := p[1..];
      QuotCons(p, x);
      EvalCons(t, x);
      if |p| == 2 {
        DerivPair(p[1], x);
        assert t[1..] == [] == Quot(t, x) == p[2..];
      } else {
        assert t[1..] == p[2..];
        QuotCons(t, x);
        DerivIsQuot(p[2..], x);
        hide Add, Mul, Eval, Quot;
        DerivStep(p[1], Eval(p[2..], x), Eval(Quot(p[2..], x), x), x);
      }
    }
  }

  lemma DerivPair(c: byte, x: byte)
    ensures Add(Add(c, Mul(x, 0)), Mul(x, 0)) == c
    ensures Add(c, Mul(Mul(x, x), 0)) == c
  {
    MulZero(x);
    MulZero(Mul(x, x));
    AddZero(c);
  }

  lemma QuotCons(p: seq<byte>, x: byte)
    requires |p| >= 2
    ensures Eval(Quot(p, x), x) == Add(Eval(p[1..], x), Mul(x, Eval(Quot(p[1..], x), x)))
  {
    var q := Quot(p, x);
    assert q[0] == Eval(p[1..], x) && q[1..] == Quot(p[1..], x);
    EvalCons(q, x);
  }

  // c + x*a + x*(a + x*b) == c + x*x*b
  lemma DerivStep(c: byte, a: byte, b: byte, x: byte)
    ensures Add(Add(c, Mul(x, a)), Mul(x, Add(a, Mul(x, b)))) == Add(c, Mul(Mul(x, x), b))
  {
    hide *;
    MulAddRight(x, a, Mul(x, b));
    MulAssoc(x, x, b);
    AddAssoc(c, Mul(x, a), Add(Mul(x, a), Mul(x, Mul(x, b))));
    AddCancel(Mul(x, a), Mul(x, Mul(x, b)));
  }
}
