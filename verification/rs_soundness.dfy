/** What the decoder returns for words beyond its reach. Adding the values of Forney's formula at the
    places of a full set of roots completes the block to a codeword, and no codeword is nearer to a
    block than the length of the shortest generator of its syndromes. */
module RsSoundness {
  import opened Gf256
  import opened Polynomials
  import opened PowerSums
  import opened ErrorValues
  import opened RsTables
  import opened RsEncode
  import opened RsErrors

  // ---------- power sums from the locator ----------

  /** A polynomial that vanishes at the inverse of every point generates every power sum. */
  lemma RootsGenerate(p: seq<byte>, s: seq<byte>, u: seq<byte>, xs: seq<byte>, ws: seq<byte>)
    requires LocatorFor(p, xs, ws) && IsPowerSums(s, u, xs)
    ensures Generates(p, s, |xs|, |s|)
  {
    hide Add, Mul, Sum, Eval, Conv, Rev, Pow;
    var v := |xs|;
    forall j: nat | v <= j < |s|
      ensures Conv(p, s, j) == 0
    {
      ConvOfPowerSums(p, s, u, xs, j);
      var c := Scaled(u, xs, j - v);
      forall k: nat | k < v
        ensures ValueTerm(Rev(p), c, xs)(k) == 0
      {
        EvalRev(p, xs[k], ws[k]);
        MulZero(Pow(xs[k], v));
        MulZero(c[k]);
      }
      SumZero(v, ValueTerm(Rev(p), c, xs));
    }
  }

  /** Convolution with a polynomial of constant term one determines the sequence. */
  lemma {:induction false} ConvInjective(p: seq<byte>, s: seq<byte>, t: seq<byte>, n: nat)
    requires |p| > 0 && p[0] == 1 && n <= |s| == |t|
    requires forall j: nat {:trigger Conv(p, s, j)} :: j < n ==> Conv(p, s, j) == Conv(p, t, j)
    ensures s[..n] == t[..n]
  {
    hide Add, Mul, Conv;
    if n == 0 {
    } else {
      ConvInjective(p, s, t, n - 1);
      var j := n - 1;
      forall i: nat | i < j
        ensures Coef(s, i) == Coef(t, i)
      {
        assert s[..j][i] == t[..j][i];
      }
      assert Conv(p, s, j) == Conv(p, t, j);
      LastDetermined(p, s, t, j);
    }
  }

  lemma LastDetermined(p: seq<byte>, s: seq<byte>, t: seq<byte>, j: nat)
    requires |p| > 0 && p[0] == 1 && j < |s| == |t| && Conv(p, s, j) == Conv(p, t, j)
    requires forall i: nat :: i < j ==> Coef(s, i) == Coef(t, i)
    ensures s[j] == t[j]
  {
    hide Add, Mul, Sum, Conv;
    var g := LaterTerm(p, s, j);
    ConvFirst(p, s, j);
    ConvFirst(p, t, j);
    forall i: nat | i < j
      ensures g(i) == LaterTerm(p, t, j)(i)
    {
      var q: nat := j - (i + 1);
      assert Coef(s, q) == Coef(t, q);
      assert g(i) == ConvTerm(p, s, j)(i + 1) == Mul(Coef(p, i + 1), Coef(s, q));
      assert LaterTerm(p, t, j)(i) == ConvTerm(p, t, j)(i + 1) == Mul(Coef(p, i + 1), Coef(t, q));
    }
    SumEq(j, g, LaterTerm(p, t, j));
    AddComm(s[j], Sum(j, g));
    AddComm(t[j], Sum(j, g));
    AddCancel(Sum(j, g), s[j]);
    AddCancel(Sum(j, g), t[j]);
  }

  ghost function LaterTerm(p: seq<byte>, s: seq<byte>, j: nat): nat -> byte
  {
    (i: nat) => ConvTerm(p, s, j)(i + 1)
  }

  lemma ConvFirst(p: seq<byte>, s: seq<byte>, j: nat)
    requires |p| > 0 && p[0] == 1 && j < |s|
    ensures Conv(p, s, j) == Add(s[j], Sum(j, LaterTerm(p, s, j)))
  {
    hide Add, Mul, Sum;
    SumShift(j, ConvTerm(p, s, j), LaterTerm(p, s, j));
    MulOne(s[j]);
  }

  /** The values that the evaluator prescribes at the inverse of every point. */
  ghost predicate ValuesFor(u: seq<byte>, om: seq<byte>, p: seq<byte>, xs: seq<byte>, ws: seq<byte>)
  {
    && |u| == |xs| == |ws|
    && forall k :: 0 <= k < |u| ==> Mul(u[k], Deriv(p, ws[k])) == Mul(Eval(om, ws[k]), xs[k])
  }

  // e*d == o*x with x*w == 1 gives o == (e*w)*d
  lemma ValueBack(e: byte, d: byte, o: byte, x: byte, w: byte)
    requires Mul(e, d) == Mul(o, x) && Mul(x, w) == 1
    ensures o == Mul(Mul(e, w), d)
  {
    hide *;
    MulAssoc(o, x, w);
    MulOne(o);
    MulComm(o, 1);
    MulAssoc(e, d, w);
    MulComm(d, w);
    MulAssoc(e, w, d);
  }

  lemma EvaluatorsAgree(om: seq<byte>, ot: seq<byte>, u: seq<byte>, p: seq<byte>, t: seq<byte>, xs: seq<byte>,
                        ws: seq<byte>, k: nat)
    requires LocatorFor(p, xs, ws) && |xs| <= |t| && k < |xs|
    requires IsPowerSums(t, u, xs) && IsEvaluator(ot, p, t) && ValuesFor(u, om, p, xs, ws)
    ensures Eval(om, ws[k]) == Eval(ot, ws[k])
  {
    hide Add, Mul, Eval, Deriv, Conv, PowerSum;
    Forney(ot, p, t, u, xs, ws, k);
    ValueBack(u[k], Deriv(p, ws[k]), Eval(om, ws[k]), xs[k], ws[k]);
  }

  /** A locator of full degree that generates the syndromes, with the values of Forney's formula at
      its roots, accounts for every syndrome. */
  lemma ValuesGiveSyndromes(s: seq<byte>, u: seq<byte>, om: seq<byte>, p: seq<byte>, xs: seq<byte>, ws: seq<byte>)
    requires LocatorFor(p, xs, ws) && |xs| <= |s| && Generates(p, s, |xs|, |s|)
    requires IsEvaluator(om, p, s) && ValuesFor(u, om, p, xs, ws)
    ensures IsPowerSums(s, u, xs)
  {
    hide Add, Mul, Eval, Deriv, Conv, PowerSum, Sum;
    var n := |s|;
    var t := seq(n, (i: nat) => PowerSum(u, xs, i));
    var ot := seq(n, (i: nat) => Conv(p, t, i));
    RootsGenerate(p, t, u, xs, ws);
    forall k | 0 <= k < |xs|
      ensures Eval(om, ws[k]) == Eval(ot, ws[k])
    {
      EvaluatorsAgree(om, ot, u, p, t, xs, ws, k);
    }
    InversesDistinct(xs, ws);
    SameAtRoots(om, ot, ws);
    forall j: nat | j < n
      ensures Conv(p, s, j) == Conv(p, t, j)
    {
      assert om[j] == ot[j];
    }
    ConvInjective(p, s, t, n);
    assert s[..n] == s && t[..n] == t;
  }

  /** Two polynomials of degree less than the number of points where they agree are equal. */
  lemma SameAtRoots(f: seq<byte>, g: seq<byte>, ws: seq<byte>)
    requires |f| == |g| >= |ws| && Distinct(ws)
    requires forall i :: |ws| <= i < |f| ==> f[i] == 0 && g[i] == 0
    requires forall k :: 0 <= k < |ws| ==> Eval(f, ws[k]) == Eval(g, ws[k])
    ensures f == g
  {
    hide Add, Mul, Eval, Sum;
    var v := |ws|;
    var d := seq(v, (i: nat) requires i < v => Add(f[i], g[i]));
    forall k | 0 <= k < v
      ensures Eval(d, ws[k]) == 0
    {
      EvalSum(f, g, d, ws[k]);
      AddSelf(Eval(f, ws[k]));
    }
    TooManyRoots(d, ws);
    forall i | 0 <= i < |f|
      ensures f[i] == g[i]
    {
      if i < v {
        assert d[i] == 0;
        AddIsZero(f[i], g[i]);
      }
    }
  }

  lemma EvalSum(f: seq<byte>, g: seq<byte>, d: seq<byte>, x: byte)
    requires |f| == |g| >= |d|
    requires forall i :: 0 <= i < |d| ==> d[i] == Add(f[i], g[i])
    requires forall i :: |d| <= i < |f| ==> f[i] == 0 && g[i] == 0
    ensures Eval(d, x) == Add(Eval(f, x), Eval(g, x))
  {
    hide Add, Mul, Eval, Sum, Pow;
    var n := |f|;
    EvalExtend(f, n, x);
    EvalExtend(g, n, x);
    EvalExtend(d, n, x);
    forall i: nat | i < n
      ensures EvalTerm(d, x)(i) == Add(EvalTerm(f, x)(i), EvalTerm(g, x)(i))
    {
      AddZero(0);
      assert Coef(d, i) == Add(Coef(f, i), Coef(g, i));
      MulAddLeft(Coef(f, i), Coef(g, i), Pow(x, i));
    }
    SumAdd(n, EvalTerm(f, x), EvalTerm(g, x), EvalTerm(d, x));
  }

  // ---------- the corrected block ----------

  /** d is w with u[k] added at each place ps[k]. */
  ghost predicate Patched(w: seq<byte>, d: seq<byte>, ps: seq<nat>, u: seq<byte>)
  {
    && |d| == |w| && |u| == |ps| && Increasing(ps)
    && (forall k :: 0 <= k < |ps| ==> ps[k] < |w| && d[ps[k]] == Add(w[ps[k]], u[k]))
    && forall i :: 0 <= i < |w| && i !in ps ==> d[i] == w[i]
  }

  /** w with one symbol changed by e. */
  ghost function Touched(w: seq<byte>, l: nat, e: byte): (d: seq<byte>)
    requires l < |w|
    ensures |d| == |w|
  {
    w[l := Add(w[l], e)]
  }

  lemma {:induction false} TouchedHorner(w: seq<byte>, l: nat, e: byte, m: nat, x: byte)
    requires l < |w| && m <= |w|
    ensures Horner(Touched(w, l, e), m, x) == if m <= l then Horner(w, m, x)
        else Add(Horner(w, m, x), Mul(e, Pow(x, m - 1 - l)))
    decreases m
  {
    hide Add, Mul;
    if m == 0 {
    } else {
      TouchedHorner(w, l, e, m - 1, x);
      if m - 1 == l {
        assert Pow(x, 0) == 1;
        TouchedHere(Mul(x, Horner(w, l, x)), w[l], e);
      } else if m - 1 > l {
        assert Pow(x, m - 1 - l) == Mul(x, Pow(x, m - 2 - l));
        TouchedBefore(x, Horner(w, m - 1, x), e, Pow(x, m - 2 - l), w[m - 1]);
      }
    }
  }

  lemma TouchedHere(h: byte, a: byte, e: byte)
    ensures Add(h, Add(a, e)) == Add(Add(h, a), Mul(e, 1))
  {
    hide *;
    AddAssoc(h, a, e);
    MulOne(e);
    MulComm(e, 1);
  }

  // x*(h + e*y) + a == (x*h + a) + e*(x*y)
  lemma TouchedBefore(x: byte, h: byte, e: byte, y: byte, a: byte)
    ensures Add(Mul(x, Add(h, Mul(e, y))), a) == Add(Add(Mul(x, h), a), Mul(e, Mul(x, y)))
  {
    hide *;
    MulAddRight(x, h, Mul(e, y));
    MulAssoc(x, e, y);
    MulComm(x, e);
    MulAssoc(e, x, y);
    AddAssoc(Mul(x, h), Mul(e, Mul(x, y)), a);
    AddComm(Mul(e, Mul(x, y)), a);
    AddAssoc(Mul(x, h), a, Mul(e, Mul(x, y)));
  }

  lemma TouchedSyndrome(w: seq<byte>, l: nat, e: byte, i: nat)
    requires |w| == 255 && l < 255
    ensures Horner(Touched(w, l, e), 255, Alpha(i)) == Add(Horner(w, 255, Alpha(i)), Mul(e, Pow(Alpha(254 - l), i)))
  {
    hide Add, Mul, Pow, Alpha, Horner, Touched;
    TouchedHorner(w, l, e, 255, Alpha(i));
    PowAlpha(i, 254 - l);
    PowAlpha(254 - l, i);
    assert i * (254 - l) == (254 - l) * i;
  }

  /** Patching adds the power sums of the values to the syndromes. */
  lemma {:induction false} PatchedSyndrome(w: seq<byte>, d: seq<byte>, ps: seq<nat>, u: seq<byte>, i: nat)
    requires |w| == 255 && Patched(w, d, ps, u)
    ensures Horner(d, 255, Alpha(i)) == Add(Horner(w, 255, Alpha(i)), PowerSum(u, Points(ps), i))
    decreases |ps|
  {
    hide Add, Mul, Pow, Alpha, Horner, Sum, Touched;
    if ps == [] {
      assert d == w;
      NoPowerSum(u, Points(ps), i);
      AddZero(Horner(w, 255, Alpha(i)));
    } else {
      var n := |ps| - 1;
      var before := d[ps[n] := w[ps[n]]];
      PatchedBefore(w, d, ps, u);
      PatchedSyndrome(w, before, ps[..n], u[..n], i);
      TouchedSyndrome(before, ps[n], u[n], i);
      LastPower(u, Points(ps), i);
      assert Points(ps)[..n] == Points(ps[..n]);
      AddAssoc(Horner(w, 255, Alpha(i)), PowerSum(u[..n], Points(ps[..n]), i), Mul(u[n], Pow(Alpha(254 - ps[n]), i)));
    }
  }

  lemma PatchedBefore(w: seq<byte>, d: seq<byte>, ps: seq<nat>, u: seq<byte>)
    requires Patched(w, d, ps, u) && ps != []
    ensures var n := |ps| - 1; var before := d[ps[n] := w[ps[n]]];
      Patched(w, before, ps[..n], u[..n]) && d == Touched(before, ps[n], u[n])
  {
    hide Add;
    var n := |ps| - 1;
    var before := d[ps[n] := w[ps[n]]];
    forall i | 0 <= i < |w| && i !in ps[..n]
      ensures before[i] == w[i]
    {
      assert i != ps[n] ==> i !in ps;
    }
  }

  lemma NoPowerSum(u: seq<byte>, xs: seq<byte>, i: nat)
    requires xs == []
    ensures PowerSum(u, xs, i) == 0
  {
  }

  lemma LastPower(u: seq<byte>, xs: seq<byte>, i: nat)
    requires |u| == |xs| > 0
    ensures var n := |xs| - 1; PowerSum(u, xs, i) == Add(PowerSum(u[..n], xs[..n], i), Mul(u[n], Pow(xs[n], i)))
  {
    hide Add, Mul, Pow;
    var n := |xs| - 1;
    SumEq(n, PowerTerm(u, xs, i), PowerTerm(u[..n], xs[..n], i));
  }

  /** A block whose syndromes are the power sums of the values added to it becomes a codeword. */
  lemma PatchedIsCodeword(w: seq<byte>, d: seq<byte>, ps: seq<nat>, u: seq<byte>, s: seq<byte>)
    requires |w| == 255 && Patched(w, d, ps, u) && AreSyndromes(s, w) && IsPowerSums(s, u, Points(ps))
    ensures IsCodeword(d, |s|)
  {
    hide Add, Mul, Alpha, Horner, PowerSum, Points;
    forall i: nat | i < |s|
      ensures Horner(d, |d|, Alpha(i)) == 0
    {
      PatchedSyndrome(w, d, ps, u, i);
      AddSelf(s[i]);
    }
  }
}
