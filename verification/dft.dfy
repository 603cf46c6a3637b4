/** The discrete Fourier transform and its decomposition into smaller ones. */
module Dft {
  import opened Complex

  /** The table of the powers of a root of unity, turning one way or the other. */
  ghost predicate Roots(tw: seq<Cx>, inverse: bool)
  {
    && |tw| >= 1 && tw[0] == ONE
    && (forall i, j :: 0 <= i < |tw| && 0 <= j < |tw| ==> Mul(tw[i], tw[j]) == tw[(i + j) % |tw|])
    && (|tw| % 2 == 0 ==> Add(ONE, tw[|tw| / 2]) == ZERO)
    && (|tw| % 3 == 0 ==> Add(ONE, Add(tw[|tw| / 3], tw[2 * (|tw| / 3)])) == ZERO)
    && (|tw| % 4 == 0 ==> tw[|tw| / 4] == if inverse then Cx(0.0, 1.0) else Cx(0.0, -1.0))
    && (|tw| % 5 == 0 ==> Fifths(tw, |tw| / 5))
  }

  /** The fifth roots: the last two are the conjugates of the first two, which are not real. */
  ghost predicate Fifths(tw: seq<Cx>, d: nat)
  {
    && 4 * d < |tw| && tw[4 * d] == Conj(tw[d]) && tw[3 * d] == Conj(tw[2 * d])
    && tw[d].im != 0.0 && tw[2 * d].im != 0.0
  }

  /** The quarter turns, one way or the other. */
  function TurnBy(k: nat, inverse: bool): Cx
    requires k < 4
  {
    if k == 0 then ONE
    else if k == 1 then (if inverse then Cx(0.0, 1.0) else Cx(0.0, -1.0))
    else if k == 2 then Cx(-1.0, 0.0)
    else if inverse then Cx(0.0, -1.0) else Cx(0.0, 1.0)
  }

  function QuarterTable(inverse: bool): (tw: seq<Cx>)
    ensures |tw| == 4 && forall k :: 0 <= k < 4 ==> tw[k] == TurnBy(k, inverse)
  {
    [TurnBy(0, inverse), TurnBy(1, inverse), TurnBy(2, inverse), TurnBy(3, inverse)]
  }

  lemma MulI(z: Cx)
    ensures Mul(Cx(0.0, 1.0), z) == Cx(-z.im, z.re) && Mul(Cx(0.0, -1.0), z) == Cx(z.im, -z.re)
  {
  }

  lemma OneTurnMore(j: nat, inverse: bool)
    requires j < 4
    ensures Mul(TurnBy(1, inverse), TurnBy(j, inverse)) == TurnBy((1 + j) % 4, inverse)
  {
    hide Mul;
    MulI(TurnBy(j, inverse));
  }

  lemma {:induction false} TwoTurns(i: nat, j: nat, inverse: bool)
    requires i < 4 && j < 4
    ensures Mul(TurnBy(i, inverse), TurnBy(j, inverse)) == TurnBy((i + j) % 4, inverse)
    decreases i
  {
    hide Mul, TurnBy;
    if i == 0 {
      NoTurn(j, inverse);
    } else {
      OneTurnMore(i - 1, inverse);
      TwoTurns(i - 1, j, inverse);
      OneTurnMore((i - 1 + j) % 4, inverse);
      MulAssoc(TurnBy(1, inverse), TurnBy(i - 1, inverse), TurnBy(j, inverse));
    }
  }

  lemma NoTurn(j: nat, inverse: bool)
    requires j < 4
    ensures Mul(TurnBy(0, inverse), TurnBy(j, inverse)) == TurnBy(j, inverse)
  {
    hide Mul;
    MulUnit(TurnBy(j, inverse));
    MulComm(ONE, TurnBy(j, inverse));
  }

  lemma TurnProducts(inverse: bool)
    ensures var tw := QuarterTable(inverse);
      forall i, j :: 0 <= i < |tw| && 0 <= j < |tw| ==> Mul(tw[i], tw[j]) == tw[(i + j) % |tw|]
  {
    hide Mul, TurnBy, QuarterTable;
    var tw := QuarterTable(inverse);
    forall i, j | 0 <= i < |tw| && 0 <= j < |tw|
      ensures Mul(tw[i], tw[j]) == tw[(i + j) % |tw|]
    {
      TwoTurns(i, j, inverse);
    }
  }

  lemma TurnFacts(inverse: bool)
    ensures TurnBy(0, inverse) == ONE && Add(ONE, TurnBy(2, inverse)) == ZERO
    ensures TurnBy(1, inverse) == if inverse then Cx(0.0, 1.0) else Cx(0.0, -1.0)
  {
  }

  /** There are such tables: the quarter turns are one of length four. */
  lemma QuarterRoots(inverse: bool)
    ensures Roots(QuarterTable(inverse), inverse)
  {
    hide Mul, Add, TurnBy, QuarterTable, Fifths;
    TurnProducts(inverse);
    TurnFacts(inverse);
  }

  /** The root to the power e. */
  function W(tw: seq<Cx>, e: nat): Cx
    requires |tw| >= 1
  {
    tw[e % |tw|]
  }

  lemma WSmall(tw: seq<Cx>, e: nat)
    requires e < |tw|
    ensures W(tw, e) == tw[e]
  {
  }

  lemma WAdd(tw: seq<Cx>, inverse: bool, a: nat, b: nat)
    requires Roots(tw, inverse)
    ensures W(tw, a + b) == Mul(W(tw, a), W(tw, b))
  {
    ModAdd(a, b, |tw|);
  }

  lemma WPeriod(tw: seq<Cx>, a: nat, c: nat)
    requires |tw| >= 1
    ensures W(tw, a + c * |tw|) == W(tw, a)
  {
    ModMultiple(a, c, |tw|);
  }

  lemma ModAdd(a: nat, b: nat, n: nat)
    requires n > 0
    ensures (a % n + b % n) % n == (a + b) % n
  {
    var q := a / n + b / n;
    assert a + b == q * n + (a % n + b % n) by {
      assert a == (a / n) * n + a % n && b == (b / n) * n + b % n;
      assert (a / n) * n + (b / n) * n == q * n;
    }
    ModMultiple(a % n + b % n, q, n);
  }

  lemma {:induction false} ModMultiple(a: nat, c: nat, n: nat)
    requires n > 0
    ensures (a + c * n) % n == a % n
    decreases c
  {
    if c > 0 {
      ModMultiple(a, c - 1, n);
      assert a + c * n == (a + (c - 1) * n) + n;
      ModOne(a + (c - 1) * n, n);
    } else {
      assert c * n == 0;
    }
  }

  lemma ModOne(a: nat, n: nat)
    requires n > 0
    ensures (a + n) % n == a % n
  {
    var q, r := a / n, a % n;
    assert a == n * q + r;
    assert a + n == n * (q + 1) + r;
    ModIs(a + n, n, q + 1, r);
  }

  lemma ModIs(a: nat, n: nat, q: nat, r: nat)
    requires r < n && a == n * q + r
    ensures a % n == r
  {
    var d := a / n;
    assert a == n * d + a % n;
    assert n * (q - d) == a % n - r;
    Multiple(n, q - d);
  }

  lemma Multiple(n: nat, e: int)
    ensures e >= 1 ==> n * e >= n
    ensures e <= -1 ==> n * e + n <= 0
  {
  }

  // ---------- the transform ----------

  function At(f: seq<Cx>, i: nat): Cx
  {
    if i < |f| then f[i] else ZERO
  }

  function Times(a: nat, b: nat): nat
  {
    a * b
  }

  ghost function Term(tw: seq<Cx>, f: seq<Cx>, fo: nat, fs: nat, k: nat): nat -> Cx
    requires |tw| >= 1
  {
    (n: nat) => Mul(At(f, fo + Times(n, fs)), W(tw, Times(fs, Times(n, k))))
  }

  /** Coefficient k of the transform of the len values of f from index fo on, fs apart; the root
      that it uses is the fs-th power of that of the table. */
  ghost function Transform(tw: seq<Cx>, f: seq<Cx>, fo: nat, fs: nat, len: nat, k: nat): Cx
    requires |tw| >= 1
  {
    Sum(len, Term(tw, f, fo, fs, k))
  }

  /** q maps to coefficient u of the transform of every p-th value, starting with the q-th, turned by q * fs * k. */
  ghost function Turned(tw: seq<Cx>, f: seq<Cx>, fo: nat, fs: nat, p: nat, m: nat, u: nat, k: nat): nat -> Cx
    requires |tw| >= 1
  {
    (q: nat) => Mul(Transform(tw, f, fo + Times(q, fs), Times(fs, p), m, u), W(tw, Times(q, Times(fs, k))))
  }

  /** A transform of p * m values is made of p transforms of m values each. */
  lemma Decompose(tw: seq<Cx>, inverse: bool, f: seq<Cx>, fo: nat, fs: nat, p: nat, m: nat, u: nat, q1: nat)
    requires |tw| >= 1 && Roots(tw, inverse) && Times(fs, Times(p, m)) == |tw|
    ensures Transform(tw, f, fo, fs, Times(p, m), Times(q1, m) + u) ==
        Sum(p, Turned(tw, f, fo, fs, p, m, u, Times(q1, m) + u))
  {
    hide Roots, Mul, Add, Sum, W, Times;
    var k := Times(q1, m) + u;
    var g := Term(tw, f, fo, fs, k);
    ReindexTimes(p, m, g);
    forall q: nat | q < p
      ensures Inner(g, p, m)(q) == Turned(tw, f, fo, fs, p, m, u, k)(q)
    {
      var h, c := Term(tw, f, fo + Times(q, fs), Times(fs, p), u), W(tw, Times(q, Times(fs, k)));
      forall n: nat | n < m
        ensures Stride(g, q, p)(n) == Mul(h(n), c)
      {
        OneTerm(tw, inverse, f, fo, fs, p, m, u, q1, q, n);
      }
      SumMul(m, h, Stride(g, q, p), c);
    }
    SumEq(p, Inner(g, p, m), Turned(tw, f, fo, fs, p, m, u, k));
  }

  lemma ReindexTimes(p: nat, m: nat, g: nat -> Cx)
    ensures Sum(Times(p, m), g) == Sum(p, Inner(g, p, m))
  {
    hide Sum;
    Reindex(p, m, g);
  }

  lemma OneTerm(tw: seq<Cx>, inverse: bool, f: seq<Cx>, fo: nat, fs: nat, p: nat, m: nat, u: nat, q1: nat, q: nat,
                n: nat)
    requires |tw| >= 1 && Roots(tw, inverse) && Times(fs, Times(p, m)) == |tw|
    ensures Term(tw, f, fo, fs, Times(q1, m) + u)(q + n * p)
         == Mul(Term(tw, f, fo + Times(q, fs), Times(fs, p), u)(n), W(tw, Times(q, Times(fs, Times(q1, m) + u))))
  {
    hide Roots, Mul, W, At, Times;
    var k, i := Times(q1, m) + u, q + n * p;
    Place(fo, fs, p, q, n);
    Exponent(fs, p, m, u, q1, q, n);
    TurnTerm(tw, inverse, At(f, fo + Times(i, fs)), Times(fs, Times(i, k)), Times(Times(fs, p), Times(n, u)),
        Times(q, Times(fs, k)), Times(n, q1));
  }

  lemma TurnTerm(tw: seq<Cx>, inverse: bool, x: Cx, e: nat, a: nat, b: nat, c: nat)
    requires |tw| >= 1 && Roots(tw, inverse) && e == a + b + Times(c, |tw|)
    ensures Mul(x, W(tw, e)) == Mul(Mul(x, W(tw, a)), W(tw, b))
  {
    hide Roots, Mul, W;
    WPeriod(tw, a + b, c);
    WAdd(tw, inverse, a, b);
    MulAssoc(x, W(tw, a), W(tw, b));
  }

  lemma Place(fo: nat, fs: nat, p: nat, q: nat, n: nat)
    ensures fo + Times(q + n * p, fs) == fo + Times(q, fs) + Times(n, Times(fs, p))
  {
    assert (q + n * p) * fs == q * fs + n * p * fs;
    assert n * p * fs == n * (fs * p);
  }

  lemma Exponent(fs: nat, p: nat, m: nat, u: nat, q1: nat, q: nat, n: nat)
    ensures Times(fs, Times(q + n * p, Times(q1, m) + u))
         == Times(Times(fs, p), Times(n, u)) + Times(q, Times(fs, Times(q1, m) + u))
             + Times(Times(n, q1), Times(fs, Times(p, m)))
  {
    var k := Times(q1, m) + u;
    SplitSum(fs, q, Times(n, p), k);
    Swap(fs, q, k);
    SplitRight(Times(n, p), Times(q1, m), u);
    SplitRight(fs, Times(Times(n, p), Times(q1, m)), Times(Times(n, p), u));
    Regroup(fs, n, p, u);
    Regroup(fs, n, p, Times(q1, m));
    Regroup2(fs, p, n, q1, m);
  }

  lemma SplitSum(f: nat, a: nat, b: nat, k: nat)
    ensures Times(f, Times(a + b, k)) == Times(f, Times(a, k)) + Times(f, Times(b, k))
  {
    assert (a + b) * k == a * k + b * k;
  }

  lemma SplitRight(f: nat, a: nat, b: nat)
    ensures Times(f, a + b) == Times(f, a) + Times(f, b)
  {
  }

  lemma Swap(a: nat, b: nat, c: nat)
    ensures Times(a, Times(b, c)) == Times(b, Times(a, c))
  {
  }

  lemma Regroup(f: nat, n: nat, p: nat, u: nat)
    ensures Times(f, Times(Times(n, p), u)) == Times(Times(f, p), Times(n, u))
  {
    assert n * p * u == p * (n * u);
    assert f * (p * (n * u)) == (f * p) * (n * u);
  }

  lemma Regroup2(f: nat, p: nat, n: nat, q: nat, m: nat)
    ensures Times(Times(f, p), Times(n, Times(q, m))) == Times(Times(n, q), Times(f, Times(p, m)))
  {
    var a, b := f * p, n * q;
    assert n * (q * m) == b * m;
    assert a * (b * m) == b * (a * m);
    assert a * m == f * (p * m);
  }
}
