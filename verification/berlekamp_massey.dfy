/** The invariant of the Berlekamp-Massey algorithm, for any sequence of syndromes. */
module BerlekampMassey {
  import opened Gf256
  import opened Polynomials
  import opened PowerSums

  // ---------- convolution is linear ----------

  lemma ConvLinear(p: seq<byte>, q: seq<byte>, c: byte, r: seq<byte>, s: seq<byte>, j: nat)
    requires |p| == |q| == |r|
    requires forall i :: 0 <= i < |r| ==> r[i] == Add(p[i], Mul(c, q[i]))
    ensures Conv(r, s, j) == Add(Conv(p, s, j), Mul(c, Conv(q, s, j)))
  {
    hide Add, Mul, Sum;
    var f, g, h := ConvTerm(p, s, j), ConvTerm(q, s, j), ConvTerm(r, s, j);
    var cg := (i: nat) => Mul(c, g(i));
    forall i: nat | i < j + 1
      ensures h(i) == Add(f(i), cg(i))
    {
      CoefLinear(p, q, c, r, i);
      SpreadTerm(Coef(p, i), Coef(q, i), c, Coef(s, j - i));
    }
    SumScale(j + 1, c, g, cg);
    SumAdd(j + 1, f, cg, h);
  }

  lemma CoefLinear(p: seq<byte>, q: seq<byte>, c: byte, r: seq<byte>, i: nat)
    requires |p| == |q| == |r|
    requires forall k :: 0 <= k < |r| ==> r[k] == Add(p[k], Mul(c, q[k]))
    ensures Coef(r, i) == Add(Coef(p, i), Mul(c, Coef(q, i)))
  {
    hide Add, Mul;
    MulZero(c);
    AddZero(0);
  }

  lemma ConvScale(p: seq<byte>, c: byte, r: seq<byte>, s: seq<byte>, j: nat)
    requires |p| == |r|
    requires forall i :: 0 <= i < |r| ==> r[i] == Mul(c, p[i])
    ensures Conv(r, s, j) == Mul(c, Conv(p, s, j))
  {
    hide Add, Mul, Sum;
    var f, h := ConvTerm(p, s, j), ConvTerm(r, s, j);
    forall i: nat | i < j + 1
      ensures h(i) == Mul(c, f(i))
    {
      MulZero(c);
      MulAssoc(c, Coef(p, i), Coef(s, j - i));
    }
    SumScale(j + 1, c, f, h);
  }

  /** z * b, in an array of fixed length. */
  ghost function Shift(b: seq<byte>): (r: seq<byte>)
    ensures |r| == |b|
    ensures |b| > 0 ==> r[0] == 0 && forall i :: 0 <= i < |b| - 1 ==> r[i + 1] == b[i]
  {
    if b == [] then [] else [0] + b[..|b| - 1]
  }

  lemma ConvShift(b: seq<byte>, s: seq<byte>, j: nat)
    requires j < |b|
    ensures Conv(Shift(b), s, j) == if j == 0 then 0 else Conv(b, s, j - 1)
  {
    hide Add, Mul, Sum, Shift;
    var f := ConvTerm(Shift(b), s, j);
    assert f(0) == 0 by {
      MulZero(Coef(s, j));
    }
    if j == 0 {
      SumZero(1, f);
    } else {
      var g := ConvTerm(b, s, j - 1);
      forall i: nat | i < j
        ensures g(i) == f(i + 1)
      {
        assert (j - 1) - i == j - (i + 1);
        assert Coef(Shift(b), i + 1) == Coef(b, i);
      }
      SumShift(j, f, g);
      AddZero(Sum(j, g));
    }
  }

  // ---------- the invariant ----------

  /** After r steps: lambda has constant term one, degree at most el <= r, and generates the
      first r syndromes from position el on. The helper b has degree at most r - el and, once
      el is positive, its convolution with s is one at r - 1 and zero for the el - 1 places before. */
  ghost predicate Invariant(lambda: seq<byte>, b: seq<byte>, el: nat, r: nat, s: seq<byte>)
  {
    && |lambda| == |b| == |s| + 1 && el <= r <= |s|
    && lambda[0] == 1 && DegreeAtMost(lambda, el) && Generates(lambda, s, el, r)
    && DegreeAtMost(b, r - el)
    && (el > 0 ==> Conv(b, s, r - 1) == 1 && Generates(b, s, r - el, r - 1))
  }

  lemma Initially(lambda: seq<byte>, b: seq<byte>, s: seq<byte>)
    requires |lambda| == |b| == |s| + 1 && lambda[0] == b[0] == 1
    requires forall i :: 1 <= i <= |s| ==> lambda[i] == 0 && b[i] == 0
    ensures Invariant(lambda, b, 0, 0, s)
  {
    hide Conv;
  }

  /** A shift of b never drops a nonzero coefficient. */
  lemma ShiftKeeps(lambda: seq<byte>, b: seq<byte>, el: nat, r: nat, s: seq<byte>)
    requires Invariant(lambda, b, el, r, s) && r < |s|
    ensures b[|b| - 1] == 0
    ensures DegreeAtMost(Shift(b), r + 1 - el)
  {
    hide Conv, Shift;
    forall i | 0 <= i < |b| && i > r + 1 - el
      ensures Shift(b)[i] == 0
    {
      assert Shift(b)[(i - 1) + 1] == b[i - 1];
    }
  }

  // What the shifted helper looks like one step later.
  lemma ShiftHelper(lambda: seq<byte>, b: seq<byte>, el: nat, r: nat, s: seq<byte>)
    requires Invariant(lambda, b, el, r, s) && r < |s| && el > 0
    ensures Conv(Shift(b), s, r) == 1 && Generates(Shift(b), s, r + 1 - el, r)
  {
    hide Conv, Shift;
    ConvShift(b, s, r);
    forall j: nat | r + 1 - el <= j < r
      ensures Conv(Shift(b), s, j) == 0
    {
      ConvShift(b, s, j);
    }
  }

  /** A zero discrepancy: lambda stays, b is shifted. */
  lemma StepZero(lambda: seq<byte>, b: seq<byte>, el: nat, r: nat, s: seq<byte>)
    requires Invariant(lambda, b, el, r, s) && r < |s| && Conv(lambda, s, r) == 0
    ensures Invariant(lambda, Shift(b), el, r + 1, s)
  {
    hide Conv, Shift;
    ShiftKeeps(lambda, b, el, r, s);
    if el > 0 {
      ShiftHelper(lambda, b, el, r, s);
    }
  }

  ghost predicate IsCorrected(t: seq<byte>, lambda: seq<byte>, b: seq<byte>, d: byte)
  {
    |t| == |lambda| == |b| && forall i :: 0 <= i < |t| ==> t[i] == Add(lambda[i], Mul(d, Shift(b)[i]))
  }

  // The corrected polynomial: its degree and the places where it already generates s.
  lemma CorrectedGenerates(t: seq<byte>, lambda: seq<byte>, b: seq<byte>, el: nat, r: nat, s: seq<byte>, el': nat)
    requires Invariant(lambda, b, el, r, s) && r < |s|
    requires Conv(lambda, s, r) != 0 && IsCorrected(t, lambda, b, Conv(lambda, s, r))
    requires el' >= el && el' >= r + 1 - el && el' <= r + 1
    ensures t[0] == 1 && DegreeAtMost(t, el') && Generates(t, s, el', r + 1)
  {
    hide Conv, Shift, Add, Mul;
    var d := Conv(lambda, s, r);
    ShiftKeeps(lambda, b, el, r, s);
    MulZero(d);
    AddZero(1);
    AddZero(0);
    assert t[0] == Add(lambda[0], Mul(d, Shift(b)[0]));
    forall i | 0 <= i < |t| && i > el'
      ensures t[i] == 0
    {
      assert lambda[i] == 0 && Shift(b)[i] == 0;
    }
    forall j: nat | el' <= j < r + 1
      ensures Conv(t, s, j) == 0
    {
      ShiftHelper(lambda, b, el, r, s);
      ConvLinear(lambda, Shift(b), d, t, s, j);
      MulOne(d);
      AddSelf(d);
    }
  }

  /** A nonzero discrepancy that the current length can absorb. */
  lemma StepSameLength(t: seq<byte>, lambda: seq<byte>, b: seq<byte>, el: nat, r: nat, s: seq<byte>)
    requires Invariant(lambda, b, el, r, s) && r < |s| && 2 * el > r
    requires Conv(lambda, s, r) != 0 && IsCorrected(t, lambda, b, Conv(lambda, s, r))
    ensures Invariant(t, Shift(b), el, r + 1, s)
  {
    hide Conv, Shift, Add, Mul;
    CorrectedGenerates(t, lambda, b, el, r, s, el);
    ShiftKeeps(lambda, b, el, r, s);
    ShiftHelper(lambda, b, el, r, s);
  }

  /** A nonzero discrepancy that makes the length grow to r + 1 - el; the old lambda, divided
      by the discrepancy, becomes the helper. */
  lemma StepLonger(t: seq<byte>, b': seq<byte>, lambda: seq<byte>, b: seq<byte>, el: nat, r: nat, s: seq<byte>)
    requires Invariant(lambda, b, el, r, s) && r < |s| && 2 * el <= r
    requires Conv(lambda, s, r) != 0 && IsCorrected(t, lambda, b, Conv(lambda, s, r))
    requires |b'| == |lambda|
    requires forall i :: 0 <= i < |b'| ==> b'[i] == Mul(Inv(Conv(lambda, s, r)), lambda[i])
    ensures Invariant(t, b', r + 1 - el, r + 1, s)
  {
    hide Conv, Shift, Add, Mul, Inv;
    var c := Inv(Conv(lambda, s, r));
    CorrectedGenerates(t, lambda, b, el, r, s, r + 1 - el);
    ConvScale(lambda, c, b', s, r);
    forall j: nat | el <= j < r
      ensures Conv(b', s, j) == 0
    {
      ConvScale(lambda, c, b', s, j);
      MulZero(c);
    }
    forall i | 0 <= i < |b'| && i > el
      ensures b'[i] == 0
    {
      MulZero(c);
    }
  }

  // ---------- the algorithm as a function of the syndromes ----------

  /** What the algorithm has computed: the locator, the helper, and the length. */
  datatype Progress = Progress(lambda: seq<byte>, b: seq<byte>, el: nat)

  /** The polynomial one, in an array of length n. */
  ghost function One(n: nat): (p: seq<byte>)
    ensures |p| == n && forall i :: 0 <= i < n ==> p[i] == if i == 0 then 1 else 0
  {
    seq(n, (i: nat) => if i == 0 then 1 else 0)
  }

  /** lambda - d * z * b */
  ghost function CorrectedBy(lambda: seq<byte>, b: seq<byte>, d: byte): (t: seq<byte>)
    requires |lambda| == |b|
    ensures IsCorrected(t, lambda, b, d)
  {
    seq(|lambda|, (i: nat) requires i < |lambda| => Add(lambda[i], Mul(d, Shift(b)[i])))
  }

  /** lambda / d */
  ghost function Divided(lambda: seq<byte>, d: byte): (b: seq<byte>)
    requires d != 0
    ensures |b| == |lambda| && forall i :: 0 <= i < |b| ==> b[i] == Mul(Inv(d), lambda[i])
  {
    seq(|lambda|, (i: nat) requires i < |lambda| => Mul(Inv(d), lambda[i]))
  }

  /** One step, for the discrepancy d at place r. */
  ghost function Advance(m: Progress, d: byte, r: nat): (m': Progress)
    requires |m.lambda| == |m.b|
    ensures |m'.lambda| == |m'.b| == |m.lambda|
  {
    if d == 0 then m.(b := Shift(m.b))
    else if 2 * m.el <= r then Progress(CorrectedBy(m.lambda, m.b, d), Divided(m.lambda, d), r + 1 - m.el)
    else Progress(CorrectedBy(m.lambda, m.b, d), Shift(m.b), m.el)
  }

  /** The state after r steps. */
  ghost function Massey(s: seq<byte>, r: nat): (m: Progress)
    requires r <= |s|
    ensures |m.lambda| == |m.b| == |s| + 1
  {
    if r == 0 then Progress(One(|s| + 1), One(|s| + 1), 0)
    else var m := Massey(s, r - 1); Advance(m, Conv(m.lambda, s, r - 1), r - 1)
  }

  ghost predicate Generator(q: seq<byte>, v: nat, s: seq<byte>)
  {
    |q| > 0 && q[0] == 1 && DegreeAtMost(q, v) && Generates(q, s, v, |s|)
  }

  /** No generator of s is shorter than el. */
  ghost predicate NoneShorter(el: nat, s: seq<byte>)
  {
    forall q, v {:trigger Generator(q, v, s)} :: Generator(q, v, s) ==> el <= v
  }

  // A nonzero discrepancy at place r rules out generators shorter than r + 1 - el.
  lemma LongerNeeded(lambda: seq<byte>, el: nat, s: seq<byte>, r: nat)
    requires el <= r < |s| && DegreeAtMost(lambda, el) && Generates(lambda, s, el, r) && Conv(lambda, s, r) != 0
    ensures NoneShorter(r + 1 - el, s)
  {
    hide Conv;
    forall q: seq<byte>, v: nat | Generator(q, v, s)
      ensures r + 1 - el <= v
    {
      MasseyBound(lambda, el, q, v, s, r);
    }
  }

  lemma AdvanceKeeps(m: Progress, r: nat, s: seq<byte>)
    requires r < |s| && Invariant(m.lambda, m.b, m.el, r, s) && NoneShorter(m.el, s)
    ensures var m' := Advance(m, Conv(m.lambda, s, r), r);
      Invariant(m'.lambda, m'.b, m'.el, r + 1, s) && NoneShorter(m'.el, s)
  {
    hide Conv, Shift, Inv, Mul, Add, CorrectedBy, Divided;
    var d := Conv(m.lambda, s, r);
    if d == 0 {
      StepZero(m.lambda, m.b, m.el, r, s);
    } else if 2 * m.el <= r {
      LongerNeeded(m.lambda, m.el, s, r);
      StepLonger(CorrectedBy(m.lambda, m.b, d), Divided(m.lambda, d), m.lambda, m.b, m.el, r, s);
    } else {
      StepSameLength(CorrectedBy(m.lambda, m.b, d), m.lambda, m.b, m.el, r, s);
    }
  }

  /** The invariant holds after every step, and no generator of all the syndromes is shorter than the
      length reached. */
  lemma {:induction false} MasseyInvariant(s: seq<byte>, r: nat)
    requires r <= |s|
    ensures var m := Massey(s, r); Invariant(m.lambda, m.b, m.el, r, s) && NoneShorter(m.el, s)
  {
    hide Conv, Invariant, Advance;
    if r == 0 {
      Initially(One(|s| + 1), One(|s| + 1), s);
    } else {
      MasseyInvariant(s, r - 1);
      AdvanceKeeps(Massey(s, r - 1), r - 1, s);
    }
  }

  /** The algorithm ends with a generator of the syndromes, and no generator is shorter. */
  lemma ShortestFound(s: seq<byte>)
    ensures var m := Massey(s, |s|);
      m.el <= |s| && Generator(m.lambda, m.el, s) && NoneShorter(m.el, s)
  {
    hide Conv, Advance, Massey;
    MasseyInvariant(s, |s|);
  }

  // ---------- the locator ----------

  /** The place of the last nonzero coefficient, or zero. */
  ghost function Degree(p: seq<byte>): (d: nat)
    ensures p != [] ==> d < |p|
  {
    if |p| <= 1 then 0 else if p[|p| - 1] != 0 then |p| - 1 else Degree(p[..|p| - 1])
  }

  lemma {:induction false} DegreeIs(p: seq<byte>, d: nat)
    requires d < |p| && (d > 0 ==> p[d] != 0) && forall i :: d < i < |p| ==> p[i] == 0
    ensures Degree(p) == d
    decreases |p|
  {
    if |p| == d + 1 {
    } else {
      DegreeIs(p[..|p| - 1], d);
    }
  }

  lemma {:induction false} DegreeLast(p: seq<byte>)
    requires p != []
    ensures Degree(p) > 0 ==> p[Degree(p)] != 0
    ensures forall i :: Degree(p) < i < |p| ==> p[i] == 0
    decreases |p|
  {
    if |p| <= 1 || p[|p| - 1] != 0 {
    } else {
      DegreeLast(p[..|p| - 1]);
    }
  }

  /** The locator found for the syndromes, up to its last nonzero coefficient. */
  ghost function LocatorOf(s: seq<byte>): (p: seq<byte>)
    ensures p != []
  {
    var lambda := Massey(s, |s|).lambda;
    lambda[..Degree(lambda) + 1]
  }

  /** The length found for the syndromes. */
  ghost function LengthOf(s: seq<byte>): nat
  {
    Massey(s, |s|).el
  }
}
