/** What the decoder does, case by case: in closed form with two parity symbols, and two families of
    received blocks, for any number of parity symbols, on which it never ends or corrects wrongly. */
module RsCases {
  import opened Gf256
  import opened Polynomials
  import opened PowerSums
  import opened BerlekampMassey
  import opened RsTables
  import opened RsEncode
  import opened RsErrors
  import opened RsSoundness
  import opened RsSearch
  import opened RsOutcome

  // ---------- the first steps of Berlekamp-Massey ----------

  lemma ConvThree(p: seq<byte>, s: seq<byte>, j: nat)
    requires forall i :: 3 <= i < |p| ==> p[i] == 0
    ensures Conv(p, s, j) == Add(Add(Mul(Coef(p, 0), Coef(s, j)), Mul(Coef(p, 1), Coef(s, j - 1))),
        Mul(Coef(p, 2), Coef(s, j - 2)))
  {
    hide Add, Mul, Sum;
    var f, n := ConvTerm(p, s, j), if j < 2 then j + 1 else 3;
    ConvTruncateAt(p, s, j, n);
    forall i: nat | n <= i < 3
      ensures f(i) == 0
    {
      MulZero(Coef(p, i));
    }
    SumExtend(n, 3, f);
    SumThree(f);
  }

  lemma ConvTruncateAt(p: seq<byte>, s: seq<byte>, j: nat, n: nat)
    requires n == (if j < 2 then j + 1 else 3) && forall i :: 3 <= i < |p| ==> p[i] == 0
    ensures Conv(p, s, j) == Sum(n, ConvTerm(p, s, j))
  {
    hide Add, Mul, Sum;
    if j >= 2 {
      ConvTruncate(p, s, j, 3);
    }
  }

  lemma SumThree(f: nat -> byte)
    ensures Sum(3, f) == Add(Add(f(0), f(1)), f(2))
  {
    hide Add;
    assert Sum(3, f) == Add(Sum(2, f), f(2));
    assert Sum(2, f) == Add(Sum(1, f), f(1));
    assert Sum(1, f) == Add(0, f(0));
    AddZero(f(0));
  }

  // A locator 1 + a*z + c*z^2 in an array of length n.
  ghost predicate Short(p: seq<byte>, n: nat, a: byte, c: byte)
  {
    |p| == n >= 3 && p[0] == 1 && p[1] == a && p[2] == c && forall i :: 3 <= i < n ==> p[i] == 0
  }

  // The discrepancy of a short locator.
  lemma ShortDiscrepancy(p: seq<byte>, n: nat, a: byte, c: byte, s: seq<byte>, j: nat)
    requires Short(p, n, a, c)
    ensures Conv(p, s, j) == Add(Add(Coef(s, j), Mul(a, Coef(s, j - 1))), Mul(c, Coef(s, j - 2)))
  {
    hide Add, Mul, Conv;
    ConvThree(p, s, j);
    MulOne(Coef(s, j));
  }

  // The state after the first step when the first syndrome is zero.
  lemma FirstZero(s: seq<byte>)
    requires |s| >= 2 && s[0] == 0
    ensures Massey(s, 1) == Progress(One(|s| + 1), Shift(One(|s| + 1)), 0)
  {
    hide Add, Mul, Conv, Shift;
    assert Massey(s, 0) == Progress(One(|s| + 1), One(|s| + 1), 0);
    ShortDiscrepancy(One(|s| + 1), |s| + 1, 0, 0, s, 0);
    MulZero(0);
    AddZero(0);
  }

  // And when it is not.
  lemma FirstNonzero(s: seq<byte>)
    requires |s| >= 2 && s[0] != 0
    ensures var m := Massey(s, 1);
      && Short(m.lambda, |s| + 1, s[0], 0) && m.el == 1
      && m.b[0] == Inv(s[0]) && forall i :: 1 <= i <= |s| ==> m.b[i] == 0
  {
    hide Add, Mul, Conv, Inv;
    var one := One(|s| + 1);
    assert Massey(s, 0) == Progress(one, one, 0);
    ShortDiscrepancy(one, |s| + 1, 0, 0, s, 0);
    MulZero(0);
    AddZero(s[0]);
    forall i | 0 <= i <= |s|
      ensures CorrectedBy(one, one, s[0])[i] == if i == 0 then 1 else if i == 1 then s[0] else 0
      ensures Divided(one, s[0])[i] == if i == 0 then Inv(s[0]) else 0
    {
      MulZero(s[0]);
      MulZero(Inv(s[0]));
      MulOne(s[0]);
      MulComm(s[0], 1);
      MulOne(Inv(s[0]));
      MulComm(Inv(s[0]), 1);
      AddZero(1);
      AddZero(0);
      ShiftOne(|s| + 1, i);
    }
  }

  lemma ShiftOne(n: nat, i: nat)
    requires i < n
    ensures Shift(One(n))[i] == if i == 1 then 1 else 0
  {
    assert i > 0 ==> Shift(One(n))[(i - 1) + 1] == One(n)[i - 1];
  }

  // ---------- blocks whose first syndrome alone is not zero ----------

  ghost predicate OnlyFirst(s: seq<byte>)
  {
    |s| >= 2 && s[0] != 0 && forall i :: 1 <= i < |s| ==> s[i] == 0
  }

  // a + a^2/a == 0
  lemma Cancels(a: byte)
    requires a != 0
    ensures Mul(a, a) != 0
    ensures Add(a, Mul(Mul(a, a), Inv(a))) == 0
  {
    hide *;
    MulIsZero(a, a);
    MulAssoc(a, a, Inv(a));
    MulComm(a, 1);
    MulOne(a);
    AddSelf(a);
  }

  lemma SecondConstant(s: seq<byte>)
    requires OnlyFirst(s)
    ensures var m := Massey(s, 2); m.lambda == One(|s| + 1) && m.el == 1
  {
    hide Add, Mul, Conv, Inv, Shift;
    FirstNonzero(s);
    var m, a := Massey(s, 1), s[0];
    var d := Mul(a, a);
    ShortDiscrepancy(m.lambda, |s| + 1, a, 0, s, 1);
    MulZero(0);
    AddZero(d);
    Cancels(a);
    assert Conv(m.lambda, s, 1) == d by {
      MulZero(Coef(s, -1));
    }
    forall i | 0 <= i <= |s|
      ensures CorrectedBy(m.lambda, m.b, d)[i] == if i == 0 then 1 else 0
    {
      assert i > 0 ==> Shift(m.b)[(i - 1) + 1] == m.b[i - 1];
      MulZero(d);
      AddZero(0);
      AddZero(1);
    }
    assert CorrectedBy(m.lambda, m.b, d) == One(|s| + 1);
  }

  lemma {:induction false} StaysConstant(s: seq<byte>, r: nat)
    requires OnlyFirst(s) && 2 <= r <= |s|
    ensures var m := Massey(s, r); m.lambda == One(|s| + 1) && m.el == 1
  {
    hide Add, Mul, Conv, Inv, Shift;
    if r == 2 {
      SecondConstant(s);
    } else {
      StaysConstant(s, r - 1);
      ShortDiscrepancy(One(|s| + 1), |s| + 1, 0, 0, s, r - 1);
      MulZero(Coef(s, r - 2));
      MulZero(Coef(s, r - 3));
      AddZero(0);
    }
  }

  /** The decoder never ends on a block whose first syndrome alone is not zero. */
  lemma NeverEnds(w: seq<byte>, n: nat)
    requires |w| == 255 && OnlyFirst(SyndromesOf(w, n))
    ensures Decoding(w, n) == Decoded(NoEnd, w)
  {
    hide Alpha, Horner, Corrections, Massey;
    var s := SyndromesOf(w, n);
    StaysConstant(s, n);
    DegreeIs(One(n + 1), 0);
  }

  // ---------- blocks whose first syndrome alone is zero ----------

  /** All syndromes but the first are x. */
  ghost predicate AllButFirst(s: seq<byte>, x: byte)
  {
    |s| >= 4 && x != 0 && s[0] == 0 && forall i :: 1 <= i < |s| ==> s[i] == x
  }

  // The helper 1/x times a power of z.
  ghost predicate IsPower(b: seq<byte>, n: nat, x: byte, k: nat)
    requires x != 0
  {
    |b| == n && k < n && forall i :: 0 <= i < n ==> b[i] == if i == k then Inv(x) else 0
  }

  lemma ShiftPower(b: seq<byte>, n: nat, x: byte, k: nat)
    requires x != 0 && IsPower(b, n, x, k) && k + 1 < n
    ensures IsPower(Shift(b), n, x, k + 1)
  {
    hide Inv;
    forall i | 0 <= i < n
      ensures Shift(b)[i] == if i == k + 1 then Inv(x) else 0
    {
      assert i > 0 ==> Shift(b)[(i - 1) + 1] == b[i - 1];
    }
  }

  // A correction by the helper changes one coefficient.
  lemma ShortCorrection(p: seq<byte>, b: seq<byte>, n: nat, x: byte, k: nat, d: byte)
    requires |p| == n && x != 0 && IsPower(b, n, x, k) && k + 1 < n
    ensures CorrectedBy(p, b, d) == p[k + 1 := Add(p[k + 1], Mul(d, Inv(x)))]
  {
    hide Add, Mul, Inv, Shift;
    ShiftPower(b, n, x, k);
    MulZero(d);
    forall i | 0 <= i < n && i != k + 1
      ensures CorrectedBy(p, b, d)[i] == p[i]
    {
      AddZero(p[i]);
    }
  }

  lemma SecondStep(s: seq<byte>, x: byte)
    requires |s| >= 2 && s[0] == 0 && s[1] == x != 0
    ensures var m := Massey(s, 2); Short(m.lambda, |s| + 1, 0, x) && m.el == 2 && IsPower(m.b, |s| + 1, x, 0)
  {
    hide Add, Mul, Conv, Inv, Shift;
    var one := One(|s| + 1);
    FirstZero(s);
    ShortDiscrepancy(one, |s| + 1, 0, 0, s, 1);
    MulZero(0);
    MulZero(Coef(s, -1));
    AddZero(x);
    forall i | 0 <= i <= |s|
      ensures CorrectedBy(one, Shift(one), x)[i] == if i == 0 then 1 else if i == 2 then x else 0
      ensures Divided(one, x)[i] == if i == 0 then Inv(x) else 0
    {
      MulZero(x);
      MulZero(Inv(x));
      MulComm(x, 1);
      MulOne(x);
      MulComm(Inv(x), 1);
      MulOne(Inv(x));
      AddZero(1);
      AddZero(0);
      assert i > 0 ==> Shift(Shift(one))[(i - 1) + 1] == Shift(one)[i - 1];
      if i > 0 {
        ShiftOne(|s| + 1, i - 1);
      }
    }
  }

  lemma ThirdStep(s: seq<byte>, x: byte)
    requires AllButFirst(s, x)
    ensures var m := Massey(s, 3); Short(m.lambda, |s| + 1, 1, x) && m.el == 2 && IsPower(m.b, |s| + 1, x, 1)
  {
    hide Add, Mul, Conv, Inv, Shift, CorrectedBy;
    SecondStep(s, x);
    var m := Massey(s, 2);
    ShortDiscrepancy(m.lambda, |s| + 1, 0, x, s, 2);
    MulZero(x);
    AddZero(x);
    ShortCorrection(m.lambda, m.b, |s| + 1, x, 0, x);
    ShiftPower(m.b, |s| + 1, x, 0);
    AddZero(1);
  }

  lemma FourthStep(s: seq<byte>, x: byte)
    requires AllButFirst(s, x)
    ensures var m := Massey(s, 4); Short(m.lambda, |s| + 1, 1, 0) && m.el == 2
  {
    hide Add, Mul, Conv, Inv, Shift, CorrectedBy;
    ThirdStep(s, x);
    var m := Massey(s, 3);
    ShortDiscrepancy(m.lambda, |s| + 1, 1, x, s, 3);
    MulOne(x);
    AddSelf(x);
    AddZero(Mul(x, x));
    Cancels(x);
    ShortCorrection(m.lambda, m.b, |s| + 1, x, 1, Mul(x, x));
  }

  lemma {:induction false} StaysShort(s: seq<byte>, x: byte, r: nat)
    requires AllButFirst(s, x) && 4 <= r <= |s|
    ensures var m := Massey(s, r); Short(m.lambda, |s| + 1, 1, 0) && m.el == 2
  {
    hide Add, Mul, Conv, Inv, Shift;
    if r == 4 {
      FourthStep(s, x);
    } else {
      StaysShort(s, x, r - 1);
      ShortDiscrepancy(Massey(s, r - 1).lambda, |s| + 1, 1, 0, s, r - 1);
      MulOne(x);
      AddSelf(x);
      MulZero(x);
      AddZero(0);
    }
  }

  // 1 + z has its one root at the last step of a lap.
  lemma {:induction false} RootOfOnePlusZ(m: nat)
    requires m <= 255
    ensures RootsUpTo([1, 1], m) == if m == 255 then [255] else []
  {
    hide Alpha, Eval;
    if m == 0 {
    } else {
      RootOfOnePlusZ(m - 1);
      RootAt(m);
    }
  }

  lemma RootAt(m: nat)
    requires 0 < m <= 255
    ensures Eval([1, 1], Alpha(m)) == 0 <==> m == 255
  {
    hide *;
    AlphaOne(m);
    OnePlus(Alpha(m));
  }

  lemma OnePlus(x: byte)
    ensures Eval([1, 1], x) == 0 <==> x == 1
    ensures Deriv([1, 1], x) == 1
  {
    hide Add, Mul;
    assert Eval([1], x) == 1 by {
      MulZero(x);
      AddZero(1);
    }
    EvalCons([1, 1], x);
    MulComm(x, 1);
    MulOne(x);
    AddIsZero(1, x);
    MulZero(Mul(x, x));
    AddZero(1);
  }

  /** A block all of whose syndromes but the first are equal and not zero is reported as corrected, with
      one symbol changed, and is no codeword then. */
  lemma CorrectedWrongly(w: seq<byte>, n: nat, x: byte)
    requires |w| == 255 && n <= 255 && AllButFirst(SyndromesOf(w, n), x)
    ensures Decoding(w, n).out == Corrected(1, [254]) && !IsCodeword(Decoding(w, n).data, n)
  {
    hide Alpha, Horner, Massey, Eval, Deriv, IsCodeword, EvaluatorOf, Met, RootsUpTo;
    var s := SyndromesOf(w, n);
    StaysShort(s, x, n);
    DegreeIs(Massey(s, n).lambda, 1);
    var p := LocatorOf(s);
    assert p == [1, 1];
    RootOfOnePlusZ(255);
    MetIs(p, 255);
    OnePlus(Alpha(255));
    assert Met(p) == [255] && PlacesOf(Met(p)) == [254];
    assert NoneVanishes(p, Met(p), 0);
    DecodingExact(w, n);
    assert s[1] == x;
  }

  // ---------- such blocks exist ----------

  lemma {:induction false} HornerOfZeros(k: nat, m: nat, x: byte)
    requires m <= k
    ensures Horner(Zeros(k), m, x) == 0
    decreases m
  {
    hide Add, Mul;
    if m == 0 {
    } else {
      HornerOfZeros(k, m - 1, x);
      MulZero(x);
      AddZero(0);
    }
  }

  // Zeros in front do not change a value.
  lemma HornerPadded(k: nat, t: seq<byte>, x: byte)
    ensures Horner(Zeros(k) + t, k + |t|, x) == Eval(Rev(t), x)
  {
    hide Add, Mul, Eval;
    assert Zeros(k)[..k] == Zeros(k) && t[..|t|] == t;
    HornerAppend(Zeros(k), k, t, |t|, x);
    HornerOfZeros(k, k, x);
    MulZero(Pow(x, |t|));
    AddZero(Eval(Rev(t), x));
  }

  /** The powers of the generator from the first to the one before the n-th. */
  ghost function LaterAlphas(n: nat): (xs: seq<byte>)
    requires n > 0
    ensures |xs| == n - 1 && forall i :: 0 <= i < n - 1 ==> xs[i] == Alpha(i + 1)
  {
    seq(n - 1, (i: nat) => Alpha(i + 1))
  }

  /** A block that vanishes at every root of the generator polynomial but the first. */
  ghost function FirstOnlyBlock(n: nat): (w: seq<byte>)
    requires 2 <= n <= 255
    ensures |w| == 255
  {
    Zeros(255 - n) + Rev(RootPoly(LaterAlphas(n)))
  }

  lemma FirstOnly(n: nat)
    requires 2 <= n <= 255
    ensures OnlyFirst(SyndromesOf(FirstOnlyBlock(n), n))
  {
    hide Alpha, Horner, Eval, RootPoly;
    var xs, w, s := LaterAlphas(n), FirstOnlyBlock(n), SyndromesOf(FirstOnlyBlock(n), n);
    var q := RootPoly(xs);
    assert Rev(Rev(q)) == q;
    AlphaZero();
    forall i: nat | i < n
      ensures s[i] == Eval(q, Alpha(i))
    {
      HornerPadded(255 - n, Rev(q), Alpha(i));
    }
    forall i: nat | 1 <= i < n
      ensures s[i] == 0
    {
      assert xs[i - 1] == Alpha(i);
      RootPolyRoots(xs, Alpha(i));
    }
    forall i: nat | i < n - 1
      ensures xs[i] != 1
    {
      AlphaOne(i + 1);
    }
    RootPolyRoots(xs, 1);
  }

  /** For every number of parity symbols from two on there is a block on which the decoder never ends. */
  lemma SomeNeverEnds(n: nat)
    requires 2 <= n <= 255
    ensures Decoding(FirstOnlyBlock(n), n).out == NoEnd
  {
    hide Alpha, Horner, FirstOnlyBlock;
    FirstOnly(n);
    NeverEnds(FirstOnlyBlock(n), n);
  }

  /** And from four on one that it corrects to something else than a codeword. */
  lemma SomeCorrectedWrongly(n: nat) returns (w: seq<byte>)
    requires 4 <= n <= 255
    ensures |w| == 255 && Decoding(w, n).out == Corrected(1, [254]) && !IsCodeword(Decoding(w, n).data, n)
  {
    hide Alpha, Horner, FirstOnlyBlock, Pow, Touched, IsCodeword;
    var v := FirstOnlyBlock(n);
    FirstOnly(n);
    var x := SyndromesOf(v, n)[0];
    w := Touched(v, 254, x);
    var s := SyndromesOf(w, n);
    forall i: nat | i < n
      ensures s[i] == if i == 0 then 0 else x
    {
      TouchedSyndrome(v, 254, x, i);
      OneToAny(x, i);
      AddSelf(x);
      AddZero(x);
    }
    CorrectedWrongly(w, n, x);
  }

  lemma OneToAny(x: byte, i: nat)
    ensures Mul(x, Pow(Alpha(0), i)) == x
  {
    FirstTerms(x, i);
  }

  // ---------- two parity symbols, as in the header ----------

  /** The place that two nonzero syndromes point to. */
  ghost function PlaceOf(s0: byte, s1: byte): (l: nat)
    requires s0 != 0 && s1 != 0
    ensures l < 255 && Mul(s0, Alpha(254 - l)) == s1
  {
    var k := (Log(s1) + 255 - Log(s0)) % 255;
    assert Mul(s0, Alpha(k)) == s1 by {
      hide Mul, Alpha, Log;
      AlphaAdd(Log(s0), Log(s1) + 255 - Log(s0));
      AlphaMod(Log(s1) + 255 - Log(s0));
      AlphaCycle(Log(s1), 1);
    }
    254 - k
  }

  // Both syndromes nonzero: one symbol is wrong.
  lemma OneWrong(w: seq<byte>)
    requires |w| == 255 && SyndromesOf(w, 2)[0] != 0 && SyndromesOf(w, 2)[1] != 0
    ensures var s := SyndromesOf(w, 2); var l := PlaceOf(s[0], s[1]);
      Decoding(w, 2) == Decoded(Corrected(1, [l]), Touched(w, l, s[0]))
  {
    hide Alpha, Horner, Pow, Add, Mul, PlaceOf, Decoding, IsCodeword, Diff;
    var s := SyndromesOf(w, 2);
    var l := PlaceOf(s[0], s[1]);
    var c := Touched(w, l, s[0]);
    TouchedIsCodeword(w, l);
    TouchedDiffers(w, l, s[0]);
    DecodingWithin(w, c, 2);
  }

  lemma TouchedIsCodeword(w: seq<byte>, l: nat)
    requires |w| == 255 && l < 255 && Mul(SyndromesOf(w, 2)[0], Alpha(254 - l)) == SyndromesOf(w, 2)[1]
    ensures IsCodeword(Touched(w, l, SyndromesOf(w, 2)[0]), 2)
  {
    hide Alpha, Horner, Add, Mul, Touched;
    var s := SyndromesOf(w, 2);
    forall i: nat | i < 2
      ensures Horner(Touched(w, l, s[0]), 255, Alpha(i)) == 0
    {
      TouchedSyndrome(w, l, s[0], i);
      SmallPowers(Alpha(254 - l));
      MulComm(s[0], 1);
      MulOne(s[0]);
      AddSelf(s[i]);
    }
  }

  lemma SmallPowers(x: byte)
    ensures Pow(x, 0) == 1 && Pow(x, 1) == x
  {
    hide Mul;
    assert Pow(x, 1) == Mul(x, Pow(x, 0));
    MulComm(x, 1);
    MulOne(x);
  }

  lemma TouchedDiffers(w: seq<byte>, l: nat, e: byte)
    requires l < |w| && e != 0
    ensures Diff(Touched(w, l, e), w, |w|) == [l]
  {
    hide Add, Diff;
    var c := Touched(w, l, e);
    AddCancel(w[l], e);
    AddSelf(w[l]);
    var k := DiffComplete(c, w, |w|, l);
    ChangesCount(c, w, [l]);
  }

  // Only the second syndrome nonzero: the locator is 1 + x*z^2, whose derivative is zero.
  lemma DoubleRoot(w: seq<byte>)
    requires |w| == 255 && SyndromesOf(w, 2)[0] == 0 && SyndromesOf(w, 2)[1] != 0
    ensures Decoding(w, 2) == Decoded(Failed, w)
  {
    hide Alpha, Horner, Massey, Eval, Deriv, EvaluatorOf, Met, RootsUpTo, Corrections;
    var s := SyndromesOf(w, 2);
    var x := s[1];
    SecondStep(s, x);
    DegreeIs(Massey(s, 2).lambda, 2);
    var p := LocatorOf(s);
    assert p == [1, 0, x];
    var j := SquareRoot(x);
    var k := RootListed(p, 255, j);
    var met, om := Met(p), EvaluatorOf(p, s);
    NoDerivative(x, Alpha(met[1] % 256));
    StopsAtOnce(w, p, om, met);
  }

  lemma StopsAtOnce(w: seq<byte>, p: seq<byte>, om: seq<byte>, met: seq<nat>)
    requires |w| == 255 && |met| == 2 && AllPositive(met) && Deriv(p, Alpha(met[1] % 256)) == 0
    ensures Corrections(w, p, om, met, 0) == (false, w)
  {
    hide Alpha, Deriv, ValueAt, Touched;
    assert Corrections(w, p, om, met, 2) == (true, w);
    assert Corrections(w, p, om, met, 1) == (false, w);
  }

  lemma NoDerivative(x: byte, z: byte)
    ensures Deriv([1, 0, x], z) == 0
  {
    hide Add, Mul;
    assert [1, 0, x][2..] == [x];
    MulZero(Mul(z, z));
    AddZero(0);
  }

  // 1 + x*z^2 has a root.
  lemma SquareRoot(x: byte) returns (j: nat)
    requires x != 0
    ensures 1 <= j <= 255 && Eval([1, 0, x], Alpha(j)) == 0
  {
    hide Alpha, Mul, Add, Log;
    var l := Log(x);
    var big := 128 * (255 - l);
    j := (big - 1) % 255 + 1;
    AlphaCycle(j, (big - 1) / 255);
    var z := Alpha(j);
    AlphaAdd(big, big);
    AlphaCycle(255 - l, 255 - l);
    AlphaAdd(l, 255 - l);
    Alpha255();
    OnePlusSquare(x, z);
  }

  lemma OnePlusSquare(x: byte, z: byte)
    requires Mul(x, Mul(z, z)) == 1
    ensures Eval([1, 0, x], z) == 0
  {
    hide Add, Mul;
    var p := [1, 0, x];
    EvalCons(p, z);
    EvalCons([0, x], z);
    assert p[1..] == [0, x] && [0, x][1..] == [x];
    assert Eval([x], z) == x by {
      MulZero(z);
      AddZero(x);
    }
    AddZero(Mul(z, x));
    MulAssoc(z, z, x);
    MulComm(x, Mul(z, z));
    AddSelf(1);
  }

  /** With two parity symbols the decoder does one of four things, by which of the two syndromes are zero:
      nothing when both are, one correction to a codeword when neither is, a failure when only the first
      is, and it never ends when only the second is. */
  lemma TwoParitySymbols(w: seq<byte>)
    requires |w| == 255
    ensures var s := SyndromesOf(w, 2);
      Decoding(w, 2) == if s[0] == 0 && s[1] == 0 then Decoded(Corrected(0, []), w)
        else if s[0] == 0 then Decoded(Failed, w)
        else if s[1] == 0 then Decoded(NoEnd, w)
        else var l := PlaceOf(s[0], s[1]); Decoded(Corrected(1, [l]), Touched(w, l, s[0]))
  {
    hide Alpha, Horner, Corrections, Touched, PlaceOf, LocatorOf, Met, EvaluatorOf;
    var s := SyndromesOf(w, 2);
    if s[0] != 0 && s[1] != 0 {
      OneWrong(w);
    } else if s[0] != 0 {
      NeverEnds(w, 2);
    } else if s[1] != 0 {
      DoubleRoot(w);
    }
  }

  // ---------- one block of each kind, in figures ----------

  lemma SmallAlphas()
    ensures Alpha(0) == 1 && Alpha(1) == 2 && Alpha(2) == 4 && Alpha(3) == 8
  {
    hide Add;
    assert Alpha(1) == Double(Alpha(0));
    assert Alpha(2) == Double(Alpha(1));
    assert Alpha(3) == Double(Alpha(2));
  }

  /** A block of zeros that ends in 1, 2. */
  lemma HangingBlock()
    ensures Decoding(Zeros(253) + [1, 2], 2).out == NoEnd
  {
    hide Alpha, Horner, Decoding;
    var w := Zeros(253) + [1, 2];
    var s := SyndromesOf(w, 2);
    SmallAlphas();
    forall i: nat | i < 2
      ensures s[i] == Eval([2, 1], Alpha(i))
    {
      HornerPadded(253, [1, 2], Alpha(i));
      assert Rev([1, 2]) == [2, 1];
    }
    LinearAt(2, 1, 1);
    LinearAt(2, 1, 2);
    MulComm(2, 1);
    MulOne(1);
    MulOne(2);
    AddSelf(2);
    AddIsZero(2, 1);
    NeverEnds(w, 2);
  }

  lemma LinearAt(a: byte, b: byte, x: byte)
    ensures Eval([a, b], x) == Add(a, Mul(x, b))
  {
    hide Add, Mul;
    EvalCons([a, b], x);
    assert Eval([b], x) == b by {
      MulZero(x);
      AddZero(b);
    }
  }

  lemma CubicAt(p: seq<byte>, x: byte)
    requires |p| == 4
    ensures Eval(p, x) == Add(p[0], Mul(x, Add(p[1], Mul(x, Add(p[2], Mul(x, p[3]))))))
  {
    hide Add, Mul;
    EvalCons(p, x);
    EvalCons(p[1..], x);
    LinearAt(p[2], p[3], x);
    assert p[1..][1..] == [p[2], p[3]];
  }

  lemma SmallSums()
    ensures Add(14, 1) == 15 && Add(14, 2) == 12 && Add(14, 4) == 10 && Add(14, 8) == 6
    ensures Add(56, 15) == 55 && Add(56, 24) == 32 && Add(56, 40) == 16 && Add(56, 48) == 8
    ensures Add(55, 55) == 0 && Add(55, 64) == 119
  {
  }

  lemma TimesTwo(c: byte)
    requires c < 128
    ensures Mul(2, c) == 2 * c
  {
    hide Add;
    MulComm(2, c);
    AddZero(c);
    assert Mul(c, 1) == Add(Double(Mul(c, 0)), c);
    assert Mul(c, 2) == Add(Double(Mul(c, 1)), 0);
    AddZero(2 * c);
  }

  lemma TimesFour(c: byte)
    requires c < 32
    ensures Mul(4, c) == 4 * c && Mul(8, c) == 8 * c
  {
    hide Add, Mul;
    TimesTwo(2);
    TimesTwo(4);
    MulAssoc(2, 2, c);
    MulAssoc(2, 4, c);
    TimesTwo(c);
    TimesTwo(2 * c);
    TimesTwo(4 * c);
  }

  lemma SmallProducts()
    ensures Mul(1, 15) == 15 && Mul(1, 55) == 55
    ensures Mul(2, 12) == 24 && Mul(2, 32) == 64
    ensures Mul(4, 10) == 40 && Mul(4, 16) == 64
    ensures Mul(8, 6) == 48 && Mul(8, 8) == 64
  {
    hide Add, Mul;
    MulOne(15);
    MulOne(55);
    TimesTwo(12);
    TimesTwo(32);
    TimesFour(10);
    TimesFour(16);
    TimesFour(6);
    TimesFour(8);
  }

  /** A block of zeros that ends in 1, 14, 56, 55, with four parity symbols. */
  lemma WronglyCorrectedBlock()
    ensures var r := Decoding(Zeros(251) + [1, 14, 56, 55], 4);
      r.out == Corrected(1, [254]) && !IsCodeword(r.data, 4)
  {
    hide Alpha, Horner, Decoding, Add, Mul, Eval, IsCodeword;
    var w := Zeros(251) + [1, 14, 56, 55];
    var s, p := SyndromesOf(w, 4), [55, 56, 14, 1];
    SmallAlphas();
    SmallSums();
    SmallProducts();
    forall i: nat | i < 4
      ensures s[i] == if i == 0 then 0 else 119
    {
      HornerPadded(251, [1, 14, 56, 55], Alpha(i));
      assert Rev([1, 14, 56, 55]) == p;
      CubicAt(p, Alpha(i));
      MulComm(Alpha(i), 1);
      MulOne(Alpha(i));
    }
    CorrectedWrongly(w, 4, 119);
  }

  /** What is sent for the one byte 1 with two parity symbols: the generator polynomial itself. */
  lemma KnownParity()
    ensures Encoded([1], 2) == [1, 3, 2]
  {
    hide Alpha, Horner, Add, Mul, Eval, Registers, IsCodeword;
    var data := Zeros(252) + [1];
    KnownCodeword();
    EncodedIsCodeword([1], 2);
    assert data + Parity([1], 2) == Zeros(252) + Encoded([1], 2);
    assert data + [3, 2] == Zeros(252) + [1, 3, 2];
    ParityUnique(2, data, Parity([1], 2), [3, 2]);
  }

  lemma KnownCodeword()
    ensures IsCodeword(Zeros(252) + [1, 3, 2], 2)
  {
    hide Alpha, Horner, Add, Mul, Eval;
    SmallAlphas();
    SmallTriple();
    forall i: nat | i < 2
      ensures Horner(Zeros(252) + [1, 3, 2], 255, Alpha(i)) == 0
    {
      HornerPadded(252, [1, 3, 2], Alpha(i));
      assert Rev([1, 3, 2]) == [2, 3, 1];
      EvalCons([2, 3, 1], Alpha(i));
      assert [2, 3, 1 as byte][1..] == [3, 1];
      LinearAt(3, 1, Alpha(i));
    }
  }

  lemma SmallTriple()
    ensures Add(2, Mul(1, Add(3, Mul(1, 1)))) == 0 && Add(2, Mul(2, Add(3, Mul(2, 1)))) == 0
  {
    hide Mul;
    MulOne(1);
    TimesTwo(1);
    assert Add(3, 1) == 2 && Add(3, 2) == 1 && Add(2, 2) == 0;
    MulOne(2);
  }
}
