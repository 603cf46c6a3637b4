/** One column of the radix-5 butterfly of kf_bfly5, whose signs are not those of a butterfly, and
    exactly when it is right all the same. */
module FftFive {
  import opened Complex

  datatype Five = Five(f0: Cx, f1: Cx, f2: Cx, f3: Cx, f4: Cx)

  function Scaled(a: Cx, e: real): Cx {
    Cx(a.re * e, a.im * e)
  }

  // a times the real part of y, plus b times that of z.
  function Mix(a: Cx, y: Cx, b: Cx, z: Cx): Cx {
    Add(Scaled(a, y.re), Scaled(b, z.re))
  }

  // The two corrections, with the signs of the code.
  function First(s10: Cx, ya: Cx, s9: Cx, yb: Cx): Cx {
    Cx(-(s10.im * ya.im + s9.im * yb.im), -(s10.re * ya.im - s9.re * yb.im))
  }

  function Second(s10: Cx, yb: Cx, s9: Cx, ya: Cx): Cx {
    Cx(-(s10.im * yb.im + s9.im * ya.im), s10.re * yb.im - s9.re * ya.im)
  }

  /** What a round of kf_bfly5 makes of the unturned value x and the turned values y1 to y4. */
  function Bfly5(x: Cx, y1: Cx, y2: Cx, y3: Cx, y4: Cx, ya: Cx, yb: Cx): Five
  {
    var s7, s10, s8, s9 := Add(y1, y4), Sub(y1, y4), Add(y2, y3), Sub(y2, y3);
    var s5 := Add(x, Mix(s7, ya, s8, yb));
    var s6 := First(s10, ya, s9, yb);
    var s11 := Add(x, Mix(s7, yb, s8, ya));
    var s12 := Second(s10, yb, s9, ya);
    Five(Add(x, Add(s7, s8)), Sub(s5, s6), Add(s11, s12), Sub(s11, s12), Add(s5, s6))
  }

  /** The five values added up, each times its power of the root. */
  ghost function Sum5(x: Cx, y1: Cx, y2: Cx, y3: Cx, y4: Cx, c1: Cx, c2: Cx, c3: Cx, c4: Cx): Cx
  {
    Add(Add(Add(Add(x, Mul(y1, c1)), Mul(y2, c2)), Mul(y3, c3)), Mul(y4, c4))
  }

  /** The column combined, with ya the fifth root and yb its square. */
  ghost function Wanted(x: Cx, y1: Cx, y2: Cx, y3: Cx, y4: Cx, ya: Cx, yb: Cx): Five
  {
    Five(Sum5(x, y1, y2, y3, y4, ONE, ONE, ONE, ONE),
         Sum5(x, y1, y2, y3, y4, ya, yb, Conj(yb), Conj(ya)),
         Sum5(x, y1, y2, y3, y4, yb, Conj(ya), ya, Conj(yb)),
         Sum5(x, y1, y2, y3, y4, Conj(yb), ya, Conj(ya), yb),
         Sum5(x, y1, y2, y3, y4, Conj(ya), Conj(yb), yb, ya))
  }

  // i times b times the imaginary part of z.
  ghost function Across(b: Cx, z: Cx): Cx {
    Cx(-(b.im * z.im), b.re * z.im)
  }

  ghost function Prod(a: real, b: real): real {
    a * b
  }

  lemma Parts(a: Cx, b: Cx)
    ensures Mul(a, b) == Cx(Prod(a.re, b.re) - Prod(a.im, b.im), Prod(a.re, b.im) + Prod(a.im, b.re))
    ensures Across(a, b) == Cx(-Prod(a.im, b.im), Prod(a.re, b.im))
    ensures Scaled(a, b.re) == Cx(Prod(a.re, b.re), Prod(a.im, b.re))
  {
  }

  lemma Spread(a: real, b: real, c: real)
    ensures Prod(a + b, c) == Prod(a, c) + Prod(b, c)
    ensures Prod(a - b, c) == Prod(a, c) - Prod(b, c)
    ensures Prod(a, -c) == -Prod(a, c)
  {
  }

  // Two values times a root and its conjugate.
  lemma Pair(y: Cx, z: Cx, c: Cx)
    ensures Add(Mul(y, c), Mul(z, Conj(c))) == Add(Scaled(Add(y, z), c.re), Across(Sub(y, z), c))
  {
    hide Mul, Across, Scaled, Prod;
    Parts(y, c);
    Parts(z, Conj(c));
    Parts(Add(y, z), c);
    Parts(Sub(y, z), c);
    Spread(y.re, z.re, c.re);
    Spread(y.im, z.im, c.re);
    Spread(y.re, z.re, c.im);
    Spread(y.im, z.im, c.im);
    Spread(z.re, z.re, c.im);
    Spread(z.im, z.im, c.im);
  }

  lemma ConjTwice(c: Cx)
    ensures Conj(Conj(c)) == c
  {
  }

  lemma Regroup(x: Cx, a: Cx, b: Cx, c: Cx, d: Cx)
    ensures Add(Add(Add(Add(x, a), b), c), d) == Add(x, Add(Add(a, d), Add(b, c)))
  {
  }

  lemma SplitMix(x: Cx, a: Cx, y: Cx, b: Cx, z: Cx, v: Cx, w: Cx)
    ensures Add(x, Add(Add(Scaled(a, y.re), v), Add(Scaled(b, z.re), w))) ==
            Add(Add(x, Mix(a, y, b, z)), Add(v, w))
  {
    hide Scaled;
  }

  // A column with the roots c and d of its first two values.
  lemma Paired(x: Cx, y1: Cx, y2: Cx, y3: Cx, y4: Cx, c: Cx, d: Cx)
    ensures Sum5(x, y1, y2, y3, y4, c, d, Conj(d), Conj(c)) ==
            Add(Add(x, Mix(Add(y1, y4), c, Add(y2, y3), d)), Add(Across(Sub(y1, y4), c), Across(Sub(y2, y3), d)))
  {
    hide Add, Sub, Mul, Conj, Across, Mix, Scaled;
    Regroup(x, Mul(y1, c), Mul(y2, d), Mul(y3, Conj(d)), Mul(y4, Conj(c)));
    Pair(y1, y4, c);
    Pair(y2, y3, d);
    SplitMix(x, Add(y1, y4), c, Add(y2, y3), d, Across(Sub(y1, y4), c), Across(Sub(y2, y3), d));
  }

  lemma AcrossConj(b: Cx, z: Cx)
    ensures Across(b, Conj(z)) == Neg(Across(b, z))
  {
    hide Across, Prod;
    Parts(b, z);
    Parts(b, Conj(z));
    Spread(b.im, b.im, z.im);
    Spread(b.re, b.re, z.im);
  }

  lemma MixConj(a: Cx, y: Cx, b: Cx, z: Cx)
    ensures Mix(a, Conj(y), b, z) == Mix(a, y, b, z) == Mix(a, y, b, Conj(z))
  {
  }

  /** What the column should be, in the terms of the code. */
  lemma WantedIs(x: Cx, y1: Cx, y2: Cx, y3: Cx, y4: Cx, ya: Cx, yb: Cx)
    ensures var s7, s10, s8, s9 := Add(y1, y4), Sub(y1, y4), Add(y2, y3), Sub(y2, y3);
      var s5, s11 := Add(x, Mix(s7, ya, s8, yb)), Add(x, Mix(s7, yb, s8, ya));
      var t6, t12 := Add(Across(s10, ya), Across(s9, yb)), Add(Across(s10, yb), Neg(Across(s9, ya)));
      Wanted(x, y1, y2, y3, y4, ya, yb) ==
          Five(Add(x, Add(s7, s8)), Add(s5, t6), Add(s11, t12), Sub(s11, t12), Sub(s5, t6))
  {
    hide Add, Sub, Mul, Conj, Across, Mix, Sum5, Neg;
    ConjTwice(ya);
    ConjTwice(yb);
    Paired(x, y1, y2, y3, y4, ya, yb);
    Paired(x, y1, y2, y3, y4, yb, Conj(ya));
    Paired(x, y1, y2, y3, y4, Conj(yb), ya);
    Paired(x, y1, y2, y3, y4, Conj(ya), Conj(yb));
    AcrossConj(Sub(y2, y3), ya);
    AcrossConj(Sub(y1, y4), yb);
    AcrossConj(Sub(y1, y4), ya);
    AcrossConj(Sub(y2, y3), yb);
    var s7, s8 := Add(y1, y4), Add(y2, y3);
    MixConj(s7, yb, s8, ya);
    MixConj(s7, ya, s8, yb);
    MixConj(s7, ya, s8, Conj(yb));
    Unturned(x, y1, y2, y3, y4);
    Minus(Add(x, Mix(s7, yb, s8, ya)), Across(Sub(y1, y4), yb), Across(Sub(y2, y3), ya));
    BothMinus(Add(x, Mix(s7, ya, s8, yb)), Across(Sub(y1, y4), ya), Across(Sub(y2, y3), yb));
  }

  lemma Unturned(x: Cx, y1: Cx, y2: Cx, y3: Cx, y4: Cx)
    ensures Sum5(x, y1, y2, y3, y4, ONE, ONE, ONE, ONE) == Add(x, Add(Add(y1, y4), Add(y2, y3)))
  {
    hide Add, Mul;
    MulUnit(y1);
    MulUnit(y2);
    MulUnit(y3);
    MulUnit(y4);
    Regroup(x, y1, y2, y3, y4);
  }

  lemma Minus(a: Cx, v: Cx, w: Cx)
    ensures Add(a, Add(Neg(v), w)) == Sub(a, Add(v, Neg(w)))
  {
  }

  lemma BothMinus(a: Cx, v: Cx, w: Cx)
    ensures Add(a, Add(Neg(v), Neg(w))) == Sub(a, Add(v, w))
  {
  }

  /** A column comes out as it should exactly when the second and third turned values are the same and
      the first and fourth have the same imaginary part. */
  lemma Bfly5Exact(x: Cx, y1: Cx, y2: Cx, y3: Cx, y4: Cx, ya: Cx, yb: Cx)
    requires ya.im != 0.0 && yb.im != 0.0
    ensures Bfly5(x, y1, y2, y3, y4, ya, yb).f0 == Wanted(x, y1, y2, y3, y4, ya, yb).f0
    ensures Bfly5(x, y1, y2, y3, y4, ya, yb) == Wanted(x, y1, y2, y3, y4, ya, yb) <==> y2 == y3 && y1.im == y4.im
  {
    hide Mix, Wanted, Add, Sub, Across, First, Second;
    WantedIs(x, y1, y2, y3, y4, ya, yb);
    var s10, s9 := Sub(y1, y4), Sub(y2, y3);
    FirstRight(Add(x, Mix(Add(y1, y4), ya, Add(y2, y3), yb)), s10, ya, s9, yb);
    SecondRight(Add(x, Mix(Add(y1, y4), yb, Add(y2, y3), ya)), s10, yb, s9, ya);
    NoProduct(s10.im, ya.im);
    NoProduct(0.0, yb.im);
    Differences(y1, y2, y3, y4);
  }

  lemma Differences(y1: Cx, y2: Cx, y3: Cx, y4: Cx)
    ensures Sub(y2, y3) == ZERO <==> y2 == y3
    ensures Sub(y1, y4).im == 0.0 <==> y1.im == y4.im
  {
  }

  // The first correction is right when one product and one sum of products vanish.
  lemma FirstRight(s5: Cx, s10: Cx, ya: Cx, s9: Cx, yb: Cx)
    requires yb.im != 0.0
    ensures Sub(s5, First(s10, ya, s9, yb)) == Add(s5, Add(Across(s10, ya), Across(s9, yb)))
            && Add(s5, First(s10, ya, s9, yb)) == Sub(s5, Add(Across(s10, ya), Across(s9, yb)))
            <==> s10.im * ya.im + s9.im * yb.im == 0.0 && s9.re == 0.0
  {
    NoProduct(s9.re, yb.im);
    FirstParts(s5, s10.im * ya.im, s9.im * yb.im, s10.re * ya.im, s9.re * yb.im);
  }

  lemma SecondRight(s11: Cx, s10: Cx, yb: Cx, s9: Cx, ya: Cx)
    requires ya.im != 0.0
    ensures Add(s11, Second(s10, yb, s9, ya)) == Add(s11, Add(Across(s10, yb), Neg(Across(s9, ya))))
            && Sub(s11, Second(s10, yb, s9, ya)) == Sub(s11, Add(Across(s10, yb), Neg(Across(s9, ya))))
            <==> s9.im == 0.0
  {
    NoProduct(s9.im, ya.im);
    SecondParts(s11, s10.im * yb.im, s9.im * ya.im, s10.re * yb.im, s9.re * ya.im);
  }

  lemma NoProduct(a: real, b: real)
    requires b != 0.0
    ensures a * b == 0.0 <==> a == 0.0
  {
  }

  lemma FirstParts(s5: Cx, a: real, b: real, c: real, d: real)
    ensures Sub(s5, Cx(-(a + b), -(c - d))) == Add(s5, Add(Cx(-a, c), Cx(-b, d)))
            && Add(s5, Cx(-(a + b), -(c - d))) == Sub(s5, Add(Cx(-a, c), Cx(-b, d)))
            <==> a + b == 0.0 && d == 0.0
  {
  }

  lemma SecondParts(s11: Cx, e: real, f: real, g: real, h: real)
    ensures Add(s11, Cx(-(e + f), g - h)) == Add(s11, Add(Cx(-e, g), Neg(Cx(-f, h))))
            && Sub(s11, Cx(-(e + f), g - h)) == Sub(s11, Add(Cx(-e, g), Neg(Cx(-f, h))))
            <==> f == 0.0
  {
  }
}
