/** Exact complex numbers and finite sums of them. */
module Complex {
  datatype Cx = Cx(re: real, im: real)

  const ZERO := Cx(0.0, 0.0)
  const ONE := Cx(1.0, 0.0)

  function Add(a: Cx, b: Cx): Cx {
    Cx(a.re + b.re, a.im + b.im)
  }

  function Sub(a: Cx, b: Cx): Cx {
    Cx(a.re - b.re, a.im - b.im)
  }

  function Neg(a: Cx): Cx {
    Cx(-a.re, -a.im)
  }

  function Mul(a: Cx, b: Cx): Cx {
    Cx(a.re * b.re - a.im * b.im, a.re * b.im + a.im * b.re)
  }

  function Conj(a: Cx): Cx {
    Cx(a.re, -a.im)
  }

  lemma AddLaws(a: Cx, b: Cx, c: Cx)
    ensures Add(a, b) == Add(b, a) && Add(Add(a, b), c) == Add(a, Add(b, c)) && Add(a, ZERO) == a
  {
  }

  lemma MulComm(a: Cx, b: Cx)
    ensures Mul(a, b) == Mul(b, a)
  {
  }

  lemma MulUnit(a: Cx)
    ensures Mul(a, ONE) == a && Mul(ZERO, a) == ZERO
  {
  }

  lemma Distribute(a: Cx, b: Cx, c: Cx)
    ensures Mul(Add(a, b), c) == Add(Mul(a, c), Mul(b, c))
  {
    assert (a.re + b.re) * c.re == a.re * c.re + b.re * c.re;
    assert (a.im + b.im) * c.im == a.im * c.im + b.im * c.im;
    assert (a.re + b.re) * c.im == a.re * c.im + b.re * c.im;
    assert (a.im + b.im) * c.re == a.im * c.re + b.im * c.re;
  }

  lemma MulAssoc(a: Cx, b: Cx, c: Cx)
    ensures Mul(Mul(a, b), c) == Mul(a, Mul(b, c))
  {
    Times3(a.re, b.re, c.re, b.im, c.im);
    Times3(a.im, b.im, c.re, b.re, c.im);
    Times3(a.re, b.re, c.im, b.im, c.re);
    Times3(a.im, b.im, c.im, b.re, c.re);
  }

  lemma Times3(x: real, b: real, c: real, d: real, e: real)
    ensures x * b * c == x * (b * c) && x * d * e == x * (d * e)
    ensures x * (b * c - d * e) == x * b * c - x * d * e
    ensures x * (b * c + d * e) == x * b * c + x * d * e
  {
  }

  /** f(0) + ... + f(n - 1) */
  ghost function Sum(n: nat, f: nat -> Cx): Cx
  {
    if n == 0 then ZERO else Add(Sum(n - 1, f), f(n - 1))
  }

  lemma {:induction false} SumEq(n: nat, f: nat -> Cx, g: nat -> Cx)
    requires forall i: nat :: i < n ==> f(i) == g(i)
    ensures Sum(n, f) == Sum(n, g)
  {
    if n == 0 {
    } else {
      SumEq(n - 1, f, g);
    }
  }

  lemma {:induction false} SumMul(n: nat, f: nat -> Cx, g: nat -> Cx, c: Cx)
    requires forall i: nat :: i < n ==> g(i) == Mul(f(i), c)
    ensures Sum(n, g) == Mul(Sum(n, f), c)
  {
    hide Mul, Add;
    if n == 0 {
      MulUnit(c);
    } else {
      SumMul(n - 1, f, g, c);
      Distribute(Sum(n - 1, f), f(n - 1), c);
    }
  }

  lemma {:induction false} SumAdd(n: nat, f: nat -> Cx, g: nat -> Cx, h: nat -> Cx)
    requires forall i: nat :: i < n ==> h(i) == Add(f(i), g(i))
    ensures Sum(n, h) == Add(Sum(n, f), Sum(n, g))
  {
    if n == 0 {
    } else {
      SumAdd(n - 1, f, g, h);
    }
  }

  lemma {:induction false} SumZero(n: nat, f: nat -> Cx)
    requires forall i: nat :: i < n ==> f(i) == ZERO
    ensures Sum(n, f) == ZERO
  {
    if n == 0 {
    } else {
      SumZero(n - 1, f);
    }
  }

  /** i maps to g(a + i * d) */
  ghost function Stride(g: nat -> Cx, a: nat, d: nat): nat -> Cx
  {
    (i: nat) => g(a + i * d)
  }

  lemma {:induction false} SumSplit(a: nat, b: nat, g: nat -> Cx)
    ensures Sum(a + b, g) == Add(Sum(a, g), Sum(b, Stride(g, a, 1)))
    decreases b
  {
    hide Add;
    if b == 0 {
      AddLaws(Sum(a, g), ZERO, ZERO);
    } else {
      SumSplit(a, b - 1, g);
      AddLaws(Sum(a, g), Sum(b - 1, Stride(g, a, 1)), g(a + b - 1));
      assert Stride(g, a, 1)(b - 1) == g(a + b - 1);
    }
  }

  /** q maps to the sum over the n < m of g(q + n * p) */
  ghost function Inner(g: nat -> Cx, p: nat, m: nat): nat -> Cx
  {
    (q: nat) => Sum(m, Stride(g, q, p))
  }

  /** A sum over p * m terms, taken residue by residue modulo p. */
  lemma {:induction false} Reindex(p: nat, m: nat, g: nat -> Cx)
    ensures Sum(p * m, g) == Sum(p, Inner(g, p, m))
    decreases m
  {
    hide Add, Sum, Stride;
    if m == 0 {
      SumNone(g);
      assert p * m == 0;
      forall q: nat | q < p
        ensures Inner(g, p, m)(q) == ZERO
      {
        SumNone(Stride(g, q, p));
      }
      SumZero(p, Inner(g, p, m));
    } else {
      Reindex(p, m - 1, g);
      var k := p * (m - 1);
      assert p * m == k + p;
      SumSplit(k, p, g);
      forall q: nat | q < p
        ensures Inner(g, p, m)(q) == Add(Inner(g, p, m - 1)(q), Stride(g, k, 1)(q))
      {
        LastTerm(g, p, m, q);
      }
      SumAdd(p, Inner(g, p, m - 1), Stride(g, k, 1), Inner(g, p, m));
    }
  }

  lemma SumNone(g: nat -> Cx)
    ensures Sum(0, g) == ZERO
  {
  }

  lemma LastTerm(g: nat -> Cx, p: nat, m: nat, q: nat)
    requires m > 0
    ensures Sum(m, Stride(g, q, p)) == Add(Sum(m - 1, Stride(g, q, p)), Stride(g, p * (m - 1), 1)(q))
  {
    assert p * (m - 1) + q * 1 == q + (m - 1) * p;
  }
}
