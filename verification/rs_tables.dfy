/** The Reed-Solomon control block: logarithm tables of GF(256) and the generator polynomial
    with roots Alpha(0) .. Alpha(nroots - 1), as init_rs_char builds them for first root 0 and
    primitive element 1. */
module RsTables {
  import opened Gf256
  import opened Polynomials
  import opened PowerSums

  const FIELD_POLY := 0x11d
  const NN := 255
  const FEC_MAX_CHECK := 64

  /** The control block. The tables are written once, at initialization, and only read after. */
  datatype Rs = Rs(alphaTo: seq<byte>, indexOf: seq<byte>, genpoly: seq<byte>, nroots: nat)

  // ---------- index form: a logarithm, or 255 for zero ----------

  ghost function LogOf(x: byte): byte
  {
    if x == 0 then NN else Log(x)
  }

  ghost function Unlog(i: byte): byte
  {
    if i == NN then 0 else Alpha(i)
  }

  lemma UnlogLog(x: byte)
    ensures Unlog(LogOf(x)) == x
    ensures LogOf(x) == NN <==> x == 0
  {
    hide Alpha;
  }

  lemma LogUnlog(i: byte)
    ensures LogOf(Unlog(i)) == i
    ensures Unlog(i) == 0 <==> i == NN
  {
    hide Alpha, Log;
    if i != NN {
      LogOfAlpha(i);
    }
  }

  ghost predicate ValidTables(rs: Rs)
  {
    && |rs.alphaTo| == 256 && |rs.indexOf| == 256
    && (forall i :: 0 <= i < 256 ==> rs.alphaTo[i] == Unlog(i))
    && (forall x :: 0 <= x < 256 ==> rs.indexOf[x] == LogOf(x))
  }

  // ---------- the generator polynomial ----------

  ghost function FirstAlphas(n: nat): (xs: seq<byte>)
    ensures |xs| == n
    ensures forall i :: 0 <= i < n ==> xs[i] == Alpha(i)
  {
    seq(n, (i: nat) => Alpha(i))
  }

  /** The product of (z - Alpha(i)) for i < n. */
  ghost function Gen(n: nat): (g: seq<byte>)
    ensures |g| == n + 1
  {
    RootPoly(FirstAlphas(n))
  }

  ghost predicate Valid(rs: Rs)
  {
    && ValidTables(rs)
    && 0 < rs.nroots <= FEC_MAX_CHECK
    && |rs.genpoly| == rs.nroots + 1
    && (forall i :: 0 <= i <= rs.nroots ==> rs.genpoly[i] == LogOf(Gen(rs.nroots)[i]))
  }

  lemma GenStep(n: nat)
    ensures Gen(n + 1) == TimesRoot(Gen(n), Alpha(n))
  {
    hide Alpha, TimesRoot;
    assert FirstAlphas(n + 1)[..n] == FirstAlphas(n);
  }

  lemma GenRoots(n: nat, i: nat)
    requires i < n
    ensures Eval(Gen(n), Alpha(i)) == 0
  {
    hide Alpha, Eval, RootPoly;
    assert FirstAlphas(n)[i] == Alpha(i);
    RootPolyRoots(FirstAlphas(n), Alpha(i));
  }

  lemma GenMonic(n: nat)
    ensures Gen(n)[n] == 1
  {
    hide Alpha, RootPoly;
    RootPolyMonic(FirstAlphas(n));
  }

  // ---------- no coefficient of the generator polynomial is zero ----------

  lemma {:induction false} SumSkip(n: nat, k: nat, f: nat -> byte, g: nat -> byte)
    requires k <= n && f(k) == 0
    requires forall i: nat :: i < k ==> g(i) == f(i)
    requires forall i: nat :: k <= i < n ==> g(i) == f(i + 1)
    ensures Sum(n + 1, f) == Sum(n, g)
    decreases n
  {
    hide Add;
    if k == n {
      SumEq(n, f, g);
      AddZero(Sum(n, f));
    } else {
      SumSkip(n - 1, k, f, g);
    }
  }

  lemma AlphasDistinct(n: nat)
    requires n <= 255
    ensures Distinct(FirstAlphas(n))
  {
    hide Alpha;
    forall i, j | 0 <= i < j < n
      ensures FirstAlphas(n)[i] != FirstAlphas(n)[j]
    {
      AlphaInjective(i, j);
    }
  }

  // The value of p at Alpha(m) is the m-th power sum of its coefficients at the powers of Alpha.
  lemma EvalAsPowerSum(p: seq<byte>, m: nat)
    ensures Eval(p, Alpha(m)) == PowerSum(p, FirstAlphas(|p|), m)
  {
    hide Add, Mul, Sum, Eval, Alpha, Pow;
    EvalIsSum(p, Alpha(m));
    forall i: nat | i < |p|
      ensures EvalTerm(p, Alpha(m))(i) == PowerTerm(p, FirstAlphas(|p|), m)(i)
    {
      PowAlpha(m, i);
      PowAlpha(i, m);
      assert i * m == m * i;
    }
    SumEq(|p|, EvalTerm(p, Alpha(m)), PowerTerm(p, FirstAlphas(|p|), m));
  }

  /** Every coefficient of the generator polynomial is nonzero: the encoder adds the index forms
      of these coefficients without testing for the index form of zero. */
  lemma GenNonzero(n: nat, k: nat)
    requires n < 255 && k <= n
    ensures Gen(n)[k] != 0
  {
    hide Add, Mul, Sum, Eval, Alpha, Pow, Gen;
    var g := Gen(n);
    GenMonic(n);
    if g[k] == 0 {
      var xs := FirstAlphas(n + 1);
      var u, ys := g[..k] + g[k + 1..], xs[..k] + xs[k + 1..];
      AlphasDistinct(n + 1);
      forall m: nat | m < n
        ensures PowerSum(u, ys, m) == 0
      {
        GenRoots(n, m);
        EvalAsPowerSum(g, m);
        MulZero(Pow(xs[k], m));
        SumSkip(n, k, PowerTerm(g, xs, m), PowerTerm(u, ys, m));
      }
      assert u[n - 1] == g[n];
      Independent(u, ys);
      assert false;
    }
  }

  // ---------- arithmetic on index form ----------

  /** Reduction modulo 255 by folding the bits above the eighth. */
  method ModNN(x0: nat) returns (x: nat)
    ensures x == x0 % NN
  {
    x := x0;
    ghost var k: nat := 0;
    while x >= NN
      invariant x0 == x + NN * k
    {
      x := x - NN;
      k := k + 1 + x / 256;
      x := x / 256 + x % 256;
    }
  }

  lemma AlphaToMod(rs: Rs, n: nat)
    requires ValidTables(rs)
    ensures rs.alphaTo[n % NN] == Alpha(n)
  {
    hide Alpha;
    AlphaMod(n);
  }

  /** Table multiplication is multiplication in the field. */
  lemma TableMul(rs: Rs, i: byte, j: byte)
    requires ValidTables(rs) && i != NN && j != NN
    ensures rs.alphaTo[(i + j) % NN] == Mul(Unlog(i), Unlog(j))
  {
    hide Alpha, Mul;
    AlphaToMod(rs, i + j);
    AlphaAdd(i, j);
  }

  // ---------- init_rs_char ----------

  /** Fill the logarithm tables by running the shift register once round. */
  method InitTables() returns (ok: bool, alphaTo: array<byte>, indexOf: array<byte>)
    ensures fresh(alphaTo) && fresh(indexOf)
    ensures ok // 0x11d is primitive, so the register is back at one
    ensures alphaTo.Length == 256 && forall i :: 0 <= i < 256 ==> alphaTo[i] == Unlog(i)
    ensures indexOf.Length == 256 && forall x :: 0 <= x < 256 ==> indexOf[x] == LogOf(x)
  {
    hide Alpha, Double, Xor, Log;
    alphaTo := new byte[256](_ => 0);
    indexOf := new byte[256](_ => 0);
    indexOf[0] := NN; // zero has no logarithm
    alphaTo[NN] := 0; // and what stands for none gives zero
    var sr: nat := 1;
    AlphaZero();
    for i := 0 to NN
      invariant sr == Alpha(i)
      invariant alphaTo[NN] == 0 && indexOf[0] == NN
      invariant forall j :: 0 <= j < i ==> alphaTo[j] == Alpha(j)
      invariant forall j :: 0 <= j < i ==> indexOf[Alpha(j)] == j
    {
      AlphaNonzero(i);
      NewPower(i);
      indexOf[sr] := i;
      alphaTo[i] := sr;
      AlphaRegister(i);
      sr := 2 * sr;
      if sr >= 256 {
        sr := Xor(sr, FIELD_POLY);
      }
      sr := sr % 256;
    }
    Alpha255();
    ok := sr == 1;
    forall x | 0 <= x < 256
      ensures indexOf[x] == LogOf(x)
    {
      if x != 0 {
        assert indexOf[Alpha(Log(x))] == Log(x);
      }
    }
  }

  lemma NewPower(i: nat)
    requires i < 255
    ensures forall j: nat :: j < i ==> Alpha(j) != Alpha(i)
  {
    hide *;
    forall j: nat | j < i
      ensures Alpha(j) != Alpha(i)
    {
      AlphaInjective(j, i);
    }
  }

  // One step of the shift register multiplies by the generator.
  lemma AlphaRegister(i: nat)
    ensures Alpha(i + 1) == (if 2 * Alpha(i) >= 256 then Xor(2 * Alpha(i), FIELD_POLY) else 2 * Alpha(i)) % 256
  {
    hide Xor;
  }

  /** Multiply out the generator polynomial from its roots, in place, then convert it to index form. */
  method BuildGenerator(alphaTo: array<byte>, indexOf: array<byte>, nroots: nat) returns (g: array<byte>)
    requires 0 < nroots < NN
    requires alphaTo.Length == 256 && forall i :: 0 <= i < 256 ==> alphaTo[i] == Unlog(i)
    requires indexOf.Length == 256 && forall x :: 0 <= x < 256 ==> indexOf[x] == LogOf(x)
    ensures fresh(g) && g.Length == nroots + 1
    ensures forall i :: 0 <= i <= nroots ==> g[i] == LogOf(Gen(nroots)[i])
  {
    hide Alpha, Log, Mul, Add, RootPoly, Gen;
    g := new byte[nroots + 1](_ => 0);
    g[0] := 1;
    GenZero();
    for i := 0 to nroots
      invariant g[..i + 1] == Gen(i)
    {
      MultiplyRoot(alphaTo, indexOf, g, i);
    }
    ghost var gen := g[..];
    assert gen == Gen(nroots);
    for i := 0 to nroots + 1
      invariant forall j :: 0 <= j < i ==> g[j] == LogOf(gen[j])
      invariant forall j :: i <= j <= nroots ==> g[j] == gen[j]
    {
      g[i] := indexOf[g[i]];
    }
  }

  lemma GenZero()
    ensures Gen(0) == [1]
  {
    assert FirstAlphas(0) == [];
  }

  // The coefficients after multiplying by (z - r).
  lemma TimesRootAt(p: seq<byte>, r: byte, j: nat)
    requires |p| > 0 && p[|p| - 1] == 1 && j <= |p|
    ensures TimesRoot(p, r)[j]
         == if j == |p| then 1 else if j == 0 then Mul(r, p[0]) else Add(p[j - 1], Mul(r, p[j]))
  {
    hide Add, Mul;
    TimesRootCoef(p, r, j);
    MulZero(r);
    AddZero(1);
    if j == 0 {
      AddZero(Mul(r, p[0]));
    }
  }

  // One pass of the loop over roots: multiply g by (z - Alpha(i)) from the top coefficient down.
  method MultiplyRoot(alphaTo: array<byte>, indexOf: array<byte>, g: array<byte>, i: nat)
    requires i < NN && i + 1 < g.Length && g != alphaTo && g != indexOf
    requires alphaTo.Length == 256 && forall k :: 0 <= k < 256 ==> alphaTo[k] == Unlog(k)
    requires indexOf.Length == 256 && forall x :: 0 <= x < 256 ==> indexOf[x] == LogOf(x)
    requires g[..i + 1] == Gen(i)
    modifies g
    ensures g[..i + 2] == Gen(i + 1)
  {
    hide Alpha, Log, Mul, Add, RootPoly, Gen, TimesRoot, Unlog, LogOf;
    ghost var p := g[..i + 1];
    GenMonic(i);
    GenStep(i);
    var root := i;
    g[i + 1] := 1;
    TimesRootAt(p, Alpha(i), i + 1);
    var j := i;
    while j > 0
      invariant 0 <= j <= i
      invariant forall k :: 0 <= k <= j ==> g[k] == p[k]
      invariant forall k :: j < k <= i + 1 ==> g[k] == TimesRoot(p, Alpha(i))[k]
    {
      TimesRootAt(p, Alpha(i), j);
      if g[j] != 0 {
        var m := ModNN(indexOf[g[j]] + root);
        IndexMul(p[j], i);
        g[j] := Add(g[j - 1], alphaTo[m]);
      } else {
        MulZero(Alpha(i));
        AddZero(p[j - 1]);
        g[j] := g[j - 1];
      }
      j := j - 1;
    }
    GenNonzeroConstant(i);
    var m := ModNN(indexOf[g[0]] + root);
    IndexMul(p[0], i);
    TimesRootAt(p, Alpha(i), 0);
    g[0] := alphaTo[m];
    assert g[..i + 2] == TimesRoot(p, Alpha(i));
  }

  lemma GenNonzeroConstant(n: nat)
    requires n < 255
    ensures Gen(n)[0] != 0
  {
    GenNonzero(n, 0);
  }

  // Adding an exponent to an index form multiplies by that power of the generator.
  lemma IndexMul(x: byte, i: nat)
    requires x != 0
    ensures Unlog((LogOf(x) + i) % NN) == Mul(Alpha(i), x)
  {
    hide Alpha, Mul;
    AlphaMod(Log(x) + i);
    AlphaAdd(i, Log(x));
  }

  /** init_rs_char for field polynomial 0x11d, first root 0 and primitive element 1. */
  method InitRsChar(nroots: nat) returns (rs: Rs)
    requires 0 < nroots <= FEC_MAX_CHECK
    ensures Valid(rs) && rs.nroots == nroots
  {
    hide Alpha, Log, Mul, Add, RootPoly, Gen, Unlog, LogOf;
    var ok, alphaTo, indexOf := InitTables();
    var g := BuildGenerator(alphaTo, indexOf, nroots);
    rs := Rs(alphaTo[..], indexOf[..], g[..], nroots);
  }
}
