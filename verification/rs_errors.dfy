/** A received block as a codeword plus errors: its syndromes are power sums over the error
    positions, and a locator found from them has its roots exactly there. */
module RsErrors {
  import opened Gf256
  import opened Polynomials
  import opened PowerSums
  import opened ErrorValues
  import opened RsTables
  import opened RsEncode

  /** The positions below m at which c and w differ, in increasing order. */
  ghost function Diff(c: seq<byte>, w: seq<byte>, m: nat): (ps: seq<nat>)
    requires m <= |c| == |w|
    ensures |ps| <= m
    ensures forall k :: 0 <= k < |ps| ==> ps[k] < m && c[ps[k]] != w[ps[k]]
    ensures forall i, j :: 0 <= i < j < |ps| ==> ps[i] < ps[j]
  {
    if m == 0 then [] else Diff(c, w, m - 1) + if c[m - 1] != w[m - 1] then [m - 1] else []
  }

  /** Hamming distance. */
  ghost function Distance(c: seq<byte>, w: seq<byte>): nat
    requires |c| == |w|
  {
    |Diff(c, w, |c|)|
  }

  lemma {:induction false} DiffComplete(c: seq<byte>, w: seq<byte>, m: nat, i: nat) returns (k: nat)
    requires i < m <= |c| == |w| && c[i] != w[i]
    ensures k < |Diff(c, w, m)| && Diff(c, w, m)[k] == i
    decreases m
  {
    if i == m - 1 {
      k := |Diff(c, w, m - 1)|;
    } else {
      k := DiffComplete(c, w, m - 1, i);
    }
  }

  /** The value added to c at each position of ps. */
  ghost function Errors(c: seq<byte>, w: seq<byte>, ps: seq<nat>): (u: seq<byte>)
    requires |c| == |w|
    requires forall k :: 0 <= k < |ps| ==> ps[k] < |c|
    ensures |u| == |ps|
    ensures forall k :: 0 <= k < |ps| ==> u[k] == Add(c[ps[k]], w[ps[k]])
  {
    seq(|ps|, (k: nat) requires k < |ps| => Add(c[ps[k]], w[ps[k]]))
  }

  /** The locator of each position: the power of the generator that a symbol there is weighted by. */
  ghost function Points(ps: seq<nat>): (xs: seq<byte>)
    requires forall k :: 0 <= k < |ps| ==> ps[k] < 255
    ensures |xs| == |ps|
    ensures forall k :: 0 <= k < |ps| ==> xs[k] == Alpha(254 - ps[k])
  {
    seq(|ps|, (k: nat) requires k < |ps| => Alpha(254 - ps[k]))
  }

  ghost function InversePoints(ps: seq<nat>): (ws: seq<byte>)
    requires forall k :: 0 <= k < |ps| ==> ps[k] < 255
    ensures |ws| == |ps|
    ensures forall k :: 0 <= k < |ps| ==> ws[k] == Alpha(ps[k] + 1)
  {
    seq(|ps|, (k: nat) requires k < |ps| => Alpha(ps[k] + 1))
  }

  lemma PointsInverse(ps: seq<nat>)
    requires forall k :: 0 <= k < |ps| ==> ps[k] < 255
    requires forall i, j :: 0 <= i < j < |ps| ==> ps[i] < ps[j]
    ensures Inverses(Points(ps), InversePoints(ps)) && Distinct(Points(ps))
  {
    hide Alpha, Mul;
    forall k | 0 <= k < |ps|
      ensures Mul(Points(ps)[k], InversePoints(ps)[k]) == 1
    {
      AlphaAdd(254 - ps[k], ps[k] + 1);
      Alpha255();
    }
    forall i, j | 0 <= i < j < |ps|
      ensures Points(ps)[i] != Points(ps)[j]
    {
      AlphaInjective(254 - ps[j], 254 - ps[i]);
    }
  }

  // ---------- syndromes ----------

  ghost function ErrorTerm(c: seq<byte>, w: seq<byte>, m: nat, x: byte): nat -> byte
    requires m <= |c| == |w|
  {
    var ps := Diff(c, w, m);
    (k: nat) => if k < |ps| then Mul(Pow(x, m - 1 - ps[k]), Add(c[ps[k]], w[ps[k]])) else 0
  }

  lemma {:induction false} HornerDifference(c: seq<byte>, w: seq<byte>, m: nat, x: byte)
    requires m <= |c| == |w|
    ensures Horner(w, m, x) == Add(Horner(c, m, x), Sum(|Diff(c, w, m)|, ErrorTerm(c, w, m, x)))
    decreases m
  {
    hide Add, Mul, Pow, Diff, ErrorTerm, Sum;
    if m == 0 {
      NoErrorTerms(c, w, x);
      AddZero(0);
    } else {
      HornerDifference(c, w, m - 1, x);
      ErrorSumStep(c, w, m, x);
      HornerErrorStep(x, Horner(c, m - 1, x), Sum(|Diff(c, w, m - 1)|, ErrorTerm(c, w, m - 1, x)), c[m - 1], w[m - 1]);
    }
  }

  lemma NoErrorTerms(c: seq<byte>, w: seq<byte>, x: byte)
    requires |c| == |w|
    ensures Sum(|Diff(c, w, 0)|, ErrorTerm(c, w, 0, x)) == 0
  {
  }

  // One more place: every error term is multiplied by x, and a last one may join them.
  lemma ErrorSumStep(c: seq<byte>, w: seq<byte>, m: nat, x: byte)
    requires 0 < m <= |c| == |w|
    ensures Sum(|Diff(c, w, m)|, ErrorTerm(c, w, m, x))
         == Add(Mul(x, Sum(|Diff(c, w, m - 1)|, ErrorTerm(c, w, m - 1, x))), Add(c[m - 1], w[m - 1]))
  {
    hide Add, Mul, Pow, ErrorTerm;
    var n := |Diff(c, w, m - 1)|;
    var f, g := ErrorTerm(c, w, m - 1, x), ErrorTerm(c, w, m, x);
    forall k: nat | k < n
      ensures g(k) == Mul(x, f(k))
    {
      ErrorTermStep(c, w, m, x, k);
    }
    SumScale(n, x, f, g);
    if c[m - 1] != w[m - 1] {
      LastErrorTerm(c, w, m, x);
    } else {
      AddSelf(c[m - 1]);
      AddZero(Mul(x, Sum(n, f)));
    }
  }

  lemma ErrorTermStep(c: seq<byte>, w: seq<byte>, m: nat, x: byte, k: nat)
    requires 0 < m <= |c| == |w| && k < |Diff(c, w, m - 1)|
    ensures ErrorTerm(c, w, m, x)(k) == Mul(x, ErrorTerm(c, w, m - 1, x)(k))
  {
    hide Add, Mul;
    var p := Diff(c, w, m - 1)[k];
    assert Diff(c, w, m)[k] == p;
    var i := m - 2 - p;
    assert Pow(x, i + 1) == Mul(x, Pow(x, i));
    MulAssoc(x, Pow(x, i), Add(c[p], w[p]));
  }

  lemma LastErrorTerm(c: seq<byte>, w: seq<byte>, m: nat, x: byte)
    requires 0 < m <= |c| == |w| && c[m - 1] != w[m - 1]
    ensures |Diff(c, w, m)| == |Diff(c, w, m - 1)| + 1
    ensures ErrorTerm(c, w, m, x)(|Diff(c, w, m - 1)|) == Add(c[m - 1], w[m - 1])
  {
    hide Add, Mul;
    assert Pow(x, 0) == 1;
    MulOne(Add(c[m - 1], w[m - 1]));
  }

  // x*(a + b) + w == (x*a + c) + (x*b + (c + w))
  lemma HornerErrorStep(x: byte, a: byte, b: byte, c: byte, w: byte)
    ensures Add(Mul(x, Add(a, b)), w) == Add(Add(Mul(x, a), c), Add(Mul(x, b), Add(c, w)))
  {
    hide *;
    MulAddRight(x, a, b);
    AddSwap(Mul(x, a), c, Mul(x, b), Add(c, w));
    AddCancel(c, w);
  }

  /** The syndromes of w are the power sums of its errors against any codeword c. */
  lemma SyndromesArePowerSums(c: seq<byte>, w: seq<byte>, n: nat, i: nat)
    requires |c| == |w| == 255 && IsCodeword(c, n) && i < n
    ensures Horner(w, 255, Alpha(i))
         == PowerSum(Errors(c, w, Diff(c, w, 255)), Points(Diff(c, w, 255)), i)
  {
    hide Add, Mul, Pow, Alpha, Sum, Horner, Diff;
    var x, ps := Alpha(i), Diff(c, w, 255);
    var u, xs := Errors(c, w, ps), Points(ps);
    HornerDifference(c, w, 255, x);
    AddZero(Sum(|ps|, ErrorTerm(c, w, 255, x)));
    var f, g := ErrorTerm(c, w, 255, x), PowerTerm(u, xs, i);
    forall k: nat | k < |ps|
      ensures f(k) == g(k)
    {
      var e := 254 - ps[k];
      PowAlpha(i, e);
      PowAlpha(e, i);
      assert i * e == e * i;
      MulComm(Pow(x, e), u[k]);
    }
    SumEq(|ps|, f, g);
  }

  lemma ErrorsNonzero(c: seq<byte>, w: seq<byte>, k: nat)
    requires |c| == |w| == 255 && k < |Diff(c, w, 255)|
    ensures Errors(c, w, Diff(c, w, 255))[k] != 0
  {
    hide Add, Diff;
    var p := Diff(c, w, 255)[k];
    AddIsZero(c[p], w[p]);
  }

  ghost predicate AreSyndromes(s: seq<byte>, w: seq<byte>)
    requires |w| == 255
  {
    forall i :: 0 <= i < |s| ==> s[i] == Horner(w, 255, Alpha(i))
  }

  /** Within the distance of the code, zero syndromes mean no error. */
  lemma NoSyndromeNoError(s: seq<byte>, c: seq<byte>, w: seq<byte>)
    requires |c| == |w| == 255 && IsCodeword(c, |s|) && AreSyndromes(s, w)
    requires Distance(c, w) <= |s| && IsZero(s)
    ensures Diff(c, w, 255) == []
  {
    hide Add, Mul, Alpha, Horner, Diff, PowerSum;
    var ps := Diff(c, w, 255);
    var u, xs := Errors(c, w, ps), Points(ps);
    PointsInverse(ps);
    forall i: nat | i < |xs|
      ensures PowerSum(u, xs, i) == 0
    {
      SyndromesArePowerSums(c, w, |s|, i);
    }
    Independent(u, xs);
    if ps != [] {
      ErrorsNonzero(c, w, 0);
    }
  }

  /** No symbol differs when there are no differing positions. */
  lemma NoDiffSame(c: seq<byte>, w: seq<byte>)
    requires |c| == |w| && Diff(c, w, |c|) == []
    ensures c == w
  {
    forall i | 0 <= i < |c|
      ensures c[i] == w[i]
    {
      if c[i] != w[i] {
        var k := DiffComplete(c, w, |c|, i);
      }
    }
  }

  // ---------- what the locator found from the syndromes must be ----------

  /** The hypotheses of bounded-distance decoding: w differs from the codeword c in at least one
      and at most half as many places as there are syndromes s. */
  ghost predicate Correctable(s: seq<byte>, c: seq<byte>, w: seq<byte>)
  {
    && |c| == |w| == 255 && |s| <= 255 && IsCodeword(c, |s|) && AreSyndromes(s, w)
    && 0 < 2 * |Diff(c, w, 255)| <= |s|
  }

  lemma CorrectableSums(s: seq<byte>, c: seq<byte>, w: seq<byte>)
    requires |c| == |w| == 255 && IsCodeword(c, |s|) && AreSyndromes(s, w)
    ensures IsPowerSums(s, Errors(c, w, Diff(c, w, 255)), Points(Diff(c, w, 255)))
  {
    hide Add, Mul, Alpha, Horner, Diff, PowerSum;
    var ps := Diff(c, w, 255);
    forall i | 0 <= i < |s|
      ensures s[i] == PowerSum(Errors(c, w, ps), Points(ps), i)
    {
      SyndromesArePowerSums(c, w, |s|, i);
    }
  }

  /** The true error locator generates the syndromes. */
  lemma TrueLocator(s: seq<byte>, c: seq<byte>, w: seq<byte>) returns (q: seq<byte>)
    requires |c| == |w| == 255 && IsCodeword(c, |s|) && AreSyndromes(s, w)
    ensures |q| == |Diff(c, w, 255)| + 1 && q[0] == 1
    ensures Generates(q, s, |Diff(c, w, 255)|, |s|)
  {
    hide Add, Mul, Alpha, Horner, Diff, PowerSum, Conv, RootPoly;
    var ps := Diff(c, w, 255);
    CorrectableSums(s, c, w);
    LocatorGenerates(s, Errors(c, w, ps), Points(ps));
    RootPolyMonic(Points(ps));
    q := Rev(RootPoly(Points(ps)));
  }

  // Trailing zero coefficients do not matter to a convolution.
  lemma ConvPrefix(p: seq<byte>, n: nat, s: seq<byte>, j: nat)
    requires n <= |p| && forall i :: n <= i < |p| ==> p[i] == 0
    ensures Conv(p[..n], s, j) == Conv(p, s, j)
  {
    hide Add, Mul, Sum;
    forall i: nat
      ensures ConvTerm(p[..n], s, j)(i) == ConvTerm(p, s, j)(i)
    {
      assert Coef(p[..n], i) == Coef(p, i);
    }
    SumEq(j + 1, ConvTerm(p[..n], s, j), ConvTerm(p, s, j));
  }

  /** A short generator of the syndromes is a locator of the errors, of full degree. */
  lemma FoundLocator(lambda: seq<byte>, el: nat, s: seq<byte>, c: seq<byte>, w: seq<byte>)
    requires Correctable(s, c, w) && |lambda| == |s| + 1 && lambda[0] == 1
    requires el <= |Diff(c, w, 255)| && DegreeAtMost(lambda, el) && Generates(lambda, s, el, |s|)
    ensures var ps := Diff(c, w, 255);
      && LocatorFor(lambda[..|ps| + 1], Points(ps), InversePoints(ps))
      && lambda[|ps|] != 0 && DegreeAtMost(lambda, |ps|)
  {
    hide Add, Mul, Alpha, Horner, Diff, PowerSum, Conv, Eval, Errors, Points, InversePoints;
    var ps := Diff(c, w, 255);
    var v, xs, ws, p := |ps|, Points(ps), InversePoints(ps), lambda[..|ps| + 1];
    CorrectableSums(s, c, w);
    PointsInverse(ps);
    forall j: nat | v <= j < |s|
      ensures Conv(p, s, j) == 0
    {
      ConvPrefix(lambda, v + 1, s, j);
    }
    forall k | 0 <= k < v
      ensures Errors(c, w, ps)[k] != 0
    {
      ErrorsNonzero(c, w, k);
    }
    GeneratorRoots(p, s, Errors(c, w, ps), xs, ws);
    if lambda[v] == 0 {
      InversesDistinct(xs, ws);
      ShortLocator(p, ws);
      assert false;
    }
  }

  // A locator with constant term one cannot have fewer coefficients than roots plus one.
  lemma ShortLocator(p: seq<byte>, ws: seq<byte>)
    requires |p| == |ws| + 1 >= 2 && p[0] == 1 && Distinct(ws) && AllRoots(p, ws)
    ensures p[|ws|] != 0
  {
    hide Add, Mul, Eval;
    if p[|ws|] == 0 {
      forall k | 0 <= k < |ws|
        ensures Eval(p[..|ws|], ws[k]) == 0
      {
        EvalPrefix(p, |ws|, ws[k]);
      }
      assert p[..|ws|][0] == 1;
      TooManyRoots(p[..|ws|], ws);
      assert false;
    }
  }

  lemma EvalPrefix(p: seq<byte>, n: nat, x: byte)
    requires n <= |p| && forall i :: n <= i < |p| ==> p[i] == 0
    ensures Eval(p[..n], x) == Eval(p, x)
  {
    hide Add, Mul, Eval, Sum, Pow;
    EvalExtend(p[..n], |p|, x);
    EvalIsSum(p, x);
    forall i: nat | i < |p|
      ensures EvalTerm(p[..n], x)(i) == EvalTerm(p, x)(i)
    {
      assert Coef(p[..n], i) == Coef(p, i);
    }
    SumEq(|p|, EvalTerm(p[..n], x), EvalTerm(p, x));
  }

  /** The roots of the locator among the powers of the generator are exactly the error positions. */
  lemma LocatorRoots(p: seq<byte>, c: seq<byte>, w: seq<byte>, i: nat)
    requires |c| == |w| == 255 && 1 <= i <= 255
    requires LocatorFor(p, Points(Diff(c, w, 255)), InversePoints(Diff(c, w, 255)))
    ensures Eval(p, Alpha(i)) == 0 <==> c[i - 1] != w[i - 1]
  {
    hide Add, Mul, Alpha, Eval, Diff, Points, InversePoints;
    var ps := Diff(c, w, 255);
    var ws := InversePoints(ps);
    if c[i - 1] != w[i - 1] {
      var k := DiffComplete(c, w, 255, i - 1);
      assert ws[k] == Alpha(i);
    } else if Eval(p, Alpha(i)) == 0 {
      var more := ws + [Alpha(i)];
      InversesDistinct(Points(ps), ws);
      forall k | 0 <= k < |ws|
        ensures ws[k] != Alpha(i)
      {
        AlphaDiffers(ps[k] + 1, i);
      }
      TooManyRoots(p, more);
      assert false;
    }
  }

  lemma AlphaDiffers(i: nat, j: nat)
    requires 1 <= i <= 255 && 1 <= j <= 255 && i != j
    ensures Alpha(i) != Alpha(j)
  {
    hide *;
    Alpha255();
    AlphaZero();
    AlphaInjective(if i % 255 < j % 255 then i % 255 else j % 255, if i % 255 < j % 255 then j % 255 else i % 255);
  }

  /** The exponents up to m at which p has a root, in increasing order. */
  ghost function RootsUpTo(p: seq<byte>, m: nat): (rs: seq<nat>)
    ensures |rs| <= m
    ensures forall k :: 0 <= k < |rs| ==> 1 <= rs[k] <= m && Eval(p, Alpha(rs[k])) == 0
  {
    if m == 0 then [] else RootsUpTo(p, m - 1) + if Eval(p, Alpha(m)) == 0 then [m] else []
  }

  lemma {:induction false} RootsAreErrors(p: seq<byte>, c: seq<byte>, w: seq<byte>, m: nat)
    requires |c| == |w| == 255 && m <= 255
    requires forall i: nat :: 1 <= i <= 255 ==> (Eval(p, Alpha(i)) == 0 <==> c[i - 1] != w[i - 1])
    ensures |RootsUpTo(p, m)| == |Diff(c, w, m)|
    ensures forall k :: 0 <= k < |Diff(c, w, m)| ==> RootsUpTo(p, m)[k] == Diff(c, w, m)[k] + 1
    decreases m
  {
    hide Eval, Alpha;
    if m == 0 {
    } else {
      RootsAreErrors(p, c, w, m - 1);
    }
  }

  // ---------- counting changes ----------

  ghost function Places(c: seq<byte>, w: seq<byte>, m: nat): set<nat>
    requires m <= |c| == |w|
  {
    set i: nat | i < m && c[i] != w[i]
  }

  lemma {:induction false} PlacesCount(c: seq<byte>, w: seq<byte>, m: nat)
    requires m <= |c| == |w|
    ensures |Places(c, w, m)| == |Diff(c, w, m)|
    decreases m
  {
    if m == 0 {
    } else {
      PlacesCount(c, w, m - 1);
      var before := Places(c, w, m - 1);
      assert Places(c, w, m) == if c[m - 1] != w[m - 1] then before + {m - 1} else before;
    }
  }

  ghost predicate Increasing(ps: seq<nat>)
  {
    forall i, j :: 0 <= i < j < |ps| ==> ps[i] < ps[j]
  }

  ghost predicate NoRepeat(ps: seq<nat>)
  {
    forall i, j :: 0 <= i < j < |ps| ==> ps[i] != ps[j]
  }

  ghost function Members(ps: seq<nat>): set<nat>
  {
    set i | i in ps
  }

  lemma {:induction false} MembersCount(ps: seq<nat>)
    ensures |Members(ps)| <= |ps|
    ensures |Members(ps)| == |ps| ==> NoRepeat(ps)
    decreases |ps|
  {
    if ps == [] {
    } else {
      var init, last := ps[..|ps| - 1], ps[|ps| - 1];
      MembersCount(init);
      assert ps == init + [last];
      assert Members(ps) == Members(init) + {last};
    }
  }

  lemma SubsetCount(a: set<nat>, b: set<nat>)
    requires a <= b
    ensures |a| <= |b|
  {
    assert b == a + (b - a);
  }

  /** Words that differ only at the listed places differ in at most as many, and in as many only
      when no place is listed twice. */
  lemma ChangesCount(c: seq<byte>, w: seq<byte>, ps: seq<nat>)
    requires |c| == |w| && forall i :: 0 <= i < |w| && i !in ps ==> c[i] == w[i]
    ensures Distance(c, w) <= |ps|
    ensures Distance(c, w) == |ps| ==> NoRepeat(ps)
  {
    hide Diff;
    PlacesCount(c, w, |w|);
    SubsetCount(Places(c, w, |w|), Members(ps));
    MembersCount(ps);
  }

  lemma SameDistance(w: seq<byte>)
    ensures Distance(w, w) == 0
  {
    SameDiff(w, |w|);
  }

  lemma {:induction false} SameDiff(w: seq<byte>, m: nat)
    requires m <= |w|
    ensures Diff(w, w, m) == []
  {
    if m == 0 {
    } else {
      SameDiff(w, m - 1);
    }
  }
}
