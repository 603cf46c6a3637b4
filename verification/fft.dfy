/** The mixed-radix transform: factoring the length, the butterflies, the recursion. */
module Fft {
  import opened Complex
  import opened Dft
  import opened FftFive

  /** The state set up for transforms of one length. */
  datatype Cfg = Cfg(nfft: nat, inverse: bool, factors: seq<nat>, twiddles: seq<Cx>)

  ghost predicate Valid(st: Cfg)
  {
    && st.nfft >= 1 && |st.twiddles| == st.nfft && Roots(st.twiddles, st.inverse)
    && st.factors != [] && Factors(st.factors, st.nfft)
  }

  // ---------- kf_factor ----------

  /** Pairs of a radix and what is left, whose product is n; each cofactor is factored by the pairs that follow. */
  ghost predicate Factors(fs: seq<nat>, n: nat)
  {
    if fs == [] then n == 1
    else |fs| >= 2 && fs[0] >= 1 && fs[1] >= 1 && n == Times(fs[0], fs[1]) && Factors(fs[2..], fs[1])
  }

  /** The same for a list that stops where rest is still to be factored. */
  ghost predicate FactorsDownTo(fs: seq<nat>, n: nat, rest: nat)
  {
    if fs == [] then n == rest
    else |fs| >= 2 && fs[0] >= 1 && fs[1] >= 1 && n == Times(fs[0], fs[1]) && FactorsDownTo(fs[2..], fs[1], rest)
  }

  lemma {:induction false} FactorsMore(fs: seq<nat>, n: nat, p: nat, m: nat)
    requires FactorsDownTo(fs, n, Times(p, m)) && p >= 1 && m >= 1
    ensures FactorsDownTo(fs + [p, m], n, m)
    decreases |fs|
  {
    hide Times;
    if fs == [] {
      assert [p, m][2..] == [];
    } else {
      FactorsMore(fs[2..], fs[1], p, m);
      assert (fs + [p, m])[2..] == fs[2..] + [p, m];
    }
  }

  lemma {:induction false} FactorsComplete(fs: seq<nat>, n: nat)
    requires FactorsDownTo(fs, n, 1)
    ensures Factors(fs, n)
    decreases |fs|
  {
    if fs == [] {
    } else {
      FactorsComplete(fs[2..], fs[1]);
    }
  }

  // ---------- which radices ----------

  ghost predicate IsPrime(p: nat)
  {
    p >= 2 && forall d :: 2 <= d < p ==> p % d != 0
  }

  /** n has no divisor from two up to p. */
  ghost predicate NoneBelow(n: nat, p: nat)
  {
    forall d: nat :: 2 <= d < p ==> n % d != 0
  }

  /** What the search has ruled out when it tries p: nothing at four, the factor four at two, and
      every smaller divisor after that. */
  ghost predicate Cleared(n: nat, p: nat)
  {
    p == 4 || (p == 2 && n % 4 != 0) || (p >= 3 && p % 2 == 1 && NoneBelow(n, p))
  }

  /** The radices in the order in which they are tried. */
  function Rank(p: nat): nat
  {
    if p == 4 then 1 else p
  }

  ghost predicate IsRadix(p: nat)
  {
    p == 4 || IsPrime(p)
  }

  /** The radices of a list of pairs are fours or primes, fours first, then increasing, up to p. */
  ghost predicate Radices(fs: seq<nat>, p: nat)
  {
    && |fs| % 2 == 0
    && (forall i :: 0 <= i < |fs| / 2 ==> IsRadix(fs[2 * i]) && Rank(fs[2 * i]) <= Rank(p))
    && (forall i, j :: 0 <= i < j < |fs| / 2 ==> Rank(fs[2 * i]) <= Rank(fs[2 * j]))
  }

  lemma RadicesMore(fs: seq<nat>, p0: nat, p: nat, m: nat)
    requires Radices(fs, p0) && Rank(p0) <= Rank(p) && IsRadix(p)
    ensures Radices(fs + [p, m], p)
  {
    hide IsRadix, Rank;
    var more := fs + [p, m];
    forall i | 0 <= i < |more| / 2
      ensures more[2 * i] == if i < |fs| / 2 then fs[2 * i] else p
    {
    }
  }

  lemma NoRadices(n0: nat)
    ensures Radices([], 4) && Cleared(n0, 4)
  {
  }

  lemma DivisorOf(n: nat, p: nat, d: nat)
    requires p >= 1 && d >= 1 && n % p == 0 && p % d == 0
    ensures n % d == 0
  {
    var a, b := n / p, p / d;
    assert n == p * a && p == d * b;
    assert n == d * (b * a);
    MultipleOf(d, b * a);
  }

  lemma MultipleOf(d: nat, k: nat)
    requires d >= 1
    ensures (d * k) % d == 0
  {
    ModMultiple(0, k, d);
    assert d * k == 0 + k * d;
  }

  // The least divisor met is prime.
  lemma DivisorPrime(n: nat, p: nat)
    requires p >= 3 && n % p == 0 && NoneBelow(n, p)
    ensures IsPrime(p)
  {
    forall d | 2 <= d < p
      ensures p % d != 0
    {
      if p % d == 0 {
        DivisorOf(n, p, d);
      }
    }
  }

  // What remains has no new divisors.
  lemma ClearedAfter(n: nat, p: nat)
    requires n >= 1 && p >= 1 && n % p == 0 && Cleared(n, p)
    ensures Cleared(n / p, p)
  {
    var m := n / p;
    assert n == p * m;
    if p >= 3 && p != 4 {
      forall d: nat | 2 <= d < p
        ensures m % d != 0
      {
        if m % d == 0 {
          assert n == m * p;
          MultipleOf(m, p);
          DivisorOf(n, m, d);
        }
      }
    }
  }

  // Trying the next odd number: an even one cannot divide either.
  lemma NextOdd(n: nat, p: nat)
    requires p >= 3 && n % p != 0 && NoneBelow(n, p) && p % 2 == 1
    ensures NoneBelow(n, p + 2)
  {
    if n % (p + 1) == 0 {
      DivisorOf(n, p + 1, 2);
    }
  }

  // A number without a divisor up to its square root is prime.
  lemma PrimeLeft(n: nat, p: nat, r: nat)
    requires n >= 2 && NoneBelow(n, p) && p > r && n < Times(r + 1, r + 1)
    ensures IsPrime(n) && NoneBelow(n, n)
  {
    forall d: nat | 2 <= d < n
      ensures n % d != 0
    {
      if n % d == 0 {
        var e := n / d;
        assert n == d * e && e >= 2;
        assert n == e * d;
        MultipleOf(e, d);
        assert d > r && e > r;
        Larger(r + 1, d, e);
      }
    }
  }

  lemma Larger(a: nat, d: nat, e: nat)
    requires d >= a && e >= a
    ensures d * e >= a * a
  {
    assert d * e >= a * e;
    assert a * e >= a * a;
  }

  // Where the search goes from p, and what it has ruled out then.
  function Next(p: nat): nat
  {
    if p == 4 then 2 else if p == 2 then 3 else p + 2
  }

  lemma NextCleared(n: nat, p: nat)
    requires n >= 2 && p >= 2 && Cleared(n, p) && n % p != 0
    ensures Cleared(n, Next(p)) && Rank(p) <= Rank(Next(p))
  {
    if p >= 3 && p != 4 {
      NextOdd(n, p);
    }
  }

  // Past the square root only n itself is left.
  lemma JumpCleared(n: nat, p: nat, r: nat)
    requires n >= 2 && p >= 2 && Cleared(n, p) && n % p != 0 && Next(p) > r && n < Times(r + 1, r + 1)
    ensures Cleared(n, n) && Rank(p) <= Rank(n)
  {
    NextCleared(n, p);
    if p == 4 {
      assert r <= 1;
      assert (r + 1) * (r + 1) <= 4 by { Larger4(r); }
    } else {
      PrimeLeft(n, Next(p), r);
      AtLeast(n, Next(p));
    }
  }

  // A number divides itself.
  lemma AtLeast(n: nat, p: nat)
    requires n >= 2 && NoneBelow(n, p)
    ensures n >= p
  {
    MultipleOf(n, 1);
    assert n * 1 == n;
  }

  lemma Larger4(r: nat)
    requires r <= 1
    ensures (r + 1) * (r + 1) <= 4
  {
  }

  lemma FoundRadix(n: nat, p: nat)
    requires n >= 2 && p >= 2 && Cleared(n, p) && n % p == 0
    ensures IsRadix(p)
  {
    if p >= 3 && p != 4 {
      DivisorPrime(n, p);
    }
  }

  /** kf_factor: fours, then a two, then odd primes in increasing order. */
  method KfFactor(n0: nat, floorSqrt: nat) returns (facbuf: seq<nat>, ghost last: nat)
    requires n0 >= 1
    ensures facbuf != [] && Factors(facbuf, n0)
    ensures 2 <= n0 < Times(floorSqrt + 1, floorSqrt + 1) ==> Radices(facbuf, last)
  {
    hide Times, Factors, FactorsDownTo, Radices, Cleared, IsRadix, Rank;
    var n, p := n0, 4;
    facbuf := [];
    NothingYet(n0);
    NoRadices(n0);
    ghost var exact := 2 <= n0 < Times(floorSqrt + 1, floorSqrt + 1);
    while true
      invariant 1 <= n <= n0 && p >= 2 && (n == 1 ==> n0 == 1) && FactorsDownTo(facbuf, n0, n)
      invariant exact ==> Radices(facbuf, p) && Cleared(n, p)
      decreases n
    {
      ghost var p0 := p;
      p := NextDivisor(n, p, floorSqrt);
      DivideOut(n, p);
      FactorsMore(facbuf, n0, p, n / p);
      if exact {
        RadicesMore(facbuf, p0, p, n / p);
        ClearedAfter(n, p);
      }
      n := n / p;
      facbuf := facbuf + [p, n];
      if n <= 1 {
        break;
      }
    }
    last := p;
    FactorsComplete(facbuf, n0);
  }

  lemma NothingYet(n: nat)
    ensures FactorsDownTo([], n, n)
  {
  }

  lemma DivideOut(n: nat, p: nat)
    requires n >= 1 && p >= 1 && n % p == 0
    ensures n == Times(p, n / p) && n / p >= 1 && (p >= 2 ==> n / p < n)
  {
    var q := n / p;
    assert n == p * q;
    assert p * 0 == 0;
    assert p * q == q + (p - 1) * q;
    Multiple(q, p - 1);
  }

  // A bound on how many more divisors are tried after p.
  function TriesLeft(n: nat, p: nat, floorSqrt: nat): nat
    requires p >= 1
  {
    if n % p == 0 then 0
    else if p == 4 then floorSqrt + 6
    else if p == 2 then floorSqrt + 5
    else if p <= floorSqrt then floorSqrt + 4 - p
    else 1
  }

  // The inner loop of kf_factor.
  method NextDivisor(n: nat, p0: nat, floorSqrt: nat) returns (p: nat)
    requires n >= 1 && p0 >= 2
    ensures p >= 1 && n % p == 0 && (p >= 2 || n == 1)
    ensures 2 <= n < Times(floorSqrt + 1, floorSqrt + 1) && Cleared(n, p0) ==>
              Cleared(n, p) && Rank(p0) <= Rank(p) && IsRadix(p)
  {
    hide Times, Cleared, Rank, IsRadix;
    p := p0;
    ghost var exact := 2 <= n < Times(floorSqrt + 1, floorSqrt + 1) && Cleared(n, p0);
    while n % p != 0
      invariant p >= 2 || p == n
      invariant exact ==> p >= 2 && Cleared(n, p) && Rank(p0) <= Rank(p)
      decreases TriesLeft(n, p, floorSqrt)
    {
      if exact {
        NextCleared(n, p);
        if Next(p) > floorSqrt {
          JumpCleared(n, p, floorSqrt);
        }
      }
      if p == 4 {
        p := 2;
      } else if p == 2 {
        p := 3;
      } else {
        p := p + 2;
      }
      if p > floorSqrt {
        p := n;
      }
    }
    if exact {
      FoundRadix(n, p);
    }
  }

  // ---------- butterflies ----------

  /** Place u of the q-th of the parts of length m. */
  function Idx(q: nat, m: nat, u: nat): nat
  {
    Times(q, m) + u
  }

  lemma IdxBounds(q: nat, p: nat, m: nat, u: nat)
    requires q < p && u < m
    ensures Idx(q, m, u) < Times(p, m) && Idx(q, m, u) < Times(q + 1, m) <= Times(p, m)
  {
    assert (q + 1) * m == q * m + m;
    assert (q + 1) * m <= p * m;
  }

  lemma IdxDistinct(q: nat, r: nat, m: nat, u: nat, v: nat)
    requires u < m && v < m && Idx(q, m, u) == Idx(r, m, v)
    ensures q == r && u == v
  {
    if q < r {
      IdxBounds(q, r, m, u);
    } else if r < q {
      IdxBounds(r, q, m, v);
    }
  }

  /** q maps to place u of the q-th part, turned by q * fs * k. */
  ghost function Column(s: seq<Cx>, tw: seq<Cx>, fs: nat, m: nat, u: nat, k: nat): nat -> Cx
    requires |tw| >= 1
  {
    (q: nat) => Mul(At(s, Idx(q, m, u)), W(tw, Times(q, Times(fs, k))))
  }

  /** The columns of r before u are the combined columns of s, the others are those of s. */
  ghost predicate Combined(s: seq<Cx>, r: seq<Cx>, tw: seq<Cx>, fs: nat, p: nat, m: nat, u: nat)
    requires |tw| >= 1
  {
    && |r| == |s| == Times(p, m)
    && forall q, v :: 0 <= q < p && 0 <= v < m ==>
         At(r, Idx(q, m, v)) == if v < u then Sum(p, Column(s, tw, fs, m, v, Idx(q, m, v))) else At(s, Idx(q, m, v))
  }

  /** The parameters of one stage: p parts of length m, fs apart in the table. */
  ghost predicate Stage(tw: seq<Cx>, inverse: bool, fs: nat, p: nat, m: nat)
  {
    |tw| >= 1 && Roots(tw, inverse) && p >= 1 && m >= 1 && Times(fs, Times(p, m)) == |tw|
  }

  lemma CombinedStart(s: seq<Cx>, tw: seq<Cx>, fs: nat, p: nat, m: nat)
    requires |tw| >= 1 && |s| == Times(p, m)
    ensures Combined(s, s, tw, fs, p, m, 0)
  {
  }

  /** Only column u was changed, and it now holds the combined values. */
  lemma CombinedNext(s: seq<Cx>, r: seq<Cx>, r': seq<Cx>, tw: seq<Cx>, fs: nat, p: nat, m: nat, u: nat)
    requires |tw| >= 1 && Combined(s, r, tw, fs, p, m, u) && u < m && |r'| == |r|
    requires forall q, v :: 0 <= q < p && 0 <= v < m && v != u ==> At(r', Idx(q, m, v)) == At(r, Idx(q, m, v))
    requires forall q :: 0 <= q < p ==> At(r', Idx(q, m, u)) == Sum(p, Column(s, tw, fs, m, u, Idx(q, m, u)))
    ensures Combined(s, r', tw, fs, p, m, u + 1)
  {
    hide Idx, At, Column, Sum;
  }

  // The turn of part q at place k = u + q1 * m: that at u, and then q * q1 p-th parts of a full turn.
  lemma TurnAt(tw: seq<Cx>, inverse: bool, fs: nat, p: nat, m: nat, q: nat, q1: nat, u: nat)
    requires Stage(tw, inverse, fs, p, m)
    ensures W(tw, Times(q, Times(fs, Idx(q1, m, u)))) ==
        Mul(W(tw, Times(q, Times(fs, u))), W(tw, Times(Times(q, q1), Times(fs, m))))
  {
    hide Roots, W, Mul;
    TurnExponent(fs, m, q, q1, u);
    WAdd(tw, inverse, Times(q, Times(fs, u)), Times(Times(q, q1), Times(fs, m)));
  }

  lemma TurnExponent(fs: nat, m: nat, q: nat, q1: nat, u: nat)
    ensures Times(q, Times(fs, Idx(q1, m, u))) == Times(q, Times(fs, u)) + Times(Times(q, q1), Times(fs, m))
  {
    assert q * (fs * (q1 * m + u)) == q * (fs * (q1 * m)) + q * (fs * u);
    assert q * (fs * (q1 * m)) == (q * q1) * (fs * m);
  }

  // An index into the table that needs no reduction.
  lemma TurnSmall(tw: seq<Cx>, fs: nat, p: nat, m: nat, q: nat, u: nat)
    requires Times(fs, Times(p, m)) == |tw| >= 1 && q < p && u < m
    ensures Times(q, Times(fs, u)) < |tw| && W(tw, Times(q, Times(fs, u))) == tw[Times(q, Times(fs, u))]
  {
    TimesSwap(q, fs, u);
    TimesLess(q, p, u, m);
    TimesScale(fs, Times(q, u), Times(p, m));
    hide Times;
    WSmall(tw, Times(q, Times(fs, u)));
  }

  lemma TimesSwap(a: nat, b: nat, c: nat)
    ensures Times(a, Times(b, c)) == Times(b, Times(a, c))
  {
  }

  lemma TimesLess(a: nat, b: nat, c: nat, d: nat)
    requires a < b && c < d
    ensures Times(a, c) < Times(b, d)
  {
    assert a * c <= a * d;
    assert (a + 1) * d <= b * d;
  }

  lemma TimesScale(f: nat, a: nat, b: nat)
    requires a < b && Times(f, b) >= 1
    ensures Times(f, a) < Times(f, b)
  {
    var d: nat := b - a;
    assert f * b == f * a + f * d;
    Multiple(f, d);
    Multiple(d, f);
    assert f == 0 ==> f * b == 0;
  }

  /** The p-th part of a full turn. */
  lemma PartOfTurn(tw: seq<Cx>, inverse: bool, fs: nat, p: nat, m: nat)
    requires Stage(tw, inverse, fs, p, m)
    ensures Times(p, Times(fs, m)) == |tw| && |tw| % p == 0 && |tw| / p == Times(fs, m)
  {
    TimesSwap(p, fs, m);
    DivExact(p, Times(fs, m));
  }

  lemma DivExact(p: nat, d: nat)
    requires p >= 1
    ensures Times(p, d) % p == 0 && Times(p, d) / p == d
  {
    ModIs(Times(p, d), p, d, 0);
    var e := Times(p, d) / p;
    assert Times(p, d) == p * e + Times(p, d) % p;
    assert p * (d - e) == 0;
    Multiple(p, d - e);
  }

  /** The j-th power of the p-th root of unity of a stage. */
  ghost function Root(tw: seq<Cx>, fs: nat, m: nat, j: nat): Cx
    requires |tw| >= 1
  {
    W(tw, Times(j, Times(fs, m)))
  }

  lemma RootAdd(tw: seq<Cx>, inverse: bool, fs: nat, p: nat, m: nat, i: nat, j: nat)
    requires Stage(tw, inverse, fs, p, m)
    ensures Root(tw, fs, m, i + j) == Mul(Root(tw, fs, m, i), Root(tw, fs, m, j))
    ensures Root(tw, fs, m, 0) == ONE && Root(tw, fs, m, p) == ONE
    ensures Root(tw, fs, m, i + p) == Root(tw, fs, m, i)
  {
    hide Mul, Roots, W, Times;
    PartOfTurn(tw, inverse, fs, p, m);
    var d := Times(fs, m);
    TimesAdd(i, j, d);
    TimesAdd(i, p, d);
    WhenZero(tw, inverse, d);
    WAdd(tw, inverse, Times(i, d), Times(j, d));
    WAdd(tw, inverse, Times(i, d), Times(p, d));
    MulUnit(Root(tw, fs, m, i));
  }

  lemma WhenZero(tw: seq<Cx>, inverse: bool, d: nat)
    requires |tw| >= 1 && Roots(tw, inverse)
    ensures W(tw, 0) == ONE && W(tw, |tw|) == ONE && Times(0, d) == 0
  {
    WPeriod(tw, 0, 1);
  }

  lemma TimesAdd(a: nat, b: nat, c: nat)
    ensures Times(a + b, c) == Times(a, c) + Times(b, c)
  {
  }

  /** A term of a combined column: the turned value of the part, times a power of the p-th root. */
  lemma ColumnTerm(s: seq<Cx>, tw: seq<Cx>, inverse: bool, fs: nat, p: nat, m: nat, u: nat, q: nat, q1: nat, y: Cx)
    requires Stage(tw, inverse, fs, p, m) && u < m && q < p
    requires Times(q, Times(fs, u)) < |tw| && y == Mul(At(s, Idx(q, m, u)), tw[Times(q, Times(fs, u))])
    ensures Column(s, tw, fs, m, u, Idx(q1, m, u))(q) == Mul(y, Root(tw, fs, m, q * q1))
  {
    WSmall(tw, Times(q, Times(fs, u)));
    assert Times(q, q1) == q * q1;
    hide Roots, W, Mul, At, Times, Idx;
    TurnAt(tw, inverse, fs, p, m, q, q1, u);
    MulAssoc(At(s, Idx(q, m, u)), tw[Times(q, Times(fs, u))], Root(tw, fs, m, q * q1));
  }

  // The part that is not turned.
  lemma FirstTurn(tw: seq<Cx>, inverse: bool, fs: nat, u: nat, x: Cx)
    requires |tw| >= 1 && Roots(tw, inverse)
    ensures Times(0, Times(fs, u)) == 0 && Mul(x, tw[0]) == x
  {
    MulUnit(x);
  }

  // ---------- one place at a time ----------

  /** r' is r with x at place u of part q. */
  ghost predicate Only(r: seq<Cx>, r': seq<Cx>, p: nat, m: nat, q: nat, u: nat, x: Cx)
  {
    && |r'| == |r| && At(r', Idx(q, m, u)) == x
    && forall q', v :: 0 <= q' < p && 0 <= v < m && (q' != q || v != u) ==>
        At(r', Idx(q', m, v)) == At(r, Idx(q', m, v))
  }

  lemma SetOnly(r: seq<Cx>, p: nat, m: nat, q: nat, u: nat, x: Cx)
    requires |r| == Times(p, m) && q < p && u < m
    ensures Idx(q, m, u) < |r| && Only(r, r[Idx(q, m, u) := x], p, m, q, u, x)
  {
    hide Idx, Times;
    IdxBounds(q, p, m, u);
    forall q': nat, v: nat | q' < p && v < m && (q' != q || v != u)
      ensures Idx(q', m, v) != Idx(q, m, u)
    {
      if Idx(q', m, v) == Idx(q, m, u) {
        IdxDistinct(q', q, m, v, u);
      }
    }
  }

  method SetPlace(fout: array<Cx>, at: nat, ghost p: nat, m: nat, q: nat, u: nat, x: Cx)
    requires q < p && u < m && at + Times(p, m) <= fout.Length
    modifies fout
    ensures fout[..at] == old(fout[..at]) && fout[at + Times(p, m)..] == old(fout[at + Times(p, m)..])
    ensures Only(old(fout[at..at + Times(p, m)]), fout[at..at + Times(p, m)], p, m, q, u, x)
  {
    hide Idx, Times;
    ghost var r := fout[at..at + Times(p, m)];
    SetOnly(r, p, m, q, u, x);
    fout[at + Idx(q, m, u)] := x;
    assert fout[at..at + Times(p, m)] == r[Idx(q, m, u) := x];
  }

  method GetPlace(fout: array<Cx>, at: nat, ghost p: nat, m: nat, q: nat, u: nat) returns (x: Cx)
    requires q < p && u < m && at + Times(p, m) <= fout.Length
    ensures x == At(fout[at..at + Times(p, m)], Idx(q, m, u))
  {
    hide Idx, Times;
    IdxBounds(q, p, m, u);
    x := fout[at + Idx(q, m, u)];
  }

  // A column not yet reached.
  lemma Untouched(s: seq<Cx>, r: seq<Cx>, tw: seq<Cx>, fs: nat, p: nat, m: nat, u: nat, q: nat)
    requires |tw| >= 1 && Combined(s, r, tw, fs, p, m, u) && u < m && q < p
    ensures At(r, Idx(q, m, u)) == At(s, Idx(q, m, u))
  {
  }

  // ---------- radix 2 ----------

  lemma SumTwo(f: nat -> Cx)
    ensures Sum(2, f) == Add(f(0), f(1))
  {
    assert Sum(1, f) == Add(Sum(0, f), f(0));
  }

  lemma RootTwo(tw: seq<Cx>, inverse: bool, fs: nat, m: nat)
    requires Stage(tw, inverse, fs, 2, m)
    ensures Root(tw, fs, m, 0) == ONE && Root(tw, fs, m, 1) == Neg(ONE)
  {
    hide Roots, W, Times, Root;
    RootAdd(tw, inverse, fs, 2, m, 0, 0);
    RootOne(tw, inverse, fs, 2, m);
    HalfTurn(tw, inverse);
  }

  lemma HalfTurn(tw: seq<Cx>, inverse: bool)
    requires |tw| >= 1 && Roots(tw, inverse) && |tw| % 2 == 0
    ensures tw[|tw| / 2] == Neg(ONE)
  {
  }

  lemma RootOne(tw: seq<Cx>, inverse: bool, fs: nat, p: nat, m: nat)
    requires Stage(tw, inverse, fs, p, m) && p >= 2
    ensures |tw| % p == 0 && |tw| / p < |tw| && Root(tw, fs, m, 1) == tw[|tw| / p]
    ensures Root(tw, fs, m, 2) == W(tw, 2 * (|tw| / p))
  {
    PartOfTurn(tw, inverse, fs, p, m);
    Halves(p, Times(fs, m));
    assert Times(1, Times(fs, m)) == Times(fs, m) && Times(2, Times(fs, m)) == 2 * Times(fs, m);
    hide Roots, W, Times;
    WSmall(tw, Times(fs, m));
  }

  lemma Halves(p: nat, d: nat)
    requires p >= 2 && Times(p, d) >= 1
    ensures d < Times(p, d)
  {
    assert p * d >= 2 * d;
    assert d == 0 ==> p * d == 0;
  }

  lemma TwoValues(x: Cx, t: Cx)
    ensures Add(Mul(x, ONE), Mul(t, ONE)) == Add(x, t) && Add(Mul(x, ONE), Mul(t, Neg(ONE))) == Sub(x, t)
  {
  }

  lemma Two(s: seq<Cx>, tw: seq<Cx>, inverse: bool, fs: nat, m: nat, u: nat, t: Cx)
    requires Stage(tw, inverse, fs, 2, m) && u < m && Times(fs, u) < |tw|
    requires t == Mul(At(s, Idx(1, m, u)), tw[Times(fs, u)])
    ensures Sum(2, Column(s, tw, fs, m, u, Idx(0, m, u))) == Add(At(s, Idx(0, m, u)), t)
    ensures Sum(2, Column(s, tw, fs, m, u, Idx(1, m, u))) == Sub(At(s, Idx(0, m, u)), t)
  {
    var x := At(s, Idx(0, m, u));
    FirstTurn(tw, inverse, fs, u, x);
    assert Times(1, Times(fs, u)) == Times(fs, u);
    RootTwo(tw, inverse, fs, m);
    TwoValues(x, t);
    hide Roots, W, At, Times, Idx, Column, Root, Mul, Add, Sub, Neg, Sum;
    forall q1: nat | q1 < 2
      ensures Sum(2, Column(s, tw, fs, m, u, Idx(q1, m, u))) ==
          Add(Mul(x, Root(tw, fs, m, 0)), Mul(t, Root(tw, fs, m, q1)))
    {
      ColumnTerm(s, tw, inverse, fs, 2, m, u, 0, q1, x);
      ColumnTerm(s, tw, inverse, fs, 2, m, u, 1, q1, t);
      SumTwo(Column(s, tw, fs, m, u, Idx(q1, m, u)));
    }
  }

  /** kf_bfly2 */
  method KfBfly2(fout: array<Cx>, at: nat, fs: nat, st: Cfg, m: nat)
    requires Stage(st.twiddles, st.inverse, fs, 2, m) && at + Times(2, m) <= fout.Length
    modifies fout
    ensures fout[..at] == old(fout[..at]) && fout[at + Times(2, m)..] == old(fout[at + Times(2, m)..])
    ensures Combined(old(fout[at..at + Times(2, m)]), fout[at..at + Times(2, m)], st.twiddles, fs, 2, m, m)
  {
    hide Roots, W, Mul, Add, Sub, Column, Sum, Combined, Idx, Times;
    var tw := st.twiddles;
    ghost var l := Times(2, m);
    ghost var s := fout[at..at + l];
    var u, tw1 := 0, 0;
    StartAt(fs);
    CombinedStart(s, tw, fs, 2, m);
    while u < m
      invariant u <= m && tw1 == Times(fs, u)
      invariant fout[..at] == old(fout[..at]) && fout[at + l..] == old(fout[at + l..])
      invariant Combined(s, fout[at..at + l], tw, fs, 2, m, u)
    {
      ghost var r := fout[at..at + l];
      Untouched(s, r, tw, fs, 2, m, u, 0);
      Untouched(s, r, tw, fs, 2, m, u, 1);
      OneTurn(tw, fs, 2, m, u);
      var f0 := GetPlace(fout, at, 2, m, 0, u);
      var f1 := GetPlace(fout, at, 2, m, 1, u);
      var t := Mul(f1, tw[tw1]);
      Two(s, tw, st.inverse, fs, m, u, t);
      NextTurn(fs, u);
      tw1 := tw1 + fs;
      SetPlace(fout, at, 2, m, 1, u, Sub(f0, t));
      SetPlace(fout, at, 2, m, 0, u, Add(f0, t));
      CombinedNext(s, r, fout[at..at + l], tw, fs, 2, m, u);
      u := u + 1;
    }
  }

  lemma StartAt(fs: nat)
    ensures Times(fs, 0) == 0
  {
  }

  lemma NextTurn(fs: nat, u: nat)
    ensures Times(fs, u + 1) == Times(fs, u) + fs
  {
  }

  lemma OneTurn(tw: seq<Cx>, fs: nat, p: nat, m: nat, u: nat)
    requires Times(fs, Times(p, m)) == |tw| >= 1 && 2 <= p && u < m
    ensures Times(fs, u) < |tw|
  {
    TurnSmall(tw, fs, p, m, 1, u);
  }

  // ---------- radix 4 ----------

  lemma SumFour(f: nat -> Cx)
    ensures Sum(4, f) == Add(Add(Add(f(0), f(1)), f(2)), f(3))
  {
    SumTwo(f);
    assert Sum(3, f) == Add(Sum(2, f), f(2));
  }

  /** The fourth root of unity of the direction. */
  function Quarter(inverse: bool): Cx
  {
    if inverse then Cx(0.0, 1.0) else Cx(0.0, -1.0)
  }

  lemma RootFour(tw: seq<Cx>, inverse: bool, fs: nat, m: nat)
    requires Stage(tw, inverse, fs, 4, m)
    ensures Root(tw, fs, m, 0) == ONE && Root(tw, fs, m, 1) == Quarter(inverse)
    ensures Root(tw, fs, m, 2) == Neg(ONE) && Root(tw, fs, m, 3) == Neg(Quarter(inverse))
    ensures Root(tw, fs, m, 4) == ONE && Root(tw, fs, m, 6) == Neg(ONE) && Root(tw, fs, m, 9) == Quarter(inverse)
  {
    hide Roots, W, Times, Root, Mul, Quarter, Neg;
    RootOne(tw, inverse, fs, 4, m);
    QuarterTurn(tw, inverse);
    QuarterPowers(inverse);
    RootAdd(tw, inverse, fs, 4, m, 1, 1);
    RootAdd(tw, inverse, fs, 4, m, 2, 1);
    RootAdd(tw, inverse, fs, 4, m, 5, 0);
    assert Root(tw, fs, m, 1 + 4) == Root(tw, fs, m, 1) && Root(tw, fs, m, 5 + 4) == Root(tw, fs, m, 5);
    assert Root(tw, fs, m, 2 + 4) == Root(tw, fs, m, 2);
  }

  lemma QuarterPowers(inverse: bool)
    ensures Mul(Quarter(inverse), Quarter(inverse)) == Neg(ONE)
        && Mul(Neg(ONE), Quarter(inverse)) == Neg(Quarter(inverse))
  {
    hide Mul;
    var i := if inverse then 1.0 else -1.0;
    assert Quarter(inverse) == Cx(0.0, i) && Neg(ONE) == Cx(-1.0, 0.0);
    MulImaginary(i, i);
    assert i * i == 1.0;
    MulMinusOne(Cx(0.0, i));
  }

  lemma MulImaginary(a: real, b: real)
    ensures Mul(Cx(0.0, a), Cx(0.0, b)) == Cx(-(a * b), 0.0)
  {
  }

  lemma MulMinusOne(z: Cx)
    ensures Mul(Cx(-1.0, 0.0), z) == Neg(z)
  {
  }

  lemma QuarterTurn(tw: seq<Cx>, inverse: bool)
    requires |tw| >= 1 && Roots(tw, inverse) && |tw| % 4 == 0
    ensures tw[|tw| / 4] == Quarter(inverse)
  {
  }

  lemma MulQuarters(inverse: bool, y: Cx)
    ensures Mul(y, ONE) == y && Mul(y, Neg(ONE)) == Neg(y)
    ensures Mul(y, Quarter(inverse)) == if inverse then PlusI(ZERO, y) else MinusI(ZERO, y)
    ensures Mul(y, Neg(Quarter(inverse))) == if inverse then MinusI(ZERO, y) else PlusI(ZERO, y)
  {
  }

  /** Coefficient q1 of the transform of four values. */
  ghost function Four(x: Cx, y1: Cx, y2: Cx, y3: Cx, c1: Cx, c2: Cx, c3: Cx): Cx
  {
    Add(Add(Add(Mul(x, ONE), Mul(y1, c1)), Mul(y2, c2)), Mul(y3, c3))
  }

  lemma FourColumn(s: seq<Cx>, tw: seq<Cx>, inverse: bool, fs: nat, m: nat, u: nat, q1: nat, x: Cx, y1: Cx, y2: Cx,
                   y3: Cx)
    requires Stage(tw, inverse, fs, 4, m) && u < m
    requires Times(1, Times(fs, u)) < |tw| && Times(2, Times(fs, u)) < |tw| && Times(3, Times(fs, u)) < |tw|
    requires x == At(s, Idx(0, m, u)) && y1 == Mul(At(s, Idx(1, m, u)), tw[Times(1, Times(fs, u))])
    requires y2 == Mul(At(s, Idx(2, m, u)), tw[Times(2, Times(fs, u))])
        && y3 == Mul(At(s, Idx(3, m, u)), tw[Times(3, Times(fs, u))])
    ensures Sum(4, Column(s, tw, fs, m, u, Idx(q1, m, u)))
         == Four(x, y1, y2, y3, Root(tw, fs, m, q1), Root(tw, fs, m, 2 * q1), Root(tw, fs, m, 3 * q1))
  {
    hide Roots, W, At, Times, Idx, Column, Root, Mul, Add, Sum;
    FirstTurn(tw, inverse, fs, u, x);
    RootAdd(tw, inverse, fs, 4, m, 0, 0);
    ColumnTerm(s, tw, inverse, fs, 4, m, u, 0, q1, x);
    ColumnTerm(s, tw, inverse, fs, 4, m, u, 1, q1, y1);
    ColumnTerm(s, tw, inverse, fs, 4, m, u, 2, q1, y2);
    ColumnTerm(s, tw, inverse, fs, 4, m, u, 3, q1, y3);
    SumFour(Column(s, tw, fs, m, u, Idx(q1, m, u)));
  }

  lemma FourValues(inverse: bool, x: Cx, y1: Cx, y2: Cx, y3: Cx)
    ensures var s5, a, s3, s4 := Sub(x, y2), Add(x, y2), Add(y1, y3), Sub(y1, y3);
      var up, down := MinusI(s5, s4), PlusI(s5, s4);
      && Four(x, y1, y2, y3, ONE, ONE, ONE) == Add(a, s3)
      && Four(x, y1, y2, y3, Quarter(inverse), Neg(ONE), Neg(Quarter(inverse))) == (if inverse then down else up)
      && Four(x, y1, y2, y3, Neg(ONE), ONE, Neg(ONE)) == Sub(a, s3)
      && Four(x, y1, y2, y3, Neg(Quarter(inverse)), Neg(ONE), Quarter(inverse)) == (if inverse then up else down)
  {
    hide Mul, Quarter;
    MulQuarters(inverse, x);
    MulQuarters(inverse, y1);
    MulQuarters(inverse, y2);
    MulQuarters(inverse, y3);
  }

  /** kf_bfly4 */
  method KfBfly4(fout: array<Cx>, at: nat, fs: nat, st: Cfg, m: nat)
    requires Stage(st.twiddles, st.inverse, fs, 4, m) && at + Times(4, m) <= fout.Length
    modifies fout
    ensures fout[..at] == old(fout[..at]) && fout[at + Times(4, m)..] == old(fout[at + Times(4, m)..])
    ensures Combined(old(fout[at..at + Times(4, m)]), fout[at..at + Times(4, m)], st.twiddles, fs, 4, m, m)
  {
    hide Roots, W, Mul, Add, Sub, Column, Sum, Combined, Idx, Times, Four, Quarter, Root;
    var tw := st.twiddles;
    ghost var l := Times(4, m);
    ghost var s := fout[at..at + l];
    var u, tw1, tw2, tw3 := 0, 0, 0, 0;
    StartAt(fs);
    StartAll(fs);
    CombinedStart(s, tw, fs, 4, m);
    while u < m
      invariant u <= m && tw1 == Times(1, Times(fs, u)) && tw2 == Times(2, Times(fs, u))
          && tw3 == Times(3, Times(fs, u))
      invariant fout[..at] == old(fout[..at]) && fout[at + l..] == old(fout[at + l..])
      invariant Combined(s, fout[at..at + l], tw, fs, 4, m, u)
    {
      tw1, tw2, tw3 := Bfly4Column(fout, at, fs, st, m, u, tw1, tw2, tw3, s);
      u := u + 1;
    }
  }

  // One round of the loop of kf_bfly4.
  method Bfly4Column(fout: array<Cx>, at: nat, fs: nat, st: Cfg, m: nat, u: nat, tw1: nat, tw2: nat, tw3: nat,
                     ghost s: seq<Cx>)
    returns (tw1': nat, tw2': nat, tw3': nat)
    requires Stage(st.twiddles, st.inverse, fs, 4, m) && at + Times(4, m) <= fout.Length && u < m
    requires tw1 == Times(1, Times(fs, u)) && tw2 == Times(2, Times(fs, u)) && tw3 == Times(3, Times(fs, u))
    requires Combined(s, fout[at..at + Times(4, m)], st.twiddles, fs, 4, m, u)
    modifies fout
    ensures fout[..at] == old(fout[..at]) && fout[at + Times(4, m)..] == old(fout[at + Times(4, m)..])
    ensures Combined(s, fout[at..at + Times(4, m)], st.twiddles, fs, 4, m, u + 1)
    ensures tw1' == Times(1, Times(fs, u + 1)) && tw2' == Times(2, Times(fs, u + 1))
        && tw3' == Times(3, Times(fs, u + 1))
  {
    hide Roots, W, Mul, Add, Sub, Column, Sum, Combined, Idx, Times, Four, Quarter, Root, At, Only;
    var tw := st.twiddles;
    ghost var l := Times(4, m);
    ghost var r := fout[at..at + l];
    Untouched4(s, r, tw, fs, m, u);
    TurnSmall(tw, fs, 4, m, 1, u);
    TurnSmall(tw, fs, 4, m, 2, u);
    TurnSmall(tw, fs, 4, m, 3, u);
    var f0 := GetPlace(fout, at, 4, m, 0, u);
    var f1 := GetPlace(fout, at, 4, m, 1, u);
    var f2 := GetPlace(fout, at, 4, m, 2, u);
    var f3 := GetPlace(fout, at, 4, m, 3, u);
    var s0, s1, s2 := Mul(f1, tw[tw1]), Mul(f2, tw[tw2]), Mul(f3, tw[tw3]);
    FourCombined(s, tw, st.inverse, fs, m, u, f0, s0, s1, s2);
    var s5, a := Sub(f0, s1), Add(f0, s1);
    var s3, s4 := Add(s0, s2), Sub(s0, s2);
    SetPlace(fout, at, 4, m, 2, u, Sub(a, s3));
    ghost var r1 := fout[at..at + l];
    NextTurns(fs, u);
    tw1', tw2', tw3' := tw1 + fs, tw2 + fs * 2, tw3 + fs * 3;
    SetPlace(fout, at, 4, m, 0, u, Add(a, s3));
    ghost var r2 := fout[at..at + l];
    var up, down := MinusI(s5, s4), PlusI(s5, s4);
    SetPlace(fout, at, 4, m, 1, u, if st.inverse then down else up);
    ghost var r3 := fout[at..at + l];
    SetPlace(fout, at, 4, m, 3, u, if st.inverse then up else down);
    FourSet(s, r, r1, r2, r3, fout[at..at + l], tw, fs, m, u);
  }

  // All four places of the column are set.
  lemma FourSet(s: seq<Cx>, r: seq<Cx>, r1: seq<Cx>, r2: seq<Cx>, r3: seq<Cx>, r4: seq<Cx>, tw: seq<Cx>, fs: nat,
                m: nat, u: nat)
    requires |tw| >= 1 && Combined(s, r, tw, fs, 4, m, u) && u < m
    requires Only(r, r1, 4, m, 2, u, Sum(4, Column(s, tw, fs, m, u, Idx(2, m, u))))
    requires Only(r1, r2, 4, m, 0, u, Sum(4, Column(s, tw, fs, m, u, Idx(0, m, u))))
    requires Only(r2, r3, 4, m, 1, u, Sum(4, Column(s, tw, fs, m, u, Idx(1, m, u))))
    requires Only(r3, r4, 4, m, 3, u, Sum(4, Column(s, tw, fs, m, u, Idx(3, m, u))))
    ensures Combined(s, r4, tw, fs, 4, m, u + 1)
  {
    hide Column, Sum, Combined, Idx, Times, At;
    Others(r, r1, 4, m, 2, u);
    Others(r1, r2, 4, m, 0, u);
    Others(r2, r3, 4, m, 1, u);
    Others(r3, r4, 4, m, 3, u);
    CombinedNext(s, r, r4, tw, fs, 4, m, u);
  }

  // The other columns are as they were.
  lemma Others(r: seq<Cx>, r': seq<Cx>, p: nat, m: nat, q: nat, u: nat)
    requires Only(r, r', p, m, q, u, At(r', Idx(q, m, u)))
    ensures |r'| == |r| && forall q', v :: 0 <= q' < p && 0 <= v < m && v != u ==>
        At(r', Idx(q', m, v)) == At(r, Idx(q', m, v))
  {
    hide Idx, At;
  }

  lemma Untouched4(s: seq<Cx>, r: seq<Cx>, tw: seq<Cx>, fs: nat, m: nat, u: nat)
    requires |tw| >= 1 && Combined(s, r, tw, fs, 4, m, u) && u < m
    ensures forall q :: 0 <= q < 4 ==> At(r, Idx(q, m, u)) == At(s, Idx(q, m, u))
  {
    hide Idx, At, Sum, Column;
  }

  lemma StartAll(fs: nat)
    ensures Times(1, Times(fs, 0)) == 0 && Times(2, Times(fs, 0)) == 0 && Times(3, Times(fs, 0)) == 0
  {
  }

  lemma NextTurns(fs: nat, u: nat)
    ensures Times(1, Times(fs, u + 1)) == Times(1, Times(fs, u)) + fs
    ensures Times(2, Times(fs, u + 1)) == Times(2, Times(fs, u)) + fs * 2
    ensures Times(3, Times(fs, u + 1)) == Times(3, Times(fs, u)) + fs * 3
  {
  }

  lemma FourCombined(s: seq<Cx>, tw: seq<Cx>, inverse: bool, fs: nat, m: nat, u: nat, x: Cx, y1: Cx, y2: Cx, y3: Cx)
    requires Stage(tw, inverse, fs, 4, m) && u < m
    requires Times(1, Times(fs, u)) < |tw| && Times(2, Times(fs, u)) < |tw| && Times(3, Times(fs, u)) < |tw|
    requires x == At(s, Idx(0, m, u)) && y1 == Mul(At(s, Idx(1, m, u)), tw[Times(1, Times(fs, u))])
    requires y2 == Mul(At(s, Idx(2, m, u)), tw[Times(2, Times(fs, u))])
        && y3 == Mul(At(s, Idx(3, m, u)), tw[Times(3, Times(fs, u))])
    ensures var s5, a, s3, s4 := Sub(x, y2), Add(x, y2), Add(y1, y3), Sub(y1, y3);
      var up, down := MinusI(s5, s4), PlusI(s5, s4);
      && Sum(4, Column(s, tw, fs, m, u, Idx(0, m, u))) == Add(a, s3)
      && Sum(4, Column(s, tw, fs, m, u, Idx(1, m, u))) == (if inverse then down else up)
      && Sum(4, Column(s, tw, fs, m, u, Idx(2, m, u))) == Sub(a, s3)
      && Sum(4, Column(s, tw, fs, m, u, Idx(3, m, u))) == (if inverse then up else down)
  {
    hide Roots, W, Mul, Add, Sub, Column, Sum, Idx, Times, Four, Quarter, Root, Neg, At;
    RootFour(tw, inverse, fs, m);
    FourValues(inverse, x, y1, y2, y3);
    FourColumn(s, tw, inverse, fs, m, u, 0, x, y1, y2, y3);
    FourColumn(s, tw, inverse, fs, m, u, 1, x, y1, y2, y3);
    FourColumn(s, tw, inverse, fs, m, u, 2, x, y1, y2, y3);
    FourColumn(s, tw, inverse, fs, m, u, 3, x, y1, y2, y3);
  }

  // ---------- radix 3 ----------

  lemma SumThree(f: nat -> Cx)
    ensures Sum(3, f) == Add(Add(f(0), f(1)), f(2))
  {
    SumTwo(f);
  }

  /** Three roots of unity that add up to zero: the first has real part minus one half, and the
      second is its conjugate. */
  lemma ThirdTurn(tw: seq<Cx>, inverse: bool)
    requires |tw| >= 1 && Roots(tw, inverse) && |tw| % 3 == 0
    ensures tw[|tw| / 3].re == -0.5 && W(tw, 2 * (|tw| / 3)) == Cx(-0.5, -tw[|tw| / 3].im)
  {
    var d := |tw| / 3;
    var w := tw[d];
    assert |tw| == 3 * d;
    WSmall(tw, 2 * d);
    assert Mul(tw[d], tw[d]) == tw[(d + d) % |tw|];
    ThirdRoot(w.re, w.im);
  }

  lemma ThirdRoot(a: real, b: real)
    requires 1.0 + a + (a * a - b * b) == 0.0 && b + (a * b + b * a) == 0.0
    ensures a == -0.5 && a * a - b * b == -0.5 && a * b + b * a == -b
  {
    assert b * (1.0 + 2.0 * a) == 0.0;
    assert (a + 0.5) * (a + 0.5) == a * a + a + 0.25;
    assert (a + 0.5) * (a + 0.5) >= 0.0;
  }

  lemma RootThree(tw: seq<Cx>, inverse: bool, fs: nat, m: nat)
    requires Stage(tw, inverse, fs, 3, m)
    ensures |tw| % 3 == 0 && |tw| / 3 == Times(fs, m) < |tw| && tw[|tw| / 3].re == -0.5
    ensures Root(tw, fs, m, 0) == ONE && Root(tw, fs, m, 1) == Cx(-0.5, tw[|tw| / 3].im)
    ensures Root(tw, fs, m, 2) == Cx(-0.5, -tw[|tw| / 3].im) && Root(tw, fs, m, 4) == Cx(-0.5, tw[|tw| / 3].im)
  {
    hide Roots, W, Times, Root, Mul;
    PartOfTurn(tw, inverse, fs, 3, m);
    RootOne(tw, inverse, fs, 3, m);
    ThirdTurn(tw, inverse);
    RootAdd(tw, inverse, fs, 3, m, 1, 0);
    assert Root(tw, fs, m, 1 + 3) == Root(tw, fs, m, 1);
  }

  function Scale(a: Cx, e: real): Cx
  {
    Cx(a.re * e, a.im * e)
  }

  /** a plus i times b, and a minus i times b */
  function PlusI(a: Cx, b: Cx): Cx
  {
    Cx(a.re - b.im, a.im + b.re)
  }

  function MinusI(a: Cx, b: Cx): Cx
  {
    Cx(a.re + b.im, a.im - b.re)
  }

  ghost function Three(x: Cx, y1: Cx, y2: Cx, c1: Cx, c2: Cx): Cx
  {
    Add(Add(Mul(x, ONE), Mul(y1, c1)), Mul(y2, c2))
  }

  lemma ThreeColumn(s: seq<Cx>, tw: seq<Cx>, inverse: bool, fs: nat, m: nat, u: nat, q1: nat, x: Cx, y1: Cx, y2: Cx)
    requires Stage(tw, inverse, fs, 3, m) && u < m
    requires Times(1, Times(fs, u)) < |tw| && Times(2, Times(fs, u)) < |tw|
    requires x == At(s, Idx(0, m, u)) && y1 == Mul(At(s, Idx(1, m, u)), tw[Times(1, Times(fs, u))])
    requires y2 == Mul(At(s, Idx(2, m, u)), tw[Times(2, Times(fs, u))])
    ensures Sum(3, Column(s, tw, fs, m, u, Idx(q1, m, u))) ==
        Three(x, y1, y2, Root(tw, fs, m, q1), Root(tw, fs, m, 2 * q1))
  {
    hide Roots, W, At, Times, Idx, Column, Root, Mul, Add, Sum;
    FirstTurn(tw, inverse, fs, u, x);
    RootAdd(tw, inverse, fs, 3, m, 0, 0);
    ColumnTerm(s, tw, inverse, fs, 3, m, u, 0, q1, x);
    ColumnTerm(s, tw, inverse, fs, 3, m, u, 1, q1, y1);
    ColumnTerm(s, tw, inverse, fs, 3, m, u, 2, q1, y2);
    SumThree(Column(s, tw, fs, m, u, Idx(q1, m, u)));
  }

  lemma ThreeValues(e: real, x: Cx, y1: Cx, y2: Cx)
    ensures var s3, s0 := Add(y1, y2), Sub(y1, y2);
      var f, t := Sub(x, Scale(s3, 0.5)), Scale(s0, e);
      && Three(x, y1, y2, ONE, ONE) == Add(x, s3)
      && Three(x, y1, y2, Cx(-0.5, e), Cx(-0.5, -e)) == PlusI(f, t)
      && Three(x, y1, y2, Cx(-0.5, -e), Cx(-0.5, e)) == MinusI(f, t)
  {
    assert (y1.re - y2.re) * e == y1.re * e - y2.re * e;
    assert (y1.im - y2.im) * e == y1.im * e - y2.im * e;
    assert y2.re * -e == -(y2.re * e) && y2.im * -e == -(y2.im * e);
    assert y1.re * -e == -(y1.re * e) && y1.im * -e == -(y1.im * e);
  }

  lemma ThreeCombined(s: seq<Cx>, tw: seq<Cx>, inverse: bool, fs: nat, m: nat, u: nat, x: Cx, y1: Cx, y2: Cx, e: real)
    requires Stage(tw, inverse, fs, 3, m) && u < m && Times(fs, m) < |tw| && e == tw[Times(fs, m)].im
    requires Times(1, Times(fs, u)) < |tw| && Times(2, Times(fs, u)) < |tw|
    requires x == At(s, Idx(0, m, u)) && y1 == Mul(At(s, Idx(1, m, u)), tw[Times(1, Times(fs, u))])
    requires y2 == Mul(At(s, Idx(2, m, u)), tw[Times(2, Times(fs, u))])
    ensures var s3, s0 := Add(y1, y2), Sub(y1, y2);
      var f, t := Sub(x, Scale(s3, 0.5)), Scale(s0, e);
      && Sum(3, Column(s, tw, fs, m, u, Idx(0, m, u))) == Add(x, s3)
      && Sum(3, Column(s, tw, fs, m, u, Idx(1, m, u))) == PlusI(f, t)
      && Sum(3, Column(s, tw, fs, m, u, Idx(2, m, u))) == MinusI(f, t)
  {
    hide Roots, W, Mul, Add, Sub, Column, Sum, Idx, Times, Three, Root, At, Scale, PlusI, MinusI;
    RootThree(tw, inverse, fs, m);
    ThreeValues(e, x, y1, y2);
    ThreeColumn(s, tw, inverse, fs, m, u, 0, x, y1, y2);
    ThreeColumn(s, tw, inverse, fs, m, u, 1, x, y1, y2);
    ThreeColumn(s, tw, inverse, fs, m, u, 2, x, y1, y2);
  }

  /** kf_bfly3 */
  method KfBfly3(fout: array<Cx>, at: nat, fs: nat, st: Cfg, m: nat)
    requires Stage(st.twiddles, st.inverse, fs, 3, m) && at + Times(3, m) <= fout.Length
    modifies fout
    ensures fout[..at] == old(fout[..at]) && fout[at + Times(3, m)..] == old(fout[at + Times(3, m)..])
    ensures Combined(old(fout[at..at + Times(3, m)]), fout[at..at + Times(3, m)], st.twiddles, fs, 3, m, m)
  {
    hide Roots, W, Mul, Add, Sub, Column, Sum, Combined, Idx, Times, Root;
    var tw := st.twiddles;
    ghost var l := Times(3, m);
    ghost var s := fout[at..at + l];
    RootThree(tw, st.inverse, fs, m);
    var epi3 := tw[Times(fs, m)];
    var u, tw1, tw2 := 0, 0, 0;
    StartAll(fs);
    CombinedStart(s, tw, fs, 3, m);
    while u < m
      invariant u <= m && tw1 == Times(1, Times(fs, u)) && tw2 == Times(2, Times(fs, u))
      invariant fout[..at] == old(fout[..at]) && fout[at + l..] == old(fout[at + l..])
      invariant Combined(s, fout[at..at + l], tw, fs, 3, m, u)
    {
      Bfly3Column(fout, at, fs, st, m, u, tw1, tw2, epi3, s);
      NextTurns(fs, u);
      tw1, tw2 := tw1 + fs, tw2 + fs * 2;
      u := u + 1;
    }
  }

  // One round of the loop of kf_bfly3.
  method Bfly3Column(fout: array<Cx>, at: nat, fs: nat, st: Cfg, m: nat, u: nat, tw1: nat, tw2: nat, epi3: Cx,
                     ghost s: seq<Cx>)
    requires Stage(st.twiddles, st.inverse, fs, 3, m) && at + Times(3, m) <= fout.Length && u < m
    requires tw1 == Times(1, Times(fs, u)) && tw2 == Times(2, Times(fs, u))
    requires Times(fs, m) < |st.twiddles| && epi3 == st.twiddles[Times(fs, m)]
    requires Combined(s, fout[at..at + Times(3, m)], st.twiddles, fs, 3, m, u)
    modifies fout
    ensures fout[..at] == old(fout[..at]) && fout[at + Times(3, m)..] == old(fout[at + Times(3, m)..])
    ensures Combined(s, fout[at..at + Times(3, m)], st.twiddles, fs, 3, m, u + 1)
  {
    hide Roots, W, Mul, Add, Sub, Column, Sum, Combined, Idx, Times, Root, At, Only, Scale, PlusI, MinusI;
    var tw := st.twiddles;
    ghost var l := Times(3, m);
    ghost var r := fout[at..at + l];
    Untouched(s, r, tw, fs, 3, m, u, 0);
    Untouched(s, r, tw, fs, 3, m, u, 1);
    Untouched(s, r, tw, fs, 3, m, u, 2);
    TurnSmall(tw, fs, 3, m, 1, u);
    TurnSmall(tw, fs, 3, m, 2, u);
    var f0 := GetPlace(fout, at, 3, m, 0, u);
    var f1 := GetPlace(fout, at, 3, m, 1, u);
    var f2 := GetPlace(fout, at, 3, m, 2, u);
    var s1, s2 := Mul(f1, tw[tw1]), Mul(f2, tw[tw2]);
    ThreeCombined(s, tw, st.inverse, fs, m, u, f0, s1, s2, epi3.im);
    var s3, s0 := Add(s1, s2), Sub(s1, s2);
    var f := Sub(f0, Scale(s3, 0.5));
    s0 := Scale(s0, epi3.im);
    SetPlace(fout, at, 3, m, 0, u, Add(f0, s3));
    ghost var r1 := fout[at..at + l];
    SetPlace(fout, at, 3, m, 2, u, MinusI(f, s0));
    ghost var r2 := fout[at..at + l];
    SetPlace(fout, at, 3, m, 1, u, PlusI(f, s0));
    ThreeSet(s, r, r1, r2, fout[at..at + l], tw, fs, m, u);
  }

  // All three places of the column are set.
  lemma ThreeSet(s: seq<Cx>, r: seq<Cx>, r1: seq<Cx>, r2: seq<Cx>, r3: seq<Cx>, tw: seq<Cx>, fs: nat, m: nat, u: nat)
    requires |tw| >= 1 && Combined(s, r, tw, fs, 3, m, u) && u < m
    requires Only(r, r1, 3, m, 0, u, Sum(3, Column(s, tw, fs, m, u, Idx(0, m, u))))
    requires Only(r1, r2, 3, m, 2, u, Sum(3, Column(s, tw, fs, m, u, Idx(2, m, u))))
    requires Only(r2, r3, 3, m, 1, u, Sum(3, Column(s, tw, fs, m, u, Idx(1, m, u))))
    ensures Combined(s, r3, tw, fs, 3, m, u + 1)
  {
    hide Column, Sum, Combined, Idx, Times, At;
    Others(r, r1, 3, m, 0, u);
    Others(r1, r2, 3, m, 2, u);
    Others(r2, r3, 3, m, 1, u);
    CombinedNext(s, r, r3, tw, fs, 3, m, u);
  }

  // ---------- radix 5 ----------

  lemma SumFive(f: nat -> Cx)
    ensures Sum(5, f) == Add(Add(Add(Add(f(0), f(1)), f(2)), f(3)), f(4))
  {
    hide Add;
    SumFour(f);
    SumMore(4, f);
  }

  lemma FifthTurn(tw: seq<Cx>, inverse: bool, d: nat)
    requires |tw| >= 1 && Roots(tw, inverse) && |tw| % 5 == 0 && d == |tw| / 5
    ensures W(tw, d).im != 0.0 && W(tw, 2 * d).im != 0.0
    ensures W(tw, 3 * d) == Conj(W(tw, 2 * d)) && W(tw, 4 * d) == Conj(W(tw, d))
  {
    WSmall(tw, d);
    WSmall(tw, 2 * d);
    WSmall(tw, 3 * d);
    WSmall(tw, 4 * d);
  }

  /** The fifth roots of a stage, in terms of the first and its square. */
  lemma RootFive(tw: seq<Cx>, inverse: bool, fs: nat, m: nat)
    requires Stage(tw, inverse, fs, 5, m)
    ensures Root(tw, fs, m, 0) == ONE && Root(tw, fs, m, 1).im != 0.0 && Root(tw, fs, m, 2).im != 0.0
    ensures Root(tw, fs, m, 3) == Conj(Root(tw, fs, m, 2)) && Root(tw, fs, m, 4) == Conj(Root(tw, fs, m, 1))
    ensures forall j: nat {:trigger Root(tw, fs, m, j)} :: j <= 11 ==> Root(tw, fs, m, j + 5) == Root(tw, fs, m, j)
  {
    hide Roots, W, Mul, Conj, Root;
    PartOfTurn(tw, inverse, fs, 5, m);
    FifthTurn(tw, inverse, Times(fs, m));
    RootsByTurn(tw, fs, m);
    RootAdd(tw, inverse, fs, 5, m, 0, 0);
    forall j: nat | j <= 11
      ensures Root(tw, fs, m, j + 5) == Root(tw, fs, m, j)
    {
      RootAdd(tw, inverse, fs, 5, m, j, 0);
    }
  }

  lemma RootsByTurn(tw: seq<Cx>, fs: nat, m: nat)
    requires |tw| >= 1
    ensures Root(tw, fs, m, 1) == W(tw, Times(fs, m)) && Root(tw, fs, m, 2) == W(tw, 2 * Times(fs, m))
    ensures Root(tw, fs, m, 3) == W(tw, 3 * Times(fs, m)) && Root(tw, fs, m, 4) == W(tw, 4 * Times(fs, m))
  {
    hide W;
  }

  /** The value of part q in column u, turned. */
  ghost function Y(s: seq<Cx>, tw: seq<Cx>, fs: nat, m: nat, u: nat, q: nat): Cx
    requires |tw| >= 1
  {
    Mul(At(s, Idx(q, m, u)), W(tw, Times(q, Times(fs, u))))
  }

  lemma FiveColumn(s: seq<Cx>, tw: seq<Cx>, inverse: bool, fs: nat, m: nat, u: nat, q1: nat)
    requires Stage(tw, inverse, fs, 5, m) && u < m
    ensures Sum(5, Column(s, tw, fs, m, u, Idx(q1, m, u))) ==
            Sum5(At(s, Idx(0, m, u)), Y(s, tw, fs, m, u, 1), Y(s, tw, fs, m, u, 2), Y(s, tw, fs, m, u, 3),
                Y(s, tw, fs, m, u, 4),
                 Root(tw, fs, m, q1), Root(tw, fs, m, 2 * q1), Root(tw, fs, m, 3 * q1), Root(tw, fs, m, 4 * q1))
  {
    hide Roots, W, At, Times, Idx, Column, Root, Mul, Add, Sum;
    var x := At(s, Idx(0, m, u));
    TurnSmall(tw, fs, 5, m, 0, u);
    TurnSmall(tw, fs, 5, m, 1, u);
    TurnSmall(tw, fs, 5, m, 2, u);
    TurnSmall(tw, fs, 5, m, 3, u);
    TurnSmall(tw, fs, 5, m, 4, u);
    FirstTurn(tw, inverse, fs, u, x);
    RootAdd(tw, inverse, fs, 5, m, 0, 0);
    ColumnTerm(s, tw, inverse, fs, 5, m, u, 0, q1, x);
    MulUnit(x);
    ColumnTerm(s, tw, inverse, fs, 5, m, u, 1, q1, Y(s, tw, fs, m, u, 1));
    ColumnTerm(s, tw, inverse, fs, 5, m, u, 2, q1, Y(s, tw, fs, m, u, 2));
    ColumnTerm(s, tw, inverse, fs, 5, m, u, 3, q1, Y(s, tw, fs, m, u, 3));
    ColumnTerm(s, tw, inverse, fs, 5, m, u, 4, q1, Y(s, tw, fs, m, u, 4));
    SumFive(Column(s, tw, fs, m, u, Idx(q1, m, u)));
  }

  function Pick(f: Five, q: nat): Cx
  {
    if q == 0 then f.f0 else if q == 1 then f.f1 else if q == 2 then f.f2 else if q == 3 then f.f3 else f.f4
  }

  /** What kf_bfly5 makes of column u. */
  ghost function Code5(s: seq<Cx>, tw: seq<Cx>, fs: nat, m: nat, u: nat): Five
    requires |tw| >= 1
  {
    Bfly5(At(s, Idx(0, m, u)), Y(s, tw, fs, m, u, 1), Y(s, tw, fs, m, u, 2), Y(s, tw, fs, m, u, 3),
        Y(s, tw, fs, m, u, 4),
          Root(tw, fs, m, 1), Root(tw, fs, m, 2))
  }

  ghost function Want5(s: seq<Cx>, tw: seq<Cx>, fs: nat, m: nat, u: nat): Five
    requires |tw| >= 1
  {
    Wanted(At(s, Idx(0, m, u)), Y(s, tw, fs, m, u, 1), Y(s, tw, fs, m, u, 2), Y(s, tw, fs, m, u, 3),
        Y(s, tw, fs, m, u, 4),
           Root(tw, fs, m, 1), Root(tw, fs, m, 2))
  }

  /** A combined column of five parts. */
  lemma FiveWanted(s: seq<Cx>, tw: seq<Cx>, inverse: bool, fs: nat, m: nat, u: nat)
    requires Stage(tw, inverse, fs, 5, m) && u < m
    ensures forall q :: 0 <= q < 5 ==> Sum(5, Column(s, tw, fs, m, u, Idx(q, m, u))) == Pick(Want5(s, tw, fs, m, u), q)
  {
    hide Roots, At, Times, Idx, Column, Root, Mul, Add, Sum, Sum5, Y, Conj;
    RootFive(tw, inverse, fs, m);
    FiveColumn(s, tw, inverse, fs, m, u, 0);
    FiveColumn(s, tw, inverse, fs, m, u, 1);
    FiveColumn(s, tw, inverse, fs, m, u, 2);
    FiveColumn(s, tw, inverse, fs, m, u, 3);
    FiveColumn(s, tw, inverse, fs, m, u, 4);
    assert Root(tw, fs, m, 6) == Root(tw, fs, m, 1 + 5) && Root(tw, fs, m, 8) == Root(tw, fs, m, 3 + 5);
    assert Root(tw, fs, m, 9) == Root(tw, fs, m, 4 + 5) && Root(tw, fs, m, 12) == Root(tw, fs, m, 7 + 5);
    assert Root(tw, fs, m, 7) == Root(tw, fs, m, 2 + 5);
    assert Root(tw, fs, m, 16) == Root(tw, fs, m, 11 + 5) && Root(tw, fs, m, 11) == Root(tw, fs, m, 6 + 5);
  }

  /** The columns of r before u are what the code makes of those of s, the others are those of s. */
  ghost predicate Coded(s: seq<Cx>, r: seq<Cx>, tw: seq<Cx>, fs: nat, m: nat, u: nat)
    requires |tw| >= 1
  {
    && |r| == |s| == Times(5, m)
    && forall q, v :: 0 <= q < 5 && 0 <= v < m ==>
         At(r, Idx(q, m, v)) == if v < u then Pick(Code5(s, tw, fs, m, v), q) else At(s, Idx(q, m, v))
  }

  /** The column comes out right: its second and third turned values are the same, and the first and
      fourth have the same imaginary part. */
  ghost predicate Fits5(s: seq<Cx>, tw: seq<Cx>, fs: nat, m: nat, u: nat)
    requires |tw| >= 1
  {
    Y(s, tw, fs, m, u, 2) == Y(s, tw, fs, m, u, 3) && Y(s, tw, fs, m, u, 1).im == Y(s, tw, fs, m, u, 4).im
  }

  lemma FitsExact(s: seq<Cx>, tw: seq<Cx>, inverse: bool, fs: nat, m: nat, u: nat)
    requires Stage(tw, inverse, fs, 5, m)
    ensures Code5(s, tw, fs, m, u) == Want5(s, tw, fs, m, u) <==> Fits5(s, tw, fs, m, u)
  {
    hide Roots, At, Times, Idx, Root, Mul, Y, Bfly5, Wanted;
    RootFive(tw, inverse, fs, m);
    Bfly5Exact(At(s, Idx(0, m, u)), Y(s, tw, fs, m, u, 1), Y(s, tw, fs, m, u, 2), Y(s, tw, fs, m, u, 3),
        Y(s, tw, fs, m, u, 4),
               Root(tw, fs, m, 1), Root(tw, fs, m, 2));
  }

  lemma SamePicks(f: Five, g: Five)
    ensures f == g <==> forall q :: 0 <= q < 5 ==> Pick(f, q) == Pick(g, q)
  {
    assert Pick(f, 0) == f.f0 && Pick(f, 1) == f.f1 && Pick(f, 2) == f.f2 && Pick(f, 3) == f.f3 && Pick(f, 4) == f.f4;
    assert Pick(g, 0) == g.f0 && Pick(g, 1) == g.f1 && Pick(g, 2) == g.f2 && Pick(g, 3) == g.f3 && Pick(g, 4) == g.f4;
  }

  /** Column u of r is column u of s, combined. */
  ghost predicate ColumnRight(s: seq<Cx>, r: seq<Cx>, tw: seq<Cx>, fs: nat, p: nat, m: nat, u: nat)
    requires |tw| >= 1
  {
    forall q :: 0 <= q < p ==> At(r, Idx(q, m, u)) == Sum(p, Column(s, tw, fs, m, u, Idx(q, m, u)))
  }

  lemma CombinedColumns(s: seq<Cx>, r: seq<Cx>, tw: seq<Cx>, fs: nat, p: nat, m: nat)
    requires |tw| >= 1 && |r| == |s| == Times(p, m)
    ensures Combined(s, r, tw, fs, p, m, m) <==> forall u :: 0 <= u < m ==> ColumnRight(s, r, tw, fs, p, m, u)
  {
    hide At, Idx, Sum, Column;
    if forall u :: 0 <= u < m ==> ColumnRight(s, r, tw, fs, p, m, u) {
      forall q: nat, v: nat | q < p && v < m
        ensures At(r, Idx(q, m, v)) == Sum(p, Column(s, tw, fs, m, v, Idx(q, m, v)))
      {
        assert ColumnRight(s, r, tw, fs, p, m, v);
      }
    }
  }

  lemma FiveColumnRight(s: seq<Cx>, r: seq<Cx>, tw: seq<Cx>, inverse: bool, fs: nat, m: nat, u: nat)
    requires Stage(tw, inverse, fs, 5, m) && Coded(s, r, tw, fs, m, m) && u < m
    ensures ColumnRight(s, r, tw, fs, 5, m, u) <==> Fits5(s, tw, fs, m, u)
  {
    hide Roots, At, Times, Idx, Column, Sum, Code5, Want5, Fits5, Pick;
    FitsExact(s, tw, inverse, fs, m, u);
    FiveWanted(s, tw, inverse, fs, m, u);
    SamePicks(Code5(s, tw, fs, m, u), Want5(s, tw, fs, m, u));
  }

  /** The radix-5 stage combines its parts exactly when every column fits. */
  lemma FiveRight(s: seq<Cx>, r: seq<Cx>, tw: seq<Cx>, inverse: bool, fs: nat, m: nat)
    requires Stage(tw, inverse, fs, 5, m) && Coded(s, r, tw, fs, m, m)
    ensures Combined(s, r, tw, fs, 5, m, m) <==> forall u :: 0 <= u < m ==> Fits5(s, tw, fs, m, u)
  {
    hide Roots, Times, Fits5, ColumnRight, Combined;
    CodedSize(s, r, tw, fs, m);
    CombinedColumns(s, r, tw, fs, 5, m);
    forall u | 0 <= u < m
      ensures ColumnRight(s, r, tw, fs, 5, m, u) <==> Fits5(s, tw, fs, m, u)
    {
      FiveColumnRight(s, r, tw, inverse, fs, m, u);
    }
  }

  lemma CodedSize(s: seq<Cx>, r: seq<Cx>, tw: seq<Cx>, fs: nat, m: nat)
    requires |tw| >= 1 && Coded(s, r, tw, fs, m, m)
    ensures |r| == |s| == Times(5, m)
  {
  }

  lemma CodedStart(s: seq<Cx>, tw: seq<Cx>, fs: nat, m: nat)
    requires |tw| >= 1 && |s| == Times(5, m)
    ensures Coded(s, s, tw, fs, m, 0)
  {
  }

  lemma FiveSet(s: seq<Cx>, r: seq<Cx>, r1: seq<Cx>, r2: seq<Cx>, r3: seq<Cx>, r4: seq<Cx>, r5: seq<Cx>, tw: seq<Cx>,
                fs: nat, m: nat, u: nat)
    requires |tw| >= 1 && Coded(s, r, tw, fs, m, u) && u < m
    requires Only(r, r1, 5, m, 0, u, Pick(Code5(s, tw, fs, m, u), 0))
    requires Only(r1, r2, 5, m, 1, u, Pick(Code5(s, tw, fs, m, u), 1))
    requires Only(r2, r3, 5, m, 4, u, Pick(Code5(s, tw, fs, m, u), 4))
    requires Only(r3, r4, 5, m, 2, u, Pick(Code5(s, tw, fs, m, u), 2))
    requires Only(r4, r5, 5, m, 3, u, Pick(Code5(s, tw, fs, m, u), 3))
    ensures Coded(s, r5, tw, fs, m, u + 1)
  {
    hide Code5, Pick, Coded, Idx, Times, At;
    Others(r, r1, 5, m, 0, u);
    Others(r1, r2, 5, m, 1, u);
    Others(r2, r3, 5, m, 4, u);
    Others(r3, r4, 5, m, 2, u);
    Others(r4, r5, 5, m, 3, u);
    CodedNext(s, r, r5, tw, fs, m, u);
  }

  lemma CodedNext(s: seq<Cx>, r: seq<Cx>, r': seq<Cx>, tw: seq<Cx>, fs: nat, m: nat, u: nat)
    requires |tw| >= 1 && Coded(s, r, tw, fs, m, u) && u < m && |r'| == |r|
    requires forall q, v :: 0 <= q < 5 && 0 <= v < m && v != u ==> At(r', Idx(q, m, v)) == At(r, Idx(q, m, v))
    requires forall q :: 0 <= q < 5 ==> At(r', Idx(q, m, u)) == Pick(Code5(s, tw, fs, m, u), q)
    ensures Coded(s, r', tw, fs, m, u + 1)
  {
    hide Idx, At, Code5, Pick;
  }

  /** kf_bfly5 */
  method KfBfly5(fout: array<Cx>, at: nat, fs: nat, st: Cfg, m: nat)
    requires Stage(st.twiddles, st.inverse, fs, 5, m) && at + Times(5, m) <= fout.Length
    modifies fout
    ensures fout[..at] == old(fout[..at]) && fout[at + Times(5, m)..] == old(fout[at + Times(5, m)..])
    ensures Coded(old(fout[at..at + Times(5, m)]), fout[at..at + Times(5, m)], st.twiddles, fs, m, m)
  {
    hide Roots, W, Coded, Idx, Times, Root;
    var tw := st.twiddles;
    ghost var l := Times(5, m);
    ghost var s := fout[at..at + l];
    FifthIndexes(tw, fs, m);
    var ya, yb := tw[Times(fs, m)], tw[Times(2, Times(fs, m))];
    CodedStart(s, tw, fs, m);
    for u := 0 to m
      invariant fout[..at] == old(fout[..at]) && fout[at + l..] == old(fout[at + l..])
      invariant Coded(s, fout[at..at + l], tw, fs, m, u)
    {
      Bfly5Column(fout, at, fs, st, m, u, ya, yb, s);
    }
  }

  lemma FifthIndexes(tw: seq<Cx>, fs: nat, m: nat)
    requires Times(fs, Times(5, m)) == |tw| >= 1 && m >= 1
    ensures Times(fs, m) < |tw| && tw[Times(fs, m)] == Root(tw, fs, m, 1)
    ensures Times(2, Times(fs, m)) < |tw| && tw[Times(2, Times(fs, m))] == Root(tw, fs, m, 2)
  {
    var d := Times(fs, m);
    TimesSwap(fs, 5, m);
    assert Times(5, d) == 5 * d && Times(2, d) == 2 * d && Times(1, d) == d;
    WSmall(tw, d);
    WSmall(tw, 2 * d);
  }

  // One round of the loop of kf_bfly5.
  method Bfly5Column(fout: array<Cx>, at: nat, fs: nat, st: Cfg, m: nat, u: nat, ya: Cx, yb: Cx, ghost s: seq<Cx>)
    requires Stage(st.twiddles, st.inverse, fs, 5, m) && at + Times(5, m) <= fout.Length && u < m
    requires ya == Root(st.twiddles, fs, m, 1) && yb == Root(st.twiddles, fs, m, 2)
    requires Coded(s, fout[at..at + Times(5, m)], st.twiddles, fs, m, u)
    modifies fout
    ensures fout[..at] == old(fout[..at]) && fout[at + Times(5, m)..] == old(fout[at + Times(5, m)..])
    ensures Coded(s, fout[at..at + Times(5, m)], st.twiddles, fs, m, u + 1)
  {
    hide Roots, W, Mul, Coded, Idx, Times, Root, At, Only, Bfly5;
    var tw := st.twiddles;
    ghost var l := Times(5, m);
    ghost var r := fout[at..at + l];
    var x, y1, y2, y3, y4 := TurnedColumn(fout, at, fs, tw, m, u, s);
    var f := Bfly5(x, y1, y2, y3, y4, ya, yb);
    assert f == Code5(s, tw, fs, m, u);
    SetPlace(fout, at, 5, m, 0, u, f.f0);
    ghost var r1 := fout[at..at + l];
    SetPlace(fout, at, 5, m, 1, u, f.f1);
    ghost var r2 := fout[at..at + l];
    SetPlace(fout, at, 5, m, 4, u, f.f4);
    ghost var r3 := fout[at..at + l];
    SetPlace(fout, at, 5, m, 2, u, f.f2);
    ghost var r4 := fout[at..at + l];
    SetPlace(fout, at, 5, m, 3, u, f.f3);
    FiveSet(s, r, r1, r2, r3, r4, fout[at..at + l], tw, fs, m, u);
  }

  // Column u, turned.
  method TurnedColumn(fout: array<Cx>, at: nat, fs: nat, tw: seq<Cx>, m: nat, u: nat, ghost s: seq<Cx>)
    returns (x: Cx, y1: Cx, y2: Cx, y3: Cx, y4: Cx)
    requires Times(fs, Times(5, m)) == |tw| >= 1 && at + Times(5, m) <= fout.Length && u < m
    requires Coded(s, fout[at..at + Times(5, m)], tw, fs, m, u)
    ensures x == At(s, Idx(0, m, u)) && y1 == Y(s, tw, fs, m, u, 1) && y2 == Y(s, tw, fs, m, u, 2)
    ensures y3 == Y(s, tw, fs, m, u, 3) && y4 == Y(s, tw, fs, m, u, 4)
  {
    hide W, Mul, Coded, Idx, Times, At;
    NotCoded(s, fout[at..at + Times(5, m)], tw, fs, m, u);
    TurnSmall(tw, fs, 5, m, 1, u);
    TurnSmall(tw, fs, 5, m, 2, u);
    TurnSmall(tw, fs, 5, m, 3, u);
    TurnSmall(tw, fs, 5, m, 4, u);
    x := GetPlace(fout, at, 5, m, 0, u);
    y1 := GetPlace(fout, at, 5, m, 1, u);
    y1 := Mul(y1, tw[Times(1, Times(fs, u))]);
    y2 := GetPlace(fout, at, 5, m, 2, u);
    y2 := Mul(y2, tw[Times(2, Times(fs, u))]);
    y3 := GetPlace(fout, at, 5, m, 3, u);
    y3 := Mul(y3, tw[Times(3, Times(fs, u))]);
    y4 := GetPlace(fout, at, 5, m, 4, u);
    y4 := Mul(y4, tw[Times(4, Times(fs, u))]);
  }

  lemma NotCoded(s: seq<Cx>, r: seq<Cx>, tw: seq<Cx>, fs: nat, m: nat, u: nat)
    requires |tw| >= 1 && Coded(s, r, tw, fs, m, u) && u < m
    ensures forall q :: 0 <= q < 5 ==> At(r, Idx(q, m, u)) == At(s, Idx(q, m, u))
  {
    hide Idx, At, Code5, Pick;
  }

  // ---------- any radix ----------

  /** Column u is combined up to part q1; the columns before it are done. */
  ghost predicate PartlyCombined(s: seq<Cx>, r: seq<Cx>, tw: seq<Cx>, fs: nat, p: nat, m: nat, u: nat, q1: nat,
                                 r0: seq<Cx>)
    requires |tw| >= 1
  {
    && |r| == |r0|
    && (forall q, v :: 0 <= q < p && 0 <= v < m && v != u ==> At(r, Idx(q, m, v)) == At(r0, Idx(q, m, v)))
    && (forall q :: 0 <= q < q1 ==> At(r, Idx(q, m, u)) == Sum(p, Column(s, tw, fs, m, u, Idx(q, m, u))))
  }

  lemma PartlyNext(s: seq<Cx>, r: seq<Cx>, r': seq<Cx>, tw: seq<Cx>, fs: nat, p: nat, m: nat, u: nat, q1: nat,
                   r0: seq<Cx>)
    requires |tw| >= 1 && PartlyCombined(s, r, tw, fs, p, m, u, q1, r0) && q1 < p && u < m
    requires Only(r, r', p, m, q1, u, Sum(p, Column(s, tw, fs, m, u, Idx(q1, m, u))))
    ensures PartlyCombined(s, r', tw, fs, p, m, u, q1 + 1, r0)
  {
    hide Column, Sum, Idx, Times, At;
    forall q | 0 <= q < q1
      ensures At(r', Idx(q, m, u)) == At(r, Idx(q, m, u))
    {
    }
  }

  // Setting a place twice.
  lemma OnlyAgain(r: seq<Cx>, r1: seq<Cx>, r2: seq<Cx>, p: nat, m: nat, q: nat, u: nat, x: Cx, y: Cx)
    requires Only(r, r1, p, m, q, u, x) && Only(r1, r2, p, m, q, u, y)
    ensures Only(r, r2, p, m, q, u, y)
  {
    hide Idx, At;
  }

  // The table index advances by e, and is reduced once when it passes the end.
  lemma TwidxStep(tw: seq<Cx>, q: nat, e: nat, t: nat)
    requires e < |tw| && t == Times(q, e) % |tw|
    ensures (if t + e >= |tw| then t + e - |tw| else t + e) == Times(q + 1, e) % |tw|
  {
    var n := |tw|;
    TimesAdd(q, 1, e);
    ModAdd(Times(q, e), e, n);
    SmallMod(e, n);
    SmallMod(t, n);
    if t + e >= n {
      ModOne(t + e - n, n);
      SmallMod(t + e - n, n);
    } else {
      SmallMod(t + e, n);
    }
  }

  lemma SmallMod(e: nat, n: nat)
    requires e < n
    ensures e % n == e
  {
  }

  /** kf_bfly_generic */
  method KfBflyGeneric(fout: array<Cx>, at: nat, fs: nat, st: Cfg, m: nat, p: nat)
    requires Stage(st.twiddles, st.inverse, fs, p, m) && at + Times(p, m) <= fout.Length
    modifies fout
    ensures fout[..at] == old(fout[..at]) && fout[at + Times(p, m)..] == old(fout[at + Times(p, m)..])
    ensures Combined(old(fout[at..at + Times(p, m)]), fout[at..at + Times(p, m)], st.twiddles, fs, p, m, m)
  {
    hide Roots, W, Mul, Add, Column, Sum, Combined, Idx, Times, At, Only, PartlyCombined;
    var tw := st.twiddles;
    ghost var l := Times(p, m);
    ghost var s := fout[at..at + l];
    CombinedStart(s, tw, fs, p, m);
    for u := 0 to m
      invariant fout[..at] == old(fout[..at]) && fout[at + l..] == old(fout[at + l..])
      invariant Combined(s, fout[at..at + l], tw, fs, p, m, u)
    {
      ghost var r0 := fout[at..at + l];
      var scratch := GatherColumn(fout, at, p, m, u, s, tw, fs);
      PartlyStart(s, r0, tw, fs, p, m, u);
      for q1 := 0 to p
        invariant fout[..at] == old(fout[..at]) && fout[at + l..] == old(fout[at + l..])
        invariant PartlyCombined(s, fout[at..at + l], tw, fs, p, m, u, q1, r0)
      {
        ghost var r := fout[at..at + l];
        CombineAt(fout, at, fs, st, m, p, u, q1, scratch, s);
        PartlyNext(s, r, fout[at..at + l], tw, fs, p, m, u, q1, r0);
      }
      PartlyDone(s, r0, fout[at..at + l], tw, fs, p, m, u);
    }
  }

  lemma PartlyStart(s: seq<Cx>, r: seq<Cx>, tw: seq<Cx>, fs: nat, p: nat, m: nat, u: nat)
    requires |tw| >= 1
    ensures PartlyCombined(s, r, tw, fs, p, m, u, 0, r)
  {
  }

  lemma PartlyDone(s: seq<Cx>, r0: seq<Cx>, r: seq<Cx>, tw: seq<Cx>, fs: nat, p: nat, m: nat, u: nat)
    requires |tw| >= 1 && Combined(s, r0, tw, fs, p, m, u) && u < m && PartlyCombined(s, r, tw, fs, p, m, u, p, r0)
    ensures Combined(s, r, tw, fs, p, m, u + 1)
  {
    hide Idx, At, Column, Sum, Combined;
    CombinedNext(s, r0, r, tw, fs, p, m, u);
  }

  // Copy one column.
  method GatherColumn(fout: array<Cx>, at: nat, p: nat, m: nat, u: nat, ghost s: seq<Cx>, ghost tw: seq<Cx>,
                      ghost fs: nat)
    returns (scratch: seq<Cx>)
    requires |tw| >= 1 && u < m && at + Times(p, m) <= fout.Length
        && Combined(s, fout[at..at + Times(p, m)], tw, fs, p, m, u)
    ensures |scratch| == p && forall q :: 0 <= q < p ==> scratch[q] == At(s, Idx(q, m, u))
  {
    hide Idx, Times, At, Combined;
    scratch := [];
    for q1 := 0 to p
      invariant |scratch| == q1 && forall q :: 0 <= q < q1 ==> scratch[q] == At(s, Idx(q, m, u))
    {
      Untouched(s, fout[at..at + Times(p, m)], tw, fs, p, m, u, q1);
      var x := GetPlace(fout, at, p, m, q1, u);
      scratch := scratch + [x];
    }
  }

  // Combine the copied column into one place.
  method CombineAt(fout: array<Cx>, at: nat, fs: nat, st: Cfg, m: nat, p: nat, u: nat, q1: nat, scratch: seq<Cx>,
                   ghost s: seq<Cx>)
    requires Stage(st.twiddles, st.inverse, fs, p, m) && at + Times(p, m) <= fout.Length && u < m && q1 < p
    requires |scratch| == p && forall q :: 0 <= q < p ==> scratch[q] == At(s, Idx(q, m, u))
    modifies fout
    ensures fout[..at] == old(fout[..at]) && fout[at + Times(p, m)..] == old(fout[at + Times(p, m)..])
    ensures Only(old(fout[at..at + Times(p, m)]), fout[at..at + Times(p, m)], p, m, q1, u,
                 Sum(p, Column(s, st.twiddles, fs, m, u, Idx(q1, m, u))))
  {
    hide Roots, W, Mul, Add, Column, Sum, Idx, Times, At, Only;
    var tw := st.twiddles;
    ghost var l := Times(p, m);
    ghost var r, col := fout[at..at + l], Column(s, tw, fs, m, u, Idx(q1, m, u));
    var k := Idx(q1, m, u);
    var twidx := 0;
    SetPlace(fout, at, p, m, q1, u, scratch[0]);
    ColumnStart(s, tw, st.inverse, fs, m, u, k);
    StepBelow(tw, fs, p, m, q1, u);
    for q := 1 to p
      invariant twidx == Times(q - 1, Times(fs, k)) % |tw|
      invariant fout[..at] == old(fout[..at]) && fout[at + l..] == old(fout[at + l..])
      invariant Only(r, fout[at..at + l], p, m, q1, u, Sum(q, col))
    {
      ghost var r1 := fout[at..at + l];
      TwidxStep(tw, q - 1, Times(fs, k), twidx);
      twidx := twidx + Times(fs, k);
      if twidx >= |tw| {
        twidx := twidx - |tw|;
      }
      var t := Mul(scratch[q], tw[twidx]);
      var x := GetPlace(fout, at, p, m, q1, u);
      TermAt(s, tw, fs, m, u, k, q);
      SumMore(q, col);
      OnlyHolds(r, r1, p, m, q1, u, Sum(q, col));
      SetPlace(fout, at, p, m, q1, u, Add(x, t));
      OnlyAgain(r, r1, fout[at..at + l], p, m, q1, u, Sum(q, col), Add(x, t));
    }
  }

  lemma OnlyHolds(r: seq<Cx>, r1: seq<Cx>, p: nat, m: nat, q: nat, u: nat, x: Cx)
    requires Only(r, r1, p, m, q, u, x)
    ensures At(r1, Idx(q, m, u)) == x
  {
  }

  lemma SumMore(n: nat, f: nat -> Cx)
    ensures Sum(n + 1, f) == Add(Sum(n, f), f(n))
  {
  }

  lemma TermAt(s: seq<Cx>, tw: seq<Cx>, fs: nat, m: nat, u: nat, k: nat, q: nat)
    requires |tw| >= 1
    ensures Column(s, tw, fs, m, u, k)(q) == Mul(At(s, Idx(q, m, u)), tw[Times(q, Times(fs, k)) % |tw|])
  {
  }

  lemma ColumnStart(s: seq<Cx>, tw: seq<Cx>, inverse: bool, fs: nat, m: nat, u: nat, k: nat)
    requires |tw| >= 1 && Roots(tw, inverse)
    ensures Sum(1, Column(s, tw, fs, m, u, k)) == At(s, Idx(0, m, u)) && Times(0, Times(fs, k)) % |tw| == 0
  {
    hide Mul, Idx;
    var x := At(s, Idx(0, m, u));
    WhenZero(tw, inverse, Times(fs, k));
    MulUnit(x);
    AddLaws(ZERO, x, ZERO);
    SumMore(0, Column(s, tw, fs, m, u, k));
    SmallMod(0, |tw|);
  }

  lemma StepBelow(tw: seq<Cx>, fs: nat, p: nat, m: nat, q: nat, u: nat)
    requires Times(fs, Times(p, m)) == |tw| >= 1 && q < p && u < m
    ensures Times(fs, Idx(q, m, u)) < |tw|
  {
    hide Times, Idx;
    IdxBounds(q, p, m, u);
    TimesScale(fs, Idx(q, m, u), Times(p, m));
  }

  // ---------- kf_work ----------

  /** r holds the transform of the len values of f from index fo on, fs apart. */
  ghost predicate IsTransform(r: seq<Cx>, tw: seq<Cx>, f: seq<Cx>, fo: nat, fs: nat, len: nat)
    requires |tw| >= 1
  {
    |r| == len && forall k :: 0 <= k < len ==> At(r, k) == Transform(tw, f, fo, fs, len, k)
  }

  /** The first n of p parts hold their transforms. */
  ghost predicate PartsDone(s: seq<Cx>, tw: seq<Cx>, f: seq<Cx>, fo: nat, fs: nat, p: nat, m: nat, n: nat)
    requires |tw| >= 1
  {
    forall j, k :: 0 <= j < n && 0 <= k < m ==>
      At(s, Idx(j, m, k)) == Transform(tw, f, fo + Times(j, fs), Times(fs, p), m, k)
  }

  lemma PartDone(s: seq<Cx>, s': seq<Cx>, tw: seq<Cx>, f: seq<Cx>, fo: nat, fs: nat, p: nat, m: nat, q: nat)
    requires |tw| >= 1 && q < p && |s| == |s'| == Times(p, m) && PartsDone(s, tw, f, fo, fs, p, m, q)
    requires Times(q, m) + m <= |s| && s'[..Times(q, m)] == s[..Times(q, m)]
    requires IsTransform(s'[Times(q, m)..Times(q, m) + m], tw, f, fo + Times(q, fs), Times(fs, p), m)
    ensures PartsDone(s', tw, f, fo, fs, p, m, q + 1)
  {
    hide Transform, Times;
    forall j: nat, k: nat | j <= q && k < m
      ensures At(s', Idx(j, m, k)) == Transform(tw, f, fo + Times(j, fs), Times(fs, p), m, k)
    {
      if j < q {
        IdxBounds(j, q, m, k);
        assert s'[..Times(q, m)][Idx(j, m, k)] == s[..Times(q, m)][Idx(j, m, k)];
      } else {
        assert At(s'[Times(q, m)..Times(q, m) + m], k) == s'[Times(q, m) + k];
      }
    }
  }

  /** Done parts, combined, are the whole transform, and nothing else is. */
  lemma Finish(s: seq<Cx>, r: seq<Cx>, tw: seq<Cx>, inverse: bool, f: seq<Cx>, fo: nat, fs: nat, p: nat, m: nat)
    requires Stage(tw, inverse, fs, p, m) && PartsDone(s, tw, f, fo, fs, p, m, p) && |r| == |s| == Times(p, m)
    ensures Combined(s, r, tw, fs, p, m, m) <==> IsTransform(r, tw, f, fo, fs, Times(p, m))
  {
    hide Transform, Times, Sum, Column, Roots, Mul, W, At, PartsDone, Idx;
    forall q: nat, u: nat | q < p && u < m
      ensures Idx(q, m, u) < Times(p, m)
      ensures Transform(tw, f, fo, fs, Times(p, m), Idx(q, m, u)) == Sum(p, Column(s, tw, fs, m, u, Idx(q, m, u)))
    {
      IdxBounds(q, p, m, u);
      FinishAt(s, tw, inverse, f, fo, fs, p, m, q, u);
    }
    if Combined(s, r, tw, fs, p, m, m) {
      forall k: nat | k < Times(p, m)
        ensures At(r, k) == Transform(tw, f, fo, fs, Times(p, m), k)
      {
        Split(k, p, m);
      }
    }
  }

  lemma Split(k: nat, p: nat, m: nat)
    requires m >= 1 && k < Times(p, m)
    ensures k == Idx(k / m, m, k % m) && k / m < p && k % m < m
  {
    var q := k / m;
    assert k == q * m + k % m;
    assert q >= p ==> q * m >= p * m;
  }

  // A value of the transform is a combined column of the parts.
  lemma FinishAt(s: seq<Cx>, tw: seq<Cx>, inverse: bool, f: seq<Cx>, fo: nat, fs: nat, p: nat, m: nat, q1: nat, u: nat)
    requires Stage(tw, inverse, fs, p, m) && PartsDone(s, tw, f, fo, fs, p, m, p)
    requires q1 < p && u < m
    ensures Transform(tw, f, fo, fs, Times(p, m), Idx(q1, m, u)) == Sum(p, Column(s, tw, fs, m, u, Idx(q1, m, u)))
  {
    hide Transform, Times, Sum, Roots, Mul, W, At;
    var k := Idx(q1, m, u);
    Decompose(tw, inverse, f, fo, fs, p, m, u, q1);
    forall q: nat | q < p
      ensures Column(s, tw, fs, m, u, k)(q) == Turned(tw, f, fo, fs, p, m, u, k)(q)
    {
    }
    SumEq(p, Column(s, tw, fs, m, u, k), Turned(tw, f, fo, fs, p, m, u, k));
  }

  // ---------- stages that lose nothing ----------

  // A turn can be undone.
  lemma TurnCancel(tw: seq<Cx>, inverse: bool, a: Cx, b: Cx, e: nat)
    requires |tw| >= 1 && Roots(tw, inverse) && e < |tw| && Mul(a, tw[e]) == Mul(b, tw[e])
    ensures a == b
  {
    hide Roots, Mul, W;
    var c := W(tw, |tw| - e);
    WAdd(tw, inverse, e, |tw| - e);
    WSmall(tw, e);
    WhenZero(tw, inverse, 0);
    MulAssoc(a, tw[e], c);
    MulAssoc(b, tw[e], c);
    MulUnit(a);
    MulUnit(b);
  }

  lemma SameTwo(x: Cx, t: Cx, x': Cx, t': Cx)
    requires Add(x, t) == Add(x', t') && Sub(x, t) == Sub(x', t')
    ensures x == x' && t == t'
  {
  }

  lemma SameScaled(a: real, b: real, e: real)
    requires a * e == b * e && e != 0.0
    ensures a == b
  {
    assert (a - b) * e == a * e - b * e;
  }

  lemma SameThree(e: real, x: Cx, y1: Cx, y2: Cx, x': Cx, y1': Cx, y2': Cx)
    requires e != 0.0 && Add(x, Add(y1, y2)) == Add(x', Add(y1', y2'))
    requires var f, t := Sub(x, Scale(Add(y1, y2), 0.5)), Scale(Sub(y1, y2), e);
      var f', t' := Sub(x', Scale(Add(y1', y2'), 0.5)), Scale(Sub(y1', y2'), e);
      PlusI(f, t) == PlusI(f', t') && MinusI(f, t) == MinusI(f', t')
    ensures x == x' && y1 == y1' && y2 == y2'
  {
    SameScaled(y1.re - y2.re, y1'.re - y2'.re, e);
    SameScaled(y1.im - y2.im, y1'.im - y2'.im, e);
  }

  lemma SameFour(x: Cx, y1: Cx, y2: Cx, y3: Cx, x': Cx, y1': Cx, y2': Cx, y3': Cx)
    requires Add(Add(x, y2), Add(y1, y3)) == Add(Add(x', y2'), Add(y1', y3'))
    requires Sub(Add(x, y2), Add(y1, y3)) == Sub(Add(x', y2'), Add(y1', y3'))
    requires PlusI(Sub(x, y2), Sub(y1, y3)) == PlusI(Sub(x', y2'), Sub(y1', y3'))
    requires MinusI(Sub(x, y2), Sub(y1, y3)) == MinusI(Sub(x', y2'), Sub(y1', y3'))
    ensures x == x' && y1 == y1' && y2 == y2' && y3 == y3'
  {
  }

  /** Two sequences have the same column u. */
  ghost predicate SameColumn(s: seq<Cx>, s': seq<Cx>, p: nat, m: nat, u: nat)
  {
    forall q :: 0 <= q < p ==> At(s, Idx(q, m, u)) == At(s', Idx(q, m, u))
  }

  lemma DeterminedTwo(s: seq<Cx>, s': seq<Cx>, r: seq<Cx>, tw: seq<Cx>, inverse: bool, fs: nat, m: nat, u: nat)
    requires Stage(tw, inverse, fs, 2, m) && u < m
    requires ColumnRight(s, r, tw, fs, 2, m, u) && ColumnRight(s', r, tw, fs, 2, m, u)
    ensures SameColumn(s, s', 2, m, u)
  {
    hide Roots, W, At, Idx, Times, Mul, Add, Sub, Sum, Column;
    OneTurn(tw, fs, 2, m, u);
    var e := Times(fs, u);
    var t, t' := Mul(At(s, Idx(1, m, u)), tw[e]), Mul(At(s', Idx(1, m, u)), tw[e]);
    Two(s, tw, inverse, fs, m, u, t);
    Two(s', tw, inverse, fs, m, u, t');
    SameTwo(At(s, Idx(0, m, u)), t, At(s', Idx(0, m, u)), t');
    TurnCancel(tw, inverse, At(s, Idx(1, m, u)), At(s', Idx(1, m, u)), e);
  }

  lemma DeterminedThree(s: seq<Cx>, s': seq<Cx>, r: seq<Cx>, tw: seq<Cx>, inverse: bool, fs: nat, m: nat, u: nat)
    requires Stage(tw, inverse, fs, 3, m) && u < m
    requires ColumnRight(s, r, tw, fs, 3, m, u) && ColumnRight(s', r, tw, fs, 3, m, u)
    ensures SameColumn(s, s', 3, m, u)
  {
    hide Roots, W, At, Idx, Times, Mul, Add, Sub, Sum, Column, Root, Three, Scale, PlusI, MinusI;
    TurnSmall(tw, fs, 3, m, 1, u);
    TurnSmall(tw, fs, 3, m, 2, u);
    var e1, e2 := Times(1, Times(fs, u)), Times(2, Times(fs, u));
    var x, x' := At(s, Idx(0, m, u)), At(s', Idx(0, m, u));
    var y1, y1' := Mul(At(s, Idx(1, m, u)), tw[e1]), Mul(At(s', Idx(1, m, u)), tw[e1]);
    var y2, y2' := Mul(At(s, Idx(2, m, u)), tw[e2]), Mul(At(s', Idx(2, m, u)), tw[e2]);
    RootThree(tw, inverse, fs, m);
    var e := tw[|tw| / 3].im;
    ThirdImaginary(tw, inverse);
    forall q1: nat | q1 < 3
      ensures Three(x, y1, y2, Root(tw, fs, m, q1), Root(tw, fs, m, 2 * q1))
           == Three(x', y1', y2', Root(tw, fs, m, q1), Root(tw, fs, m, 2 * q1))
    {
      ThreeColumn(s, tw, inverse, fs, m, u, q1, x, y1, y2);
      ThreeColumn(s', tw, inverse, fs, m, u, q1, x', y1', y2');
    }
    assert Three(x, y1, y2, Root(tw, fs, m, 0), Root(tw, fs, m, 2 * 0)) == Three(x, y1, y2, ONE, ONE);
    assert Three(x, y1, y2, Root(tw, fs, m, 1), Root(tw, fs, m, 2 * 1)) == Three(x, y1, y2, Cx(-0.5, e), Cx(-0.5, -e));
    assert Three(x, y1, y2, Root(tw, fs, m, 2), Root(tw, fs, m, 2 * 2)) == Three(x, y1, y2, Cx(-0.5, -e), Cx(-0.5, e));
    ThreeValues(e, x, y1, y2);
    ThreeValues(e, x', y1', y2');
    SameThree(e, x, y1, y2, x', y1', y2');
    TurnCancel(tw, inverse, At(s, Idx(1, m, u)), At(s', Idx(1, m, u)), e1);
    TurnCancel(tw, inverse, At(s, Idx(2, m, u)), At(s', Idx(2, m, u)), e2);
  }

  lemma ThirdImaginary(tw: seq<Cx>, inverse: bool)
    requires |tw| >= 1 && Roots(tw, inverse) && |tw| % 3 == 0
    ensures tw[|tw| / 3].im != 0.0
  {
    hide Roots, Mul, W;
    var d := |tw| / 3;
    ThirdTurn(tw, inverse);
    WSmall(tw, d);
    WAdd(tw, inverse, d, d);
    if tw[d].im == 0.0 {
      RealSquare();
      assert false;
    }
  }

  lemma RealSquare()
    ensures Mul(Cx(-0.5, 0.0), Cx(-0.5, 0.0)) != Cx(-0.5, 0.0)
  {
  }

  lemma DeterminedFour(s: seq<Cx>, s': seq<Cx>, r: seq<Cx>, tw: seq<Cx>, inverse: bool, fs: nat, m: nat, u: nat)
    requires Stage(tw, inverse, fs, 4, m) && u < m
    requires ColumnRight(s, r, tw, fs, 4, m, u) && ColumnRight(s', r, tw, fs, 4, m, u)
    ensures SameColumn(s, s', 4, m, u)
  {
    hide Roots, W, At, Idx, Times, Mul, Add, Sub, Neg, Sum, Column, Root, Four, PlusI, MinusI, Quarter;
    TurnSmall(tw, fs, 4, m, 1, u);
    TurnSmall(tw, fs, 4, m, 2, u);
    TurnSmall(tw, fs, 4, m, 3, u);
    var e1, e2, e3 := Times(1, Times(fs, u)), Times(2, Times(fs, u)), Times(3, Times(fs, u));
    var x, x' := At(s, Idx(0, m, u)), At(s', Idx(0, m, u));
    var y1, y1' := Mul(At(s, Idx(1, m, u)), tw[e1]), Mul(At(s', Idx(1, m, u)), tw[e1]);
    var y2, y2' := Mul(At(s, Idx(2, m, u)), tw[e2]), Mul(At(s', Idx(2, m, u)), tw[e2]);
    var y3, y3' := Mul(At(s, Idx(3, m, u)), tw[e3]), Mul(At(s', Idx(3, m, u)), tw[e3]);
    RootFour(tw, inverse, fs, m);
    forall q1: nat | q1 < 4
      ensures Four(x, y1, y2, y3, Root(tw, fs, m, q1), Root(tw, fs, m, 2 * q1), Root(tw, fs, m, 3 * q1))
           == Four(x', y1', y2', y3', Root(tw, fs, m, q1), Root(tw, fs, m, 2 * q1), Root(tw, fs, m, 3 * q1))
    {
      FourColumn(s, tw, inverse, fs, m, u, q1, x, y1, y2, y3);
      FourColumn(s', tw, inverse, fs, m, u, q1, x', y1', y2', y3');
    }
    var i, j, k := Quarter(inverse), Neg(ONE), Neg(Quarter(inverse));
    FourAt(tw, fs, m, x, y1, y2, y3, inverse);
    FourAt(tw, fs, m, x', y1', y2', y3', inverse);
    FourValues(inverse, x, y1, y2, y3);
    FourValues(inverse, x', y1', y2', y3');
    SameFour(x, y1, y2, y3, x', y1', y2', y3');
    TurnCancel(tw, inverse, At(s, Idx(1, m, u)), At(s', Idx(1, m, u)), e1);
    TurnCancel(tw, inverse, At(s, Idx(2, m, u)), At(s', Idx(2, m, u)), e2);
    TurnCancel(tw, inverse, At(s, Idx(3, m, u)), At(s', Idx(3, m, u)), e3);
  }

  lemma FourAt(tw: seq<Cx>, fs: nat, m: nat, x: Cx, y1: Cx, y2: Cx, y3: Cx, inverse: bool)
    requires Stage(tw, inverse, fs, 4, m)
    ensures var i, j, k := Quarter(inverse), Neg(ONE), Neg(Quarter(inverse));
      && Four(x, y1, y2, y3, Root(tw, fs, m, 0), Root(tw, fs, m, 2 * 0), Root(tw, fs, m, 3 * 0))
         == Four(x, y1, y2, y3, ONE, ONE, ONE)
      && Four(x, y1, y2, y3, Root(tw, fs, m, 1), Root(tw, fs, m, 2 * 1), Root(tw, fs, m, 3 * 1))
         == Four(x, y1, y2, y3, i, j, k)
      && Four(x, y1, y2, y3, Root(tw, fs, m, 2), Root(tw, fs, m, 2 * 2), Root(tw, fs, m, 3 * 2))
         == Four(x, y1, y2, y3, j, ONE, j)
      && Four(x, y1, y2, y3, Root(tw, fs, m, 3), Root(tw, fs, m, 2 * 3), Root(tw, fs, m, 3 * 3))
         == Four(x, y1, y2, y3, k, j, i)
  {
    hide Roots, W, Root, Four, Times;
    RootFour(tw, inverse, fs, m);
  }

  /** What the parts of a whole should hold. */
  ghost function TrueParts(tw: seq<Cx>, f: seq<Cx>, fo: nat, fs: nat, p: nat, m: nat): (s: seq<Cx>)
    requires |tw| >= 1 && m >= 1
    ensures |s| == Times(p, m)
  {
    seq(Times(p, m), (i: nat) => Transform(tw, f, fo + Times(i / m, fs), Times(fs, p), m, i % m))
  }

  lemma TruePartsDone(tw: seq<Cx>, f: seq<Cx>, fo: nat, fs: nat, p: nat, m: nat)
    requires |tw| >= 1 && m >= 1
    ensures PartsDone(TrueParts(tw, f, fo, fs, p, m), tw, f, fo, fs, p, m, p)
  {
    hide Transform, Idx, Times;
    var s := TrueParts(tw, f, fo, fs, p, m);
    forall j: nat, k: nat | j < p && k < m
      ensures At(s, Idx(j, m, k)) == Transform(tw, f, fo + Times(j, fs), Times(fs, p), m, k)
    {
      IdxBounds(j, p, m, k);
      var i := Idx(j, m, k);
      Split(i, p, m);
      IdxDistinct(j, i / m, m, k, i % m);
    }
  }

  // The same combination of two columns makes them the same.
  lemma Determined(s: seq<Cx>, s': seq<Cx>, r: seq<Cx>, tw: seq<Cx>, inverse: bool, fs: nat, p: nat, m: nat)
    requires Stage(tw, inverse, fs, p, m) && p in {2, 3, 4}
    requires Combined(s, r, tw, fs, p, m, m) && Combined(s', r, tw, fs, p, m, m)
    ensures forall q, u :: 0 <= q < p && 0 <= u < m ==> At(s, Idx(q, m, u)) == At(s', Idx(q, m, u))
  {
    hide Roots, At, Idx, ColumnRight, Times;
    CombinedSizes(s, r, tw, fs, p, m);
    CombinedSizes(s', r, tw, fs, p, m);
    CombinedColumns(s, r, tw, fs, p, m);
    CombinedColumns(s', r, tw, fs, p, m);
    forall u | 0 <= u < m
      ensures SameColumn(s, s', p, m, u)
    {
      if p == 2 {
        DeterminedTwo(s, s', r, tw, inverse, fs, m, u);
      } else if p == 3 {
        DeterminedThree(s, s', r, tw, inverse, fs, m, u);
      } else {
        DeterminedFour(s, s', r, tw, inverse, fs, m, u);
      }
    }
    forall q: nat, u: nat | q < p && u < m
      ensures At(s, Idx(q, m, u)) == At(s', Idx(q, m, u))
    {
      assert SameColumn(s, s', p, m, u);
    }
  }

  lemma CombinedSizes(s: seq<Cx>, r: seq<Cx>, tw: seq<Cx>, fs: nat, p: nat, m: nat)
    requires |tw| >= 1 && Combined(s, r, tw, fs, p, m, m)
    ensures |s| == |r| == Times(p, m)
  {
  }

  /** Of parts combined by a stage of radix 2, 3 or 4, the whole is right exactly when every part is. */
  lemma OnlyParts(s: seq<Cx>, r: seq<Cx>, tw: seq<Cx>, inverse: bool, f: seq<Cx>, fo: nat, fs: nat, p: nat, m: nat)
    requires Stage(tw, inverse, fs, p, m) && p in {2, 3, 4} && Combined(s, r, tw, fs, p, m, m)
    ensures IsTransform(r, tw, f, fo, fs, Times(p, m)) <==> PartsDone(s, tw, f, fo, fs, p, m, p)
  {
    hide Roots, Times, At, Idx, Combined, IsTransform, Transform, TrueParts;
    CombinedSizes(s, r, tw, fs, p, m);
    if PartsDone(s, tw, f, fo, fs, p, m, p) {
      Finish(s, r, tw, inverse, f, fo, fs, p, m);
    }
    if IsTransform(r, tw, f, fo, fs, Times(p, m)) {
      var t := TrueParts(tw, f, fo, fs, p, m);
      TruePartsDone(tw, f, fo, fs, p, m);
      Finish(t, r, tw, inverse, f, fo, fs, p, m);
      Determined(s, t, r, tw, inverse, fs, p, m);
    }
  }

  // The values that a transform reads are there.
  ghost predicate Readable(f: seq<Cx>, fo: nat, fs: nat, len: nat)
  {
    len >= 1 && fo + Times(len - 1, fs) < |f|
  }

  lemma ReadablePart(f: seq<Cx>, fo: nat, fs: nat, p: nat, m: nat, q: nat)
    requires Readable(f, fo, fs, Times(p, m)) && q < p && m >= 1
    ensures Readable(f, fo + Times(q, fs), Times(fs, p), m)
  {
    var n: nat := m - 1;
    Place(fo, fs, p, q, n);
    assert n * p + p == m * p;
    assert q + n * p <= p * m - 1;
    var d: nat := p * m - 1 - (q + n * p);
    assert (q + n * p + d) * fs == (q + n * p) * fs + d * fs;
  }

  lemma NoFactorFive(p: nat, m: nat)
    requires Times(p, m) % 5 != 0
    ensures p != 5 && m % 5 != 0
  {
    var d := m / 5;
    assert m % 5 == 0 ==> m == 5 * d;
    assert p * (5 * d) == 5 * (p * d);
    assert p == 5 ==> p * m == 5 * m;
  }

  lemma SubStage(fs: nat, p: nat, m: nat)
    ensures Times(Times(fs, p), m) == Times(fs, Times(p, m))
  {
  }

  // A transform of one value is that value.
  lemma TransformOne(tw: seq<Cx>, inverse: bool, f: seq<Cx>, fo: nat, fs: nat)
    requires |tw| >= 1 && Roots(tw, inverse) && fo < |f|
    ensures Transform(tw, f, fo, fs, 1, 0) == f[fo]
  {
    var g := Term(tw, f, fo, fs, 0);
    assert Times(0, fs) == 0 && Times(fs, Times(0, 0)) == 0;
    WhenZero(tw, inverse, 0);
    hide Mul, Times;
    MulUnit(f[fo]);
    SumMore(0, g);
    AddLaws(ZERO, f[fo], ZERO);
  }

  // Copy single values: transforms of length one.
  method CopyValues(fout: array<Cx>, at: nat, f: seq<Cx>, fo: nat, fs: nat, st: Cfg, p: nat)
    requires |st.twiddles| >= 1 && Roots(st.twiddles, st.inverse) && at + Times(p, 1) <= fout.Length
        && Readable(f, fo, fs, Times(p, 1))
    modifies fout
    ensures fout[..at] == old(fout[..at]) && fout[at + Times(p, 1)..] == old(fout[at + Times(p, 1)..])
    ensures PartsDone(fout[at..at + Times(p, 1)], st.twiddles, f, fo, fs, p, 1, p)
  {
    hide Transform, Roots, PartsDone;
    assert Times(p, 1) == p;
    ghost var tw := st.twiddles;
    for j := 0 to p
      invariant fout[..at] == old(fout[..at]) && fout[at + p..] == old(fout[at + p..])
      invariant forall i :: 0 <= i < j ==> fout[at + i] == Transform(tw, f, fo + Times(i, fs), Times(fs, p), 1, 0)
    {
      InStep(f, fo, fs, p, j);
      TransformOne(tw, st.inverse, f, fo + j * fs, Times(fs, p));
      fout[at + j] := f[fo + j * fs];
    }
    CopiedParts(fout[at..at + p], tw, f, fo, fs, p);
  }

  lemma CopiedParts(s: seq<Cx>, tw: seq<Cx>, f: seq<Cx>, fo: nat, fs: nat, p: nat)
    requires |tw| >= 1 && |s| == p
    requires forall i :: 0 <= i < p ==> s[i] == Transform(tw, f, fo + Times(i, fs), Times(fs, p), 1, 0)
    ensures PartsDone(s, tw, f, fo, fs, p, 1, p)
  {
    hide Transform;
    forall j: nat, k: nat | j < p && k < 1
      ensures At(s, Idx(j, 1, k)) == Transform(tw, f, fo + Times(j, fs), Times(fs, p), 1, k)
    {
      assert Idx(j, 1, k) == j;
    }
  }

  lemma InStep(f: seq<Cx>, fo: nat, fs: nat, p: nat, j: nat)
    requires Readable(f, fo, fs, p) && j < p
    ensures fo + j * fs < |f| && Times(j, fs) == j * fs
  {
    var d: nat := p - 1 - j;
    assert (j + d) * fs == j * fs + d * fs;
  }

  // The butterfly for the radix.
  method Recombine(fout: array<Cx>, at: nat, fs: nat, st: Cfg, m: nat, p: nat)
    requires Stage(st.twiddles, st.inverse, fs, p, m) && at + Times(p, m) <= fout.Length
    modifies fout
    ensures fout[..at] == old(fout[..at]) && fout[at + Times(p, m)..] == old(fout[at + Times(p, m)..])
    ensures p != 5 ==> Combined(old(fout[at..at + Times(p, m)]), fout[at..at + Times(p, m)], st.twiddles, fs, p, m, m)
    ensures p == 5 ==> Coded(old(fout[at..at + Times(p, m)]), fout[at..at + Times(p, m)], st.twiddles, fs, m, m)
  {
    hide Roots, Combined, Coded, Times;
    if p == 2 {
      KfBfly2(fout, at, fs, st, m);
    } else if p == 3 {
      KfBfly3(fout, at, fs, st, m);
    } else if p == 4 {
      KfBfly4(fout, at, fs, st, m);
    } else if p == 5 {
      KfBfly5(fout, at, fs, st, m);
    } else {
      KfBflyGeneric(fout, at, fs, st, m, p);
    }
  }

  /** Five values of which kf_bfly5 makes their transform. */
  ghost predicate Fits(f: seq<Cx>, fo: nat, fs: nat)
    requires fo + 4 * fs < |f|
  {
    f[fo + 2 * fs] == f[fo + 3 * fs] && f[fo + fs].im == f[fo + 4 * fs].im
  }

  lemma FiveReadable(f: seq<Cx>, fo: nat, fs: nat)
    requires Readable(f, fo, fs, 5)
    ensures fo + 4 * fs < |f|
  {
  }

  // The value copied to place j.
  lemma CopiedAt(s: seq<Cx>, tw: seq<Cx>, inverse: bool, f: seq<Cx>, fo: nat, fs: nat, p: nat, j: nat)
    requires |tw| >= 1 && Roots(tw, inverse) && PartsDone(s, tw, f, fo, fs, p, 1, p) && j < p && fo + j * fs < |f|
    ensures At(s, Idx(j, 1, 0)) == f[fo + j * fs]
  {
    hide Transform, Roots, At;
    TransformOne(tw, inverse, f, fo + j * fs, Times(fs, p));
    assert Times(j, fs) == j * fs;
  }

  lemma UnturnedAt(s: seq<Cx>, tw: seq<Cx>, inverse: bool, fs: nat, q: nat)
    requires |tw| >= 1 && Roots(tw, inverse)
    ensures Y(s, tw, fs, 1, 0, q) == At(s, Idx(q, 1, 0))
  {
    assert Times(q, Times(fs, 0)) == 0;
    hide Roots, Mul, At;
    WhenZero(tw, inverse, 0);
    MulUnit(At(s, Idx(q, 1, 0)));
  }

  /** A transform of five single values comes out right exactly when they fit. */
  lemma FiveValues(s: seq<Cx>, r: seq<Cx>, tw: seq<Cx>, inverse: bool, f: seq<Cx>, fo: nat, fs: nat)
    requires Stage(tw, inverse, fs, 5, 1) && PartsDone(s, tw, f, fo, fs, 5, 1, 5) && Coded(s, r, tw, fs, 1, 1)
    requires fo + 4 * fs < |f|
    ensures IsTransform(r, tw, f, fo, fs, Times(5, 1)) <==> Fits(f, fo, fs)
  {
    hide Roots, IsTransform, PartsDone, Coded, Combined, Times, At, Y;
    CodedSize(s, r, tw, fs, 1);
    Finish(s, r, tw, inverse, f, fo, fs, 5, 1);
    FiveRight(s, r, tw, inverse, fs, 1);
    CopiedAt(s, tw, inverse, f, fo, fs, 5, 1);
    CopiedAt(s, tw, inverse, f, fo, fs, 5, 2);
    CopiedAt(s, tw, inverse, f, fo, fs, 5, 3);
    CopiedAt(s, tw, inverse, f, fo, fs, 5, 4);
    UnturnedAt(s, tw, inverse, fs, 1);
    UnturnedAt(s, tw, inverse, fs, 2);
    UnturnedAt(s, tw, inverse, fs, 3);
    UnturnedAt(s, tw, inverse, fs, 4);
    assert Fits5(s, tw, fs, 1, 0) <==> forall u :: 0 <= u < 1 ==> Fits5(s, tw, fs, 1, u);
  }

  // ---------- lengths with one factor of five ----------

  /** Part j of s holds its transform. */
  ghost predicate PartRight(s: seq<Cx>, tw: seq<Cx>, f: seq<Cx>, fo: nat, fs: nat, p: nat, m: nat, j: nat)
    requires |tw| >= 1
  {
    forall k :: 0 <= k < m ==> At(s, Idx(j, m, k)) == Transform(tw, f, fo + Times(j, fs), Times(fs, p), m, k)
  }

  lemma PartsAre(s: seq<Cx>, tw: seq<Cx>, f: seq<Cx>, fo: nat, fs: nat, p: nat, m: nat)
    requires |tw| >= 1
    ensures PartsDone(s, tw, f, fo, fs, p, m, p) <==> forall j :: 0 <= j < p ==> PartRight(s, tw, f, fo, fs, p, m, j)
  {
    hide Transform, At, Idx, Times;
    if forall j :: 0 <= j < p ==> PartRight(s, tw, f, fo, fs, p, m, j) {
      forall j: nat, k: nat | j < p && k < m
        ensures At(s, Idx(j, m, k)) == Transform(tw, f, fo + Times(j, fs), Times(fs, p), m, k)
      {
        assert PartRight(s, tw, f, fo, fs, p, m, j);
      }
    }
  }

  // Writing a later part leaves this one as it is.
  lemma PartKept(s: seq<Cx>, s': seq<Cx>, tw: seq<Cx>, f: seq<Cx>, fo: nat, fs: nat, p: nat, m: nat, q: nat, j: nat)
    requires |tw| >= 1 && j < q < p && |s| == |s'| == Times(p, m)
    requires Times(q, m) + m <= |s| && s'[..Times(q, m)] == s[..Times(q, m)]
    ensures PartRight(s, tw, f, fo, fs, p, m, j) <==> PartRight(s', tw, f, fo, fs, p, m, j)
  {
    hide Transform, Times;
    forall k: nat | k < m
      ensures At(s', Idx(j, m, k)) == At(s, Idx(j, m, k))
    {
      IdxBounds(j, q, m, k);
      assert s'[..Times(q, m)][Idx(j, m, k)] == s[..Times(q, m)][Idx(j, m, k)];
    }
  }

  lemma PartWritten(s: seq<Cx>, tw: seq<Cx>, f: seq<Cx>, fo: nat, fs: nat, p: nat, m: nat, q: nat)
    requires |tw| >= 1 && q < p && Times(q, m) + m <= |s|
    ensures PartRight(s, tw, f, fo, fs, p, m, q) <==>
            IsTransform(s[Times(q, m)..Times(q, m) + m], tw, f, fo + Times(q, fs), Times(fs, p), m)
  {
    hide Transform, Times;
    var part := s[Times(q, m)..Times(q, m) + m];
    assert forall k :: 0 <= k < m ==> part[k] == s[Times(q, m) + k];
    if PartRight(s, tw, f, fo, fs, p, m, q) {
      forall k: nat | k < m
        ensures At(part, k) == Transform(tw, f, fo + Times(q, fs), Times(fs, p), m, k)
      {
        assert At(part, k) == At(s, Idx(q, m, k));
      }
    }
  }

  /** The values are such that a transform with at most one factor of five comes out right: what the stage
      of radix five combines, the values themselves or their transforms below it, fits in every column. */
  ghost predicate Fitting(tw: seq<Cx>, f: seq<Cx>, fo: nat, fs: nat, factors: seq<nat>)
    requires |tw| >= 1
    decreases |factors|
  {
    |factors| >= 2 ==>
      var p, m := factors[0], factors[1];
      if p == 5 && m <= 1 then fo + 4 * fs < |f| && Fits(f, fo, fs)
      else if p == 5 then forall u :: 0 <= u < m ==> Fits5(TrueParts(tw, f, fo, fs, 5, m), tw, fs, m, u)
      else m != 1 ==> forall q :: 0 <= q < p ==> Fitting(tw, f, fo + Times(q, fs), Times(fs, p), factors[2..])
  }

  /** Above a factor of five there are only radices 2, 3 and 4. */
  ghost predicate FiveOnce(factors: seq<nat>)
    decreases |factors|
  {
    |factors| >= 2 ==> (factors[1] % 5 == 0 ==> factors[0] in {2, 3, 4}) && FiveOnce(factors[2..])
  }

  lemma FiveTimes(a: nat, b: nat)
    requires a % 5 != 0 && b % 5 != 0
    ensures Times(a, b) % 5 != 0
  {
    var r := (a % 5) * (b % 5);
    assert a == 5 * (a / 5) + a % 5 && b == 5 * (b / 5) + b % 5;
    assert a * b == r + (a / 5 * b + (a % 5) * (b / 5)) * 5;
    ModMultiple(r, a / 5 * b + (a % 5) * (b / 5), 5);
    assert r in {1, 2, 3, 4, 6, 8, 9, 12, 16};
  }

  lemma RadixNotFive(p: nat)
    requires IsRadix(p) && p != 5
    ensures p % 5 != 0
  {
    assert p > 5 && p != 4 ==> p % 5 != 0;
  }

  // Without the radix five there is no factor of five.
  lemma {:induction false} NoRadixFive(fs: seq<nat>, n: nat)
    requires Factors(fs, n) && |fs| % 2 == 0 && forall i :: 0 <= i < |fs| / 2 ==> IsRadix(fs[2 * i]) && fs[2 * i] != 5
    ensures n % 5 != 0
    decreases |fs|
  {
    hide Times, IsRadix;
    if fs == [] {
    } else {
      var rest := fs[2..];
      assert fs[2 * 0] == fs[0];
      forall i | 0 <= i < |rest| / 2
        ensures rest[2 * i] == fs[2 * (i + 1)]
      {
      }
      NoRadixFive(rest, fs[1]);
      RadixNotFive(fs[0]);
      FiveTimes(fs[0], fs[1]);
    }
  }

  lemma TwentyFive(p: nat, m: nat)
    requires Times(p, m) % 25 != 0
    ensures m % 25 != 0 && (p == 5 ==> m % 5 != 0)
  {
    if m % 25 == 0 {
      DivisorTimes(p, m, 25);
    }
    FiveFives(m);
  }

  lemma FiveFives(m: nat)
    ensures m % 5 == 0 ==> Times(5, m) % 25 == 0
  {
    assert m % 5 == 0 ==> Times(5, m) == 25 * (m / 5);
  }

  lemma DivisorTimes(p: nat, m: nat, d: nat)
    requires d > 0 && m % d == 0
    ensures Times(p, m) % d == 0
  {
    assert m == d * (m / d);
    assert p * (d * (m / d)) == (p * (m / d)) * d;
    ModMultiple(0, p * (m / d), d);
  }

  /** The radices that are found for a length without a factor of twenty-five are such. */
  lemma {:induction false} OnceWithout25(fs: seq<nat>, n: nat, last: nat)
    requires Factors(fs, n) && Radices(fs, last) && n % 25 != 0
    ensures FiveOnce(fs)
    decreases |fs|
  {
    hide Times, IsRadix, Rank;
    if fs == [] {
    } else {
      var p, m, rest := fs[0], fs[1], fs[2..];
      assert fs[2 * 0] == p;
      forall i | 0 <= i < |rest| / 2
        ensures rest[2 * i] == fs[2 * (i + 1)]
      {
      }
      TwentyFive(p, m);
      OnceWithout25(rest, m, last);
      if p !in {2, 3, 4, 5} {
        LargeRadix(p);
        forall i | 0 <= i < |rest| / 2
          ensures rest[2 * i] != 5
        {
          LargeRank(p, rest[2 * i]);
        }
        NoRadixFive(rest, m);
      }
    }
  }

  lemma LargeRadix(p: nat)
    requires IsRadix(p) && p !in {2, 3, 4, 5}
    ensures p > 5 && Rank(p) == p
  {
  }

  lemma LargeRank(p: nat, q: nat)
    requires p > 5 && Rank(p) == p <= Rank(q)
    ensures q != 5
  {
  }

  lemma SameFits(s: seq<Cx>, t: seq<Cx>, tw: seq<Cx>, f: seq<Cx>, fo: nat, fs: nat, m: nat, u: nat)
    requires |tw| >= 1 && u < m
    requires PartsDone(s, tw, f, fo, fs, 5, m, 5) && PartsDone(t, tw, f, fo, fs, 5, m, 5)
    ensures Fits5(s, tw, fs, m, u) <==> Fits5(t, tw, fs, m, u)
  {
    hide Transform, Idx, At, W;
    assert forall q :: 0 <= q < 5 ==> At(s, Idx(q, m, u)) == At(t, Idx(q, m, u));
  }

  // A stage of radix five over parts that are right.
  lemma FiveOverParts(s: seq<Cx>, r: seq<Cx>, tw: seq<Cx>, inverse: bool, f: seq<Cx>, fo: nat, fs: nat, m: nat)
    requires Stage(tw, inverse, fs, 5, m) && Coded(s, r, tw, fs, m, m) && PartsDone(s, tw, f, fo, fs, 5, m, 5)
    ensures IsTransform(r, tw, f, fo, fs, Times(5, m)) <==>
            forall u :: 0 <= u < m ==> Fits5(TrueParts(tw, f, fo, fs, 5, m), tw, fs, m, u)
  {
    hide Roots, IsTransform, PartsDone, Coded, Combined, Times, TrueParts, Fits5;
    CodedSize(s, r, tw, fs, m);
    Finish(s, r, tw, inverse, f, fo, fs, 5, m);
    FiveRight(s, r, tw, inverse, fs, m);
    TruePartsDone(tw, f, fo, fs, 5, m);
    forall u | 0 <= u < m
      ensures Fits5(s, tw, fs, m, u) <==> Fits5(TrueParts(tw, f, fo, fs, 5, m), tw, fs, m, u)
    {
      SameFits(s, TrueParts(tw, f, fo, fs, 5, m), tw, f, fo, fs, m, u);
    }
  }

  /** What one level of the recursion comes to, when each part is right exactly when it fits. */
  lemma WorkRight(s: seq<Cx>, r: seq<Cx>, tw: seq<Cx>, inverse: bool, f: seq<Cx>, fo: nat, fs: nat, factors: seq<nat>)
    requires |factors| >= 2 && FiveOnce(factors) && Stage(tw, inverse, fs, factors[0], factors[1])
    requires |r| == |s| == Times(factors[0], factors[1])
    requires factors[0] != 5 ==> Combined(s, r, tw, fs, factors[0], factors[1], factors[1])
    requires factors[0] == 5 ==> Coded(s, r, tw, fs, factors[1], factors[1])
    requires factors[1] % 5 != 0 ==> PartsDone(s, tw, f, fo, fs, factors[0], factors[1], factors[0])
    requires factors[1] != 1 ==> forall q :: 0 <= q < factors[0] ==>
      (PartRight(s, tw, f, fo, fs, factors[0], factors[1], q) <==>
       Fitting(tw, f, fo + Times(q, fs), Times(fs, factors[0]), factors[2..]))
    requires factors[0] == 5 && factors[1] == 1 ==> fo + 4 * fs < |f|
    ensures IsTransform(r, tw, f, fo, fs, Times(factors[0], factors[1])) <==> Fitting(tw, f, fo, fs, factors)
  {
    hide Roots, Times, IsTransform, PartsDone, PartRight, Combined, Coded, Fits, Fits5, FiveOnce, TrueParts;
    var p, m := factors[0], factors[1];
    FiveBelow(factors);
    PartsAre(s, tw, f, fo, fs, p, m);
    if p == 5 && m == 1 {
      FiveValues(s, r, tw, inverse, f, fo, fs);
    } else if p == 5 {
      FiveOverParts(s, r, tw, inverse, f, fo, fs, m);
    } else if m % 5 != 0 {
      Finish(s, r, tw, inverse, f, fo, fs, p, m);
    } else {
      OnlyParts(s, r, tw, inverse, f, fo, fs, p, m);
    }
  }

  lemma FiveBelow(factors: seq<nat>)
    requires |factors| >= 2 && FiveOnce(factors)
    ensures FiveOnce(factors[2..]) && (factors[1] % 5 == 0 ==> factors[0] in {2, 3, 4})
  {
  }

  lemma NoPartsYet(s: seq<Cx>, tw: seq<Cx>, f: seq<Cx>, fo: nat, fs: nat, p: nat, m: nat)
    requires |tw| >= 1
    ensures PartsDone(s, tw, f, fo, fs, p, m, 0)
  {
  }

  lemma PartFits(p: nat, m: nat, q: nat)
    requires q < p
    ensures Times(q, m) + m <= Times(p, m)
  {
    assert (q + 1) * m == q * m + m;
    assert (q + 1) * m <= p * m;
  }

  // Only the m places from at + d on were changed.
  lemma OnePart(before: seq<Cx>, after: seq<Cx>, at: nat, d: nat, m: nat, len: nat)
    requires |after| == |before| && d + m <= len && at + len <= |before|
    requires after[..at + d] == before[..at + d] && after[at + d + m..] == before[at + d + m..]
    ensures after[..at] == before[..at] && after[at + len..] == before[at + len..]
    ensures after[at..at + len][..d] == before[at..at + len][..d]
    ensures after[at..at + len][d..d + m] == after[at + d..at + d + m]
  {
    var e: nat := len - d - m;
    Prefix(after, at, at + d);
    Prefix(before, at, at + d);
    Suffix(after, at + d + m, e);
    Suffix(before, at + d + m, e);
    assert at + d + m + e == at + len;
    Part(after, at, len, 0, d);
    Part(before, at, len, 0, d);
    Part(after, 0, at + d, at, d);
    Part(before, 0, at + d, at, d);
    Part(after, at, len, d, m);
  }

  lemma Prefix(s: seq<Cx>, i: nat, j: nat)
    requires i <= j <= |s|
    ensures s[..j][..i] == s[..i]
  {
  }

  lemma Suffix(s: seq<Cx>, i: nat, e: nat)
    requires i + e <= |s|
    ensures s[i..][e..] == s[i + e..]
  {
  }

  lemma Part(s: seq<Cx>, a: nat, n: nat, d: nat, m: nat)
    requires d + m <= n && a + n <= |s|
    ensures s[a..a + n][d..d + m] == s[a + d..a + d + m]
  {
    var x, y := s[a..a + n][d..d + m], s[a + d..a + d + m];
    assert |x| == |y| == m;
    forall i | 0 <= i < m
      ensures x[i] == y[i]
    {
      assert x[i] == s[a..a + n][d + i];
    }
  }

  /** kf_work: the transform of the values of f from index fo on, fs apart, whose number the
      factors multiply up to. */
  method KfWork(fout: array<Cx>, at: nat, f: seq<Cx>, fo: nat, fs: nat, factors: seq<nat>, st: Cfg, ghost len: nat)
    requires |st.twiddles| >= 1 && Roots(st.twiddles, st.inverse) && factors != [] && Factors(factors, len)
    requires Times(fs, len) == |st.twiddles| && at + len <= fout.Length && Readable(f, fo, fs, len)
    modifies fout
    ensures fout[..at] == old(fout[..at]) && fout[at + len..] == old(fout[at + len..])
    ensures len % 5 != 0 ==> IsTransform(fout[at..at + len], st.twiddles, f, fo, fs, len)
    ensures factors == [5, 1] ==>
              fo + 4 * fs < |f| && (IsTransform(fout[at..at + len], st.twiddles, f, fo, fs, len) <==> Fits(f, fo, fs))
    ensures FiveOnce(factors) ==> (IsTransform(fout[at..at + len], st.twiddles, f, fo, fs, len) <==>
              Fitting(st.twiddles, f, fo, fs, factors))
    decreases |factors|, 1
  {
    hide Roots, Times, Readable, IsTransform, PartsDone, PartRight, Combined, Coded, Fits, Fitting, FiveOnce;
    var p, m := factors[0], factors[1];
    ghost var tw, good := st.twiddles, len % 5 != 0;
    if good {
      NoFactorFive(p, m);
    }
    if m == 1 {
      CopyValues(fout, at, f, fo, fs, st, p);
    } else {
      WorkParts(fout, at, f, fo, fs, factors, st, len);
    }
    ghost var s := fout[at..at + len];
    Recombine(fout, at, fs, st, m, p);
    if good {
      Finish(s, fout[at..at + len], tw, st.inverse, f, fo, fs, p, m);
    }
    if p == 5 && m == 1 {
      FiveLength();
      FiveReadable(f, fo, fs);
      FiveValues(s, fout[at..at + len], tw, st.inverse, f, fo, fs);
    }
    if FiveOnce(factors) {
      FiveBelow(factors);
      WorkRight(s, fout[at..at + len], tw, st.inverse, f, fo, fs, factors);
    }
  }

  // The transforms of the parts, one after the other.
  method WorkParts(fout: array<Cx>, at: nat, f: seq<Cx>, fo: nat, fs: nat, factors: seq<nat>, st: Cfg, ghost len: nat)
    requires |st.twiddles| >= 1 && Roots(st.twiddles, st.inverse) && factors != [] && Factors(factors, len)
        && factors[1] != 1
    requires Times(fs, len) == |st.twiddles| && at + len <= fout.Length && Readable(f, fo, fs, len)
    modifies fout
    ensures fout[..at] == old(fout[..at]) && fout[at + len..] == old(fout[at + len..])
    ensures factors[1] % 5 != 0 ==>
              PartsDone(fout[at..at + len], st.twiddles, f, fo, fs, factors[0], factors[1], factors[0])
    ensures FiveOnce(factors[2..]) ==> forall q :: 0 <= q < factors[0] ==>
      (PartRight(fout[at..at + len], st.twiddles, f, fo, fs, factors[0], factors[1], q) <==>
       Fitting(st.twiddles, f, fo + Times(q, fs), Times(fs, factors[0]), factors[2..]))
    decreases |factors|, 0
  {
    hide Roots, Times, Readable, IsTransform, PartsDone, PartRight, Combined, Coded, Fits, Fitting, FiveOnce;
    var p, m := factors[0], factors[1];
    ghost var tw, good, once := st.twiddles, m % 5 != 0, FiveOnce(factors[2..]);
    NoPartsYet(fout[at..at + len], tw, f, fo, fs, p, m);
    for q := 0 to p
      invariant fout[..at] == old(fout[..at]) && fout[at + len..] == old(fout[at + len..])
      invariant good ==> PartsDone(fout[at..at + len], tw, f, fo, fs, p, m, q)
      invariant once ==> forall j :: 0 <= j < q ==>
        (PartRight(fout[at..at + len], tw, f, fo, fs, p, m, j) <==>
         Fitting(tw, f, fo + Times(j, fs), Times(fs, p), factors[2..]))
    {
      ghost var before, s := fout[..], fout[at..at + len];
      ReadablePart(f, fo, fs, p, m, q);
      SubStage(fs, p, m);
      PartFits(p, m, q);
      KfWork(fout, at + Times(q, m), f, fo + Times(q, fs), Times(fs, p), factors[2..], st, m);
      OnePart(before, fout[..], at, Times(q, m), m, len);
      assert fout[..][at..at + len] == fout[at..at + len];
      if good {
        PartDone(s, fout[at..at + len], tw, f, fo, fs, p, m, q);
      }
      PartWritten(fout[at..at + len], tw, f, fo, fs, p, m, q);
      forall j | 0 <= j < q
        ensures PartRight(s, tw, f, fo, fs, p, m, j) <==> PartRight(fout[at..at + len], tw, f, fo, fs, p, m, j)
      {
        PartKept(s, fout[at..at + len], tw, f, fo, fs, p, m, q, j);
      }
    }
  }

  lemma FiveLength()
    ensures Times(5, 1) == 5
  {
  }

  // ---------- setting up and running ----------

  /** fft_alloc, given the table of the powers of the root; the square root that bounds the
      divisors tried need not be exact. */
  method FftAlloc(nfft: nat, inverse: bool, floorSqrt: nat, twiddles: seq<Cx>) returns (st: Cfg)
    requires nfft >= 1 && |twiddles| == nfft && Roots(twiddles, inverse)
    ensures Valid(st) && st.nfft == nfft && st.inverse == inverse && st.twiddles == twiddles
    ensures 2 <= nfft < Times(floorSqrt + 1, floorSqrt + 1) && nfft % 25 != 0 ==> FiveOnce(st.factors)
  {
    hide Roots, Times, Radices, Factors, FiveOnce;
    var factors;
    ghost var last;
    factors, last := KfFactor(nfft, floorSqrt);
    if 2 <= nfft < Times(floorSqrt + 1, floorSqrt + 1) && nfft % 25 != 0 {
      OnceWithout25(factors, nfft, last);
    }
    st := Cfg(nfft, inverse, factors, twiddles);
  }

  /** n maps to f(n) times the root to the power n * k. */
  ghost function Plain(tw: seq<Cx>, f: seq<Cx>, k: nat): nat -> Cx
    requires |tw| >= 1
  {
    (n: nat) => Mul(At(f, n), tw[n * k % |tw|])
  }

  /** Coefficient k of the discrete Fourier transform of f, by its definition. */
  ghost function Coefficient(tw: seq<Cx>, f: seq<Cx>, k: nat): Cx
    requires |tw| >= 1
  {
    Sum(|tw|, Plain(tw, f, k))
  }

  lemma TransformIsCoefficient(tw: seq<Cx>, f: seq<Cx>, k: nat)
    requires |tw| >= 1
    ensures Transform(tw, f, 0, 1, |tw|, k) == Coefficient(tw, f, k)
  {
    hide Mul, At;
    forall n: nat | n < |tw|
      ensures Term(tw, f, 0, 1, k)(n) == Plain(tw, f, k)(n)
    {
      assert Times(n, 1) == n && Times(1, Times(n, k)) == n * k;
    }
    SumEq(|tw|, Term(tw, f, 0, 1, k), Plain(tw, f, k));
  }

  /** Every output is its coefficient of the discrete Fourier transform of the input. */
  ghost predicate Right(out: seq<Cx>, tw: seq<Cx>, f: seq<Cx>)
    requires |tw| >= 1
  {
    |out| >= |tw| && forall k :: 0 <= k < |tw| ==> out[k] == Coefficient(tw, f, k)
  }

  /** fft: the output is right for every length without a factor of five, also when the transform is
      done in place. For the length five it is right exactly when the third and fourth inputs are the
      same and the second and fifth have the same imaginary part; for every length with one factor of
      five, exactly when what its radix-5 stage combines fits. */
  method Fft(st: Cfg, fin: array<Cx>, fout: array<Cx>)
    requires Valid(st) && fin.Length == st.nfft && fout.Length >= st.nfft
    modifies fout
    ensures st.nfft % 5 != 0 ==> Right(fout[..], st.twiddles, old(fin[..]))
    ensures st.factors == [5, 1] ==>
              |old(fin[..])| == 5 && (Right(fout[..], st.twiddles, old(fin[..])) <==> Fits(old(fin[..]), 0, 1))
    ensures FiveOnce(st.factors) ==>
              (Right(fout[..], st.twiddles, old(fin[..])) <==> Fitting(st.twiddles, old(fin[..]), 0, 1, st.factors))
    ensures fout[st.nfft..] == old(fout[st.nfft..])
  {
    hide Roots, Coefficient, IsTransform, Transform, Factors, Fits, Right, FiveOnce, Fitting;
    ghost var tw, n := st.twiddles, st.nfft;
    var f := fin[..];
    WholeReadable(f);
    if st.factors == [5, 1] {
      FiveFactors(n);
    }
    if fin == fout {
      var tmpbuf := new Cx[st.nfft](_ => ZERO);
      KfWork(tmpbuf, 0, f, 0, 1, st.factors, st, n);
      ghost var r := tmpbuf[0..0 + n];
      forall k | 0 <= k < fout.Length {
        fout[k] := tmpbuf[k];
      }
      assert fout[..] == r;
      Outputs(tw, f, r, fout[..]);
    } else {
      KfWork(fout, 0, f, 0, 1, st.factors, st, n);
      assert fout[0..0 + n] == fout[..][..n];
      Outputs(tw, f, fout[..][..n], fout[..]);
    }
  }

  lemma FiveFactors(n: nat)
    requires Factors([5, 1], n)
    ensures n == 5
  {
  }

  lemma WholeReadable(f: seq<Cx>)
    requires |f| >= 1
    ensures Readable(f, 0, 1, |f|) && Times(1, |f|) == |f|
  {
  }

  lemma Outputs(tw: seq<Cx>, f: seq<Cx>, r: seq<Cx>, out: seq<Cx>)
    requires |tw| >= 1 && |r| == |tw| <= |out| && r == out[..|tw|]
    ensures IsTransform(r, tw, f, 0, 1, |tw|) <==> Right(out, tw, f)
  {
    hide Transform, Coefficient;
    forall k: nat | k < |tw|
      ensures At(r, k) == out[k] && Transform(tw, f, 0, 1, |tw|, k) == Coefficient(tw, f, k)
    {
      TransformIsCoefficient(tw, f, k);
    }
  }
}
