/** The second half of decode_rs_char: Chien search for the roots of the locator, the error
    evaluator, and Forney's error values. */
module RsSearch {
  import opened Gf256
  import opened Polynomials
  import opened PowerSums
  import opened RsTables
  import opened RsLocator
  import opened RsErrors

  // ---------- evaluation from the top coefficient down ----------

  /** The part of p(x) due to the coefficients from i on. */
  ghost function Tail(p: seq<byte>, x: byte, i: nat): byte
    requires i <= |p|
  {
    Mul(Pow(x, i), Eval(p[i..], x))
  }

  lemma TailStep(p: seq<byte>, x: byte, i: nat)
    requires i < |p|
    ensures Tail(p, x, i) == Add(Mul(p[i], Pow(x, i)), Tail(p, x, i + 1))
  {
    hide Add, Mul, Eval;
    EvalCons(p[i..], x);
    assert p[i..][1..] == p[i + 1..];
    TailArith(Pow(x, i), p[i], x, Eval(p[i + 1..], x));
  }

  // w*(c + x*e) == c*w + (x*w)*e
  lemma TailArith(w: byte, c: byte, x: byte, e: byte)
    ensures Mul(w, Add(c, Mul(x, e))) == Add(Mul(c, w), Mul(Mul(x, w), e))
  {
    hide *;
    MulAddRight(w, c, Mul(x, e));
    MulComm(w, c);
    MulAssoc(w, x, e);
    MulComm(w, x);
  }

  lemma TailEnd(p: seq<byte>, x: byte)
    ensures Tail(p, x, |p|) == 0
    ensures Tail(p, x, 0) == Eval(p, x)
  {
    hide Add, Mul;
    MulZero(Pow(x, |p|));
    assert p[|p|..] == [] && p[0..] == p;
    MulOne(Eval(p, x));
  }

  /** The part of the derivative due to the coefficients after i, for even i. */
  ghost function DerivTail(p: seq<byte>, x: byte, i: nat): byte
  {
    if i < |p| then Mul(Pow(x, i), Deriv(p[i..], x)) else 0
  }

  lemma DerivTailStep(p: seq<byte>, x: byte, i: nat)
    requires i + 1 < |p|
    ensures DerivTail(p, x, i) == Add(Mul(p[i + 1], Pow(x, i)), DerivTail(p, x, i + 2))
  {
    hide Add, Mul;
    var w, t := Pow(x, i), p[i..];
    assert t[2..] == p[i + 2..];
    TailArith(w, p[i + 1], Mul(x, x), Deriv(t[2..], x));
    MulAssoc(x, x, w);
    assert Pow(x, i + 2) == Mul(x, Mul(x, w));
    if i + 2 == |p| {
      MulZero(Mul(Mul(x, x), w));
    }
  }

  lemma DerivTailEnd(p: seq<byte>, x: byte, i: nat)
    requires i + 1 >= |p| > 0
    ensures DerivTail(p, x, i) == 0
    ensures DerivTail(p, x, 0) == Deriv(p, x)
  {
    hide Add, Mul;
    MulZero(Pow(x, i));
    assert p[0..] == p;
    MulOne(Deriv(p, x));
  }

  // ---------- Chien search ----------

  /** Convert lambda to index form, in place, and find its degree. */
  method ToIndexForm(rs: Rs, lambda: array<byte>) returns (deg: nat)
    requires ValidTables(rs) && lambda.Length > 0
    modifies lambda
    ensures deg < lambda.Length
    ensures Unlogs(lambda[..]) == old(lambda[..])
    ensures forall i :: deg < i < lambda.Length ==> old(lambda[i]) == 0
    ensures deg > 0 ==> old(lambda[deg]) != 0
  {
    hide Alpha, Log, LogOf, Unlog;
    deg := 0;
    for i := 0 to lambda.Length
      invariant deg < lambda.Length && (deg == 0 || deg < i)
      invariant forall k :: 0 <= k < i ==> Unlog(lambda[k]) == old(lambda[k])
      invariant forall k :: i <= k < lambda.Length ==> lambda[k] == old(lambda[k])
      invariant forall k :: deg < k < i ==> old(lambda[k]) == 0
      invariant deg > 0 ==> old(lambda[deg]) != 0
    {
      UnlogLog(lambda[i]);
      lambda[i] := rs.indexOf[lambda[i]];
      if lambda[i] != NN {
        deg := i;
      }
    }
  }

  /** reg holds the terms of p at Alpha(i), in index form. */
  ghost predicate HoldsTerms(reg: seq<byte>, p: seq<byte>, i: nat)
  {
    |reg| >= |p| && forall j :: 1 <= j < |p| ==> Unlog(reg[j]) == Mul(p[j], Pow(Alpha(i), j))
  }

  lemma NextTerm(p: byte, i: nat, j: nat, r: byte)
    requires Unlog(r) == Mul(p, Pow(Alpha(i), j))
    ensures r == NN ==> Mul(p, Pow(Alpha(i + 1), j)) == 0
    ensures r != NN ==> Unlog((r + j) % NN) == Mul(p, Pow(Alpha(i + 1), j))
  {
    hide Alpha, Mul, Pow, Log;
    PowAlpha(i, j);
    PowAlpha(i + 1, j);
    assert (i + 1) * j == i * j + j;
    AlphaAdd(i * j, j);
    LogUnlog(r);
    if r == NN {
      AlphaNonzero(i * j);
      MulIsZero(p, Alpha(i * j));
      MulZero(Alpha((i + 1) * j));
    } else {
      AlphaMod(r + j);
      AlphaAdd(r, j);
      MulAssoc(p, Alpha(i * j), Alpha(j));
    }
  }

  /** Advance every term of reg to the next power of the generator and add them up. */
  method ChienStep(rs: Rs, reg: array<byte>, deg: nat, ghost p: seq<byte>, ghost i: nat) returns (q: byte)
    requires ValidTables(rs) && reg.Length > deg && |p| == deg + 1 && p[0] == 1
    requires HoldsTerms(reg[..], p, i)
    modifies reg
    ensures HoldsTerms(reg[..], p, i + 1)
    ensures q == Eval(p, Alpha(i + 1))
  {
    hide Alpha, Log, Mul, Add, LogOf, Unlog, Eval, Pow, Tail;
    ghost var x := Alpha(i + 1);
    q := 1;
    var j := deg;
    TailEnd(p, x);
    AddZero(1);
    while j > 0
      invariant 0 <= j <= deg
      invariant forall k :: 1 <= k <= j ==> reg[k] == old(reg[k])
      invariant forall k :: j < k <= deg ==> Unlog(reg[k]) == Mul(p[k], Pow(x, k))
      invariant q == Add(1, Tail(p, x, j + 1))
    {
      NextTerm(p[j], i, j, reg[j]);
      TailStep(p, x, j);
      ghost var t := Tail(p, x, j + 1);
      if reg[j] != NN {
        reg[j] := ModNN(reg[j] + j);
        q := Add(q, rs.alphaTo[reg[j]]);
        AddComm(Mul(p[j], Pow(x, j)), t);
        AddAssoc(1, t, Mul(p[j], Pow(x, j)));
      } else {
        LogUnlog(NN);
        AddZero(t);
      }
      j := j - 1;
    }
    TailStep(p, x, 0);
    ConstantTermOne(x);
  }

  lemma ConstantTermOne(x: byte)
    ensures Mul(1, Pow(x, 0)) == 1
  {
    MulOne(1);
  }

  /** What the search has stored after the first t steps: for every root met, the step folded to
      eight bits and the location number. */
  ghost predicate Stored(root: seq<nat>, loc: seq<nat>, p: seq<byte>, t: nat)
  {
    var met := RootsUpTo(p, t);
    && |root| == |loc| == |met|
    && forall m :: 0 <= m < |met| ==> root[m] == met[m] % 256 && loc[m] == (met[m] - 1) % 255
  }

  lemma StoredMore(root: seq<nat>, loc: seq<nat>, p: seq<byte>, t: nat)
    requires t > 0 && Stored(root, loc, p, t - 1)
    ensures Eval(p, Alpha(t)) != 0 ==> Stored(root, loc, p, t)
    ensures Eval(p, Alpha(t)) == 0 ==> Stored(root + [t % 256], loc + [(t - 1) % 255], p, t)
    ensures |RootsUpTo(p, t)| == |root| + if Eval(p, Alpha(t)) == 0 then 1 else 0
  {
    hide Eval, Alpha;
  }

  /** The search ends: the polynomial is not constant and has a root. */
  ghost predicate Ends(p: seq<byte>)
  {
    |p| > 1 && RootsUpTo(p, 255) != []
  }

  /** The steps at which the search meets its roots: as many as the degree, over as many laps as it takes. */
  ghost function Met(p: seq<byte>): (met: seq<nat>)
    requires Ends(p)
    ensures |met| == |p| - 1 && forall k :: 0 <= k < |met| ==> met[k] > 0
  {
    LapsOfRoots(p, |p| - 1);
    RootsUpTo(p, 255 * (|p| - 1))[..|p| - 1]
  }

  /** What is stored for a root: the step folded to eight bits. */
  ghost function Folded(met: seq<nat>): (root: seq<nat>)
    ensures |root| == |met| && forall k :: 0 <= k < |met| ==> root[k] == met[k] % 256
  {
    seq(|met|, (k: nat) requires k < |met| => met[k] % 256)
  }

  /** And the place of the error. */
  ghost function PlacesOf(met: seq<nat>): (loc: seq<nat>)
    requires forall k :: 0 <= k < |met| ==> met[k] > 0
    ensures |loc| == |met| && forall k :: 0 <= k < |met| ==> loc[k] == (met[k] - 1) % 255
  {
    seq(|met|, (k: nat) requires k < |met| => (met[k] - 1) % 255)
  }

  lemma MetIs(p: seq<byte>, last: nat)
    requires Ends(p) && |RootsUpTo(p, last)| == |p| - 1
    ensures RootsUpTo(p, last) == Met(p)
  {
    hide RootsUpTo, Eval, Alpha;
    var all := 255 * (|p| - 1);
    LapsOfRoots(p, |p| - 1);
    if last <= all {
      RootsGrow(p, last, all);
    } else {
      RootsGrow(p, all, last);
      assert RootsUpTo(p, last)[..|p| - 1] == RootsUpTo(p, last);
    }
  }

  // The step at which as many roots are met as the degree.
  lemma {:induction false} LastMet(p: seq<byte>, n: nat, hi: nat) returns (last: nat)
    requires |RootsUpTo(p, hi)| >= n
    ensures |RootsUpTo(p, last)| == n
    decreases hi
  {
    hide Eval, Alpha;
    if |RootsUpTo(p, hi)| == n {
      last := hi;
    } else {
      last := LastMet(p, n, hi - 1);
    }
  }

  lemma StoredMet(p: seq<byte>) returns (last: nat)
    requires Ends(p)
    ensures Stored(Folded(Met(p)), PlacesOf(Met(p)), p, last)
  {
    hide RootsUpTo, Eval, Alpha, Met;
    LapsOfRoots(p, |p| - 1);
    last := LastMet(p, |p| - 1, 255 * (|p| - 1));
    MetIs(p, last);
  }

  /** Chien search. The index i is eight bits wide and never exceeds its bound, so the loop is left
      only at the deg-th root. A constant has none, and a locator with fewer roots than its degree
      meets them again, a lap later. The steps made here are enough: when they do not end the
      search, then no step ever does. */
  method ChienSearch(rs: Rs, lambda: seq<byte>, deg: nat, ghost p: seq<byte>)
    returns (ended: bool, root: seq<nat>, loc: seq<nat>)
    requires ValidTables(rs) && deg < |lambda| && |p| == deg + 1 && p[0] == 1
    requires forall j :: 0 <= j <= deg ==> Unlog(lambda[j]) == p[j]
    ensures ended <==> Ends(p)
    ensures ended ==> root == Folded(Met(p)) && loc == PlacesOf(Met(p))
    ensures !ended ==> forall t {:trigger RootsUpTo(p, t)} :: |RootsUpTo(p, t)| == 0
  {
    hide Alpha, Log, Mul, Add, LogOf, Unlog, Eval, Pow, HoldsTerms, RootsUpTo, Stored, Met;
    var reg := new byte[|lambda|](j requires 0 <= j < |lambda| => lambda[j]);
    FirstTermsHeld(reg[..], p);
    ended, root, loc := false, [], [];
    ghost var last := 0;
    StoredNone(p);
    var t, i, k := 1, 1, 0;
    while t <= 255 * deg && !ended
      invariant 1 <= t <= 255 * deg + 1 && last == t - 1
      invariant i == t % 256 && k == (t - 1) % 255
      invariant HoldsTerms(reg[..], p, last)
      invariant Stored(root, loc, p, last)
      invariant |RootsUpTo(p, last)| == |root|
      invariant ended <==> deg > 0 && |root| == deg
      invariant deg > 0 ==> |root| <= deg
    {
      StoredMore(root, loc, p, t);
      var q := ChienStep(rs, reg, deg, p, last);
      if q == 0 {
        root := root + [i];
        loc := loc + [k];
        ended := |root| == deg;
      }
      t, last := t + 1, t;
      i, k := NextIndex(i, k, last);
    }
    SearchDecided(p, deg, last, ended);
    if ended {
      StoredIs(root, loc, p, last);
    }
  }

  lemma StoredIs(root: seq<nat>, loc: seq<nat>, p: seq<byte>, last: nat)
    requires Ends(p) && Stored(root, loc, p, last) && |RootsUpTo(p, last)| == |p| - 1
    ensures root == Folded(Met(p)) && loc == PlacesOf(Met(p))
  {
    hide RootsUpTo, Eval, Alpha, Met;
    MetIs(p, last);
  }

  /** i + 1 in eight bits, and k + 1 modulo 255. */
  method NextIndex(i: nat, k: nat, ghost t: nat) returns (i': nat, k': nat)
    requires t > 0 && i == t % 256 && k == (t - 1) % 255
    ensures i' == (t + 1) % 256 && k' == t % 255
  {
    i' := (i + 1) % 256;
    k' := ModNN(k + 1);
  }

  lemma FirstTermsHeld(reg: seq<byte>, p: seq<byte>)
    requires |reg| >= |p| && forall j :: 0 <= j < |p| ==> Unlog(reg[j]) == p[j]
    ensures HoldsTerms(reg, p, 0)
  {
    hide Alpha, Mul, Pow, Unlog;
    forall j | 1 <= j < |p|
      ensures Unlog(reg[j]) == Mul(p[j], Pow(Alpha(0), j))
    {
      FirstTerms(p[j], j);
    }
  }

  lemma StoredNone(p: seq<byte>)
    ensures Stored([], [], p, 0) && RootsUpTo(p, 0) == []
  {
    hide Eval, Alpha;
  }

  lemma SearchDecided(p: seq<byte>, deg: nat, last: nat, ended: bool)
    requires |p| == deg + 1 && p[0] == 1
    requires last <= 255 * deg && (ended || last == 255 * deg)
    requires ended <==> deg > 0 && |RootsUpTo(p, last)| == deg
    requires deg > 0 ==> |RootsUpTo(p, last)| <= deg
    ensures ended <==> deg > 0 && RootsUpTo(p, 255) != []
    ensures !ended ==> forall t {:trigger RootsUpTo(p, t)} :: |RootsUpTo(p, t)| == 0
  {
    hide RootsUpTo, Eval, Alpha;
    if deg == 0 {
      forall t: nat
        ensures |RootsUpTo(p, t)| == 0
      {
        ConstantNeverZero(p, t);
      }
    } else if RootsUpTo(p, 255) == [] {
      forall t: nat
        ensures |RootsUpTo(p, t)| == 0
      {
        NeverRoot(p, t);
      }
    } else {
      LapsOfRoots(p, deg);
    }
  }

  lemma {:induction false} ConstantNeverZero(p: seq<byte>, t: nat)
    requires |p| == 1 && p[0] == 1
    ensures RootsUpTo(p, t) == []
  {
    hide Eval, Alpha;
    if t == 0 {
    } else {
      ConstantNeverZero(p, t - 1);
      if Eval(p, Alpha(t)) == 0 {
        ConstantHasNoRoot(p, Alpha(t));
      }
    }
  }

  /** A polynomial without a root in the first lap has none in any. */
  lemma {:induction false} NeverRoot(p: seq<byte>, t: nat)
    requires RootsUpTo(p, 255) == []
    ensures RootsUpTo(p, t) == []
  {
    hide Eval, Alpha, RootsUpTo;
    if t <= 255 {
      RootsGrow(p, t, 255);
    } else {
      NeverRoot(p, t - 1);
      NeverRoot(p, t - 255);
      LapLater(p, t - 255);
    }
  }

  // One place is a root when the place a lap before it is.
  lemma LapLater(p: seq<byte>, t: nat)
    requires t > 0 && RootsUpTo(p, t) == [] && RootsUpTo(p, t + 254) == []
    ensures RootsUpTo(p, t + 255) == []
  {
    hide Eval, Alpha;
    SameAfterLap(t);
  }

  lemma SameAfterLap(t: nat)
    ensures Alpha(t + 255) == Alpha(t)
  {
    hide Alpha;
    AlphaCycle(t, 1);
  }

  /** A polynomial with a root meets one in every lap. */
  lemma {:induction false} LapsOfRoots(p: seq<byte>, laps: nat)
    requires RootsUpTo(p, 255) != []
    ensures |RootsUpTo(p, 255 * laps)| >= laps
    decreases laps
  {
    hide Eval, Alpha, RootsUpTo;
    if laps == 0 {
    } else {
      LapsOfRoots(p, laps - 1);
      LapAgain(p, laps - 1, 255);
    }
  }

  lemma {:induction false} LapAgain(p: seq<byte>, laps: nat, m: nat)
    ensures |RootsUpTo(p, 255 * laps + m)| == |RootsUpTo(p, 255 * laps)| + |RootsUpTo(p, m)|
    decreases m
  {
    hide Eval, Alpha;
    if m == 0 {
    } else {
      LapAgain(p, laps, m - 1);
      AlphaCycle(m, laps);
    }
  }

  // Every root up to m is listed.
  lemma {:induction false} RootListed(p: seq<byte>, m: nat, j: nat) returns (k: nat)
    requires 1 <= j <= m && Eval(p, Alpha(j)) == 0
    ensures k < |RootsUpTo(p, m)| && RootsUpTo(p, m)[k] == j
    decreases m
  {
    hide Eval, Alpha;
    if j == m {
      k := |RootsUpTo(p, m - 1)|;
    } else {
      k := RootListed(p, m - 1, j);
    }
  }

  lemma {:induction false} RootsIncreasing(p: seq<byte>, m: nat)
    ensures Increasing(RootsUpTo(p, m))
  {
    hide Eval, Alpha;
    if m == 0 {
    } else {
      RootsIncreasing(p, m - 1);
    }
  }

  /** The place stored for a root is the place of a root in the first lap. */
  lemma StoredPlace(root: seq<nat>, loc: seq<nat>, p: seq<byte>, last: nat, m: nat)
    requires Stored(root, loc, p, last) && m < |loc|
    ensures loc[m] < 255 && Eval(p, Alpha(loc[m] + 1)) == 0
  {
    hide Eval, Alpha;
    var t := RootsUpTo(p, last)[m];
    AlphaCycle(loc[m] + 1, (t - 1) / 255);
  }

  /** A search stores a place twice exactly when the first lap has too few roots. Otherwise it has
      stored the roots of the first lap in their order. */
  lemma FirstLap(root: seq<nat>, loc: seq<nat>, p: seq<byte>, last: nat)
    requires Stored(root, loc, p, last)
    ensures |RootsUpTo(p, 255)| < |loc| ==> !NoRepeat(loc)
    ensures |RootsUpTo(p, 255)| >= |loc| ==> root == RootsUpTo(p, 255)[..|loc|] && Increasing(loc)
    ensures |RootsUpTo(p, 255)| >= |loc| ==> forall m :: 0 <= m < |loc| ==> loc[m] == root[m] - 1
  {
    hide RootsUpTo, Eval, Alpha;
    var r := RootsUpTo(p, 255);
    RootsIncreasing(p, 255);
    if |r| < |loc| {
      RepeatedPlace(root, loc, p, last);
    } else if last <= 255 {
      RootsGrow(p, last, 255);
      AsStored(root, loc, p, last);
    } else {
      RootsGrow(p, 255, last);
      AsStored(root, loc, p, last);
    }
  }

  lemma AsStored(root: seq<nat>, loc: seq<nat>, p: seq<byte>, last: nat)
    requires Stored(root, loc, p, last) && |loc| <= |RootsUpTo(p, 255)|
    requires RootsUpTo(p, 255)[..|loc|] == RootsUpTo(p, last)
    requires Increasing(RootsUpTo(p, 255))
    ensures root == RootsUpTo(p, 255)[..|loc|] && Increasing(loc)
    ensures forall m :: 0 <= m < |loc| ==> loc[m] == root[m] - 1
  {
    hide Eval, Alpha;
    forall m | 0 <= m < |loc|
      ensures root[m] == RootsUpTo(p, 255)[m] && loc[m] == root[m] - 1
    {
      assert RootsUpTo(p, last)[m] == RootsUpTo(p, 255)[m];
    }
  }

  lemma RepeatedPlace(root: seq<nat>, loc: seq<nat>, p: seq<byte>, last: nat)
    requires Stored(root, loc, p, last) && |RootsUpTo(p, 255)| < |loc|
    ensures !NoRepeat(loc)
  {
    hide RootsUpTo, Eval, Alpha, Stored;
    var r := RootsUpTo(p, 255);
    assert |RootsUpTo(p, last)| == |loc| by {
      StoredCount(root, loc, p, last);
    }
    if last <= 255 {
      RootsGrow(p, last, 255);
    } else {
      RootsGrow(p, 255, last);
      StoredPlace(root, loc, p, last, |r|);
      var k := RootListed(p, 255, loc[|r|] + 1);
      assert RootsUpTo(p, last)[..|r|][k] == loc[|r|] + 1;
      StoredAt(root, loc, p, last, k);
      assert loc[k] == loc[|r|];
    }
  }

  lemma StoredCount(root: seq<nat>, loc: seq<nat>, p: seq<byte>, last: nat)
    requires Stored(root, loc, p, last)
    ensures |root| == |loc| == |RootsUpTo(p, last)|
  {
  }

  lemma StoredAt(root: seq<nat>, loc: seq<nat>, p: seq<byte>, last: nat, k: nat)
    requires Stored(root, loc, p, last) && k < |loc|
    ensures k < |RootsUpTo(p, last)| && loc[k] == (RootsUpTo(p, last)[k] - 1) % 255
  {
    hide RootsUpTo, Eval, Alpha;
  }

  lemma FirstTerms(c: byte, j: nat)
    ensures Mul(c, Pow(Alpha(0), j)) == c
  {
    hide Alpha, Mul, Pow;
    PowAlpha(0, j);
    AlphaZero();
    MulOne(c);
  }

  lemma ConstantHasNoRoot(p: seq<byte>, x: byte)
    requires |p| > 0 && p[0] == 1 && Eval(p, x) == 0
    ensures |p| > 1
  {
    hide Add, Mul;
    if |p| == 1 {
      MulZero(x);
      AddZero(1);
    }
  }

  lemma {:induction false} RootsGrow(p: seq<byte>, m: nat, n: nat)
    requires m <= n
    ensures |RootsUpTo(p, m)| <= |RootsUpTo(p, n)|
    ensures RootsUpTo(p, n)[..|RootsUpTo(p, m)|] == RootsUpTo(p, m)
    decreases n
  {
    hide Eval, Alpha;
    if m >= n {
    } else {
      RootsGrow(p, m, n - 1);
    }
  }
}
