/** The first half of decode_rs_char: the Berlekamp-Massey algorithm over arrays, with the
    syndromes, the helper b and the discrepancy in index form and lambda in polynomial form. */
module RsLocator {
  import opened Gf256
  import opened Polynomials
  import opened PowerSums
  import opened RsTables
  import opened BerlekampMassey

  ghost function Unlogs(idx: seq<byte>): (p: seq<byte>)
    ensures |p| == |idx|
    ensures forall i :: 0 <= i < |idx| ==> p[i] == Unlog(idx[i])
  {
    seq(|idx|, (i: nat) requires i < |idx| => Unlog(idx[i]))
  }

  // A product of two index forms through the tables, with the test for zero.
  method TableProduct(rs: Rs, i: byte, j: byte) returns (x: byte)
    requires ValidTables(rs)
    ensures x == Mul(Unlog(i), Unlog(j))
  {
    hide Alpha, Log, Mul;
    MulZero(Unlog(i));
    MulZero(Unlog(j));
    if i != NN && j != NN {
      var k := ModNN(i as int + j as int);
      TableMul(rs, i, j);
      x := rs.alphaTo[k];
    } else {
      x := 0;
    }
  }

  /** The discrepancy at the r-th step, in polynomial form. */
  method Discrepancy(rs: Rs, lambda: array<byte>, s: seq<byte>, r: nat) returns (d: byte)
    requires ValidTables(rs) && 0 < r <= |s| && lambda.Length == |s| + 1
    ensures d == Conv(lambda[..], Unlogs(s), r - 1)
  {
    hide Alpha, Log, Mul, Add, Unlog, LogOf;
    d := 0;
    ghost var p, f := lambda[..], ConvTerm(lambda[..], Unlogs(s), r - 1);
    for i := 0 to r
      invariant d == Sum(i, f)
    {
      UnlogLog(lambda[i]);
      var x := TableProduct(rs, rs.indexOf[lambda[i]], s[r - i - 1]);
      assert x == f(i) by {
        assert r - 1 - i == r - i - 1;
      }
      d := Add(d, x);
    }
  }

  /** b := z * b */
  method ShiftUp(b: array<byte>)
    requires b.Length > 0
    modifies b
    ensures Unlogs(b[..]) == Shift(Unlogs(old(b[..])))
  {
    hide Alpha, Log;
    var j := b.Length - 1;
    while j > 0
      invariant 0 <= j < b.Length
      invariant forall k :: 0 <= k <= j ==> b[k] == old(b[k])
      invariant forall k :: j < k < b.Length ==> b[k] == old(b[k - 1])
    {
      b[j] := b[j - 1];
      j := j - 1;
    }
    b[0] := NN;
    LogUnlog(NN);
  }

  /** t := lambda - discr * z * b */
  method Correct(rs: Rs, lambda: array<byte>, b: array<byte>, discr: byte) returns (t: array<byte>)
    requires ValidTables(rs) && lambda.Length == b.Length > 0
    ensures fresh(t) && IsCorrected(t[..], lambda[..], Unlogs(b[..]), Unlog(discr))
  {
    hide Alpha, Log, Mul, Add, Unlog, LogOf, Shift;
    t := new byte[lambda.Length](_ => 0);
    ghost var d, sb := Unlog(discr), Shift(Unlogs(b[..]));
    t[0] := lambda[0];
    MulZero(d);
    AddZero(lambda[0]);
    for i := 0 to lambda.Length - 1
      invariant forall k :: 0 <= k <= i ==> t[k] == Add(lambda[k], Mul(d, sb[k]))
    {
      assert sb[i + 1] == Unlog(b[i]);
      var x := TableProduct(rs, discr, b[i]);
      LogUnlog(b[i]);
      if b[i] != NN {
        t[i + 1] := Add(lambda[i + 1], x);
      } else {
        AddZero(lambda[i + 1]);
        t[i + 1] := lambda[i + 1];
      }
    }
  }

  /** b := lambda / discr, in index form. */
  method Normalize(rs: Rs, lambda: array<byte>, b: array<byte>, discr: byte)
    requires ValidTables(rs) && lambda.Length == b.Length && lambda != b && discr != NN
    modifies b
    ensures Unlog(discr) != 0
    ensures forall i :: 0 <= i < b.Length ==> Unlog(b[i]) == Mul(Inv(Unlog(discr)), lambda[i])
  {
    hide Alpha, Log, Mul, Inv, Unlog, LogOf;
    LogUnlog(discr);
    ghost var c := Inv(Unlog(discr));
    for i := 0 to b.Length
      invariant forall k :: 0 <= k < i ==> Unlog(b[k]) == Mul(c, lambda[k])
    {
      if lambda[i] == 0 {
        b[i] := NN;
        MulZero(c);
        LogUnlog(NN);
      } else {
        UnlogLog(lambda[i]);
        var k := ModNN(rs.indexOf[lambda[i]] as int - discr as int + NN);
        b[i] := k;
        QuotientIndex(lambda[i], discr, k);
      }
    }
  }

  lemma QuotientIndex(x: byte, d: byte, k: byte)
    requires x != 0 && d != NN && Unlog(d) != 0 && k == (LogOf(x) - d + NN) % NN
    ensures Unlog(k) == Mul(Inv(Unlog(d)), x)
  {
    hide Mul, Alpha, Inv, Log;
    var y, i := Unlog(d), Log(x) - d + 255;
    AlphaMod(i);
    AlphaAdd(d, i);
    AlphaCycle(Log(x), 1);
    // Alpha(d) * Alpha(k) == x
    MulAssoc(Inv(y), y, Unlog(k));
    MulOne(Unlog(k));
  }

  // Copy t over lambda.
  method CopyInto(t: array<byte>, lambda: array<byte>)
    requires t.Length == lambda.Length && t != lambda
    modifies lambda
    ensures lambda[..] == t[..]
  {
    for i := 0 to t.Length
      invariant forall k :: 0 <= k < i ==> lambda[k] == t[k]
    {
      lambda[i] := t[i];
    }
  }

  /** The r-th step of Berlekamp-Massey. */
  method Step(rs: Rs, s: seq<byte>, lambda: array<byte>, b: array<byte>, r: nat, el: nat) returns (el': nat)
    requires ValidTables(rs) && 0 < r <= |s| && lambda != b
    requires Progress(lambda[..], Unlogs(b[..]), el) == Massey(Unlogs(s), r - 1)
    modifies lambda, b
    ensures Progress(lambda[..], Unlogs(b[..]), el') == Massey(Unlogs(s), r)
  {
    hide Alpha, Log, Mul, Add, Unlog, LogOf, Shift, Conv, Inv;
    ghost var l0, b0 := lambda[..], Unlogs(b[..]);
    el' := el;
    var d := Discrepancy(rs, lambda, s, r);
    var discr := rs.indexOf[d];
    UnlogLog(d);
    if discr == NN {
      ShiftUp(b);
    } else {
      var t := Correct(rs, lambda, b, discr);
      assert t[..] == CorrectedBy(l0, b0, d);
      if 2 * el <= r - 1 {
        Normalize(rs, lambda, b, discr);
        assert Unlogs(b[..]) == Divided(l0, d);
        el' := r - el;
      } else {
        ShiftUp(b);
      }
      CopyInto(t, lambda);
    }
  }

  /** Berlekamp-Massey. The result is the locator of the syndromes, in an array of fixed length: it
      generates them all, and no generator is shorter. */
  method FindLocator(rs: Rs, s: seq<byte>) returns (lambda: array<byte>, ghost el: nat)
    requires ValidTables(rs) && 0 < |s|
    ensures fresh(lambda) && lambda.Length == |s| + 1
    ensures lambda[..] == Massey(Unlogs(s), |s|).lambda && el == LengthOf(Unlogs(s))
    ensures lambda[0] == 1 && el <= |s| && DegreeAtMost(lambda[..], el)
    ensures Generates(lambda[..], Unlogs(s), el, |s|)
    ensures NoneShorter(el, Unlogs(s))
  {
    hide Alpha, Log, Mul, Add, Unlog, LogOf, Advance, Conv, Inv;
    var n := |s|;
    ghost var syn := Unlogs(s);
    lambda := new byte[n + 1](_ => 0);
    lambda[0] := 1;
    var b := new byte[n + 1](_ => NN);
    for i := 0 to n + 1
      invariant lambda[0] == 1 && forall k :: 1 <= k <= n ==> lambda[k] == 0
      invariant forall k :: 0 <= k < i ==> b[k] == LogOf(lambda[k])
    {
      b[i] := rs.indexOf[lambda[i]];
    }
    UnlogLog(1);
    UnlogLog(0);
    assert lambda[..] == One(n + 1) && Unlogs(b[..]) == One(n + 1);
    var r := 1; // steps count from one
    var length := 0;
    while r <= n
      invariant 1 <= r <= n + 1 && 0 <= length
      invariant Progress(lambda[..], Unlogs(b[..]), length) == Massey(syn, r - 1)
    {
      length := Step(rs, s, lambda, b, r, length);
      r := r + 1;
    }
    el := length;
    ShortestFound(syn);
  }
}
