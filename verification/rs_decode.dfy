/** decode_rs_char and il2p_decode_rs: bounded-distance decoding of a 255-symbol block in place. */
module RsDecode {
  import opened Gf256
  import opened Polynomials
  import opened PowerSums
  import opened BerlekampMassey
  import opened ErrorValues
  import opened RsTables
  import opened RsEncode
  import opened RsErrors
  import opened RsSoundness
  import opened RsLocator
  import opened RsSearch
  import opened RsOutcome

  // ---------- syndromes ----------

  /** Evaluate the block at the roots of the generator polynomial. */
  method Syndromes(rs: Rs, data: array<byte>) returns (s: array<byte>)
    requires Valid(rs) && data.Length == 255
    ensures fresh(s) && s.Length == rs.nroots && AreSyndromes(s[..], data[..])
  {
    hide Alpha, Log, Mul, Add, LogOf, Unlog, Horner, Gen;
    var n := rs.nroots;
    ghost var w := data[..];
    s := new byte[n](_ => 0);
    for i := 0 to n
      invariant forall k :: 0 <= k < i ==> s[k] == Horner(w, 1, Alpha(k))
    {
      HornerOne(w, Alpha(i));
      s[i] := data[0];
    }
    for j := 1 to 255
      invariant data[..] == w
      invariant forall k :: 0 <= k < n ==> s[k] == Horner(w, j, Alpha(k))
    {
      for i := 0 to n
        invariant data[..] == w
        invariant forall k :: 0 <= k < i ==> s[k] == Horner(w, j + 1, Alpha(k))
        invariant forall k :: i <= k < n ==> s[k] == Horner(w, j, Alpha(k))
      {
        HornerMore(w, j, Alpha(i));
        var h := s[i];
        if h == 0 {
          MulZero(Alpha(i));
          AddZero(data[j]);
          s[i] := data[j];
        } else {
          var m := ModNN(rs.indexOf[h] as int + i);
          IndexMul(h, i);
          AddComm(data[j], rs.alphaTo[m]);
          s[i] := Add(data[j], rs.alphaTo[m]);
        }
      }
    }
  }

  lemma HornerOne(w: seq<byte>, x: byte)
    requires |w| > 0
    ensures Horner(w, 1, x) == w[0]
  {
    assert Horner(w, 0, x) == 0;
    hide Add, Mul;
    MulZero(x);
    AddZero(w[0]);
  }

  lemma HornerMore(w: seq<byte>, j: nat, x: byte)
    requires j < |w|
    ensures Horner(w, j + 1, x) == Add(Mul(x, Horner(w, j, x)), w[j])
  {
  }

  /** Convert the syndromes to index form, noting whether any is nonzero. */
  method SyndromeIndex(rs: Rs, s: array<byte>) returns (idx: seq<byte>, anyError: bool)
    requires ValidTables(rs)
    modifies s
    ensures idx == s[..] && Unlogs(idx) == old(s[..])
    ensures !anyError <==> IsZero(old(s[..]))
  {
    hide Alpha, Log, LogOf, Unlog;
    anyError := false;
    for i := 0 to s.Length
      invariant !anyError <==> forall k :: 0 <= k < i ==> old(s[k]) == 0
      invariant forall k :: 0 <= k < i ==> Unlog(s[k]) == old(s[k])
      invariant forall k :: i <= k < s.Length ==> s[k] == old(s[k])
    {
      UnlogLog(s[i]);
      anyError := anyError || s[i] != 0;
      s[i] := rs.indexOf[s[i]];
    }
    idx := s[..];
  }

  // ---------- error evaluator ----------

  /** omega = s * lambda modulo z^nroots, in index form, and its degree. */
  method Evaluator(rs: Rs, s: seq<byte>, lambda: seq<byte>, deg: nat, ghost p: seq<byte>)
    returns (omega: array<byte>, degOmega: nat)
    requires ValidTables(rs) && 0 < |s| && deg < |lambda| && |p| == deg + 1
    requires forall j :: 0 <= j <= deg ==> Unlog(lambda[j]) == p[j]
    ensures fresh(omega) && omega.Length == |s| + 1 && degOmega < |s|
    ensures forall i :: 0 <= i < |s| ==> Unlog(omega[i]) == Conv(p, Unlogs(s), i)
    ensures forall i :: degOmega < i < |s| ==> Unlog(omega[i]) == 0
  {
    hide Alpha, Log, LogOf, Unlog, Mul, Add, Conv;
    var n := |s|;
    omega := new byte[n + 1](_ => NN);
    degOmega := 0;
    for i := 0 to n
      invariant degOmega < n && (degOmega == 0 || degOmega < i)
      invariant forall k :: 0 <= k < i ==> Unlog(omega[k]) == Conv(p, Unlogs(s), k)
      invariant forall k :: degOmega < k < i ==> Unlog(omega[k]) == 0
    {
      var tmp := EvaluatorCoefficient(rs, s, lambda, deg, i, p);
      if tmp != 0 {
        degOmega := i;
      }
      UnlogLog(tmp);
      omega[i] := rs.indexOf[tmp];
    }
    omega[n] := NN;
  }

  method EvaluatorCoefficient(rs: Rs, s: seq<byte>, lambda: seq<byte>, deg: nat, i: nat, ghost p: seq<byte>)
    returns (tmp: byte)
    requires ValidTables(rs) && i < |s| && deg < |lambda| && |p| == deg + 1
    requires forall j :: 0 <= j <= deg ==> Unlog(lambda[j]) == p[j]
    ensures tmp == Conv(p, Unlogs(s), i)
  {
    hide Alpha, Log, LogOf, Unlog, Mul, Add, Conv;
    ghost var f := ConvTerm(p, Unlogs(s), i);
    var top := if deg < i then deg else i;
    tmp := 0;
    var j := top;
    AddZero(Sum(top + 1, f));
    while j >= 0
      invariant -1 <= j <= top
      invariant Add(tmp, Sum(j + 1, f)) == Sum(top + 1, f)
    {
      var x := TableProduct(rs, lambda[j], s[i - j]);
      assert x == f(j);
      AddComm(Sum(j, f), x);
      AddAssoc(tmp, x, Sum(j, f));
      tmp := Add(tmp, x);
      j := j - 1;
    }
    AddZero(tmp);
    if deg < i {
      ConvTruncate(p, Unlogs(s), i, top + 1);
    } else {
      ConvIsSum(p, Unlogs(s), i);
    }
  }

  lemma ConvIsSum(p: seq<byte>, s: seq<byte>, j: nat)
    ensures Conv(p, s, j) == Sum(j + 1, ConvTerm(p, s, j))
  {
  }

  // ---------- error values ----------

  /** omega(x) at x = Alpha(root), from the top coefficient down. */
  method EvaluateOmega(rs: Rs, omega: array<byte>, degOmega: nat, root: nat, ghost om: seq<byte>) returns (num1: byte)
    requires ValidTables(rs) && degOmega < |om| <= omega.Length
    requires forall i :: 0 <= i < |om| ==> Unlog(omega[i]) == om[i]
    requires forall i :: degOmega < i < |om| ==> om[i] == 0
    ensures num1 == Eval(om, Alpha(root))
  {
    hide Alpha, Log, LogOf, Unlog, Mul, Add, Eval, Tail, Pow;
    ghost var x := Alpha(root);
    num1 := 0;
    TailEnd(om, x);
    ZeroTail(om, x, degOmega + 1);
    var i := degOmega;
    while i >= 0
      invariant -1 <= i <= degOmega
      invariant num1 == Tail(om, x, i + 1)
    {
      TailStep(om, x, i);
      var y := PowerProduct(rs, omega[i], i, root);
      AddComm(y, num1);
      num1 := Add(num1, y);
      i := i - 1;
    }
  }

  // The term of index form c at Alpha(root)^i, with the test for zero.
  method PowerProduct(rs: Rs, c: byte, i: nat, root: nat) returns (y: byte)
    requires ValidTables(rs)
    ensures y == Mul(Unlog(c), Pow(Alpha(root), i))
  {
    hide Alpha, Log, LogOf, Mul, Pow;
    PowAlpha(root, i);
    MulZero(Alpha(root * i));
    if c != NN {
      var m := ModNN(c as int + i * root);
      AlphaToMod(rs, c + i * root);
      assert i * root == root * i;
      AlphaAdd(c, root * i);
      y := rs.alphaTo[m];
    } else {
      y := 0;
    }
  }

  lemma {:induction false} ZeroTail(p: seq<byte>, x: byte, i: nat)
    requires i <= |p| && forall k :: i <= k < |p| ==> p[k] == 0
    ensures Tail(p, x, i) == 0
    decreases |p| - i
  {
    hide Add, Mul, Eval, Tail, Pow;
    if i == |p| {
      TailEnd(p, x);
    } else {
      ZeroTail(p, x, i + 1);
      TailStep(p, x, i);
      MulZero(Pow(x, i));
      AddZero(0);
    }
  }

  /** The derivative of lambda at Alpha(root): the odd coefficients, from the top down. */
  method EvaluateDerivative(rs: Rs, lambda: seq<byte>, deg: nat, nroots: nat, root: nat, ghost p: seq<byte>)
    returns (den: byte)
    requires ValidTables(rs) && |lambda| == nroots + 1 && 0 < deg <= nroots && |p| == deg + 1
    requires forall j :: 0 <= j <= nroots ==> Unlog(lambda[j]) == if j <= deg then p[j] else 0
    ensures den == Deriv(p, Alpha(root))
  {
    hide Alpha, Log, LogOf, Unlog, Mul, Add, Deriv, DerivTail, Pow;
    ghost var x := Alpha(root);
    den := 0;
    var top := if deg < nroots - 1 then deg else nroots - 1;
    var i := top - top % 2;
    DerivTailEnd(p, x, deg);
    DerivTailEnd(p, x, i + 2);
    while i >= 0
      invariant -2 <= i <= top && i % 2 == 0
      invariant den == DerivTail(p, x, i + 2)
    {
      var y := PowerProduct(rs, lambda[i + 1], i, root);
      if i + 1 <= deg {
        DerivTailStep(p, x, i);
        AddComm(y, den);
      } else {
        DerivTailEnd(p, x, i);
        DerivTailEnd(p, x, i + 2);
        MulZero(Pow(x, i));
        AddZero(0);
      }
      den := Add(den, y);
      i := i - 2;
    }
  }

  /** The value of the error whose locator has inverse Alpha(root); ok is false when the
      derivative vanishes there. */
  method ErrorValue(rs: Rs, lambda: seq<byte>, deg: nat, omega: array<byte>, degOmega: nat, root: nat,
                    ghost p: seq<byte>, ghost om: seq<byte>)
    returns (ok: bool, e: byte)
    requires Valid(rs) && |lambda| == rs.nroots + 1 && 0 < deg <= rs.nroots && |p| == deg + 1
    requires forall j :: 0 <= j <= rs.nroots ==> Unlog(lambda[j]) == if j <= deg then p[j] else 0
    requires degOmega < |om| <= omega.Length && root <= 255
    requires forall i :: 0 <= i < |om| ==> Unlog(omega[i]) == om[i]
    requires forall i :: degOmega < i < |om| ==> om[i] == 0
    ensures ok <==> Deriv(p, Alpha(root)) != 0
    ensures ok ==> IsValue(e, p, om, root)
  {
    hide Alpha, Log, LogOf, Unlog, Mul, Add, Deriv, Eval, Pow, Gen;
    var num1 := EvaluateOmega(rs, omega, degOmega, root, om);
    var k := ModNN(NN - root);
    AlphaToMod(rs, NN - root);
    var num2 := rs.alphaTo[k];
    var den := EvaluateDerivative(rs, lambda, deg, rs.nroots, root, p);
    ok := den != 0;
    e := 0;
    if num1 != 0 && ok {
      AlphaNonzero(NN - root);
      UnlogLog(num1);
      UnlogLog(num2);
      UnlogLog(den);
      var m := ModNN(rs.indexOf[num1] as int + rs.indexOf[num2] as int + NN - rs.indexOf[den] as int);
      QuotientOfProduct(num1, num2, den, m);
      e := rs.alphaTo[m];
    } else {
      MulZero(den);
      MulZero(num2);
    }
  }

  lemma QuotientOfProduct(a: byte, b: byte, d: byte, m: nat)
    requires a != 0 && b != 0 && d != 0
    requires m == (LogOf(a) + LogOf(b) + NN - LogOf(d)) % NN
    ensures m < NN && Mul(Unlog(m), d) == Mul(a, b)
  {
    hide Alpha, Mul, Log;
    var n := Log(a) + Log(b) + 255 - Log(d);
    AlphaMod(n);
    AlphaAdd(n, Log(d));
    AlphaAdd(Log(a), Log(b));
    AlphaCycle(Log(a) + Log(b), 1);
  }

  // ---------- decode_rs_char ----------

  // The loop of Apply, one place further.
  lemma CorrectionsNext(w: seq<byte>, p: seq<byte>, om: seq<byte>, met: seq<nat>, j: nat, d: seq<byte>, ok: bool,
                        e: byte, d': seq<byte>)
    requires |w| == |d| == |d'| == 255 && j < |met| && AllPositive(met)
    requires Corrections(w, p, om, met, j + 1) == (true, d)
    requires ok <==> Deriv(p, Alpha(met[j] % 256)) != 0
    requires ok ==> IsValue(e, p, om, met[j] % 256)
    requires d' == if ok then d[(met[j] - 1) % 255 := Add(d[(met[j] - 1) % 255], e)] else d
    ensures Corrections(w, p, om, met, j) == (ok, d')
  {
    hide Alpha, Add, Deriv, ValueAt, IsValue;
    if ok {
      ValueUnique(e, p, om, met[j] % 256);
    }
  }

  /** Add the error values at the located places, from the last to the first, and give up where the
      derivative vanishes. */
  method Apply(rs: Rs, data: array<byte>, lambda: seq<byte>, deg: nat, omega: array<byte>, degOmega: nat,
               root: seq<nat>, loc: seq<nat>, ghost p: seq<byte>, ghost om: seq<byte>, ghost met: seq<nat>)
    returns (ok: bool)
    requires Valid(rs) && data.Length == 255 && data != omega
    requires |lambda| == rs.nroots + 1 && 0 < deg <= rs.nroots && |p| == deg + 1
    requires forall j :: 0 <= j <= rs.nroots ==> Unlog(lambda[j]) == if j <= deg then p[j] else 0
    requires degOmega < |om| <= omega.Length
    requires forall i :: 0 <= i < |om| ==> Unlog(omega[i]) == om[i]
    requires forall i :: degOmega < i < |om| ==> om[i] == 0
    requires |met| == deg && AllPositive(met) && root == Folded(met) && loc == PlacesOf(met)
    modifies data
    ensures (ok, data[..]) == Corrections(old(data[..]), p, om, met, 0)
  {
    hide Alpha, Log, LogOf, Unlog, Mul, Add, Deriv, Eval, Gen, IsValue, Corrections;
    ghost var w := data[..];
    ok := true;
    var j := deg - 1;
    CorrectionsNone(w, p, om, met);
    while j >= 0 && ok
      invariant -1 <= j < deg
      invariant (ok, data[..]) == Corrections(w, p, om, met, j + 1)
    {
      ghost var d := data[..];
      var e;
      ok, e := ErrorValue(rs, lambda, deg, omega, degOmega, root[j], p, om);
      if ok {
        data[loc[j]] := Add(data[loc[j]], e);
      }
      CorrectionsNext(w, p, om, met, j, d, ok, e, data[..]);
      j := j - 1;
    }
    if !ok {
      CorrectionsStop(w, p, om, met, j + 1, 0);
    }
  }

  lemma CorrectionsNone(w: seq<byte>, p: seq<byte>, om: seq<byte>, met: seq<nat>)
    requires |w| == 255 && AllPositive(met)
    ensures Corrections(w, p, om, met, |met|) == (true, w)
  {
  }

  /** decode_rs_char: the outcome and the block are those of RsOutcome.Decoding, for every received block.
      Whenever the block is within reach of a codeword c, that is c, with the number and the places of the
      symbols changed. For every block, when the search never ends, when the decoder gives up and when it
      corrects to a codeword are stated by the syndromes alone, and a codeword reported is a nearest one. */
  method DecodeRsChar(rs: Rs, data: array<byte>) returns (out: Outcome)
    requires Valid(rs) && data.Length == 255
    modifies data
    ensures Decoded(out, data[..]) == Decoding(old(data[..]), rs.nroots)
    ensures forall c {:trigger DecodesTo(old(data[..]), c, rs.nroots)} :: DecodesTo(old(data[..]), c, rs.nroots) ==>
              data[..] == c && out == Corrected(Distance(c, old(data[..])), Diff(c, old(data[..]), 255))
    ensures Shortest(LengthOf(SyndromesOf(old(data[..]), rs.nroots)), SyndromesOf(old(data[..]), rs.nroots))
    ensures Answer(old(data[..]), data[..], out, rs.nroots, LengthOf(SyndromesOf(old(data[..]), rs.nroots)))
    ensures ExactlyWhen(old(data[..]), data[..], out, rs.nroots)
  {
    hide Alpha, Log, LogOf, Unlog, Mul, Add, Gen, Diff, Conv, Horner, Answer, Generates, DegreeAtMost, Massey,
        IsCodeword, DecodesTo, Corrections, Ends, Met, RootsUpTo, EvaluatorOf, ExactlyWhen, Shortest;
    ghost var w, n := data[..], rs.nroots;
    DecodingMeans(w, n);
    var s := Syndromes(rs, data);
    ghost var syn := s[..];
    assert syn == SyndromesOf(w, n);
    var idx, anyError := SyndromeIndex(rs, s);
    if !anyError {
      return Corrected(0, []);
    }
    var lambda;
    ghost var el;
    lambda, el := FindLocator(rs, idx);
    ghost var poly := lambda[..];
    var deg := ToIndexForm(rs, lambda);
    DegreeIs(poly, deg);
    out := Locate(rs, data, idx, lambda[..], deg, poly);
  }

  lemma DecodingMeans(w: seq<byte>, n: nat)
    requires |w| == 255 && 0 < n <= 255
    ensures forall c {:trigger DecodesTo(w, c, n)} :: DecodesTo(w, c, n) ==>
              Decoding(w, n) == Decoded(Corrected(Distance(c, w), Diff(c, w, 255)), c)
    ensures Shortest(LengthOf(SyndromesOf(w, n)), SyndromesOf(w, n))
    ensures Answer(w, Decoding(w, n).data, Decoding(w, n).out, n, LengthOf(SyndromesOf(w, n)))
    ensures ExactlyWhen(w, Decoding(w, n).data, Decoding(w, n).out, n)
  {
    hide Alpha, Horner, Diff, Distance, Answer, Decoding, Massey, IsCodeword, ExactlyWhen, Shortest;
    DecodingAnswer(w, n);
    DecodingExact(w, n);
    forall c | DecodesTo(w, c, n)
      ensures Decoding(w, n) == Decoded(Corrected(Distance(c, w), Diff(c, w, 255)), c)
    {
      DecodingWithin(w, c, n);
    }
  }

  // From the locator on: search, evaluate, correct.
  method Locate(rs: Rs, data: array<byte>, s: seq<byte>, lambda: seq<byte>, deg: nat, ghost poly: seq<byte>)
    returns (out: Outcome)
    requires Valid(rs) && data.Length == 255 && |s| == rs.nroots && |lambda| == |s| + 1
    requires deg < |lambda| && Unlogs(lambda) == poly && poly[0] == 1
    requires forall i :: deg < i < |poly| ==> poly[i] == 0
    modifies data
    ensures var p, w := poly[..deg + 1], old(data[..]);
      if !Ends(p) then out == NoEnd && data[..] == w
      else
        var r := Corrections(w, p, EvaluatorOf(p, Unlogs(s)), Met(p), 0);
        data[..] == r.1 && out == if r.0 then Corrected(deg, PlacesOf(Met(p))) else Failed
  {
    hide Alpha, Log, LogOf, Unlog, Mul, Add, Deriv, Eval, Gen, Conv, Met, RootsUpTo, IsValue, Corrections;
    ghost var p := poly[..deg + 1];
    var ended, root, loc := ChienSearch(rs, lambda, deg, p);
    if !ended {
      return NoEnd;
    }
    var omega, degOmega := Evaluator(rs, s, lambda, deg, p);
    var ok := Apply(rs, data, lambda, deg, omega, degOmega, root, loc, p, EvaluatorOf(p, Unlogs(s)), Met(p));
    out := if ok then Corrected(deg, loc) else Failed;
  }

  // ---------- il2p_decode_rs ----------

  lemma {:induction false} PaddedDiff(z: seq<byte>, a: seq<byte>, b: seq<byte>, m: nat)
    requires |a| == |b| && m <= |a|
    ensures |Diff(z + a, z + b, |z| + m)| == |Diff(a, b, m)|
    ensures forall k :: 0 <= k < |Diff(a, b, m)| ==> Diff(z + a, z + b, |z| + m)[k] == |z| + Diff(a, b, m)[k]
    decreases m
  {
    if m == 0 {
      PrefixSame(z, a, b, |z|);
    } else {
      PaddedDiff(z, a, b, m - 1);
    }
  }

  lemma {:induction false} PrefixSame(z: seq<byte>, a: seq<byte>, b: seq<byte>, m: nat)
    requires |a| == |b| && m <= |z|
    ensures Diff(z + a, z + b, m) == []
    decreases m
  {
    if m == 0 {
    } else {
      PrefixSame(z, a, b, m - 1);
    }
  }

  /** What a decoding function hands back: an error count or code, unless the search never ends. */
  datatype Verdict = Returns(e: int) | Loops

  /** rec is the encoded data with at most half as many wrong symbols as parity symbols. */
  ghost predicate WithinReach(data: seq<byte>, rec: seq<byte>, numParity: nat)
  {
    && 0 < numParity && |data| + numParity == |rec| <= BLOCK_SIZE
    && 2 * Distance(Encoded(data, numParity), rec) <= numParity
  }

  lemma ReachOfPadded(data: seq<byte>, rec: seq<byte>, numParity: nat)
    requires WithinReach(data, rec, numParity)
    ensures var z := Zeros(BLOCK_SIZE - |rec|);
      && DecodesTo(z + rec, z + Encoded(data, numParity), numParity)
      && Distance(z + Encoded(data, numParity), z + rec) == Distance(Encoded(data, numParity), rec)
      && forall k :: 0 <= k < |Diff(z + Encoded(data, numParity), z + rec, 255)| ==>
           Diff(z + Encoded(data, numParity), z + rec, 255)[k] >= |z|
  {
    hide Diff, IsCodeword, Encoded;
    EncodedIsCodeword(data, numParity);
    PaddedDiff(Zeros(BLOCK_SIZE - |rec|), Encoded(data, numParity), rec, |rec|);
  }

  /** What was encoded is within reach as it is, with no symbol to correct. */
  lemma EncodedWithinReach(data: seq<byte>, numParity: nat)
    requires 0 < numParity && |data| + numParity <= BLOCK_SIZE
    ensures WithinReach(data, Encoded(data, numParity), numParity)
    ensures Distance(Encoded(data, numParity), Encoded(data, numParity)) == 0
  {
    hide Encoded;
    SameDistance(Encoded(data, numParity));
  }

  lemma DecodedWithin(data: seq<byte>, rec: seq<byte>, n: nat, dataSize: nat, d: seq<byte>, out: Outcome)
    requires WithinReach(data, rec, n) && dataSize <= |rec| && |d| == BLOCK_SIZE
    requires forall c {:trigger DecodesTo(Zeros(BLOCK_SIZE - |rec|) + rec, c, n)} ::
      DecodesTo(Zeros(BLOCK_SIZE - |rec|) + rec, c, n) ==>
        d == c && out == Corrected(Distance(c, Zeros(BLOCK_SIZE - |rec|) + rec),
            Diff(c, Zeros(BLOCK_SIZE - |rec|) + rec, 255))
    ensures d[BLOCK_SIZE - |rec|..][..dataSize] == Encoded(data, n)[..dataSize]
    ensures out.Corrected? && out.count == Distance(Encoded(data, n), rec)
    ensures forall k :: 0 <= k < |out.locs| ==> out.locs[k] >= BLOCK_SIZE - |rec|
  {
    hide Diff, DecodesTo, Encoded, WithinReach;
    ReachOfPadded(data, rec, n);
  }

  /** A block within reach whose parity is asked for as such gives the data itself. */
  lemma EncodedData(data: seq<byte>, n: nat)
    requires 0 < n && |data| + n <= BLOCK_SIZE
    ensures Encoded(data, n)[..|data|] == data
  {
    hide Parity;
  }

  /** The corrected data differ from what was received at no more places than are reported. */
  lemma ReportedChanges(w: seq<byte>, d: seq<byte>, rec: seq<byte>, dataSize: nat, locs: seq<nat>)
    requires |w| == |d| == BLOCK_SIZE && |rec| <= BLOCK_SIZE && dataSize <= |rec| && w[BLOCK_SIZE - |rec|..] == rec
    requires forall i :: 0 <= i < 255 && i !in locs ==> d[i] == w[i]
    requires forall k :: 0 <= k < |locs| ==> locs[k] >= BLOCK_SIZE - |rec|
    ensures Distance(d[BLOCK_SIZE - |rec|..][..dataSize], rec[..dataSize]) <= |locs|
  {
    hide Distance;
    var pad := BLOCK_SIZE - |rec|;
    var out, ps := d[pad..][..dataSize], seq(|locs|, (k: nat) requires k < |locs| => locs[k] - pad);
    forall i | 0 <= i < dataSize && i !in ps
      ensures out[i] == rec[..dataSize][i]
    {
      assert forall k :: 0 <= k < |locs| ==> ps[k] in ps && locs[k] == ps[k] + pad;
      assert out[i] == d[i + pad] && w[pad..][i] == w[i + pad];
    }
    ChangesCount(out, rec[..dataSize], ps);
  }

  /** What a decoder makes of a shortened block: the data, and the count or the code. */
  datatype Clear = Clear(v: Verdict, data: seq<byte>)

  /** What il2p_decode_rs makes of rec: decoded behind zeros, it is a failure to correct one of them. */
  ghost function Clearing(rec: seq<byte>, dataSize: nat, numParity: nat): (r: Clear)
    requires dataSize <= |rec| <= BLOCK_SIZE
    ensures |r.data| == dataSize
  {
    var pad := BLOCK_SIZE - |rec|;
    var r := Decoding(Zeros(pad) + rec, CodecFor(numParity));
    Clear(VerdictOf(r.out, pad), r.data[pad..pad + dataSize])
  }

  ghost function VerdictOf(out: Outcome, pad: nat): Verdict
  {
    match out
    case NoEnd => Loops
    case Failed => Returns(-1)
    case Corrected(count, locs) => Returns(if exists k :: 0 <= k < |locs| && locs[k] < pad then -1 else count)
  }

  /** A block with at most half as many wrong symbols as parity symbols is cleared to what was encoded. */
  lemma ClearingWithin(data: seq<byte>, rec: seq<byte>, dataSize: nat, numParity: nat)
    requires dataSize <= |rec| <= BLOCK_SIZE && WithinReach(data, rec, CodecFor(numParity))
    ensures var block := Encoded(data, CodecFor(numParity));
      Clearing(rec, dataSize, numParity) == Clear(Returns(Distance(block, rec)), block[..dataSize])
  {
    hide Diff, IsCodeword, DecodesTo, Distance, WithinReach, Encoded, Answer, Decoding, Massey, ExactlyWhen, Shortest;
    var n, pad := CodecFor(numParity), BLOCK_SIZE - |rec|;
    var w := Zeros(pad) + rec;
    var r := Decoding(w, n);
    DecodingMeans(w, n);
    ReachData(data, rec, n);
    DecodedWithin(data, rec, n, dataSize, r.data, r.out);
    assert r.data[pad..][..dataSize] == r.data[pad..pad + dataSize];
  }

  /** Beyond that, the data differ from what was received at no more places than are reported, and not at
      all when the search never ends. */
  lemma ClearingReports(rec: seq<byte>, dataSize: nat, numParity: nat)
    requires dataSize <= |rec| <= BLOCK_SIZE
    ensures var r := Clearing(rec, dataSize, numParity);
      && (r.v.Loops? <==> Endless(Zeros(BLOCK_SIZE - |rec|) + rec, CodecFor(numParity)))
      && (r.v.Loops? ==> r.data == rec[..dataSize])
      && (r.v.Returns? ==> r.v.e >= -1)
      && (r.v.Returns? && r.v.e >= 0 ==> Distance(r.data, rec[..dataSize]) <= r.v.e)
  {
    hide Diff, IsCodeword, DecodesTo, Distance, Answer, Decoding, Massey, Endless, Shortest, LocatorOf, NoneVanishes;
    var n, pad := CodecFor(numParity), BLOCK_SIZE - |rec|;
    var w := Zeros(pad) + rec;
    var r := Decoding(w, n);
    DecodingMeans(w, n);
    AnswerParts(w, r.data, r.out, n, LengthOf(SyndromesOf(w, n)));
    assert r.data[pad..][..dataSize] == r.data[pad..pad + dataSize] && w[pad..] == rec;
    if r.out.Corrected? && forall k :: 0 <= k < |r.out.locs| ==> r.out.locs[k] >= pad {
      ReportedChanges(w, r.data, rec, dataSize, r.out.locs);
    }
  }

  /** il2p_decode_rs: what Clearing says, for every block. So the data as transmitted and the number of
      symbols corrected, whenever at most half as many symbols are wrong as the codec has parity symbols. */
  method Il2pDecodeRs(tab: seq<Rs>, recBlock: seq<byte>, dataSize: nat, numParity: nat, ghost data: seq<byte>)
    returns (out: seq<byte>, v: Verdict)
    requires ValidTab(tab) && dataSize + numParity == |recBlock| <= BLOCK_SIZE
    ensures Clear(v, out) == Clearing(recBlock, dataSize, numParity)
    ensures WithinReach(data, recBlock, CodecFor(numParity)) ==>
      var block := Encoded(data, CodecFor(numParity));
      out == block[..dataSize] && v == Returns(Distance(block, recBlock))
    ensures numParity in PARITY_CHOICES && WithinReach(data, recBlock, numParity) ==> out == data
    ensures v.Loops? <==> Endless(Zeros(BLOCK_SIZE - |recBlock|) + recBlock, CodecFor(numParity))
    ensures v.Loops? ==> out == recBlock[..dataSize]
    ensures v.Returns? ==> v.e >= -1
    ensures v.Returns? && v.e >= 0 ==> Distance(out, recBlock[..dataSize]) <= v.e
  {
    hide Diff, IsCodeword, Parity, DecodesTo, Valid, Distance, WithinReach, Encoded, Answer, Decoding, Clearing,
        Endless;
    out, v := ClearBlock(tab, recBlock, dataSize, numParity);
    ClearingReports(recBlock, dataSize, numParity);
    if WithinReach(data, recBlock, CodecFor(numParity)) {
      ClearingWithin(data, recBlock, dataSize, numParity);
      ReachData(data, recBlock, CodecFor(numParity));
    }
  }

  // The body of il2p_decode_rs.
  method ClearBlock(tab: seq<Rs>, recBlock: seq<byte>, dataSize: nat, numParity: nat)
    returns (out: seq<byte>, v: Verdict)
    requires ValidTab(tab) && dataSize + numParity == |recBlock| <= BLOCK_SIZE
    ensures Clear(v, out) == Clearing(recBlock, dataSize, numParity)
  {
    hide Diff, IsCodeword, DecodesTo, Valid, Distance, Answer, Decoding, Massey, ExactlyWhen, Shortest;
    var n := |recBlock|;
    var pad := BLOCK_SIZE - n;
    var rsBlock := new byte[BLOCK_SIZE](_ => 0);
    for i := 0 to n
      invariant forall k :: 0 <= k < pad ==> rsBlock[k] == 0
      invariant forall k :: 0 <= k < i ==> rsBlock[pad + k] == recBlock[k]
    {
      rsBlock[pad + i] := recBlock[i];
    }
    assert rsBlock[..] == Zeros(pad) + recBlock;
    var rs := FindRs(tab, numParity);
    var r := DecodeRsChar(rs, rsBlock);
    out := rsBlock[pad..pad + dataSize];
    assert out == rsBlock[..][pad..pad + dataSize];
    match r
    case NoEnd => v := Loops;
    case Failed => v := Returns(-1);
    case Corrected(count, locs) =>
      var padded := LocatesPadding(locs, pad);
      v := Returns(if padded then -1 else count);
  }

  lemma ReachData(data: seq<byte>, rec: seq<byte>, n: nat)
    requires WithinReach(data, rec, n)
    ensures 0 < n && |data| + n == |rec| <= BLOCK_SIZE && Encoded(data, n)[..|data|] == data
  {
    hide Distance, Encoded;
    EncodedData(data, n);
  }

  lemma AnswerParts(w: seq<byte>, d: seq<byte>, out: Outcome, n: nat, el: nat)
    requires |w| == |d| == 255 && Answer(w, d, out, n, el)
    ensures out.NoEnd? ==> d == w
    ensures out.Corrected? ==> out.count == |out.locs| && forall i :: 0 <= i < 255 && i !in out.locs ==> d[i] == w[i]
  {
    hide IsCodeword, Distance;
  }

  // Whether a correction landed in the zero padding.
  method LocatesPadding(locs: seq<nat>, pad: nat) returns (found: bool)
    ensures found <==> exists k :: 0 <= k < |locs| && locs[k] < pad
  {
    for i := 0 to |locs|
      invariant forall k :: 0 <= k < i ==> locs[k] >= pad
    {
      if locs[i] < pad {
        return true;
      }
    }
    return false;
  }
}
