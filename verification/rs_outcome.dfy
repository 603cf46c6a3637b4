/** decode_rs_char as a function of the received block, and what it comes to: within reach the codeword,
    and beyond reach, exactly when it corrects to a codeword, gives up, or never ends. */
module RsOutcome {
  import opened Gf256
  import opened Polynomials
  import opened PowerSums
  import opened ErrorValues
  import opened BerlekampMassey
  import opened RsTables
  import opened RsEncode
  import opened RsErrors
  import opened RsSoundness
  import opened RsSearch

  /** What the decoder returns. NoEnd stands for the runs in which the Chien search meets no root and
      so never ends: its index is eight bits wide, and the loop bound never stops it. */
  datatype Outcome = Corrected(count: nat, locs: seq<nat>) | Failed | NoEnd

  /** What it leaves behind: the outcome and the block. */
  datatype Decoded = Decoded(out: Outcome, data: seq<byte>)

  // ---------- error values ----------

  /** e is the quotient that Forney's formula prescribes at Alpha(root). */
  ghost predicate IsValue(e: byte, p: seq<byte>, om: seq<byte>, root: nat)
    requires root <= 255
  {
    Mul(e, Deriv(p, Alpha(root))) == Mul(Eval(om, Alpha(root)), Alpha(255 - root))
  }

  /** That quotient. */
  ghost function ValueAt(p: seq<byte>, om: seq<byte>, root: nat): (e: byte)
    requires root <= 255 && Deriv(p, Alpha(root)) != 0
  {
    Mul(Mul(Eval(om, Alpha(root)), Alpha(255 - root)), Inv(Deriv(p, Alpha(root))))
  }

  lemma ValueUnique(e: byte, p: seq<byte>, om: seq<byte>, root: nat)
    requires root <= 255 && Deriv(p, Alpha(root)) != 0
    ensures IsValue(e, p, om, root) <==> e == ValueAt(p, om, root)
  {
    hide Alpha, Mul, Deriv, Eval, Inv;
    var d, x := Deriv(p, Alpha(root)), Mul(Eval(om, Alpha(root)), Alpha(255 - root));
    MulAssoc(x, Inv(d), d);
    MulComm(x, 1);
    MulOne(x);
    if IsValue(e, p, om, root) {
      MulAssoc(e, d, Inv(d));
      MulComm(e, 1);
      MulOne(e);
    }
  }

  // ---------- the decoder as a function ----------

  ghost function SyndromesOf(w: seq<byte>, n: nat): (s: seq<byte>)
    requires |w| == 255
    ensures |s| == n && AreSyndromes(s, w)
  {
    seq(n, (i: nat) => Horner(w, 255, Alpha(i)))
  }

  ghost function EvaluatorOf(p: seq<byte>, s: seq<byte>): (om: seq<byte>)
    ensures IsEvaluator(om, p, s)
  {
    seq(|s|, (i: nat) => Conv(p, s, i))
  }

  /** Add the values at the places of the roots met from k on, the last first, and stop where the
      derivative vanishes. Whether it did not, and the block. */
  ghost function Corrections(w: seq<byte>, p: seq<byte>, om: seq<byte>, met: seq<nat>, k: nat): (r: (bool, seq<byte>))
    requires |w| == 255 && k <= |met| && forall i :: 0 <= i < |met| ==> met[i] > 0
    ensures |r.1| == 255
    decreases |met| - k
  {
    if k == |met| then (true, w)
    else
      var r := Corrections(w, p, om, met, k + 1);
      if !r.0 || Deriv(p, Alpha(met[k] % 256)) == 0 then (false, r.1)
      else (true, Touched(r.1, (met[k] - 1) % 255, ValueAt(p, om, met[k] % 256)))
  }

  /** What the decoder makes of the block w with n parity symbols. */
  ghost function Decoding(w: seq<byte>, n: nat): (r: Decoded)
    requires |w| == 255
    ensures |r.data| == 255
  {
    var s := SyndromesOf(w, n);
    var p := LocatorOf(s);
    if IsZero(s) then Decoded(Corrected(0, []), w)
    else if !Ends(p) then Decoded(NoEnd, w)
    else
      var r := Corrections(w, p, EvaluatorOf(p, s), Met(p), 0);
      Decoded(if r.0 then Corrected(|p| - 1, PlacesOf(Met(p))) else Failed, r.1)
  }

  // ---------- within reach ----------

  /** What the search and the error values produce for a correctable block. */
  ghost predicate Located(p: seq<byte>, om: seq<byte>, c: seq<byte>, w: seq<byte>)
    requires |c| == |w| == 255
  {
    var ps := Diff(c, w, 255);
    && |p| == |ps| + 1 && |RootsUpTo(p, 255)| == |ps|
    && (forall k :: 0 <= k < |ps| ==> RootsUpTo(p, 255)[k] == ps[k] + 1)
    && forall k :: 0 <= k < |ps| ==>
      && Deriv(p, Alpha(ps[k] + 1)) != 0
      && Eval(om, Alpha(ps[k] + 1)) == Mul(Mul(Add(c[ps[k]], w[ps[k]]), Alpha(ps[k] + 1)), Deriv(p, Alpha(ps[k] + 1)))
  }

  lemma LocatorIsLocated(p: seq<byte>, om: seq<byte>, s: seq<byte>, c: seq<byte>, w: seq<byte>)
    requires Correctable(s, c, w)
    requires LocatorFor(p, Points(Diff(c, w, 255)), InversePoints(Diff(c, w, 255)))
    requires IsEvaluator(om, p, s)
    ensures Located(p, om, c, w)
  {
    hide Alpha, Add, Mul, Eval, Deriv, Conv, PowerSum, Horner, Diff;
    var ps := Diff(c, w, 255);
    var u, xs, ws := Errors(c, w, ps), Points(ps), InversePoints(ps);
    forall i: nat | 1 <= i <= 255
      ensures Eval(p, Alpha(i)) == 0 <==> c[i - 1] != w[i - 1]
    {
      LocatorRoots(p, c, w, i);
    }
    RootsAreErrors(p, c, w, 255);
    CorrectableSums(s, c, w);
    forall k | 0 <= k < |ps|
      ensures Deriv(p, Alpha(ps[k] + 1)) != 0
      ensures Eval(om, Alpha(ps[k] + 1)) ==
          Mul(Mul(Add(c[ps[k]], w[ps[k]]), Alpha(ps[k] + 1)), Deriv(p, Alpha(ps[k] + 1)))
    {
      assert ws[k] == Alpha(ps[k] + 1);
      DerivNonzero(p, xs, ws, k);
      Forney(om, p, s, u, xs, ws, k);
    }
  }

  // The computed value e, with e*d == (u*w*d)*x and x*w == 1, is the error u.
  lemma ErrorIsValue(e: byte, u: byte, d: byte, p: nat)
    requires p < 255 && d != 0
    requires Mul(e, d) == Mul(Mul(Mul(u, Alpha(p + 1)), d), Alpha(254 - p))
    ensures e == u
  {
    hide *;
    var w, x := Alpha(p + 1), Alpha(254 - p);
    AlphaAdd(p + 1, 254 - p);
    Alpha255();
    MulAssoc(Mul(u, w), d, x);
    MulComm(d, x);
    MulAssoc(Mul(u, w), x, d);
    MulAssoc(u, w, x);
    MulOne(u);
    // e*d == u*d
    MulAddLeft(e, u, d);
    AddSelf(Mul(u, d));
    MulIsZero(Add(e, u), d);
    AddIsZero(e, u);
  }

  /** c is a codeword that w can be decoded to: at most half as many symbols differ as there are
      parity symbols. */
  ghost predicate DecodesTo(w: seq<byte>, c: seq<byte>, nroots: nat)
  {
    |c| == |w| == 255 && IsCodeword(c, nroots) && 2 * Distance(c, w) <= nroots
  }

  /** Once the values are added, the block holds the codeword whose errors the locator locates. */
  lemma AppliedCorrects(p: seq<byte>, om: seq<byte>, c: seq<byte>, w: seq<byte>, d: seq<byte>, u: seq<byte>)
    requires |c| == |w| == 255 && Located(p, om, c, w)
    requires Patched(w, d, Diff(c, w, 255), u)
    requires forall k :: 0 <= k < |u| ==> IsValue(u[k], p, om, Diff(c, w, 255)[k] + 1)
    ensures d == c
  {
    hide Alpha, Mul, Add, Deriv, Eval, Diff, RootsUpTo;
    var ps := Diff(c, w, 255);
    forall i | 0 <= i < 255
      ensures d[i] == c[i]
    {
      if w[i] != c[i] {
        var k := DiffComplete(c, w, 255, i);
        ErrorIsValue(u[k], Add(c[i], w[i]), Deriv(p, Alpha(i + 1)), i);
        AddComm(c[i], w[i]);
        AddCancel(w[i], c[i]);
      } else {
        assert i !in ps;
      }
    }
  }

  /** el is the length of the shortest generators of s. */
  ghost predicate Shortest(el: nat, s: seq<byte>)
  {
    NoneShorter(el, s) && exists q :: Generator(q, el, s)
  }

  /** No codeword is nearer to a block than the shortest generator of its syndromes is long. */
  lemma NearestDistance(el: nat, w: seq<byte>, c: seq<byte>, n: nat)
    requires |w| == |c| == 255 && Shortest(el, SyndromesOf(w, n)) && IsCodeword(c, n)
    ensures el <= Distance(c, w)
  {
    hide Alpha, Mul, Add, Conv, Horner, Diff;
    var q := TrueLocator(SyndromesOf(w, n), c, w);
    assert Generator(q, Distance(c, w), SyndromesOf(w, n));
  }

  lemma ZeroSyndromes(w: seq<byte>, n: nat)
    requires |w| == 255
    ensures IsCodeword(w, n) <==> IsZero(SyndromesOf(w, n))
    ensures IsZero(SyndromesOf(w, n)) ==> Shortest(0, SyndromesOf(w, n))
  {
    hide Alpha, Mul, Add, Conv, Horner;
    var s := SyndromesOf(w, n);
    forall i: nat | i < n
      ensures s[i] == Horner(w, |w|, Alpha(i))
    {
    }
    if IsZero(s) {
      forall j: nat | j < n
        ensures Conv([1], s, j) == 0
      {
        ConvZero([1], s, j);
      }
      assert Generator([1], 0, s);
    }
  }

  lemma ConvZero(q: seq<byte>, s: seq<byte>, j: nat)
    requires IsZero(s)
    ensures Conv(q, s, j) == 0
  {
    hide Add, Mul, Sum;
    forall i: nat | i < j + 1
      ensures ConvTerm(q, s, j)(i) == 0
    {
      MulZero(Coef(q, i));
    }
    SumZero(j + 1, ConvTerm(q, s, j));
  }

  // A nonzero syndrome means the block is not the codeword itself.
  lemma SomeSyndrome(s: seq<byte>, c: seq<byte>, w: seq<byte>)
    requires DecodesTo(w, c, |s|) && AreSyndromes(s, w) && !IsZero(s) && |s| <= 255
    ensures Correctable(s, c, w)
  {
    hide Alpha, Horner, Diff;
    if Diff(c, w, 255) == [] {
      NoDiffSame(c, w);
      CodewordSyndromes(s, c);
    }
  }

  lemma CodewordSyndromes(s: seq<byte>, c: seq<byte>)
    requires |c| == 255 && IsCodeword(c, |s|) && AreSyndromes(s, c)
    ensures IsZero(s)
  {
    hide Alpha, Horner;
  }

  /** The outcome of searching the roots of p and applying the values there to w, which becomes d. */
  ghost predicate Applied(p: seq<byte>, s: seq<byte>, w: seq<byte>, d: seq<byte>, out: Outcome, u: seq<byte>)
    requires |p| > 0
  {
    && |w| == |d| == 255
    && (out.NoEnd? ==> d == w)
    && (out.Corrected? ==>
         && out.count == |out.locs| == |p| - 1 > 0
         && (forall i :: 0 <= i < 255 && i !in out.locs ==> d[i] == w[i])
         && (NoRepeat(out.locs) ==>
              && |RootsUpTo(p, 255)| >= |p| - 1 && Patched(w, d, out.locs, u)
              && forall k :: 0 <= k < |u| ==>
                   Eval(p, Alpha(out.locs[k] + 1)) == 0 && IsValue(u[k], p, EvaluatorOf(p, s), out.locs[k] + 1)))
    && (|RootsUpTo(p, 255)| >= |p| - 1 > 0
        && (forall r :: 1 <= r <= 255 && r in RootsUpTo(p, 255) ==> Deriv(p, Alpha(r)) != 0) ==>
         out.Corrected? && forall k :: 0 <= k < |out.locs| ==> out.locs[k] == RootsUpTo(p, 255)[k] - 1)
  }

  /** poly, of degree deg, is a shortest generator of the nonzero syndromes s of w, its length el. */
  ghost predicate Found(poly: seq<byte>, deg: nat, el: nat, s: seq<byte>, w: seq<byte>)
  {
    && |w| == 255 && 0 < |s| <= 255 && AreSyndromes(s, w) && !IsZero(s)
    && deg < |poly| == |s| + 1 && poly[0] == 1 && (deg > 0 ==> poly[deg] != 0)
    && (forall i :: deg < i < |poly| ==> poly[i] == 0)
    && el <= |s| && DegreeAtMost(poly, el) && Generates(poly, s, el, |s|) && NoneShorter(el, s)
  }

  // The locator of a block within reach of c is the locator of its errors against c.
  lemma FoundForReach(poly: seq<byte>, deg: nat, el: nat, s: seq<byte>, c: seq<byte>, w: seq<byte>)
    requires Found(poly, deg, el, s, w) && DecodesTo(w, c, |s|)
    ensures deg == |Diff(c, w, 255)| > 0
    ensures Located(poly[..deg + 1], EvaluatorOf(poly[..deg + 1], s), c, w)
  {
    hide Alpha, Mul, Add, Deriv, Eval, Diff, Conv, Horner, Located, IsCodeword, Generates;
    SomeSyndrome(s, c, w);
    var q := TrueLocator(s, c, w);
    var ps := Diff(c, w, 255);
    assert Generator(q, |ps|, s);
    FoundLocator(poly, el, s, c, w);
    assert deg == |ps|;
    LocatorIsLocated(poly[..deg + 1], EvaluatorOf(poly[..deg + 1], s), s, c, w);
  }

  lemma ReachedWithin(poly: seq<byte>, deg: nat, el: nat, s: seq<byte>, c: seq<byte>, w: seq<byte>, d: seq<byte>,
                      out: Outcome, u: seq<byte>)
    requires Found(poly, deg, el, s, w) && DecodesTo(w, c, |s|)
    requires Applied(poly[..deg + 1], s, w, d, out, u)
    ensures d == c && out == Corrected(Distance(c, w), Diff(c, w, 255))
  {
    hide Alpha, Mul, Add, Deriv, Eval, Diff, RootsUpTo, IsCodeword, Patched, IsValue, EvaluatorOf, Generates,
        NoneShorter;
    FoundForReach(poly, deg, el, s, c, w);
    var p := poly[..deg + 1];
    LocatedRoots(p, EvaluatorOf(p, s), c, w);
    assert out.locs == Diff(c, w, 255);
    AppliedCorrects(p, EvaluatorOf(p, s), c, w, d, u);
  }

  lemma LocatedRoots(p: seq<byte>, om: seq<byte>, c: seq<byte>, w: seq<byte>)
    requires |c| == |w| == 255 && Located(p, om, c, w)
    ensures |RootsUpTo(p, 255)| == |Diff(c, w, 255)| == |p| - 1
    ensures forall k :: 0 <= k < |Diff(c, w, 255)| ==> RootsUpTo(p, 255)[k] - 1 == Diff(c, w, 255)[k]
    ensures forall r :: 1 <= r <= 255 && r in RootsUpTo(p, 255) ==> Deriv(p, Alpha(r)) != 0
  {
    hide Alpha, Mul, Add, Deriv, Eval, Diff, RootsUpTo;
  }

  /** What the decoder leaves behind: the block d and the outcome out, for the block w. */
  ghost predicate Answer(w: seq<byte>, d: seq<byte>, out: Outcome, n: nat, el: nat)
    requires |w| == |d| == 255
  {
    && (out == Corrected(0, []) <==> IsCodeword(w, n))
    && (out.NoEnd? ==> d == w)
    && (out.Corrected? ==>
         && out.count == |out.locs| <= n
         && (forall i :: 0 <= i < 255 && i !in out.locs ==> d[i] == w[i])
         && (IsCodeword(d, n) <==> out.count == el && NoRepeat(out.locs))
         && (IsCodeword(d, n) ==> Distance(d, w) == el))
  }

  lemma AnswerGiven(poly: seq<byte>, deg: nat, el: nat, s: seq<byte>, w: seq<byte>, d: seq<byte>, out: Outcome,
                    u: seq<byte>)
    requires Found(poly, deg, el, s, w) && Applied(poly[..deg + 1], s, w, d, out, u)
    ensures Answer(w, d, out, |s|, el)
  {
    hide Alpha, Mul, Add, Deriv, Eval, Diff, Conv, Horner, RootsUpTo, IsCodeword, Patched, IsValue, EvaluatorOf,
        Generates;
    if IsCodeword(w, |s|) {
      CodewordSyndromes(s, w);
    }
    if out.Corrected? {
      ChangesCount(d, w, out.locs);
      if IsCodeword(d, |s|) {
        var q := TrueLocator(s, d, w);
        assert Generator(q, Distance(d, w), s);
        DegreeBound(poly, deg, el);
      }
      if out.count == el && NoRepeat(out.locs) {
        SoundWithin(poly, deg, el, s, w, d, out, u);
      }
    }
  }

  lemma DegreeBound(poly: seq<byte>, deg: nat, el: nat)
    requires deg < |poly| && (deg > 0 ==> poly[deg] != 0) && DegreeAtMost(poly, el)
    ensures deg <= el
  {
  }

  // A locator of degree el with el places found makes the block a codeword.
  lemma SoundWithin(poly: seq<byte>, deg: nat, el: nat, s: seq<byte>, w: seq<byte>, d: seq<byte>, out: Outcome,
                    u: seq<byte>)
    requires Found(poly, deg, el, s, w) && Applied(poly[..deg + 1], s, w, d, out, u)
    requires out.Corrected? && out.count == el && NoRepeat(out.locs)
    ensures IsCodeword(d, |s|)
  {
    hide Alpha, Mul, Add, Deriv, Eval, Conv, Horner, RootsUpTo, IsCodeword, IsValue;
    var p, ps := poly[..deg + 1], out.locs;
    var om := EvaluatorOf(p, s);
    PointsInverse(ps);
    forall j: nat | el <= j < |s|
      ensures Conv(p, s, j) == 0
    {
      ConvPrefix(poly, deg + 1, s, j);
    }
    ValuesAtPlaces(u, om, p, ps);
    ValuesGiveSyndromes(s, u, om, p, Points(ps), InversePoints(ps));
    PatchedIsCodeword(w, d, ps, u, s);
  }

  lemma ValuesAtPlaces(u: seq<byte>, om: seq<byte>, p: seq<byte>, ps: seq<nat>)
    requires |u| == |ps| && forall k :: 0 <= k < |ps| ==> ps[k] < 255
    requires forall k :: 0 <= k < |u| ==> IsValue(u[k], p, om, ps[k] + 1)
    ensures ValuesFor(u, om, p, Points(ps), InversePoints(ps))
  {
    hide Alpha, Mul, Deriv, Eval;
  }

  lemma OnlyItself(s: seq<byte>, c: seq<byte>, w: seq<byte>)
    requires DecodesTo(w, c, |s|) && AreSyndromes(s, w) && IsZero(s)
    ensures c == w && Diff(c, w, 255) == []
  {
    hide Alpha, Horner, Diff;
    NoSyndromeNoError(s, c, w);
    NoDiffSame(c, w);
  }

  lemma UnchangedAnswer(w: seq<byte>, n: nat)
    requires |w| == 255 && IsCodeword(w, n)
    ensures Answer(w, w, Corrected(0, []), n, 0)
  {
    hide Alpha, Horner;
    SameDistance(w);
  }

  lemma NotEndedApplied(p: seq<byte>, s: seq<byte>, w: seq<byte>)
    requires |w| == 255 && |p| > 0 && (|p| > 1 ==> RootsUpTo(p, 255) == [])
    ensures Applied(p, s, w, w, NoEnd, [])
  {
  }

  lemma EndedApplied(p: seq<byte>, s: seq<byte>, w: seq<byte>, d: seq<byte>, root: seq<nat>, loc: seq<nat>, last: nat,
                     ok: bool, u: seq<byte>)
    requires |w| == |d| == 255 && |loc| == |root| == |p| - 1 > 0 && Stored(root, loc, p, last)
    requires forall k :: 0 <= k < |loc| ==> root[k] <= 255 && loc[k] < 255
    requires ok <==> forall k :: 0 <= k < |root| ==> Deriv(p, Alpha(root[k])) != 0
    requires forall i :: 0 <= i < 255 && i !in loc ==> d[i] == w[i]
    requires ok ==> |u| == |loc|
    requires ok ==> forall k :: 0 <= k < |loc| ==> IsValue(u[k], p, EvaluatorOf(p, s), root[k])
    requires ok && NoRepeat(loc) ==> forall k :: 0 <= k < |loc| ==> d[loc[k]] == Add(w[loc[k]], u[k])
    ensures Applied(p, s, w, d, if ok then Corrected(|p| - 1, loc) else Failed, u)
  {
    hide Alpha, Mul, Add, Deriv, Eval, Conv, Stored, IsValue, RootsUpTo, EvaluatorOf;
    FirstLap(root, loc, p, last);
    if |RootsUpTo(p, 255)| >= |loc| {
      RootsFound(p, root, loc);
    }
  }

  lemma RootsFound(p: seq<byte>, root: seq<nat>, loc: seq<nat>)
    requires |root| == |loc| <= |RootsUpTo(p, 255)| && root == RootsUpTo(p, 255)[..|loc|]
    requires forall m :: 0 <= m < |loc| ==> loc[m] == root[m] - 1
    ensures forall k :: 0 <= k < |loc| ==> root[k] == RootsUpTo(p, 255)[k] == loc[k] + 1
    ensures forall k :: 0 <= k < |loc| ==> root[k] in RootsUpTo(p, 255) && Eval(p, Alpha(root[k])) == 0
  {
    hide Alpha, Eval;
    forall k | 0 <= k < |loc|
      ensures root[k] == RootsUpTo(p, 255)[k] && root[k] in RootsUpTo(p, 255)
    {
      assert root[k] == RootsUpTo(p, 255)[..|loc|][k];
    }
  }

  // ---------- the corrections, one by one ----------

  ghost predicate AllPositive(met: seq<nat>)
  {
    forall k :: 0 <= k < |met| ==> met[k] > 0
  }

  /** The derivative vanishes at no root met from k on. */
  ghost predicate NoneVanishes(p: seq<byte>, met: seq<nat>, k: nat)
  {
    forall j :: k <= j < |met| ==> Deriv(p, Alpha(met[j] % 256)) != 0
  }

  lemma {:induction false} CorrectionsSound(w: seq<byte>, p: seq<byte>, om: seq<byte>, met: seq<nat>, k: nat)
    requires |w| == 255 && k <= |met| && AllPositive(met)
    ensures Corrections(w, p, om, met, k).0 <==> NoneVanishes(p, met, k)
    decreases |met| - k
  {
    hide Alpha, Deriv, ValueAt, Touched;
    if k == |met| {
    } else {
      CorrectionsSound(w, p, om, met, k + 1);
    }
  }

  // Once stopped, nothing more is added.
  lemma {:induction false} CorrectionsStop(w: seq<byte>, p: seq<byte>, om: seq<byte>, met: seq<nat>, k: nat, j: nat)
    requires |w| == 255 && j <= k <= |met| && AllPositive(met) && !Corrections(w, p, om, met, k).0
    ensures Corrections(w, p, om, met, j) == Corrections(w, p, om, met, k)
    decreases k - j
  {
    hide Alpha, Deriv, ValueAt, Touched;
    if j == k {
    } else {
      CorrectionsStop(w, p, om, met, k, j + 1);
    }
  }

  lemma {:induction false} CorrectionsElsewhere(w: seq<byte>, p: seq<byte>, om: seq<byte>, met: seq<nat>, k: nat,
                                                i: nat)
    requires |w| == 255 && k <= |met| && AllPositive(met)
    requires i < 255 && forall j :: k <= j < |met| ==> PlacesOf(met)[j] != i
    ensures Corrections(w, p, om, met, k).1[i] == w[i]
    decreases |met| - k
  {
    hide Alpha, Deriv, ValueAt;
    if k == |met| {
    } else {
      CorrectionsElsewhere(w, p, om, met, k + 1, i);
      assert PlacesOf(met)[k] != i;
    }
  }

  lemma {:induction false} CorrectionsThere(w: seq<byte>, p: seq<byte>, om: seq<byte>, met: seq<nat>, k: nat, i: nat)
    requires |w| == 255 && k <= i < |met| && AllPositive(met) && NoRepeat(PlacesOf(met)) && NoneVanishes(p, met, k)
    ensures Corrections(w, p, om, met, k).1[PlacesOf(met)[i]]
         == Add(w[PlacesOf(met)[i]], ValueAt(p, om, met[i] % 256))
    decreases |met| - k
  {
    hide Alpha, Deriv, ValueAt, Add;
    CorrectionsSound(w, p, om, met, k + 1);
    if i == k {
      CorrectionsElsewhere(w, p, om, met, k + 1, PlacesOf(met)[k]);
    } else {
      CorrectionsThere(w, p, om, met, k + 1, i);
      assert PlacesOf(met)[k] != PlacesOf(met)[i];
    }
  }

  ghost function ValuesAt(p: seq<byte>, om: seq<byte>, met: seq<nat>): (u: seq<byte>)
    requires NoneVanishes(p, met, 0)
    ensures |u| == |met| && forall k :: 0 <= k < |u| ==> u[k] == ValueAt(p, om, met[k] % 256)
  {
    seq(|met|, (k: nat) requires k < |met| => ValueAt(p, om, met[k] % 256))
  }

  // What the corrections come to, in the terms of Applied.
  lemma CorrectionsApplied(w: seq<byte>, p: seq<byte>, s: seq<byte>) returns (u: seq<byte>)
    requires |w| == 255 && Ends(p)
    ensures var r := Corrections(w, p, EvaluatorOf(p, s), Met(p), 0);
      Applied(p, s, w, r.1, if r.0 then Corrected(|p| - 1, PlacesOf(Met(p))) else Failed, u)
  {
    hide Alpha, Mul, Add, Deriv, Eval, Stored, IsValue, ValueAt, EvaluatorOf, Met, RootsUpTo, Applied;
    var met, om := Met(p), EvaluatorOf(p, s);
    var root, loc, r := Folded(met), PlacesOf(met), Corrections(w, p, om, met, 0);
    var last := StoredMet(p);
    CorrectionsSound(w, p, om, met, 0);
    forall i | 0 <= i < 255 && i !in loc
      ensures r.1[i] == w[i]
    {
      CorrectionsElsewhere(w, p, om, met, 0, i);
    }
    u := [];
    if r.0 {
      u := ValuesAt(p, om, met);
      forall k | 0 <= k < |met|
        ensures IsValue(u[k], p, om, root[k])
        ensures NoRepeat(loc) ==> r.1[loc[k]] == Add(w[loc[k]], u[k])
      {
        ValueUnique(u[k], p, om, root[k]);
        if NoRepeat(loc) {
          CorrectionsThere(w, p, om, met, 0, k);
        }
      }
    }
    EndedApplied(p, s, w, r.1, root, loc, last, r.0, u);
  }

  // ---------- what the decoder comes to ----------

  lemma LocatorFound(s: seq<byte>, w: seq<byte>)
    requires |w| == 255 && 0 < |s| <= 255 && AreSyndromes(s, w) && !IsZero(s)
    ensures Found(Massey(s, |s|).lambda, Degree(Massey(s, |s|).lambda), LengthOf(s), s, w)
  {
    hide Alpha, Horner, Conv, Massey;
    ShortestFound(s);
    DegreeLast(Massey(s, |s|).lambda);
  }

  lemma DecodingApplied(w: seq<byte>, n: nat) returns (u: seq<byte>)
    requires |w| == 255 && !IsZero(SyndromesOf(w, n))
    ensures var s, r := SyndromesOf(w, n), Decoding(w, n); Applied(LocatorOf(s), s, w, r.data, r.out, u)
  {
    hide Alpha, Horner, Deriv, Eval, Applied, Corrections, EvaluatorOf, Met, RootsUpTo, LocatorOf;
    var s := SyndromesOf(w, n);
    var p := LocatorOf(s);
    u := [];
    if Ends(p) {
      u := CorrectionsApplied(w, p, s);
    } else {
      NotEndedApplied(p, s, w);
    }
  }

  /** Whenever the block is within reach of a codeword, the decoder ends with that codeword and the
      number and the places of the symbols it changed. */
  lemma DecodingWithin(w: seq<byte>, c: seq<byte>, n: nat)
    requires 0 < n <= 255 && DecodesTo(w, c, n)
    ensures Decoding(w, n) == Decoded(Corrected(Distance(c, w), Diff(c, w, 255)), c)
  {
    hide Alpha, Horner, Diff, Applied, Found, IsCodeword, Massey, Corrections, RootsUpTo, Met, EvaluatorOf;
    var s := SyndromesOf(w, n);
    if IsZero(s) {
      OnlyItself(s, c, w);
    } else {
      LocatorFound(s, w);
      var poly := Massey(s, n).lambda;
      var u := DecodingApplied(w, n);
      ReachedWithin(poly, Degree(poly), LengthOf(s), s, c, w, Decoding(w, n).data, Decoding(w, n).out, u);
    }
  }

  /** What is reported as corrected differs from the block at the places reported only, and is a codeword
      exactly when no place is reported twice and their number is the length of the shortest generator
      of the syndromes, which is not compared with the degree of the locator. */
  lemma DecodingAnswer(w: seq<byte>, n: nat)
    requires |w| == 255 && 0 < n <= 255
    ensures Shortest(LengthOf(SyndromesOf(w, n)), SyndromesOf(w, n))
    ensures Answer(w, Decoding(w, n).data, Decoding(w, n).out, n, LengthOf(SyndromesOf(w, n)))
  {
    hide Alpha, Horner, Answer, Applied, Found, IsCodeword, Massey, Corrections, RootsUpTo, Met, EvaluatorOf, Generates;
    var s := SyndromesOf(w, n);
    var poly := Massey(s, n).lambda;
    ShortestFound(s);
    assert Generator(poly, LengthOf(s), s);
    ZeroSyndromes(w, n);
    if IsZero(s) {
      UnchangedAnswer(w, n);
      ZeroLength(s);
    } else {
      LocatorFound(s, w);
      var u := DecodingApplied(w, n);
      AnswerGiven(poly, Degree(poly), LengthOf(s), s, w, Decoding(w, n).data, Decoding(w, n).out, u);
    }
  }

  // Only zero syndromes are generated from the start.
  lemma ZeroLength(s: seq<byte>)
    ensures LengthOf(s) == 0 <==> IsZero(s)
  {
    hide Massey, Conv;
    ShortestFound(s);
    var p := Massey(s, |s|).lambda;
    if IsZero(s) {
      forall j: nat | j < |s|
        ensures Conv([1], s, j) == 0
      {
        ConvZero([1], s, j);
      }
      assert Generator([1], 0, s);
    } else if LengthOf(s) == 0 {
      var z := Zeros(|s|);
      forall j: nat | j < |s|
        ensures Conv(p, s, j) == Conv(p, z, j)
      {
        ConvZero(p, z, j);
      }
      ConvInjective(p, s, z, |s|);
    }
  }

  // A locator has no more roots than its degree.
  lemma RootsAtMost(p: seq<byte>)
    requires p != [] && p[0] == 1
    ensures |RootsUpTo(p, 255)| < |p|
  {
    hide Alpha, Eval, RootsUpTo;
    var r := RootsUpTo(p, 255);
    if |r| >= |p| {
      var xs := seq(|r|, (k: nat) requires k < |r| => Alpha(r[k]));
      RootsIncreasing(p, 255);
      forall i, j | 0 <= i < j < |xs|
        ensures xs[i] != xs[j]
      {
        AlphaDiffers(r[i], r[j]);
      }
      TooManyRoots(p, xs);
    }
  }

  // With all its roots in one lap, the derivative vanishes at none of them, and no place is listed twice.
  lemma FullRoots(p: seq<byte>)
    requires Ends(p) && p[0] == 1 && |RootsUpTo(p, 255)| == |p| - 1
    ensures NoneVanishes(p, Met(p), 0) && NoRepeat(PlacesOf(Met(p)))
  {
    hide Alpha, Eval, Deriv, RootsUpTo, Met, Mul;
    MetIs(p, 255);
    var met := Met(p);
    RootsIncreasing(p, 255);
    var ps := PlacesOf(met);
    assert forall k :: 0 <= k < |ps| ==> ps[k] == met[k] - 1;
    PointsInverse(ps);
    forall k | 0 <= k < |met|
      ensures Deriv(p, Alpha(met[k] % 256)) != 0
    {
      DerivNonzero(p, Points(ps), InversePoints(ps), k);
    }
  }

  /** The syndromes of w are not all zero, and their locator is constant or has no root. */
  ghost predicate Endless(w: seq<byte>, n: nat)
    requires |w| == 255
  {
    !IsZero(SyndromesOf(w, n)) && !Ends(LocatorOf(SyndromesOf(w, n)))
  }

  /** When the decoder never ends, when it gives up, and when it corrects to a codeword, each exactly and
      by the syndromes alone: never ending takes a locator that is constant or has no root; giving up, a
      derivative that vanishes at a root met, as folded; and a codeword, a locator with as many roots as
      its degree, which is the length found. */
  ghost predicate ExactlyWhen(w: seq<byte>, d: seq<byte>, out: Outcome, n: nat)
    requires |w| == |d| == 255
  {
    var s := SyndromesOf(w, n);
    var p := LocatorOf(s);
    && (out.NoEnd? <==> Endless(w, n))
    && (out.Failed? <==> !IsZero(s) && Ends(p) && !NoneVanishes(p, Met(p), 0))
    && (out.Corrected? && IsCodeword(d, n) <==>
          IsZero(s) || (|p| == LengthOf(s) + 1 && |RootsUpTo(p, 255)| == LengthOf(s)))
  }

  lemma DecodingExact(w: seq<byte>, n: nat)
    requires |w| == 255 && 0 < n <= 255
    ensures ExactlyWhen(w, Decoding(w, n).data, Decoding(w, n).out, n)
  {
    hide Alpha, Horner, Deriv, IsCodeword, RootsUpTo, Met, EvaluatorOf, Applied, Distance, Massey;
    var s, r := SyndromesOf(w, n), Decoding(w, n);
    var p := LocatorOf(s);
    ShortestFound(s);
    ZeroLength(s);
    ZeroSyndromes(w, n);
    DecodingAnswer(w, n);
    if !IsZero(s) && Ends(p) {
      CorrectionsSound(w, p, EvaluatorOf(p, s), Met(p), 0);
      RootsAtMost(p);
      if |RootsUpTo(p, 255)| == |p| - 1 {
        FullRoots(p);
      } else if r.out.Corrected? && NoRepeat(r.out.locs) {
        var u := DecodingApplied(w, n);
        AppliedRoots(p, s, w, r.data, r.out, u);
      }
    }
  }

  lemma AppliedRoots(p: seq<byte>, s: seq<byte>, w: seq<byte>, d: seq<byte>, out: Outcome, u: seq<byte>)
    requires p != [] && Applied(p, s, w, d, out, u) && out.Corrected? && NoRepeat(out.locs)
    ensures |RootsUpTo(p, 255)| >= |p| - 1
  {
    hide Alpha, Eval, Deriv, RootsUpTo, IsValue, Patched;
  }
}
