/** The systematic Reed-Solomon encoder: a shift register that divides by the generator polynomial. */
module RsEncode {
  import opened Gf256
  import opened Polynomials
  import opened PowerSums
  import opened RsTables

  /** The value at x of the first m symbols of a word, highest degree first. */
  ghost function Horner(w: seq<byte>, m: nat, x: byte): byte
    requires m <= |w|
  {
    if m == 0 then 0 else Add(Mul(x, Horner(w, m - 1, x)), w[m - 1])
  }

  /** A word is a codeword when it vanishes at every root of the generator polynomial. */
  ghost predicate IsCodeword(w: seq<byte>, nroots: nat)
  {
    forall i: nat {:trigger Alpha(i)} :: i < nroots ==> Horner(w, |w|, Alpha(i)) == 0
  }

  // ---------- polynomial evaluation, symbol by symbol ----------

  lemma {:induction false} EvalSnoc(p: seq<byte>, c: byte, x: byte)
    ensures Eval(p + [c], x) == Add(Eval(p, x), Mul(Pow(x, |p|), c))
    decreases |p|
  {
    var q := p + [c];
    EvalCons(q, x);
    if p == [] {
      EvalSnocBase(c, x);
      assert q[1..] == [];
    } else {
      assert q[1..] == p[1..] + [c];
      EvalSnoc(p[1..], c, x);
      EvalCons(p, x);
      hide Add, Mul, Eval;
      EvalSnocStep(p[0], Eval(p[1..], x), x, Pow(x, |p| - 1), c);
    }
  }

  lemma EvalSnocBase(c: byte, x: byte)
    ensures Add(c, Mul(x, 0)) == Add(0, Mul(1, c))
  {
    hide *;
    MulZero(x);
    MulOne(c);
    AddZero(c);
  }

  // a + x*(b + w*c) == (a + x*b) + (x*w)*c
  lemma EvalSnocStep(a: byte, b: byte, x: byte, w: byte, c: byte)
    ensures Add(a, Mul(x, Add(b, Mul(w, c)))) == Add(Add(a, Mul(x, b)), Mul(Mul(x, w), c))
  {
    hide *;
    MulAddRight(x, b, Mul(w, c));
    MulAssoc(x, w, c);
    AddAssoc(a, Mul(x, b), Mul(x, Mul(w, c)));
  }

  lemma {:induction false} EvalLinear(p: seq<byte>, q: seq<byte>, c: byte, r: seq<byte>, x: byte)
    requires |p| == |q| == |r|
    requires forall i :: 0 <= i < |r| ==> r[i] == Add(p[i], Mul(c, q[i]))
    ensures Eval(r, x) == Add(Eval(p, x), Mul(c, Eval(q, x)))
    decreases |p|
  {
    if p == [] {
      MulZero(c);
      AddZero(0);
    } else {
      EvalLinear(p[1..], q[1..], c, r[1..], x);
      EvalCons(p, x);
      EvalCons(q, x);
      EvalCons(r, x);
      hide Add, Mul, Eval;
      EvalLinearStep(p[0], q[0], c, x, Eval(p[1..], x), Eval(q[1..], x));
    }
  }

  // (a + c*b) + x*(u + c*v) == (a + x*u) + c*(b + x*v)
  lemma EvalLinearStep(a: byte, b: byte, c: byte, x: byte, u: byte, v: byte)
    ensures Add(Add(a, Mul(c, b)), Mul(x, Add(u, Mul(c, v)))) == Add(Add(a, Mul(x, u)), Mul(c, Add(b, Mul(x, v))))
  {
    hide *;
    MulAddRight(x, u, Mul(c, v));
    MulAddRight(c, b, Mul(x, v));
    MulAssoc(x, c, v);
    MulComm(x, c);
    MulAssoc(c, x, v);
    AddSwap(a, Mul(c, b), Mul(x, u), Mul(c, Mul(x, v)));
  }

  // ---------- the register ----------

  ghost function RegisterSymbol(n: nat, bb: seq<byte>, d: byte, j: nat): byte
    requires |bb| == n && j < n
  {
    Add(if j + 1 < n then bb[j + 1] else 0, Mul(Add(d, bb[0]), Gen(n)[n - 1 - j]))
  }

  /** One step of the division register on input symbol d: shift and add the multiple of the
      generator that cancels the leading term. */
  ghost function Register(n: nat, bb: seq<byte>, d: byte): (r: seq<byte>)
    requires n > 0 && |bb| == n
    ensures |r| == n
  {
    seq(n, (j: nat) requires j < n => RegisterSymbol(n, bb, d, j))
  }

  lemma RegisterCoef(n: nat, bb: seq<byte>, d: byte, i: nat)
    requires n > 0 && |bb| == n && i <= n
    ensures (Rev(Register(n, bb, d)) + [d])[i]
         == Add(if i == 0 then 0 else bb[n - i], Mul(Add(d, bb[0]), Gen(n)[i]))
  {
    hide Add, Mul, Gen;
    if i == n {
      GenMonic(n);
      MulOne(Add(d, bb[0]));
      AddComm(d, bb[0]);
      AddCancel(bb[0], d);
    } else {
      assert Rev(Register(n, bb, d))[i] == RegisterSymbol(n, bb, d, n - 1 - i);
    }
  }

  // As polynomials, register' + d*z^n == z*register + f*g.
  lemma RegisterPolynomial(n: nat, bb: seq<byte>, d: byte, x: byte)
    requires n > 0 && |bb| == n
    ensures Eval(Rev(Register(n, bb, d)) + [d], x)
         == Add(Mul(x, Eval(Rev(bb), x)), Mul(Add(d, bb[0]), Eval(Gen(n), x)))
  {
    hide Add, Mul, Eval, Gen, Register;
    var lhs, shifted, f := Rev(Register(n, bb, d)) + [d], [0] + Rev(bb), Add(d, bb[0]);
    forall i | 0 <= i <= n
      ensures lhs[i] == Add(shifted[i], Mul(f, Gen(n)[i]))
    {
      RegisterCoef(n, bb, d, i);
    }
    EvalLinear(shifted, Gen(n), f, lhs, x);
    EvalCons(shifted, x);
    assert shifted[1..] == Rev(bb);
    AddZero(Mul(x, Eval(Rev(bb), x)));
  }

  /** The register holds what the symbols so far, times z^n, leave at each root of the generator:
      it is their remainder modulo the generator. */
  ghost predicate IsRemainder(n: nat, bb: seq<byte>, w: seq<byte>, m: nat)
    requires m <= |w|
  {
    forall i: nat {:trigger Alpha(i)} :: i < n ==>
        Eval(Rev(bb), Alpha(i)) == Mul(Pow(Alpha(i), n), Horner(w, m, Alpha(i)))
  }

  lemma RemainderStep(n: nat, bb: seq<byte>, w: seq<byte>, m: nat)
    requires n > 0 && |bb| == n && m < |w| && IsRemainder(n, bb, w, m)
    ensures IsRemainder(n, Register(n, bb, w[m]), w, m + 1)
  {
    hide Add, Mul, Eval, Gen, Register, Alpha, Pow;
    forall i: nat | i < n
      ensures Eval(Rev(Register(n, bb, w[m])), Alpha(i)) == Mul(Pow(Alpha(i), n), Horner(w, m + 1, Alpha(i)))
    {
      var x, d := Alpha(i), w[m];
      var r := Rev(Register(n, bb, d));
      RegisterPolynomial(n, bb, d, x);
      GenRoots(n, i);
      EvalSnoc(r, d, x);
      RemainderArith(Eval(r, x), d, x, Pow(x, n), Eval(Rev(bb), x), Horner(w, m, x), Add(d, bb[0]));
    }
  }

  // From e + w*d == x*a + f*0 and a == w*h follows e == w*(x*h + d).
  lemma RemainderArith(e: byte, d: byte, x: byte, w: byte, a: byte, h: byte, f: byte)
    requires Add(e, Mul(w, d)) == Add(Mul(x, a), Mul(f, 0)) && a == Mul(w, h)
    ensures e == Mul(w, Add(Mul(x, h), d))
  {
    hide *;
    MulZero(f);
    AddZero(Mul(x, a));
    AddCancel(Mul(w, d), e);
    MulAddRight(w, Mul(x, h), d);
    MulAssoc(x, w, h);
    MulComm(x, w);
    MulAssoc(w, x, h);
  }

  // Appending the register to the symbols gives their common value.
  lemma {:induction false} HornerAppend(w: seq<byte>, m: nat, bb: seq<byte>, k: nat, x: byte)
    requires m <= |w| && k <= |bb|
    ensures Horner(w[..m] + bb, m + k, x) == Add(Mul(Pow(x, k), Horner(w, m, x)), Eval(Rev(bb[..k]), x))
    decreases k
  {
    hide Add, Mul, Eval;
    if k == 0 {
      HornerPrefix(w[..m] + bb, w, m, x);
      MulOne(Horner(w, m, x));
      AddZero(Horner(w, m, x));
      EvalEmpty(Rev(bb[..0]), x);
    } else {
      HornerAppend(w, m, bb, k - 1, x);
      var t, c := Rev(bb[..k - 1]), bb[k - 1];
      RevSnoc(bb, k, x);
      hide Rev;
      HornerStepArith(x, Pow(x, k - 1), Horner(w, m, x), Eval(t, x), c);
    }
  }

  lemma EvalEmpty(p: seq<byte>, x: byte)
    requires p == []
    ensures Eval(p, x) == 0
  {
  }

  lemma RevSnoc(bb: seq<byte>, k: nat, x: byte)
    requires 0 < k <= |bb|
    ensures Eval(Rev(bb[..k]), x) == Add(bb[k - 1], Mul(x, Eval(Rev(bb[..k - 1]), x)))
  {
    hide Add, Mul, Eval;
    EvalCons(Rev(bb[..k]), x);
    assert Rev(bb[..k])[1..] == Rev(bb[..k - 1]);
  }

  // x*(w*h + e) + c == (x*w)*h + (c + x*e)
  lemma HornerStepArith(x: byte, w: byte, h: byte, e: byte, c: byte)
    ensures Add(Mul(x, Add(Mul(w, h), e)), c) == Add(Mul(Mul(x, w), h), Add(c, Mul(x, e)))
  {
    hide *;
    MulAddRight(x, Mul(w, h), e);
    MulAssoc(x, w, h);
    AddAssoc(Mul(x, Mul(w, h)), Mul(x, e), c);
    AddComm(Mul(x, e), c);
  }

  lemma {:induction false} HornerPrefix(v: seq<byte>, w: seq<byte>, m: nat, x: byte)
    requires m <= |v| && m <= |w| && v[..m] == w[..m]
    ensures Horner(v, m, x) == Horner(w, m, x)
    decreases m
  {
    hide Add, Mul;
    if m == 0 {
    } else {
      assert v[..m][m - 1] == w[..m][m - 1];
      assert v[..m - 1] == v[..m][..m - 1] == w[..m - 1];
      HornerPrefix(v, w, m - 1, x);
    }
  }

  /** Symbols followed by their remainder form a codeword. */
  lemma RemainderCompletes(n: nat, bb: seq<byte>, w: seq<byte>, m: nat)
    requires |bb| == n && m <= |w| && IsRemainder(n, bb, w, m)
    ensures IsCodeword(w[..m] + bb, n)
  {
    hide Add, Mul, Eval, Alpha, Pow, Horner, Rev;
    var c := w[..m] + bb;
    forall i: nat | i < n
      ensures Horner(c, |c|, Alpha(i)) == 0
    {
      HornerAppend(w, m, bb, n, Alpha(i));
      assert bb[..n] == bb;
      AddSelf(Eval(Rev(bb), Alpha(i)));
    }
  }

  // The sum of two parities, lowest degree first.
  ghost function ParityDifference(p: seq<byte>, q: seq<byte>): (d: seq<byte>)
    requires |p| == |q|
    ensures |d| == |p| && forall i :: 0 <= i < |p| ==> d[i] == Add(p[|p| - 1 - i], q[|p| - 1 - i])
  {
    seq(|p|, (i: nat) requires i < |p| => Add(p[|p| - 1 - i], q[|p| - 1 - i]))
  }

  lemma DifferenceVanishes(n: nat, data: seq<byte>, p: seq<byte>, q: seq<byte>, x: byte)
    requires |p| == |q| == n
    requires Horner(data + p, |data| + n, x) == 0 && Horner(data + q, |data| + n, x) == 0
    ensures Eval(ParityDifference(p, q), x) == 0
  {
    hide Add, Mul, Eval, Pow, Horner, ParityDifference;
    assert data[..|data|] == data && p[..n] == p && q[..n] == q;
    HornerAppend(data, |data|, p, n, x);
    HornerAppend(data, |data|, q, n, x);
    var a := Mul(Pow(x, n), Horner(data, |data|, x));
    AddIsZero(a, Eval(Rev(p), x));
    AddIsZero(a, Eval(Rev(q), x));
    forall i | 0 <= i < n
      ensures ParityDifference(p, q)[i] == Add(Rev(p)[i], Mul(1, Rev(q)[i]))
    {
      MulOne(q[n - 1 - i]);
    }
    EvalLinear(Rev(p), Rev(q), 1, ParityDifference(p, q), x);
    MulOne(Eval(Rev(q), x));
    AddSelf(a);
  }

  /** The parity is determined: only one choice of n trailing symbols gives a codeword. */
  lemma ParityUnique(n: nat, data: seq<byte>, p: seq<byte>, q: seq<byte>)
    requires n <= 255 && |p| == |q| == n
    requires IsCodeword(data + p, n) && IsCodeword(data + q, n)
    ensures p == q
  {
    hide Add, Mul, Eval, Alpha, Horner;
    var d, xs := ParityDifference(p, q), FirstAlphas(n);
    AlphasDistinct(n);
    forall k | 0 <= k < n
      ensures Eval(d, xs[k]) == 0
    {
      DifferenceVanishes(n, data, p, q, Alpha(k));
    }
    TooManyRoots(d, xs);
    forall i | 0 <= i < n
      ensures p[i] == q[i]
    {
      assert d[n - 1 - i] == 0;
      AddIsZero(p[i], q[i]);
    }
  }

  // ---------- encode_rs_char and il2p_encode_rs ----------

  const BLOCK_SIZE := 255

  /** The register after the first m symbols of w. */
  ghost function Registers(n: nat, w: seq<byte>, m: nat): (bb: seq<byte>)
    requires n > 0 && m <= |w|
    ensures |bb| == n
  {
    if m == 0 then seq(n, _ => 0) else Register(n, Registers(n, w, m - 1), w[m - 1])
  }

  /** Run the data symbols of a 255-byte block through the register; bb ends up holding the parity. */
  method EncodeRsChar(rs: Rs, data: array<byte>, bb: array<byte>)
    requires Valid(rs) && data.Length == BLOCK_SIZE && bb.Length == rs.nroots && data != bb
    modifies bb
    ensures bb[..] == Registers(rs.nroots, data[..], BLOCK_SIZE - rs.nroots)
    ensures IsCodeword(data[..BLOCK_SIZE - rs.nroots] + bb[..], rs.nroots)
  {
    hide Alpha, Log, Mul, Add, Eval, Horner, Gen, Pow, Rev, Register;
    var n := rs.nroots;
    for i := 0 to n
      invariant forall j :: 0 <= j < i ==> bb[j] == 0
    {
      bb[i] := 0;
    }
    ghost var w := data[..];
    RemainderStart(n, bb[..], w);
    for i := 0 to BLOCK_SIZE - n
      invariant data[..] == w
      invariant bb[..] == Registers(n, w, i)
      invariant IsRemainder(n, bb[..], w, i)
    {
      RemainderStep(n, bb[..], w, i);
      EncodeStep(rs, data[i], bb);
    }
    RemainderCompletes(n, bb[..], w, BLOCK_SIZE - n);
  }

  lemma RemainderStart(n: nat, bb: seq<byte>, w: seq<byte>)
    requires |bb| == n && IsZero(bb)
    ensures IsRemainder(n, bb, w, 0)
  {
    hide Add, Mul, Alpha, Pow;
    forall i: nat | i < n
      ensures Eval(Rev(bb), Alpha(i)) == Mul(Pow(Alpha(i), n), 0)
    {
      MulZero(Pow(Alpha(i), n));
      EvalOfZero(Rev(bb), Alpha(i));
    }
  }

  lemma {:induction false} EvalOfZero(p: seq<byte>, x: byte)
    requires IsZero(p)
    ensures Eval(p, x) == 0
  {
    hide Add, Mul;
    if p == [] {
    } else {
      EvalOfZero(p[1..], x);
      MulZero(x);
      AddZero(0);
    }
  }

  // The loop body of the encoder: feed one symbol into the register, in place.
  method EncodeStep(rs: Rs, d: byte, bb: array<byte>)
    requires Valid(rs) && bb.Length == rs.nroots
    modifies bb
    ensures bb[..] == Register(rs.nroots, old(bb[..]), d)
  {
    hide Alpha, Log, Mul, Add, Gen, Unlog, LogOf;
    var n := rs.nroots;
    ghost var f, g := Add(d, bb[0]), Gen(n);
    var feedback: nat := rs.indexOf[Add(d, bb[0])];
    UnlogLog(f);
    AddFeedback(rs, feedback, bb);
    ShiftDown(bb);
    AddZero(Mul(f, g[0]));
    if feedback != NN {
      var m := ModNN(feedback + rs.genpoly[0]);
      GenIndex(rs, 0);
      TableMul(rs, feedback, rs.genpoly[0]);
      bb[n - 1] := rs.alphaTo[m];
    } else {
      MulZero(g[0]);
      bb[n - 1] := 0;
    }
  }

  // Add the feedback times the generator coefficients to every cell but the first.
  method AddFeedback(rs: Rs, feedback: nat, bb: array<byte>)
    requires Valid(rs) && bb.Length == rs.nroots && feedback < 256
    modifies bb
    ensures forall k :: 1 <= k < rs.nroots ==>
        bb[k] == Add(old(bb[k]), Mul(Unlog(feedback), Gen(rs.nroots)[rs.nroots - k]))
  {
    hide Alpha, Log, Mul, Add, Gen, Unlog, LogOf;
    var n := rs.nroots;
    ghost var b0, f, g := bb[..], Unlog(feedback), Gen(n);
    LogUnlog(feedback);
    if feedback != NN {
      for j := 1 to n
        invariant forall k :: 1 <= k < j ==> bb[k] == Add(b0[k], Mul(f, g[n - k]))
        invariant forall k :: j <= k < n ==> bb[k] == b0[k]
      {
        var m := ModNN(feedback + rs.genpoly[n - j]);
        GenIndex(rs, n - j);
        TableMul(rs, feedback, rs.genpoly[n - j]);
        bb[j] := Add(bb[j], rs.alphaTo[m]);
      }
    } else {
      forall k | 1 <= k < n
        ensures bb[k] == Add(b0[k], Mul(f, g[n - k]))
      {
        MulZero(g[n - k]);
        AddZero(b0[k]);
      }
    }
  }

  // Move every cell one place towards the front.
  method ShiftDown(bb: array<byte>)
    requires bb.Length > 0
    modifies bb
    ensures forall k :: 0 <= k < bb.Length - 1 ==> bb[k] == old(bb[k + 1])
    ensures bb[bb.Length - 1] == old(bb[bb.Length - 1])
  {
    for j := 0 to bb.Length - 1
      invariant forall k :: 0 <= k < j ==> bb[k] == old(bb[k + 1])
      invariant forall k :: j <= k < bb.Length ==> bb[k] == old(bb[k])
    {
      bb[j] := bb[j + 1];
    }
  }

  // The stored index form of a generator coefficient is never that of zero.
  lemma GenIndex(rs: Rs, k: nat)
    requires Valid(rs) && k <= rs.nroots
    ensures rs.genpoly[k] != NN && Unlog(rs.genpoly[k]) == Gen(rs.nroots)[k]
  {
    hide Alpha, Log, Gen, Unlog, LogOf;
    GenNonzero(rs.nroots, k);
    UnlogLog(Gen(rs.nroots)[k]);
  }

  ghost function Zeros(n: nat): (z: seq<byte>)
    ensures |z| == n && forall i :: 0 <= i < n ==> z[i] == 0
  {
    seq(n, _ => 0)
  }

  /** The data symbols of a shortened block, zero-padded in front to fill a 255-symbol block. */
  ghost function Padded(data: seq<byte>, n: nat): (w: seq<byte>)
    requires |data| + n <= BLOCK_SIZE
    ensures |w| == BLOCK_SIZE - n
  {
    Zeros(BLOCK_SIZE - n - |data|) + data
  }

  /** The parity symbols that il2p_encode_rs computes for the data. */
  ghost function Parity(data: seq<byte>, n: nat): (p: seq<byte>)
    requires 0 < n && |data| + n <= BLOCK_SIZE
    ensures |p| == n
  {
    Registers(n, Padded(data, n), BLOCK_SIZE - n)
  }

  /** The data followed by its parity: what goes over the air for one block. */
  ghost function Encoded(data: seq<byte>, n: nat): (b: seq<byte>)
    requires 0 < n && |data| + n <= BLOCK_SIZE
    ensures |b| == |data| + n
  {
    data + Parity(data, n)
  }

  lemma {:induction false} RegistersRemainder(n: nat, w: seq<byte>, m: nat)
    requires n > 0 && m <= |w|
    ensures IsRemainder(n, Registers(n, w, m), w, m)
  {
    hide Alpha, Mul, Add, Eval, Horner, Pow, Rev, Register;
    if m == 0 {
      RemainderStart(n, Registers(n, w, 0), w);
    } else {
      RegistersRemainder(n, w, m - 1);
      RemainderStep(n, Registers(n, w, m - 1), w, m - 1);
    }
  }

  /** Padding, data and parity together vanish at every root of the generator. */
  lemma EncodedIsCodeword(data: seq<byte>, n: nat)
    requires 0 < n && |data| + n <= BLOCK_SIZE
    ensures IsCodeword(Zeros(BLOCK_SIZE - n - |data|) + Encoded(data, n), n)
  {
    hide Alpha, Horner, Registers;
    var w, z := Padded(data, n), Zeros(BLOCK_SIZE - n - |data|);
    RegistersRemainder(n, w, |w|);
    RemainderCompletes(n, Parity(data, n), w, |w|);
    assert w[..|w|] + Parity(data, n) == z + Encoded(data, n);
  }

  // ---------- the table of codecs ----------

  const PARITY_CHOICES: seq<nat> := [2, 4, 6, 8, 16]

  /** One control block for each supported number of parity symbols. */
  ghost predicate ValidTab(tab: seq<Rs>)
  {
    |tab| == |PARITY_CHOICES| && forall i :: 0 <= i < |tab| ==> Valid(tab[i]) && tab[i].nroots == PARITY_CHOICES[i]
  }

  method Il2pInit() returns (tab: seq<Rs>)
    ensures ValidTab(tab) && |tab| == 5
    ensures tab[0].nroots == 2 && tab[1].nroots == 4 && tab[2].nroots == 6 && tab[3].nroots == 8 && tab[4].nroots == 16
  {
    hide Valid;
    tab := [];
    for i := 0 to |PARITY_CHOICES|
      invariant |tab| == i && forall k :: 0 <= k < i ==> Valid(tab[k]) && tab[k].nroots == PARITY_CHOICES[k]
    {
      var rs := InitRsChar(PARITY_CHOICES[i]);
      tab := tab + [rs];
    }
  }

  /** The number of parity symbols of the codec that is used when nparity are asked for. */
  function CodecFor(nparity: nat): nat {
    if nparity in PARITY_CHOICES then nparity else 2
  }

  /** The codec for a number of parity symbols, or the two-parity one if there is none. */
  method FindRs(tab: seq<Rs>, nparity: nat) returns (rs: Rs)
    requires ValidTab(tab)
    ensures Valid(rs) && rs.nroots == CodecFor(nparity) == if nparity in {2, 4, 6, 8, 16} then nparity else 2
  {
    hide Valid;
    for n := 0 to |tab|
      invariant forall k :: 0 <= k < n ==> PARITY_CHOICES[k] != nparity
    {
      if tab[n].nroots == nparity {
        return tab[n];
      }
    }
    rs := tab[0];
  }

  /** The block that is encoded: the data, with zeros in front and in place of the parity. */
  ghost function BlockFor(txData: seq<byte>, numParity: nat): (w: seq<byte>)
    requires |txData| + numParity <= BLOCK_SIZE
    ensures |w| == BLOCK_SIZE
  {
    Zeros(BLOCK_SIZE - |txData| - numParity) + txData + Zeros(numParity)
  }

  /** Parity symbols for a short block of data. A number of them that no codec has gives the two
      parity symbols of the block with as many zeros behind the data. */
  method Il2pEncodeRs(tab: seq<Rs>, txData: seq<byte>, numParity: nat) returns (parity: seq<byte>)
    requires ValidTab(tab) && |txData| + numParity <= BLOCK_SIZE
    ensures var n, w := CodecFor(numParity), BlockFor(txData, numParity);
      && parity == Registers(n, w, BLOCK_SIZE - n)
      && IsCodeword(w[..BLOCK_SIZE - n] + parity, n)
    ensures numParity in PARITY_CHOICES ==> parity == Parity(txData, numParity)
  {
    hide Valid, Registers, IsCodeword;
    var n := |txData|;
    var rsBlock := new byte[BLOCK_SIZE](_ => 0);
    for i := 0 to n
      invariant forall k :: 0 <= k < BLOCK_SIZE - n - numParity || BLOCK_SIZE - numParity <= k < BLOCK_SIZE ==>
          rsBlock[k] == 0
      invariant forall k :: 0 <= k < i ==> rsBlock[BLOCK_SIZE - n - numParity + k] == txData[k]
    {
      rsBlock[BLOCK_SIZE - n - numParity + i] := txData[i];
    }
    assert rsBlock[..] == BlockFor(txData, numParity);
    var rs := FindRs(tab, numParity);
    var bb := new byte[rs.nroots](_ => 0);
    EncodeRsChar(rs, rsBlock, bb);
    if numParity in PARITY_CHOICES {
      assert rsBlock[..][..BLOCK_SIZE - numParity] == Padded(txData, numParity);
      RegistersPrefix(numParity, rsBlock[..], Padded(txData, numParity), BLOCK_SIZE - numParity);
    }
    parity := bb[..];
  }

  lemma {:induction false} RegistersPrefix(n: nat, v: seq<byte>, w: seq<byte>, m: nat)
    requires n > 0 && m <= |v| && m <= |w| && v[..m] == w[..m]
    ensures Registers(n, v, m) == Registers(n, w, m)
    decreases m
  {
    hide Register;
    if m == 0 {
    } else {
      assert v[..m][m - 1] == w[..m][m - 1];
      assert v[..m - 1] == v[..m][..m - 1] == w[..m - 1];
      RegistersPrefix(n, v, w, m - 1);
    }
  }
}
