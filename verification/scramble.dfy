/** The IL2P scrambler, x^9 + x^4 + 1: a transmit shift register that delays its output by five
    bits, and the receive register that undoes it. A register is its nine bits, lowest first. */
module Scramble {
  import opened Gf256
  import opened Bits

  type State = s: seq<bool> | |s| == 9 witness seq(9, _ => false)

  const INIT_TX_LSFR: State := [true, true, true, true, false, false, false, false, false] // 0x00f
  const INIT_RX_LSFR: State := [false, false, false, false, true, true, true, true, true] // 0x1f0

  function Flip(a: bool, b: bool): bool {
    a != b
  }

  /** scramble_bit: the new register and the output bit. */
  function ScrambleBit(x: bool, s: State): (r: (bool, State))
  {
    (Flip(s[4], s[0]), (s[4 := Flip(s[4], s[0])] + [Flip(x, s[0])])[1..])
  }

  /** descramble_bit */
  function DescrambleBit(y: bool, s: State): (r: (bool, State))
  {
    var t := s[1..] + [y];
    (Flip(y, s[0]), t[3 := Flip(t[3], y)])
  }

  // ---------- the scrambler without its delay ----------

  /** The last nine bits sent, oldest first. Before the first bit they count as ones. */
  type History = h: seq<bool> | |h| == 9 witness seq(9, _ => false)

  const ONES: History := [true, true, true, true, true, true, true, true, true]

  /** Each bit is sent exclusive-or'ed with the bits sent four and nine places before. */
  ghost function Scrambled(h: History, xs: seq<bool>): (ys: seq<bool>)
    ensures |ys| == |xs|
    decreases |xs|
  {
    if xs == [] then [] else
      var y := Flip(xs[0], Flip(h[5], h[0]));
      [y] + Scrambled(h[1..] + [y], xs[1..])
  }

  ghost function Descrambled(h: History, ys: seq<bool>): (xs: seq<bool>)
    ensures |xs| == |ys|
    decreases |ys|
  {
    if ys == [] then [] else
      [Flip(ys[0], Flip(h[5], h[0]))] + Descrambled(h[1..] + [ys[0]], ys[1..])
  }

  lemma {:induction false} DescrambleScrambled(h: History, xs: seq<bool>)
    ensures Descrambled(h, Scrambled(h, xs)) == xs
    decreases |xs|
  {
    if xs == [] {
    } else {
      var ys := Scrambled(h, xs);
      DescrambleScrambled(h[1..] + [ys[0]], xs[1..]);
      assert ys[1..] == Scrambled(h[1..] + [ys[0]], xs[1..]);
    }
  }

  lemma {:induction false} ScrambleDescrambled(h: History, ys: seq<bool>)
    ensures Scrambled(h, Descrambled(h, ys)) == ys
    decreases |ys|
  {
    if ys == [] {
    } else {
      var xs := Descrambled(h, ys);
      ScrambleDescrambled(h[1..] + [ys[0]], ys[1..]);
      assert xs[1..] == Descrambled(h[1..] + [ys[0]], ys[1..]);
    }
  }

  /** The history after sending ys. */
  ghost function After(h: History, ys: seq<bool>): History
  {
    (h + ys)[|ys|..]
  }

  lemma {:induction false} ScrambledSnoc(h: History, xs: seq<bool>, x: bool)
    ensures var ys, g := Scrambled(h, xs), After(h, Scrambled(h, xs));
      Scrambled(h, xs + [x]) == ys + [Flip(x, Flip(g[5], g[0]))]
    decreases |xs|
  {
    var v := xs + [x];
    if xs == [] {
      assert v[1..] == [];
      assert h + [] == h;
    } else {
      var ys := Scrambled(h, xs);
      var h' := h[1..] + [ys[0]];
      ScrambledSnoc(h', xs[1..], x);
      assert v[1..] == xs[1..] + [x];
      assert ys[1..] == Scrambled(h', xs[1..]);
      assert h' + ys[1..] == (h + ys)[1..];
      assert After(h', ys[1..]) == After(h, ys);
    }
  }

  lemma {:induction false} DescrambledSnoc(h: History, ys: seq<bool>, y: bool)
    ensures var g := After(h, ys);
      Descrambled(h, ys + [y]) == Descrambled(h, ys) + [Flip(y, Flip(g[5], g[0]))]
    decreases |ys|
  {
    var v := ys + [y];
    if ys == [] {
      assert v[1..] == [];
      assert h + [] == h;
    } else {
      var h' := h[1..] + [ys[0]];
      DescrambledSnoc(h', ys[1..], y);
      assert v[1..] == ys[1..] + [y];
      assert h' + ys[1..] == (h + ys)[1..];
      assert After(h', ys[1..]) == After(h, ys);
    }
  }

  /** Every descrambled bit in terms of the received ones. */
  lemma {:induction false} DescrambledAt(h: History, ys: seq<bool>, n: nat)
    requires n < |ys|
    ensures Descrambled(h, ys)[n] == Flip((h + ys)[n + 9], Flip((h + ys)[n + 5], (h + ys)[n]))
    decreases n
  {
    if n == 0 {
    } else {
      var h' := h[1..] + [ys[0]];
      DescrambledAt(h', ys[1..], n - 1);
      assert h' + ys[1..] == (h + ys)[1..];
    }
  }

  /** One wrong received bit makes wrong exactly the descrambled bits zero, four and nine places on. */
  lemma OneBitError(ys: seq<bool>, j: nat, n: nat)
    requires j < |ys| && n < |ys|
    ensures Descrambled(ONES, ys[j := !ys[j]])[n] != Descrambled(ONES, ys)[n] <==> n in {j, j + 4, j + 9}
  {
    DescrambledAt(ONES, ys, n);
    DescrambledAt(ONES, ys[j := !ys[j]], n);
  }

  // ---------- the registers track the history ----------

  ghost function TxBit(h: History, ps: seq<bool>, i: nat): bool
    requires |ps| == 5 && i < 9
  {
    if i < 4 then h[i + 5] else Flip(ps[i - 4], h[i - 4])
  }

  /** The transmit register five bits ahead: what it holds when the bits ps are still inside it. */
  ghost function TxState(h: History, ps: seq<bool>): (s: State)
    requires |ps| == 5
    ensures forall i :: 0 <= i < 9 ==> s[i] == TxBit(h, ps, i)
  {
    seq(9, (i: nat) requires i < 9 => TxBit(h, ps, i))
  }

  ghost function RxBit(h: History, i: nat): bool
    requires i < 9
  {
    if i < 4 then Flip(h[i], h[i + 5]) else h[i]
  }

  ghost function RxState(h: History): (s: State)
    ensures forall i :: 0 <= i < 9 ==> s[i] == RxBit(h, i)
  {
    seq(9, (i: nat) requires i < 9 => RxBit(h, i))
  }

  // Both registers move by one place, with one bit changed on the way and a new one at the end.
  lemma Moves(x: bool, s: State, i: nat)
    requires i < 9
    ensures ScrambleBit(x, s).1[i] == if i == 3 then Flip(s[4], s[0]) else if i == 8 then Flip(x, s[0]) else s[i + 1]
    ensures DescrambleBit(x, s).1[i] == if i == 3 then Flip(s[4], x) else if i == 8 then x else s[i + 1]
  {
  }

  // The places of a sequence one bit later.
  lemma Later(h: seq<bool>, y: bool, i: nat)
    requires i < |h|
    ensures (h[1..] + [y])[i] == if i == |h| - 1 then y else h[i + 1]
  {
  }

  /** The transmit register emits the bit that entered it five steps ago, scrambled. */
  lemma TxStep(h: History, ps: seq<bool>, x: bool)
    requires |ps| == 5
    ensures var y := Flip(ps[0], Flip(h[5], h[0]));
      ScrambleBit(x, TxState(h, ps)) == (y, TxState(h[1..] + [y], ps[1..] + [x]))
  {
    hide ScrambleBit, TxState;
    var s, y := TxState(h, ps), Flip(ps[0], Flip(h[5], h[0]));
    assert s[4] == TxBit(h, ps, 4) && s[0] == TxBit(h, ps, 0);
    Emitted(x, s);
    forall i: nat | i < 9
      ensures ScrambleBit(x, s).1[i] == TxState(h[1..] + [y], ps[1..] + [x])[i]
    {
      TxPlace(h, ps, x, i);
    }
    assert ScrambleBit(x, s).1 == TxState(h[1..] + [y], ps[1..] + [x]);
  }

  lemma Emitted(x: bool, s: State)
    ensures ScrambleBit(x, s).0 == Flip(s[4], s[0]) && DescrambleBit(x, s).0 == Flip(x, s[0])
  {
  }

  lemma TxPlace(h: History, ps: seq<bool>, x: bool, i: nat)
    requires |ps| == 5 && i < 9
    ensures var y := Flip(ps[0], Flip(h[5], h[0]));
      ScrambleBit(x, TxState(h, ps)).1[i] == TxBit(h[1..] + [y], ps[1..] + [x], i)
  {
    hide ScrambleBit, TxState;
    Moves(x, TxState(h, ps), i);
    var y := Flip(ps[0], Flip(h[5], h[0]));
    if i < 4 {
      Later(h, y, i + 5);
    } else {
      Later(h, y, i - 4);
      Later(ps, x, i - 4);
    }
  }

  /** The receive register holds the last nine bits, four of them combined with the four newest. */
  lemma RxStep(h: History, y: bool)
    ensures DescrambleBit(y, RxState(h)) == (Flip(y, Flip(h[5], h[0])), RxState(h[1..] + [y]))
  {
    hide DescrambleBit, RxState;
    var s := RxState(h);
    assert s[0] == RxBit(h, 0);
    Emitted(y, s);
    forall i: nat | i < 9
      ensures DescrambleBit(y, s).1[i] == RxState(h[1..] + [y])[i]
    {
      RxPlace(h, y, i);
    }
    assert DescrambleBit(y, s).1 == RxState(h[1..] + [y]);
  }

  lemma RxPlace(h: History, y: bool, i: nat)
    requires i < 9
    ensures DescrambleBit(y, RxState(h)).1[i] == RxBit(h[1..] + [y], i)
  {
    hide DescrambleBit, RxState;
    Moves(y, RxState(h), i);
    Later(h, y, i);
    if i < 4 {
      Later(h, y, i + 5);
    }
  }

  // ---------- a whole block through the registers ----------

  /** What 0x00f in the transmit register amounts to before the first bit. */
  const START: History := [false, false, false, false, false, true, true, true, true]
  const ZERO5 := [false, false, false, false, false]

  lemma ScrambledStep(h: History, x: bool, xs: seq<bool>)
    ensures Scrambled(h, [x] + xs) == [Flip(x, Flip(h[5], h[0]))] + Scrambled(h[1..] + [Flip(x, Flip(h[5], h[0]))], xs)
  {
    assert ([x] + xs)[1..] == xs;
  }

  // The history after k of the five bits that come out of the fresh register.
  ghost function Warm(k: nat): History
    requires k <= 5
  {
    START[k..] + seq(k, _ => true)
  }

  lemma {:induction false} WarmUpFrom(k: nat, xs: seq<bool>)
    requires k <= 5
    ensures Scrambled(Warm(k), seq(5 - k, _ => false) + xs) == seq(5 - k, _ => true) + Scrambled(ONES, xs)
    decreases 5 - k
  {
    hide Scrambled, Warm;
    if k == 5 {
      WarmEnds(xs);
    } else {
      WarmUpFrom(k + 1, xs);
      WarmMoves(k, xs, Scrambled(ONES, xs));
      WarmUpStep(Warm(k), Warm(k + 1), seq(4 - k, _ => false) + xs);
    }
  }

  lemma WarmEnds(xs: seq<bool>)
    ensures Warm(5) == ONES && seq(0, _ => false) + xs == xs
        && seq(0, _ => true) + Scrambled(ONES, xs) == Scrambled(ONES, xs)
  {
    hide Scrambled;
  }

  lemma WarmMoves(k: nat, xs: seq<bool>, ys: seq<bool>)
    requires k < 5
    ensures !Warm(k)[0] && Warm(k)[5] && Warm(k + 1) == Warm(k)[1..] + [true]
    ensures seq(5 - k, _ => false) + xs == [false] + (seq(4 - k, _ => false) + xs)
    ensures seq(5 - k, _ => true) + ys == [true] + (seq(4 - k, _ => true) + ys)
  {
    OneFewer(4 - k, false, xs);
    OneFewer(4 - k, true, ys);
  }

  lemma OneFewer(n: nat, b: bool, xs: seq<bool>)
    ensures seq(n + 1, _ => b) + xs == [b] + (seq(n, _ => b) + xs)
  {
  }

  // The first five bits out are the ones that were in the register.
  lemma WarmUp(xs: seq<bool>)
    ensures Scrambled(START, ZERO5 + xs)[5..] == Scrambled(ONES, xs)
  {
    hide Scrambled;
    WarmUpFrom(0, xs);
    assert Warm(0) == START && seq(5, _ => false) == ZERO5;
  }

  lemma WarmUpStep(h: History, g: History, xs: seq<bool>)
    requires !h[0] && h[5] && g == h[1..] + [true]
    ensures Scrambled(h, [false] + xs) == [true] + Scrambled(g, xs)
  {
    hide Scrambled;
    ScrambledStep(h, false, xs);
  }

  /** The transmit register once m bits of the stream have left it and five more are inside. */
  ghost function TxAt(stream: seq<bool>, m: nat): State
    requires m + 5 <= |stream|
  {
    TxState(After(START, Scrambled(START, stream[..m])), stream[m..m + 5])
  }

  lemma TxStart(stream: seq<bool>)
    requires |stream| >= 5 && stream[..5] == ZERO5
    ensures TxAt(stream, 0) == INIT_TX_LSFR
  {
    assert stream[..0] == [] && stream[0..0 + 5] == ZERO5;
    assert START + [] == START;
  }

  lemma TxAdvance(stream: seq<bool>, m: nat)
    requires m + 5 < |stream|
    ensures var (y, s) := ScrambleBit(stream[m + 5], TxAt(stream, m));
      s == TxAt(stream, m + 1) && Scrambled(START, stream[..m + 1]) == Scrambled(START, stream[..m]) + [y]
  {
    hide Scrambled, TxState, ScrambleBit;
    var ys := Scrambled(START, stream[..m]);
    var h, ps := After(START, ys), stream[m..m + 5];
    TxStep(h, ps, stream[m + 5]);
    var y := Flip(ps[0], Flip(h[5], h[0]));
    assert stream[..m + 1] == stream[..m] + [stream[m]];
    ScrambledSnoc(START, stream[..m], stream[m]);
    assert stream[m + 1..m + 1 + 5] == ps[1..] + [stream[m + 5]];
    AfterSnoc(START, ys, y);
  }

  lemma AfterSnoc(h: History, ys: seq<bool>, y: bool)
    ensures After(h, ys + [y]) == After(h, ys)[1..] + [y]
  {
    assert h + (ys + [y]) == (h + ys) + [y];
  }

  ghost function RxAt(ys: seq<bool>, m: nat): State
    requires m <= |ys|
  {
    RxState(After(ONES, ys[..m]))
  }

  lemma RxStart(ys: seq<bool>)
    ensures RxAt(ys, 0) == INIT_RX_LSFR
  {
    assert ys[..0] == [];
    assert ONES + [] == ONES;
  }

  lemma RxAdvance(ys: seq<bool>, m: nat)
    requires m < |ys|
    ensures var (x, s) := DescrambleBit(ys[m], RxAt(ys, m));
      s == RxAt(ys, m + 1) && Descrambled(ONES, ys[..m + 1]) == Descrambled(ONES, ys[..m]) + [x]
  {
    hide Descrambled, RxState, DescrambleBit;
    var h := After(ONES, ys[..m]);
    RxStep(h, ys[m]);
    assert ys[..m + 1] == ys[..m] + [ys[m]];
    DescrambledSnoc(ONES, ys[..m], ys[m]);
    AfterSnoc(ONES, ys[..m], ys[m]);
  }

  /** The scrambled block. */
  ghost function ScrambledBytes(data: seq<byte>): (r: seq<byte>)
    ensures |r| == |data|
  {
    BytesOf(Scrambled(ONES, BitsOf(data)))
  }

  ghost function DescrambledBytes(data: seq<byte>): (r: seq<byte>)
    ensures |r| == |data|
  {
    BytesOf(Descrambled(ONES, BitsOf(data)))
  }

  /** Descrambling undoes scrambling. */
  lemma RoundTrip(data: seq<byte>)
    ensures DescrambledBytes(ScrambledBytes(data)) == data
  {
    hide BytesOf, BitsOf, Scrambled, Descrambled;
    BitsOfBytes(Scrambled(ONES, BitsOf(data)));
    DescrambleScrambled(ONES, BitsOf(data));
    BytesOfBits(data);
  }

  /** Scrambling undoes descrambling: every received block is the scrambling of one block. */
  lemma RoundTripBack(data: seq<byte>)
    ensures ScrambledBytes(DescrambledBytes(data)) == data
  {
    hide BytesOf, BitsOf, Scrambled, Descrambled;
    BitsOfBytes(Descrambled(ONES, BitsOf(data)));
    ScrambleDescrambled(ONES, BitsOf(data));
    BytesOfBits(data);
  }

  // ---------- the blocks in figures ----------

  const MASKS: seq<nat> := [128, 64, 32, 16, 8, 4, 2, 1]

  /** Bit i of a block, the most significant bit of the first byte being bit 0. What comes before counts as one. */
  function AirBit(bytes: seq<byte>, i: int): (b: nat)
    requires i < 8 * |bytes|
    ensures b < 2
  {
    if i < 0 then 1 else bytes[i / 8] / MASKS[i % 8] % 2
  }

  lemma AirBitOf(bytes: seq<byte>, i: int)
    requires i < 8 * |bytes|
    ensures AirBit(bytes, i) == 1 <==> i < 0 || BitsOf(bytes)[i]
  {
    hide BitsOf, Pow2;
    if i >= 0 {
      InputBit(bytes, i / 8, i % 8);
      MasksArePowers(i % 8);
    }
  }

  lemma MasksArePowers(j: nat)
    requires j < 8
    ensures MASKS[j] == Pow2(7 - j)
  {
    SixthMask(j);
    Pow2Eight();
    assert Pow2(1) == 2 && Pow2(2) == 4 && Pow2(3) == 8;
    assert Pow2(4) == 16 && Pow2(5) == 32 && Pow2(6) == 64;
  }

  // Bit k of what was sent, nine ones in front.
  lemma SentBit(ys: seq<byte>, k: int)
    requires -9 <= k < 8 * |ys|
    ensures (ONES + BitsOf(ys))[k + 9] <==> AirBit(ys, k) == 1
  {
    hide BitsOf, AirBit;
    AirBitOf(ys, k);
  }

  /** Every bit is sent exclusive-or'ed with the bits sent four and nine places before. */
  lemma ScrambledBit(data: seq<byte>, i: nat)
    requires i < 8 * |data|
    ensures var ys := ScrambledBytes(data);
      (AirBit(data, i) + AirBit(ys, i) + AirBit(ys, i - 4) + AirBit(ys, i - 9)) % 2 == 0
  {
    hide AirBit, ScrambledBytes;
    var ys := ScrambledBytes(data);
    RoundTrip(data);
    DescrambledBit(ys, i);
  }

  /** And every received bit with those received four and nine places before. */
  lemma DescrambledBit(ys: seq<byte>, i: nat)
    requires i < 8 * |ys|
    ensures var data := DescrambledBytes(ys);
      (AirBit(data, i) + AirBit(ys, i) + AirBit(ys, i - 4) + AirBit(ys, i - 9)) % 2 == 0
  {
    hide AirBit, BitsOf, BytesOf, Descrambled;
    var data, bits := DescrambledBytes(ys), BitsOf(ys);
    BitsOfBytes(Descrambled(ONES, bits));
    DescrambledAt(ONES, bits, i);
    AirBitOf(data, i);
    SentBit(ys, i);
    SentBit(ys, i - 4);
    SentBit(ys, i - 9);
  }

  /** Two zero bytes are sent as 0x0f and 0x70. */
  lemma KnownBlock()
    ensures ScrambledBytes([0, 0]) == [0x0f, 0x70]
  {
    hide AirBit, ScrambledBytes;
    var ys := ScrambledBytes([0, 0]);
    ZerosSent(ys, 8);
    ByteOf(ys, 0);
    ZerosSent(ys, 16);
    ByteOf(ys, 1);
  }

  /** The first sixteen bits sent for zeros. */
  const SENT: seq<nat> := [0, 0, 0, 0, 1, 1, 1, 1, 0, 1, 1, 1, 0, 0, 0, 0]

  lemma {:induction false} ZerosSent(ys: seq<byte>, n: nat)
    requires n <= 16 && ys == ScrambledBytes([0, 0])
    ensures forall i :: 0 <= i < n ==> AirBit(ys, i) == SENT[i]
  {
    hide ScrambledBytes, AirBit;
    if n > 0 {
      var i := n - 1;
      ZerosSent(ys, i);
      ScrambledBit([0, 0], i);
      KnownBits(ys, i);
      KnownBits(ys, i - 4);
      KnownBits(ys, i - 9);
    }
  }

  lemma KnownBits(bytes: seq<byte>, i: int)
    requires i < 16 && |bytes| == 2
    ensures i < 0 ==> AirBit(bytes, i) == 1
    ensures i >= 0 ==> AirBit([0, 0], i) == 0
  {
    assert i >= 0 ==> [0, 0 as byte][i / 8] == 0;
  }

  // A byte from its bits.
  lemma ByteOf(ys: seq<byte>, j: nat)
    requires j < |ys|
    ensures ys[j] == 128 * AirBit(ys, 8 * j) + 64 * AirBit(ys, 8 * j + 1) + 32 * AirBit(ys, 8 * j + 2)
        + 16 * AirBit(ys, 8 * j + 3) + 8 * AirBit(ys, 8 * j + 4) + 4 * AirBit(ys, 8 * j + 5)
        + 2 * AirBit(ys, 8 * j + 6) + AirBit(ys, 8 * j + 7)
  {
    hide AirBit;
    EightDigits(ys[j]);
    UpperBits(ys, j);
    LowerBits(ys, j);
  }

  lemma UpperBits(ys: seq<byte>, j: nat)
    requires j < |ys|
    ensures AirBit(ys, 8 * j) == ys[j] / 128 % 2 && AirBit(ys, 8 * j + 1) == ys[j] / 64 % 2
    ensures AirBit(ys, 8 * j + 2) == ys[j] / 32 % 2 && AirBit(ys, 8 * j + 3) == ys[j] / 16 % 2
  {
    hide AirBit;
    AirBitAt(ys, j, 0);
    AirBitAt(ys, j, 1);
    AirBitAt(ys, j, 2);
    AirBitAt(ys, j, 3);
  }

  lemma LowerBits(ys: seq<byte>, j: nat)
    requires j < |ys|
    ensures AirBit(ys, 8 * j + 4) == ys[j] / 8 % 2 && AirBit(ys, 8 * j + 5) == ys[j] / 4 % 2
    ensures AirBit(ys, 8 * j + 6) == ys[j] / 2 % 2 && AirBit(ys, 8 * j + 7) == ys[j] % 2
  {
    hide AirBit;
    AirBitAt(ys, j, 4);
    AirBitAt(ys, j, 5);
    AirBitAt(ys, j, 6);
    AirBitAt(ys, j, 7);
  }

  lemma AirBitAt(ys: seq<byte>, j: nat, k: nat)
    requires j < |ys| && k < 8
    ensures AirBit(ys, 8 * j + k) == ys[j] / MASKS[k] % 2
  {
    assert (8 * j + k) / 8 == j && (8 * j + k) % 8 == k;
  }

  lemma EightDigits(b: nat)
    requires b < 256
    ensures b == 128 * (b / 128 % 2) + 64 * (b / 64 % 2) + 32 * (b / 32 % 2) + 16 * (b / 16 % 2)
        + 8 * (b / 8 % 2) + 4 * (b / 4 % 2) + 2 * (b / 2 % 2) + b % 2
  {
    var b1, b2, b3 := b / 2, b / 4, b / 8;
    assert b2 == b1 / 2 && b3 == b2 / 2 && b / 16 == b3 / 2;
    FourDigits(b / 16);
    HighDigits(b);
  }

  lemma HighDigits(b: nat)
    requires b < 256
    ensures b / 32 == b / 16 / 2 && b / 64 == b / 16 / 4 && b / 128 == b / 16 / 8 && b / 16 < 16
  {
  }

  lemma FourDigits(d: nat)
    requires d < 16
    ensures d == 8 * (d / 8 % 2) + 4 * (d / 4 % 2) + 2 * (d / 2 % 2) + d % 2
  {
    assert d / 4 == d / 2 / 2 && d / 8 == d / 4 / 2;
  }

  // ---------- il2p_scramble_block and il2p_descramble_block ----------

  method Clear(out: array<byte>, len: nat)
    requires len <= out.Length
    modifies out
    ensures BitsOf(out[..len]) == ZeroPadded([], 8 * len)
    ensures out[len..] == old(out[len..])
  {
    for i := 0 to len
      invariant forall k :: 0 <= k < i ==> out[k] == 0
      invariant out[len..] == old(out[len..])
    {
      out[i] := 0;
    }
    ZeroBits(out[..len]);
  }

  lemma {:induction false} ZeroBits(bytes: seq<byte>)
    requires forall k :: 0 <= k < |bytes| ==> bytes[k] == 0
    ensures BitsOf(bytes) == seq(8 * |bytes|, _ => false)
  {
    if bytes == [] {
    } else {
      ZeroBits(bytes[..|bytes| - 1]);
      ZeroByte(8);
    }
  }

  lemma {:induction false} ZeroByte(n: nat)
    ensures ToBits(0, n) == seq(n, _ => false)
  {
    if n == 0 {
    } else {
      ZeroByte(n - 1);
    }
  }

  /** Descramble the first len bytes of the input into out. */
  method Il2pDescrambleBlock(input: seq<byte>, out: array<byte>, len: nat)
    requires len <= |input| && len <= out.Length
    modifies out
    ensures out[..len] == DescrambledBytes(input[..len])
    ensures out[len..] == old(out[len..])
  {
    hide ToBits, FromBits, BitsOf, BytesOf, Bit, SetBit, Pow2, Descrambled, DescrambleBit, RxAt;
    ghost var ys := BitsOf(input[..len]);
    var state := INIT_RX_LSFR;
    Clear(out, len);
    RxStart(ys);
    for b := 0 to len
      invariant state == RxAt(ys, 8 * b)
      invariant BitsOf(out[..len]) == ZeroPadded(Descrambled(ONES, ys[..8 * b]), 8 * len)
      invariant out[len..] == old(out[len..])
    {
      var m := 0x80;
      ghost var j := 0;
      Pow2Eight();
      while m != 0
        invariant 0 <= j <= 8 && m == if j == 8 then 0 else Pow2(7 - j)
        invariant state == RxAt(ys, 8 * b + j)
        invariant BitsOf(out[..len]) == ZeroPadded(Descrambled(ONES, ys[..8 * b + j]), 8 * len)
        invariant out[len..] == old(out[len..])
        decreases 8 - j
      {
        InputBit(input[..len], b, j);
        RxAdvance(ys, 8 * b + j);
        var (d, next) := DescrambleBit(Bit(input[b], m), state);
        state := next;
        NextMask(j);
        var ob, om := PutBit(out, len, b, m, d, Descrambled(ONES, ys[..8 * b + j]));
        m := m / 2;
        j := j + 1;
      }
    }
    assert ys[..8 * len] == ys;
    Complete(out[..len], Descrambled(ONES, ys));
  }

  lemma InputBit(data: seq<byte>, i: nat, j: nat)
    requires i < |data| && j < 8
    ensures Bit(data[i], Pow2(7 - j)) == BitsOf(data)[8 * i + j]
  {
    hide ToBits, BitsOf, Bit, Pow2;
    BitsOfAt(data, i, j);
    BitOf(data[i], 8, j);
  }

  // A buffer whose bits are all written holds exactly those bits.
  lemma Complete(bytes: seq<byte>, bs: seq<bool>)
    requires |bs| == 8 * |bytes| && BitsOf(bytes) == ZeroPadded(bs, 8 * |bytes|)
    ensures bytes == BytesOf(bs)
  {
    hide BitsOf, BytesOf;
    assert ZeroPadded(bs, 8 * |bytes|) == bs;
    BytesOfBits(bytes);
  }

  // The bits that the transmit register is fed: the data between two runs of five zeros.
  ghost function Stream(data: seq<byte>): (r: seq<bool>)
    ensures |r| == 8 * |data| + 10
  {
    ZERO5 + BitsOf(data) + ZERO5
  }

  lemma StreamBit(data: seq<byte>, i: nat, j: nat)
    requires i < |data| && j < 8
    ensures Stream(data)[8 * i + j + 5] == Bit(data[i], Pow2(7 - j))
  {
    hide Bit, Pow2, BitsOf;
    InputBit(data, i, j);
  }

  /** The bits sent once m bits have been fed: the first five out are skipped. */
  ghost function Sent(stream: seq<bool>, m: nat): (ys: seq<bool>)
    requires m <= |stream|
    ensures |ys| == if m < 5 then 0 else m - 5
  {
    if m < 5 then [] else Scrambled(START, stream[..m])[5..]
  }

  lemma SentStep(stream: seq<bool>, m: nat)
    requires m + 5 < |stream|
    ensures Sent(stream, m + 1) == if m < 5 then []
        else Sent(stream, m) + [ScrambleBit(stream[m + 5], TxAt(stream, m)).0]
  {
    hide Scrambled, TxAt, ScrambleBit;
    TxAdvance(stream, m);
  }

  lemma SentAll(data: seq<byte>)
    ensures Sent(Stream(data), 8 * |data| + 5) == Scrambled(ONES, BitsOf(data))
  {
    hide Scrambled, BitsOf;
    assert Stream(data)[..8 * |data| + 5] == ZERO5 + BitsOf(data);
    WarmUp(BitsOf(data));
  }

  /** The buffer, the write position and the register after m bits of the stream z. */
  ghost predicate Progress(out: seq<byte>, ob: nat, om: nat, state: State, z: seq<bool>, m: nat)
    requires m + 5 <= |z|
  {
    && |Sent(z, m)| <= 8 * |out|
    && state == TxAt(z, m)
    && BitsOf(out) == ZeroPadded(Sent(z, m), 8 * |out|)
    && ob == |Sent(z, m)| / 8 && om == Pow2(7 - |Sent(z, m)| % 8)
  }

  // Feed one bit and write the bit that comes out, unless it is one of the first five.
  method ScrambleOne(x: bool, out: array<byte>, len: nat, ob: nat, om: nat, state: State, skipping: bool,
                     ghost z: seq<bool>, ghost m: nat)
    returns (ob': nat, om': nat, state': State)
    requires len <= out.Length && |z| == 8 * len + 10 && m < 8 * len + 5 && x == z[m + 5]
    requires skipping <==> m < 5
    requires Progress(out[..len], ob, om, state, z, m)
    modifies out
    ensures Progress(out[..len], ob', om', state', z, m + 1)
    ensures out[len..] == old(out[len..])
  {
    hide BitsOf, Pow2, ScrambleBit, TxAt, Sent;
    TxAdvance(z, m);
    SentStep(z, m);
    var (s, next) := ScrambleBit(x, state);
    ob', om', state' := ob, om, next;
    if !skipping {
      ob', om' := PutBit(out, len, ob, om, s, Sent(z, m));
    } else {
      assert Sent(z, m) == Sent(z, m + 1) == [];
    }
  }

  /** Scramble the first len bytes of the input into out. */
  method Il2pScrambleBlock(input: seq<byte>, out: array<byte>, len: nat)
    requires 1 <= len <= |input| && len <= out.Length
    modifies out
    ensures out[..len] == ScrambledBytes(input[..len])
    ensures out[len..] == old(out[len..])
  {
    hide BitsOf, BytesOf, Bit, Pow2, Scrambled, Stream, Sent, Progress, TxAt;
    ghost var data := input[..len];
    ghost var z := Stream(data);
    var state := INIT_TX_LSFR;
    Clear(out, len);
    ProgressStart(data, out[..len]);
    var skipping := true; // what was under way before the block is not written
    var ob, om := 0, 0x80;
    for ib := 0 to len
      invariant skipping <==> ib == 0
      invariant Progress(out[..len], ob, om, state, z, 8 * ib)
      invariant out[len..] == old(out[len..])
    {
      var im := 0x80;
      ghost var j := 0;
      Pow2Eight();
      while im != 0
        invariant 0 <= j <= 8 && im == if j == 8 then 0 else Pow2(7 - j)
        invariant skipping <==> 8 * ib + j <= 5
        invariant Progress(out[..len], ob, om, state, z, 8 * ib + j)
        invariant out[len..] == old(out[len..])
        decreases 8 - j
      {
        StreamBit(data, ib, j);
        SixthMask(j);
        if ib == 0 && im == 0x04 {
          skipping := false;
        }
        ob, om, state := ScrambleOne(Bit(input[ib], im), out, len, ob, om, state, skipping, z, 8 * ib + j);
        NextMask(j);
        im := im / 2;
        j := j + 1;
      }
    }
    for n := 0 to 5
      invariant Progress(out[..len], ob, om, state, z, 8 * len + n)
      invariant out[len..] == old(out[len..])
    {
      StreamEnd(data, n);
      ob, om, state := ScrambleOne(false, out, len, ob, om, state, false, z, 8 * len + n);
    }
    ProgressEnd(data, out[..len], ob, om, state);
  }

  lemma ProgressStart(data: seq<byte>, out: seq<byte>)
    requires |data| == |out| && BitsOf(out) == ZeroPadded([], 8 * |out|)
    ensures Progress(out, 0, 0x80, INIT_TX_LSFR, Stream(data), 0)
  {
    hide BitsOf, Pow2, TxAt;
    StreamStart(data);
    TxStart(Stream(data));
    Pow2Eight();
  }

  lemma ProgressEnd(data: seq<byte>, out: seq<byte>, ob: nat, om: nat, state: State)
    requires |data| == |out| && Progress(out, ob, om, state, Stream(data), 8 * |data| + 5)
    ensures out == ScrambledBytes(data)
  {
    hide BitsOf, Pow2, TxAt, BytesOf, Scrambled, Stream, Sent;
    SentAll(data);
    Complete(out, Scrambled(ONES, BitsOf(data)));
  }

  lemma StreamStart(data: seq<byte>)
    ensures Stream(data)[..5] == ZERO5
    ensures Sent(Stream(data), 0) == []
  {
    hide BitsOf;
  }

  lemma StreamEnd(data: seq<byte>, n: nat)
    requires n < 5
    ensures !Stream(data)[8 * |data| + n + 5]
  {
    hide BitsOf;
  }

  lemma SixthMask(j: nat)
    requires j < 8
    ensures Pow2(7 - j) == 0x04 <==> j == 5
  {
    assert Pow2(0) == 1;
    assert Pow2(1) == 2;
    assert Pow2(2) == 4;
    assert Pow2(3) == 8;
    assert Pow2(4) == 16;
    assert Pow2(5) == 32;
    assert Pow2(6) == 64;
    assert Pow2(7) == 128;
  }
}
