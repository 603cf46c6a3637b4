/** The field GF(256) with reducing polynomial x^8 + x^4 + x^3 + x^2 + 1 (0x11d), elements
    coded as bytes: addition is bitwise exclusive or, multiplication is polynomial
    multiplication modulo 0x11d, and Alpha(n) is the n-th power of the generator x. */
module Gf256 {

  type byte = x: int | 0 <= x < 256

  // ---------- exclusive or of natural numbers ----------

  function Xor(a: nat, b: nat): (r: nat)
  {
    if a == 0 then b else if b == 0 then a
    else (if a % 2 == b % 2 then 0 else 1) + 2 * Xor(a / 2, b / 2)
  }

  lemma XorZero(a: nat)
    ensures Xor(0, a) == a == Xor(a, 0)
  {
  }

  lemma {:induction false} XorComm(a: nat, b: nat)
    ensures Xor(a, b) == Xor(b, a)
  {
    if a == 0 || b == 0 {
    } else {
      XorComm(a / 2, b / 2);
    }
  }

  // Xor works bit by bit.
  lemma {:induction false} XorJoin(m: nat, i: nat, n: nat, j: nat)
    requires i < 2 && j < 2
    ensures Xor(2 * m + i, 2 * n + j) == 2 * Xor(m, n) + if i == j then 0 else 1
  {
    assert (2 * m + i) / 2 == m && (2 * n + j) / 2 == n;
  }

  lemma {:induction false} XorAssoc(a: nat, b: nat, c: nat)
    ensures Xor(a, Xor(b, c)) == Xor(Xor(a, b), c)
    decreases a
  {
    hide Xor;
    if a == 0 {
      XorZero(Xor(b, c));
      XorZero(b);
    } else {
      XorAssoc(a / 2, b / 2, c / 2);
      XorAssocJoin(a / 2, a % 2, b / 2, b % 2, c / 2, c % 2);
      Digits(a);
      Digits(b);
      Digits(c);
    }
  }

  lemma Digits(a: nat)
    ensures a == 2 * (a / 2) + a % 2
  {
  }

  lemma XorAssocJoin(a: nat, i: nat, b: nat, j: nat, c: nat, k: nat)
    requires i < 2 && j < 2 && k < 2
    requires Xor(a, Xor(b, c)) == Xor(Xor(a, b), c)
    ensures Xor(2 * a + i, Xor(2 * b + j, 2 * c + k)) == Xor(Xor(2 * a + i, 2 * b + j), 2 * c + k)
  {
    hide Xor;
    XorJoin(b, j, c, k);
    XorJoin(a, i, b, j);
    XorJoin(a, i, Xor(b, c), if j == k then 0 else 1);
    XorJoin(Xor(a, b), if i == j then 0 else 1, c, k);
  }

  // (a ^ b) ^ (c ^ d) == (a ^ c) ^ (b ^ d)
  lemma XorSwap(a: nat, b: nat, c: nat, d: nat)
    ensures Xor(Xor(a, b), Xor(c, d)) == Xor(Xor(a, c), Xor(b, d))
  {
    hide Xor;
    XorAssoc(a, b, Xor(c, d));
    XorAssoc(b, c, d);
    XorComm(b, c);
    XorAssoc(c, b, d);
    XorAssoc(a, c, Xor(b, d));
  }

  lemma {:induction false} XorSelf(a: nat)
    ensures Xor(a, a) == 0
  {
    if a == 0 {
    } else {
      XorSelf(a / 2);
    }
  }

  function Pow2(n: nat): (r: nat)
    ensures r > 0
  {
    if n == 0 then 1 else 2 * Pow2(n - 1)
  }

  lemma {:induction false} XorBound(a: nat, b: nat, n: nat)
    requires a < Pow2(n) && b < Pow2(n)
    ensures Xor(a, b) < Pow2(n)
    decreases n
  {
    if n == 0 {
    } else {
      XorBound(a / 2, b / 2, n - 1);
    }
  }

  // ---------- addition ----------

  function Add(a: byte, b: byte): byte
  {
    assert Pow2(8) == 256;
    XorBound(a, b, 8);
    Xor(a, b)
  }

  lemma AddZero(a: byte)
    ensures Add(0, a) == a && Add(a, 0) == a
  {
    XorZero(a);
  }

  lemma AddSelf(a: byte)
    ensures Add(a, a) == 0
  {
    XorSelf(a);
  }

  lemma AddComm(a: byte, b: byte)
    ensures Add(a, b) == Add(b, a)
  {
    XorComm(a, b);
  }

  lemma AddAssoc(a: byte, b: byte, c: byte)
    ensures Add(a, Add(b, c)) == Add(Add(a, b), c)
  {
    XorAssoc(a, b, c);
  }

  lemma AddCancel(a: byte, b: byte)
    ensures Add(a, Add(a, b)) == b
    ensures Add(Add(b, a), a) == b
  {
    hide *;
    AddAssoc(a, a, b);
    AddAssoc(b, a, a);
    AddSelf(a);
    AddZero(b);
  }

  lemma AddIsZero(a: byte, b: byte)
    ensures Add(a, b) == 0 <==> a == b
  {
    hide *;
    AddCancel(a, b);
    AddZero(a);
    AddSelf(a);
  }

  // (a + b) + (c + d) == (a + c) + (b + d)
  lemma AddSwap(a: byte, b: byte, c: byte, d: byte)
    ensures Add(Add(a, b), Add(c, d)) == Add(Add(a, c), Add(b, d))
  {
    hide Xor;
    XorSwap(a, b, c, d);
  }

  // ---------- multiplication ----------

  /** Multiply by x and reduce modulo 0x11d: the step of the shift register that fills the tables. */
  function Double(a: byte): byte
  {
    if a < 128 then 2 * a else DoubleFits(a); Xor(2 * a, 0x11d)
  }

  lemma DoubleFits(a: byte)
    requires a >= 128
    ensures Xor(2 * a, 0x11d) < 256
  {
    // 2a and 0x11d both have bit 8 set, so it cancels
    assert 2 * a == 256 + (2 * a - 256);
    HighBitCancels(2 * a - 256, 0x1d, 8);
  }

  lemma {:induction false} HighBitCancels(a: nat, b: nat, n: nat)
    requires a < Pow2(n) && b < Pow2(n)
    ensures Xor(Pow2(n) + a, Pow2(n) + b) == Xor(a, b) < Pow2(n)
    decreases n
  {
    hide Xor, Pow2;
    XorBound(a, b, n);
    if n == 0 {
      OneBit(a, b);
    } else {
      Halve(a, n);
      Halve(b, n);
      HighBitCancels(a / 2, b / 2, n - 1);
      HighBitJoin(a / 2, a % 2, b / 2, b % 2, Pow2(n - 1));
    }
  }

  // Numbers of no bits.
  lemma OneBit(a: nat, b: nat)
    requires a < Pow2(0) && b < Pow2(0)
    ensures a == b == 0 && Pow2(0) == 1 && Xor(1, 1) == 0 && Xor(0, 0) == 0 && Xor(1, 0) == 1
  {
  }

  lemma Halve(a: nat, n: nat)
    requires n > 0 && a < Pow2(n)
    ensures Pow2(n) == 2 * Pow2(n - 1) && a == 2 * (a / 2) + a % 2 && a / 2 < Pow2(n - 1)
  {
  }

  lemma HighBitJoin(a: nat, i: nat, b: nat, j: nat, p: nat)
    requires i < 2 && j < 2
    requires Xor(p + a, p + b) == Xor(a, b)
    ensures Xor(2 * p + (2 * a + i), 2 * p + (2 * b + j)) == Xor(2 * a + i, 2 * b + j)
  {
    hide Xor;
    XorJoin(a, i, b, j);
    XorJoin(p + a, i, p + b, j);
  }

  lemma {:induction false} HighBitKeeps(a: nat, b: nat, n: nat)
    requires a < Pow2(n) && b < Pow2(n)
    ensures Xor(Pow2(n) + a, b) == Pow2(n) + Xor(a, b)
    decreases n
  {
    hide Xor, Pow2;
    if n == 0 {
      OneBit(a, b);
    } else {
      Halve(a, n);
      Halve(b, n);
      HighBitKeeps(a / 2, b / 2, n - 1);
      KeepJoin(a / 2, a % 2, b / 2, b % 2, Pow2(n - 1));
    }
  }

  lemma KeepJoin(a: nat, i: nat, b: nat, j: nat, p: nat)
    requires i < 2 && j < 2
    requires Xor(p + a, b) == p + Xor(a, b)
    ensures Xor(2 * p + (2 * a + i), 2 * b + j) == 2 * p + Xor(2 * a + i, 2 * b + j)
  {
    hide Xor;
    XorJoin(a, i, b, j);
    XorJoin(p + a, i, b, j);
  }

  // The reduction that doubling a has to apply.
  function Reduction(a: byte): nat {
    if a < 128 then 0 else 0x11d
  }

  lemma DoubleReduces(a: byte)
    ensures Double(a) == Xor(2 * a, Reduction(a))
  {
    hide Xor;
    XorZero(2 * a);
  }

  lemma ReductionLinear(a: byte, b: byte)
    ensures Reduction(Add(a, b)) == Xor(Reduction(a), Reduction(b))
  {
    assert Pow2(7) == 128;
    XorSelf(0x11d);
    XorZero(0x11d);
    XorZero(0);
    hide Xor;
    if a < 128 && b < 128 {
      XorBound(a, b, 7);
    } else if a >= 128 && b >= 128 {
      HighBitCancels(a - 128, b - 128, 7);
    } else if a >= 128 {
      HighBitKeeps(a - 128, b, 7);
    } else {
      XorComm(a, b);
      HighBitKeeps(b - 128, a, 7);
    }
  }

  lemma DoubleLinear(a: byte, b: byte)
    ensures Double(Add(a, b)) == Add(Double(a), Double(b))
  {
    hide Xor, Double, Reduction;
    DoubleReduces(a);
    DoubleReduces(b);
    DoubleReduces(Add(a, b));
    ReductionLinear(a, b);
    XorJoin(a, 0, b, 0);
    XorSwap(2 * a, 2 * b, Reduction(a), Reduction(b));
  }

  /** The product of the polynomials a and b modulo 0x11d, by Horner's rule on the bits of b. */
  function Mul(a: byte, b: byte): byte
  {
    if b == 0 then 0 else Add(Double(Mul(a, b / 2)), if b % 2 == 1 then a else 0)
  }

  lemma {:induction false} MulAddLeft(a: byte, b: byte, c: byte)
    ensures Mul(Add(a, b), c) == Add(Mul(a, c), Mul(b, c))
    decreases c
  {
    AddZero(0);
    if c == 0 {
    } else {
      hide Add, Double;
      MulAddLeft(a, b, c / 2);
      DoubleLinear(Mul(a, c / 2), Mul(b, c / 2));
      AddSwap(Double(Mul(a, c / 2)), Double(Mul(b, c / 2)), if c % 2 == 1 then a else 0, if c % 2 == 1 then b else 0);
    }
  }

  lemma {:induction false} MulDouble(a: byte, c: byte)
    ensures Mul(Double(a), c) == Double(Mul(a, c))
    decreases c
  {
    assert Double(0) == 0;
    if c == 0 {
    } else {
      hide Add, Double;
      MulDouble(a, c / 2);
      DoubleLinear(Double(Mul(a, c / 2)), if c % 2 == 1 then a else 0);
    }
  }

  lemma {:induction false} MulOne(c: byte)
    ensures Mul(1, c) == c && Mul(c, 1) == c
  {
    assert Mul(c, 0) == 0 && Double(0) == 0;
    AddZero(c);
    if c == 0 {
    } else {
      MulOne(c / 2);
      XorJoin(c / 2, 0, 0, c % 2);
      XorZero(c / 2);
      assert Double(c / 2) == 2 * (c / 2);
      hide Xor;
      assert Mul(1, c) == Add(Double(Mul(1, c / 2)), c % 2);
    }
  }

  lemma {:induction false} MulZero(c: byte)
    ensures Mul(0, c) == 0 && Mul(c, 0) == 0
  {
    assert Double(0) == 0;
    AddZero(0);
    if c == 0 {
    } else {
      hide Add, Double;
      MulZero(c / 2);
    }
  }

  // ---------- powers of the generator ----------

  function Alpha(n: nat): byte
  {
    if n == 0 then 1 else Double(Alpha(n - 1))
  }

  lemma {:induction false} AlphaTimes(i: nat, c: byte, m: nat)
    requires c == Alpha(m)
    ensures Mul(Alpha(i), c) == Alpha(i + m)
    decreases i
  {
    MulOne(c);
    if i == 0 {
    } else {
      hide Double, Mul;
      AlphaTimes(i - 1, c, m);
      MulDouble(Alpha(i - 1), c);
    }
  }

  lemma AlphaZero()
    ensures Alpha(0) == 1
  {
  }

  lemma AlphaAdd(i: nat, j: nat)
    ensures Mul(Alpha(i), Alpha(j)) == Alpha(i + j)
  {
    AlphaTimes(i, Alpha(j), j);
  }

  lemma Xor256With285()
    ensures Xor(256, 285) == 29
  {
    assert Xor(1, 1) == 0 && Xor(2, 2) == 0 && Xor(4, 4) == 0 && Xor(8, 8) == 0 && Xor(16, 17) == 1 && Xor(32, 35) == 3
        && Xor(64, 71) == 7 && Xor(128, 142) == 14 && Xor(256, 285) == 29;
  }

  lemma Xor464With285()
    ensures Xor(464, 285) == 205
  {
    assert Xor(3, 2) == 1 && Xor(7, 4) == 3 && Xor(14, 8) == 6 && Xor(29, 17) == 12 && Xor(58, 35) == 25
        && Xor(116, 71) == 51 && Xor(232, 142) == 102 && Xor(464, 285) == 205;
  }

  lemma LiteralsA()
    ensures Xor(256, 285) == 29
    ensures Xor(464, 285) == 205
  {
    hide Xor;
    Xor256With285();
    Xor464With285();
  }

  lemma Xor410With285()
    ensures Xor(410, 285) == 135
  {
    assert Xor(1, 1) == 0 && Xor(3, 2) == 1 && Xor(6, 4) == 2 && Xor(12, 8) == 4 && Xor(25, 17) == 8
        && Xor(51, 35) == 16 && Xor(102, 71) == 33 && Xor(205, 142) == 67 && Xor(410, 285) == 135;
  }

  lemma Xor270With285()
    ensures Xor(270, 285) == 19
  {
    assert Xor(2, 2) == 0 && Xor(4, 4) == 0 && Xor(8, 8) == 0 && Xor(16, 17) == 1 && Xor(33, 35) == 2
        && Xor(67, 71) == 4 && Xor(135, 142) == 9 && Xor(270, 285) == 19;
  }

  lemma LiteralsB()
    ensures Xor(410, 285) == 135
    ensures Xor(270, 285) == 19
  {
    hide Xor;
    Xor410With285();
    Xor270With285();
  }

  lemma Xor304With285()
    ensures Xor(304, 285) == 45
  {
    assert Xor(1, 1) == 0 && Xor(2, 2) == 0 && Xor(4, 4) == 0 && Xor(9, 8) == 1 && Xor(19, 17) == 2 && Xor(38, 35) == 5
        && Xor(76, 71) == 11 && Xor(152, 142) == 22 && Xor(304, 285) == 45;
  }

  lemma Xor45With35()
    ensures Xor(45, 35) == 14
  {
    assert Xor(2, 2) == 0 && Xor(5, 4) == 1 && Xor(11, 8) == 3 && Xor(22, 17) == 7;
  }

  lemma Xor360With285()
    ensures Xor(360, 285) == 117
  {
    hide Xor;
    Xor45With35();
    XorJoin(45, 0, 35, 1);
    XorJoin(90, 0, 71, 0);
    XorJoin(180, 0, 142, 1);
  }

  lemma LiteralsC()
    ensures Xor(304, 285) == 45
    ensures Xor(360, 285) == 117
  {
    hide Xor;
    Xor304With285();
    Xor360With285();
  }

  lemma Xor468With285()
    ensures Xor(468, 285) == 201
  {
    assert Xor(1, 1) == 0 && Xor(3, 2) == 1 && Xor(7, 4) == 3 && Xor(14, 8) == 6 && Xor(29, 17) == 12
        && Xor(58, 35) == 25 && Xor(117, 71) == 50 && Xor(234, 142) == 100 && Xor(468, 285) == 201;
  }

  lemma Xor402With285()
    ensures Xor(402, 285) == 143
  {
    assert Xor(1, 1) == 0 && Xor(3, 2) == 1 && Xor(6, 4) == 2 && Xor(12, 8) == 4 && Xor(25, 17) == 8
        && Xor(50, 35) == 17 && Xor(100, 71) == 35
        && Xor(201, 142) == 71 && Xor(402, 285) == 143;
  }

  lemma LiteralsD()
    ensures Xor(468, 285) == 201
    ensures Xor(402, 285) == 143
  {
    hide Xor;
    Xor468With285();
    Xor402With285();
  }

  lemma Xor143With117()
    ensures Xor(143, 117) == 250
  {
    assert Xor(2, 1) == 3 && Xor(4, 3) == 7 && Xor(8, 7) == 15 && Xor(17, 14) == 31 && Xor(35, 29) == 62
        && Xor(71, 58) == 125 && Xor(143, 117) == 250;
  }

  lemma Xor250With180()
    ensures Xor(250, 180) == 78
  {
    assert Xor(1, 1) == 0 && Xor(3, 2) == 1 && Xor(7, 5) == 2 && Xor(15, 11) == 4 && Xor(31, 22) == 9
        && Xor(62, 45) == 19 && Xor(125, 90) == 39 && Xor(250, 180) == 78;
  }

  lemma LiteralsE()
    ensures Xor(143, 117) == 250
    ensures Xor(250, 180) == 78
  {
    hide Xor;
    Xor143With117();
    Xor250With180();
  }

  lemma Xor201With180()
    ensures Xor(201, 180) == 125
  {
    assert Xor(1, 1) == 0 && Xor(3, 2) == 1 && Xor(6, 5) == 3 && Xor(12, 11) == 7 && Xor(25, 22) == 15
        && Xor(50, 45) == 31 && Xor(100, 90) == 62 && Xor(201, 180) == 125;
  }

  lemma Xor125With90()
    ensures Xor(125, 90) == 39
  {
    assert Xor(7, 5) == 2 && Xor(15, 11) == 4 && Xor(31, 22) == 9 && Xor(62, 45) == 19 && Xor(125, 90) == 39;
  }

  lemma Xor39With45()
    ensures Xor(39, 45) == 10
  {
    assert Xor(2, 2) == 0 && Xor(4, 5) == 1 && Xor(9, 11) == 2 && Xor(19, 22) == 5 && Xor(39, 45) == 10;
  }

  lemma LiteralsF()
    ensures Xor(201, 180) == 125
    ensures Xor(125, 90) == 39
    ensures Xor(39, 45) == 10
  {
    hide Xor;
    Xor201With180();
    Xor125With90();
    Xor39With45();
  }

  lemma Xor180With45()
    ensures Xor(180, 45) == 153
  {
    assert Xor(5, 1) == 4 && Xor(11, 2) == 9 && Xor(22, 5) == 19 && Xor(45, 11) == 38 && Xor(90, 22) == 76
        && Xor(180, 45) == 153;
  }

  lemma Xor152With1()
    ensures Xor(152, 1) == 153
  {
    assert Xor(152, 1) == 153;
  }

  lemma Xor78With152()
    ensures Xor(78, 152) == 214
  {
    assert Xor(1, 2) == 3 && Xor(2, 4) == 6 && Xor(4, 9) == 13 && Xor(9, 19) == 26 && Xor(19, 38) == 53
        && Xor(39, 76) == 107 && Xor(78, 152) == 214;
  }

  lemma LiteralsG()
    ensures Xor(180, 45) == 153
    ensures Xor(152, 1) == 153
    ensures Xor(78, 152) == 214
  {
    hide Xor;
    Xor180With45();
    Xor152With1();
    Xor78With152();
  }

  lemma LiteralsH()
    ensures Xor(128, 16) == 144
    ensures Xor(144, 8) == 152
    ensures Xor(64, 8) == 72
    ensures Xor(72, 4) == 76
    ensures Xor(76, 2) == 78
    ensures Xor(8, 2) == 10
  {
    assert Xor(8, 1) == 9 && Xor(16, 2) == 18 && Xor(32, 4) == 36 && Xor(64, 8) == 72 && Xor(128, 16) == 144;
    assert Xor(18, 1) == 19 && Xor(36, 2) == 38 && Xor(72, 4) == 76 && Xor(144, 8) == 152;
    assert Xor(38, 1) == 39 && Xor(76, 2) == 78;
    assert Xor(4, 1) == 5 && Xor(8, 2) == 10;
  }

  // The first powers of the generator, by doubling.
  lemma AlphaTo12()
    ensures Alpha(0) == 1 && Alpha(1) == 2 && Alpha(2) == 4 && Alpha(3) == 8 && Alpha(4) == 16 && Alpha(5) == 32
    ensures Alpha(6) == 64 && Alpha(7) == 128 && Alpha(8) == 29 && Alpha(12) == 205
  {
    LiteralsA();
    hide Xor;
    assert Alpha(1) == 2;
    assert Alpha(2) == 4;
    assert Alpha(3) == 8;
    assert Alpha(4) == 16;
    assert Alpha(5) == 32;
    assert Alpha(6) == 64;
    assert Alpha(7) == 128;
    assert Alpha(8) == 29;
    assert Alpha(9) == 58;
    assert Alpha(10) == 116;
    assert Alpha(11) == 232;
  }

  lemma AlphaTo18()
    ensures Alpha(15) == 38 && Alpha(17) == 152 && Alpha(18) == 45
  {
    AlphaTo12();
    LiteralsB();
    LiteralsC();
    hide Xor;
    assert Alpha(13) == 135;
    assert Alpha(14) == 19;
    assert Alpha(15) == 38;
    assert Alpha(16) == 76;
    assert Alpha(17) == 152;
  }

  lemma AlphaTo24()
    ensures Alpha(18) == 45 && Alpha(19) == 90 && Alpha(20) == 180
    ensures Alpha(21) == 117 && Alpha(23) == 201 && Alpha(24) == 143
  {
    AlphaTo18();
    LiteralsC();
    LiteralsD();
    hide Xor;
    assert Alpha(19) == 90;
    assert Alpha(20) == 180;
    assert Alpha(21) == 117;
    assert Alpha(22) == 234;
    assert Alpha(23) == 201;
  }

  // A linear relation between powers of the generator holds at every shift.
  lemma AlphaShift2(n: nat, i: nat, j: nat, m: nat)
    requires Alpha(n) == Add(Alpha(i), Alpha(j))
    ensures Alpha(n + m) == Add(Alpha(i + m), Alpha(j + m))
  {
    hide *;
    AlphaAdd(n, m);
    AlphaAdd(i, m);
    AlphaAdd(j, m);
    MulAddLeft(Alpha(i), Alpha(j), Alpha(m));
  }

  lemma AlphaShift3(n: nat, i: nat, j: nat, k: nat, m: nat)
    requires Alpha(n) == Add(Add(Alpha(i), Alpha(j)), Alpha(k))
    ensures Alpha(n + m) == Add(Add(Alpha(i + m), Alpha(j + m)), Alpha(k + m))
  {
    hide *;
    AlphaAdd(n, m);
    AlphaAdd(i, m);
    AlphaAdd(j, m);
    AlphaAdd(k, m);
    MulAddLeft(Add(Alpha(i), Alpha(j)), Alpha(k), Alpha(m));
    MulAddLeft(Alpha(i), Alpha(j), Alpha(m));
  }

  lemma AlphaShift4(n: nat, i: nat, j: nat, k: nat, l: nat, m: nat)
    requires Alpha(n) == Add(Add(Add(Alpha(i), Alpha(j)), Alpha(k)), Alpha(l))
    ensures Alpha(n + m) == Add(Add(Add(Alpha(i + m), Alpha(j + m)), Alpha(k + m)), Alpha(l + m))
  {
    hide *;
    AlphaAdd(n, m);
    AlphaAdd(i, m);
    AlphaAdd(j, m);
    AlphaAdd(k, m);
    AlphaAdd(l, m);
    MulAddLeft(Add(Add(Alpha(i), Alpha(j)), Alpha(k)), Alpha(l), Alpha(m));
    MulAddLeft(Add(Alpha(i), Alpha(j)), Alpha(k), Alpha(m));
    MulAddLeft(Alpha(i), Alpha(j), Alpha(m));
  }

  lemma Alpha34()
    ensures Alpha(34) == 78
  {
    AlphaTo12();
    AlphaTo18();
    AlphaTo24();
    LiteralsE();
    LiteralsH();
    hide Xor, Alpha;
    AlphaShift3(17, 7, 4, 3, 17);
  }

  lemma Alpha51()
    ensures Alpha(51) == 10
  {
    AlphaTo12();
    Alpha34();
    AlphaTo24();
    LiteralsF();
    LiteralsH();
    hide Xor, Alpha;
    AlphaShift4(34, 6, 3, 2, 1, 17);
  }

  lemma Alpha68()
    ensures Alpha(68) == Add(Alpha(17), Alpha(0))
  {
    AlphaTo12();
    Alpha51();
    AlphaTo18();
    AlphaTo24();
    LiteralsG();
    LiteralsH();
    hide Xor, Alpha;
    AlphaShift2(51, 3, 1, 17);
  }

  lemma Alpha85()
    ensures Alpha(85) == Add(Alpha(34), Alpha(17)) == 214
  {
    Alpha68();
    Alpha34();
    AlphaTo18();
    LiteralsG();
    hide Xor, Alpha;
    AlphaShift2(68, 17, 0, 17);
  }

  lemma Alpha170()
    ensures Alpha(170) == Add(Alpha(85), Alpha(0))
  {
    hide *;
    Alpha68();
    Alpha85();
    AlphaShift2(68, 17, 0, 34);
    AlphaShift2(68, 17, 0, 51);
    AlphaShift2(85, 34, 17, 85);
    // 170 = 119 + 102 = (68 + 51) + (51 + 34)
    AddComm(Alpha(51), Alpha(34));
    AddSwap(Alpha(68), Alpha(51), Alpha(34), Alpha(51));
    AddSelf(Alpha(51));
    AddZero(Add(Alpha(68), Alpha(34)));
    AddComm(Alpha(68), Alpha(34));
    AddAssoc(Alpha(34), Alpha(17), Alpha(0));
  }

  /** The order of the generator divides 255. */
  lemma Alpha255()
    ensures Alpha(255) == 1
  {
    hide *;
    AlphaZero();
    Alpha170();
    AlphaShift2(170, 85, 0, 85);
    AddComm(Alpha(85), 1);
    AddCancel(Alpha(85), 1);
  }

  lemma {:induction false} AlphaCycle(n: nat, k: nat)
    ensures Alpha(n + 255 * k) == Alpha(n)
    decreases k
  {
    hide *;
    if k == 0 {
    } else {
      AlphaCycle(n, k - 1);
      Alpha255();
      AlphaAdd(n + 255 * (k - 1), 255);
      MulOne(Alpha(n));
    }
  }

  lemma AlphaMod(n: nat)
    ensures Alpha(n) == Alpha(n % 255)
  {
    hide *;
    AlphaCycle(n % 255, n / 255);
  }

  lemma AlphaNonzero(n: nat)
    ensures Alpha(n) != 0
  {
    hide *;
    var m := 255 * (n + 1) - n;
    AlphaAdd(n, m);
    AlphaZero();
    AlphaCycle(0, n + 1);
    MulZero(Alpha(m));
  }

  // Dividing one period of the generator by another leaves a remainder that is a period.
  lemma AlphaPeriodRem(p: nat, q: nat) returns (k: nat, r: nat)
    requires p > 0 && Alpha(p) == 1 && Alpha(q) == 1
    ensures q == p * k + r && r < p && Alpha(r) == 1
    decreases q
  {
    hide *;
    if q < p {
      k, r := 0, q;
    } else {
      AlphaAdd(q - p, p);
      MulOne(Alpha(q - p));
      k, r := AlphaPeriodRem(p, q - p);
      assert p * (k + 1) == p * k + p;
      k := k + 1;
    }
  }

  // The smallest period that is at most d.
  lemma LeastPeriod(d: nat) returns (p: nat)
    requires d > 0 && Alpha(d) == 1
    ensures 0 < p <= d && Alpha(p) == 1
    ensures forall e :: 0 < e < p ==> Alpha(e) != 1
  {
    hide *;
    if e :| 0 < e < d && Alpha(e) == 1 {
      p := LeastPeriod(e);
    } else {
      p := d;
    }
  }

  lemma SmallFactor(p: nat, k: nat)
    requires p * k == 255 && p < 255
    ensures p in {1, 3, 5, 15, 17, 51, 85}
  {
    if p <= 15 {
      SmallFactorCases(p, k);
    } else {
      FactorBound(p, k);
      SmallFactorCases(k, p);
    }
  }

  lemma FactorBound(p: nat, k: nat)
    requires p * k == 255 && p >= 16
    ensures k < 16
  {
    assert 16 * k <= p * k;
  }

  lemma SmallFactorCases(p: nat, k: nat)
    requires p * k == 255 && p < 16
    ensures (p == 1 && k == 255) || (p == 3 && k == 85) || (p == 5 && k == 51) || (p == 15 && k == 17)
  {
    if p < 8 {
      if p == 0 {} else if p == 1 {} else if p == 2 {} else if p == 3 {}
      else if p == 4 {} else if p == 5 {} else if p == 6 {} else {}
    } else {
      if p == 8 {} else if p == 9 {} else if p == 10 {} else if p == 11 {}
      else if p == 12 {} else if p == 13 {} else if p == 14 {} else {}
    }
  }

  // The generator is primitive: no smaller power is one.
  lemma AlphaOrder(d: nat)
    requires 0 < d < 255
    ensures Alpha(d) != 1
  {
    if Alpha(d) == 1 {
      Alpha255();
      var p := LeastPeriod(d);
      var k, r := AlphaPeriodRem(p, 255);
      assert r == 0;
      SmallFactor(p, k);
      AlphaFactors();
      assert false;
    }
  }

  /** The powers of the generator return to one exactly at the multiples of 255. */
  lemma AlphaOne(d: nat)
    ensures Alpha(d) == 1 <==> d % 255 == 0
  {
    hide *;
    AlphaMod(d);
    AlphaZero();
    if d % 255 != 0 {
      AlphaOrder(d % 255);
    }
  }

  lemma AlphaFactors()
    ensures Alpha(1) != 1 && Alpha(3) != 1 && Alpha(5) != 1 && Alpha(15) != 1
    ensures Alpha(17) != 1 && Alpha(51) != 1 && Alpha(85) != 1
  {
    hide *;
    AlphaTo12();
    AlphaTo18();
    Alpha51();
    Alpha85();
  }

  lemma AlphaInjective(i: nat, j: nat)
    requires i < j < 255
    ensures Alpha(i) != Alpha(j)
  {
    hide *;
    AlphaOrder(j - i);
    AlphaAdd(j - i, 255 - j);
    AlphaAdd(i, 255 - j);
    AlphaAdd(j, 255 - j);
    Alpha255();
    AlphaOrder(255 - (j - i));
  }

  // ---------- logarithms ----------

  ghost function Powers(n: nat): set<byte>
  {
    set i: nat | i < n :: Alpha(i)
  }

  lemma {:induction false} PowersCount(n: nat)
    requires n <= 255
    ensures |Powers(n)| == n
  {
    if n == 0 {
      assert Powers(0) == {};
    } else {
      PowersCount(n - 1);
      hide Alpha;
      forall i: nat | i < n - 1
        ensures Alpha(i) != Alpha(n - 1)
      {
        AlphaInjective(i, n - 1);
      }
      assert Powers(n) == Powers(n - 1) + {Alpha(n - 1)};
    }
  }

  lemma {:induction false} BytesCount(s: set<byte>, n: nat)
    requires n <= 255
    requires forall x :: x in s ==> 0 < x <= n
    ensures |s| <= n
  {
    if n == 0 {
      assert s == {};
    } else {
      BytesCount(s - {n}, n - 1);
    }
  }

  // Every nonzero byte is a power of the generator.
  lemma LogExists(x: byte)
    requires x != 0
    ensures exists i: nat :: i < 255 && Alpha(i) == x
  {
    PowersCount(255);
    hide Alpha;
    if x !in Powers(255) {
      forall y | y in Powers(255) + {x}
        ensures 0 < y <= 255
      {
        if i: nat :| i < 255 && y == Alpha(i) {
          AlphaNonzero(i);
        }
      }
      BytesCount(Powers(255) + {x}, 255);
      assert false;
    }
  }

  /** The discrete logarithm of a nonzero byte. */
  ghost function Log(x: byte): (i: nat)
    requires x != 0
    ensures i < 255 && Alpha(i) == x
  {
    LogExists(x);
    var i: nat :| i < 255 && Alpha(i) == x;
    i
  }

  lemma LogOfAlpha(i: nat)
    requires i < 255
    ensures Alpha(i) != 0 && Log(Alpha(i)) == i
  {
    hide Alpha;
    AlphaNonzero(i);
    var j := Log(Alpha(i));
    if j < i {
      AlphaInjective(j, i);
    } else if i < j {
      AlphaInjective(i, j);
    }
  }

  // ---------- the field laws ----------

  lemma MulComm(a: byte, b: byte)
    ensures Mul(a, b) == Mul(b, a)
  {
    hide *;
    MulZero(a);
    MulZero(b);
    if a != 0 && b != 0 {
      AlphaAdd(Log(a), Log(b));
      AlphaAdd(Log(b), Log(a));
    }
  }

  lemma MulAssoc(a: byte, b: byte, c: byte)
    ensures Mul(a, Mul(b, c)) == Mul(Mul(a, b), c)
  {
    hide *;
    if a == 0 {
      MulZero(Mul(b, c));
      MulZero(b);
      MulZero(c);
    } else if b == 0 {
      MulZero(a);
      MulZero(c);
    } else if c == 0 {
      MulZero(a);
      MulZero(b);
      MulZero(Mul(a, b));
    } else {
      AlphaAssoc(Log(a), Log(b), Log(c));
    }
  }

  lemma AlphaAssoc(i: nat, j: nat, k: nat)
    ensures Mul(Alpha(i), Mul(Alpha(j), Alpha(k))) == Mul(Mul(Alpha(i), Alpha(j)), Alpha(k))
  {
    hide *;
    AlphaAdd(i, j);
    AlphaAdd(j, k);
    AlphaAdd(i + j, k);
    AlphaAdd(i, j + k);
  }

  lemma MulAddRight(c: byte, a: byte, b: byte)
    ensures Mul(c, Add(a, b)) == Add(Mul(c, a), Mul(c, b))
  {
    hide *;
    MulAddLeft(a, b, c);
    MulComm(c, a);
    MulComm(c, b);
    MulComm(c, Add(a, b));
  }

  // There are no zero divisors.
  lemma MulNonzero(a: byte, b: byte)
    requires a != 0 && b != 0
    ensures Mul(a, b) != 0
  {
    hide *;
    AlphaAdd(Log(a), Log(b));
    AlphaNonzero(Log(a) + Log(b));
  }

  lemma MulIsZero(a: byte, b: byte)
    ensures Mul(a, b) == 0 <==> a == 0 || b == 0
  {
    hide *;
    MulZero(a);
    MulZero(b);
    if a != 0 && b != 0 {
      MulNonzero(a, b);
    }
  }

  /** The multiplicative inverse. */
  ghost function Inv(a: byte): (b: byte)
    requires a != 0
    ensures b != 0 && Mul(a, b) == 1 && Mul(b, a) == 1
  {
    AlphaAdd(Log(a), 255 - Log(a));
    Alpha255();
    AlphaNonzero(255 - Log(a));
    MulComm(a, Alpha(255 - Log(a)));
    Alpha(255 - Log(a))
  }

  function Pow(x: byte, n: nat): byte
  {
    if n == 0 then 1 else Mul(x, Pow(x, n - 1))
  }

  lemma {:induction false} PowAdd(x: byte, m: nat, n: nat)
    ensures Pow(x, m + n) == Mul(Pow(x, m), Pow(x, n))
    decreases m
  {
    hide Mul;
    if m == 0 {
      MulOne(Pow(x, n));
    } else {
      PowAdd(x, m - 1, n);
      MulAssoc(x, Pow(x, m - 1), Pow(x, n));
    }
  }

  lemma {:induction false} PowAlpha(i: nat, n: nat)
    ensures Pow(Alpha(i), n) == Alpha(i * n)
    decreases n
  {
    hide Mul, Alpha;
    if n == 0 {
      TimesNone(i);
      AlphaZero();
    } else {
      PowAlpha(i, n - 1);
      AlphaAdd(i, i * (n - 1));
      OneMore(i, n);
    }
  }

  lemma OneMore(i: nat, n: nat)
    requires n > 0
    ensures i * (n - 1) >= 0 && i + i * (n - 1) == i * n
  {
  }

  lemma TimesNone(i: nat)
    ensures i * 0 == 0
  {
  }
}
