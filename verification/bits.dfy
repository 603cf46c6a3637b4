/** Bytes as sequences of eight bits, most significant bit first. */
module Bits {
  import opened Gf256

  /** The n low bits of b, most significant first. */
  ghost function ToBits(b: nat, n: nat): (bs: seq<bool>)
    ensures |bs| == n
  {
    if n == 0 then [] else ToBits(b / 2, n - 1) + [b % 2 == 1]
  }

  ghost function FromBits(bs: seq<bool>): nat
  {
    if bs == [] then 0 else 2 * FromBits(bs[..|bs| - 1]) + if bs[|bs| - 1] then 1 else 0
  }

  lemma {:induction false} FromToBits(b: nat, n: nat)
    requires b < Pow2(n)
    ensures FromBits(ToBits(b, n)) == b
    decreases n
  {
    if n == 0 {
    } else {
      FromToBits(b / 2, n - 1);
      assert ToBits(b, n)[..n - 1] == ToBits(b / 2, n - 1);
    }
  }

  lemma {:induction false} ToFromBits(bs: seq<bool>)
    ensures ToBits(FromBits(bs), |bs|) == bs
    ensures FromBits(bs) < Pow2(|bs|)
  {
    if bs == [] {
    } else {
      ToFromBits(bs[..|bs| - 1]);
    }
  }

  /** Whether the bit selected by the mask m, a power of two, is set in b. */
  predicate Bit(b: nat, m: nat)
    requires m > 0
  {
    b / m % 2 == 1
  }

  /** b with the bit selected by the mask m set. */
  function SetBit(b: nat, m: nat): (r: nat)
    requires m > 0
  {
    if Bit(b, m) then b else b + m
  }

  lemma DivTwice(b: nat, m: nat)
    requires m > 0
    ensures b / (2 * m) == b / 2 / m
  {
    var d := b / 2 / m;
    var r := b / 2 % m;
    assert b / 2 == m * d + r;
    DivUnique(b, 2 * m, d, 2 * r + b % 2);
  }

  lemma DivUnique(b: nat, m: nat, q: nat, r: nat)
    requires m > 0 && r < m && b == m * q + r
    ensures b / m == q
  {
    var d := b / m;
    assert b == m * d + b % m;
    assert m * (q - d) == b % m - r;
    MulBig(m, q - d);
  }

  lemma MulBig(m: nat, e: int)
    ensures e >= 1 ==> m * e >= m
    ensures e <= -1 ==> m * e + m <= 0
  {
  }

  /** Testing a mask reads one bit. */
  lemma {:induction false} BitOf(b: nat, n: nat, j: nat)
    requires j < n
    ensures Bit(b, Pow2(n - 1 - j)) == ToBits(b, n)[j]
    decreases n
  {
    if j == n - 1 {
    } else {
      BitOf(b / 2, n - 1, j);
      DivTwice(b, Pow2(n - 2 - j));
    }
  }

  /** The bits of a sequence of bytes, in the order they are sent. */
  ghost function BitsOf(bytes: seq<byte>): (bs: seq<bool>)
    ensures |bs| == 8 * |bytes|
  {
    if bytes == [] then [] else BitsOf(bytes[..|bytes| - 1]) + ToBits(bytes[|bytes| - 1], 8)
  }

  ghost function BytesOf(bs: seq<bool>): (bytes: seq<byte>)
    requires |bs| % 8 == 0
    ensures |bytes| == |bs| / 8
  {
    if bs == [] then [] else LastByte(bs); BytesOf(bs[..|bs| - 8]) + [FromBits(bs[|bs| - 8..])]
  }

  lemma LastByte(bs: seq<bool>)
    requires |bs| >= 8
    ensures FromBits(bs[|bs| - 8..]) < 256
  {
    assert Pow2(8) == 256;
    ToFromBits(bs[|bs| - 8..]);
  }

  lemma BitsOfSnoc(bytes: seq<byte>, b: byte)
    ensures BitsOf(bytes + [b]) == BitsOf(bytes) + ToBits(b, 8)
  {
    hide ToBits;
    assert (bytes + [b])[..|bytes|] == bytes;
  }

  lemma BytesOfSnoc(bs: seq<bool>, last: seq<bool>)
    requires |bs| % 8 == 0 && |last| == 8
    ensures |bs + last| % 8 == 0 && FromBits(last) < 256
    ensures BytesOf(bs + last) == BytesOf(bs) + [FromBits(last)]
  {
    hide FromBits;
    LastByte(last);
    assert (bs + last)[..|bs|] == bs && (bs + last)[|bs|..] == last && last[0..] == last;
  }

  lemma {:induction false} BytesOfBits(bytes: seq<byte>)
    ensures BytesOf(BitsOf(bytes)) == bytes
  {
    hide ToBits, FromBits, BitsOf, BytesOf;
    if bytes == [] {
      NoBytes();
    } else {
      var front, b := bytes[..|bytes| - 1], bytes[|bytes| - 1];
      assert bytes == front + [b];
      BytesOfBits(front);
      BitsOfSnoc(front, b);
      BytesOfSnoc(BitsOf(front), ToBits(b, 8));
      ByteFromToBits(b);
    }
  }

  lemma NoBytes()
    ensures BitsOf([]) == [] && BytesOf([]) == []
  {
  }

  lemma ByteFromToBits(b: byte)
    ensures FromBits(ToBits(b, 8)) == b
  {
    assert Pow2(8) == 256;
    FromToBits(b, 8);
  }

  lemma {:induction false} BitsOfBytes(bs: seq<bool>)
    requires |bs| % 8 == 0
    ensures BitsOf(BytesOf(bs)) == bs
    decreases |bs|
  {
    hide ToBits, FromBits, BitsOf, BytesOf;
    if bs == [] {
      NoBytes();
    } else {
      var front, last := bs[..|bs| - 8], bs[|bs| - 8..];
      assert bs == front + last;
      BitsOfBytes(front);
      BytesOfSnoc(front, last);
      BitsOfSnoc(BytesOf(front), FromBits(last));
      ToFromBits(last);
    }
  }

  /** Bit j of byte i is bit 8i + j of the sequence. */
  lemma {:induction false} BitsOfAt(bytes: seq<byte>, i: nat, j: nat)
    requires i < |bytes| && j < 8
    ensures BitsOf(bytes)[8 * i + j] == ToBits(bytes[i], 8)[j]
    decreases |bytes|
  {
    hide ToBits;
    var n := |bytes| - 1;
    if i >= n {
    } else {
      BitsOfAt(bytes[..n], i, j);
    }
  }

  // ---------- writing bits one at a time ----------

  lemma {:induction false} FromBitsSet(bs: seq<bool>, j: nat)
    requires j < |bs| && !bs[j]
    ensures FromBits(bs[j := true]) == FromBits(bs) + Pow2(|bs| - 1 - j)
    decreases |bs|
  {
    var n := |bs| - 1;
    if j < n {
      FromBitsSet(bs[..n], j);
      assert bs[j := true][..n] == bs[..n][j := true];
    } else {
      assert bs[j := true][..n] == bs[..n];
    }
  }

  lemma SetBitBits(b: byte, j: nat)
    requires j < 8 && !ToBits(b, 8)[j]
    ensures SetBit(b, Pow2(7 - j)) < 256
    ensures ToBits(SetBit(b, Pow2(7 - j)), 8) == ToBits(b, 8)[j := true]
  {
    hide ToBits, FromBits, Bit;
    var bs := ToBits(b, 8);
    ByteFromToBits(b);
    BitOf(b, 8, j);
    FromBitsSet(bs, j);
    ToFromBits(bs[j := true]);
    Pow2Eight();
  }

  lemma Pow2Eight()
    ensures Pow2(8) == 256 && Pow2(7) == 128 && Pow2(0) == 1
  {
  }

  /** Setting one bit of one byte sets one bit of the sequence. */
  lemma BitsOfSet(bytes: seq<byte>, i: nat, j: nat)
    requires i < |bytes| && j < 8 && !BitsOf(bytes)[8 * i + j]
    ensures SetBit(bytes[i], Pow2(7 - j)) < 256
    ensures BitsOf(bytes[i := SetBit(bytes[i], Pow2(7 - j))]) == BitsOf(bytes)[8 * i + j := true]
  {
    hide ToBits, BitsOf, SetBit, Pow2;
    BitsOfAt(bytes, i, j);
    SetBitBits(bytes[i], j);
    var b := SetBit(bytes[i], Pow2(7 - j));
    var after := bytes[i := b];
    forall k | 0 <= k < 8 * |bytes|
      ensures BitsOf(after)[k] == BitsOf(bytes)[8 * i + j := true][k]
    {
      BitsOfAt(after, k / 8, k % 8);
      BitsOfAt(bytes, k / 8, k % 8);
    }
  }

  /** bs followed by zero bits up to length n. */
  ghost function ZeroPadded(bs: seq<bool>, n: nat): (r: seq<bool>)
    requires |bs| <= n
    ensures |r| == n
  {
    bs + seq(n - |bs|, _ => false)
  }

  /** Append one bit to the bits written so far in the first len bytes of out; om is the mask of
      the next bit and ob the byte it goes to. */
  method PutBit(out: array<byte>, len: nat, ob: nat, om: nat, s: bool, ghost ys: seq<bool>)
    returns (ob': nat, om': nat)
    requires len <= out.Length && |ys| < 8 * len && ob == |ys| / 8 && om == Pow2(7 - |ys| % 8)
    requires BitsOf(out[..len]) == ZeroPadded(ys, 8 * len)
    modifies out
    ensures BitsOf(out[..len]) == ZeroPadded(ys + [s], 8 * len)
    ensures out[len..] == old(out[len..])
    ensures ob' == |ys + [s]| / 8 && om' == Pow2(7 - |ys + [s]| % 8)
  {
    hide ToBits, BitsOf, FromBits, Pow2;
    ghost var was, j := out[..len], |ys| % 8;
    ghost var bits := ZeroPadded(ys, 8 * len);
    assert 8 * ob + j == |ys|;
    if s {
      BitsOfSet(was, ob, j);
      out[ob] := SetBit(out[ob], om);
      assert out[..len] == was[ob := SetBit(was[ob], om)];
      assert bits[|ys| := true] == ZeroPadded(ys + [s], 8 * len);
    } else {
      assert bits == ZeroPadded(ys + [s], 8 * len);
    }
    NextMask(j);
    ob', om' := ob, om / 2;
    if om' == 0 {
      om' := 0x80;
      ob' := ob' + 1;
    }
  }

  lemma NextMask(j: nat)
    requires j < 8
    ensures Pow2(7 - j) / 2 == if j == 7 then 0 else Pow2(6 - j)
    ensures j < 7 ==> Pow2(7 - j) / 2 > 0
    ensures Pow2(7) == 0x80
  {
    Pow2Eight();
  }
}
