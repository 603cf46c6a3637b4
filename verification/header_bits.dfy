/** The bit planes of an IL2P header: bits 6 and 7 of bytes 0 to 11 carry fields, one bit a byte,
    above a six-bit character. */
module HeaderBits {
  import opened Gf256
  import opened Bits

  const HEADER_SIZE := 13

  /** A header byte from its low six bits and its two plane bits. */
  function Join(low: nat, x: bool, y: bool): (b: byte)
    requires low < 64
  {
    low + (if x then 64 else 0) + if y then 128 else 0
  }

  lemma JoinBits(low: nat, x: bool, y: bool)
    requires low < 64
    ensures Join(low, x, y) % 64 == low
    ensures Bit(Join(low, x, y), 64) == x && Bit(Join(low, x, y), 128) == y
    ensures SetBit(Join(low, x, y), 64) == Join(low, true, y)
    ensures SetBit(Join(low, x, y), 128) == Join(low, x, true)
  {
  }

  /** hdr holds the given low bits and planes in its first twelve bytes. */
  ghost predicate Planes(hdr: seq<byte>, low: seq<nat>, b6: seq<bool>, b7: seq<bool>)
  {
    && |hdr| >= 12 && |low| == |b6| == |b7| == 12
    && forall i :: 0 <= i < 12 ==> low[i] < 64 && hdr[i] == Join(low[i], b6[i], b7[i])
  }

  /** A plane with bits ORed in from position at on. */
  ghost function OrInto(plane: seq<bool>, at: nat, bits: seq<bool>): (r: seq<bool>)
    requires at + |bits| <= |plane|
    ensures |r| == |plane|
    ensures forall i :: 0 <= i < |plane| ==> r[i] == (plane[i] || (at <= i < at + |bits| && bits[i - at]))
  {
    seq(|plane|, (i: nat) requires i < |plane| => plane[i] || (at <= i < at + |bits| && bits[i - at]))
  }

  /** set_field: OR the bits of value into bit bitNum of width consecutive bytes, the least
      significant bit going to byte lsbIndex. */
  method SetField(hdr: array<byte>, bitNum: nat, lsbIndex: nat, width: nat, value: nat,
                  ghost low: seq<nat>, ghost b6: seq<bool>, ghost b7: seq<bool>)
    requires bitNum == 6 || bitNum == 7
    requires lsbIndex < 12 && width <= lsbIndex + 1 && hdr.Length >= 12
    requires Planes(hdr[..], low, b6, b7)
    modifies hdr
    ensures bitNum == 6 ==> Planes(hdr[..], low, OrInto(b6, lsbIndex + 1 - width, ToBits(value, width)), b7)
    ensures bitNum == 7 ==> Planes(hdr[..], low, b6, OrInto(b7, lsbIndex + 1 - width, ToBits(value, width)))
    ensures hdr[12..] == old(hdr[12..])
  {
    hide ToBits, Pow2, SetBit;
    var lsb, w, v := lsbIndex as int, width, value;
    ghost var at, bits := lsbIndex + 1 - width, ToBits(value, width);
    var mask := if bitNum == 6 then 64 else 128;
    while w > 0 && v != 0
      invariant 0 <= w <= width && lsb == lsbIndex - width + w
      invariant ToBits(v, w) == bits[..w]
      invariant forall i :: 0 <= i <= lsb ==> hdr[i] == old(hdr[i])
      invariant forall i :: lsb < i <= lsbIndex ==>
          hdr[i] == if bits[i - at] then SetBit(old(hdr[i]), mask) else old(hdr[i])
      invariant forall i :: lsbIndex < i < hdr.Length ==> hdr[i] == old(hdr[i])
    {
      ToBitsLast(v, w);
      assert bits[..w][w - 1] == bits[w - 1] && bits[..w][..w - 1] == bits[..w - 1];
      if v % 2 == 1 {
        SetPlane(hdr[lsb], low[lsb], b6[lsb], b7[lsb]);
        hdr[lsb] := SetBit(hdr[lsb], mask);
      }
      v := v / 2;
      lsb := lsb - 1;
      w := w - 1;
    }
    ghost var was := old(hdr[..]);
    assert forall i :: lsb < i <= lsbIndex ==> hdr[..][i] == if bits[i - at] then SetBit(was[i], mask) else was[i];
    FieldSet(was, hdr[..], bitNum, at, bits, w, low, b6, b7);
  }

  // The field is set in the bytes from at + w on; the w bits before are zero.
  lemma FieldSet(was: seq<byte>, now: seq<byte>, bitNum: nat, at: nat, bits: seq<bool>, w: nat, low: seq<nat>,
                 b6: seq<bool>, b7: seq<bool>)
    requires (bitNum == 6 || bitNum == 7) && |was| == |now| && Planes(was, low, b6, b7)
    requires at + |bits| <= 12 && w <= |bits| && bits[..w] == ToBits(0, w)
    requires forall i :: 0 <= i < |was| && !(at + w <= i < at + |bits|) ==> now[i] == was[i]
    requires forall i :: at + w <= i < at + |bits| ==>
               now[i] == if bits[i - at] then SetBit(was[i], if bitNum == 6 then 64 else 128) else was[i]
    ensures bitNum == 6 ==> Planes(now, low, OrInto(b6, at, bits), b7)
    ensures bitNum == 7 ==> Planes(now, low, b6, OrInto(b7, at, bits))
  {
    hide ToBits, SetBit, Join;
    ZeroBitsOf(w);
    assert forall k :: 0 <= k < w ==> bits[k] == bits[..w][k];
    forall i | 0 <= i < 12
      ensures bitNum == 6 ==> now[i] == Join(low[i], OrInto(b6, at, bits)[i], b7[i])
      ensures bitNum == 7 ==> now[i] == Join(low[i], b6[i], OrInto(b7, at, bits)[i])
    {
      SetPlane(was[i], low[i], b6[i], b7[i]);
    }
  }

  lemma SetPlane(b: byte, low: nat, x: bool, y: bool)
    requires low < 64 && b == Join(low, x, y)
    ensures SetBit(b, 64) == Join(low, true, y) && SetBit(b, 128) == Join(low, x, true)
  {
    JoinBits(low, x, y);
  }

  lemma ToBitsLast(v: nat, w: nat)
    requires w > 0
    ensures ToBits(v, w) == ToBits(v / 2, w - 1) + [v % 2 == 1]
    ensures ToBits(v, w)[..w - 1] == ToBits(v / 2, w - 1)
  {
  }

  lemma {:induction false} ZeroBitsOf(w: nat)
    ensures forall k :: 0 <= k < w ==> !ToBits(0, w)[k]
  {
    if w == 0 {
    } else {
      ZeroBitsOf(w - 1);
    }
  }

  /** Bit bitNum of the first twelve bytes, from the first byte on. */
  ghost function PlaneOf(hdr: seq<byte>, bitNum: nat): (plane: seq<bool>)
    requires |hdr| >= 12
    ensures |plane| == 12
  {
    seq(12, (i: nat) requires i < 12 => Bit(hdr[i], if bitNum == 6 then 64 else 128))
  }

  lemma PlanesRead(hdr: seq<byte>, low: seq<nat>, b6: seq<bool>, b7: seq<bool>)
    requires Planes(hdr, low, b6, b7)
    ensures PlaneOf(hdr, 6) == b6 && PlaneOf(hdr, 7) == b7
    ensures forall i :: 0 <= i < 12 ==> hdr[i] % 64 == low[i]
  {
    hide Bit;
    forall i | 0 <= i < 12
      ensures PlaneOf(hdr, 6)[i] == b6[i] && PlaneOf(hdr, 7)[i] == b7[i] && hdr[i] % 64 == low[i]
    {
      JoinBits(low[i], b6[i], b7[i]);
    }
  }

  /** get_field: the number read from bit bitNum of width consecutive bytes. */
  method GetField(hdr: seq<byte>, bitNum: nat, lsbIndex: nat, width: nat) returns (result: nat)
    requires (bitNum == 6 || bitNum == 7) && lsbIndex < 12 <= |hdr| && width <= lsbIndex + 1
    ensures result < Pow2(width)
    ensures result == FromBits(PlaneOf(hdr, bitNum)[lsbIndex + 1 - width..lsbIndex + 1])
  {
    hide FromBits, Bit;
    var mask := if bitNum == 6 then 64 else 128;
    ghost var plane := PlaneOf(hdr, bitNum);
    result := 0;
    var lsb, w := lsbIndex + 1 - width, width;
    ghost var at := lsb;
    FromNone();
    while w > 0
      invariant 0 <= w <= width && lsb == at + (width - w)
      invariant result < Pow2(width - w)
      invariant result == FromBits(plane[at..lsb])
    {
      FromMore(plane, at, lsb);
      result := 2 * result;
      if Bit(hdr[lsb], mask) {
        result := result + 1;
      }
      lsb := lsb + 1;
      w := w - 1;
    }
  }

  lemma FromNone()
    ensures forall p: seq<bool>, i: nat :: i <= |p| ==> FromBits(p[i..i]) == 0
  {
  }

  lemma FromMore(plane: seq<bool>, at: nat, i: nat)
    requires at <= i < |plane|
    ensures FromBits(plane[at..i + 1]) == 2 * FromBits(plane[at..i]) + if plane[i] then 1 else 0
  {
    assert plane[at..i + 1][..i - at] == plane[at..i];
  }

  // ---------- ORing values without a carry ----------

  ghost predicate NoCarry(a: nat, b: nat, n: nat)
  {
    n == 0 || ((a % 2 == 0 || b % 2 == 0) && NoCarry(a / 2, b / 2, n - 1))
  }

  /** Two values without a common bit: ORing their bits gives the bits of the sum. */
  lemma {:induction false} OrIsSum(a: nat, b: nat, n: nat)
    requires NoCarry(a, b, n)
    ensures forall i :: 0 <= i < n ==> ToBits(a + b, n)[i] == (ToBits(a, n)[i] || ToBits(b, n)[i])
    decreases n
  {
    if n == 0 {
    } else {
      OrIsSum(a / 2, b / 2, n - 1);
      assert (a + b) / 2 == a / 2 + b / 2;
    }
  }

  lemma {:induction false} NoCarryZero(a: nat, n: nat)
    ensures NoCarry(a, 0, n)
  {
    if n == 0 {
    } else {
      NoCarryZero(a / 2, n - 1);
    }
  }

  lemma {:induction false} NoCarryShifted(m: nat, b: nat, k: nat, n: nat)
    requires b < Pow2(k)
    ensures NoCarry(m * Pow2(k), b, n)
    decreases n
  {
    if k == 0 {
      NoCarryZero(m, n);
    } else if n > 0 {
      assert m * Pow2(k) == 2 * (m * Pow2(k - 1));
      NoCarryShifted(m, b / 2, k - 1, n - 1);
    }
  }
}
