/** Translating an AX.25 frame header to the 13-byte IL2P type 1 header and back. */
module Header {
  import opened Gf256
  import opened Bits
  import opened HeaderBits
  import opened Ax25Pad

  // ---------- characters and protocol identifiers ----------

  function AsciiToSixbit(a: nat): nat
  {
    if 0x20 <= a <= 0x5f then a - 0x20 else 31
  }

  function SixbitToAscii(s: nat): (a: nat)
  {
    s + 0x20
  }

  /** encode_pid: bits 4 and 5 are looked at first, then the known values. */
  function EncodePid(pid: int): (p: int)
    ensures p == -1 || 2 <= p < 16
  {
    if pid < 0 then -1
    else if pid / 16 % 4 == 2 then 0x2
    else if pid / 16 % 4 == 1 then 0x2
    else if pid == 0x01 then 0x3
    else if pid == 0x06 then 0x4
    else if pid == 0x07 then 0x5
    else if pid == 0x08 then 0x6
    else if pid == 0xcc then 0xb
    else if pid == 0xcd then 0xc
    else if pid == 0xce then 0xd
    else if pid == 0xcf then 0xe
    else if pid == 0xf0 then 0xf
    else -1
  }

  const AXPID: seq<byte> := [
    0xf0, 0xf0, 0x20, 0x01, 0x06, 0x07, 0x08, 0xf0, 0xf0, 0xf0, 0xf0, 0xcc, 0xcd, 0xce, 0xcf, 0xf0]

  function DecodePid(pid: nat): byte
    requires pid < 16
  {
    AXPID[pid]
  }

  /** The protocol identifier that comes out at the far end. */
  function CanonicalPid(pid: byte): (q: byte)
    requires EncodePid(pid) >= 0
    ensures q != 0 && q != PID_ESCAPE_CHARACTER
  {
    DecodePid(EncodePid(pid))
  }

  /** A protocol identifier survives exactly when it is one of the ten in the table. */
  lemma PidRoundTrip(pid: byte)
    ensures EncodePid(pid) >= 0 && CanonicalPid(pid) == pid <==>
            pid in {0x20, 0x01, 0x06, 0x07, 0x08, 0xcc, 0xcd, 0xce, 0xcf, 0xf0}
    ensures EncodePid(pid) >= 0 ==> EncodePid(CanonicalPid(pid)) == EncodePid(pid)
  {
  }

  /** What every protocol identifier is sent as and arrives as: those with bits 4 and 5 equal to 01 or 10, and
      only those, as 2 and 0x20; nine others by codes of their own, unchanged; and the rest not at all. */
  lemma PidCodes(pid: byte)
    ensures EncodePid(pid) == 2 <==> pid / 16 % 4 in {1, 2}
    ensures EncodePid(pid) >= 0 ==> (CanonicalPid(pid) == 0x20 <==> pid / 16 % 4 in {1, 2})
    ensures pid / 16 % 4 in {0, 3} ==>
        (EncodePid(pid) >= 0 <==> pid in {0x01, 0x06, 0x07, 0x08, 0xcc, 0xcd, 0xce, 0xcf, 0xf0})
    ensures EncodePid(pid) >= 3 ==> CanonicalPid(pid) == pid
    ensures EncodePid(pid) in {3, 4, 5, 6} ==> pid == [0x01, 0x06, 0x07, 0x08][EncodePid(pid) - 3]
    ensures EncodePid(pid) in {11, 12, 13, 14} ==> pid == 0xc1 + EncodePid(pid)
    ensures EncodePid(pid) == 15 ==> pid == 0xf0
    ensures EncodePid(pid) !in {7, 8, 9, 10}
  {
  }

  // ---------- what the header holds ----------

  /** The contents a type 1 header can carry. */
  predicate Encodable(ct: Content)
  {
    ct.Valid() && (ct.HasPid() ==> EncodePid(ct.pid) >= 0) && |ct.info| <= 1023
  }

  function Pid4(ct: Content): (p: nat)
    requires Encodable(ct)
    ensures p < 16
  {
    if ct.SContent? then 0 else if ct.HasPid() then EncodePid(ct.pid) else 1
  }

  function UOp(ftype: FrameType): (k: nat)
    requires ftype in U_TYPES
    ensures k < 6
  {
    match ftype
    case SABM => 0
    case DISC => 1
    case DM => 2
    case UA => 3
    case FRMR => 4
    case _ => 5
  }

  /** The seven control bits. The C bit is always one, because every built frame reads as
      having both C bits set. */
  function Control7(ct: Content): (c: nat)
    requires Encodable(ct)
    ensures c < 128
  {
    (if ct.pf then 64 else 0) +
    match ct
    case SContent(ftype, nr, _, _) => 8 * nr + 4 + SKind(ftype)
    case UContent(ftype, _, _, _) => 8 * UOp(ftype) + 4
    case IContent(nr, ns, _, _, _) => 8 * nr + ns
  }

  ghost function SixBits(call: string): (low: seq<nat>)
    requires ValidCall(call)
    ensures |low| == 6 && forall i :: 0 <= i < 6 ==> low[i] < 64
    ensures forall i :: 0 <= i < 6 ==> low[i] == if i < |call| then call[i] as int - 32 else 0
  {
    seq(6, (i: nat) => if i < |call| then Six(call[i]) else 0)
  }

  /** The low six bits of the first twelve bytes: both callsigns. */
  ghost function Low(dst: Addr, src: Addr): (low: seq<nat>)
    requires ValidAddr(dst) && ValidAddr(src)
    ensures |low| == 12 && forall i :: 0 <= i < 12 ==> low[i] < 64
  {
    SixBits(dst.call) + SixBits(src.call)
  }

  function Six(c: char): (s: nat)
    ensures IsUpper(c) || IsDigit(c) ==> s == c as int - 32 < 64
    ensures s < 64
  {
    if 32 <= c as int < 96 then c as int - 32 else 0
  }

  ghost function Plane6(ct: Content): (p: seq<bool>)
    requires Encodable(ct)
    ensures |p| == 12
  {
    [ct.UContent? && ct.ftype == UI] + ToBits(Pid4(ct), 4) + ToBits(Control7(ct), 7)
  }

  ghost function Plane7(ct: Content): (p: seq<bool>)
    requires Encodable(ct)
    ensures |p| == 12
  {
    [true, true] + ToBits(|ct.info|, 10)
  }

  /** hdr is the type 1 header of a frame. */
  ghost predicate IsHeader(hdr: seq<byte>, dst: Addr, src: Addr, ct: Content)
  {
    && |hdr| == HEADER_SIZE && ValidAddr(dst) && ValidAddr(src) && Encodable(ct)
    && Planes(hdr, Low(dst, src), Plane6(ct), Plane7(ct))
    && hdr[12] == 16 * dst.ssid + src.ssid
  }

  /** The header of a frame. */
  ghost function HeaderBytes(dst: Addr, src: Addr, ct: Content): (h: seq<byte>)
    requires ValidAddr(dst) && ValidAddr(src) && Encodable(ct)
    ensures |h| == HEADER_SIZE && IsHeader(h, dst, src, ct)
  {
    seq(12, (i: nat) requires i < 12 => Join(Low(dst, src)[i], Plane6(ct)[i], Plane7(ct)[i]))
        + [16 * dst.ssid + src.ssid]
  }

  lemma HeaderIsBytes(h: seq<byte>, dst: Addr, src: Addr, ct: Content)
    requires IsHeader(h, dst, src, ct)
    ensures h == HeaderBytes(dst, src, ct)
  {
    HeaderUnique(h, HeaderBytes(dst, src, ct), dst, src, ct);
  }

  /** A frame has only one header. */
  lemma HeaderUnique(h: seq<byte>, k: seq<byte>, dst: Addr, src: Addr, ct: Content)
    requires IsHeader(h, dst, src, ct) && IsHeader(k, dst, src, ct)
    ensures h == k
  {
    forall i | 0 <= i < HEADER_SIZE
      ensures h[i] == k[i]
    {
      if i < 12 {
        assert h[i] == Join(Low(dst, src)[i], Plane6(ct)[i], Plane7(ct)[i]);
      }
    }
  }

  // ---------- encoding the control field ----------

  ghost function Falses(n: nat): (p: seq<bool>)
    ensures |p| == n && forall i :: 0 <= i < n ==> !p[i]
  {
    seq(n, _ => false)
  }

  // Writing the fields of bit 6 one after the other builds the plane.
  lemma Plane6Built(ct: Content, a: nat, b: nat)
    requires Encodable(ct) && Control7(ct) == a + b && NoCarry(a, b, 7)
    ensures var ui := if ct.UContent? && ct.ftype == UI then 1 else 0;
      OrInto(OrInto(OrInto(OrInto(Falses(12), 0, ToBits(ui, 1)), 1, ToBits(Pid4(ct), 4)), 5, ToBits(a, 7)), 5,
          ToBits(b, 7)) == Plane6(ct)
  {
    hide ToBits;
    OrIsSum(a, b, 7);
    OneBit();
  }

  lemma OneBit()
    ensures ToBits(0, 1) == [false] && ToBits(1, 1) == [true]
  {
    assert ToBits(0, 0) == [];
  }

  lemma Plane7Built(ct: Content)
    requires Encodable(ct)
    ensures OrInto(OrInto(OrInto(Falses(12), 0, ToBits(1, 1)), 1, ToBits(1, 1)), 2, ToBits(|ct.info|, 10)) == Plane7(ct)
  {
    hide ToBits;
    OneBit();
  }

  // The two values that are ORed into the control field.
  lemma ControlParts(ct: Content)
    requires Encodable(ct)
    ensures ct.SContent? ==> NoCarry((if ct.pf then 64 else 0) + 8 * ct.nr + 4, SKind(ct.ftype), 7)
    ensures ct.UContent? ==> NoCarry((if ct.pf then 64 else 0) + 4, 8 * UOp(ct.ftype), 7)
    ensures ct.IContent? ==> NoCarry(Control7(ct), 0, 7)
  {
    var p := if ct.pf then 1 else 0;
    match ct
    case SContent(ftype, nr, _, _) =>
      assert Pow2(2) == 4;
      NoCarryShifted(16 * p + 2 * nr + 1, SKind(ftype), 2, 7);
    case UContent(ftype, _, _, _) =>
      UCarry(p, UOp(ftype));
    case IContent(_, _, _, _, _) =>
      NoCarryZero(Control7(ct), 7);
  }

  lemma UCarry(p: nat, k: nat)
    requires p < 2 && k < 8
    ensures NoCarry(64 * p + 4, 8 * k, 7)
  {
    assert Pow2(3) == 8;
    NoCarryShifted(p, k, 3, 4);
    assert NoCarry(8 * p, k, 4);
    assert (16 * p + 1) / 2 == 8 * p && 2 * k / 2 == k;
    assert NoCarry(16 * p + 1, 2 * k, 5);
    assert (32 * p + 2) / 2 == 16 * p + 1 && 4 * k / 2 == 2 * k;
    assert NoCarry(32 * p + 2, 4 * k, 6);
  }

  // ---------- il2p_type_1_header ----------

  /** Put the characters of an address into the low bits, or report that one does not fit. */
  method PutAddress(hdr: array<byte>, at: nat, station: seq<nat>, ghost call: string) returns (ok: bool)
    requires (at == 0 || at == 6) && |station| <= 6 && hdr.Length >= HEADER_SIZE
    modifies hdr
    ensures forall i :: 0 <= i < hdr.Length && !(at <= i < at + 6) ==> hdr[i] == old(hdr[i])
    ensures forall i :: at <= i < at + 6 ==> hdr[i] < 64 || hdr[i] == old(hdr[i])
    ensures IsCall(station, call) && ValidCall(call) ==>
              ok && forall i :: 0 <= i < 6 ==>
                  hdr[at + i] == if i < |call| then call[i] as int - 32 else old(hdr[at + i])
  {
    for i := 0 to |station|
      invariant forall k :: 0 <= k < hdr.Length && !(at <= k < at + i) ==> hdr[k] == old(hdr[k])
      invariant forall k :: at <= k < at + i ==> hdr[k] < 64
      invariant IsCall(station, call) && ValidCall(call) ==> forall k :: 0 <= k < i ==>
          hdr[at + k] == call[k] as int - 32
    {
      if station[i] == 0 {
        return true; // end of the string
      }
      if station[i] < 0x20 || station[i] > 0x5f {
        return false;
      }
      hdr[at + i] := AsciiToSixbit(station[i]);
    }
    ok := true;
  }

  lemma NoPlanes(hdr: seq<byte>, dst: Addr, src: Addr, low: seq<nat>)
    requires |hdr| >= 12 && ValidAddr(dst) && ValidAddr(src) && |low| == 12
    requires forall i :: 0 <= i < 12 ==> low[i] == hdr[i]
    requires forall i :: 0 <= i < 6 ==> hdr[0 + i] == if i < |dst.call| then dst.call[i] as int - 32 else 0
    requires forall i :: 0 <= i < 6 ==> hdr[6 + i] == if i < |src.call| then src.call[i] as int - 32 else 0
    ensures low == Low(dst, src)
  {
    forall i | 0 <= i < 12
      ensures low[i] == Low(dst, src)[i]
    {
      if i >= 6 {
        assert hdr[6 + (i - 6)] == SixBits(src.call)[i - 6];
      } else {
        assert hdr[0 + i] == SixBits(dst.call)[i];
      }
    }
  }

  // The addresses and station numbers; the fields are still empty.
  method PutAddresses(pp: Packet, hdr: array<byte>, ghost dst: Addr, ghost src: Addr, ghost c0: CmdRes,
                      ghost ct: Content)
    returns (ok: bool, ghost low: seq<nat>)
    requires pp.Valid() && hdr.Length >= HEADER_SIZE && hdr != pp.frameData
    modifies hdr
    ensures ok ==> Planes(hdr[..], low, Falses(12), Falses(12))
    ensures Holds(pp, dst, src, c0, ct) ==> ok && low == Low(dst, src) && hdr[12] == 16 * dst.ssid + src.ssid
  {
    hide FrameBytes, Control, Planes, Low;
    for i := 0 to HEADER_SIZE
      invariant forall k :: 0 <= k < i ==> hdr[k] == 0
    {
      hdr[i] := 0;
    }
    ghost var holds := Holds(pp, dst, src, c0, ct);
    low := Falses12();
    var dstAddr := GetAddrNoSsid(pp, 0, dst, src, c0, ct);
    var dstSsid := GetSsid(pp, 0, dst, src, c0, ct);
    var srcAddr := GetAddrNoSsid(pp, 1, dst, src, c0, ct);
    var srcSsid := GetSsid(pp, 1, dst, src, c0, ct);
    ok := PutAddress(hdr, 0, dstAddr, dst.call);
    if !ok {
      return;
    }
    ok := PutAddress(hdr, 6, srcAddr, src.call);
    if !ok {
      return;
    }
    hdr[12] := 16 * dstSsid + srcSsid;
    low := seq(12, (i: nat) requires i < 12 reads hdr => hdr[i] as nat);
    EmptyPlanes(hdr[..], low);
    if holds {
      NoPlanes(hdr[..], dst, src, low);
    }
  }

  ghost function Falses12(): (low: seq<nat>)
    ensures |low| == 12
  {
    seq(12, _ => 0)
  }

  lemma EmptyPlanes(hdr: seq<byte>, low: seq<nat>)
    requires |hdr| >= 12 && |low| == 12 && forall i :: 0 <= i < 12 ==> low[i] == hdr[i] < 64
    ensures Planes(hdr, low, Falses(12), Falses(12))
  {
  }

  // The protocol identifier as it is sent, if it can be.
  method PidField(pp: Packet, ghost dst: Addr, ghost src: Addr, ghost c0: CmdRes, ghost ct: Content)
    returns (ok: bool, pid4: nat)
    requires pp.Valid()
    ensures pid4 < 16
    ensures Holds(pp, dst, src, c0, ct) && ct.HasPid() ==>
        (ok <==> EncodePid(ct.pid) >= 0) && (ok ==> pid4 == EncodePid(ct.pid))
  {
    hide EncodePid;
    var pid := GetPid(pp, dst, src, c0, ct);
    ok, pid4 := EncodePid(pid) >= 0, if EncodePid(pid) >= 0 then EncodePid(pid) else 0;
  }

  /** The values for the fields of bit 6: UI, protocol identifier, and the two parts that are
      ORed into the control field; ok is false for frames that have no translation. */
  method ControlFields(pp: Packet, ghost dst: Addr, ghost src: Addr, ghost c0: CmdRes, ghost ct: Content)
    returns (ok: bool, ui: nat, pid4: nat, a: nat, b: nat)
    requires pp.Valid()
    ensures Holds(pp, dst, src, c0, ct) && |ct.info| <= 1023 ==> (ok <==> Encodable(ct))
    ensures Holds(pp, dst, src, c0, ct) && Encodable(ct) ==>
              && ui == (if ct.UContent? && ct.ftype == UI then 1 else 0) && pid4 == Pid4(ct)
              && Control7(ct) == a + b && NoCarry(a, b, 7)
  {
    hide FrameBytes, Control, NoCarry, EncodePid;
    if Holds(pp, dst, src, c0, ct) && Encodable(ct) {
      ControlParts(ct);
    }
    var ft, cr, pf, nr, ns := GetFrameType(pp, dst, src, c0, ct);
    var c := if cr == Cmd || cr == Cr11 then 4 else 0;
    ok, ui, pid4, a, b := true, 0, 0, 0, 0;
    if ft in S_TYPES {
      a := 64 * pf + 8 * nr + c;
      b := SKind(ft);
    } else if ft in U_TYPES {
      if ft == UI {
        ui := 1;
        ok, pid4 := PidField(pp, dst, src, c0, ct);
      } else {
        pid4 := 1;
      }
      a := 64 * pf + c;
      b := 8 * UOp(ft);
    } else if ft == I {
      ok, pid4 := PidField(pp, dst, src, c0, ct);
      a := 64 * pf + 8 * nr + ns;
    } else {
      ok := false;
    }
  }

  /** il2p_type_1_header: the information length, or a negative code when the frame cannot be
      expressed. */
  method Il2pType1Header(pp: Packet, hdr: array<byte>, ghost dst: Addr, ghost src: Addr, ghost c0: CmdRes,
                         ghost ct: Content)
    returns (e: int)
    requires pp.Valid() && hdr.Length >= HEADER_SIZE && hdr != pp.frameData
    modifies hdr
    ensures e <= 1023
    ensures Holds(pp, dst, src, c0, ct) && Encodable(ct) ==>
        e == |ct.info| && IsHeader(hdr[..HEADER_SIZE], dst, src, ct)
    ensures Holds(pp, dst, src, c0, ct) && !Encodable(ct) ==> e < 0
  {
    hide ToBits, FrameBytes, Control, Planes, Low, NoCarry, OrInto, IsHeader, Pid4, Control7, Fields6;
    ghost var holds, b6, b7 := Holds(pp, dst, src, c0, ct), Falses(12), Falses(12);
    var ok, low := PutAddresses(pp, hdr, dst, src, c0, ct);
    if !ok {
      return -1;
    }
    ghost var ssids := hdr[12];
    var ui, pid4, a, b;
    ok, ui, pid4, a, b := ControlFields(pp, dst, src, c0, ct);
    var info := GetInfo(pp, dst, src, c0, ct);
    if !ok {
      return -1;
    }
    b6 := PutFields(hdr, ui, pid4, a, b, low, b7);
    b7 := PutFlags(hdr, low, b6);
    if |info| > 1023 {
      return -2;
    }
    SetField(hdr, 7, 11, 10, |info|, low, b6, b7);
    e := |info|;
    if holds {
      HeaderBuilt(hdr[..HEADER_SIZE], hdr[..], dst, src, ct, ui, pid4, a, b);
    }
  }

  // Write the first two fields of bit 7.
  method PutFlags(hdr: array<byte>, ghost low: seq<nat>, ghost b6: seq<bool>) returns (ghost b7: seq<bool>)
    requires hdr.Length >= HEADER_SIZE && |b6| == 12 && Planes(hdr[..], low, b6, Falses(12))
    modifies hdr
    ensures b7 == OrInto(OrInto(Falses(12), 0, ToBits(1, 1)), 1, ToBits(1, 1))
    ensures Planes(hdr[..], low, b6, b7)
    ensures hdr[12] == old(hdr[12])
  {
    hide ToBits, Planes;
    b7 := Falses(12);
    SetField(hdr, 7, 0, 1, 1, low, b6, b7); // only maximum FEC is used
    b7 := OrInto(b7, 0, ToBits(1, 1));
    SetField(hdr, 7, 1, 1, 1, low, b6, b7); // only header type 1 is used
    b7 := OrInto(b7, 1, ToBits(1, 1));
  }

  // Write the four fields of bit 6.
  method PutFields(hdr: array<byte>, ui: nat, pid4: nat, a: nat, b: nat, ghost low: seq<nat>, ghost b7: seq<bool>)
    returns (ghost b6: seq<bool>)
    requires hdr.Length >= HEADER_SIZE && Planes(hdr[..], low, Falses(12), b7)
    modifies hdr
    ensures |b6| == 12 && b6 == Fields6(ui, pid4, a, b)
    ensures Planes(hdr[..], low, b6, b7)
    ensures hdr[12] == old(hdr[12])
  {
    hide ToBits, Planes;
    b6 := Falses(12);
    SetField(hdr, 6, 0, 1, ui, low, b6, b7);
    b6 := OrInto(b6, 0, ToBits(ui, 1));
    SetField(hdr, 6, 4, 4, pid4, low, b6, b7);
    b6 := OrInto(b6, 1, ToBits(pid4, 4));
    SetField(hdr, 6, 11, 7, a, low, b6, b7);
    b6 := OrInto(b6, 5, ToBits(a, 7));
    SetField(hdr, 6, 11, 7, b, low, b6, b7);
    b6 := OrInto(b6, 5, ToBits(b, 7));
  }

  ghost function Fields6(ui: nat, pid4: nat, a: nat, b: nat): (p: seq<bool>)
    ensures |p| == 12
  {
    OrInto(OrInto(OrInto(OrInto(Falses(12), 0, ToBits(ui, 1)), 1, ToBits(pid4, 4)), 5, ToBits(a, 7)), 5, ToBits(b, 7))
  }

  ghost function Fields7(len: nat): (p: seq<bool>)
    ensures |p| == 12
  {
    OrInto(OrInto(OrInto(Falses(12), 0, ToBits(1, 1)), 1, ToBits(1, 1)), 2, ToBits(len, 10))
  }

  lemma HeaderBuilt(h: seq<byte>, hdr: seq<byte>, dst: Addr, src: Addr, ct: Content, ui: nat, pid4: nat, a: nat, b: nat)
    requires |hdr| >= HEADER_SIZE && h == hdr[..HEADER_SIZE] && ValidAddr(dst) && ValidAddr(src) && Encodable(ct)
    requires Planes(hdr, Low(dst, src), Fields6(ui, pid4, a, b), Fields7(|ct.info|))
    requires ui == (if ct.UContent? && ct.ftype == UI then 1 else 0) && pid4 == Pid4(ct)
    requires Control7(ct) == a + b && NoCarry(a, b, 7)
    requires hdr[12] == 16 * dst.ssid + src.ssid
    ensures IsHeader(h, dst, src, ct)
  {
    hide ToBits, Low, NoCarry;
    Plane6Built(ct, a, b);
    Plane7Built(ct);
  }

  // ---------- il2p_decode_header_type_1 ----------

  /** What arrives at the far end: the contents with their protocol identifier made canonical. */
  function Received(ct: Content): (r: Content)
    requires Encodable(ct)
    ensures r.Valid() && r.info == ct.info && r.HasInfo() == ct.HasInfo()
  {
    match ct
    case UContent(ftype, pf, pid, info) => UContent(ftype, pf, if ftype == UI then CanonicalPid(pid) else pid, info)
    case SContent(_, _, _, _) => ct
    case IContent(nr, ns, pf, pid, info) => IContent(nr, ns, pf, CanonicalPid(pid), info)
  }

  /** trim: remove the trailing blanks. */
  method Trim(stuff: string) returns (r: string)
    ensures r <= stuff && forall i :: |r| <= i < |stuff| ==> stuff[i] == ' '
    ensures r != "" ==> r[|r| - 1] != ' '
  {
    r := stuff;
    while |r| > 0 && r[|r| - 1] == ' '
      invariant r <= stuff && forall i :: |r| <= i < |stuff| ==> stuff[i] == ' '
    {
      r := r[..|r| - 1];
    }
  }

  lemma TrimmedCall(stuff: string, r: string, call: string)
    requires ValidCall(call) && |stuff| == 6
    requires forall i :: 0 <= i < 6 ==> stuff[i] == if i < |call| then call[i] else ' '
    requires r <= stuff && (forall i :: |r| <= i < |stuff| ==> stuff[i] == ' ') && (r != "" ==> r[|r| - 1] != ' ')
    ensures r == call
  {
    assert |r| < 6 ==> stuff[|r|] == ' ';
    assert |r| >= |call|;
    assert r != "" ==> r[|r| - 1] == stuff[|r| - 1];
  }

  function DigitChar(d: nat): (c: char)
    requires d < 10
    ensures IsDigit(c) && Digit(c) == d
  {
    ('0' as int + d) as char
  }

  /** The station number in decimal. */
  function Decimal(n: nat): (ds: string)
    requires n <= 15
    ensures 1 <= |ds| <= 2 && (forall i :: 0 <= i < |ds| ==> IsDigit(ds[i])) && Number(ds) == n
  {
    if n < 10 then [DigitChar(n)] else [DigitChar(1), DigitChar(n - 10)]
  }

  lemma WritesDecimal(a: Addr)
    requires ValidAddr(a)
    ensures Writes(a.call + "-" + Decimal(a.ssid), a)
  {
    var text := a.call + "-" + Decimal(a.ssid);
    var rest := text[|a.call|..];
    assert rest == "-" + Decimal(a.ssid);
    assert rest[1..] == Decimal(a.ssid);
  }

  /** The six bytes from at on spell the callsign. */
  ghost predicate Spells(hdr: seq<byte>, at: nat, call: string)
    requires at + 6 <= |hdr|
  {
    ValidCall(call) && forall i :: 0 <= i < 6 ==> hdr[at + i] % 64 == SixBits(call)[i]
  }

  lemma SpelledText(hdr: seq<byte>, at: nat, stuff: string, r: string, call: string)
    requires at + 6 <= |hdr| && |stuff| == 6
    requires forall i :: 0 <= i < 6 ==> stuff[i] == (hdr[at + i] % 64 + 32) as char
    requires r <= stuff && (forall i :: |r| <= i < |stuff| ==> stuff[i] == ' ') && (r != "" ==> r[|r| - 1] != ' ')
    requires Spells(hdr, at, call)
    ensures r == call
  {
    forall i | 0 <= i < 6
      ensures stuff[i] == if i < |call| then call[i] else ' '
    {
      assert hdr[at + i] % 64 == SixBits(call)[i];
    }
    TrimmedCall(stuff, r, call);
  }

  lemma TextSpelled(hdr: seq<byte>, at: nat, stuff: string, r: string)
    requires at + 6 <= |hdr| && |stuff| == 6
    requires forall i :: 0 <= i < 6 ==> stuff[i] == (hdr[at + i] % 64 + 32) as char
    requires r <= stuff && (forall i :: |r| <= i < |stuff| ==> stuff[i] == ' ') && ValidCall(r)
    ensures Spells(hdr, at, r)
  {
    forall i | 0 <= i < 6
      ensures hdr[at + i] % 64 == SixBits(r)[i]
    {
      assert i < |r| ==> stuff[i] == r[i];
      assert stuff[i] as int == hdr[at + i] % 64 + 32;
    }
  }

  /** One address of the header as text, rejected unless it is capitals and digits once trimmed:
      exactly the addresses whose six bytes spell a callsign are read, as that callsign. */
  method DecodeAddress(hdr: seq<byte>, at: nat, ssid: nat) returns (ok: bool, text: string, ghost got: Addr)
    requires at + 6 <= |hdr| && ssid <= 15
    ensures ok ==> Writes(text, got) && got.ssid == ssid && Spells(hdr, at, got.call)
    ensures !ok ==> forall call :: !Spells(hdr, at, call)
  {
    hide Writes, Spells;
    var stuff := "";
    got := Addr("", 0);
    for i := 0 to 6
      invariant |stuff| == i
      invariant forall k :: 0 <= k < i ==> stuff[k] == (hdr[at + k] % 64 + 32) as char
    {
      stuff := stuff + [SixbitToAscii(hdr[at + i] % 64) as char];
    }
    var call := Trim(stuff);
    forall c | Spells(hdr, at, c)
      ensures call == c && ValidCall(c)
    {
      SpelledValid(hdr, at, c);
      SpelledText(hdr, at, stuff, call, c);
    }
    for i := 0 to |call|
      invariant forall k :: 0 <= k < i ==> IsUpper(call[k]) || IsDigit(call[k])
    {
      if !IsUpper(call[i]) && !IsDigit(call[i]) {
        return false, "", got;
      }
    }
    got := Addr(call, ssid);
    TextSpelled(hdr, at, stuff, call);
    WritesDecimal(got);
    return true, call + "-" + Decimal(ssid), got;
  }

  lemma SpelledValid(hdr: seq<byte>, at: nat, call: string)
    requires at + 6 <= |hdr| && Spells(hdr, at, call)
    ensures ValidCall(call)
  {
  }

  /** Six bytes spell at most one callsign. */
  lemma SpellsUnique(hdr: seq<byte>, at: nat, a: string, b: string)
    requires at + 6 <= |hdr| && Spells(hdr, at, a) && Spells(hdr, at, b)
    ensures a == b
  {
    forall i | 0 <= i < 6
      ensures SixBits(a)[i] == SixBits(b)[i]
    {
      assert hdr[at + i] % 64 == SixBits(a)[i];
    }
    SameSixBits(a, b);
  }

  lemma SameSixBits(a: string, b: string)
    requires ValidCall(a) && ValidCall(b) && forall i :: 0 <= i < 6 ==> SixBits(a)[i] == SixBits(b)[i]
    ensures a == b
  {
    var m := if |a| < |b| then |a| else |b|;
    assert m < 6 ==> SixBits(a)[m] == SixBits(b)[m];
    assert |a| == |b|;
    forall i | 0 <= i < |a|
      ensures a[i] == b[i]
    {
      assert SixBits(a)[i] == a[i] as int - 32 && SixBits(b)[i] == b[i] as int - 32;
    }
  }

  // The fields of bit 6 in a header.
  lemma PlaneFields(ct: Content)
    requires Encodable(ct)
    ensures FromBits(Plane6(ct)[0..1]) == if ct.UContent? && ct.ftype == UI then 1 else 0
    ensures FromBits(Plane6(ct)[1..5]) == Pid4(ct)
    ensures FromBits(Plane6(ct)[5..12]) == Control7(ct)
  {
    hide ToBits, FromBits, Pid4, Control7;
    var p := Plane6(ct);
    assert p[1..5] == ToBits(Pid4(ct), 4) && p[5..12] == ToBits(Control7(ct), 7);
    assert p[0..1] == [ct.UContent? && ct.ftype == UI];
    Pow2Small();
    FromToBits(Pid4(ct), 4);
    FromToBits(Control7(ct), 7);
    FromOne();
  }

  lemma Pow2Small()
    ensures Pow2(1) == 2 && Pow2(4) == 16 && Pow2(7) == 128 && Pow2(10) == 1024
  {
    Pow2Eight();
    assert Pow2(9) == 512;
  }

  lemma FromOne()
    ensures FromBits([true]) == 1 && FromBits([false]) == 0
  {
    assert [true][..0] == [] && [false][..0] == [];
  }

  lemma LengthField(ct: Content)
    requires Encodable(ct)
    ensures FromBits(Plane7(ct)[2..12]) == |ct.info|
  {
    hide ToBits, FromBits;
    assert Plane7(ct)[2..12] == ToBits(|ct.info|, 10);
    Pow2Small();
    FromToBits(|ct.info|, 10);
  }

  // The digits of the control field.
  lemma ControlDigits(p: nat, m: nat, l: nat)
    requires p < 2 && m < 8 && l < 8
    ensures (64 * p + 8 * m + l) / 64 % 2 == p
    ensures (64 * p + 8 * m + l) / 8 % 8 == m
    ensures (64 * p + 8 * m + l) % 8 == l
  {
    assert (64 * p + 8 * m + l) / 8 == 8 * p + m;
    assert (64 * p + 8 * m + l) / 64 == p;
  }

  // The low bits, with the C bit.
  lemma LowControl(c: nat)
    requires c % 8 >= 4
    ensures c / 4 % 2 == 1 && c % 4 == c % 8 - 4
  {
  }

  /** The fields that the control value of a header decodes to. */
  ghost predicate FieldsOf(ct: Content, pid4: nat, ui: nat, c: nat)
    requires Encodable(ct)
  {
    && c / 64 % 2 == (if ct.pf then 1 else 0)
    && (ct.SContent? ==> pid4 == 0 && c / 4 % 2 == 1 && c / 8 % 8 == ct.nr && c % 4 == SKind(ct.ftype))
    && (ct.UContent? && ct.ftype != UI ==> pid4 == 1 && c / 4 % 2 == 1 && c / 8 % 8 == UOp(ct.ftype))
    && (ct.UContent? && ct.ftype == UI ==> pid4 == EncodePid(ct.pid) && ui == 1 && c / 4 % 2 == 1)
    && (ct.IContent? ==> pid4 == EncodePid(ct.pid) && ui == 0 && c / 8 % 8 == ct.nr && c % 8 == ct.ns)
  }

  lemma FieldsDecode(ct: Content)
    requires Encodable(ct)
    ensures FieldsOf(ct, Pid4(ct), if ct.UContent? && ct.ftype == UI then 1 else 0, Control7(ct))
  {
    hide EncodePid;
    var p := if ct.pf then 1 else 0;
    match ct
    case SContent(ftype, nr, _, _) =>
      ControlDigits(p, nr, 4 + SKind(ftype));
      LowControl(Control7(ct));
    case UContent(ftype, _, _, _) =>
      ControlDigits(p, UOp(ftype), 4);
      LowControl(Control7(ct));
    case IContent(nr, ns, _, _, _) =>
      ControlDigits(p, nr, ns);
  }

  /** The header of a frame, field by field. */
  lemma HeaderFields(hdr: seq<byte>, dst: Addr, src: Addr, ct: Content)
    requires IsHeader(hdr, dst, src, ct)
    ensures Spells(hdr, 0, dst.call) && Spells(hdr, 6, src.call)
    ensures hdr[12] / 16 % 16 == dst.ssid && hdr[12] % 16 == src.ssid
    ensures PlaneOf(hdr, 6) == Plane6(ct) && PlaneOf(hdr, 7) == Plane7(ct)
  {
    hide Plane6, Plane7, Planes, PlaneOf;
    PlanesRead(hdr, Low(dst, src), Plane6(ct), Plane7(ct));
    forall i | 0 <= i < 6
      ensures hdr[0 + i] % 64 == SixBits(dst.call)[i] && hdr[6 + i] % 64 == SixBits(src.call)[i]
    {
      assert Low(dst, src)[i] == SixBits(dst.call)[i];
      assert Low(dst, src)[6 + i] == SixBits(src.call)[i];
    }
  }

  /** The information length that a header gives. */
  ghost function HeaderLength(hdr: seq<byte>): (len: nat)
    requires |hdr| >= 12
    ensures len <= 1023
  {
    ToFromBits(PlaneOf(hdr, 7)[2..12]);
    Pow2Small();
    FromBits(PlaneOf(hdr, 7)[2..12])
  }

  ghost function HeaderPid(hdr: seq<byte>): (pid: nat)
    requires |hdr| >= 12
    ensures pid < 16
  {
    ToFromBits(PlaneOf(hdr, 6)[1..5]);
    Pow2Small();
    FromBits(PlaneOf(hdr, 6)[1..5])
  }

  ghost function HeaderUi(hdr: seq<byte>): nat
    requires |hdr| >= 12
  {
    FromBits(PlaneOf(hdr, 6)[0..1])
  }

  ghost function HeaderControl(hdr: seq<byte>): nat
    requires |hdr| >= 12
  {
    FromBits(PlaneOf(hdr, 6)[5..12])
  }

  /** The information length given in a header: il2p_get_header_attributes. */
  method GetHeaderAttributes(hdr: seq<byte>) returns (len: nat)
    requires |hdr| == HEADER_SIZE
    ensures len == HeaderLength(hdr) <= 1023
  {
    hide PlaneOf;
    Pow2Small();
    len := GetField(hdr, 7, 11, 10);
  }

  /** The protocol identifier, UI and control fields of a header. */
  method GetFields(hdr: seq<byte>) returns (pid: nat, ui: nat, control: nat)
    requires |hdr| == HEADER_SIZE
    ensures pid == HeaderPid(hdr) && ui == HeaderUi(hdr) && control == HeaderControl(hdr)
  {
    hide PlaneOf;
    pid := GetField(hdr, 6, 4, 4);
    ui := GetField(hdr, 6, 0, 1);
    control := GetField(hdr, 6, 11, 7);
  }

  function UTypeOf(op: nat): (ftype: FrameType)
    ensures ftype in U_TYPES
  {
    if op == 0 then SABM else if op == 1 then DISC else if op == 2 then DM
    else if op == 3 then UA else if op == 5 then UI else FRMR
  }

  function STypeOf(k: nat): (ftype: FrameType)
    ensures ftype in S_TYPES
  {
    if k == 0 then RR else if k == 1 then RNR else if k == 2 then REJ else SREJ
  }

  /** The contents that the fields of a header describe, without an information field. */
  function ContentOfFields(pid: nat, ui: nat, c: nat): (ct: Content)
    requires pid < 16
    ensures ct.Valid() && ct.info == []
  {
    if pid == 0 then SContentOf(STypeOf(c % 4), c / 8 % 8, c / 64 % 2, [])
    else if pid == 1 then UContentOf(UTypeOf(c / 8 % 8), c / 64 % 2, if UTypeOf(c / 8 % 8) == UI then 0xf0 else 0, [])
    else if ui != 0 then UContentOf(UI, c / 64 % 2, DecodePid(pid), [])
    else IContentOf(c / 8 % 8, c % 8, c / 64 % 2, DecodePid(pid), [])
  }

  /** Whether the fields describe a command. */
  function CrOfFields(pid: nat, ui: nat, c: nat): CmdRes
  {
    if pid >= 2 && ui == 0 then Cmd else if c / 4 % 2 == 1 then Cmd else Res
  }

  ghost function HeaderContent(hdr: seq<byte>): (ct: Content)
    requires |hdr| >= 12
    ensures ct.Valid() && ct.info == []
  {
    ContentOfFields(HeaderPid(hdr), HeaderUi(hdr), HeaderControl(hdr))
  }

  ghost function HeaderCr(hdr: seq<byte>): CmdRes
    requires |hdr| >= 12
  {
    CrOfFields(HeaderPid(hdr), HeaderUi(hdr), HeaderControl(hdr))
  }

  // The contents rebuilt from the fields are those that were sent.
  lemma ContentsBack(ct: Content, pid: nat, ui: nat, c: nat)
    requires pid < 16 && Encodable(ct) && FieldsOf(ct, pid, ui, c)
    ensures ContentOfFields(pid, ui, c) == WithInfo(Received(ct), []) && CrOfFields(pid, ui, c) == Cmd
  {
    hide Encodable, FieldsOf, ContentOfFields, CrOfFields, Received;
    if ct.SContent? {
      SupervisoryBack(ct, pid, ui, c);
    } else if ct.IContent? {
      InformationBack(ct, pid, ui, c);
    } else {
      UnnumberedBack(ct, pid, ui, c);
    }
  }

  lemma SupervisoryBack(ct: Content, pid: nat, ui: nat, c: nat)
    requires pid < 16 && ct.SContent? && Encodable(ct) && FieldsOf(ct, pid, ui, c)
    ensures ContentOfFields(pid, ui, c) == WithInfo(Received(ct), []) && CrOfFields(pid, ui, c) == Cmd
  {
  }

  lemma UnnumberedBack(ct: Content, pid: nat, ui: nat, c: nat)
    requires pid < 16 && ct.UContent? && Encodable(ct) && FieldsOf(ct, pid, ui, c)
    ensures ContentOfFields(pid, ui, c) == WithInfo(Received(ct), []) && CrOfFields(pid, ui, c) == Cmd
  {
  }

  lemma InformationBack(ct: Content, pid: nat, ui: nat, c: nat)
    requires pid < 16 && ct.IContent? && Encodable(ct) && FieldsOf(ct, pid, ui, c)
    ensures ContentOfFields(pid, ui, c) == WithInfo(Received(ct), []) && CrOfFields(pid, ui, c) == Cmd
  {
  }

  /** The header of a frame reads as that frame, a command with its protocol identifier made canonical. */
  lemma HeaderReads(hdr: seq<byte>, dst: Addr, src: Addr, ct: Content)
    requires IsHeader(hdr, dst, src, ct)
    ensures ValidAddr(dst) && ValidAddr(src) && Encodable(ct)
    ensures Spells(hdr, 0, dst.call) && Spells(hdr, 6, src.call)
    ensures hdr[12] / 16 % 16 == dst.ssid && hdr[12] % 16 == src.ssid
    ensures HeaderLength(hdr) == |ct.info|
    ensures HeaderContent(hdr) == WithInfo(Received(ct), []) && HeaderCr(hdr) == Cmd
  {
    hide Planes, PlaneOf, Plane6, Plane7, FieldsOf, Control7, Pid4, Spells, Received, ContentOfFields, CrOfFields;
    HeaderFields(hdr, dst, src, ct);
    LengthField(ct);
    PlaneFields(ct);
    FieldsDecode(ct);
    ContentsBack(ct, HeaderPid(hdr), HeaderUi(hdr), HeaderControl(hdr));
  }

  // ---------- headers in figures ----------

  /** Bit 6 of a byte of the header, as a digit, and bit 7. */
  function Bit6(hdr: seq<byte>, i: nat): (b: nat)
    requires i < |hdr|
    ensures b < 2
  {
    hdr[i] / 64 % 2
  }

  function Bit7(hdr: seq<byte>, i: nat): (b: nat)
    requires i < |hdr|
    ensures b < 2
  {
    hdr[i] / 128
  }

  // A bit more of a field.
  lemma FieldMore(hdr: seq<byte>, at: nat, i: nat)
    requires |hdr| >= 12 && at <= i < 12
    ensures FromBits(PlaneOf(hdr, 6)[at..i + 1]) == 2 * FromBits(PlaneOf(hdr, 6)[at..i]) + Bit6(hdr, i)
    ensures FromBits(PlaneOf(hdr, 7)[at..i + 1]) == 2 * FromBits(PlaneOf(hdr, 7)[at..i]) + Bit7(hdr, i)
    ensures FromBits(PlaneOf(hdr, 6)[at..at]) == 0 && FromBits(PlaneOf(hdr, 7)[at..at]) == 0
  {
    hide FromBits;
    FromNone();
    FromMore(PlaneOf(hdr, 6), at, i);
    FromMore(PlaneOf(hdr, 7), at, i);
  }

  /** The identifier and UI fields of any header as sums of its bits. */
  lemma PidFigures(hdr: seq<byte>)
    requires |hdr| >= 12
    ensures HeaderUi(hdr) == Bit6(hdr, 0)
    ensures HeaderPid(hdr) == 8 * Bit6(hdr, 1) + 4 * Bit6(hdr, 2) + 2 * Bit6(hdr, 3) + Bit6(hdr, 4)
  {
    hide FromBits, PlaneOf, Bit6, Bit7;
    FieldMore(hdr, 0, 0);
    FieldMore(hdr, 1, 1);
    FieldMore(hdr, 1, 2);
    FieldMore(hdr, 1, 3);
    FieldMore(hdr, 1, 4);
  }

  /** And the control field. */
  lemma ControlFigure(hdr: seq<byte>)
    requires |hdr| >= 12
    ensures HeaderControl(hdr) == 64 * Bit6(hdr, 5) + 32 * Bit6(hdr, 6) + 16 * Bit6(hdr, 7) + 8 * Bit6(hdr, 8)
        + 4 * Bit6(hdr, 9) + 2 * Bit6(hdr, 10) + Bit6(hdr, 11)
  {
    hide FromBits, PlaneOf, Bit6, Bit7;
    FieldMore(hdr, 5, 5);
    FieldMore(hdr, 5, 6);
    FieldMore(hdr, 5, 7);
    FieldMore(hdr, 5, 8);
    FieldMore(hdr, 5, 9);
    FieldMore(hdr, 5, 10);
    FieldMore(hdr, 5, 11);
  }

  /** And the length of the information. */
  lemma LengthFigure(hdr: seq<byte>)
    requires |hdr| >= 12
    ensures HeaderLength(hdr) == 512 * Bit7(hdr, 2) + 256 * Bit7(hdr, 3) + 128 * Bit7(hdr, 4)
        + 64 * Bit7(hdr, 5) + 32 * Bit7(hdr, 6) + 16 * Bit7(hdr, 7) + 8 * Bit7(hdr, 8)
        + 4 * Bit7(hdr, 9) + 2 * Bit7(hdr, 10) + Bit7(hdr, 11)
  {
    hide FromBits, PlaneOf, Bit6, Bit7;
    FieldMore(hdr, 2, 2);
    FieldMore(hdr, 2, 3);
    FieldMore(hdr, 2, 4);
    FieldMore(hdr, 2, 5);
    FieldMore(hdr, 2, 6);
    FieldMore(hdr, 2, 7);
    FieldMore(hdr, 2, 8);
    FieldMore(hdr, 2, 9);
    FieldMore(hdr, 2, 10);
    FieldMore(hdr, 2, 11);
  }

  const U_BYTES: seq<byte> := [0x2f, 0x43, 0x0f, 0x63, 0x87, 0x03, 0x87, 0x87]

  /** What the bits of a header say of the control byte: the identifier tells supervisory (0) from unnumbered
      frames (1), the UI bit a UI frame, and anything else is an information frame. */
  ghost predicate ControlAs(hdr: seq<byte>, c: byte)
    requires |hdr| == HEADER_SIZE
  {
    var pid := 8 * Bit6(hdr, 1) + 4 * Bit6(hdr, 2) + 2 * Bit6(hdr, 3) + Bit6(hdr, 4);
    var pf, upper := Bit6(hdr, 5), 4 * Bit6(hdr, 6) + 2 * Bit6(hdr, 7) + Bit6(hdr, 8);
    c as int == 16 * pf +
      if pid == 0 then 1 + 4 * (2 * Bit6(hdr, 10) + Bit6(hdr, 11)) + 32 * upper
      else if pid == 1 then U_BYTES[upper]
      else if Bit6(hdr, 0) == 1 then 3
      else 2 * (4 * Bit6(hdr, 9) + 2 * Bit6(hdr, 10) + Bit6(hdr, 11)) + 32 * upper
  }

  /** What they say of the protocol identifier: there is none for 0, and for 1 only that of a UI frame. */
  ghost predicate PidAs(hdr: seq<byte>, pids: seq<byte>)
    requires |hdr| == HEADER_SIZE
  {
    var pid := 8 * Bit6(hdr, 1) + 4 * Bit6(hdr, 2) + 2 * Bit6(hdr, 3) + Bit6(hdr, 4);
    pids == if pid == 0 then []
            else if pid == 1 then
              if Bit6(hdr, 6) == 1 && Bit6(hdr, 7) == 0 && Bit6(hdr, 8) == 1 then [0xf0] else []
            else if pid in {2, 3, 4, 5, 6} then [[0x20, 0x01, 0x06, 0x07, 0x08][pid - 2]]
            else if pid in {11, 12, 13, 14} then [0xc1 + pid] else [0xf0]
  }

  /** Command or response: the C bit in bit 6 of byte 9, and a command if it is an information frame. */
  ghost predicate CommandAs(hdr: seq<byte>, f: seq<byte>)
    requires |hdr| == HEADER_SIZE && |f| >= 14
  {
    if (Bit6(hdr, 1) == 1 || Bit6(hdr, 2) == 1 || Bit6(hdr, 3) == 1) && Bit6(hdr, 0) == 0
    then f[6] >= 128 && f[13] < 128
    else (f[6] >= 128 <==> Bit6(hdr, 9) == 1) && (f[13] >= 128 <==> Bit6(hdr, 9) == 0)
  }

  /** The addresses: characters 32 above the low six bits and doubled, and the station numbers of byte 12. */
  ghost predicate AddressesAs(hdr: seq<byte>, f: seq<byte>)
    requires |hdr| == HEADER_SIZE && |f| >= 14
  {
    && (forall i :: 0 <= i < 6 ==> f[i] == 2 * (hdr[i] % 64 + 32))
    && (forall i :: 7 <= i < 13 ==> f[i] == 2 * (hdr[i - 1] % 64 + 32))
    && f[6] / 2 % 16 == hdr[12] / 16 && f[13] / 2 % 16 == hdr[12] % 16
    && f[6] / 32 % 4 == f[13] / 32 % 4 == 3 && f[6] % 2 == 0 && f[13] % 2 == 1
  }

  /** A frame, byte by byte, from the bits of its header and its data. */
  ghost predicate ReadsHeader(hdr: seq<byte>, f: seq<byte>, data: seq<byte>)
    requires |hdr| == HEADER_SIZE
  {
    && |f| >= 15 + |data| && AddressesAs(hdr, f) && CommandAs(hdr, f) && ControlAs(hdr, f[14])
    && f[|f| - |data|..] == data && PidAs(hdr, f[15..|f| - |data|])
  }

  // The digits of the control field.
  lemma ControlPlaces(hdr: seq<byte>)
    requires |hdr| == HEADER_SIZE
    ensures var c := HeaderControl(hdr);
      && c / 64 % 2 == Bit6(hdr, 5) && c / 8 % 8 == 4 * Bit6(hdr, 6) + 2 * Bit6(hdr, 7) + Bit6(hdr, 8)
      && c % 8 == 4 * Bit6(hdr, 9) + 2 * Bit6(hdr, 10) + Bit6(hdr, 11)
      && c / 4 % 2 == Bit6(hdr, 9) && c % 4 == 2 * Bit6(hdr, 10) + Bit6(hdr, 11)
  {
    hide HeaderControl, Bit6;
    ControlFigure(hdr);
    ControlDigits(Bit6(hdr, 5), 4 * Bit6(hdr, 6) + 2 * Bit6(hdr, 7) + Bit6(hdr, 8),
                  4 * Bit6(hdr, 9) + 2 * Bit6(hdr, 10) + Bit6(hdr, 11));
    LowDigits3(HeaderControl(hdr), Bit6(hdr, 9), 2 * Bit6(hdr, 10) + Bit6(hdr, 11));
  }

  lemma LowDigits3(c: nat, h: nat, l: nat)
    requires c % 8 == 4 * h + l && l < 4 && h < 2
    ensures c / 4 % 2 == h && c % 4 == l
  {
  }

  // What is made of the fields, in figures, for each kind of frame.
  lemma SupervisoryFigures(hdr: seq<byte>, c: nat)
    requires |hdr| == HEADER_SIZE && 8 * Bit6(hdr, 1) + 4 * Bit6(hdr, 2) + 2 * Bit6(hdr, 3) + Bit6(hdr, 4) == 0
    requires c / 64 % 2 == Bit6(hdr, 5) && c / 8 % 8 == 4 * Bit6(hdr, 6) + 2 * Bit6(hdr, 7) + Bit6(hdr, 8)
    requires c % 4 == 2 * Bit6(hdr, 10) + Bit6(hdr, 11)
    ensures var ct := ContentOfFields(0, Bit6(hdr, 0), c); ControlAs(hdr, Control(ct)) && !ct.HasPid() && PidAs(hdr, [])
  {
    hide Bit6;
  }

  lemma UnnumberedFigures(hdr: seq<byte>, c: nat)
    requires |hdr| == HEADER_SIZE && 8 * Bit6(hdr, 1) + 4 * Bit6(hdr, 2) + 2 * Bit6(hdr, 3) + Bit6(hdr, 4) == 1
    requires c / 64 % 2 == Bit6(hdr, 5) && c / 8 % 8 == 4 * Bit6(hdr, 6) + 2 * Bit6(hdr, 7) + Bit6(hdr, 8)
    ensures var ct := ContentOfFields(1, Bit6(hdr, 0), c);
      ControlAs(hdr, Control(ct)) && PidAs(hdr, if ct.HasPid() then [ct.pid] else [])
  {
    hide Bit6;
  }

  lemma DataFigures(hdr: seq<byte>, pid: nat, c: nat)
    requires |hdr| == HEADER_SIZE && 2 <= pid < 16
    requires pid == 8 * Bit6(hdr, 1) + 4 * Bit6(hdr, 2) + 2 * Bit6(hdr, 3) + Bit6(hdr, 4)
    requires c / 64 % 2 == Bit6(hdr, 5) && c / 8 % 8 == 4 * Bit6(hdr, 6) + 2 * Bit6(hdr, 7) + Bit6(hdr, 8)
    requires c % 8 == 4 * Bit6(hdr, 9) + 2 * Bit6(hdr, 10) + Bit6(hdr, 11)
    ensures var ct := ContentOfFields(pid, Bit6(hdr, 0), c);
      ControlAs(hdr, Control(ct)) && ct.HasPid() && PidAs(hdr, [ct.pid])
  {
    hide Bit6;
  }

  // Data put behind a frame.
  lemma WithData(hdr: seq<byte>, f: seq<byte>, data: seq<byte>)
    requires |hdr| == HEADER_SIZE && ReadsHeader(hdr, f, [])
    ensures ReadsHeader(hdr, f + data, data)
  {
    hide Bit6, ControlAs, PidAs;
    var g := f + data;
    assert f[15..|f| - 0] == g[15..|g| - |data|];
    assert g[|g| - |data|..] == data;
  }

  // For any header.
  lemma ContentFigures(hdr: seq<byte>)
    requires |hdr| == HEADER_SIZE
    ensures ControlAs(hdr, Control(HeaderContent(hdr)))
    ensures PidAs(hdr, if HeaderContent(hdr).HasPid() then [HeaderContent(hdr).pid] else [])
    ensures HeaderContent(hdr).info == []
  {
    hide HeaderControl, HeaderPid, HeaderUi, Bit6, ControlAs, PidAs, Control, ContentOfFields;
    PidFigures(hdr);
    ControlPlaces(hdr);
    if HeaderPid(hdr) == 0 {
      SupervisoryFigures(hdr, HeaderControl(hdr));
    } else if HeaderPid(hdr) == 1 {
      UnnumberedFigures(hdr, HeaderControl(hdr));
    } else {
      DataFigures(hdr, HeaderPid(hdr), HeaderControl(hdr));
    }
  }

  lemma CommandFigures(hdr: seq<byte>)
    requires |hdr| == HEADER_SIZE
    ensures HeaderCr(hdr) == Cmd || HeaderCr(hdr) == Res
    ensures (Bit6(hdr, 1) == 1 || Bit6(hdr, 2) == 1 || Bit6(hdr, 3) == 1) && Bit6(hdr, 0) == 0 ==> HeaderCr(hdr) == Cmd
    ensures Bit6(hdr, 0) == 1 || (Bit6(hdr, 1) == 0 && Bit6(hdr, 2) == 0 && Bit6(hdr, 3) == 0) ==>
        (HeaderCr(hdr) == Cmd <==> Bit6(hdr, 9) == 1)
  {
    hide HeaderControl, HeaderPid, HeaderUi, Bit6;
    PidFigures(hdr);
    ControlPlaces(hdr);
  }

  /** Every frame made from a header that spells callsigns, byte by byte. */
  lemma HeaderFrameFigures(hdr: seq<byte>, d: Addr, s: Addr)
    requires |hdr| == HEADER_SIZE && ValidAddr(d) && ValidAddr(s)
    requires Spells(hdr, 0, d.call) && d.ssid == hdr[12] / 16 % 16
    requires Spells(hdr, 6, s.call) && s.ssid == hdr[12] % 16
    ensures ReadsHeader(hdr, FrameBytes(d, s, HeaderCr(hdr), HeaderContent(hdr)), [])
  {
    hide HeaderCr, HeaderContent, Addresses, Control, Bit6, ControlAs, PidAs, ValidAddr;
    var f, ct := FrameBytes(d, s, HeaderCr(hdr), HeaderContent(hdr)), HeaderContent(hdr);
    ContentFigures(hdr);
    assert f[14] == Control(ct) && f[15..|f|] == if ct.HasPid() then [ct.pid] else [];
    SpelledFigures(hdr, d, s, HeaderCr(hdr), ct);
    CommandFigures(hdr);
  }

  lemma SpelledFigures(hdr: seq<byte>, d: Addr, s: Addr, cr: CmdRes, ct: Content)
    requires |hdr| == HEADER_SIZE && ValidAddr(d) && ValidAddr(s) && ct.Valid()
    requires Spells(hdr, 0, d.call) && d.ssid == hdr[12] / 16 % 16
    requires Spells(hdr, 6, s.call) && s.ssid == hdr[12] % 16
    ensures var f := FrameBytes(d, s, cr, ct);
      |f| >= 15 && AddressesAs(hdr, f) && (f[6] >= 128 <==> cr == Cmd) && (f[13] >= 128 <==> cr == Res)
  {
    hide Addresses, FrameBytes, BodyReads;
    var f := FrameBytes(d, s, cr, ct);
    FrameFigures(d, s, cr, ct);
    LongEnough(d, s, cr, ct);
    forall i | 0 <= i < 6
      ensures f[i] == 2 * (hdr[i] % 64 + 32)
    {
      assert hdr[0 + i] % 64 == SixBits(d.call)[i];
    }
    forall i | 7 <= i < 13
      ensures f[i] == 2 * (hdr[i - 1] % 64 + 32)
    {
      assert hdr[6 + (i - 7)] % 64 == SixBits(s.call)[i - 7];
      assert f[7 + (i - 7)] == f[i];
    }
  }

  lemma LongEnough(d: Addr, s: Addr, cr: CmdRes, ct: Content)
    requires ValidAddr(d) && ValidAddr(s) && ct.Valid()
    ensures |FrameBytes(d, s, cr, ct)| >= 15
  {
    hide Addresses, Control;
  }

  /** The control field of a frame that is sent: P/F, then N(R) or the kind of an unnumbered frame, then the C
      bit, always one, over the kind of a supervisory frame; or N(S). */
  ghost predicate ControlSent(c: nat, ct: Content)
  {
    var p := if ct.pf then 64 else 0;
    && (ct.IContent? ==> c == p + 8 * ct.nr + ct.ns)
    && (ct.SContent? ==>
          c == p + 8 * ct.nr + if ct.ftype == RR then 4 else if ct.ftype == RNR then 5 else if ct.ftype == REJ then 6
                               else 7)
    && (ct.UContent? ==>
          c == p + if ct.ftype == SABM then 4 else if ct.ftype == DISC then 12 else if ct.ftype == DM then 20
                   else if ct.ftype == UA then 28 else if ct.ftype == FRMR then 36 else 44)
  }

  /** Every bit of the header of a frame that is sent. */
  lemma SentFigures(hdr: seq<byte>, dst: Addr, src: Addr, ct: Content)
    requires IsHeader(hdr, dst, src, ct)
    ensures forall i :: 0 <= i < 6 ==> hdr[i] % 64 == if i < |dst.call| then dst.call[i] as int - 32 else 0
    ensures forall i :: 6 <= i < 12 ==> hdr[i] % 64 == if i < 6 + |src.call| then src.call[i - 6] as int - 32 else 0
    ensures |hdr| == 13 && hdr[12] == 16 * dst.ssid + src.ssid
    ensures Bit6(hdr, 0) == 1 <==> ct.UContent? && ct.ftype == UI
    ensures 8 * Bit6(hdr, 1) + 4 * Bit6(hdr, 2) + 2 * Bit6(hdr, 3) + Bit6(hdr, 4) ==
        if ct.SContent? then 0 else if ct.UContent? && ct.ftype != UI then 1 else EncodePid(ct.pid)
    ensures ControlSent(64 * Bit6(hdr, 5) + 32 * Bit6(hdr, 6) + 16 * Bit6(hdr, 7) + 8 * Bit6(hdr, 8)
                        + 4 * Bit6(hdr, 9) + 2 * Bit6(hdr, 10) + Bit6(hdr, 11), ct)
    ensures Bit7(hdr, 0) == Bit7(hdr, 1) == 1
    ensures 512 * Bit7(hdr, 2) + 256 * Bit7(hdr, 3) + 128 * Bit7(hdr, 4) + 64 * Bit7(hdr, 5)
        + 32 * Bit7(hdr, 6) + 16 * Bit7(hdr, 7) + 8 * Bit7(hdr, 8) + 4 * Bit7(hdr, 9)
        + 2 * Bit7(hdr, 10) + Bit7(hdr, 11) == |ct.info|
  {
    hide IsHeader, Encodable, HeaderPid, HeaderUi, HeaderControl, Bit6, Bit7, EncodePid, ControlSent, Spells;
    HeaderShape(hdr, dst, src, ct);
    HeaderReads(hdr, dst, src, ct);
    PidFigures(hdr);
    ControlFigure(hdr);
    LengthFigure(hdr);
    SentFields(hdr, dst, src, ct);
    SentAddresses(hdr, dst.call, src.call);
  }

  lemma HeaderShape(hdr: seq<byte>, dst: Addr, src: Addr, ct: Content)
    requires IsHeader(hdr, dst, src, ct)
    ensures |hdr| == HEADER_SIZE && Encodable(ct) && ValidAddr(dst) && ValidAddr(src)
    ensures hdr[12] == 16 * dst.ssid + src.ssid && Bit7(hdr, 0) == Bit7(hdr, 1) == 1
  {
    hide Plane6, Low, Encodable;
    assert hdr[0] == Join(Low(dst, src)[0], Plane6(ct)[0], Plane7(ct)[0]);
    assert hdr[1] == Join(Low(dst, src)[1], Plane6(ct)[1], Plane7(ct)[1]);
  }

  lemma SentFields(hdr: seq<byte>, dst: Addr, src: Addr, ct: Content)
    requires IsHeader(hdr, dst, src, ct)
    ensures |hdr| == HEADER_SIZE && Encodable(ct)
    ensures HeaderUi(hdr) == 1 <==> ct.UContent? && ct.ftype == UI
    ensures HeaderPid(hdr) == if ct.SContent? then 0 else if ct.UContent? && ct.ftype != UI then 1
        else EncodePid(ct.pid)
    ensures ControlSent(HeaderControl(hdr), ct)
  {
    hide EncodePid, Plane6, Plane7, FromBits, PlaneOf;
    HeaderFields(hdr, dst, src, ct);
    PlaneFields(ct);
  }

  lemma SentAddresses(hdr: seq<byte>, dst: string, src: string)
    requires |hdr| == HEADER_SIZE && Spells(hdr, 0, dst) && Spells(hdr, 6, src)
    ensures forall i :: 0 <= i < 6 ==> hdr[i] % 64 == if i < |dst| then dst[i] as int - 32 else 0
    ensures forall i :: 6 <= i < 12 ==> hdr[i] % 64 == if i < 6 + |src| then src[i - 6] as int - 32 else 0
  {
    forall i | 0 <= i < 6
      ensures hdr[i] % 64 == if i < |dst| then dst[i] as int - 32 else 0
    {
      assert hdr[0 + i] % 64 == SixBits(dst)[i];
    }
    forall i | 6 <= i < 12
      ensures hdr[i] % 64 == if i < 6 + |src| then src[i - 6] as int - 32 else 0
    {
      assert hdr[6 + (i - 6)] % 64 == SixBits(src)[i - 6];
    }
  }

  lemma ResponseReads(hdr: seq<byte>, f: seq<byte>)
    requires hdr == [0xa1, 0x80, 0x00, 0x00, 0x00, 0x00, 0x22, 0x00, 0x00, 0x00, 0x00, 0x00, 0x00]
    requires ReadsHeader(hdr, f, [])
    ensures f == [0x82, 0x40, 0x40, 0x40, 0x40, 0x40, 0x60, 0x84, 0x40, 0x40, 0x40, 0x40, 0x40, 0xe1, 0x01]
  {
    hide Bit6, AddressesAs;
    NoBits(hdr);
    assert f[15..|f| - 0] == [];
    assert |f| == 15 && f[14] == 0x01;
    ResponseAddresses(hdr, f);
  }

  lemma NoBits(hdr: seq<byte>)
    requires |hdr| == 13 && forall i :: 0 <= i < 13 ==> hdr[i] / 64 % 2 == 0
    ensures forall i :: 0 <= i < 13 ==> Bit6(hdr, i) == 0
  {
  }

  lemma ResponseAddresses(hdr: seq<byte>, f: seq<byte>)
    requires hdr == [0xa1, 0x80, 0x00, 0x00, 0x00, 0x00, 0x22, 0x00, 0x00, 0x00, 0x00, 0x00, 0x00]
    requires |f| == 15 && AddressesAs(hdr, f) && f[6] < 128 && f[13] >= 128
    ensures f[..14] == [0x82, 0x40, 0x40, 0x40, 0x40, 0x40, 0x60, 0x84, 0x40, 0x40, 0x40, 0x40, 0x40, 0xe1]
  {
    LastDigits(f[6]);
    LastDigits(f[13]);
  }

  lemma LastDigits(b: byte)
    ensures b as int == b % 2 + 2 * (b / 2 % 16) + 32 * (b / 32 % 4) + if b >= 128 then 128 else 0
  {
    assert b / 32 == b / 2 / 16;
  }

  /** A header in full: an RR with N(R) = 0 from B to A that another station sends as a response. */
  lemma KnownResponse(hdr: seq<byte>)
    requires hdr == [0xa1, 0x80, 0x00, 0x00, 0x00, 0x00, 0x22, 0x00, 0x00, 0x00, 0x00, 0x00, 0x00]
    ensures FrameBytes(Addr("A", 0), Addr("B", 0), HeaderCr(hdr), HeaderContent(hdr)) ==
      [0x82, 0x40, 0x40, 0x40, 0x40, 0x40, 0x60, 0x84, 0x40, 0x40, 0x40, 0x40, 0x40, 0xe1, 0x01]
  {
    hide HeaderCr, HeaderContent, FrameBytes, ReadsHeader;
    var f := FrameBytes(Addr("A", 0), Addr("B", 0), HeaderCr(hdr), HeaderContent(hdr));
    HeaderFrameFigures(hdr, Addr("A", 0), Addr("B", 0));
    ResponseReads(hdr, f);
  }

  // The frame that the fields of a header describe, without its information field.
  method FrameOfFields(dst: string, src: string, pid: nat, ui: nat, control: nat, ghost d: Addr, ghost s: Addr)
    returns (pp: Packet)
    requires pid < 16 && Writes(dst, d) && Writes(src, s)
    ensures fresh(pp) && fresh(pp.frameData) && pp.Valid()
        && Holds(pp, d, s, CrOfFields(pid, ui, control), ContentOfFields(pid, ui, control))
  {
    hide FrameBytes, Writes, SContentOf, UContentOf, IContentOf, UTypeOf, STypeOf, DecodePid;
    ghost var a, b;
    var p: Packet?;
    var cr := if control / 4 % 2 == 1 then Cmd else Res;
    if pid == 0 {
      p, a, b := SFrame(dst, src, cr, STypeOf(control % 4), control / 8 % 8, control / 64 % 2, []);
    } else if pid == 1 {
      var ftype := UTypeOf(control / 8 % 8);
      p, a, b := UFrame(dst, src, cr, ftype, control / 64 % 2, if ftype == UI then 0xf0 else 0, []);
    } else if ui != 0 {
      p, a, b := UFrame(dst, src, cr, UI, control / 64 % 2, DecodePid(pid), []);
    } else {
      p, a, b := IFrame(dst, src, Cmd, control / 8 % 8, control % 8, control / 64 % 2, DecodePid(pid), []);
    }
    WritesUnique(dst, a, d);
    WritesUnique(src, b, s);
    WritesValid(dst, d);
    WritesValid(src, s);
    pp := p;
  }

  /** il2p_decode_header_type_1: exactly the headers whose address bytes spell callsigns give a
      frame, the one that their fields describe, still without its information field. */
  method Il2pDecodeHeaderType1(hdr: seq<byte>) returns (pp: Packet?, ghost dst: Addr, ghost src: Addr)
    requires |hdr| == HEADER_SIZE
    ensures pp != null <==> exists a, b :: Spells(hdr, 0, a) && Spells(hdr, 6, b)
    ensures pp != null ==> fresh(pp) && fresh(pp.frameData) && pp.Valid()
    ensures pp != null ==> Holds(pp, dst, src, HeaderCr(hdr), HeaderContent(hdr))
    ensures pp != null ==> Spells(hdr, 0, dst.call) && dst.ssid == hdr[12] / 16 % 16
    ensures pp != null ==> Spells(hdr, 6, src.call) && src.ssid == hdr[12] % 16
    ensures pp != null ==> ReadsHeader(hdr, pp.Contents(), [])
  {
    hide Holds, Writes, Spells, ReadsHeader, ContentOfFields, CrOfFields, HeaderPid, HeaderUi, HeaderControl;
    var ok, dstText, srcText;
    ok, dstText, dst := DecodeAddress(hdr, 0, hdr[12] / 16 % 16);
    src := dst;
    if !ok {
      return null, dst, src;
    }
    ok, srcText, src := DecodeAddress(hdr, 6, hdr[12] % 16);
    if !ok {
      return null, dst, src;
    }
    var pid, ui, control := GetFields(hdr);
    pp := FrameOfFields(dstText, srcText, pid, ui, control, dst, src);
    HeldFigures(pp, hdr, dst, src);
  }

  lemma HeldFigures(pp: Packet, hdr: seq<byte>, d: Addr, s: Addr)
    requires |hdr| == HEADER_SIZE && Holds(pp, d, s, HeaderCr(hdr), HeaderContent(hdr))
    requires Spells(hdr, 0, d.call) && d.ssid == hdr[12] / 16 % 16
    requires Spells(hdr, 6, s.call) && s.ssid == hdr[12] % 16
    ensures ReadsHeader(hdr, pp.Contents(), [])
  {
    hide HeaderCr, HeaderContent, FrameBytes, ReadsHeader, Spells;
    HeaderFrameFigures(hdr, d, s);
  }
}
