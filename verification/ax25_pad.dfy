/** AX.25 frames: address parsing, the frame constructors, and reading a frame back. */
module Ax25Pad {
  import opened Gf256
  import opened Buffers

  const MAX_PACKET_LEN := 2057
  const PID_NO_LAYER_3: byte := 0xf0
  const PID_ESCAPE_CHARACTER := 0xff

  datatype CmdRes = Res | Cmd | Cr00 | Cr11

  datatype FrameType =
    | I
    | RR | RNR | REJ | SREJ
    | SABME | SABM | DISC | DM | UA | FRMR | UI | XID | TEST | OtherU
    | NotAX25

  // ---------- addresses ----------

  predicate IsUpper(c: char) { 'A' <= c <= 'Z' }
  predicate IsLower(c: char) { 'a' <= c <= 'z' }
  predicate IsDigit(c: char) { '0' <= c <= '9' }
  predicate IsAlnum(c: char) { IsUpper(c) || IsLower(c) || IsDigit(c) }

  /** A callsign and station number: up to six capitals or digits, and 0 to 15. */
  datatype Addr = Addr(call: string, ssid: nat)

  predicate ValidCall(call: string)
  {
    |call| <= 6 && forall i :: 0 <= i < |call| ==> IsUpper(call[i]) || IsDigit(call[i])
  }

  predicate ValidAddr(a: Addr)
  {
    ValidCall(a.call) && a.ssid <= 15
  }

  function Digit(c: char): (d: nat)
    requires IsDigit(c)
    ensures d <= 9
  {
    c as int - '0' as int
  }

  predicate AllDigits(ds: string) {
    forall i :: 0 <= i < |ds| ==> IsDigit(ds[i])
  }

  /** The number written by at most two digits; none at all counts as zero. */
  function Number(ds: string): nat
    requires |ds| <= 2 && AllDigits(ds)
  {
    if |ds| == 0 then 0 else if |ds| == 1 then Digit(ds[0]) else 10 * Digit(ds[0]) + Digit(ds[1])
  }

  /** text is how an address may be written: the callsign, or the callsign, a hyphen and at most two digits. */
  ghost predicate Writes(text: string, a: Addr)
  {
    && text != "" && ValidAddr(a) && a.call <= text
    && var rest := text[|a.call|..];
       || (rest == "" && a.ssid == 0)
       || (|rest| <= 3 && rest != "" && rest[0] == '-'
           && (forall i :: 1 <= i < |rest| ==> IsDigit(rest[i])) && a.ssid == Number(rest[1..]))
  }

  /** A text writes at most one address. */
  lemma WritesUnique(text: string, a: Addr, b: Addr)
    requires Writes(text, a) && Writes(text, b)
    ensures a == b
  {
    CallEnds(text, a);
    CallEnds(text, b);
    assert a.call == text[..|a.call|] && b.call == text[..|b.call|];
  }

  lemma WritesValid(text: string, a: Addr)
    requires Writes(text, a)
    ensures ValidAddr(a)
  {
  }

  /** ax25_parse_addr: accepts exactly the texts that write some address. */
  method ParseAddr(text: string) returns (ok: bool, a: Addr)
    ensures ok ==> Writes(text, a)
    ensures !ok ==> forall b :: !Writes(text, b)
  {
    a := Addr("", 0);
    if |text| == 0 {
      return false, a;
    }
    var p := 0;
    while p < |text| && text[p] != '-' && text[p] != '*'
      invariant 0 <= p <= |text| && p <= 6
      invariant forall i :: 0 <= i < p ==> IsUpper(text[i]) || IsDigit(text[i])
    {
      if p >= 6 || !IsAlnum(text[p]) || IsLower(text[p]) {
        NotWritten(text, p);
        return false, a;
      }
      p := p + 1;
    }
    var call := text[..p];
    if p < |text| && text[p] == '-' {
      var ssid;
      ok, ssid := ParseSsid(text, p);
      return ok, Addr(call, ssid);
    }
    if p < |text| {
      NotWritten(text, p);
      return false, a;
    }
    return true, Addr(call, 0);
  }

  // The station number after the hyphen at p.
  method ParseSsid(text: string, p: nat) returns (ok: bool, ssid: nat)
    requires p < |text| && p <= 6 && text[p] == '-' && forall i :: 0 <= i < p ==> IsUpper(text[i]) || IsDigit(text[i])
    ensures ok ==> Writes(text, Addr(text[..p], ssid))
    ensures !ok ==> forall b :: !Writes(text, b)
  {
    hide Writes;
    var q := p + 1;
    while q < |text| && IsAlnum(text[q])
      invariant p + 1 <= q <= |text| && q <= p + 3
      invariant forall i :: p + 1 <= i < q ==> IsDigit(text[i])
    {
      if q >= p + 3 || !IsDigit(text[q]) {
        BadSsid(text, p, q);
        return false, 0;
      }
      q := q + 1;
    }
    DigitsOf(text, p + 1, q);
    ssid := Number(text[p + 1..q]);
    ok := ssid <= 15 && q == |text|;
    if ok {
      GoodSsid(text, p);
    } else {
      BadRest(text, p, q);
    }
  }

  lemma DigitsOf(text: string, i: nat, j: nat)
    requires i <= j <= |text| && forall k :: i <= k < j ==> IsDigit(text[k])
    ensures AllDigits(text[i..j])
  {
  }

  lemma GoodSsid(text: string, p: nat)
    requires p < |text| <= p + 3 && p <= 6 && text[p] == '-'
    requires forall i :: 0 <= i < p ==> IsUpper(text[i]) || IsDigit(text[i])
    requires forall i :: p + 1 <= i < |text| ==> IsDigit(text[i])
    requires AllDigits(text[p + 1..|text|])
    requires Number(text[p + 1..|text|]) <= 15
    ensures Writes(text, Addr(text[..p], Number(text[p + 1..|text|])))
  {
    var rest := text[p..];
    assert rest[1..] == text[p + 1..|text|];
    assert forall i :: 1 <= i < |rest| ==> rest[i] == text[p + i];
  }

  // The callsign part ends at the first character that is no capital or digit, which must be a hyphen.
  lemma NotWritten(text: string, p: nat)
    requires p < |text| && forall i :: 0 <= i < p ==> IsUpper(text[i]) || IsDigit(text[i])
    requires (text[p] != '-' && !IsUpper(text[p]) && !IsDigit(text[p])) || (p >= 6 && text[p] != '-')
    ensures forall b :: !Writes(text, b)
  {
    forall b
      ensures !Writes(text, b)
    {
      if Writes(text, b) {
        CallEnds(text, b);
      }
    }
  }

  lemma CallEnds(text: string, b: Addr)
    requires Writes(text, b)
    ensures |b.call| <= 6 && (|b.call| < |text| ==> text[|b.call|] == '-')
    ensures forall i :: 0 <= i < |b.call| ==> text[i] == b.call[i]
    ensures |b.call| < |text| ==> |text| <= |b.call| + 3 && forall i :: |b.call| < i < |text| ==> IsDigit(text[i])
    ensures |b.call| < |text| ==> |text| - |b.call| - 1 <= 2 && b.ssid == Number(text[|b.call| + 1..])
  {
    var n := |b.call|;
    var rest := text[n..];
    if n < |text| {
      assert rest[0] == text[n];
      assert rest[1..] == text[n + 1..];
      forall i | n < i < |text|
        ensures IsDigit(text[i])
      {
        assert text[i] == rest[i - n];
      }
    }
  }

  // A hyphen after capitals and digits ends the callsign.
  lemma CallLength(text: string, b: Addr, p: nat)
    requires Writes(text, b) && p < |text| && text[p] == '-'
    requires forall i :: 0 <= i < p ==> IsUpper(text[i]) || IsDigit(text[i])
    ensures |b.call| == p
  {
    CallEnds(text, b);
  }

  lemma BadSsid(text: string, p: nat, q: nat)
    requires p < q < |text| && text[p] == '-' && (q >= p + 3 || !IsDigit(text[q]))
    requires forall i :: 0 <= i < p ==> IsUpper(text[i]) || IsDigit(text[i])
    ensures forall b :: !Writes(text, b)
  {
    forall b
      ensures !Writes(text, b)
    {
      if Writes(text, b) {
        CallLength(text, b, p);
        CallEnds(text, b);
      }
    }
  }

  lemma BadRest(text: string, p: nat, q: nat)
    requires p < q <= |text| && q <= p + 3 && text[p] == '-' && forall i :: p + 1 <= i < q ==> IsDigit(text[i])
    requires forall i :: 0 <= i < p ==> IsUpper(text[i]) || IsDigit(text[i])
    requires q < |text| ==> !IsAlnum(text[q])
    requires Number(text[p + 1..q]) > 15 || q < |text|
    ensures forall b :: !Writes(text, b)
  {
    assert q == |text| ==> text[p + 1..q] == text[p + 1..];
    forall b
      ensures !Writes(text, b)
    {
      if Writes(text, b) {
        CallLength(text, b, p);
        CallEnds(text, b);
      }
    }
  }

  // ---------- what a frame holds ----------

  const U_TYPES := {SABM, DISC, DM, UA, FRMR, UI}
  const S_TYPES := {RR, RNR, REJ, SREJ}

  /** Everything in a frame after its addresses. */
  datatype Content =
    | UContent(ftype: FrameType, pf: bool, pid: byte, info: seq<byte>)
    | SContent(ftype: FrameType, nr: nat, pf: bool, info: seq<byte>)
    | IContent(nr: nat, ns: nat, pf: bool, pid: byte, info: seq<byte>)
  {
    predicate HasPid() {
      IContent? || (UContent? && ftype == UI)
    }

    predicate HasInfo() {
      IContent? || (UContent? && ftype in {FRMR, UI}) || (SContent? && ftype == SREJ)
    }

    /** The contents that the constructors can put into a frame. */
    predicate Valid() {
      && (UContent? ==> ftype in U_TYPES)
      && (SContent? ==> ftype in S_TYPES && nr < 8)
      && (IContent? ==> nr < 8 && ns < 8)
      && (HasPid() ==> pid != 0 && pid != PID_ESCAPE_CHARACTER)
      && (!SContent? && !HasPid() ==> pid == 0)
      && (!HasInfo() ==> info == [])
      && |info| + 16 <= MAX_PACKET_LEN
    }
  }

  function UControl(ftype: FrameType): byte
    requires ftype in U_TYPES
  {
    match ftype
    case SABM => 0x2f
    case DISC => 0x43
    case DM => 0x0f
    case UA => 0x63
    case FRMR => 0x87
    case _ => 0x03
  }

  function SControl(ftype: FrameType): byte
    requires ftype in S_TYPES
  {
    match ftype
    case RR => 0x01
    case RNR => 0x05
    case REJ => 0x09
    case _ => 0x0d
  }

  /** The control byte, P/F in bit 4 and N(R) in the top three bits. */
  function Control(ct: Content): byte
    requires ct.Valid()
  {
    match ct
    case UContent(ftype, pf, _, _) => UControl(ftype) + if pf then 0x10 else 0
    case SContent(ftype, nr, pf, _) => SControl(ftype) + (if pf then 0x10 else 0) + 32 * nr
    case IContent(nr, ns, pf, _, _) => 2 * ns + (if pf then 0x10 else 0) + 32 * nr
  }

  /** One address field: six characters shifted left and padded with blanks, then the station
      number between the C bit and the last-address bit. */
  function AddrField(a: Addr, c: bool, last: bool): (f: seq<byte>)
    requires ValidAddr(a)
    ensures |f| == 7
  {
    seq(6, (i: nat) => if i < |a.call| then 2 * (a.call[i] as int) else 64)
    + [96 + 2 * a.ssid + (if c then 128 else 0) + if last then 1 else 0]
  }

  function Addresses(dst: Addr, src: Addr, cr: CmdRes): (f: seq<byte>)
    requires ValidAddr(dst) && ValidAddr(src)
    ensures |f| == 14
  {
    AddrField(dst, cr == Cmd, false) + AddrField(src, cr == Res, true)
  }

  function Body(ct: Content): (b: seq<byte>)
    requires ct.Valid()
  {
    [Control(ct)] + (if ct.HasPid() then [ct.pid] else []) + ct.info
  }

  /** The bytes of a whole frame. */
  function FrameBytes(dst: Addr, src: Addr, cr: CmdRes, ct: Content): (b: seq<byte>)
    requires ValidAddr(dst) && ValidAddr(src) && ct.Valid()
  {
    Addresses(dst, src, cr) + Body(ct)
  }

  // ---------- the bytes in figures ----------

  /** The fourteen address bytes, for whoever reads them: only the last is odd; characters are doubled and
      padded with 64; bytes 6 and 13 hold the station numbers under two set bits, and on top the C bits. */
  ghost predicate AddressesRead(f: seq<byte>, dst: Addr, src: Addr, cr: CmdRes)
  {
    && |f| >= 14
    && (forall i :: 0 <= i < 14 ==> (f[i] % 2 == 1 <==> i == 13))
    && (forall i :: 0 <= i < 6 ==> f[i] == if i < |dst.call| then 2 * (dst.call[i] as int) else 64)
    && (forall i :: 0 <= i < 6 ==> f[7 + i] == if i < |src.call| then 2 * (src.call[i] as int) else 64)
    && f[6] / 2 % 16 == dst.ssid && f[6] / 32 % 4 == 3 && (f[6] >= 128 <==> cr == Cmd)
    && f[13] / 2 % 16 == src.ssid && f[13] / 32 % 4 == 3 && (f[13] >= 128 <==> cr == Res)
  }

  lemma AddressFigures(dst: Addr, src: Addr, cr: CmdRes)
    requires ValidAddr(dst) && ValidAddr(src)
    ensures AddressesRead(Addresses(dst, src, cr), dst, src, cr)
  {
    hide AddrField;
    FieldBytesAt(dst, cr == Cmd, false);
    FieldBytesAt(src, cr == Res, true);
    LastByte(dst.ssid, cr == Cmd, false);
    LastByte(src.ssid, cr == Res, true);
    var f, d, s := Addresses(dst, src, cr), AddrField(dst, cr == Cmd, false), AddrField(src, cr == Res, true);
    assert forall i :: 0 <= i < 7 ==> f[i] == d[i] && f[7 + i] == s[i];
    forall i | 0 <= i < 14
      ensures f[i] % 2 == 1 <==> i == 13
    {
      if i >= 7 {
        assert f[i] == f[7 + (i - 7)];
      }
    }
  }

  lemma LastByte(ssid: nat, c: bool, last: bool)
    requires ssid <= 15
    ensures var b := 96 + 2 * ssid + (if c then 128 else 0) + if last then 1 else 0;
      b / 2 % 16 == ssid && b / 32 % 4 == 3 && (b >= 128 <==> c) && (b % 2 == 1 <==> last)
  {
    SsidDigits(ssid, c, last);
    var b := 96 + 2 * ssid + (if c then 128 else 0) + if last then 1 else 0;
    assert b / 32 == if c then 7 else 3;
  }

  /** What follows the addresses: a control byte, the protocol identifier if the type has one, and the rest. */
  ghost predicate BodyReads(f: seq<byte>, ft: FrameType, pf: int, nr: int, ns: int, pid: int, info: seq<byte>)
  {
    && |f| >= 15 && ControlReads(f[14], ft, pf, nr, ns)
    && f[15..] == (if ft == I || ft == UI then [pid] else []) + info
  }

  lemma BodyFigures(dst: Addr, src: Addr, cr: CmdRes, ct: Content)
    requires ValidAddr(dst) && ValidAddr(src) && ct.Valid()
    ensures BodyReads(FrameBytes(dst, src, cr, ct), if ct.IContent? then I else ct.ftype, if ct.pf then 1 else 0,
                      if ct.UContent? then -1 else ct.nr, if ct.IContent? then ct.ns else -1,
                      if ct.SContent? then 0 else ct.pid, ct.info)
  {
    hide Addresses, Control, ControlReads;
    ControlFigures(ct);
    var f, b := FrameBytes(dst, src, cr, ct), Body(ct);
    assert f[14] == b[0];
    assert f[15..] == b[1..];
  }

  /** The control byte of any contents, in figures. */
  lemma ControlFigures(ct: Content)
    requires ct.Valid()
    ensures ControlReads(Control(ct), if ct.IContent? then I else ct.ftype, if ct.pf then 1 else 0,
                         if ct.UContent? then -1 else ct.nr, if ct.IContent? then ct.ns else -1)
  {
  }

  /** Every built frame, byte by byte. */
  lemma FrameFigures(dst: Addr, src: Addr, cr: CmdRes, ct: Content)
    requires ValidAddr(dst) && ValidAddr(src) && ct.Valid()
    ensures AddressesRead(FrameBytes(dst, src, cr, ct), dst, src, cr)
    ensures BodyReads(FrameBytes(dst, src, cr, ct), if ct.IContent? then I else ct.ftype, if ct.pf then 1 else 0,
                      if ct.UContent? then -1 else ct.nr, if ct.IContent? then ct.ns else -1,
                      if ct.SContent? then 0 else ct.pid, ct.info)
  {
    hide Addresses, Control, AddressesRead, BodyReads, Body;
    AddressFigures(dst, src, cr);
    BodyFigures(dst, src, cr, ct);
    LongerReads(Addresses(dst, src, cr), Body(ct), dst, src, cr);
  }

  lemma LongerReads(f: seq<byte>, more: seq<byte>, dst: Addr, src: Addr, cr: CmdRes)
    requires AddressesRead(f, dst, src, cr)
    ensures AddressesRead(f + more, dst, src, cr)
  {
  }

  // ---------- packets ----------

  /** A packet under construction or received: a fixed buffer and how much of it is in use. */
  class Packet {
    const frameData: array<byte>
    var frameLen: nat

    ghost predicate Valid()
      reads this
    {
      frameData.Length == MAX_PACKET_LEN + 1 && frameLen <= MAX_PACKET_LEN
    }

    ghost function Contents(): seq<byte>
      reads this, frameData
      requires Valid()
    {
      frameData[..frameLen]
    }

    constructor ()
      ensures Valid() && frameLen == 0 && fresh(frameData)
    {
      frameData := new byte[MAX_PACKET_LEN + 1](_ => 0);
      frameLen := 0;
    }

    /** Append bytes at the end of the frame. */
    method Append(bs: seq<byte>)
      requires Valid() && frameLen + |bs| <= MAX_PACKET_LEN
      modifies this, frameData
      ensures Valid() && Contents() == old(Contents()) + bs
    {
      Copy(bs, frameData, frameLen);
      assert frameData[..frameLen + |bs|] == frameData[..frameLen] + frameData[frameLen..frameLen + |bs|];
      frameLen := frameLen + |bs|;
    }

    /** Put bytes at a place and let them count instead of the last count bytes. */
    method ReplaceFrom(at: nat, count: nat, bs: seq<byte>)
      requires Valid() && at + |bs| <= MAX_PACKET_LEN && count <= frameLen && frameLen - count + |bs| <= MAX_PACKET_LEN
      modifies this, frameData
      ensures Valid() && frameLen == old(frameLen) - count + |bs|
      ensures old(frameLen) - count == at ==> Contents() == old(Contents())[..at] + bs
    {
      Copy(bs, frameData, at);
      frameLen := frameLen - count + |bs|;
      assert frameData[..at + |bs|] == frameData[..at] + frameData[at..at + |bs|];
    }

    // What the constructors append after the addresses: control, protocol identifier, information.
    method AppendBody(ctrl: byte, pid: seq<byte>, info: seq<byte>)
      requires Valid() && frameLen + 1 + |pid| + |info| <= MAX_PACKET_LEN
      modifies this, frameData
      ensures Valid() && Contents() == old(Contents()) + ([ctrl] + pid + info)
    {
      Append([ctrl]);
      Append(pid);
      Append(info);
    }

    /** set_addrs: parse both addresses and write their fields. */
    method SetAddrs(dst: string, src: string, cr: CmdRes) returns (ok: bool, ghost a: Addr, ghost b: Addr)
      requires Valid() && frameLen == 0
      modifies this, frameData
      ensures Valid()
      ensures ok ==> Writes(dst, a) && Writes(src, b) && Contents() == Addresses(a, b, cr)
      ensures ok ==> |Contents()| == 14 && AddressesRead(Contents(), a, b, cr)
      ensures !ok ==> !Writable(dst, src)
    {
      hide AddrField, AddressesRead;
      var okD, d := ParseAddr(dst);
      a, b := d, d;
      if !okD {
        return false, a, b;
      }
      var f := FieldBytes(d, cr == Cmd, false);
      Append(f);
      var okS, s := ParseAddr(src);
      b := s;
      if !okS {
        return false, a, b;
      }
      f := FieldBytes(s, cr == Res, true);
      Append(f);
      AddressFigures(d, s, cr);
      ok := true;
    }
  }

  /** Both texts write addresses. */
  ghost predicate Writable(dst: string, src: string)
  {
    exists a, b :: Writes(dst, a) && Writes(src, b)
  }

  // Fill one address field in place.
  method FieldBytes(a: Addr, c: bool, last: bool) returns (f: seq<byte>)
    requires ValidAddr(a)
    ensures f == AddrField(a, c, last)
  {
    var pa := new byte[7](_ => 64);
    for j := 0 to |a.call|
      invariant forall k :: 0 <= k < j ==> pa[k] == 2 * (a.call[k] as int)
      invariant forall k :: j <= k < 7 ==> pa[k] == 64
    {
      pa[j] := 2 * (a.call[j] as int);
    }
    pa[6] := 0x60 + 2 * (a.ssid % 16);
    if c {
      pa[6] := pa[6] + 0x80;
    }
    if last {
      pa[6] := pa[6] + 1;
    }
    f := pa[..];
  }

  function FixPid(pid: int): byte
    requires pid < 256
  {
    if pid <= 0 || pid == PID_ESCAPE_CHARACTER then PID_NO_LAYER_3 else pid
  }

  function UContentOf(ftype: FrameType, pf: int, pid: int, info: seq<byte>): (ct: Content)
    requires ftype in U_TYPES && pid < 256 && |info| + 16 <= MAX_PACKET_LEN
    ensures ct.Valid()
  {
    UContent(ftype, pf != 0, if ftype == UI then FixPid(pid) else 0, if ftype in {FRMR, UI} then info else [])
  }

  /** ax25_u_frame */
  method UFrame(dst: string, src: string, cr: CmdRes, ftype: FrameType, pf: int, pid: int, info: seq<byte>)
    returns (pp: Packet?, ghost a: Addr, ghost b: Addr)
    requires pid < 256 && |info| + 16 <= MAX_PACKET_LEN
    ensures pp == null <==> ftype !in U_TYPES || !Writable(dst, src)
    ensures pp != null ==> fresh(pp) && fresh(pp.frameData) && pp.Valid() && Writes(dst, a) && Writes(src, b)
    ensures pp != null ==> pp.Contents() == FrameBytes(a, b, cr, UContentOf(ftype, pf, pid, info))
    ensures pp != null ==> AddressesRead(pp.Contents(), a, b, cr)
    ensures pp != null ==> BodyReads(pp.Contents(), ftype, if pf == 0 then 0 else 1, -1, -1,
                                     if pid <= 0 || pid == 0xff then 0xf0 else pid,
                                     if ftype in {FRMR, UI} then info else [])
  {
    hide Addresses, Writes, AddressesRead, BodyReads, Control;
    var p := new Packet();
    var ok;
    ok, a, b := p.SetAddrs(dst, src, cr);
    if !ok || ftype !in U_TYPES {
      return null, a, b;
    }
    var ctrl := UControl(ftype) as int;
    if pf != 0 {
      ctrl := ctrl + 0x10;
    }
    p.AppendBody(ctrl, if ftype == UI then [FixPid(pid)] else [], if ftype == FRMR || ftype == UI then info else []);
    WritesValid(dst, a);
    WritesValid(src, b);
    UFigures(a, b, cr, ftype, pf, pid, info);
    pp := p;
  }

  lemma UFigures(a: Addr, b: Addr, cr: CmdRes, ftype: FrameType, pf: int, pid: int, info: seq<byte>)
    requires ValidAddr(a) && ValidAddr(b) && ftype in U_TYPES && pid < 256 && |info| + 16 <= MAX_PACKET_LEN
    ensures var f := FrameBytes(a, b, cr, UContentOf(ftype, pf, pid, info));
      && f == Addresses(a, b, cr) + ([UControl(ftype) + if pf != 0 then 0x10 else 0]
          + (if ftype == UI then [FixPid(pid)] else []) + if ftype == FRMR || ftype == UI then info else [])
      && AddressesRead(f, a, b, cr)
      && BodyReads(f, ftype, if pf == 0 then 0 else 1, -1, -1, if pid <= 0 || pid == 0xff then 0xf0 else pid,
                   if ftype in {FRMR, UI} then info else [])
  {
    hide Addresses, AddressesRead, ControlReads;
    FrameFigures(a, b, cr, UContentOf(ftype, pf, pid, info));
  }

  function SContentOf(ftype: FrameType, nr: int, pf: int, info: seq<byte>): (ct: Content)
    requires ftype in S_TYPES && |info| + 16 <= MAX_PACKET_LEN
    ensures ct.Valid()
  {
    SContent(ftype, nr % 8, pf == 1, if ftype == SREJ then info else [])
  }

  /** ax25_s_frame */
  method SFrame(dst: string, src: string, cr: CmdRes, ftype: FrameType, nr: int, pf: int, info: seq<byte>)
    returns (pp: Packet?, ghost a: Addr, ghost b: Addr)
    requires |info| + 16 <= MAX_PACKET_LEN
    ensures pp == null <==> ftype !in S_TYPES || !Writable(dst, src)
    ensures pp != null ==> fresh(pp) && fresh(pp.frameData) && pp.Valid() && Writes(dst, a) && Writes(src, b)
    ensures pp != null ==> pp.Contents() == FrameBytes(a, b, cr, SContentOf(ftype, nr, pf, info))
    ensures pp != null ==> AddressesRead(pp.Contents(), a, b, cr)
    ensures pp != null ==> BodyReads(pp.Contents(), ftype, if pf == 1 then 1 else 0, nr % 8, -1, 0,
                                     if ftype == SREJ then info else [])
  {
    hide Addresses, Writes, AddressesRead, BodyReads, Control;
    var p := new Packet();
    var ok;
    ok, a, b := p.SetAddrs(dst, src, cr);
    if !ok || ftype !in S_TYPES {
      return null, a, b;
    }
    var n := if nr < 0 || nr >= 8 then nr % 8 else nr;
    var ctrl := SControl(ftype) as int;
    if pf == 1 {
      ctrl := ctrl + 0x10;
    }
    ctrl := ctrl + 32 * n;
    p.AppendBody(ctrl, [], if ftype == SREJ then info else []);
    WritesValid(dst, a);
    WritesValid(src, b);
    SFigures(a, b, cr, ftype, nr, pf, info);
    pp := p;
  }

  lemma SFigures(a: Addr, b: Addr, cr: CmdRes, ftype: FrameType, nr: int, pf: int, info: seq<byte>)
    requires ValidAddr(a) && ValidAddr(b) && ftype in S_TYPES && |info| + 16 <= MAX_PACKET_LEN
    ensures var f := FrameBytes(a, b, cr, SContentOf(ftype, nr, pf, info));
      && f == Addresses(a, b, cr) + ([SControl(ftype) + (if pf == 1 then 0x10 else 0) + 32 * (nr % 8)] + []
          + if ftype == SREJ then info else [])
      && AddressesRead(f, a, b, cr)
      && BodyReads(f, ftype, if pf == 1 then 1 else 0, nr % 8, -1, 0, if ftype == SREJ then info else [])
  {
    hide Addresses, AddressesRead, ControlReads;
    FrameFigures(a, b, cr, SContentOf(ftype, nr, pf, info));
  }

  function IContentOf(nr: int, ns: int, pf: int, pid: int, info: seq<byte>): (ct: Content)
    requires pid < 256 && |info| + 16 <= MAX_PACKET_LEN
    ensures ct.Valid()
  {
    IContent(nr % 8, ns % 8, pf != 0, FixPid(pid), info)
  }

  /** ax25_i_frame */
  method IFrame(dst: string, src: string, cr: CmdRes, nr: int, ns: int, pf: int, pid: int, info: seq<byte>)
    returns (pp: Packet?, ghost a: Addr, ghost b: Addr)
    requires pid < 256 && |info| + 16 <= MAX_PACKET_LEN
    ensures pp == null <==> !Writable(dst, src)
    ensures pp != null ==> fresh(pp) && fresh(pp.frameData) && pp.Valid() && Writes(dst, a) && Writes(src, b)
    ensures pp != null ==> pp.Contents() == FrameBytes(a, b, cr, IContentOf(nr, ns, pf, pid, info))
    ensures pp != null ==> AddressesRead(pp.Contents(), a, b, cr)
    ensures pp != null ==> BodyReads(pp.Contents(), I, if pf == 0 then 0 else 1, nr % 8, ns % 8,
                                     if pid <= 0 || pid == 0xff then 0xf0 else pid, info)
  {
    hide Addresses, Writes, AddressesRead, BodyReads, Control;
    var p := new Packet();
    var ok;
    ok, a, b := p.SetAddrs(dst, src, cr);
    if !ok {
      return null, a, b;
    }
    var r := if nr < 0 || nr >= 8 then nr % 8 else nr;
    var s := if ns < 0 || ns >= 8 then ns % 8 else ns;
    var ctrl := 32 * r + 2 * s;
    if pf != 0 {
      ctrl := ctrl + 0x10;
    }
    p.AppendBody(ctrl, [FixPid(pid)], info);
    WritesValid(dst, a);
    WritesValid(src, b);
    IFigures(a, b, cr, nr, ns, pf, pid, info);
    pp := p;
  }

  lemma IFigures(a: Addr, b: Addr, cr: CmdRes, nr: int, ns: int, pf: int, pid: int, info: seq<byte>)
    requires ValidAddr(a) && ValidAddr(b) && pid < 256 && |info| + 16 <= MAX_PACKET_LEN
    ensures var f := FrameBytes(a, b, cr, IContentOf(nr, ns, pf, pid, info));
      && f == Addresses(a, b, cr) + ([32 * (nr % 8) + 2 * (ns % 8) + if pf != 0 then 0x10 else 0]
          + [FixPid(pid)] + info)
      && AddressesRead(f, a, b, cr)
      && BodyReads(f, I, if pf == 0 then 0 else 1, nr % 8, ns % 8, if pid <= 0 || pid == 0xff then 0xf0 else pid, info)
  {
    hide Addresses, AddressesRead, ControlReads;
    FrameFigures(a, b, cr, IContentOf(nr, ns, pf, pid, info));
  }

  /** A frame in full: a SABM with P = 1 from B to A. */
  lemma KnownUFrame()
    ensures FrameBytes(Addr("A", 0), Addr("B", 0), Cmd, UContentOf(SABM, 1, 0, [])) == [
      0x82, 0x40, 0x40, 0x40, 0x40, 0x40, 0xe0, 0x84, 0x40, 0x40, 0x40, 0x40, 0x40, 0x61, 0x3f]
  {
  }

  /** An I frame from W1AW-12 to K9-3 with N(S) = 5 and N(R) = 3, a response, with the letters Hi. */
  lemma KnownIFrame()
    ensures FrameBytes(Addr("K9", 3), Addr("W1AW", 12), Res, IContentOf(3, 5, 0, 0, [0x48, 0x69])) == [
      0x96, 0x72, 0x40, 0x40, 0x40, 0x40, 0x66, 0xae, 0x62, 0x82, 0xae, 0x40, 0x40, 0xf9, 0x6a, 0xf0, 0x48, 0x69]
  {
  }

  /** Texts that write an address, and texts that write none: a lower-case letter, seven characters, a station
      number above 15, a star. */
  lemma KnownTexts(a: Addr)
    ensures Writes("W1AW-12", Addr("W1AW", 12)) && Writes("K9", Addr("K9", 0)) && Writes("K9-", Addr("K9", 0))
    ensures !Writes("k9", a) && !Writes("ABCDEFG", a) && !Writes("K9-16", a) && !Writes("K9*", a) && !Writes("", a)
  {
    hide Writes;
    WrittenTexts();
    UnwrittenTexts(a);
  }

  lemma WrittenTexts()
    ensures Writes("W1AW-12", Addr("W1AW", 12)) && Writes("K9", Addr("K9", 0)) && Writes("K9-", Addr("K9", 0))
  {
    assert "W1AW-12"[4..] == "-12" && "-12"[1..] == "12" && "K9"[2..] == "" && "K9-"[2..] == "-" && "-"[1..] == "";
  }

  lemma UnwrittenTexts(a: Addr)
    ensures !Writes("k9", a) && !Writes("ABCDEFG", a) && !Writes("K9-16", a) && !Writes("K9*", a) && !Writes("", a)
  {
    hide Writes, Number;
    NotWritten("k9", 0);
    NotWritten("ABCDEFG", 6);
    NotWritten("K9*", 2);
    assert "K9-16"[2 + 1..5] == "16";
    LargeNumber();
    BadRest("K9-16", 2, 5);
    Unwritten(a);
  }

  lemma LargeNumber()
    ensures Number("16") == 16
  {
  }

  lemma Unwritten(a: Addr)
    ensures !Writes("", a)
  {
  }

  /** What station numbers are written with, and which characters callsigns are made of. */
  lemma AddressCharacters(a: nat, b: nat, c: char)
    requires a < 10 && b < 10
    ensures var digits := "0123456789";
      && AllDigits([digits[a]]) && Number([]) == 0 && Number([digits[a]]) == a
      && AllDigits([digits[a], digits[b]]) && Number([digits[a], digits[b]]) == 10 * a + b
    ensures ValidCall([c]) <==> 48 <= c as int <= 57 || 65 <= c as int <= 90
  {
    var digits := "0123456789";
    assert digits[a] as int == '0' as int + a && digits[b] as int == '0' as int + b;
    assert [c][0] == c;
  }

  // ---------- reading a frame ----------

  /** A frame as received or built: its bytes hold these addresses and contents. */
  ghost predicate Holds(pp: Packet, dst: Addr, src: Addr, cr: CmdRes, ct: Content)
    reads pp, pp.frameData
  {
    pp.Valid() && ValidAddr(dst) && ValidAddr(src) && ct.Valid() && pp.Contents() == FrameBytes(dst, src, cr, ct)
  }

  // The fields of a control byte: two low bits, two kind bits or the rest of N(S), P/F, N(R).
  lemma HighDigits(k: nat, p: nat, n: nat)
    requires k < 16 && p < 2 && n < 8
    ensures (k + 16 * p + 32 * n) / 16 % 2 == p
    ensures (k + 16 * p + 32 * n) / 32 % 8 == n
  {
    assert (k + 16 * p + 32 * n) / 16 == p + 2 * n;
    assert (k + 16 * p + 32 * n) / 32 == n;
  }

  lemma LowDigits(a: nat, b: nat, e: nat, p: nat, n: nat)
    requires a < 4 && b < 2 && e < 2 && p < 2 && n < 8
    ensures (4 * a + 2 * b + e + 16 * p + 32 * n) % 2 == e
    ensures (4 * a + 2 * b + e + 16 * p + 32 * n) / 2 % 2 == b
  {
    assert (4 * a + 2 * b + e + 16 * p + 32 * n) / 2 == 2 * a + b + 8 * p + 16 * n;
  }

  lemma MiddleDigits(a: nat, e: nat, p: nat, n: nat)
    requires a < 4 && e < 4 && p < 2 && n < 8
    ensures (4 * a + e + 16 * p + 32 * n) / 4 % 4 == a
  {
    assert (4 * a + e + 16 * p + 32 * n) / 4 == a + 4 * p + 8 * n;
  }

  lemma SendDigits(s: nat, p: nat, n: nat)
    requires s < 8 && p < 2 && n < 8
    ensures (2 * s + 16 * p + 32 * n) / 2 % 8 == s && (2 * s + 16 * p + 32 * n) % 2 == 0
  {
    assert (2 * s + 16 * p + 32 * n) / 2 == s + 8 * p + 16 * n;
  }

  /** What the control byte decodes to. */
  ghost predicate Decodes(ct: Content, c: nat)
    requires ct.Valid()
  {
    && c / 16 % 2 == (if ct.pf then 1 else 0)
    && (ct.IContent? ==> c % 2 == 0 && c / 2 % 8 == ct.ns && c / 32 % 8 == ct.nr)
    && (ct.SContent? ==>
          && c % 2 == 1 && c / 2 % 2 == 0 && c / 32 % 8 == ct.nr && 4 * (c / 4 % 4) + 1 == SControl(ct.ftype))
    && (ct.UContent? ==> c % 2 == 1 && c / 2 % 2 == 1 && c - 16 * (c / 16 % 2) == UControl(ct.ftype))
  }

  lemma ControlDecodes(ct: Content)
    requires ct.Valid()
    ensures Decodes(ct, Control(ct))
  {
    match ct
    case IContent(nr, ns, pf, _, _) =>
      var p := if pf then 1 else 0;
      SendDigits(ns, p, nr);
      HighDigits(2 * ns, p, nr);
    case SContent(ftype, nr, pf, _) =>
      var p, k := if pf then 1 else 0, SKind(ftype);
      LowDigits(k, 0, 1, p, nr);
      MiddleDigits(k, 1, p, nr);
      HighDigits(4 * k + 1, p, nr);
    case UContent(ftype, pf, _, _) =>
      var p := if pf then 1 else 0;
      var (a, n) := UParts(ftype);
      LowDigits(a, 1, 1, p, n);
      HighDigits(4 * a + 3, p, n);
  }

  function SKind(ftype: FrameType): (k: nat)
    requires ftype in S_TYPES
    ensures k < 4 && SControl(ftype) == 4 * k + 1
  {
    match ftype
    case RR => 0
    case RNR => 1
    case REJ => 2
    case _ => 3
  }

  function UParts(ftype: FrameType): (r: (nat, nat))
    requires ftype in U_TYPES
    ensures r.0 < 4 && r.1 < 8 && UControl(ftype) == 4 * r.0 + 3 + 32 * r.1
  {
    match ftype
    case SABM => (3, 1)
    case DISC => (0, 2)
    case DM => (3, 0)
    case UA => (0, 3)
    case FRMR => (1, 4)
    case _ => (0, 0)
  }

  // The bytes of a built frame that the readers look at.
  lemma HoldsAt(pp: Packet, dst: Addr, src: Addr, cr: CmdRes, ct: Content)
    requires Holds(pp, dst, src, cr, ct)
    ensures pp.frameLen == 14 + |Body(ct)| && |Body(ct)| > 0
    ensures pp.frameData[0] != 0 && pp.frameData[1] != 0
    ensures pp.frameData[14] == Control(ct)
    ensures forall i :: 0 <= i < 14 ==> pp.frameData[i] == Addresses(dst, src, cr)[i]
    ensures forall i :: 0 <= i < |Body(ct)| ==> pp.frameData[14 + i] == Body(ct)[i]
  {
    hide Control;
    var b := FrameBytes(dst, src, cr, ct);
    assert |b| == pp.frameLen;
    assert forall i :: 0 <= i < |b| ==> pp.frameData[i] == b[i];
    FieldNonzero(dst, cr == Cmd);
  }

  lemma FieldNonzero(a: Addr, c: bool)
    requires ValidAddr(a)
    ensures AddrField(a, c, false)[0] != 0 && AddrField(a, c, false)[1] != 0
  {
  }

  /** Which frame a control byte belongs to, and its fields, for any byte: put together again they give the
      byte back, and an unnumbered frame of another kind is none of those known. */
  ghost predicate ControlReads(c: byte, ft: FrameType, pf: int, nr: int, ns: int)
  {
    && 0 <= pf < 2
    && match ft
       case I => 0 <= nr < 8 && 0 <= ns < 8 && c as int == 2 * ns + 16 * pf + 32 * nr
       case RR => 0 <= nr < 8 && ns == -1 && c as int == 0x01 + 16 * pf + 32 * nr
       case RNR => 0 <= nr < 8 && ns == -1 && c as int == 0x05 + 16 * pf + 32 * nr
       case REJ => 0 <= nr < 8 && ns == -1 && c as int == 0x09 + 16 * pf + 32 * nr
       case SREJ => 0 <= nr < 8 && ns == -1 && c as int == 0x0d + 16 * pf + 32 * nr
       case SABM => nr == ns == -1 && c as int == 0x2f + 16 * pf
       case DISC => nr == ns == -1 && c as int == 0x43 + 16 * pf
       case DM => nr == ns == -1 && c as int == 0x0f + 16 * pf
       case UA => nr == ns == -1 && c as int == 0x63 + 16 * pf
       case FRMR => nr == ns == -1 && c as int == 0x87 + 16 * pf
       case UI => nr == ns == -1 && c as int == 0x03 + 16 * pf
       case OtherU => nr == ns == -1 && c % 4 == 3 && c / 16 % 2 == pf
           && c as int - 16 * pf !in {0x2f, 0x43, 0x0f, 0x63, 0x87, 0x03}
       case _ => false
  }

  /** ax25_frame_type. Command or response is read from bytes 0 and 1, which are callsign
      characters: for every built frame the answer is that both C bits are set. */
  method GetFrameType(pp: Packet, ghost dst: Addr, ghost src: Addr, ghost c0: CmdRes, ghost ct: Content)
    returns (ft: FrameType, cr: CmdRes, pf: int, nr: int, ns: int)
    requires pp.Valid()
    ensures if pp.frameLen == 0 then ft == NotAX25 && pf == nr == ns == -1
            else ControlReads(pp.frameData[14], ft, pf, nr, ns)
    ensures ft in S_TYPES || ft == I ==> 0 <= nr < 8
    ensures ft == I ==> 0 <= ns < 8
    ensures ft != NotAX25 ==> 0 <= pf < 2
    ensures cr == if pp.frameLen == 0 || (pp.frameData[0] != 0 && pp.frameData[1] != 0) then Cr11
                  else if pp.frameData[0] != 0 then Cmd else if pp.frameData[1] != 0 then Res else Cr00
    ensures Holds(pp, dst, src, c0, ct) ==>
              && cr == Cr11 && pf == (if ct.pf then 1 else 0)
              && (ct.UContent? ==> ft == ct.ftype)
              && (ct.SContent? ==> ft == ct.ftype && nr == ct.nr)
              && (ct.IContent? ==> ft == I && nr == ct.nr && ns == ct.ns)
  {
    hide Control, FrameBytes, Decodes, ControlReads;
    cr, pf, nr, ns, ft := Cr11, -1, -1, -1, NotAX25;
    if Holds(pp, dst, src, c0, ct) {
      HoldsAt(pp, dst, src, c0, ct);
      ControlDecodes(ct);
    }
    if pp.frameLen == 0 {
      return;
    }
    var c := pp.frameData[14];
    if pp.frameData[0] != 0 {
      cr := if pp.frameData[1] != 0 then Cr11 else Cmd;
    } else {
      cr := if pp.frameData[1] != 0 then Res else Cr00;
    }
    ft, pf, nr, ns := ReadControl(c, Holds(pp, dst, src, c0, ct), ct);
  }

  lemma Digits(c: byte)
    ensures c as int == c % 2 + 2 * (c / 2 % 8) + 16 * (c / 16 % 2) + 32 * (c / 32 % 8)
    ensures c % 4 == c % 2 + 2 * (c / 2 % 2) && c / 2 % 8 == c / 2 % 2 + 2 * (c / 4 % 4)
  {
    var a, d := c as int / 2, c as int / 16;
    assert c as int == 2 * a + c as int % 2;
    Halved(c);
    EightFold(a, d);
    assert d == 2 * (c as int / 32) + d % 2 by {
      assert c as int / 32 == d / 2;
    }
    FourFold(a);
  }

  lemma Halved(c: nat)
    ensures c / 4 == c / 2 / 2 && c / 16 == c / 2 / 8 && c % 4 == c % 2 + 2 * (c / 2 % 2)
  {
  }

  lemma EightFold(a: nat, d: nat)
    requires d == a / 8
    ensures a == 8 * d + a % 8
  {
  }

  lemma FourFold(a: nat)
    ensures a % 8 == a % 2 + 2 * (a / 2 % 4)
  {
  }

  // The fields of the control byte.
  method ReadControl(c: byte, ghost known: bool, ghost ct: Content) returns (ft: FrameType, pf: int, nr: int, ns: int)
    requires known ==> ct.Valid() && Decodes(ct, c)
    ensures ft != NotAX25 && 0 <= pf < 2 && ControlReads(c, ft, pf, nr, ns)
    ensures ft in S_TYPES || ft == I ==> 0 <= nr < 8
    ensures ft == I ==> 0 <= ns < 8
    ensures known ==>
              && pf == (if ct.pf then 1 else 0)
              && (ct.UContent? ==> ft == ct.ftype)
              && (ct.SContent? ==> ft == ct.ftype && nr == ct.nr)
              && (ct.IContent? ==> ft == I && nr == ct.nr && ns == ct.ns)
  {
    hide Control;
    nr, ns := -1, -1;
    Digits(c);
    pf := c / 16 % 2;
    if c % 2 == 0 {
      ns := c / 2 % 8;
      nr := c / 32 % 8;
      ft := I;
    } else if c / 2 % 2 == 0 {
      nr := c / 32 % 8;
      var k := c / 4 % 4;
      ft := if k == 0 then RR else if k == 1 then RNR else if k == 2 then REJ else SREJ;
    } else {
      var u := c - 16 * (c / 16 % 2);
      ft := if u == 0x2f then SABM else if u == 0x43 then DISC else if u == 0x0f then DM
            else if u == 0x63 then UA else if u == 0x87 then FRMR else if u == 0x03 then UI else OtherU;
    }
  }

  // x / 2 of a character shifted left, with or without the bits around a station number.
  lemma SsidDigits(ssid: nat, c: bool, last: bool)
    requires ssid <= 15
    ensures (96 + 2 * ssid + (if c then 128 else 0) + if last then 1 else 0) / 2 % 16 == ssid
  {
    assert (96 + 2 * ssid + (if c then 128 else 0) + if last then 1 else 0) / 2 == 48 + ssid + if c then 64 else 0;
  }

  /** ax25_get_ssid of the destination (n = 0) or the source (n = 1). */
  method GetSsid(pp: Packet, n: nat, ghost dst: Addr, ghost src: Addr, ghost c0: CmdRes, ghost ct: Content)
    returns (ssid: nat)
    requires pp.Valid() && n < 2
    ensures ssid <= 15
    ensures Holds(pp, dst, src, c0, ct) ==> ssid == (if n == 0 then dst else src).ssid
  {
    hide Control, FrameBytes, AddrField;
    if Holds(pp, dst, src, c0, ct) {
      HoldsAt(pp, dst, src, c0, ct);
      SsidDigits(dst.ssid, c0 == Cmd, false);
      SsidDigits(src.ssid, c0 == Res, true);
      FieldBytesAt(dst, c0 == Cmd, false);
      FieldBytesAt(src, c0 == Res, true);
    }
    ssid := pp.frameData[n * 7 + 6] / 2 % 16;
  }

  lemma FieldBytesAt(a: Addr, c: bool, last: bool)
    requires ValidAddr(a)
    ensures forall i :: 0 <= i < 6 ==> AddrField(a, c, last)[i] == if i < |a.call| then 2 * (a.call[i] as int) else 64
    ensures AddrField(a, c, last)[6] == 96 + 2 * a.ssid + (if c then 128 else 0) + if last then 1 else 0
  {
  }

  /** ax25_get_addr_no_ssid: the six characters of an address, without the trailing blanks. */
  method GetAddrNoSsid(pp: Packet, n: nat, ghost dst: Addr, ghost src: Addr, ghost c0: CmdRes, ghost ct: Content)
    returns (station: seq<nat>)
    requires pp.Valid() && n < 2
    ensures |station| <= 6 && forall i :: 0 <= i < |station| ==> station[i] < 128
    ensures Holds(pp, dst, src, c0, ct) ==> IsCall(station, (if n == 0 then dst else src).call)
  {
    hide Control, FrameBytes, AddrField;
    ghost var holds := Holds(pp, dst, src, c0, ct);
    ghost var call := (if n == 0 then dst else src).call;
    if holds {
      HoldsAt(pp, dst, src, c0, ct);
      FieldBytesAt(dst, c0 == Cmd, false);
      FieldBytesAt(src, c0 == Res, true);
    }
    station := [];
    for i := 0 to 6
      invariant |station| == i && forall k :: 0 <= k < i ==> station[k] < 128
      invariant holds ==> forall k :: 0 <= k < i ==> station[k] == if k < |call| then call[k] as int else 32
    {
      station := station + [pp.frameData[n * 7 + i] / 2 % 128];
    }
    var i := 5;
    while i >= 0 && station[i] == 32
      invariant -1 <= i <= 5 && |station| == i + 1
      invariant forall k :: 0 <= k <= i ==> station[k] < 128
      invariant holds ==> i + 1 >= |call|
      invariant holds ==> forall k :: 0 <= k <= i ==> station[k] == if k < |call| then call[k] as int else 32
    {
      station := station[..i];
      i := i - 1;
    }
  }

  /** The character codes of a callsign. */
  ghost predicate IsCall(station: seq<nat>, call: string)
  {
    |station| == |call| && forall i :: 0 <= i < |call| ==> station[i] == call[i] as int
  }

  /** ax25_get_num_pid */
  method GetNumPid(pp: Packet, ghost dst: Addr, ghost src: Addr, ghost c0: CmdRes, ghost ct: Content) returns (n: nat)
    requires pp.Valid()
    ensures n <= 2
    ensures Holds(pp, dst, src, c0, ct) ==> n == if ct.HasPid() then 1 else 0
  {
    hide Control, FrameBytes, Addresses;
    if Holds(pp, dst, src, c0, ct) {
      HoldsAt(pp, dst, src, c0, ct);
      ControlDecodes(ct);
      PidControl(ct);
      assert ct.HasPid() ==> Body(ct)[1] == ct.pid && pp.frameData[14 + 1] == Body(ct)[1];
    }
    var c := pp.frameData[14];
    if c % 2 == 0 || c == 0x03 || c == 0x13 {
      return if pp.frameData[15] == PID_ESCAPE_CHARACTER then 2 else 1;
    }
    return 0;
  }

  lemma PidControl(ct: Content)
    requires ct.Valid()
    ensures ct.HasPid() <==> (ct.IContent? || Control(ct) == 0x03 || Control(ct) == 0x13)
    ensures ct.IContent? <==> Control(ct) % 2 == 0
  {
    ControlDecodes(ct);
  }

  /** ax25_get_info: the information field. */
  method GetInfo(pp: Packet, ghost dst: Addr, ghost src: Addr, ghost c0: CmdRes, ghost ct: Content)
    returns (info: seq<byte>)
    requires pp.Valid()
    ensures |info| <= pp.frameLen <= |info| + 17
    ensures Holds(pp, dst, src, c0, ct) ==> info == ct.info
  {
    hide Control, FrameBytes, Addresses;
    if Holds(pp, dst, src, c0, ct) {
      HoldsAt(pp, dst, src, c0, ct);
    }
    var n := GetNumPid(pp, dst, src, c0, ct);
    var len := pp.frameLen - 15 - n;
    if len < 0 {
      len := 0;
    }
    info := if 15 + n + len <= pp.frameLen then pp.frameData[15 + n..15 + n + len] else [];
    if Holds(pp, dst, src, c0, ct) {
      assert forall i :: 0 <= i < len ==> info[i] == pp.frameData[14 + (1 + n + i)] == Body(ct)[1 + n + i];
    }
  }

  /** ax25_get_pid */
  method GetPid(pp: Packet, ghost dst: Addr, ghost src: Addr, ghost c0: CmdRes, ghost ct: Content) returns (pid: int)
    requires pp.Valid()
    ensures -1 <= pid < 256
    ensures Holds(pp, dst, src, c0, ct) && ct.HasPid() ==> pid == ct.pid
  {
    hide Control, FrameBytes, Addresses;
    if Holds(pp, dst, src, c0, ct) && ct.HasPid() {
      HoldsAt(pp, dst, src, c0, ct);
      assert pp.frameData[14 + 1] == Body(ct)[1];
    }
    if pp.frameLen == 0 {
      return -1;
    }
    pid := pp.frameData[15];
  }

  /** The same contents with another information field. */
  function WithInfo(ct: Content, info: seq<byte>): (r: Content)
  {
    ct.(info := info)
  }

  lemma CutInfo(dst: Addr, src: Addr, cr: CmdRes, ct: Content, n: nat)
    requires ValidAddr(dst) && ValidAddr(src) && ct.Valid() && WithInfo(ct, []).Valid()
    requires n == |FrameBytes(dst, src, cr, ct)| - |ct.info|
    ensures FrameBytes(dst, src, cr, ct)[..n] == FrameBytes(dst, src, cr, WithInfo(ct, []))
  {
    hide Addresses, Control;
    assert Control(ct) == Control(WithInfo(ct, [])) by {
      ControlSame(ct, []);
    }
  }

  lemma ControlSame(ct: Content, info: seq<byte>)
    requires ct.Valid() && WithInfo(ct, info).Valid()
    ensures Control(ct) == Control(WithInfo(ct, info))
  {
  }

  lemma AddInfo(dst: Addr, src: Addr, cr: CmdRes, ct: Content, info: seq<byte>)
    requires ValidAddr(dst) && ValidAddr(src) && WithInfo(ct, []).Valid() && WithInfo(ct, info).Valid()
    ensures FrameBytes(dst, src, cr, WithInfo(ct, [])) + info == FrameBytes(dst, src, cr, WithInfo(ct, info))
  {
    hide Addresses, Control;
    ControlSame(WithInfo(ct, []), info);
  }

  /** ax25_set_info: replace the information field; the buffer has room for what is put in. */
  method SetInfo(pp: Packet, info: seq<byte>, ghost dst: Addr, ghost src: Addr, ghost c0: CmdRes, ghost ct: Content)
    requires pp.Valid() && |info| + 17 <= MAX_PACKET_LEN
    modifies pp, pp.frameData
    ensures pp.Valid()
    ensures old(Holds(pp, dst, src, c0, ct)) && (ct.HasInfo() || info == []) ==>
        Holds(pp, dst, src, c0, WithInfo(ct, info))
    ensures old(Holds(pp, dst, src, c0, ct)) && ct.info == [] ==> pp.Contents() == old(pp.Contents()) + info
  {
    hide Control, FrameBytes;
    ghost var holds := Holds(pp, dst, src, c0, ct) && (ct.HasInfo() || info == []);
    ghost var before := pp.Contents();
    var n := GetNumPid(pp, dst, src, c0, ct);
    var oldInfo := GetInfo(pp, dst, src, c0, ct);
    if Holds(pp, dst, src, c0, ct) {
      InfoEnds(pp, dst, src, c0, ct);
      assert ct.info == [] ==> before[..15 + n] == before;
    }
    if holds {
      ReplaceInfo(dst, src, c0, ct, info);
    }
    pp.ReplaceFrom(15 + n, |oldInfo|, info);
  }

  lemma InfoEnds(pp: Packet, dst: Addr, src: Addr, cr: CmdRes, ct: Content)
    requires Holds(pp, dst, src, cr, ct)
    ensures pp.frameLen - |ct.info| == 15 + if ct.HasPid() then 1 else 0
  {
    hide Control, Addresses;
  }

  lemma ReplaceInfo(dst: Addr, src: Addr, cr: CmdRes, ct: Content, info: seq<byte>)
    requires ValidAddr(dst) && ValidAddr(src) && ct.Valid() && (ct.HasInfo() || info == [])
        && |info| + 16 <= MAX_PACKET_LEN
    ensures WithInfo(ct, []).Valid() && WithInfo(ct, info).Valid()
    ensures |FrameBytes(dst, src, cr, ct)| >= |ct.info|
    ensures FrameBytes(dst, src, cr, ct)[..|FrameBytes(dst, src, cr, ct)| - |ct.info|]
        + info == FrameBytes(dst, src, cr, WithInfo(ct, info))
  {
    hide Addresses, Control;
    CutInfo(dst, src, cr, ct, |FrameBytes(dst, src, cr, ct)| - |ct.info|);
    AddInfo(dst, src, cr, ct, info);
  }
}
