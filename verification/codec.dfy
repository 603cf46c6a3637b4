/** A whole frame through every layer: header, scrambler, parity and payload blocks, and back. */
module Codec {
  import opened Gf256
  import opened RsTables
  import opened RsEncode
  import opened RsErrors
  import opened RsOutcome
  import opened RsCases
  import opened RsDecode
  import opened Scramble
  import opened Buffers
  import opened Payload
  import opened HeaderBits
  import opened Ax25Pad
  import opened Header

  const HEADER_PARITY := 2
  const CODED_HEADER := 15

  /** The header of a frame as it leaves: scrambled, with two parity symbols. */
  ghost function CodedHeader(dst: Addr, src: Addr, ct: Content): (r: seq<byte>)
    requires ValidAddr(dst) && ValidAddr(src) && Encodable(ct)
    ensures |r| == CODED_HEADER
  {
    Encoded(ScrambledBytes(HeaderBytes(dst, src, ct)), HEADER_PARITY)
  }

  ghost function CodedInfo(info: seq<byte>): (r: seq<byte>)
    requires |info| <= MAX_PAYLOAD_SIZE
    ensures |r| == CodedLength(|info|) <= MAX_ENCODED_PAYLOAD_SIZE
  {
    if info == [] then [] else
      PartitionSizes(Layout(|info|), |info|); EncodedBlocks(info, Sizes(Layout(|info|)))
  }

  ghost function CodedLength(size: nat): nat
    requires size <= MAX_PAYLOAD_SIZE
  {
    if size == 0 then 0 else size + 16 * Layout(size).blockCount
  }

  /** Everything that is sent for a frame. */
  ghost function OnAir(dst: Addr, src: Addr, ct: Content): (r: seq<byte>)
    requires ValidAddr(dst) && ValidAddr(src) && Encodable(ct)
  {
    CodedHeader(dst, src, ct) + CodedInfo(ct.info)
  }

  /** il2p_encode_frame: the number of bytes to send, or -1 for a frame without a translation. */
  method Il2pEncodeFrame(tab: seq<Rs>, pp: Packet, iout: array<byte>, ghost dst: Addr, ghost src: Addr,
                         ghost cr: CmdRes, ghost ct: Content)
    returns (n: int)
    requires ValidTab(tab) && pp.Valid() && iout != pp.frameData
        && iout.Length >= CODED_HEADER + MAX_ENCODED_PAYLOAD_SIZE
    modifies iout
    ensures -1 <= n <= iout.Length
    ensures Holds(pp, dst, src, cr, ct) && Encodable(ct) ==> n >= 0 && iout[..n] == OnAir(dst, src, ct)
    ensures Holds(pp, dst, src, cr, ct) && !Encodable(ct) ==> n == -1
  {
    hide ValidTab, Holds, IsHeader, HeaderBytes, ScrambledBytes, Encoded, Encodable, CodedInfo, CodedHeader, OnAir;
    var hdr := new byte[CODED_HEADER](_ => 0);
    var e := Il2pType1Header(pp, hdr, dst, src, cr, ct);
    if e < 0 {
      return -1;
    }
    ghost var good := Holds(pp, dst, src, cr, ct) && Encodable(ct);
    EncodeHeader(tab, hdr[..HEADER_SIZE], iout);
    if good {
      HeaderSent(hdr[..HEADER_SIZE], dst, src, ct);
    }
    n := CODED_HEADER;
    if e == 0 {
      return;
    }
    var info := GetInfo(pp, dst, src, cr, ct);
    var k := EncodeInfo(tab, info, iout);
    n := if k > 0 then n + k else -1;
  }

  // What has been sent once the header is.
  lemma HeaderSent(hdr: seq<byte>, dst: Addr, src: Addr, ct: Content)
    requires IsHeader(hdr, dst, src, ct)
    ensures ValidAddr(dst) && ValidAddr(src) && Encodable(ct) && |ct.info| <= MAX_PAYLOAD_SIZE
    ensures Encoded(ScrambledBytes(hdr), HEADER_PARITY) == CodedHeader(dst, src, ct)
    ensures OnAir(dst, src, ct) == CodedHeader(dst, src, ct) + CodedInfo(ct.info)
    ensures ct.info == [] ==> OnAir(dst, src, ct) == CodedHeader(dst, src, ct)
  {
    hide IsHeader, HeaderBytes, ScrambledBytes, Encoded, CodedInfo;
    HeaderReads(hdr, dst, src, ct);
    HeaderIsBytes(hdr, dst, src, ct);
    NoInfo();
  }

  lemma NoInfo()
    ensures CodedInfo([]) == []
  {
  }

  // Encode the payload behind the header.
  method EncodeInfo(tab: seq<Rs>, info: seq<byte>, iout: array<byte>) returns (k: int)
    requires ValidTab(tab) && iout.Length >= CODED_HEADER + MAX_ENCODED_PAYLOAD_SIZE
    modifies iout
    ensures k <= MAX_ENCODED_PAYLOAD_SIZE
    ensures 1 <= |info| <= MAX_PAYLOAD_SIZE ==>
        k > 0 && iout[..CODED_HEADER + k] == old(iout[..CODED_HEADER]) + CodedInfo(info)
  {
    hide ValidTab, EncodedBlocks, Partition;
    var enc := new byte[MAX_ENCODED_PAYLOAD_SIZE](_ => 0);
    ghost var p;
    k, p := Il2pEncodePayload(tab, info, enc);
    if k > 0 {
      ghost var coded := iout[..CODED_HEADER];
      Copy(enc[..k], iout, CODED_HEADER);
      assert iout[..CODED_HEADER + k] == coded + enc[..k];
      PartitionUnique(p, Layout(|info|), |info|);
    }
  }

  // Scramble the header into place and put its parity behind it.
  method EncodeHeader(tab: seq<Rs>, hdr: seq<byte>, iout: array<byte>)
    requires ValidTab(tab) && |hdr| == HEADER_SIZE && iout.Length >= CODED_HEADER
    modifies iout
    ensures iout[..CODED_HEADER] == Encoded(ScrambledBytes(hdr), HEADER_PARITY)
  {
    hide ValidTab, ScrambledBytes, Parity;
    Il2pScrambleBlock(hdr, iout, HEADER_SIZE);
    assert hdr[..HEADER_SIZE] == hdr;
    var parity := Il2pEncodeRs(tab, iout[..HEADER_SIZE], HEADER_PARITY);
    Copy(parity, iout, HEADER_SIZE);
    assert iout[..CODED_HEADER] == iout[..HEADER_SIZE] + iout[HEADER_SIZE..CODED_HEADER];
  }

  /** Everything on the air, by the size of the payload alone: block i of the information is its part, scrambled,
      with sixteen symbols that make it a codeword behind zeros. */
  lemma InfoFigures(info: seq<byte>, i: nat)
    requires 1 <= |info| <= MAX_PAYLOAD_SIZE && i < (|info| + 238) / 239
    ensures var from, size := BlockStart(|info|, i), BlockLength(|info|, i);
      from + size <= |info| && HoldsBlock(CodedInfo(info), from + 16 * i, info[from..from + size])
  {
    hide HoldsBlock, EncodedBlocks, Layout, Sizes, BlockStart, BlockLength, CodedInfo, Total, Fits;
    CodedInfoIs(info);
    SizesFigures(|info|, i);
    EncodedBlock(info, Sizes(Layout(|info|)), i);
  }

  /** And the header in front is the header of the frame, scrambled, with two. */
  lemma AirFigures(dst: Addr, src: Addr, ct: Content)
    requires ValidAddr(dst) && ValidAddr(src) && Encodable(ct)
    ensures var air, hdr := OnAir(dst, src, ct), HeaderBytes(dst, src, ct);
      && |air| >= 15 && air[..13] == ScrambledBytes(hdr) && IsHeader(hdr, dst, src, ct)
      && IsCodeword(Zeros(240) + air[..15], 2) && air[15..] == CodedInfo(ct.info)
  {
    hide IsHeader, HeaderBytes, ScrambledBytes, CodedInfo, IsCodeword, Parity;
    var s := ScrambledBytes(HeaderBytes(dst, src, ct));
    EncodedIsCodeword(s, HEADER_PARITY);
    assert OnAir(dst, src, ct)[..15] == Encoded(s, HEADER_PARITY);
    assert OnAir(dst, src, ct)[..13] == Encoded(s, HEADER_PARITY)[..13] == s;
  }

  // ---------- decoding ----------

  /** The start of what was received is the frame with at most one wrong byte in the coded header
      and at most eight in each payload block. */
  ghost predicate Receivable(rec: seq<byte>, dst: Addr, src: Addr, ct: Content)
  {
    && ValidAddr(dst) && ValidAddr(src) && Encodable(ct)
    && |rec| >= CODED_HEADER + MAX_ENCODED_PAYLOAD_SIZE
    && WithinReach(ScrambledBytes(HeaderBytes(dst, src, ct)), rec[..CODED_HEADER], HEADER_PARITY)
    && (ct.info != [] ==> Decodable(ct.info, rec[CODED_HEADER..CODED_HEADER + CodedLength(|ct.info|)],
        Layout(|ct.info|)))
  }

  /** The number of wrong bytes in all. */
  ghost function WrongBytes(rec: seq<byte>, dst: Addr, src: Addr, ct: Content): nat
    requires Receivable(rec, dst, src, ct)
  {
    Distance(CodedHeader(dst, src, ct), rec[..CODED_HEADER]) +
    if ct.info == [] then 0
    else SymbolErrors(ct.info, rec[CODED_HEADER..CODED_HEADER + CodedLength(|ct.info|)], Layout(|ct.info|))
  }

  /** What is made of the coded header of whatever was received, still scrambled. */
  ghost function ClearedHeader(rec: seq<byte>): (c: Clear)
    requires |rec| >= CODED_HEADER
    ensures |c.data| == HEADER_SIZE
  {
    Clearing(rec[..CODED_HEADER], HEADER_SIZE, HEADER_PARITY)
  }

  /** The two syndromes of a coded header, behind zeros. */
  ghost function HeaderSyndromes(rec: seq<byte>): (s: seq<byte>)
    requires |rec| >= CODED_HEADER
    ensures |s| == 2
  {
    SyndromesOf(Zeros(BLOCK_SIZE - CODED_HEADER) + rec[..CODED_HEADER], 2)
  }

  /** The decoder of the header never ends exactly when the first syndrome is not zero and the second is;
      it fails when only the first is zero, or when the one wrong symbol that both point to lies in the
      zeros in front; it reports no error when both are zero, and one otherwise. */
  lemma HeaderVerdict(rec: seq<byte>)
    requires |rec| >= CODED_HEADER
    ensures var s := HeaderSyndromes(rec);
      ClearedHeader(rec).v == if s[0] == 0 && s[1] == 0 then Returns(0)
        else if s[0] == 0 then Returns(-1)
        else if s[1] == 0 then Loops
        else if PlaceOf(s[0], s[1]) < BLOCK_SIZE - CODED_HEADER then Returns(-1) else Returns(1)
  {
    hide RsOutcome.Decoding, PlaceOf, SyndromesOf, VerdictOf;
    var w, pad := Zeros(BLOCK_SIZE - CODED_HEADER) + rec[..CODED_HEADER], BLOCK_SIZE - CODED_HEADER;
    TwoParitySymbols(w);
    var s := HeaderSyndromes(rec);
    OnePlace(if s[0] != 0 && s[1] != 0 then PlaceOf(s[0], s[1]) else 0, pad);
  }

  lemma OnePlace(l: nat, pad: nat)
    ensures VerdictOf(Corrected(1, [l]), pad) == Returns(if l < pad then -1 else 1)
    ensures VerdictOf(Corrected(0, []), pad) == Returns(0)
    ensures VerdictOf(Failed, pad) == Returns(-1) && VerdictOf(NoEnd, pad) == Loops
  {
    assert [l][0] == l;
  }

  /** On a header of zeros with the parity symbols 1, 2 it never ends. */
  lemma HangingHeader(rec: seq<byte>)
    requires |rec| >= CODED_HEADER && rec[..CODED_HEADER] == Zeros(HEADER_SIZE) + [1, 2]
    ensures ClearedHeader(rec).v == Loops
  {
    hide RsOutcome.Decoding;
    HangingBlock();
    assert Zeros(BLOCK_SIZE - CODED_HEADER) + (Zeros(HEADER_SIZE) + [1, 2]) == Zeros(253) + [1, 2];
  }

  /** il2p_clarify_header: correct and descramble the header. */
  method Il2pClarifyHeader(tab: seq<Rs>, recHdr: seq<byte>, ghost hdr: seq<byte>) returns (uhdr: seq<byte>, v: Verdict)
    requires ValidTab(tab) && |recHdr| == CODED_HEADER && |hdr| == HEADER_SIZE
    ensures |uhdr| == HEADER_SIZE
    ensures v == ClearedHeader(recHdr).v && uhdr == DescrambledBytes(ClearedHeader(recHdr).data)
    ensures WithinReach(ScrambledBytes(hdr), recHdr, HEADER_PARITY) ==>
              uhdr == hdr && v == Returns(Distance(Encoded(ScrambledBytes(hdr), HEADER_PARITY), recHdr))
  {
    hide ValidTab, ScrambledBytes, DescrambledBytes, WithinReach, Distance, Encoded, Clearing;
    var corrected;
    corrected, v := Il2pDecodeRs(tab, recHdr, HEADER_SIZE, HEADER_PARITY, ScrambledBytes(hdr));
    var plain := new byte[HEADER_SIZE](_ => 0);
    Il2pDescrambleBlock(corrected, plain, HEADER_SIZE);
    assert corrected[..HEADER_SIZE] == corrected && plain[..] == plain[..HEADER_SIZE];
    RoundTrip(hdr);
    uhdr := plain[..];
    assert recHdr[..CODED_HEADER] == recHdr;
  }

  /** What the payload behind a header is unpacked to, for the length that the header gives. */
  ghost function Behind(uhdr: seq<byte>, epayload: seq<byte>): (u: Unpacked)
    requires |uhdr| == HEADER_SIZE && |epayload| >= MAX_ENCODED_PAYLOAD_SIZE
  {
    var n := HeaderLength(uhdr);
    if n == 0 then Unpacked(false, 0, [])
    else
      PartitionSizes(Layout(n), n);
      CodedFits(n);
      Unpacking(epayload[..CodedLength(n)], Sizes(Layout(n)))
  }

  /** What a clear header and the payload behind it come to, whatever was received: nothing when the
      addresses spell no callsigns or a block could not be corrected, and otherwise the frame that the
      fields of the header describe, followed by the data. */
  ghost predicate ReadsAs(uhdr: seq<byte>, epayload: seq<byte>, symbols0: int, loops: bool, got: bool, bytes: seq<byte>,
                          symbols: int)
    requires |uhdr| == HEADER_SIZE && |epayload| >= MAX_ENCODED_PAYLOAD_SIZE
  {
    if !NamesSpelled(uhdr) then !loops && !got && symbols == symbols0
    else match Behind(uhdr, epayload)
      case Hung => loops && !got
      case Unpacked(failed, k, data) =>
        && !loops && symbols == symbols0 + k && (got <==> !failed)
        && (got ==> exists d, s :: Named(uhdr, d, s) && bytes == HeaderFrame(uhdr, d, s) + data)
  }

  /** The frame that the fields of a header describe, without its information. */
  ghost function HeaderFrame(uhdr: seq<byte>, d: Addr, s: Addr): seq<byte>
    requires |uhdr| == HEADER_SIZE && Named(uhdr, d, s)
  {
    FrameBytes(d, s, HeaderCr(uhdr), HeaderContent(uhdr))
  }

  /** il2p_decode_header_payload: the frame of a clear header and its payload blocks; the count
      of corrected symbols is added to. A header without callsigns gives no frame, and one that
      announces no payload gives the frame that its fields describe. */
  method Il2pDecodeHeaderPayload(tab: seq<Rs>, uhdr: seq<byte>, epayload: seq<byte>, symbols0: int,
                                 ghost dst: Addr, ghost src: Addr, ghost ct: Content)
    returns (loops: bool, pp: Packet?, symbols: int, ghost d: Addr, ghost s: Addr)
    requires ValidTab(tab) && |uhdr| == HEADER_SIZE && |epayload| >= MAX_ENCODED_PAYLOAD_SIZE
    ensures pp != null ==> fresh(pp) && fresh(pp.frameData) && pp.Valid()
    ensures ReadsAs(uhdr, epayload, symbols0, loops, pp != null, if pp == null then [] else pp.Contents(), symbols)
    ensures pp != null || loops ==> NamesSpelled(uhdr)
    ensures pp != null ==> ReadsBits(uhdr, epayload, pp.Contents())
    ensures HeaderLength(uhdr) == 0 ==>
              !loops && symbols == symbols0 && (pp != null <==> NamesSpelled(uhdr))
    ensures HeaderLength(uhdr) == 0 && pp != null ==>
              Named(uhdr, d, s) && Holds(pp, d, s, HeaderCr(uhdr), HeaderContent(uhdr))
    ensures IsHeader(uhdr, dst, src, ct) && ct.info == [] ==>
              !loops && pp != null && Holds(pp, dst, src, Cmd, Received(ct)) && symbols == symbols0
    ensures IsHeader(uhdr, dst, src, ct) && ct.info != []
            && Decodable(ct.info, epayload[..CodedLength(|ct.info|)], Layout(|ct.info|)) ==>
              && !loops && pp != null && Holds(pp, dst, src, Cmd, Received(ct))
              && symbols == symbols0 + SymbolErrors(ct.info, epayload[..CodedLength(|ct.info|)], Layout(|ct.info|))
  {
    hide ValidTab, Holds, IsHeader, Encodable, Partition, Received, Decodable, SymbolErrors, HeaderLength,
        HeaderContent, HeaderCr, Spells, NamesSpelled, ReadsAs, Unpacking, Layout, Sizes, HeaderFrame, ReadsBits,
        Behind;
    ghost var known := IsHeader(uhdr, dst, src, ct);
    loops, symbols := false, symbols0;
    var payloadLen := GetHeaderAttributes(uhdr);
    pp, d, s := Il2pDecodeHeaderType1(uhdr);
    ghost var bare := HeaderContent(uhdr);
    NamesAre(uhdr);
    if known {
      NamesOfHeader(uhdr, dst, src, ct, d, s);
      ReceivedInfo(ct);
    }
    if pp == null {
      ReadsNothing(uhdr, epayload, symbols0);
      return;
    }
    FrameHeld(pp, uhdr, d, s);
    assert HeaderFrame(uhdr, d, s) + [] == HeaderFrame(uhdr, d, s);
    if payloadLen > 0 {
      var extracted := new byte[MAX_PAYLOAD_SIZE](_ => 0);
      var v, n, p := Il2pDecodePayload(tab, epayload, payloadLen, extracted, symbols0, ct.info);
      symbols := n;
      PartitionUnique(p, Layout(payloadLen), payloadLen);
      BehindIs(uhdr, epayload);
      if v.Loops? {
        loops := true;
        pp := null;
        ReadsHung(uhdr, epayload, symbols0, symbols);
        return;
      }
      if v.e <= 0 {
        pp := null;
        ReadsFailed(uhdr, epayload, symbols0, symbols);
        return;
      }
      SetInfo(pp, extracted[..payloadLen], d, s, HeaderCr(uhdr), bare);
      ReadsFrame(uhdr, epayload, symbols0, d, s, extracted[..payloadLen], symbols, pp.Contents());
    } else {
      BehindNothing(uhdr, epayload);
      ReadsFrame(uhdr, epayload, symbols0, d, s, [], symbols, pp.Contents());
    }
    ReadsFigures(uhdr, epayload, symbols0, pp.Contents(), symbols);
  }

  lemma FrameHeld(pp: Packet, uhdr: seq<byte>, d: Addr, s: Addr)
    requires |uhdr| == HEADER_SIZE && Named(uhdr, d, s) && Holds(pp, d, s, HeaderCr(uhdr), HeaderContent(uhdr))
    ensures pp.Contents() == HeaderFrame(uhdr, d, s)
  {
    hide FrameBytes, Spells, HeaderCr, HeaderContent;
  }

  lemma BehindIs(uhdr: seq<byte>, epayload: seq<byte>)
    requires |uhdr| == HEADER_SIZE && |epayload| >= MAX_ENCODED_PAYLOAD_SIZE && HeaderLength(uhdr) > 0
    ensures var n := HeaderLength(uhdr);
      && Fits(Sizes(Layout(n))) && Total(Sizes(Layout(n))) == n && n + 16 * Layout(n).blockCount <= |epayload|
      && Behind(uhdr, epayload) == Unpacking(epayload[..n + 16 * Layout(n).blockCount], Sizes(Layout(n)))
  {
    hide Unpacking, Layout, Sizes, HeaderLength;
    var n := HeaderLength(uhdr);
    PartitionSizes(Layout(n), n);
    CodedFits(n);
  }

  lemma BehindNothing(uhdr: seq<byte>, epayload: seq<byte>)
    requires |uhdr| == HEADER_SIZE && |epayload| >= MAX_ENCODED_PAYLOAD_SIZE && HeaderLength(uhdr) == 0
    ensures Behind(uhdr, epayload) == Unpacked(false, 0, [])
  {
    hide HeaderLength, Unpacking, Layout, Sizes;
  }

  lemma ReadsNothing(uhdr: seq<byte>, epayload: seq<byte>, symbols0: int)
    requires |uhdr| == HEADER_SIZE && |epayload| >= MAX_ENCODED_PAYLOAD_SIZE && !NamesSpelled(uhdr)
    ensures ReadsAs(uhdr, epayload, symbols0, false, false, [], symbols0)
  {
    hide NamesSpelled, Behind;
  }

  lemma ReadsHung(uhdr: seq<byte>, epayload: seq<byte>, symbols0: int, symbols: int)
    requires |uhdr| == HEADER_SIZE && |epayload| >= MAX_ENCODED_PAYLOAD_SIZE && NamesSpelled(uhdr)
    requires Behind(uhdr, epayload) == Hung
    ensures ReadsAs(uhdr, epayload, symbols0, true, false, [], symbols)
  {
    hide NamesSpelled, Behind;
  }

  lemma ReadsFailed(uhdr: seq<byte>, epayload: seq<byte>, symbols0: int, symbols: int)
    requires |uhdr| == HEADER_SIZE && |epayload| >= MAX_ENCODED_PAYLOAD_SIZE && NamesSpelled(uhdr)
    requires Behind(uhdr, epayload).Unpacked? && Behind(uhdr, epayload).failed
    requires symbols == symbols0 + Behind(uhdr, epayload).symbols
    ensures ReadsAs(uhdr, epayload, symbols0, false, false, [], symbols)
  {
    hide NamesSpelled, Behind;
  }

  lemma ReadsFrame(uhdr: seq<byte>, epayload: seq<byte>, symbols0: int, d: Addr, s: Addr, data: seq<byte>, symbols: int,
                   bytes: seq<byte>)
    requires |uhdr| == HEADER_SIZE && |epayload| >= MAX_ENCODED_PAYLOAD_SIZE && Named(uhdr, d, s)
    requires Behind(uhdr, epayload) == Unpacked(false, symbols - symbols0, data)
    requires bytes == HeaderFrame(uhdr, d, s) + data
    ensures ReadsAs(uhdr, epayload, symbols0, false, true, bytes, symbols)
  {
    hide Spells, Behind, HeaderFrame;
    assert NamesSpelled(uhdr);
  }

  /** A frame is, byte by byte, what the bits of its header say, with the data of its blocks behind. */
  ghost predicate ReadsBits(uhdr: seq<byte>, epayload: seq<byte>, bytes: seq<byte>)
    requires |uhdr| == HEADER_SIZE && |epayload| >= MAX_ENCODED_PAYLOAD_SIZE
  {
    Behind(uhdr, epayload).Unpacked? && ReadsHeader(uhdr, bytes, Behind(uhdr, epayload).data)
  }

  /** Whatever is received, a frame that comes out of it is one. */
  lemma ReadsFigures(uhdr: seq<byte>, epayload: seq<byte>, symbols0: int, bytes: seq<byte>, symbols: int)
    requires |uhdr| == HEADER_SIZE && |epayload| >= MAX_ENCODED_PAYLOAD_SIZE
    requires ReadsAs(uhdr, epayload, symbols0, false, true, bytes, symbols)
    ensures ReadsBits(uhdr, epayload, bytes)
  {
    hide Behind, HeaderFrame, Spells, NamesSpelled, ReadsHeader;
    var d, s :| Named(uhdr, d, s) && bytes == HeaderFrame(uhdr, d, s) + Behind(uhdr, epayload).data;
    NamedFigures(uhdr, d, s);
    WithData(uhdr, HeaderFrame(uhdr, d, s), Behind(uhdr, epayload).data);
  }

  lemma NamedFigures(uhdr: seq<byte>, d: Addr, s: Addr)
    requires |uhdr| == HEADER_SIZE && Named(uhdr, d, s)
    ensures ReadsHeader(uhdr, HeaderFrame(uhdr, d, s), [])
  {
    hide HeaderCr, HeaderContent, ReadsHeader, FrameBytes;
    SpelledValid(uhdr, 0, d.call);
    SpelledValid(uhdr, 6, s.call);
    HeaderFrameFigures(uhdr, d, s);
  }

  /** The address bytes of a header spell two callsigns. */
  ghost predicate NamesSpelled(hdr: seq<byte>)
    requires |hdr| == HEADER_SIZE
  {
    exists a, b :: Spells(hdr, 0, a) && Spells(hdr, 6, b)
  }

  /** The addresses of a header. */
  ghost predicate Named(hdr: seq<byte>, d: Addr, s: Addr)
    requires |hdr| == HEADER_SIZE
  {
    && Spells(hdr, 0, d.call) && d.ssid == hdr[12] / 16 % 16
    && Spells(hdr, 6, s.call) && s.ssid == hdr[12] % 16
  }

  lemma NamesAre(hdr: seq<byte>)
    requires |hdr| == HEADER_SIZE
    ensures NamesSpelled(hdr) <==> exists a, b :: Spells(hdr, 0, a) && Spells(hdr, 6, b)
  {
  }

  // The header of a frame names that frame's addresses and no others.
  lemma NamesOfHeader(hdr: seq<byte>, dst: Addr, src: Addr, ct: Content, d: Addr, s: Addr)
    requires IsHeader(hdr, dst, src, ct) && |hdr| == HEADER_SIZE
    ensures NamesSpelled(hdr) && Encodable(ct)
    ensures Named(hdr, d, s) ==> d == dst && s == src
    ensures HeaderLength(hdr) == |ct.info|
    ensures HeaderContent(hdr) == WithInfo(Received(ct), []) && HeaderCr(hdr) == Cmd
  {
    hide IsHeader, Encodable, Received, HeaderLength, HeaderContent, HeaderCr, Spells;
    HeaderReads(hdr, dst, src, ct);
    if Named(hdr, d, s) {
      SpellsUnique(hdr, 0, d.call, dst.call);
      SpellsUnique(hdr, 6, s.call, src.call);
    }
  }

  lemma ReceivedInfo(ct: Content)
    requires Encodable(ct)
    ensures WithInfo(WithInfo(Received(ct), []), ct.info) == Received(ct)
    ensures ct.info == [] ==> WithInfo(Received(ct), []) == Received(ct)
    ensures WithInfo(Received(ct), []).HasInfo() || ct.info == []
    ensures |ct.info| <= MAX_PAYLOAD_SIZE
  {
  }

  /** What any received buffer comes to: the decoder of the header may never end; otherwise the header is
      read whether it could be corrected or not, and what is read goes by ReadsAs. */
  ghost predicate FrameReadsAs(irec: seq<byte>, loops: bool, got: bool, bytes: seq<byte>, symbols: int)
    requires |irec| >= CODED_HEADER + MAX_ENCODED_PAYLOAD_SIZE
  {
    var c := ClearedHeader(irec);
    match c.v
    case Loops => loops && !got
    case Returns(e) => ReadsAs(DescrambledBytes(c.data), irec[CODED_HEADER..], e, loops, got, bytes, symbols)
  }

  /** So decoding never ends exactly when it does not for the header, or for a payload block behind a header
      that can be read. */
  lemma WhenFrameLoops(irec: seq<byte>, loops: bool, got: bool, bytes: seq<byte>, symbols: int)
    requires |irec| >= CODED_HEADER + MAX_ENCODED_PAYLOAD_SIZE && FrameReadsAs(irec, loops, got, bytes, symbols)
    ensures var s, uhdr := HeaderSyndromes(irec), DescrambledBytes(ClearedHeader(irec).data);
      loops <==> (s[0] != 0 && s[1] == 0) || (NamesSpelled(uhdr) && Behind(uhdr, irec[CODED_HEADER..]).Hung?)
  {
    hide ClearedHeader, HeaderSyndromes, PlaceOf, NamesSpelled, Behind, HeaderFrame, Named, DescrambledBytes;
    HeaderVerdict(irec);
  }

  /** il2p_decode_frame: whatever was sent comes back as a command frame with its protocol
      identifier made canonical, as long as every block has no more errors than it can correct. */
  method Il2pDecodeFrame(tab: seq<Rs>, irec: seq<byte>, ghost dst: Addr, ghost src: Addr, ghost ct: Content)
    returns (loops: bool, pp: Packet?, symbols: int)
    requires ValidTab(tab) && |irec| >= CODED_HEADER + MAX_ENCODED_PAYLOAD_SIZE
    ensures pp != null ==> fresh(pp) && fresh(pp.frameData) && pp.Valid()
    ensures FrameReadsAs(irec, loops, pp != null, if pp == null then [] else pp.Contents(), symbols)
    ensures pp != null ==>
              ReadsBits(DescrambledBytes(ClearedHeader(irec).data), irec[CODED_HEADER..], pp.Contents())
    ensures Receivable(irec, dst, src, ct) ==>
              && !loops && pp != null && pp.Contents() == FrameBytes(dst, src, Cmd, Received(ct))
              && symbols == WrongBytes(irec, dst, src, ct)
  {
    hide ValidTab, IsHeader, HeaderBytes, Encodable, Received, Decodable, SymbolErrors, ScrambledBytes, Encoded,
        Distance, WithinReach, FrameBytes, HeaderLength, HeaderCr, HeaderContent, NamesSpelled, Named, Layout,
        Receivable, WrongBytes, CodedHeader, ReadsAs, Clearing, DescrambledBytes, ReadsBits;
    ghost var hdr := irec[..HEADER_SIZE];
    if Receivable(irec, dst, src, ct) {
      ReceivedHeader(irec, dst, src, ct);
      if ct.info != [] {
        ReceivedPayload(irec, dst, src, ct);
      }
      hdr := HeaderBytes(dst, src, ct);
    }
    var uhdr, v := Il2pClarifyHeader(tab, irec[..CODED_HEADER], hdr);
    assert irec[..CODED_HEADER][..CODED_HEADER] == irec[..CODED_HEADER];
    match v
    case Loops => loops, pp, symbols := true, null, 0;
    case Returns(e) =>
      ghost var d, s;
      loops, pp, symbols, d, s := Il2pDecodeHeaderPayload(tab, uhdr, irec[CODED_HEADER..], e, dst, src, ct);
  }

  // The header of a receivable frame.
  lemma ReceivedHeader(rec: seq<byte>, dst: Addr, src: Addr, ct: Content)
    requires Receivable(rec, dst, src, ct)
    ensures ValidAddr(dst) && ValidAddr(src) && Encodable(ct) && |ct.info| <= MAX_PAYLOAD_SIZE
    ensures IsHeader(HeaderBytes(dst, src, ct), dst, src, ct)
    ensures WithinReach(ScrambledBytes(HeaderBytes(dst, src, ct)), rec[..CODED_HEADER], HEADER_PARITY)
    ensures CodedHeader(dst, src, ct) == Encoded(ScrambledBytes(HeaderBytes(dst, src, ct)), HEADER_PARITY)
    ensures ct.info == [] ==> WrongBytes(rec, dst, src, ct) == Distance(CodedHeader(dst, src, ct), rec[..CODED_HEADER])
  {
    hide IsHeader, HeaderBytes, Encodable, Decodable, SymbolErrors, ScrambledBytes, Encoded, Distance, WithinReach,
        Layout,
        CodedLength, ValidAddr;
    InfoFits(ct);
  }

  lemma CodedFits(size: nat)
    requires size <= MAX_PAYLOAD_SIZE
    ensures CodedLength(size) <= MAX_ENCODED_PAYLOAD_SIZE
  {
    hide Layout;
  }

  // The payload of a receivable frame.
  lemma ReceivedPayload(rec: seq<byte>, dst: Addr, src: Addr, ct: Content)
    requires Receivable(rec, dst, src, ct) && ct.info != []
    ensures var part := rec[CODED_HEADER..][..CodedLength(|ct.info|)];
      && Decodable(ct.info, part, Layout(|ct.info|))
      && WrongBytes(rec, dst, src, ct) ==
           Distance(CodedHeader(dst, src, ct), rec[..CODED_HEADER]) + SymbolErrors(ct.info, part, Layout(|ct.info|))
  {
    hide IsHeader, HeaderBytes, Encodable, Decodable, SymbolErrors, ScrambledBytes, Encoded, Distance, WithinReach,
        Layout,
        CodedLength, ValidAddr, CodedHeader;
    InfoFits(ct);
    CodedFits(|ct.info|);
    var k := CodedLength(|ct.info|);
    assert rec[CODED_HEADER..][..k] == rec[CODED_HEADER..CODED_HEADER + k];
  }

  lemma InfoFits(ct: Content)
    requires Encodable(ct)
    ensures |ct.info| <= MAX_PAYLOAD_SIZE
  {
  }

  // ---------- the round trip ----------

  /** What was sent is receivable as it is, with no wrong bytes. */
  lemma UndisturbedReceivable(rec: seq<byte>, dst: Addr, src: Addr, ct: Content)
    requires ValidAddr(dst) && ValidAddr(src) && Encodable(ct)
    requires |rec| >= CODED_HEADER + MAX_ENCODED_PAYLOAD_SIZE && OnAir(dst, src, ct) <= rec
    ensures Receivable(rec, dst, src, ct) && WrongBytes(rec, dst, src, ct) == 0
  {
    hide Encoded, ScrambledBytes, HeaderBytes, EncodedBlocks, Sizes, Partition, SymbolErrors, Decodable, Distance;
    hide OnAir, CodedInfo, WithinReach, Layout, Encodable;
    SentParts(rec, dst, src, ct);
    EncodedWithinReach(ScrambledBytes(HeaderBytes(dst, src, ct)), HEADER_PARITY);
    if ct.info != [] {
      CodedInfoIs(ct.info);
      CleanPayload(ct.info, Layout(|ct.info|));
    }
  }

  lemma SentParts(rec: seq<byte>, dst: Addr, src: Addr, ct: Content)
    requires ValidAddr(dst) && ValidAddr(src) && Encodable(ct) && OnAir(dst, src, ct) <= rec
    ensures |ct.info| <= MAX_PAYLOAD_SIZE && |rec| >= CODED_HEADER + CodedLength(|ct.info|)
    ensures rec[..CODED_HEADER] == CodedHeader(dst, src, ct)
    ensures rec[CODED_HEADER..CODED_HEADER + CodedLength(|ct.info|)] == CodedInfo(ct.info)
  {
    hide CodedHeader, CodedInfo, CodedLength;
    var sent := OnAir(dst, src, ct);
    assert rec[..|sent|] == sent;
    assert rec[..CODED_HEADER] == sent[..CODED_HEADER];
    assert rec[CODED_HEADER..|sent|] == sent[CODED_HEADER..];
  }

  lemma CodedInfoIs(info: seq<byte>)
    requires 1 <= |info| <= MAX_PAYLOAD_SIZE
    ensures Fits(Sizes(Layout(|info|))) && Total(Sizes(Layout(|info|))) == |info|
    ensures CodedInfo(info) == EncodedBlocks(info, Sizes(Layout(|info|)))
  {
    hide Sizes, Layout, EncodedBlocks, Partition;
    PartitionSizes(Layout(|info|), |info|);
  }

  /** A frame comes back byte for byte exactly when it was built as a command and its protocol
      identifier, if it has one, is among the ten that the header can express. */
  lemma ExactRoundTrip(dst: Addr, src: Addr, cr: CmdRes, ct: Content)
    requires ValidAddr(dst) && ValidAddr(src) && Encodable(ct)
    ensures FrameBytes(dst, src, Cmd, Received(ct)) == FrameBytes(dst, src, cr, ct) <==>
            cr == Cmd && (ct.HasPid() ==> ct.pid in {0x20, 0x01, 0x06, 0x07, 0x08, 0xcc, 0xcd, 0xce, 0xcf, 0xf0})
  {
    hide AddrField, EncodePid, Control;
    FieldBytesAt(dst, true, false);
    FieldBytesAt(dst, cr == Cmd, false);
    ControlReceived(ct);
    var a, b := FrameBytes(dst, src, Cmd, Received(ct)), FrameBytes(dst, src, cr, ct);
    assert a[6] == AddrField(dst, true, false)[6] && b[6] == AddrField(dst, cr == Cmd, false)[6];
    if ct.HasPid() {
      PidRoundTrip(ct.pid);
      assert a[15] == CanonicalPid(ct.pid) && b[15] == ct.pid;
    }
  }

  /** A built frame is encoded, sent undisturbed and decoded: the bytes that come out are those of
      the command with the canonical protocol identifier, and so the bytes that went in exactly
      when the frame was a command with one of ten protocol identifiers, or none. */
  method SendAndReceive(tab: seq<Rs>, pp: Packet, ghost dst: Addr, ghost src: Addr, ghost cr: CmdRes, ghost ct: Content)
    returns (n: int, back: Packet?)
    requires ValidTab(tab) && Holds(pp, dst, src, cr, ct)
    ensures pp.Contents() == old(pp.Contents())
    ensures n < 0 <==> !Encodable(ct)
    ensures n < 0 ==> back == null
    ensures n >= 0 ==> back != null && fresh(back) && Holds(back, dst, src, Cmd, Received(ct))
    ensures n >= 0 ==> (back.Contents() == pp.Contents() <==>
              cr == Cmd && (ct.HasPid() ==> ct.pid in {0x20, 0x01, 0x06, 0x07, 0x08, 0xcc, 0xcd, 0xce, 0xcf, 0xf0}))
  {
    hide ValidTab, Encodable, Received, FrameBytes, OnAir, Receivable, WrongBytes;
    var iout := new byte[CODED_HEADER + MAX_ENCODED_PAYLOAD_SIZE](_ => 0);
    n := Il2pEncodeFrame(tab, pp, iout, dst, src, cr, ct);
    back := null;
    if n >= 0 {
      assert OnAir(dst, src, ct) <= iout[..] by {
        assert iout[..][..n] == iout[..n];
      }
      UndisturbedReceivable(iout[..], dst, src, ct);
      var loops, symbols;
      loops, back, symbols := Il2pDecodeFrame(tab, iout[..], dst, src, ct);
      ExactRoundTrip(dst, src, cr, ct);
    }
  }

  lemma ControlReceived(ct: Content)
    requires Encodable(ct)
    ensures Control(Received(ct)) == Control(ct)
    ensures Received(ct).HasPid() == ct.HasPid()
  {
  }

  /** A frame built as a response comes back with only the two C bits changed, and a frame with
      another identifier with only that byte changed. */
  lemma ResponseRoundTrip(dst: Addr, src: Addr, ct: Content)
    requires ValidAddr(dst) && ValidAddr(src) && Encodable(ct)
    ensures var a, b := FrameBytes(dst, src, Cmd, Received(ct)), FrameBytes(dst, src, Res, ct);
      && |a| == |b| && a[6] == b[6] + 128 && a[13] + 128 == b[13]
      && forall i :: 0 <= i < |a| && i != 6 && i != 13 && (i != 15 || !ct.HasPid()) ==> a[i] == b[i]
  {
    hide AddrField, EncodePid, Control;
    FieldBytesAt(dst, true, false);
    FieldBytesAt(dst, false, false);
    FieldBytesAt(src, false, true);
    FieldBytesAt(src, true, true);
    ControlReceived(ct);
  }
}
