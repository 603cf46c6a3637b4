/** KISS framing: escaping a message, taking a frame apart, and receiving a stream byte by byte. */
module Kiss {
  import opened Gf256

  const FEND: byte := 0xc0
  const FESC: byte := 0xdb
  const TFEND: byte := 0xdc
  const TFESC: byte := 0xdd
  const MAX_KISS_LEN := 2048

  // ---------- escaping ----------

  function Escape(chr: byte): seq<byte>
  {
    if chr == FEND then [FESC, TFEND] else if chr == FESC then [FESC, TFESC] else [chr]
  }

  ghost function Escaped(m: seq<byte>): (r: seq<byte>)
    ensures |m| <= |r| <= 2 * |m|
  {
    if m == [] then [] else Escaped(m[..|m| - 1]) + Escape(m[|m| - 1])
  }

  ghost function Encapsulated(m: seq<byte>): seq<byte>
  {
    [FEND] + Escaped(m) + [FEND]
  }

  ghost predicate NoFend(bs: seq<byte>)
  {
    forall i :: 0 <= i < |bs| ==> bs[i] != FEND
  }

  lemma {:induction false} EscapedNoFend(m: seq<byte>)
    ensures NoFend(Escaped(m))
  {
    if m == [] {
    } else {
      EscapedNoFend(m[..|m| - 1]);
    }
  }

  /** kiss_encapsulate: the length of what is put in out. */
  method KissEncapsulate(input: seq<byte>, out: array<byte>) returns (olen: nat)
    requires out.Length >= 2 * |input| + 2
    modifies out
    ensures olen <= out.Length && out[..olen] == Encapsulated(input) && FrameOf(out[..olen], input)
    ensures out[olen..] == old(out[olen..])
  {
    hide Escaped, Escape, FrameOf;
    out[0] := FEND;
    olen := 1;
    EscapedNone();
    for j := 0 to |input|
      invariant olen == 1 + |Escaped(input[..j])| && out[..olen] == [FEND] + Escaped(input[..j])
      invariant out[olen..] == old(out[olen..])
    {
      EscapedMore(input, j);
      olen := PutEscaped(out, olen, input[j]);
    }
    assert input[..|input|] == input;
    out[olen] := FEND;
    olen := olen + 1;
    FramesOf(out[..olen], input);
  }

  // One byte of the message.
  method PutEscaped(out: array<byte>, len: nat, chr: byte) returns (olen: nat)
    requires len + 2 <= out.Length
    modifies out
    ensures olen == len + |Escape(chr)| && out[..olen] == old(out[..len]) + Escape(chr)
    ensures out[olen..] == old(out[olen..])
  {
    olen := len;
    if chr == FEND {
      out[olen], out[olen + 1] := FESC, TFEND;
      olen := olen + 2;
    } else if chr == FESC {
      out[olen], out[olen + 1] := FESC, TFESC;
      olen := olen + 2;
    } else {
      out[olen] := chr;
      olen := olen + 1;
    }
  }

  lemma EscapedNone()
    ensures Escaped([]) == []
  {
  }

  lemma EscapedMore(m: seq<byte>, j: nat)
    requires j < |m|
    ensures Escaped(m[..j + 1]) == Escaped(m[..j]) + Escape(m[j])
  {
    assert m[..j + 1][..j] == m[..j];
  }

  // ---------- taking a frame apart ----------

  /** What has been put out, and whether the last byte was an escape. */
  datatype Plain = Plain(out: seq<byte>, escaped: bool)

  function Unescape(p: Plain, chr: byte): Plain
  {
    if p.escaped then
      Plain(p.out + if chr == TFESC then [FESC] else if chr == TFEND then [FEND] else [], false)
    else if chr == FESC then Plain(p.out, true)
    else Plain(p.out + [chr], false)
  }

  ghost function Unescaped(bs: seq<byte>): (p: Plain)
    ensures |p.out| <= |bs|
  {
    if bs == [] then Plain([], false) else Unescape(Unescaped(bs[..|bs| - 1]), bs[|bs| - 1])
  }

  /** The message in a frame; the delimiters may be missing. */
  ghost function Unwrapped(frame: seq<byte>): seq<byte>
  {
    if |frame| < 2 then [] else
      var end := if frame[|frame| - 1] == FEND then |frame| - 1 else |frame|;
      Unescaped(frame[if frame[0] == FEND then 1 else 0..end]).out
  }

  /** kiss_unwrap: the length of the message put in out. */
  method KissUnwrap(input: seq<byte>, out: array<byte>) returns (olen: nat)
    requires out.Length >= |input|
    modifies out
    ensures olen <= out.Length && out[..olen] == Unwrapped(input)
    ensures forall m :: FrameOf(input, m) ==> out[..olen] == m
  {
    hide Unescape, Unescaped, FrameOf;
    FrameUnwraps(input);
    olen := 0;
    var escapedMode := false;
    if |input| < 2 {
      return;
    }
    var ilen := |input|;
    if input[ilen - 1] == FEND {
      ilen := ilen - 1;
    }
    var start := if input[0] == FEND then 1 else 0;
    var j := start;
    UnescapedNone();
    assert input[start..start] == [];
    while j < ilen
      invariant start <= j <= ilen && olen <= j - start
      invariant Plain(out[..olen], escapedMode) == Unescaped(input[start..j])
    {
      assert input[start..j + 1] == input[start..j] + [input[j]];
      UnescapedSnoc(input[start..j], input[j]);
      olen, escapedMode := UnwrapByte(out, olen, escapedMode, input[j]);
      j := j + 1;
    }
  }

  // One byte of the frame.
  method UnwrapByte(out: array<byte>, len: nat, escapedMode: bool, chr: byte) returns (olen: nat, mode: bool)
    requires len < out.Length
    modifies out
    ensures olen <= len + 1 && Plain(out[..olen], mode) == Unescape(Plain(old(out[..len]), escapedMode), chr)
  {
    olen, mode := len, escapedMode;
    if escapedMode {
      if chr == TFESC {
        out[olen] := FESC;
        olen := olen + 1;
      } else if chr == TFEND {
        out[olen] := FEND;
        olen := olen + 1;
      }
      mode := false;
    } else if chr == FESC {
      mode := true;
    } else {
      out[olen] := chr;
      olen := olen + 1;
    }
  }

  lemma {:induction false} UnescapedEscaped(m: seq<byte>)
    ensures Unescaped(Escaped(m)) == Plain(m, false)
  {
    hide Unescaped, Escape;
    if m == [] {
      UnescapedNone();
    } else {
      var n := |m| - 1;
      UnescapedEscaped(m[..n]);
      UnescapedMore(Escaped(m[..n]), m[n]);
      assert m == m[..n] + [m[n]];
    }
  }

  lemma UnescapedNone()
    ensures Unescaped([]) == Plain([], false)
  {
  }

  // What follows an escaped byte reads as that byte.
  lemma UnescapedMore(a: seq<byte>, chr: byte)
    requires !Unescaped(a).escaped
    ensures Unescaped(a + Escape(chr)) == Plain(Unescaped(a).out + [chr], false)
  {
    hide Unescaped;
    UnescapedSnoc(a, Escape(chr)[0]);
    if |Escape(chr)| == 2 {
      UnescapedSnoc(a + [FESC], Escape(chr)[1]);
      assert a + [FESC] + [Escape(chr)[1]] == a + Escape(chr);
    }
  }

  lemma UnescapedSnoc(a: seq<byte>, chr: byte)
    ensures Unescaped(a + [chr]) == Unescape(Unescaped(a), chr)
  {
    assert (a + [chr])[..|a|] == a;
  }

  /** Taking apart what was encapsulated gives the message back. */
  lemma RoundTrip(m: seq<byte>)
    ensures Unwrapped(Encapsulated(m)) == m
  {
    UnwrapFrame(Escaped(m));
    UnescapedEscaped(m);
  }

  lemma UnwrapFrame(body: seq<byte>)
    ensures Unwrapped([FEND] + body + [FEND]) == Unescaped(body).out
  {
    assert ([FEND] + body + [FEND])[1..|body| + 1] == body;
  }

  // ---------- frames in figures ----------

  /** What bytes between delimiters stand for, read from the front: 0xdb 0xdc for 0xc0, 0xdb 0xdd for 0xdb, any
      other pair that begins with 0xdb for nothing, and every other byte for itself. */
  ghost function Reading(bs: seq<byte>): (m: seq<byte>)
    decreases |bs|
  {
    if bs == [] then []
    else if bs[0] != 0xdb then [bs[0]] + Reading(bs[1..])
    else if |bs| == 1 then []
    else (if bs[1] == 0xdc then [0xc0] else if bs[1] == 0xdd then [0xdb] else []) + Reading(bs[2..])
  }

  /** No delimiter is inside, and every 0xdb is followed by 0xdc or 0xdd. */
  ghost predicate WellFormed(bs: seq<byte>)
  {
    && (forall i :: 0 <= i < |bs| ==> bs[i] != 0xc0)
    && (forall i :: 0 <= i < |bs| && bs[i] == 0xdb ==> i + 1 < |bs| && bs[i + 1] in {0xdc, 0xdd})
  }

  /** A message between its delimiters, where 0xdb 0xdc stands exactly for 0xc0 and 0xdb 0xdd for 0xdb. */
  ghost predicate FrameOf(frame: seq<byte>, m: seq<byte>)
  {
    && |frame| >= 2 && frame[0] == 0xc0 && frame[|frame| - 1] == 0xc0
    && WellFormed(frame[1..|frame| - 1]) && Reading(frame[1..|frame| - 1]) == m
  }

  lemma {:induction false} UnescapedFrom(done: seq<byte>, bs: seq<byte>)
    requires !Unescaped(done).escaped
    ensures Unescaped(done + bs).out == Unescaped(done).out + Reading(bs)
    decreases |bs|
  {
    hide Unescaped, Unescape, Reading;
    ReadingFirst(bs);
    if bs == [] {
      assert done + bs == done;
    } else {
      var next := done + [bs[0]];
      UnescapedOne(done, bs[0]);
      if bs[0] != 0xdb {
        UnescapedFrom(next, bs[1..]);
        assert next + bs[1..] == done + bs;
      } else if |bs| == 1 {
        assert next == done + bs;
      } else {
        UnescapedPair(done, bs);
        UnescapedFrom(next + [bs[1]], bs[2..]);
        assert next + [bs[1]] + bs[2..] == done + bs;
      }
    }
  }

  lemma ReadingFirst(bs: seq<byte>)
    ensures |bs| == 0 || (|bs| == 1 && bs[0] == 0xdb) ==> Reading(bs) == []
    ensures |bs| >= 1 && bs[0] != 0xdb ==> Reading(bs) == [bs[0]] + Reading(bs[1..])
    ensures |bs| >= 2 && bs[0] == 0xdb ==>
        Reading(bs) == (if bs[1] == 0xdc then [0xc0] else if bs[1] == 0xdd then [0xdb] else []) + Reading(bs[2..])
  {
  }

  lemma UnescapedOne(done: seq<byte>, chr: byte)
    requires !Unescaped(done).escaped
    ensures Unescaped(done + [chr]) ==
      if chr == 0xdb then Plain(Unescaped(done).out, true) else Plain(Unescaped(done).out + [chr], false)
  {
    hide Unescaped;
    UnescapedSnoc(done, chr);
  }

  lemma UnescapedPair(done: seq<byte>, bs: seq<byte>)
    requires !Unescaped(done).escaped && |bs| >= 2 && bs[0] == 0xdb
    ensures Unescaped(done + [bs[0]] + [bs[1]]) ==
      Plain(Unescaped(done).out + if bs[1] == 0xdc then [0xc0] else if bs[1] == 0xdd then [0xdb] else [], false)
  {
    hide Unescaped;
    UnescapedSnoc(done, bs[0]);
    UnescapedSnoc(done + [bs[0]], bs[1]);
  }

  lemma UnescapedReads(bs: seq<byte>)
    ensures Unescaped(bs).out == Reading(bs)
  {
    hide Unescaped, Reading;
    UnescapedNone();
    UnescapedFrom([], bs);
    assert [] + bs == bs;
  }

  /** Any frame, well formed or not, is taken apart to what stands between its delimiters, if it has them. */
  lemma UnwrappedReads(frame: seq<byte>)
    ensures Unwrapped(frame) ==
      if |frame| < 2 then []
      else
        var i, j := if frame[0] == 0xc0 then 1 else 0, if frame[|frame| - 1] == 0xc0 then |frame| - 1 else |frame|;
        Reading(frame[i..j])
  {
    hide Unescaped, Reading;
    if |frame| >= 2 {
      var i, j := if frame[0] == 0xc0 then 1 else 0, if frame[|frame| - 1] == 0xc0 then |frame| - 1 else |frame|;
      UnescapedReads(frame[i..j]);
    }
  }

  lemma FrameUnwraps(frame: seq<byte>)
    ensures forall m :: FrameOf(frame, m) ==> Unwrapped(frame) == m
  {
    hide Unwrapped, Reading, WellFormed;
    UnwrappedReads(frame);
  }

  /** What is encapsulated is a frame of the message, and no other frame is well formed and stands for it. */
  lemma FramesOf(frame: seq<byte>, m: seq<byte>)
    ensures FrameOf(frame, m) <==> frame == Encapsulated(m)
  {
    hide Escaped, Reading, WellFormed;
    EscapedFigures(m);
    assert Encapsulated(m)[1..|Encapsulated(m)| - 1] == Escaped(m);
    if FrameOf(frame, m) {
      var body := frame[1..|frame| - 1];
      WellFormedEscaped(body);
      assert frame == [FEND] + body + [FEND];
    }
  }

  lemma {:induction false} EscapedFigures(m: seq<byte>)
    ensures WellFormed(Escaped(m)) && Reading(Escaped(m)) == m
  {
    hide Unescaped, Reading, Escaped;
    UnescapedReads(Escaped(m));
    UnescapedEscaped(m);
    if m == [] {
      EscapedNone();
    } else {
      var n := |m| - 1;
      EscapedFigures(m[..n]);
      EscapedMore(m, n);
      assert m[..n + 1] == m;
      WellFormedBoth(Escaped(m[..n]), Escape(m[n]));
    }
  }

  lemma WellFormedBoth(a: seq<byte>, b: seq<byte>)
    requires WellFormed(a) && WellFormed(b)
    ensures WellFormed(a + b)
  {
  }

  lemma {:induction false} WellFormedEscaped(bs: seq<byte>)
    requires WellFormed(bs)
    ensures bs == Escaped(Reading(bs))
    decreases |bs|
  {
    hide Escaped;
    if bs == [] {
      EscapedNone();
    } else if bs[0] != 0xdb {
      WellFormedEscaped(bs[1..]);
      EscapedFirst(bs[0], Reading(bs[1..]));
    } else {
      assert bs[1] in {0xdc, 0xdd};
      WellFormedEscaped(bs[2..]);
      EscapedFirst(if bs[1] == 0xdc then 0xc0 else 0xdb, Reading(bs[2..]));
    }
  }

  lemma {:induction false} EscapedFirst(chr: byte, m: seq<byte>)
    ensures Escaped([chr] + m) == Escape(chr) + Escaped(m)
    decreases |m|
  {
    hide Escape;
    var all := [chr] + m;
    if m == [] {
      assert all == [chr] && all[..0] == [];
    } else {
      var n := |m| - 1;
      EscapedFirst(chr, m[..n]);
      assert all[..n + 1] == [chr] + m[..n] && all[n + 1] == m[n];
    }
  }

  /** Frames in full: what is written for the one byte 0xc0, and what a message of 0x00 and 0xc0 arrives as. */
  lemma KnownFrames()
    ensures Encapsulated([0xc0]) == [0xc0, 0xdb, 0xdc, 0xc0] && Encapsulated([0xdb]) == [0xc0, 0xdb, 0xdd, 0xc0]
    ensures Feed(Rx(false, [], []), [0xc0, 0x00, 0xdb, 0xdc, 0xc0]).delivered == [[0x00, 0xc0]]
  {
    hide Feed, Escaped, Reading, WellFormed;
    KnownReadings();
    assert [0xc0, 0xdb, 0xdc, 0xc0 as byte][1..3] == [0xdb, 0xdc];
    assert [0xc0, 0xdb, 0xdd, 0xc0 as byte][1..3] == [0xdb, 0xdd];
    FramesOf([0xc0, 0xdb, 0xdc, 0xc0], [0xc0]);
    FramesOf([0xc0, 0xdb, 0xdd, 0xc0], [0xdb]);
    FeedFrame(Rx(false, [], []), [0x00, 0xdb, 0xdc]);
    UnescapedReads([0x00, 0xdb, 0xdc]);
    assert [FEND] + [0x00, 0xdb, 0xdc] + [FEND] == [0xc0, 0x00, 0xdb, 0xdc, 0xc0];
  }

  lemma KnownReadings()
    ensures WellFormed([0xdb, 0xdc]) && Reading([0xdb, 0xdc]) == [0xc0]
    ensures WellFormed([0xdb, 0xdd]) && Reading([0xdb, 0xdd]) == [0xdb]
    ensures Reading([0x00, 0xdb, 0xdc]) == [0x00, 0xc0]
  {
    assert [0xdb, 0xdc as byte][2..] == [] && [0xdb, 0xdd as byte][2..] == [];
    assert [0x00, 0xdb, 0xdc as byte][1..] == [0xdb, 0xdc];
  }

  // ---------- receiving ----------

  /** A receiver: whether it is collecting, the frame so far, and the messages delivered. */
  datatype Rx = Rx(collecting: bool, msg: seq<byte>, delivered: seq<seq<byte>>)

  ghost function Receive(rx: Rx, chr: byte): Rx
  {
    if !rx.collecting then
      if chr == FEND then Rx(true, [FEND], rx.delivered) else rx
    else if chr == FEND then
      if rx.msg == [] || rx.msg == [FEND] then rx.(msg := [FEND])
      else Rx(false, rx.msg + [FEND], rx.delivered + [Unwrapped(rx.msg + [FEND])])
    else if |rx.msg| < MAX_KISS_LEN then rx.(msg := rx.msg + [chr])
    else rx
  }

  ghost function Feed(rx: Rx, bs: seq<byte>): Rx
  {
    if bs == [] then rx else Receive(Feed(rx, bs[..|bs| - 1]), bs[|bs| - 1])
  }

  /** The receiver of the pseudo terminal. The buffer has room for a delimiter after a full frame. */
  class KissFrame {
    var collecting: bool
    var kissLen: nat
    const kissMsg: array<byte>
    var delivered: seq<seq<byte>>

    ghost predicate Valid()
      reads this
    {
      kissMsg.Length == MAX_KISS_LEN + 1 && kissLen <= MAX_KISS_LEN + 1 && (collecting ==> kissLen <= MAX_KISS_LEN)
    }

    ghost function Value(): Rx
      requires Valid()
      reads this, kissMsg
    {
      Rx(collecting, kissMsg[..kissLen], delivered)
    }

    constructor ()
      ensures Valid() && Value() == Rx(false, [], []) && fresh(kissMsg)
    {
      collecting, kissLen, delivered := false, 0, [];
      kissMsg := new byte[MAX_KISS_LEN + 1](_ => 0);
    }

    // Append a byte to the frame.
    method Put(chr: byte)
      requires Valid() && kissLen <= MAX_KISS_LEN
      modifies this`kissLen, kissMsg
      ensures kissLen == old(kissLen) + 1 && kissMsg[..kissLen] == old(kissMsg[..kissLen]) + [chr]
    {
      kissMsg[kissLen] := chr;
      kissLen := kissLen + 1;
    }

    /** kiss_rec_byte */
    method RecByte(chr: byte)
      requires Valid()
      modifies this, kissMsg
      ensures Valid() && Value() == Receive(old(Value()), chr)
    {
      hide Unwrapped;
      if !collecting {
        if chr == FEND {
          kissLen := 0;
          Put(chr);
          collecting := true;
        }
        return;
      }
      if chr == FEND {
        if kissLen == 0 {
          Put(chr);
          return;
        }
        if kissLen == 1 && kissMsg[0] == FEND {
          assert kissMsg[..kissLen] == [FEND];
          return;
        }
        assert kissLen == 1 ==> kissMsg[..kissLen][0] == kissMsg[0];
        EndFrame(chr);
        return;
      }
      if kissLen < MAX_KISS_LEN {
        Put(chr);
      }
    }

    // The end of a frame: deliver what is in it.
    method EndFrame(chr: byte)
      requires Valid() && collecting
      modifies this, kissMsg
      ensures Valid() && !collecting && kissMsg[..kissLen] == old(kissMsg[..kissLen]) + [chr]
      ensures delivered == old(delivered) + [Unwrapped(kissMsg[..kissLen])]
    {
      hide Unwrapped;
      Put(chr);
      var unwrapped := new byte[MAX_KISS_LEN + 1](_ => 0);
      var ulen := KissUnwrap(kissMsg[..kissLen], unwrapped);
      delivered := delivered + [unwrapped[..ulen]];
      collecting := false;
    }

    /** Feed a run of bytes. */
    method Receives(bs: seq<byte>)
      requires Valid()
      modifies this, kissMsg
      ensures Valid() && Value() == Feed(old(Value()), bs)
    {
      hide Receive;
      for i := 0 to |bs|
        invariant Valid() && Value() == Feed(old(Value()), bs[..i])
      {
        assert bs[..i + 1][..i] == bs[..i];
        RecByte(bs[i]);
      }
      assert bs[..|bs|] == bs;
    }
  }

  // ---------- streams ----------

  lemma {:induction false} FeedAppend(rx: Rx, a: seq<byte>, b: seq<byte>)
    ensures Feed(rx, a + b) == Feed(Feed(rx, a), b)
    decreases |b|
  {
    hide Receive;
    if b == [] {
      assert a + b == a;
    } else {
      var n := |b| - 1;
      FeedAppend(rx, a, b[..n]);
      assert (a + b)[..|a| + n] == a + b[..n];
    }
  }

  lemma FeedOne(rx: Rx, chr: byte)
    ensures Feed(rx, [chr]) == Receive(rx, chr)
  {
    assert [chr][..0] == [];
  }

  lemma {:induction false} Skips(rx: Rx, bs: seq<byte>)
    requires !rx.collecting && NoFend(bs)
    ensures Feed(rx, bs) == rx
  {
    if bs == [] {
    } else {
      Skips(rx, bs[..|bs| - 1]);
    }
  }

  lemma {:induction false} Collects(rx: Rx, bs: seq<byte>)
    requires rx.collecting && NoFend(bs) && |rx.msg| + |bs| <= MAX_KISS_LEN
    ensures Feed(rx, bs) == rx.(msg := rx.msg + bs)
  {
    if bs == [] {
    } else {
      var n := |bs| - 1;
      Collects(rx, bs[..n]);
      assert rx.msg + bs[..n] + [bs[n]] == rx.msg + bs;
    }
  }

  /** As much of a run of bytes as a frame has room for behind its first delimiter. */
  ghost function Taken(bs: seq<byte>): (r: seq<byte>)
    ensures r <= bs && |r| + 1 <= MAX_KISS_LEN && (|bs| + 1 <= MAX_KISS_LEN ==> r == bs)
    ensures bs != [] ==> r != []
    ensures |r| == if |bs| < 2048 then |bs| else 2047
  {
    if |bs| + 1 <= MAX_KISS_LEN then bs else bs[..MAX_KISS_LEN - 1]
  }

  /** The rest is dropped. */
  lemma {:induction false} CollectsTaken(rx: Rx, bs: seq<byte>)
    requires rx.collecting && rx.msg == [FEND] && NoFend(bs)
    ensures Feed(rx, bs) == rx.(msg := [FEND] + Taken(bs))
  {
    if |bs| + 1 <= MAX_KISS_LEN {
      Collects(rx, bs);
    } else {
      var n := |bs| - 1;
      CollectsTaken(rx, bs[..n]);
      assert Taken(bs[..n]) == Taken(bs);
    }
  }

  /** A body between two delimiters is delivered unless it is empty, whether the receiver is
      searching or has just seen a delimiter. */
  lemma FeedFrame(rx: Rx, body: seq<byte>)
    requires !rx.collecting || rx.msg == [FEND]
    requires NoFend(body) && |body| + 2 <= MAX_KISS_LEN
    ensures var r := Feed(rx, [FEND] + body + [FEND]);
      if body == [] then r == Rx(true, [FEND], rx.delivered)
      else !r.collecting && r.delivered == rx.delivered + [Unescaped(body).out]
  {
    var open := Rx(true, [FEND], rx.delivered);
    FeedOne(rx, FEND);
    FeedAppend(rx, [FEND], body);
    Collects(open, body);
    FeedAppend(rx, [FEND] + body, [FEND]);
    FeedOne(open.(msg := [FEND] + body), FEND);
    UnwrapFrame(body);
  }

  datatype Item = Item(gap: seq<byte>, msg: seq<byte>)

  /** Messages, each after some bytes that are no delimiters. */
  ghost function Stream(items: seq<Item>): seq<byte>
  {
    if items == [] then []
    else Stream(items[..|items| - 1]) + (items[|items| - 1].gap + Encapsulated(items[|items| - 1].msg))
  }

  ghost function NonEmpty(items: seq<Item>): seq<seq<byte>>
  {
    if items == [] then []
    else NonEmpty(items[..|items| - 1]) + Message(items[|items| - 1].msg)
  }

  ghost function Message(m: seq<byte>): seq<seq<byte>>
  {
    if m == [] then [] else [m]
  }

  ghost predicate Fits(items: seq<Item>)
  {
    forall i :: 0 <= i < |items| ==> NoFend(items[i].gap) && |Encapsulated(items[i].msg)| <= MAX_KISS_LEN
  }

  /** Whether a receiver that was searching is collecting after the items: it has just seen the end of
      an empty message, or it took a gap for a message and the end of that message for a beginning. */
  ghost predicate Rests(items: seq<Item>)
  {
    items != [] &&
    var last := items[|items| - 1];
    last.msg == [] || (last.gap != [] && Rests(items[..|items| - 1]))
  }

  /** What an item makes the receiver deliver: a gap met while collecting is taken for a message, as far as
      a frame has room for it. */
  ghost function Handed(item: Item, collecting: bool): seq<seq<byte>>
  {
    if collecting && item.gap != [] then [Unescaped(Taken(item.gap)).out] else Message(item.msg)
  }

  ghost function Deliveries(items: seq<Item>): seq<seq<byte>>
  {
    if items == [] then []
    else Deliveries(items[..|items| - 1]) + Handed(items[|items| - 1], Rests(items[..|items| - 1]))
  }

  ghost predicate Resting(rx: Rx, collecting: bool)
  {
    rx.collecting == collecting && (collecting ==> rx.msg == [FEND])
  }

  /** What a searching receiver makes of any stream, tidy or not. */
  lemma {:induction false} FeedStream(rx: Rx, items: seq<Item>)
    requires !rx.collecting && Fits(items)
    ensures Feed(rx, Stream(items)).delivered == rx.delivered + Deliveries(items)
    ensures Resting(Feed(rx, Stream(items)), Rests(items))
  {
    hide Feed, Encapsulated, Unescaped;
    if items == [] {
      Nothing(rx);
    } else {
      var n := |items| - 1;
      var before, last := items[..n], items[n];
      FeedStream(rx, before);
      FeedAppend(rx, Stream(before), last.gap + Encapsulated(last.msg));
      var mid := Feed(rx, Stream(before));
      NextItem(mid, last);
      assert rx.delivered + Deliveries(before) + Handed(last, Rests(before)) == rx.delivered + Deliveries(items);
    }
  }

  /** The item is received as it was sent: its gap is skipped, or empty, or by chance reads as the
      very message that follows it. */
  ghost predicate AsSent(item: Item, collecting: bool)
  {
    !collecting || item.gap == [] || (item.msg != [] && Unescaped(Taken(item.gap)).out == item.msg)
  }

  /** A searching receiver delivers exactly the messages of a stream that are not empty, in order, if
      and only if every item is received as it was sent. */
  lemma StreamDelivers(rx: Rx, items: seq<Item>)
    requires !rx.collecting && Fits(items)
    ensures Feed(rx, Stream(items)).delivered == rx.delivered + NonEmpty(items) <==>
            forall i :: 0 <= i < |items| ==> AsSent(items[i], Rests(items[..i]))
  {
    hide Feed, AsSent, Rests, Stream;
    FeedStream(rx, items);
    DeliveriesExact(items);
    SameTail(rx.delivered, Deliveries(items), NonEmpty(items));
  }

  lemma SameTail(d: seq<seq<byte>>, a: seq<seq<byte>>, b: seq<seq<byte>>)
    ensures d + a == d + b <==> a == b
  {
    if d + a == d + b {
      assert a == (d + a)[|d|..] == (d + b)[|d|..] == b;
    }
  }

  // Every item delivers at least as many messages as it holds, so all must agree for the whole to.
  lemma {:induction false} DeliveriesExact(items: seq<Item>)
    ensures |Deliveries(items)| >= |NonEmpty(items)|
    ensures Deliveries(items) == NonEmpty(items) <==> forall i :: 0 <= i < |items| ==>
        AsSent(items[i], Rests(items[..i]))
  {
    hide AsSent, Rests, Unescaped;
    if items == [] {
    } else {
      var n := |items| - 1;
      var before, last := items[..n], items[n];
      DeliveriesExact(before);
      HandedExact(last, Rests(before));
      Aligned(Deliveries(before), NonEmpty(before), Handed(last, Rests(before)), Message(last.msg));
      AsSentAll(items, n);
    }
  }

  lemma AsSentAll(items: seq<Item>, n: nat)
    requires |items| == n + 1
    ensures (forall i :: 0 <= i < |items| ==> AsSent(items[i], Rests(items[..i]))) <==>
            (forall i :: 0 <= i < n ==> AsSent(items[..n][i], Rests(items[..n][..i])))
                && AsSent(items[n], Rests(items[..n]))
  {
    hide AsSent, Rests;
    forall i | 0 <= i < n
      ensures items[..n][i] == items[i] && items[..n][..i] == items[..i]
    {
    }
  }

  lemma HandedExact(item: Item, collecting: bool)
    ensures |Handed(item, collecting)| >= |Message(item.msg)|
    ensures Handed(item, collecting) == Message(item.msg) <==> AsSent(item, collecting)
  {
    hide Unescaped;
  }

  lemma Aligned(a: seq<seq<byte>>, b: seq<seq<byte>>, x: seq<seq<byte>>, y: seq<seq<byte>>)
    requires |a| >= |b| && |x| >= |y|
    ensures a + x == b + y <==> a == b && x == y
  {
    if a + x == b + y {
      assert |a| == |b|;
      assert a == (a + x)[..|a|] && b == (b + y)[..|b|];
      assert x == (a + x)[|a|..] && y == (b + y)[|b|..];
    }
  }

  /** Nothing stands between an empty message and the next one. */
  ghost predicate Tidy(items: seq<Item>)
  {
    forall i :: 0 < i < |items| && items[i - 1].msg == [] ==> items[i].gap == []
  }

  /** In particular it does when nothing stands after an empty message. */
  lemma TidyDelivers(rx: Rx, items: seq<Item>)
    requires !rx.collecting && Fits(items) && Tidy(items)
    ensures Feed(rx, Stream(items)).delivered == rx.delivered + NonEmpty(items)
  {
    hide Feed, Stream, Rests;
    forall i | 0 <= i < |items| && Rests(items[..i])
      ensures items[i].gap == []
    {
      TidyRests(items, i);
    }
    StreamDelivers(rx, items);
  }

  lemma {:induction false} TidyRests(items: seq<Item>, i: nat)
    requires Tidy(items) && i < |items| && Rests(items[..i])
    ensures i > 0 && items[i - 1].msg == [] && items[i].gap == []
    decreases i
  {
    assert items[..i][..|items[..i]| - 1] == items[..i - 1];
    if items[i - 1].msg == [] {
    } else {
      TidyRests(items, i - 1);
    }
  }

  lemma Nothing(rx: Rx)
    ensures Feed(rx, []) == rx
  {
  }

  /** One message after a gap, from either resting state. */
  lemma NextItem(rx: Rx, item: Item)
    requires Resting(rx, rx.collecting)
    requires NoFend(item.gap) && |Encapsulated(item.msg)| <= MAX_KISS_LEN
    ensures var r := Feed(rx, item.gap + Encapsulated(item.msg));
      && r.delivered == rx.delivered + Handed(item, rx.collecting)
      && Resting(r, item.msg == [] || (item.gap != [] && rx.collecting))
  {
    hide Feed, Unescaped;
    var gap, m := item.gap, item.msg;
    var body := Escaped(m);
    EscapedNoFend(m);
    UnescapedEscaped(m);
    FeedAppend(rx, gap, Encapsulated(m));
    if !rx.collecting {
      Skips(rx, gap);
      FeedFrame(rx, body);
    } else if gap == [] {
      Nothing(rx);
      FeedFrame(rx, body);
    } else {
      GapDelivered(rx, gap, m);
    }
  }

  // A gap after an empty message is taken for a message, and the message after it is skipped.
  lemma GapDelivered(rx: Rx, gap: seq<byte>, m: seq<byte>)
    requires rx.collecting && rx.msg == [FEND] && gap != [] && NoFend(gap)
    ensures Feed(rx, gap + Encapsulated(m)).delivered == rx.delivered + [Unescaped(Taken(gap)).out]
    ensures Resting(Feed(rx, gap + Encapsulated(m)), true)
  {
    hide Feed, Unescaped;
    var body := Escaped(m);
    EscapedNoFend(m);
    assert gap + Encapsulated(m) == gap + [FEND] + body + [FEND];
    FeedAppend(rx, gap + [FEND] + body, [FEND]);
    FeedAppend(rx, gap + [FEND], body);
    FeedAppend(rx, gap, [FEND]);
    CollectsTaken(rx, gap);
    var full := rx.(msg := [FEND] + Taken(gap));
    FeedOne(full, FEND);
    UnwrapFrame(Taken(gap));
    Skips(Receive(full, FEND), body);
    FeedOne(Receive(full, FEND), FEND);
  }

  /** A stream that is not received as sent: an empty message, the byte A, and the message B. Only
      the byte A is delivered. */
  lemma GapAfterEmpty()
    ensures var items := [Item([], []), Item([0x41], [0x42])];
      Fits(items) && NonEmpty(items) == [[0x42]] && Feed(Rx(false, [], []), Stream(items)).delivered == [[0x41]]
  {
    hide Feed, Receive, Encapsulated, Escape, Escaped, Unescaped;
    var items := [Item([], []), Item([0x41], [0x42])];
    assert items[..1] == [Item([], [])] && items[..1][..0] == [] == items[..0];
    ShortFrames();
    FeedStream(Rx(false, [], []), items);
    assert Deliveries(items[..1]) == [] == NonEmpty(items[..1]);
    assert [] + [[0x41 as byte]] == [[0x41]] && [] + [[0x42 as byte]] == [[0x42]];
  }

  lemma ShortFrames()
    ensures |Encapsulated([])| <= MAX_KISS_LEN && |Encapsulated([0x42])| <= MAX_KISS_LEN
    ensures Unescaped([0x41]).out == [0x41]
  {
    hide Escaped, Unescaped;
    EscapedNone();
    UnescapedNone();
    UnescapedSnoc([], 0x41);
    assert [] + [0x41 as byte] == [0x41];
  }
}
