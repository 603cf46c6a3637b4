/** Splitting a payload into nearly equal blocks, each scrambled and given 16 parity symbols. */
module Payload {
  import opened Gf256
  import opened RsTables
  import opened RsEncode
  import opened RsErrors
  import opened RsDecode
  import opened RsOutcome
  import opened Bits
  import opened Scramble
  import opened Buffers

  const MAX_PAYLOAD_SIZE := 1023
  const MAX_PAYLOAD_BLOCKS := 5
  const MAX_ENCODED_PAYLOAD_SIZE := 1103

  datatype Properties = Properties(
    byteCount: nat, blockCount: nat, smallSize: nat, largeSize: nat,
    largeCount: nat, smallCount: nat, parity: nat)

  const NO_PROPERTIES := Properties(0, 0, 0, 0, 0, 0, 0)

  /** The blocks cover the payload exactly, and each fits in a code block with its parity. */
  ghost predicate Partition(p: Properties, size: nat)
  {
    && p.byteCount == size && p.parity == 16
    && p.blockCount == p.largeCount + p.smallCount && 1 <= p.blockCount <= MAX_PAYLOAD_BLOCKS
    && 239 * (p.blockCount - 1) < size <= 239 * p.blockCount
    && p.largeSize == p.smallSize + 1 && p.smallSize >= 1
    && p.largeCount * p.largeSize + p.smallCount * p.smallSize == size
    && p.smallCount > 0 && p.smallSize + 16 <= BLOCK_SIZE
    && (p.largeCount > 0 ==> p.largeSize + 16 <= BLOCK_SIZE)
  }

  /** il2p_payload_compute: the block structure and the encoded length. */
  method PayloadCompute(size: int) returns (p: Properties, e: int)
    ensures size < 0 || size > MAX_PAYLOAD_SIZE ==> e == -1
    ensures size == 0 ==> e == 0
    ensures 1 <= size <= MAX_PAYLOAD_SIZE ==>
              Partition(p, size) && e == size + 16 * p.blockCount <= MAX_ENCODED_PAYLOAD_SIZE
    ensures !(1 <= size <= MAX_PAYLOAD_SIZE) ==> p == NO_PROPERTIES
  {
    p := NO_PROPERTIES;
    if size < 0 || size > MAX_PAYLOAD_SIZE {
      return p, -1;
    } else if size == 0 {
      return p, 0;
    }
    var blocks: nat := (size + 238) / 239;
    BlockCount(size, blocks);
    var small: nat := size / blocks;
    var large := small + 1;
    assert blocks * small <= size < blocks * (small + 1) by {
      DivBounds(size, blocks);
    }
    var largeCount: nat := size - blocks * small;
    var smallCount: nat := blocks - largeCount;
    p := Properties(size, blocks, small, large, largeCount, smallCount, 16);
    e := smallCount * (small + 16) + largeCount * (large + 16);
    Conservation(size, blocks, small, largeCount, smallCount);
  }

  lemma BlockCount(size: nat, blocks: nat)
    requires 1 <= size <= MAX_PAYLOAD_SIZE && blocks == (size + 238) / 239
    ensures 1 <= blocks <= MAX_PAYLOAD_BLOCKS && 239 * (blocks - 1) < size <= 239 * blocks
  {
  }

  lemma DivBounds(a: nat, b: nat)
    requires b > 0
    ensures b * (a / b) <= a < b * (a / b + 1)
  {
    assert a == b * (a / b) + a % b;
  }

  lemma Conservation(size: nat, blocks: nat, small: nat, largeCount: nat, smallCount: nat)
    requires 1 <= blocks <= MAX_PAYLOAD_BLOCKS && 239 * (blocks - 1) < size <= 239 * blocks
    requires blocks * small <= size < blocks * (small + 1)
    requires largeCount == size - blocks * small && smallCount == blocks - largeCount
    ensures largeCount * (small + 1) + smallCount * small == size
    ensures smallCount * (small + 16) + largeCount * (small + 17) == size + 16 * blocks
    ensures 1 <= small <= 239 && (largeCount > 0 ==> small < 239)
  {
    if blocks == 1 {} else if blocks == 2 {} else if blocks == 3 {} else if blocks == 4 {} else {}
    assert largeCount * (small + 1) + smallCount * small == blocks * small + largeCount;
    assert smallCount * (small + 16) + largeCount * (small + 17) == blocks * small + 16 * blocks + largeCount;
  }

  /** The partition of a payload is determined by its size, so both ends agree on it. */
  lemma PartitionUnique(p: Properties, q: Properties, size: nat)
    requires Partition(p, size) && Partition(q, size)
    ensures p == q
  {
    assert p.blockCount == q.blockCount;
    SmallUnique(p.blockCount, p.smallSize, p.largeCount, p.smallCount, size);
    SmallUnique(q.blockCount, q.smallSize, q.largeCount, q.smallCount, size);
  }

  lemma Spread(a: nat, b: nat, c: nat)
    ensures a * (c + 1) + b * c == (a + b) * c + a
  {
  }

  lemma SmallUnique(blocks: nat, small: nat, largeCount: nat, smallCount: nat, size: nat)
    requires 1 <= blocks <= MAX_PAYLOAD_BLOCKS && blocks == largeCount + smallCount && smallCount > 0
    requires largeCount * (small + 1) + smallCount * small == size
    ensures small == size / blocks && largeCount == size % blocks
  {
    Spread(largeCount, smallCount, small);
    DivUnique(size, blocks, small, largeCount);
    assert size == blocks * (size / blocks) + size % blocks;
  }

  /** The block structure of a payload of the given size. */
  ghost function Layout(size: nat): (p: Properties)
    requires 1 <= size <= MAX_PAYLOAD_SIZE
    ensures Partition(p, size)
  {
    var blocks := (size + 238) / 239;
    BlockCount(size, blocks);
    DivBounds(size, blocks);
    var small := size / blocks;
    Conservation(size, blocks, small, size - blocks * small, blocks - (size - blocks * small));
    Properties(size, blocks, small, small + 1, size - blocks * small, blocks - (size - blocks * small), 16)
  }

  // ---------- block by block ----------

  ghost function Total(sizes: seq<nat>): nat
  {
    if sizes == [] then 0 else sizes[0] + Total(sizes[1..])
  }

  ghost predicate Fits(sizes: seq<nat>)
  {
    forall i :: 0 <= i < |sizes| ==> 1 <= sizes[i] && sizes[i] + 16 <= BLOCK_SIZE
  }

  /** Each block scrambled and followed by its parity. */
  ghost function EncodedBlocks(payload: seq<byte>, sizes: seq<nat>): (r: seq<byte>)
    requires Fits(sizes) && Total(sizes) == |payload|
    ensures |r| == |payload| + 16 * |sizes|
    decreases |sizes|
  {
    if sizes == [] then []
    else Encoded(ScrambledBytes(payload[..sizes[0]]), 16) + EncodedBlocks(payload[sizes[0]..], sizes[1..])
  }

  /** Every received block has at most eight wrong symbols. */
  ghost predicate AllWithinReach(payload: seq<byte>, rec: seq<byte>, sizes: seq<nat>)
    requires Fits(sizes) && Total(sizes) == |payload|
    decreases |sizes|
  {
    && |rec| == |payload| + 16 * |sizes|
    && (sizes != [] ==>
      && WithinReach(ScrambledBytes(payload[..sizes[0]]), rec[..sizes[0] + 16], 16)
      && AllWithinReach(payload[sizes[0]..], rec[sizes[0] + 16..], sizes[1..]))
  }

  /** The number of wrong symbols over all blocks. */
  ghost function ErrorCount(payload: seq<byte>, rec: seq<byte>, sizes: seq<nat>): nat
    requires Fits(sizes) && Total(sizes) == |payload| && AllWithinReach(payload, rec, sizes)
    decreases |sizes|
  {
    if sizes == [] then 0 else
      Distance(Encoded(ScrambledBytes(payload[..sizes[0]]), 16), rec[..sizes[0] + 16])
      + ErrorCount(payload[sizes[0]..], rec[sizes[0] + 16..], sizes[1..])
  }

  ghost function Repeat(n: nat, k: nat): (s: seq<nat>)
    ensures |s| == n && forall i :: 0 <= i < n ==> s[i] == k
  {
    if n == 0 then [] else [k] + Repeat(n - 1, k)
  }

  /** The large blocks come first. */
  ghost function Sizes(p: Properties): (s: seq<nat>)
    ensures |s| == p.largeCount + p.smallCount
  {
    Repeat(p.largeCount, p.largeSize) + Repeat(p.smallCount, p.smallSize)
  }

  lemma {:induction false} TotalRepeat(n: nat, k: nat, rest: seq<nat>)
    ensures Total(Repeat(n, k) + rest) == n * k + Total(rest)
    decreases n
  {
    var s := Repeat(n, k) + rest;
    if n == 0 {
      assert s == rest;
    } else {
      TotalRepeat(n - 1, k, rest);
      assert s[1..] == Repeat(n - 1, k) + rest;
      assert n * k == k + (n - 1) * k;
    }
  }

  lemma PartitionSizes(p: Properties, size: nat)
    requires Partition(p, size)
    ensures Fits(Sizes(p)) && Total(Sizes(p)) == size
  {
    TotalRepeat(p.largeCount, p.largeSize, Repeat(p.smallCount, p.smallSize));
    TotalRepeat(p.smallCount, p.smallSize, []);
    assert Repeat(p.smallCount, p.smallSize) + [] == Repeat(p.smallCount, p.smallSize);
  }

  // ---------- the encoded payload in figures ----------

  // From block i on, the encoded payload is that of the part of the payload from block i on.
  lemma {:induction false} EncodedFrom(payload: seq<byte>, sizes: seq<nat>, i: nat)
    requires Fits(sizes) && Total(sizes) == |payload| && i <= |sizes|
    ensures var pin := Total(sizes[..i]);
      At(payload, sizes, i, pin) && Fits(sizes[i..])
      && EncodedBlocks(payload, sizes)[pin + 16 * i..] == EncodedBlocks(payload[pin..], sizes[i..])
  {
    hide Encoded, ScrambledBytes, EncodedBlocks, Total, Fits;
    if i == 0 {
      TotalNone();
      assert sizes[..0] == [] && sizes[0..] == sizes && payload[0..] == payload;
    } else {
      EncodedFrom(payload, sizes, i - 1);
      var pin, size := Total(sizes[..i - 1]), sizes[i - 1];
      EncodedNext(payload, sizes, i - 1, pin);
      AtNext(payload, sizes, i, pin + size);
      TotalMore(sizes, i - 1);
      Dropped(EncodedBlocks(payload, sizes), pin + 16 * (i - 1),
              Encoded(ScrambledBytes(payload[pin..pin + size]), 16),
              EncodedBlocks(payload[pin + size..], sizes[i..]));
    }
  }

  lemma AtNext(payload: seq<byte>, sizes: seq<nat>, i: nat, pin: nat)
    requires At(payload, sizes, i, pin)
    ensures i <= |sizes| && pin <= |payload| && Fits(sizes[i..]) && Total(sizes[i..]) == |payload[pin..]|
  {
  }

  lemma Dropped(all: seq<byte>, at: nat, head: seq<byte>, tail: seq<byte>)
    requires at <= |all| && all[at..] == head + tail
    ensures |all| >= at + |head| && all[at + |head|..] == tail && all[at..at + |head|] == head
  {
    assert all[at + |head|..] == all[at..][|head|..];
    assert all[at..at + |head|] == all[at..][..|head|];
  }

  lemma {:induction false} TotalMore(sizes: seq<nat>, i: nat)
    requires i < |sizes|
    ensures Total(sizes[..i + 1]) == Total(sizes[..i]) + sizes[i]
    decreases |sizes|
  {
    if i == 0 {
      assert sizes[..1][1..] == [];
    } else {
      TotalMore(sizes[1..], i - 1);
      assert sizes[..i + 1][1..] == sizes[1..][..i] && sizes[..i][1..] == sizes[1..][..i - 1];
    }
  }

  lemma TotalPrefix(p: Properties, i: nat)
    requires p.largeSize == p.smallSize + 1 && i <= p.largeCount + p.smallCount
    ensures Total(Sizes(p)[..i]) == i * p.smallSize + if i < p.largeCount then i else p.largeCount
  {
    hide Repeat, Total;
    var l, k := p.largeSize, p.smallSize;
    var a := if i < p.largeCount then i else p.largeCount;
    var b := i - a;
    assert Sizes(p)[..i] == Repeat(a, l) + (Repeat(b, k) + []);
    TotalRepeat(a, l, Repeat(b, k) + []);
    TotalRepeat(b, k, []);
    TotalNone();
    Spread(a, b, k);
  }

  lemma TotalNone()
    ensures Total([]) == 0
  {
  }

  /** From byte at on, a part of the payload is sent: scrambled, and followed by sixteen symbols that make it a
      codeword behind zeros. */
  ghost predicate HoldsBlock(enc: seq<byte>, at: nat, data: seq<byte>)
  {
    && 1 <= |data| <= 239 && at + |data| + 16 <= |enc| && enc[at..at + |data|] == ScrambledBytes(data)
    && IsCodeword(Zeros(239 - |data|) + enc[at..at + |data| + 16], 16)
  }

  /** Where block i starts in a payload of n bytes, and how long it is: there are as few blocks as hold 239 bytes
      each, the first of them one byte longer than the others, as many as the division leaves over. */
  function BlockStart(n: nat, i: nat): nat
    requires n > 0
  {
    var blocks := (n + 238) / 239;
    i * (n / blocks) + if i < n % blocks then i else n % blocks
  }

  function BlockLength(n: nat, i: nat): nat
    requires n > 0
  {
    var blocks := (n + 238) / 239;
    n / blocks + if i < n % blocks then 1 else 0
  }

  lemma SizesFigures(n: nat, i: nat)
    requires 1 <= n <= MAX_PAYLOAD_SIZE && i < (n + 238) / 239
    ensures i < |Sizes(Layout(n))| && Sizes(Layout(n))[i] == BlockLength(n, i)
    ensures Total(Sizes(Layout(n))[..i]) == BlockStart(n, i)
  {
    hide Layout, Sizes, Total;
    var p := Layout(n);
    SizesAre(p, n);
    SmallUnique(p.blockCount, p.smallSize, p.largeCount, p.smallCount, n);
    TotalPrefix(p, i);
  }

  lemma EncodedBlock(payload: seq<byte>, sizes: seq<nat>, i: nat)
    requires Fits(sizes) && Total(sizes) == |payload| && i < |sizes|
    ensures var from := Total(sizes[..i]);
      from + sizes[i] <= |payload|
      && HoldsBlock(EncodedBlocks(payload, sizes), from + 16 * i, payload[from..from + sizes[i]])
  {
    hide Encoded, ScrambledBytes, HoldsBlock, EncodedBlocks, Total, Fits, At;
    EncodedFrom(payload, sizes, i);
    var from, all := Total(sizes[..i]), EncodedBlocks(payload, sizes);
    EncodedNext(payload, sizes, i, from);
    AtNext(payload, sizes, i + 1, from + sizes[i]);
    BlockFits(payload, sizes, i, from);
    var block, rest := payload[from..from + sizes[i]], EncodedBlocks(payload[from + sizes[i]..], sizes[i + 1..]);
    FirstBlock(all, from + 16 * i, block, rest);
  }

  lemma FirstBlock(all: seq<byte>, at: nat, block: seq<byte>, rest: seq<byte>)
    requires 1 <= |block| && |block| + 16 <= BLOCK_SIZE && at <= |all|
    requires all[at..] == Encoded(ScrambledBytes(block), 16) + rest
    ensures HoldsBlock(all, at, block)
  {
    hide Encoded, ScrambledBytes, HoldsBlock;
    Dropped(all, at, Encoded(ScrambledBytes(block), 16), rest);
    BlockFigures(all, at, block);
  }

  lemma BlockFigures(enc: seq<byte>, at: nat, data: seq<byte>)
    requires 1 <= |data| && |data| + 16 <= BLOCK_SIZE && at + |data| + 16 <= |enc|
    requires enc[at..at + |data| + 16] == Encoded(ScrambledBytes(data), 16)
    ensures HoldsBlock(enc, at, data)
  {
    hide Parity, IsCodeword, ScrambledBytes;
    EncodedIsCodeword(ScrambledBytes(data), 16);
    assert enc[at..at + |data|] == enc[at..at + |data| + 16][..|data|];
  }

  // ---------- encoding ----------

  /** Of a payload cut into blocks, the part from block i on, which starts at byte pin. */
  ghost predicate At(payload: seq<byte>, sizes: seq<nat>, i: nat, pin: nat)
  {
    i <= |sizes| && pin <= |payload| && Fits(sizes) && Total(sizes[i..]) == |payload| - pin
  }

  lemma NextAt(payload: seq<byte>, sizes: seq<nat>, i: nat, pin: nat)
    requires At(payload, sizes, i, pin) && i < |sizes|
    ensures At(payload, sizes, i + 1, pin + sizes[i])
    ensures Fits(sizes[i..]) && Fits(sizes[i + 1..])
    ensures sizes[i..][0] == sizes[i] && sizes[i..][1..] == sizes[i + 1..]
    ensures payload[pin..][..sizes[i]] == payload[pin..pin + sizes[i]]
    ensures payload[pin..][sizes[i]..] == payload[pin + sizes[i]..]
  {
    assert sizes[i..][1..] == sizes[i + 1..];
  }

  lemma EncodedNext(payload: seq<byte>, sizes: seq<nat>, i: nat, pin: nat)
    requires At(payload, sizes, i, pin) && i < |sizes|
    ensures At(payload, sizes, i + 1, pin + sizes[i])
    ensures |payload[pin..pin + sizes[i]]| + 16 <= BLOCK_SIZE
    ensures EncodedBlocks(payload[pin..], sizes[i..])
         == Encoded(ScrambledBytes(payload[pin..pin + sizes[i]]), 16)
             + EncodedBlocks(payload[pin + sizes[i]..], sizes[i + 1..])
  {
    hide Encoded, ScrambledBytes;
    NextAt(payload, sizes, i, pin);
  }

  /** Encode one block of the payload into enc. */
  method EncodeBlock(tab: seq<Rs>, payload: seq<byte>, pin: nat, size: nat, enc: array<byte>, pout: nat)
    requires ValidTab(tab) && 1 <= size && size + 16 <= BLOCK_SIZE
    requires pin + size <= |payload| && pout + size + 16 <= enc.Length
    modifies enc
    ensures enc[..pout] == old(enc[..pout])
    ensures enc[pout..pout + size + 16] == Encoded(ScrambledBytes(payload[pin..pin + size]), 16)
  {
    hide Parity, ScrambledBytes, ValidTab, CodecFor, BlockFor, Registers, IsCodeword;
    var scram := new byte[256](_ => 0);
    Il2pScrambleBlock(payload[pin..pin + size], scram, size);
    ghost var s := ScrambledBytes(payload[pin..pin + size]);
    assert payload[pin..pin + size][..size] == payload[pin..pin + size];
    Copy(scram[..size], enc, pout);
    ghost var e1 := enc[..pout + size];
    assert e1[pout..] == s;
    var parity := Il2pEncodeRs(tab, scram[..size], 16);
    Copy(parity, enc, pout + size);
    assert enc[..pout + size] == e1 && enc[..pout] == e1[..pout];
    assert enc[pout..pout + size] == e1[pout..];
    assert enc[pout..pout + size + 16] == enc[pout..pout + size] + enc[pout + size..pout + size + 16];
  }

  /** il2p_encode_payload: the encoded length, or an error code, and the encoded blocks in enc. */
  method Il2pEncodePayload(tab: seq<Rs>, payload: seq<byte>, enc: array<byte>) returns (e: int, ghost p: Properties)
    requires ValidTab(tab) && enc.Length >= MAX_ENCODED_PAYLOAD_SIZE
    modifies enc
    ensures |payload| > MAX_PAYLOAD_SIZE ==> e == -1
    ensures |payload| == 0 ==> e == 0
    ensures 1 <= |payload| <= MAX_PAYLOAD_SIZE ==>
              && Partition(p, |payload|) && e == |payload| + 16 * p.blockCount <= enc.Length
              && Fits(Sizes(p)) && Total(Sizes(p)) == |payload|
              && enc[..e] == EncodedBlocks(payload, Sizes(p))
  {
    hide Encoded, ScrambledBytes, ValidTab;
    p := NO_PROPERTIES;
    if |payload| > MAX_PAYLOAD_SIZE {
      return -1, p;
    } else if |payload| == 0 {
      return 0, p;
    }
    var ipp;
    ipp, e := PayloadCompute(|payload|);
    p := ipp;
    if e <= 0 {
      return;
    }
    PartitionSizes(ipp, |payload|);
    e := EncodeAll(tab, payload, ipp, enc);
  }

  /** How far the encoder is: what it has written, followed by the blocks still to come. */
  ghost predicate Encoding(payload: seq<byte>, sizes: seq<nat>, i: nat, pin: nat, pout: nat, enc: seq<byte>)
  {
    && At(payload, sizes, i, pin) && Total(sizes) == |payload| && pout == pin + 16 * i <= |enc|
    && EncodedBlocks(payload, sizes) == enc[..pout] + EncodedBlocks(payload[pin..], sizes[i..])
  }

  lemma EncodingNext(payload: seq<byte>, sizes: seq<nat>, i: nat, pin: nat, pout: nat, enc: seq<byte>, enc': seq<byte>)
    requires Encoding(payload, sizes, i, pin, pout, enc) && i < |sizes|
    requires |enc'| == |enc| && pout + sizes[i] + 16 <= |enc| && pin + sizes[i] <= |payload|
    requires enc'[..pout] == enc[..pout]
    requires enc'[pout..pout + sizes[i] + 16] == Encoded(ScrambledBytes(payload[pin..pin + sizes[i]]), 16)
    ensures Encoding(payload, sizes, i + 1, pin + sizes[i], pout + sizes[i] + 16, enc')
  {
    hide Encoded, ScrambledBytes, EncodedBlocks, Total, At;
    EncodedNext(payload, sizes, i, pin);
    var n := sizes[i] + 16;
    assert enc'[..pout + n] == enc'[..pout] + enc'[pout..pout + n];
  }

  // Room for the next block, in the payload and in the output.
  lemma BlockFits(payload: seq<byte>, sizes: seq<nat>, i: nat, pin: nat)
    requires At(payload, sizes, i, pin) && i < |sizes|
    ensures pin + sizes[i] <= |payload| && 1 <= sizes[i] && sizes[i] + 16 <= BLOCK_SIZE
  {
    NextAt(payload, sizes, i, pin);
  }

  // One of the two loops of the encoder: count blocks of the given size.
  method EncodeRun(tab: seq<Rs>, payload: seq<byte>, enc: array<byte>, count: nat, size: nat, pin0: nat, pout0: nat,
                   ghost sizes: seq<nat>, ghost i: nat)
    returns (pin: nat, pout: nat)
    requires ValidTab(tab) && Encoding(payload, sizes, i, pin0, pout0, enc[..])
    requires i + count <= |sizes| && forall k :: i <= k < i + count ==> sizes[k] == size
    requires |payload| + 16 * |sizes| <= enc.Length
    modifies enc
    ensures Encoding(payload, sizes, i + count, pin, pout, enc[..])
  {
    hide Encoded, ScrambledBytes, ValidTab, Encoding, At;
    pin, pout := pin0, pout0;
    for b := 0 to count
      invariant Encoding(payload, sizes, i + b, pin, pout, enc[..])
    {
      ghost var was := enc[..];
      EncodingAt(payload, sizes, i + b, pin, pout, was);
      EncodeBlock(tab, payload, pin, size, enc, pout);
      assert enc[..][..pout] == was[..pout] && enc[..][pout..pout + size + 16] == enc[pout..pout + size + 16];
      EncodingNext(payload, sizes, i + b, pin, pout, was, enc[..]);
      pin, pout := pin + size, pout + size + 16;
    }
  }

  lemma EncodingAt(payload: seq<byte>, sizes: seq<nat>, i: nat, pin: nat, pout: nat, enc: seq<byte>)
    requires Encoding(payload, sizes, i, pin, pout, enc) && i < |sizes|
    ensures pin + sizes[i] <= |payload| && 1 <= sizes[i] && sizes[i] + 16 <= BLOCK_SIZE
    ensures pout == pin + 16 * i
  {
    hide Total;
    BlockFits(payload, sizes, i, pin);
  }

  /** Encode the large blocks, then the small ones. */
  method EncodeAll(tab: seq<Rs>, payload: seq<byte>, p: Properties, enc: array<byte>) returns (length: nat)
    requires ValidTab(tab) && Fits(Sizes(p)) && Total(Sizes(p)) == |payload|
    requires enc.Length >= |payload| + 16 * (p.largeCount + p.smallCount)
    modifies enc
    ensures length == |payload| + 16 * (p.largeCount + p.smallCount)
    ensures enc[..length] == EncodedBlocks(payload, Sizes(p))
  {
    hide ValidTab, EncodedBlocks, Total, Repeat;
    ghost var sizes := Sizes(p);
    EncodingStart(payload, sizes, enc[..]);
    var pin, pout := EncodeRun(tab, payload, enc, p.largeCount, p.largeSize, 0, 0, sizes, 0);
    pin, pout := EncodeRun(tab, payload, enc, p.smallCount, p.smallSize, pin, pout, sizes, p.largeCount);
    EncodingEnd(payload, sizes, pin, pout, enc[..]);
    length := pout;
    assert enc[..][..length] == enc[..length];
  }

  lemma EncodingStart(payload: seq<byte>, sizes: seq<nat>, enc: seq<byte>)
    requires Fits(sizes) && Total(sizes) == |payload|
    ensures Encoding(payload, sizes, 0, 0, 0, enc)
  {
    hide EncodedBlocks;
    assert sizes[0..] == sizes && payload[0..] == payload;
  }

  lemma EncodingEnd(payload: seq<byte>, sizes: seq<nat>, pin: nat, pout: nat, enc: seq<byte>)
    requires Encoding(payload, sizes, |sizes|, pin, pout, enc)
    ensures pout == |payload| + 16 * |sizes| && enc[..pout] == EncodedBlocks(payload, sizes)
  {
  }

  // ---------- decoding ----------

  lemma ReachNext(payload: seq<byte>, sizes: seq<nat>, i: nat, pin: nat, rec: seq<byte>)
    requires At(payload, sizes, i, pin) && i < |sizes| && AllWithinReach(payload[pin..], rec, sizes[i..])
    ensures At(payload, sizes, i + 1, pin + sizes[i]) && |rec| >= sizes[i] + 16
    ensures WithinReach(ScrambledBytes(payload[pin..pin + sizes[i]]), rec[..sizes[i] + 16], 16)
    ensures AllWithinReach(payload[pin + sizes[i]..], rec[sizes[i] + 16..], sizes[i + 1..])
    ensures ErrorCount(payload[pin..], rec, sizes[i..])
         == Distance(Encoded(ScrambledBytes(payload[pin..pin + sizes[i]]), 16), rec[..sizes[i] + 16])
          + ErrorCount(payload[pin + sizes[i]..], rec[sizes[i] + 16..], sizes[i + 1..])
  {
    hide Encoded, ScrambledBytes, WithinReach, Distance;
    NextAt(payload, sizes, i, pin);
  }

  /** What a decoder makes of received blocks: it may never end; otherwise whether a block could not be
      corrected, the corrections added up, and the data. */
  datatype Unpacked = Hung | Unpacked(failed: bool, symbols: int, data: seq<byte>)

  ghost function Join(u: Unpacked, v: Unpacked): Unpacked
  {
    if u.Hung? || v.Hung? then Hung else Unpacked(u.failed || v.failed, u.symbols + v.symbols, u.data + v.data)
  }

  /** What one received block is unpacked to. */
  ghost function UnpackedBlock(rec: seq<byte>, size: nat): (u: Unpacked)
    requires size <= |rec| <= BLOCK_SIZE
    ensures u.Unpacked? ==> |u.data| == size
  {
    var c := Clearing(rec, size, 16);
    match c.v
    case Loops => Hung
    case Returns(e) => Unpacked(e < 0, e, DescrambledBytes(c.data))
  }

  /** What received blocks of the given sizes are unpacked to, whatever was received. */
  ghost function Unpacking(rec: seq<byte>, sizes: seq<nat>): (u: Unpacked)
    requires Fits(sizes) && |rec| >= Total(sizes) + 16 * |sizes|
    ensures u.Unpacked? ==> |u.data| == Total(sizes)
    decreases |sizes|
  {
    if sizes == [] then Unpacked(false, 0, [])
    else Join(UnpackedBlock(rec[..sizes[0] + 16], sizes[0]), Unpacking(rec[sizes[0] + 16..], sizes[1..]))
  }

  /** The part of the received blocks from block i on, which starts at byte pin. */
  ghost predicate Ahead(rec: seq<byte>, sizes: seq<nat>, i: nat, pin: nat)
  {
    i <= |sizes| && pin <= |rec| && Fits(sizes) && Fits(sizes[i..])
    && |rec| - pin >= Total(sizes[i..]) + 16 * (|sizes| - i)
  }

  ghost function Rest(rec: seq<byte>, sizes: seq<nat>, i: nat, pin: nat): Unpacked
    requires Ahead(rec, sizes, i, pin)
  {
    Unpacking(rec[pin..], sizes[i..])
  }

  /** Of what all blocks are unpacked to, the blocks before i have given this much. */
  ghost predicate SoFar(rec: seq<byte>, sizes: seq<nat>, i: nat, pin: nat, failed: bool, symbols: int, data: seq<byte>,
                        whole: Unpacked)
  {
    Ahead(rec, sizes, i, pin) && whole == Join(Unpacked(failed, symbols, data), Rest(rec, sizes, i, pin))
  }

  lemma AheadNext(rec: seq<byte>, sizes: seq<nat>, i: nat, pin: nat)
    requires Ahead(rec, sizes, i, pin) && i < |sizes|
    ensures pin + sizes[i] + 16 <= |rec| && sizes[i] + 16 <= BLOCK_SIZE
    ensures Ahead(rec, sizes, i + 1, pin + sizes[i] + 16)
    ensures Rest(rec, sizes, i, pin) == Join(UnpackedBlock(rec[pin..pin + sizes[i] + 16], sizes[i]),
        Rest(rec, sizes, i + 1, pin + sizes[i] + 16))
  {
    hide UnpackedBlock, Join;
    var n := sizes[i] + 16;
    assert sizes[i..][0] == sizes[i] && sizes[i..][1..] == sizes[i + 1..];
    assert rec[pin..][..n] == rec[pin..pin + n] && rec[pin..][n..] == rec[pin + n..];
  }

  // Joining is associative, and with nothing it changes nothing.
  lemma JoinAssoc(u: Unpacked, v: Unpacked, t: Unpacked)
    ensures Join(Join(u, v), t) == Join(u, Join(v, t))
    ensures Join(Unpacked(false, 0, []), t) == t && Join(t, Unpacked(false, 0, [])) == t
  {
    if u.Unpacked? && v.Unpacked? && t.Unpacked? {
      assert u.data + v.data + t.data == u.data + (v.data + t.data);
    }
    if t.Unpacked? {
      assert [] + t.data == t.data == t.data + [];
    }
  }

  /** How far the decoder is: the blocks still to come are within reach, what it has written is
      the payload so far, and the errors counted and still to count add up to the total. */
  ghost predicate Decoding(payload: seq<byte>, sizes: seq<nat>, rec: seq<byte>, i: nat, pin: nat, pout: nat,
                           out: seq<byte>, failed: bool, symbols: int, total: int)
  {
    && At(payload, sizes, i, pout) && pin == pout + 16 * i && pin <= |rec| && pout <= |out|
    && AllWithinReach(payload[pout..], rec[pin..], sizes[i..])
    && out[..pout] == payload[..pout] && !failed
    && symbols + ErrorCount(payload[pout..], rec[pin..], sizes[i..]) == total
  }

  // Decode and descramble the bytes of one block.
  method DecodedBlock(tab: seq<Rs>, rec: seq<byte>, size: nat, ghost data: seq<byte>)
    returns (plain: seq<byte>, v: Verdict)
    requires ValidTab(tab) && 1 <= size && size + 16 == |rec| <= BLOCK_SIZE
    ensures v == Clearing(rec, size, 16).v && plain == DescrambledBytes(Clearing(rec, size, 16).data)
    ensures |data| == size && WithinReach(ScrambledBytes(data), rec, 16) ==>
              plain == data && v == Returns(Distance(Encoded(ScrambledBytes(data), 16), rec))
  {
    hide Encoded, ScrambledBytes, DescrambledBytes, WithinReach, Distance, ValidTab, Clearing, Endless;
    var corrected;
    corrected, v := Il2pDecodeRs(tab, rec, size, 16, ScrambledBytes(data));
    var out := new byte[size](_ => 0);
    Il2pDescrambleBlock(corrected, out, size);
    assert corrected[..size] == corrected && out[..] == out[..size];
    RoundTrip(data);
    plain := out[..];
  }

  /** Decode and descramble one block. */
  method DecodeBlock(tab: seq<Rs>, received: seq<byte>, pin: nat, size: nat, out: array<byte>, pout: nat,
                     ghost data: seq<byte>)
    returns (v: Verdict)
    requires ValidTab(tab) && 1 <= size && size + 16 <= BLOCK_SIZE
    requires pin + size + 16 <= |received| && pout + size <= out.Length
    modifies out
    ensures out[..pout] == old(out[..pout])
    ensures var c := Clearing(received[pin..pin + size + 16], size, 16);
      v == c.v && out[pout..pout + size] == DescrambledBytes(c.data)
    ensures |data| == size && WithinReach(ScrambledBytes(data), received[pin..pin + size + 16], 16) ==>
              out[pout..pout + size] == data
              && v == Returns(Distance(Encoded(ScrambledBytes(data), 16), received[pin..pin + size + 16]))
  {
    hide Encoded, ScrambledBytes, DescrambledBytes, WithinReach, Distance, ValidTab, Clearing;
    var plain;
    plain, v := DecodedBlock(tab, received[pin..pin + size + 16], size, data);
    Copy(plain, out, pout);
  }

  lemma DecodingAt(payload: seq<byte>, sizes: seq<nat>, rec: seq<byte>, i: nat, pin: nat, pout: nat,
                   out: seq<byte>, failed: bool, symbols: int, total: int)
    requires Decoding(payload, sizes, rec, i, pin, pout, out, failed, symbols, total) && i < |sizes|
    ensures pin + sizes[i] + 16 <= |rec| && pout + sizes[i] <= |payload| && sizes[i] + 16 <= BLOCK_SIZE
    ensures WithinReach(ScrambledBytes(payload[pout..pout + sizes[i]]), rec[pin..pin + sizes[i] + 16], 16)
  {
    hide Encoded, ScrambledBytes, WithinReach, Distance, ErrorCount, Total;
    ReachNext(payload, sizes, i, pout, rec[pin..]);
    assert rec[pin..][..sizes[i] + 16] == rec[pin..pin + sizes[i] + 16];
  }

  lemma DecodingNext(payload: seq<byte>, sizes: seq<nat>, rec: seq<byte>, i: nat, pin: nat, pout: nat,
                     out: seq<byte>, failed: bool, symbols: int, total: int, out': seq<byte>)
    requires Decoding(payload, sizes, rec, i, pin, pout, out, failed, symbols, total) && i < |sizes|
    requires pin + sizes[i] + 16 <= |rec| && pout + sizes[i] <= |payload| && sizes[i] + 16 <= BLOCK_SIZE
    requires |out'| == |out| && pout + sizes[i] <= |out'|
    requires out'[..pout] == out[..pout] && out'[pout..pout + sizes[i]] == payload[pout..pout + sizes[i]]
    ensures Decoding(payload, sizes, rec, i + 1, pin + sizes[i] + 16, pout + sizes[i], out', failed,
                     symbols + Distance(Encoded(ScrambledBytes(payload[pout..pout + sizes[i]]), 16),
                         rec[pin..pin + sizes[i] + 16]), total)
  {
    hide Encoded, ScrambledBytes, WithinReach, Distance, AllWithinReach, ErrorCount, Total;
    ReachNext(payload, sizes, i, pout, rec[pin..]);
    var n := sizes[i] + 16;
    assert rec[pin..][..n] == rec[pin..pin + n] && rec[pin..][n..] == rec[pin + n..];
    assert out'[..pout + sizes[i]] == out'[..pout] + out'[pout..pout + sizes[i]];
    assert payload[..pout + sizes[i]] == payload[..pout] + payload[pout..pout + sizes[i]];
  }

  // The bytes of n blocks of length k.
  function Span(n: nat, k: nat): nat {
    n * k
  }

  // One of the two loops of the decoder.
  method DecodeRun(tab: seq<Rs>, received: seq<byte>, out: array<byte>, count: nat, size: nat, pin0: nat, pout0: nat,
                   failed0: bool, symbols0: int, ghost payload: seq<byte>, ghost sizes: seq<nat>, ghost i: nat,
                       ghost total: int, ghost whole: Unpacked)
    returns (loops: bool, pin: nat, pout: nat, failed: bool, symbols: int)
    requires ValidTab(tab) && pin0 + Span(count, size + 16) <= |received| && pout0 + Span(count, size) <= out.Length
    requires count > 0 ==> 1 <= size && size + 16 <= BLOCK_SIZE
    requires i + count <= |sizes| && forall k :: i <= k < i + count ==> sizes[k] == size
    requires SoFar(received, sizes, i, pin0, failed0, symbols0, out[..pout0], whole)
    modifies out
    ensures !loops ==> pin == pin0 + Span(count, size + 16) && pout == pout0 + Span(count, size)
    ensures Decoding(payload, sizes, received, i, pin0, pout0, old(out[..]), failed0, symbols0, total) ==>
              !loops && Decoding(payload, sizes, received, i + count, pin, pout, out[..], failed, symbols, total)
    ensures loops ==> whole.Hung?
    ensures !loops ==> SoFar(received, sizes, i + count, pin, failed, symbols, out[..pout], whole)
  {
    hide Encoded, ScrambledBytes, ValidTab, Decoding, WithinReach, Distance, SoFar, Span;
    NoSpan(size);
    loops, pin, pout, failed, symbols := false, pin0, pout0, failed0, symbols0;
    ghost var good := Decoding(payload, sizes, received, i, pin0, pout0, out[..], failed0, symbols0, total);
    for b := 0 to count
      invariant pin == pin0 + Span(b, size + 16) && pout == pout0 + Span(b, size) <= out.Length && !loops
      invariant good ==> Decoding(payload, sizes, received, i + b, pin, pout, out[..], failed, symbols, total)
      invariant SoFar(received, sizes, i + b, pin, failed, symbols, out[..pout], whole)
    {
      RunRoom(b, count, size);
      loops, failed, symbols := DecodeNext(tab, received, out, size, pin, pout, failed, symbols, payload, sizes, i + b,
          total, whole);
      if loops {
        return;
      }
      pin, pout := pin + size + 16, pout + size;
    }
  }

  lemma Joined(failed: bool, symbols: int, sofar: seq<byte>, rec: seq<byte>, size: nat, data: seq<byte>, e: int)
    requires size <= |rec| <= BLOCK_SIZE && Clearing(rec, size, 16).v == Returns(e)
    requires data == DescrambledBytes(Clearing(rec, size, 16).data)
    ensures Join(Unpacked(failed, symbols, sofar), UnpackedBlock(rec, size))
         == Unpacked(failed || e < 0, symbols + e, sofar + data)
  {
    hide Clearing, DescrambledBytes;
  }

  lemma JoinedHung(u: Unpacked, rec: seq<byte>, size: nat, t: Unpacked)
    requires size <= |rec| <= BLOCK_SIZE && Clearing(rec, size, 16).v == Loops
    ensures Join(u, Join(UnpackedBlock(rec, size), t)) == Hung
  {
    hide Clearing, DescrambledBytes;
  }

  // One block of such a loop.
  method DecodeNext(tab: seq<Rs>, received: seq<byte>, out: array<byte>, size: nat, pin: nat, pout: nat, failed0: bool,
                    symbols0: int, ghost payload: seq<byte>, ghost sizes: seq<nat>, ghost i: nat, ghost total: int,
                    ghost whole: Unpacked)
    returns (loops: bool, failed: bool, symbols: int)
    requires ValidTab(tab) && pin + size + 16 <= |received| && pout + size <= out.Length
    requires 1 <= size && size + 16 <= BLOCK_SIZE && i < |sizes| && sizes[i] == size
    requires SoFar(received, sizes, i, pin, failed0, symbols0, out[..pout], whole)
    modifies out
    ensures Decoding(payload, sizes, received, i, pin, pout, old(out[..]), failed0, symbols0, total) ==>
              && !loops
              && Decoding(payload, sizes, received, i + 1, pin + size + 16, pout + size, out[..], failed, symbols,
                  total)
    ensures loops ==> whole.Hung?
    ensures !loops ==>
      SoFar(received, sizes, i + 1, pin + size + 16, failed, symbols, out[..pout + size], whole)
  {
    hide Encoded, ScrambledBytes, DescrambledBytes, ValidTab, Decoding, WithinReach, Distance, Clearing, Rest, Ahead,
        Join;
    loops, failed, symbols := false, failed0, symbols0;
    ghost var was, data := out[..], [];
    ghost var good := Decoding(payload, sizes, received, i, pin, pout, was, failed, symbols, total);
    if good {
      DecodingAt(payload, sizes, received, i, pin, pout, was, failed, symbols, total);
      data := payload[pout..pout + size];
    }
    AheadNext(received, sizes, i, pin);
    var v := DecodeBlock(tab, received, pin, size, out, pout, data);
    if v.Loops? {
      JoinedHung(Unpacked(failed0, symbols0, was[..pout]), received[pin..pin + size + 16], size,
          Rest(received, sizes, i + 1, pin + size + 16));
      loops := true;
      return;
    }
    assert out[..][..pout] == was[..pout] && out[..][pout..pout + size] == out[pout..pout + size];
    if good {
      DecodingNext(payload, sizes, received, i, pin, pout, was, failed, symbols, total, out[..]);
    }
    if v.e < 0 {
      failed := true;
    }
    symbols := symbols + v.e;
    assert out[..pout + size] == was[..pout] + out[pout..pout + size];
    Joined(failed0, symbols0, was[..pout], received[pin..pin + size + 16], size, out[pout..pout + size], v.e);
    JoinAssoc(Unpacked(failed0, symbols0, was[..pout]), UnpackedBlock(received[pin..pin + size + 16], size),
        Rest(received, sizes, i + 1, pin + size + 16));
  }

  lemma RunRoom(b: nat, count: nat, size: nat)
    requires b < count
    ensures Span(b + 1, size + 16) == Span(b, size + 16) + size + 16 <= Span(count, size + 16)
    ensures Span(b + 1, size) == Span(b, size) + size <= Span(count, size)
  {
    assert (b + 1) * (size + 16) <= count * (size + 16);
    assert (b + 1) * size <= count * size;
  }

  lemma NoSpan(size: nat)
    ensures Span(0, size) == Span(0, size + 16) == 0
  {
  }

  /** rec holds the blocks of the payload, each with at most eight wrong symbols. */
  ghost predicate Decodable(payload: seq<byte>, rec: seq<byte>, p: Properties)
  {
    && Partition(p, |payload|) && Fits(Sizes(p)) && Total(Sizes(p)) == |payload|
    && AllWithinReach(payload, rec, Sizes(p))
  }

  ghost function SymbolErrors(payload: seq<byte>, rec: seq<byte>, p: Properties): nat
    requires Decodable(payload, rec, p)
  {
    ErrorCount(payload, rec, Sizes(p))
  }

  lemma DecodingStart(payload: seq<byte>, rec: seq<byte>, p: Properties, out: seq<byte>, symbols: int)
    requires Decodable(payload, rec, p)
    ensures Decoding(payload, Sizes(p), rec, 0, 0, 0, out, false, symbols, symbols + SymbolErrors(payload, rec, p))
  {
    hide AllWithinReach, ErrorCount, Total;
    var sizes := Sizes(p);
    assert sizes[0..] == sizes && payload[0..] == payload && rec[0..] == rec;
  }

  lemma DecodingEnd(payload: seq<byte>, sizes: seq<nat>, rec: seq<byte>, pin: nat, pout: nat,
                    out: seq<byte>, failed: bool, symbols: int, total: int)
    requires Decoding(payload, sizes, rec, |sizes|, pin, pout, out, failed, symbols, total)
    ensures pout == |payload| <= |out| && out[..pout] == payload && !failed && symbols == total
  {
    assert sizes[|sizes|..] == [];
  }

  /** il2p_decode_payload: the payload size, or an error code, the payload in payloadOut, and the
      number of symbols corrected added to the count. */
  method Il2pDecodePayload(tab: seq<Rs>, received: seq<byte>, payloadSize: int, payloadOut: array<byte>, symbols0: int,
                           ghost payload: seq<byte>)
    returns (v: Verdict, symbols: int, ghost p: Properties)
    requires ValidTab(tab) && |received| >= MAX_ENCODED_PAYLOAD_SIZE && payloadOut.Length >= MAX_PAYLOAD_SIZE
    modifies payloadOut
    ensures payloadSize < 0 || payloadSize > MAX_PAYLOAD_SIZE ==> v == Returns(-1)
    ensures payloadSize == 0 ==> v == Returns(0)
    ensures 1 <= payloadSize <= MAX_PAYLOAD_SIZE ==>
              Partition(p, payloadSize) && payloadSize + 16 * p.blockCount <= |received|
    ensures 1 <= payloadSize <= MAX_PAYLOAD_SIZE && v.Returns? ==> v.e == payloadSize || v.e == -2
    ensures 1 <= payloadSize <= MAX_PAYLOAD_SIZE ==>
              && p == Layout(payloadSize) && Fits(Sizes(p)) && Total(Sizes(p)) == payloadSize
    ensures 1 <= payloadSize <= MAX_PAYLOAD_SIZE ==>
      match Unpacking(received[..payloadSize + 16 * p.blockCount], Sizes(p))
      case Hung => v == Loops
      case Unpacked(failed, n, data) =>
        v == Returns(if failed then -2 else payloadSize) && symbols == symbols0 + n && payloadOut[..payloadSize] == data
    ensures 1 <= |payload| == payloadSize <= MAX_PAYLOAD_SIZE ==>
      var rec := received[..payloadSize + 16 * p.blockCount];
      Decodable(payload, rec, p) ==>
        && v == Returns(payloadSize) && payloadOut[..payloadSize] == payload
        && symbols == symbols0 + SymbolErrors(payload, rec, p)
  {
    hide ValidTab, Repeat, Decodable, Decoding, SymbolErrors, Unpacking, Ahead, Sizes, Fits, Total, Layout;
    var ipp, e := PayloadCompute(payloadSize);
    p, symbols := ipp, symbols0;
    if e <= 0 {
      return Returns(e), symbols, p;
    }
    PartitionUnique(p, Layout(payloadSize), payloadSize);
    PartitionSizes(p, payloadSize);
    v, symbols := DecodeBlocks(tab, received[..payloadSize + 16 * ipp.blockCount], payloadSize, ipp, payloadOut,
        symbols0, payload);
  }

  // The two loops of il2p_decode_payload.
  method DecodeBlocks(tab: seq<Rs>, rec: seq<byte>, payloadSize: nat, ipp: Properties, payloadOut: array<byte>,
                      symbols0: int, ghost payload: seq<byte>)
    returns (v: Verdict, symbols: int)
    requires ValidTab(tab) && 1 <= payloadSize <= MAX_PAYLOAD_SIZE && Partition(ipp, payloadSize)
    requires |rec| == payloadSize + 16 * ipp.blockCount && payloadOut.Length >= MAX_PAYLOAD_SIZE
    requires Fits(Sizes(ipp)) && Total(Sizes(ipp)) == payloadSize
    modifies payloadOut
    ensures match Unpacking(rec, Sizes(ipp))
      case Hung => v == Loops
      case Unpacked(failed, n, data) =>
        v == Returns(if failed then -2 else payloadSize) && symbols == symbols0 + n && payloadOut[..payloadSize] == data
    ensures |payload| == payloadSize && Decodable(payload, rec, ipp) ==>
        && v == Returns(payloadSize) && payloadOut[..payloadSize] == payload
        && symbols == symbols0 + SymbolErrors(payload, rec, ipp)
  {
    hide ValidTab, Repeat, Decodable, Decoding, SymbolErrors, Unpacking, SoFar, Join, Fits, Total, Sizes, Partition,
        Span;
    SizesAre(ipp, payloadSize);
    ghost var sizes, total := Sizes(ipp), 0;
    ghost var whole := Join(Unpacked(false, symbols0, []), Unpacking(rec, sizes));
    ghost var good := |payload| == payloadSize && Decodable(payload, rec, ipp);
    if good {
      total := symbols0 + SymbolErrors(payload, rec, ipp);
      DecodingStart(payload, rec, ipp, payloadOut[..], symbols0);
    }
    RoomForAll(ipp, payloadSize);
    Begun(rec, sizes, symbols0);
    assert payloadOut[..0] == [];
    symbols := symbols0;
    var loops, pin, pout, failed;
    loops, pin, pout, failed, symbols :=
      DecodeRun(tab, rec, payloadOut, ipp.largeCount, ipp.largeSize, 0, 0, false, symbols, payload, sizes, 0, total,
          whole);
    if loops {
      HungWhole(symbols0, Unpacking(rec, sizes));
      return Loops, symbols;
    }
    loops, pin, pout, failed, symbols :=
      DecodeRun(tab, rec, payloadOut, ipp.smallCount, ipp.smallSize, pin, pout, failed, symbols, payload, sizes,
          ipp.largeCount, total, whole);
    if loops {
      HungWhole(symbols0, Unpacking(rec, sizes));
      return Loops, symbols;
    }
    if good {
      DecodingEnd(payload, sizes, rec, pin, pout, payloadOut[..], failed, symbols, total);
      assert payloadOut[..][..pout] == payloadOut[..pout];
    }
    Ended(rec, sizes, pin, failed, symbols, payloadOut[..pout], symbols0);
    v := Returns(if failed then -2 else pout);
  }

  lemma SizesAre(p: Properties, size: nat)
    requires Partition(p, size)
    ensures |Sizes(p)| == p.largeCount + p.smallCount == p.blockCount
    ensures forall k :: 0 <= k < p.largeCount ==> Sizes(p)[k] == p.largeSize
    ensures forall k :: p.largeCount <= k < p.largeCount + p.smallCount ==> Sizes(p)[k] == p.smallSize
    ensures p.largeCount > 0 ==> 1 <= p.largeSize && p.largeSize + 16 <= BLOCK_SIZE
    ensures p.smallCount > 0 ==> 1 <= p.smallSize && p.smallSize + 16 <= BLOCK_SIZE
  {
    hide Repeat;
  }

  lemma Begun(rec: seq<byte>, sizes: seq<nat>, symbols0: int)
    requires Fits(sizes) && |rec| >= Total(sizes) + 16 * |sizes|
    ensures SoFar(rec, sizes, 0, 0, false, symbols0, [], Join(Unpacked(false, symbols0, []), Unpacking(rec, sizes)))
  {
    hide Unpacking, Join;
    assert sizes[0..] == sizes && rec[0..] == rec;
  }

  lemma Ended(rec: seq<byte>, sizes: seq<nat>, pin: nat, failed: bool, symbols: int, data: seq<byte>, symbols0: int)
    requires Fits(sizes) && |rec| >= Total(sizes) + 16 * |sizes|
    requires SoFar(rec, sizes, |sizes|, pin, failed, symbols, data,
        Join(Unpacked(false, symbols0, []), Unpacking(rec, sizes)))
    ensures Unpacking(rec, sizes) == Unpacked(failed, symbols - symbols0, data)
  {
    assert sizes[|sizes|..] == [];
    JoinAssoc(Unpacked(failed, symbols, data), Hung, Unpacked(failed, symbols, data));
    hide Unpacking;
    var u := Unpacking(rec, sizes);
    if u.Unpacked? {
      assert [] + u.data == u.data;
    }
  }

  lemma HungWhole(symbols0: int, u: Unpacked)
    ensures Join(Unpacked(false, symbols0, []), u).Hung? ==> u.Hung?
  {
  }

  lemma RoomForAll(p: Properties, size: nat)
    requires Partition(p, size)
    ensures Span(p.largeCount, p.largeSize + 16) + Span(p.smallCount, p.smallSize + 16) == size + 16 * p.blockCount
    ensures Span(p.largeCount, p.largeSize) + Span(p.smallCount, p.smallSize) == size
  {
    SpanMore(p.largeCount, p.largeSize);
    SpanMore(p.smallCount, p.smallSize);
    assert Span(p.largeCount, p.largeSize) + Span(p.smallCount, p.smallSize) == size;
    hide Span;
  }

  lemma SpanMore(n: nat, k: nat)
    ensures Span(n, k + 16) == Span(n, k) + 16 * n
  {
  }

  /** An undisturbed encoded payload is decodable, with no symbol errors. */
  lemma CleanPayload(payload: seq<byte>, p: Properties)
    requires Partition(p, |payload|)
    ensures Fits(Sizes(p)) && Total(Sizes(p)) == |payload|
    ensures Decodable(payload, EncodedBlocks(payload, Sizes(p)), p)
    ensures SymbolErrors(payload, EncodedBlocks(payload, Sizes(p)), p) == 0
  {
    PartitionSizes(p, |payload|);
    CleanBlocks(payload, Sizes(p));
  }

  lemma {:induction false} CleanBlocks(payload: seq<byte>, sizes: seq<nat>)
    requires Fits(sizes) && Total(sizes) == |payload|
    ensures AllWithinReach(payload, EncodedBlocks(payload, sizes), sizes)
    ensures ErrorCount(payload, EncodedBlocks(payload, sizes), sizes) == 0
    decreases |sizes|
  {
    hide Encoded, ScrambledBytes;
    if sizes == [] {
    } else {
      var k := sizes[0];
      var block, rec := Encoded(ScrambledBytes(payload[..k]), 16), EncodedBlocks(payload, sizes);
      CleanBlocks(payload[k..], sizes[1..]);
      assert rec[..k + 16] == block && rec[k + 16..] == EncodedBlocks(payload[k..], sizes[1..]);
      SameDistance(block);
    }
  }
}
