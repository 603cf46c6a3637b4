/** The sending side of a data link: the window, the frames not yet acknowledged, the queue. */
module LinkSender {
  import opened Gf256
  import opened Ax25Pad

  const SLOTS := 128

  datatype Data = Data(pid: byte, info: seq<byte>)

  /** Data that fits in a frame. */
  type Sendable = d: Data | |d.info| + 16 <= MAX_PACKET_LEN witness Data(0, [])

  datatype Slot<T> = Empty | Full(value: T)

  /** AX25MODULO */
  function Modulo(n: int): (r: nat)
    ensures r < 8 && (0 <= n < 8 ==> r == n)
  {
    n % 8
  }

  // ---------- counting modulo eight ----------

  lemma ModStep(n: nat)
    ensures (n + 1) % 8 == (n % 8 + 1) % 8
  {
  }

  /** Numbers less than eight apart are equal when they are congruent. */
  lemma ModClose(a: nat, b: nat)
    requires a <= b < a + 8 && a % 8 == b % 8
    ensures a == b
  {
  }

  lemma ModApart(a: nat, b: nat)
    requires a < b < a + 8
    ensures a % 8 != b % 8
  {
  }

  lemma ModDistance(a: nat, b: nat)
    requires a <= b < a + 8
    ensures (b % 8 - a % 8) % 8 == b - a
  {
  }

  /** Counting down from n - 1, the residue d + 1 steps below n. */
  function Below(n: nat, d: nat): (x: nat)
    ensures x < 8
  {
    (n - 1 - d) % 8
  }

  lemma BelowStep(n: nat, d: nat)
    ensures Below(n, d + 1) == (Below(n, d) - 1) % 8
  {
    ModLess(n - 1 - d);
  }

  lemma ModLess(x: int)
    ensures (x - 1) % 8 == (x % 8 - 1) % 8
  {
    var q, r := x / 8, x % 8;
    assert x == 8 * q + r;
  }

  lemma BelowDistinct(n: nat, d: nat, e: nat)
    requires d < e < d + 8
    ensures Below(n, d) != Below(n, e)
  {
  }

  /** Every slot is reached on the way down. */
  lemma BelowReaches(n: nat, x: nat) returns (d: nat)
    requires x < 8
    ensures d < 8 && Below(n, d) == x
  {
    d := (n - 1 - x) % 8;
  }

  // ---------- is_good_nr ----------

  predicate IsGoodNr(va: nat, vs: nat, nr: nat)
  {
    Modulo(nr - va) <= Modulo(vs - va)
  }

  /** The number between the acknowledged and the sent count that nr stands for. */
  ghost function Acknowledged(acked: nat, nr: nat): (n: nat)
    requires nr < 8
    ensures acked <= n < acked + 8
  {
    acked + Modulo(nr - acked % 8)
  }

  /** An acknowledgement is good exactly when one and only one number from the acknowledged count
      up to the sent count is congruent to it. */
  lemma GoodNrExact(acked: nat, sent: nat, nr: nat)
    requires acked <= sent < acked + 8 && nr < 8
    ensures IsGoodNr(acked % 8, sent % 8, nr) <==> exists n: nat :: InWindow(acked, sent, nr, n)
    ensures forall m: nat, n: nat :: InWindow(acked, sent, nr, m) && InWindow(acked, sent, nr, n) ==> m == n
    ensures IsGoodNr(acked % 8, sent % 8, nr) ==> InWindow(acked, sent, nr, Acknowledged(acked, nr))
  {
    ModDistance(acked, sent);
    CongruentTo(acked, nr);
    var n := Acknowledged(acked, nr);
    if n <= sent {
      assert InWindow(acked, sent, nr, n);
    }
    forall m: nat | InWindow(acked, sent, nr, m)
      ensures m == n
    {
      if m <= n { ModClose(m, n); } else { ModClose(n, m); }
    }
  }

  lemma CongruentTo(acked: nat, nr: nat)
    requires nr < 8
    ensures Acknowledged(acked, nr) % 8 == nr
  {
  }

  lemma WithinEight(acked: nat, nr: nat)
    requires nr < 8
    ensures Acknowledged(acked, nr) < acked + 8
  {
  }

  lemma GoodAtVs(va: nat, vs: nat)
    ensures IsGoodNr(va, vs, vs)
  {
  }

  // The number after fewer than eight others is none of them.
  lemma NotAmong(lo: nat, hi: nat)
    requires lo <= hi < lo + 8
    ensures !IsNumbered(hi % 8, lo, hi)
  {
  }

  ghost predicate InWindow(acked: nat, sent: nat, nr: nat, n: nat)
  {
    acked <= n <= sent && n % 8 == nr
  }

  // ---------- the sender ----------

  /** What has been sent under the numbers from lo on and is not to be forgotten. */
  ghost predicate Kept(slots: seq<Slot<Sendable>>, sent: seq<Sendable>, lo: nat)
    requires |slots| == SLOTS
  {
    forall n :: lo <= n < |sent| ==> slots[n % 8] == Full(sent[n])
  }

  /** The residue of a number from lo up to hi. */
  ghost predicate IsNumbered(x: nat, lo: nat, hi: nat)
  {
    exists n: nat :: lo <= n < hi && n % 8 == x
  }

  /** The slots of the numbers from lo up to hi have been emptied, and no other slot has changed. */
  ghost predicate Released(was: seq<Slot<Sendable>>, slots: seq<Slot<Sendable>>, lo: nat, hi: nat)
  {
    && |was| == |slots| == SLOTS
    && forall x :: 0 <= x < SLOTS ==> slots[x] == if IsNumbered(x, lo, hi) then Empty else was[x]
  }

  /** The slot is one of the unbroken run of filled slots just below n. */
  ghost predicate InRunBelow(was: seq<Slot<Sendable>>, n: nat, x: nat)
    requires |was| == SLOTS
  {
    exists d :: 0 <= d < 8 && x == Below(n, d) && forall e :: 0 <= e <= d ==> was[Below(n, e)].Full?
  }

  /** The run of filled slots just below n has been emptied, and no other slot has changed. */
  ghost predicate Walked(was: seq<Slot<Sendable>>, slots: seq<Slot<Sendable>>, n: nat)
  {
    && |was| == |slots| == SLOTS
    && forall x :: 0 <= x < SLOTS ==> slots[x] == if InRunBelow(was, n, x) then Empty else was[x]
  }

  /** When the first slot below n is empty, nothing is emptied. */
  lemma WalkedNowhere(was: seq<Slot<Sendable>>, slots: seq<Slot<Sendable>>, n: nat)
    requires Walked(was, slots, n) && was[Below(n, 0)].Empty?
    ensures slots == was
  {
    hide Below;
    forall x | 0 <= x < SLOTS
      ensures !InRunBelow(was, n, x)
    {
    }
  }

  lemma ReleasedSame(was: seq<Slot<Sendable>>, slots: seq<Slot<Sendable>>, lo: nat)
    requires Released(was, slots, lo, lo)
    ensures slots == was
  {
  }

  lemma ReleasedNone(was: seq<Slot<Sendable>>, lo: nat)
    requires |was| == SLOTS
    ensures Released(was, was, lo, lo)
  {
  }

  class Sender {
    var vs: nat
    var va: nat
    var kMaxframe: nat
    var queue: seq<Sendable> // i_frame_queue
    const txdataByNs: array<Slot<Sendable>>
    ghost var sent: seq<Sendable> // everything sent since the last reset, by number
    ghost var acked: nat // how many of them are acknowledged

    /** V(S) and V(A) count modulo eight; no more than k frames are outstanding, each still at
        hand in its slot, and the slot below V(A) is empty. */
    ghost predicate Valid()
      reads this, txdataByNs
    {
      && txdataByNs.Length == SLOTS && kMaxframe <= 7
      && acked <= |sent| <= acked + kMaxframe
      && vs == |sent| % 8 && va == acked % 8
      && Kept(txdataByNs[..], sent, acked)
      && txdataByNs[Below(va, 0)].Empty?
    }

    /** Exactly the slots of the frames newly acknowledged have been emptied. */
    twostate predicate OnlyFreed()
      reads this, txdataByNs
    {
      old(acked) <= acked && Released(old(txdataByNs[..]), txdataByNs[..], old(acked), acked)
    }

    ghost predicate Outstanding()
      reads this
    {
      acked < |sent|
    }

    constructor ()
      ensures Valid() && fresh(txdataByNs) && queue == [] && sent == [] && acked == 0 && kMaxframe == 0
    {
      vs, va, kMaxframe, queue, sent, acked := 0, 0, 0, [], [], 0;
      txdataByNs := new Slot<Sendable>[SLOTS](_ => Empty);
    }

    predicate WithinWindowSize()
      reads this
    {
      vs != Modulo(va + kMaxframe)
    }

    /** The window test is true exactly when fewer than k frames are outstanding. */
    lemma WindowExact()
      requires Valid()
      ensures WithinWindowSize() <==> |sent| < acked + kMaxframe
      ensures vs == va <==> !Outstanding()
    {
      ModDistance(acked, |sent|);
      WindowTop(acked, kMaxframe);
      if vs == Modulo(va + kMaxframe) {
        ModClose(|sent|, acked + kMaxframe);
      }
      if vs == va {
        ModClose(acked, |sent|);
      }
    }

    /** Take the head of the queue, give it the number V(S) and keep it for sending again. */
    method SendNext() returns (ns: nat, d: Sendable)
      requires Valid() && queue != [] && WithinWindowSize()
      modifies this`queue, this`vs, this`sent, txdataByNs
      ensures Valid()
      ensures ns == old(vs) && d == old(queue)[0] && queue == old(queue)[1..] && sent == old(sent) + [d]
      ensures ns < 8 && txdataByNs[..] == old(txdataByNs[..])[ns := Full(d)]
    {
      WindowExact();
      d := queue[0];
      queue := queue[1..];
      ns := vs;
      ghost var was := txdataByNs[..];
      txdataByNs[ns] := Full(d);
      vs := Modulo(vs + 1);
      sent := sent + [d];
      KeptNext(was, old(sent), acked, d);
      assert txdataByNs[..] == was[ns := Full(d)];
      NotBelow(acked, |old(sent)|, va);
      ModStep(|old(sent)|);
    }

    /** The loop of SET_VA: empty the slots downwards from n - 1, as far as they are filled. */
    method FreeBelow(n: nat) returns (ghost freed: nat)
      requires n < 8 && txdataByNs.Length == SLOTS
      requires exists x :: 0 <= x < 8 && txdataByNs[x].Empty?
      modifies txdataByNs
      ensures freed < 8 && old(txdataByNs[Below(n, freed)]).Empty?
      ensures forall d :: 0 <= d < freed ==> old(txdataByNs[Below(n, d)]).Full? && txdataByNs[Below(n, d)].Empty?
      ensures forall d :: freed <= d < 8 ==> txdataByNs[Below(n, d)] == old(txdataByNs[Below(n, d)])
      ensures forall x :: 8 <= x < SLOTS ==> txdataByNs[x] == old(txdataByNs[x])
      ensures txdataByNs[Below(n, 0)].Empty?
    {
      hide Below;
      var x: int := Modulo(n - 1);
      freed := 0;
      ghost var e :| 0 <= e < 8 && txdataByNs[e].Empty?;
      ghost var depth := BelowReaches(n, e);
      FirstBelow(n);
      while txdataByNs[x].Full?
        invariant x == Below(n, freed) && freed <= depth && txdataByNs[Below(n, depth)].Empty?
        invariant forall d :: 0 <= d < freed ==> old(txdataByNs[Below(n, d)]).Full? && txdataByNs[Below(n, d)].Empty?
        invariant forall d :: freed <= d < 8 ==> txdataByNs[Below(n, d)] == old(txdataByNs[Below(n, d)])
        invariant forall x :: 8 <= x < SLOTS ==> txdataByNs[x] == old(txdataByNs[x])
        decreases depth - freed
      {
        BelowOthers(n, freed);
        txdataByNs[x] := Empty;
        BelowStep(n, freed);
        x := Modulo(x - 1);
        freed := freed + 1;
      }
    }

    /** SET_VA with a good acknowledgement: V(A) moves forward to the number acknowledged, and
        exactly the frames from the old V(A) up to it are let go. */
    method SetVA(nr: nat)
      requires Valid() && nr < 8 && IsGoodNr(va, vs, nr)
      modifies this`va, this`acked, txdataByNs
      ensures Valid() && va == nr && acked == Acknowledged(old(acked), nr)
      ensures Released(old(txdataByNs[..]), txdataByNs[..], old(acked), acked)
    {
      hide IsGoodNr, Below, Modulo, Acknowledged;
      GoodNrExact(acked, |sent|, nr);
      ghost var was, from, target := txdataByNs[..], acked, Acknowledged(acked, nr);
      BelowLess(va);
      va := nr;
      ghost var freed := FreeBelow(nr);
      acked := target;
      FreedExactly(was, txdataByNs[..], sent, from, target, freed);
    }

    /** SET_VS(0) and SET_VA(0): numbering starts again; what was outstanding is given up. */
    method Reset()
      requires Valid()
      modifies this`vs, this`va, this`sent, this`acked, txdataByNs
      ensures Valid() && sent == [] && acked == 0
      ensures Walked(old(txdataByNs[..]), txdataByNs[..], 0)
      ensures old(txdataByNs[7]).Empty? ==> txdataByNs[..] == old(txdataByNs[..])
    {
      hide InRunBelow;
      BelowLess(va);
      vs := 0;
      va := 0;
      ghost var was := txdataByNs[..];
      ghost var freed := FreeBelow(0);
      WalkedDown(was, txdataByNs[..], 0, freed);
      if was[7].Empty? {
        WalkedNowhere(was, txdataByNs[..], 0);
      }
      sent, acked := [], 0;
    }

    /** set_version_2_0, as far as it concerns the window. */
    method SetWindow(k: nat)
      requires Valid() && kMaxframe <= k <= 7
      modifies this`kMaxframe
      ensures Valid() && kMaxframe == k
    {
      kMaxframe := k;
    }

    /** discard_i_queue */
    method DiscardQueue()
      modifies this`queue
      ensures queue == [] && (old(Valid()) ==> Valid())
    {
      while queue != []
        invariant old(Valid()) ==> Valid()
        decreases |queue|
      {
        queue := queue[1..];
      }
    }

    method Enqueue(d: Sendable)
      modifies this`queue
      ensures queue == old(queue) + [d] && (old(Valid()) ==> Valid())
    {
      queue := queue + [d];
    }
  }

  lemma WindowTop(acked: nat, k: nat)
    ensures (acked % 8 + k) % 8 == (acked + k) % 8
  {
  }

  lemma BelowLess(n: nat)
    ensures Below(n, 0) < 8
  {
  }

  lemma FirstBelow(n: nat)
    ensures Below(n, 0) == Modulo(n - 1)
  {
  }

  lemma BelowOthers(n: nat, d: nat)
    requires d < 8
    ensures forall e :: 0 <= e < 8 && e != d ==> Below(n, e) != Below(n, d)
  {
    forall e | 0 <= e < 8 && e != d
      ensures Below(n, e) != Below(n, d)
    {
      if e < d { BelowDistinct(n, e, d); } else { BelowDistinct(n, d, e); }
    }
  }

  lemma KeptNext(slots: seq<Slot<Sendable>>, sent: seq<Sendable>, lo: nat, d: Sendable)
    requires |slots| == SLOTS && lo <= |sent| < lo + 8 && Kept(slots, sent, lo)
    ensures Kept(slots[|sent| % 8 := Full(d)], sent + [d], lo)
  {
    forall n | lo <= n < |sent|
      ensures n % 8 != |sent| % 8
    {
      if n % 8 == |sent| % 8 {
        ModClose(n, |sent|);
      }
    }
  }

  // V(S) is not the slot below V(A) as long as fewer than seven frames are outstanding.
  lemma NotBelow(acked: nat, sent: nat, va: nat)
    requires acked <= sent < acked + 7 && va == acked % 8
    ensures sent % 8 != Below(va, 0)
  {
  }

  // Emptying downwards from nr frees the numbers from the old V(A) on and stops there.
  lemma FreedExactly(was: seq<Slot<Sendable>>, slots: seq<Slot<Sendable>>, sent: seq<Sendable>, from: nat, target: nat,
                     freed: nat)
    requires |was| == |slots| == SLOTS && from <= target <= |sent| <= from + 7 && freed < 8
    requires Kept(was, sent, from) && was[Below(from % 8, 0)].Empty?
    requires was[Below(target % 8, freed)].Empty?
    requires forall d :: 0 <= d < freed ==> was[Below(target % 8, d)].Full? && slots[Below(target % 8, d)].Empty?
    requires forall d :: freed <= d < 8 ==> slots[Below(target % 8, d)] == was[Below(target % 8, d)]
    requires forall x :: 8 <= x < SLOTS ==> slots[x] == was[x]
    ensures freed == target - from && Kept(slots, sent, target)
    ensures Released(was, slots, from, target)
  {
    hide Below;
    forall n | from <= n < |sent|
      ensures n < target ==> n % 8 == Below(target % 8, target - 1 - n)
      ensures n >= target ==> n % 8 == Below(target % 8, target + 7 - n)
    {
      NumberBelow(target, n);
    }
    EndBelow(from, target);
    if freed < target - from {
      NumberBelow(target, target - 1 - freed);
    }
    forall n | from <= n < target
      ensures slots[n % 8].Empty?
    {
      NumberBelow(target, n);
    }
    forall x | 0 <= x < 8 && !IsNumbered(x, from, target)
      ensures slots[x] == was[x]
    {
      var d := BelowReaches(target % 8, x);
      if d < target - from {
        NumberAt(target, d);
        assert false;
      }
    }
  }

  // What is emptied on the way down is the run below n.
  lemma WalkedDown(was: seq<Slot<Sendable>>, slots: seq<Slot<Sendable>>, n: nat, freed: nat)
    requires |was| == |slots| == SLOTS && freed < 8 && was[Below(n, freed)].Empty?
    requires forall d :: 0 <= d < freed ==> was[Below(n, d)].Full? && slots[Below(n, d)].Empty?
    requires forall d :: freed <= d < 8 ==> slots[Below(n, d)] == was[Below(n, d)]
    requires forall x :: 8 <= x < SLOTS ==> slots[x] == was[x]
    ensures Walked(was, slots, n)
  {
    hide Below;
    forall x: nat | x < SLOTS
      ensures slots[x] == if InRunBelow(was, n, x) then Empty else was[x]
    {
      if x < 8 {
        var d := BelowReaches(n, x);
        RunAt(was, n, d, freed);
      } else {
        BelowSmall(n);
      }
    }
  }

  lemma BelowSmall(n: nat)
    ensures forall d: nat :: Below(n, d) < 8
  {
  }

  lemma RunAt(was: seq<Slot<Sendable>>, n: nat, d: nat, freed: nat)
    requires |was| == SLOTS && d < 8 && freed < 8 && was[Below(n, freed)].Empty?
    requires forall e :: 0 <= e < freed ==> was[Below(n, e)].Full?
    ensures InRunBelow(was, n, Below(n, d)) <==> d < freed
  {
    hide Below;
    BelowOthers(n, d);
  }

  lemma NumberBelow(target: nat, n: nat)
    requires n < target + 8 && target <= n + 8
    ensures n < target ==> n % 8 == Below(target % 8, target - 1 - n)
    ensures n >= target ==> n % 8 == Below(target % 8, target + 7 - n)
  {
  }

  lemma EndBelow(from: nat, target: nat)
    requires from <= target
    ensures Below(from % 8, 0) == Below(target % 8, target - from)
  {
  }

  lemma NumberAt(target: nat, d: nat)
    requires d < target
    ensures Below(target % 8, d) == (target - 1 - d) % 8
  {
  }
}
