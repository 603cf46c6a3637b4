/** The receiving side of a data link: the next number expected and the frames that came early. */
module LinkReceiver {
  import opened Gf256
  import opened LinkSender

  /** is_ns_in_window. The sum with 63 is taken modulo eight, so the window ends just before V(R) - 1. */
  predicate IsNsInWindow(vr: nat, ns: nat)
  {
    0 < Modulo(ns - vr) && Modulo(ns - vr) < Modulo(vr + 63 - vr)
  }

  /** Any number but the one expected and the one before it is taken to be ahead. */
  lemma InWindowExact(vr: nat, ns: nat)
    requires vr < 8 && ns < 8
    ensures IsNsInWindow(vr, ns) <==> ns != vr && ns != (vr + 7) % 8
    ensures ns == Modulo(vr + Modulo(ns - vr))
  {
  }

  /** The slot of number c + j. */
  function Ahead(c: nat, j: nat): (x: nat)
    ensures x < 8
  {
    (c + j) % 8
  }

  /** The data waiting in an unbroken run of slots from that of number c + j on. */
  ghost function Waiting(slots: seq<Slot<Data>>, c: nat, j: nat): seq<Data>
    requires |slots| == SLOTS
    decreases 8 - j
  {
    if j >= 8 || slots[Ahead(c, j)].Empty? then [] else [slots[Ahead(c, j)].value] + Waiting(slots, c, j + 1)
  }

  /** Of the eight slots from that of number c on, the first n are empty and the rest as they were. */
  ghost predicate Emptied(slots: seq<Slot<Data>>, was: seq<Slot<Data>>, c: nat, n: int)
    requires |slots| == |was| == SLOTS
  {
    forall j :: 0 <= j < 8 ==> slots[Ahead(c, j)] == if j < n then Empty else was[Ahead(c, j)]
  }

  /** The numbers just below ns, in order, that are missing: as many as there are in a row, down to
      V(R) at most, and never more than six. */
  ghost predicate IsMissingRun(ask: seq<nat>, slots: seq<Slot<Data>>, vr: nat, ns: nat)
    requires |slots| == SLOTS
  {
    && 1 <= |ask| <= Modulo(ns - vr) <= 6
    && (forall i :: 0 <= i < |ask| ==> ask[i] == Below(ns, |ask| - 1 - i) && slots[Below(ns, |ask| - 1 - i)].Empty?)
    && (|ask| == Modulo(ns - vr) || slots[Below(ns, |ask|)].Full?)
  }

  /** What is asked for, counted modulo eight: the numbers up to the one before N(S), none of them at hand, from
      V(R) on or from the one after the last that is at hand. */
  lemma MissingFigures(ask: seq<nat>, slots: seq<Slot<Data>>, vr: nat, ns: nat)
    requires |slots| == SLOTS && vr < 8 && ns < 8 && IsMissingRun(ask, slots, vr, ns)
    ensures 1 <= |ask| <= 6
    ensures forall i :: 0 <= i < |ask| ==> ask[i] == (ns + 8 - |ask| + i) % 8 && slots[ask[i]].Empty?
    ensures ask[0] == vr || slots[(ns + 7 - |ask|) % 8].Full?
  {
    forall i | 0 <= i < |ask|
      ensures ask[i] == (ns + 8 - |ask| + i) % 8 && slots[ask[i]].Empty?
    {
      assert ask[i] == Below(ns, |ask| - 1 - i);
    }
    assert Below(ns, |ask|) == (ns + 7 - |ask|) % 8;
    if |ask| == Modulo(ns - vr) {
      assert ask[0] == (ns + 8 - Modulo(ns - vr)) % 8 == vr;
    }
  }

  /** Each item handed up since the last reset came in a frame with the number then expected. */
  ghost predicate InOrder(delivered: seq<Data>, since: nat, accepted: set<(nat, Data)>)
  {
    since <= |delivered| && forall i :: since <= i < |delivered| ==> (Ahead(i - since, 0), delivered[i]) in accepted
  }

  ghost predicate FromFrames(slots: seq<Slot<Data>>, accepted: set<(nat, Data)>)
    requires |slots| == SLOTS
  {
    forall x :: 0 <= x < 8 && slots[x].Full? ==> (x, slots[x].value) in accepted
  }

  class Receiver {
    var vr: nat
    const rxdataByNs: array<Slot<Data>>
    var delivered: seq<Data> // handed to dl_data_indication, in this order
    ghost var since: nat // how much of that was before the last reset
    ghost var accepted: set<(nat, Data)> // N(S) and data of the frames taken since the last reset

    /** V(R) counts deliveries modulo eight, everything delivered came in order, and the slots of
        V(R) and of the number before it are empty. */
    ghost predicate Valid()
      reads this, rxdataByNs
    {
      && rxdataByNs.Length == SLOTS && InOrder(delivered, since, accepted)
      && vr == Ahead(|delivered| - since, 0)
      && FromFrames(rxdataByNs[..], accepted)
      && rxdataByNs[vr].Empty? && rxdataByNs[Below(vr, 0)].Empty?
    }

    /** What was handed up stays, and nothing is accepted but what is offered, unless numbering has
        started again. */
    twostate predicate Grows(offered: set<(nat, Data)>)
      reads this`delivered, this`since, this`accepted
    {
      && old(delivered) <= delivered
      && ((since == old(since) && accepted <= old(accepted) + offered)
          || (delivered == old(delivered) && since == |delivered| && accepted == {}))
    }

    /** Nothing has arrived. */
    twostate predicate Untouched()
      reads this, rxdataByNs
    {
      && vr == old(vr) && delivered == old(delivered) && since == old(since) && accepted == old(accepted)
      && rxdataByNs[..] == old(rxdataByNs[..])
    }

    /** No slot that is ever used is filled. */
    ghost predicate Bare()
      reads this, rxdataByNs
    {
      rxdataByNs.Length == SLOTS && forall x :: 0 <= x < 8 ==> rxdataByNs[x].Empty?
    }

    constructor ()
      ensures Valid() && Bare() && fresh(rxdataByNs) && delivered == [] && since == 0 && accepted == {}
    {
      vr, delivered, since, accepted := 0, [], 0, {};
      rxdataByNs := new Slot<Data>[SLOTS](_ => Empty);
    }

    /** Discard everything that came early. */
    method Clear()
      requires Valid()
      modifies rxdataByNs
      ensures Valid() && Bare()
    {
      for n := 0 to SLOTS
        invariant forall x :: 0 <= x < n ==> rxdataByNs[x].Empty?
      {
        if rxdataByNs[n].Full? {
          rxdataByNs[n] := Empty;
        }
      }
      BelowLess(vr);
    }

    /** SET_VR(0) when nothing is waiting: numbering starts again. */
    method Reset()
      requires Valid() && Bare()
      modifies this`vr, this`since, this`accepted
      ensures Valid() && vr == 0 && since == |delivered| && accepted == {}
    {
      vr := 0;
      since, accepted := |delivered|, {};
      BelowLess(vr);
    }

    /** A frame with the expected number: hand it up, and with it whatever waited next in line. */
    method Accept(d: Data)
      requires Valid()
      modifies this`vr, this`delivered, this`accepted, rxdataByNs
      ensures Valid() && accepted == old(accepted) + {(old(vr), d)}
      ensures delivered == old(delivered) + ([d] + Waiting(old(rxdataByNs[..]), old(|delivered| - since), 1))
      ensures Emptied(rxdataByNs[..], old(rxdataByNs[..]), old(|delivered| - since), |delivered| - old(|delivered|))
    {
      hide Below, Waiting, Ahead, FromFrames, InOrder;
      ghost var was, c := rxdataByNs[..], |delivered| - since;
      assert c >= 0 by { Counted(delivered, since, accepted); }
      var ns := vr;
      AheadStep(c, 0);
      AheadBelow(c);
      AcceptedMore(was, delivered, since, accepted, ns, d);
      accepted := accepted + {(ns, d)};
      vr := Modulo(vr + 1);
      delivered := delivered + [d];
      rxdataByNs[ns] := Empty; // in case anything is there
      assert rxdataByNs[..] == was;
      Drain(was, c);
      assert old(delivered) + [d] + Waiting(was, c, 1) == old(delivered) + ([d] + Waiting(was, c, 1));
    }

    /** The loop that follows. */
    method Drain(ghost was: seq<Slot<Data>>, ghost c: nat)
      requires rxdataByNs.Length == |was| == SLOTS && rxdataByNs[..] == was
      requires was[Ahead(c, 7)].Empty? && was[Ahead(c, 0)].Empty?
      requires InOrder(delivered, since, accepted) && |delivered| - since == c + 1 && vr == Ahead(c, 1)
      requires FromFrames(was, accepted)
      modifies this`vr, this`delivered, rxdataByNs
      ensures delivered == old(delivered) + Waiting(was, c, 1)
      ensures Valid() && Emptied(rxdataByNs[..], was, c, |delivered| - since - c)
    {
      hide Below, Waiting, Ahead, FromFrames, InOrder;
      ghost var i := 1;
      while rxdataByNs[vr].Full?
        invariant 1 <= i <= 7 && vr == Ahead(c, i)
        invariant forall j :: 0 <= j < i ==> rxdataByNs[Ahead(c, j)].Empty?
        invariant InOrder(delivered, since, accepted) && |delivered| - since == c + i
        invariant forall j :: i <= j < 8 ==> rxdataByNs[Ahead(c, j)] == was[Ahead(c, j)]
        invariant FromFrames(rxdataByNs[..], accepted)
        invariant delivered + Waiting(was, c, i) == old(delivered) + Waiting(was, c, 1)
        decreases 7 - i
      {
        DrainOne(was, c, i, old(delivered) + Waiting(was, c, 1));
        i := i + 1;
      }
      WaitingStep(was, c, i);
      AheadStep(c, i - 1);
      assert rxdataByNs[Ahead(c, i - 1)].Empty?;
    }

    // One round: hand up the next item and empty its slot.
    method DrainOne(ghost was: seq<Slot<Data>>, ghost c: nat, ghost i: nat, ghost all: seq<Data>)
      requires rxdataByNs.Length == |was| == SLOTS && 1 <= i <= 7 && vr == Ahead(c, i) && rxdataByNs[vr].Full?
      requires was[Ahead(c, 7)].Empty?
      requires InOrder(delivered, since, accepted) && |delivered| - since == c + i
      requires forall j :: i <= j < 8 ==> rxdataByNs[Ahead(c, j)] == was[Ahead(c, j)]
      requires FromFrames(rxdataByNs[..], accepted)
      requires delivered + Waiting(was, c, i) == all
      modifies this`vr, this`delivered, rxdataByNs
      ensures i < 7 && vr == Ahead(c, i + 1) && rxdataByNs[Ahead(c, i)].Empty?
      ensures forall j :: 0 <= j < i ==> rxdataByNs[Ahead(c, j)] == old(rxdataByNs[Ahead(c, j)])
      ensures InOrder(delivered, since, accepted) && |delivered| == old(|delivered|) + 1
      ensures forall j :: i < j < 8 ==> rxdataByNs[Ahead(c, j)] == was[Ahead(c, j)]
      ensures FromFrames(rxdataByNs[..], accepted)
      ensures delivered + Waiting(was, c, i + 1) == all
    {
      hide Below, Waiting, Ahead, FromFrames, InOrder;
      ghost var before, slots, d := delivered, rxdataByNs[..], rxdataByNs[vr].value;
      HandUp(slots, delivered, since, accepted, vr, c, i);
      WaitingStep(was, c, i);
      AheadStep(c, i);
      AheadOthers(c, i);
      delivered := delivered + [rxdataByNs[vr].value];
      rxdataByNs[vr] := Empty;
      assert rxdataByNs[..] == slots[vr := Empty];
      assert before + ([d] + Waiting(was, c, i + 1)) == delivered + Waiting(was, c, i + 1);
      vr := Modulo(vr + 1);
    }

    /** Keep a frame that came early. */
    method Store(ns: nat, d: Data)
      requires Valid() && ns < 8 && IsNsInWindow(vr, ns)
      modifies this`accepted, rxdataByNs
      ensures Valid() && accepted == old(accepted) + {(ns, d)}
      ensures rxdataByNs[..] == old(rxdataByNs[..])[ns := Full(d)]
    {
      InWindowExact(vr, ns);
      if rxdataByNs[ns].Full? {
        rxdataByNs[ns] := Empty;
      }
      accepted := accepted + {(ns, d)};
      rxdataByNs[ns] := Full(d);
    }

    /** The numbers to ask for again: exactly the longest run of missing frames just below ns. */
    method MissingBelow(ns: nat) returns (ask: seq<nat>)
      requires Valid() && ns < 8 && IsNsInWindow(vr, ns) && rxdataByNs[Below(ns, 0)].Empty?
      ensures IsMissingRun(ask, rxdataByNs[..], vr, ns)
    {
      hide Below, Valid;
      assert rxdataByNs.Length == SLOTS && vr < 8 by { Shape(); }
      ghost var o := Modulo(ns - vr);
      var last: int := Modulo(ns - 1);
      FirstBelow(ns);
      var first := last;
      ghost var n := 1;
      DownTo(vr, ns, 0);
      while first != vr && rxdataByNs[Modulo(first - 1)].Empty?
        invariant 1 <= n <= o && first == Below(ns, n - 1)
        invariant forall j :: 0 <= j < n ==> rxdataByNs[Below(ns, j)].Empty?
        decreases o - n
      {
        DownTo(vr, ns, n - 1);
        BelowStep(ns, n - 1);
        n := n + 1;
        first := Modulo(first - 1);
      }
      DownTo(vr, ns, n - 1);
      BelowStep(ns, n - 1);
      ask := Numbers(ns, first, last, n);
    }

    lemma Shape()
      requires Valid()
      ensures rxdataByNs.Length == SLOTS && vr < 8
    {
    }
  }

  // Write out the numbers from first to last.
  method Numbers(ns: nat, first: int, last: int, ghost n: nat) returns (ask: seq<nat>)
    requires ns < 8 && 1 <= n <= 7 && first == Below(ns, n - 1) && last == Below(ns, 0)
    ensures |ask| == n && forall i :: 0 <= i < n ==> ask[i] == Below(ns, n - 1 - i)
  {
    hide Below;
    var askForResend := new nat[8];
    var count := 0;
    var x := first;
    while true
      invariant 0 <= count < n && x == Below(ns, n - 1 - count)
      invariant forall i :: 0 <= i < count ==> askForResend[i] == Below(ns, n - 1 - i)
      decreases n - count
    {
      askForResend[count] := Modulo(x);
      UpFrom(ns, n - 1 - count);
      count := count + 1;
      x := Modulo(x + 1);
      if x == Modulo(last + 1) {
        break;
      }
    }
    ask := askForResend[..count];
  }

  // Going down from ns, V(R) is met after as many steps as the offset says.
  lemma DownTo(vr: nat, ns: nat, d: nat)
    requires vr < 8 && ns < 8 && d < Modulo(ns - vr)
    ensures Below(ns, d) == vr <==> d + 1 == Modulo(ns - vr)
  {
  }

  // Going up, the number after the last is met at the end only.
  lemma UpFrom(ns: nat, d: nat)
    requires ns < 8 && d < 7
    ensures Modulo(Below(ns, d)) == Below(ns, d)
    ensures Modulo(Below(ns, d) + 1) == Modulo(Below(ns, 0) + 1) <==> d == 0
    ensures d > 0 ==> Modulo(Below(ns, d) + 1) == Below(ns, d - 1)
  {
  }

  lemma WaitingStep(slots: seq<Slot<Data>>, c: nat, j: nat)
    requires |slots| == SLOTS && j < 8
    ensures slots[Ahead(c, j)].Full? ==> Waiting(slots, c, j) == [slots[Ahead(c, j)].value] + Waiting(slots, c, j + 1)
    ensures slots[Ahead(c, j)].Empty? ==> Waiting(slots, c, j) == []
  {
  }

  lemma AheadStep(c: nat, j: nat)
    ensures Modulo(Ahead(c, j) + 1) == Ahead(c, j + 1) == Ahead(c + j + 1, 0)
    ensures Below(Ahead(c, j + 1), 0) == Ahead(c, j)
  {
  }

  lemma AheadBelow(c: nat)
    ensures Below(Ahead(c, 0), 0) == Ahead(c, 7)
  {
  }

  lemma AheadOthers(c: nat, i: nat)
    requires i < 8
    ensures forall j :: 0 <= j < 8 && j != i ==> Ahead(c, j) != Ahead(c, i)
  {
    forall j | 0 <= j < 8 && j != i
      ensures Ahead(c, j) != Ahead(c, i)
    {
      if i < j {
        ModApart(c + i, c + j);
      } else {
        ModApart(c + j, c + i);
      }
    }
  }

  lemma Counted(delivered: seq<Data>, since: nat, accepted: set<(nat, Data)>)
    requires InOrder(delivered, since, accepted)
    ensures since <= |delivered|
  {
  }

  // Taking one more frame, with the number expected.
  lemma AcceptedMore(slots: seq<Slot<Data>>, delivered: seq<Data>, since: nat, accepted: set<(nat, Data)>, ns: nat,
                     d: Data)
    requires |slots| == SLOTS && FromFrames(slots, accepted) && InOrder(delivered, since, accepted)
    requires ns == Ahead(|delivered| - since, 0)
    ensures FromFrames(slots, accepted + {(ns, d)}) && InOrder(delivered + [d], since, accepted + {(ns, d)})
  {
    hide Ahead;
  }

  // Handing up what a slot holds.
  lemma HandUp(slots: seq<Slot<Data>>, delivered: seq<Data>, since: nat, accepted: set<(nat, Data)>, vr: nat, c: nat,
               i: nat)
    requires |slots| == SLOTS && FromFrames(slots, accepted) && InOrder(delivered, since, accepted)
    requires |delivered| - since == c + i && vr == Ahead(c, i) && slots[vr].Full?
    ensures FromFrames(slots[vr := Empty], accepted) && InOrder(delivered + [slots[vr].value], since, accepted)
  {
    assert Ahead(c + i, 0) == Ahead(c, i);
    hide Ahead;
  }
}
