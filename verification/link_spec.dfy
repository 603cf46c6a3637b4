/** What a data link sends, what can happen to it, and what each event may do to it. The class in
    link.dfy refines this relation; what holds over whole runs is proved from it alone. */
module LinkSpec {
  import opened Gf256
  import opened Ax25Pad
  import opened LinkTimers
  import opened LinkSender
  import opened LinkReceiver

  const MAX_INFO := 2048

  datatype State = Disconnected | AwaitingConnection | AwaitingRelease | Connected | TimerRecovery

  /** What the link asks of the layer below: send a frame to the peer, or ask for the channel. */
  datatype Action = Send(expedited: bool, cr: CmdRes, ct: Content) | SeizeRequest

  /** The action sends an information frame. */
  predicate IsData(a: Action) {
    a.Send? && a.ct.IContent?
  }

  function UAct(cr: CmdRes, ftype: FrameType, pf: int): (a: Action)
    requires ftype in U_TYPES
    ensures !IsData(a)
  {
    Send(false, cr, UContentOf(ftype, pf, 0, []))
  }

  function SAct(cr: CmdRes, ftype: FrameType, nr: nat, pf: int): (a: Action)
    requires ftype in S_TYPES
    ensures !IsData(a)
  {
    Send(false, cr, SContentOf(ftype, nr, pf, []))
  }

  function IAct(nr: nat, ns: nat, d: Sendable): Action
  {
    Send(false, Cmd, IContentOf(nr, ns, 0, d.pid, d.info))
  }

  // ---------- frames sent and sent again ----------

  /** The I frames numbered lo up to hi, in order, with what was first sent under each number. */
  ghost function Transmissions(sent: seq<Sendable>, nr: nat, lo: nat, hi: nat): (r: seq<Action>)
    requires lo <= hi <= |sent|
    ensures |r| == hi - lo
    decreases hi
  {
    if lo == hi then [] else Transmissions(sent, nr, lo, hi - 1) + [IAct(nr, (hi - 1) % 8, sent[hi - 1])]
  }

  lemma {:induction false} TransmissionsPrefix(sent: seq<Sendable>, more: seq<Sendable>, nr: nat, lo: nat, hi: nat)
    requires lo <= hi <= |sent| && sent <= more
    ensures Transmissions(more, nr, lo, hi) == Transmissions(sent, nr, lo, hi)
    decreases hi
  {
    if lo == hi {
    } else {
      TransmissionsPrefix(sent, more, nr, lo, hi - 1);
    }
  }

  lemma TransmissionsNone(sent: seq<Sendable>, nr: nat, lo: nat)
    requires lo <= |sent|
    ensures Transmissions(sent, nr, lo, lo) == []
  {
  }

  lemma TransmissionsMore(sent: seq<Sendable>, more: seq<Sendable>, nr: nat, lo: nat)
    requires lo <= |sent| && |more| == |sent| + 1 && sent <= more
    ensures Transmissions(more, nr, lo, |more|) == Transmissions(sent, nr, lo, |sent|)
        + [IAct(nr, |sent| % 8, more[|sent|])]
  {
    TransmissionsPrefix(sent, more, nr, lo, |sent|);
  }

  /** The requests for a run of missing frames; the one for V(R) itself carries F = 1. */
  ghost function Srejs(ask: seq<nat>, vr: nat): (r: seq<Action>)
    ensures |r| == |ask|
  {
    if ask == [] then []
    else Srejs(ask[..|ask| - 1], vr) + [SAct(Res, SREJ, ask[|ask| - 1], if ask[|ask| - 1] == vr then 1 else 0)]
  }

  ghost predicate Residues(ns: seq<nat>)
  {
    forall i :: 0 <= i < |ns| ==> ns[i] < 8
  }

  /** What is sent again for a list of numbers, as far as it is still at hand. */
  ghost function Resends(slots: seq<Slot<Sendable>>, nr: nat, ns: seq<nat>): seq<Action>
    requires |slots| == SLOTS && Residues(ns)
  {
    if ns == [] then [] else
      Resends(slots, nr, ns[..|ns| - 1]) +
      var x := ns[|ns| - 1]; if slots[x].Full? then [IAct(nr, x, slots[x].value)] else []
  }

  lemma ResendsMore(slots: seq<Slot<Sendable>>, nr: nat, ns: seq<nat>, x: nat)
    requires |slots| == SLOTS && x < 8 && Residues(ns)
    ensures Resends(slots, nr, ns + [x]) == Resends(slots, nr, ns)
        + if slots[x].Full? then [IAct(nr, x, slots[x].value)] else []
    ensures ns == [] ==> Resends(slots, nr, ns) == []
  {
    assert (ns + [x])[..|ns|] == ns;
  }

  /** Something is sent again exactly when some frame named is at hand. */
  lemma {:induction false} ResendsSome(slots: seq<Slot<Sendable>>, nr: nat, ns: seq<nat>)
    requires |slots| == SLOTS && Residues(ns)
    ensures Resends(slots, nr, ns) == [] <==> forall i :: 0 <= i < |ns| ==> slots[ns[i]].Empty?
    decreases |ns|
  {
    if ns == [] {
    } else {
      ResendsSome(slots, nr, ns[..|ns| - 1]);
    }
  }

  /** The numbers named by an SREJ: N(R), and the top three bits of each information byte. */
  ghost function Named(nr: nat, info: seq<byte>): (ns: seq<nat>)
    requires nr < 8
    ensures |ns| == |info| + 1 && ns[0] == nr && Residues(ns)
  {
    if info == [] then [nr] else Named(nr, info[..|info| - 1]) + [info[|info| - 1] / 32 % 8]
  }

  lemma NamedNone(nr: nat)
    requires nr < 8
    ensures Named(nr, []) == [nr]
  {
  }

  lemma NamedMore(nr: nat, info: seq<byte>, j: nat)
    requires nr < 8 && j < |info|
    ensures Named(nr, info[..j + 1]) == Named(nr, info[..j]) + [info[j] / 32 % 8]
  {
    assert info[..j + 1][..j] == info[..j];
  }

  /** From a up to b counting modulo eight: at least one step, at most eight. */
  function StepsTo(a: nat, b: nat): (n: nat)
    ensures 1 <= n <= 8
  {
    if Modulo(b - a) == 0 then 8 else Modulo(b - a)
  }

  /** The n numbers from a on, modulo eight. */
  ghost function Upward(a: nat, n: nat): (ns: seq<nat>)
    ensures |ns| == n && Residues(ns)
  {
    if n == 0 then [] else Upward(a, n - 1) + [Modulo(a + (n - 1))]
  }

  /** What a REJ for N(R) = nr makes the sender send: nothing when that frame is not at hand, and
      otherwise whatever is at hand from there up to V(S), all eight slots when nr is V(S) itself. */
  ghost function Again(slots: seq<Slot<Sendable>>, vr: nat, nr: nat, vs: nat): seq<Action>
    requires |slots| == SLOTS && nr < 8
  {
    if slots[nr].Empty? then [] else Resends(slots, vr, Upward(nr, StepsTo(nr, vs)))
  }

  lemma UpwardNone(slots: seq<Slot<Sendable>>, vr: nat, a: nat)
    requires |slots| == SLOTS && a < 8
    ensures Resends(slots, vr, Upward(a, 0)) == [] && Modulo(a + 0) == a
  {
  }

  lemma UpwardMore(slots: seq<Slot<Sendable>>, vr: nat, a: nat, j: nat)
    requires |slots| == SLOTS && a < 8
    ensures Modulo(a + j) < 8
    ensures var x := Modulo(a + j);
      Resends(slots, vr, Upward(a, j + 1)) == Resends(slots, vr, Upward(a, j))
          + if slots[x].Full? then [IAct(vr, x, slots[x].value)] else []
  {
    hide Resends, IAct;
    ResendsMore(slots, vr, Upward(a, j), Modulo(a + j));
  }

  lemma StepsMore(a: nat, b: nat, j: nat)
    requires a < 8 && b < 8 && j < StepsTo(a, b)
    ensures Modulo(Modulo(a + j) + 1) == Modulo(a + (j + 1))
    ensures Modulo(Modulo(a + j) + 1) == b <==> j + 1 == StepsTo(a, b)
    ensures Modulo(a + j) < 8
  {
  }

  lemma StepsAre(acked: nat, sent: nat)
    requires acked < sent < acked + 8
    ensures StepsTo(acked % 8, sent % 8) == sent - acked
  {
    ModDistance(acked, sent);
  }

  /** Walking up from the first frame outstanding sends exactly what is outstanding, in order. */
  lemma {:induction false} OutstandingResends(slots: seq<Slot<Sendable>>, sent: seq<Sendable>, vr: nat, lo: nat,
                                              hi: nat)
    requires |slots| == SLOTS && lo <= hi <= |sent| && Kept(slots, sent, lo)
    ensures Resends(slots, vr, Upward(lo % 8, hi - lo)) == Transmissions(sent, vr, lo, hi)
    decreases hi
  {
    hide IAct, Resends, Upward;
    if lo == hi {
      UpwardNone(slots, vr, lo % 8);
    } else {
      OutstandingResends(slots, sent, vr, lo, hi - 1);
      UpwardMore(slots, vr, lo % 8, hi - 1 - lo);
      WindowTop(lo, hi - 1 - lo);
    }
  }

  lemma SameAcked(acked: nat, nr: nat)
    requires nr == acked % 8
    ensures Acknowledged(acked, nr) == acked
  {
  }

  lemma SevenAhead(acked: nat)
    ensures (acked + 7) % 8 == Below(acked % 8, 0)
  {
  }

  // ---------- frames that are what they claim ----------

  /** An I frame that is outstanding: it carries what was first sent under its number, not yet acknowledged. */
  ghost predicate Genuine(a: Action, vr: nat, acked: nat, sent: seq<Sendable>)
  {
    exists n: nat :: acked <= n < |sent| && a == IAct(vr, n % 8, sent[n])
  }

  ghost predicate AllGenuine(acts: seq<Action>, vr: nat, acked: nat, sent: seq<Sendable>)
  {
    forall i :: 0 <= i < |acts| && IsData(acts[i]) ==> Genuine(acts[i], vr, acked, sent)
  }

  lemma {:induction false} TransmissionsGenuine(sent: seq<Sendable>, vr: nat, acked: nat, lo: nat, hi: nat)
    requires acked <= lo <= hi <= |sent|
    ensures AllGenuine(Transmissions(sent, vr, lo, hi), vr, acked, sent)
    decreases hi
  {
    hide IAct;
    if lo == hi {
    } else {
      TransmissionsGenuine(sent, vr, acked, lo, hi - 1);
      assert Genuine(IAct(vr, (hi - 1) % 8, sent[hi - 1]), vr, acked, sent);
    }
  }

  /** The number stands for a frame that is outstanding. */
  ghost predicate IsOutstanding(x: nat, acked: nat, sent: seq<Sendable>)
  {
    IsNumbered(x, acked, |sent|)
  }

  /** Something that is no longer outstanding is still at hand under one of the numbers. */
  ghost predicate Stale(slots: seq<Slot<Sendable>>, acked: nat, sent: seq<Sendable>, ns: seq<nat>)
    requires |slots| == SLOTS && Residues(ns)
  {
    exists i :: 0 <= i < |ns| && slots[ns[i]].Full? && !IsOutstanding(ns[i], acked, sent)
  }

  /** Taking an acknowledgement leaves the same slots stale: those freed were outstanding before. */
  lemma StaleSame(was: seq<Slot<Sendable>>, slots: seq<Slot<Sendable>>, lo: nat, hi: nat, sent: seq<Sendable>,
                  ns: seq<nat>)
    requires Released(was, slots, lo, hi) && lo <= hi <= |sent| && Residues(ns)
    ensures Stale(was, lo, sent, ns) <==> Stale(slots, hi, sent, ns)
  {
    forall i | 0 <= i < |ns|
      ensures (was[ns[i]].Full? && !IsOutstanding(ns[i], lo, sent)) <==>
              (slots[ns[i]].Full? && !IsOutstanding(ns[i], hi, sent))
    {
      NumberedSplit(ns[i], lo, hi, |sent|);
    }
  }

  lemma NumberedSplit(x: nat, lo: nat, mid: nat, hi: nat)
    requires lo <= mid <= hi
    ensures IsNumbered(x, lo, hi) <==> IsNumbered(x, lo, mid) || IsNumbered(x, mid, hi)
  {
  }

  // An I frame from a slot is genuine exactly when its number is outstanding.
  lemma KeptGenuine(slots: seq<Slot<Sendable>>, vr: nat, acked: nat, sent: seq<Sendable>, x: nat)
    requires |slots| == SLOTS && x < 8 && Kept(slots, sent, acked) && slots[x].Full?
    ensures Genuine(IAct(vr, x, slots[x].value), vr, acked, sent) <==> IsOutstanding(x, acked, sent)
  {
    if IsOutstanding(x, acked, sent) {
      var n: nat :| acked <= n < |sent| && n % 8 == x;
      assert IAct(vr, x, slots[x].value) == IAct(vr, n % 8, sent[n]);
    }
  }

  /** What is sent again is all genuine if and only if no stale slot is named. */
  lemma {:induction false} ResendsGenuine(slots: seq<Slot<Sendable>>, vr: nat, acked: nat, sent: seq<Sendable>,
                                          ns: seq<nat>)
    requires |slots| == SLOTS && Residues(ns) && Kept(slots, sent, acked)
    ensures AllGenuine(Resends(slots, vr, ns), vr, acked, sent) <==> !Stale(slots, acked, sent, ns)
    decreases |ns|
  {
    hide IAct, Genuine, IsOutstanding, Kept;
    if ns == [] {
    } else {
      var init, x := ns[..|ns| - 1], ns[|ns| - 1];
      ResendsGenuine(slots, vr, acked, sent, init);
      StaleLast(slots, acked, sent, ns);
      if slots[x].Full? {
        var a := IAct(vr, x, slots[x].value);
        KeptGenuine(slots, vr, acked, sent, x);
        ActsOfSlots(vr, x, slots[x].value);
        GenuineLast(Resends(slots, vr, init), a, vr, acked, sent);
      } else {
        assert Resends(slots, vr, ns) == Resends(slots, vr, init);
      }
    }
  }

  lemma ActsOfSlots(vr: nat, x: nat, d: Sendable)
    ensures IsData(IAct(vr, x, d))
  {
  }

  lemma GenuineLast(acts: seq<Action>, a: Action, vr: nat, acked: nat, sent: seq<Sendable>)
    requires IsData(a)
    ensures AllGenuine(acts + [a], vr, acked, sent) <==>
            AllGenuine(acts, vr, acked, sent) && Genuine(a, vr, acked, sent)
  {
    hide Genuine, IsData;
    var all := acts + [a];
    assert all[|acts|] == a && forall i :: 0 <= i < |acts| ==> all[i] == acts[i];
  }

  lemma StaleLast(slots: seq<Slot<Sendable>>, acked: nat, sent: seq<Sendable>, ns: seq<nat>)
    requires |slots| == SLOTS && Residues(ns) && ns != []
    ensures var init, x := ns[..|ns| - 1], ns[|ns| - 1];
      Stale(slots, acked, sent, ns) <==>
        Stale(slots, acked, sent, init) || (slots[x].Full? && !IsOutstanding(x, acked, sent))
  {
    hide IsOutstanding;
    var init := ns[..|ns| - 1];
    assert forall i :: 0 <= i < |init| ==> init[i] == ns[i];
  }

  // With nothing outstanding, going up from a filled slot sends something stale.
  lemma AgainStale(slots: seq<Slot<Sendable>>, vr: nat, sent: seq<Sendable>, nr: nat, vs: nat)
    requires |slots| == SLOTS && nr < 8 && slots[nr].Full?
    ensures !AllGenuine(Again(slots, vr, nr, vs), vr, |sent|, sent)
  {
    hide IAct, Resends, Upward, StepsTo, Modulo;
    var ns := Upward(nr, StepsTo(nr, vs));
    ResendsGenuine(slots, vr, |sent|, sent, ns);
    UpwardFirst(nr, StepsTo(nr, vs));
    assert slots[ns[0]].Full? && !IsOutstanding(ns[0], |sent|, sent);
  }

  lemma {:induction false} UpwardFirst(a: nat, n: nat)
    requires a < 8 && n > 0
    ensures Upward(a, n)[0] == a
    decreases n
  {
    if n == 1 {
    } else {
      UpwardFirst(a, n - 1);
    }
  }

  /** No information frame among them. */
  predicate Plain(acts: seq<Action>)
  {
    forall i :: 0 <= i < |acts| ==> !IsData(acts[i])
  }

  lemma PlainGenuine(acts: seq<Action>, vr: nat, acked: nat, sent: seq<Sendable>)
    requires Plain(acts)
    ensures AllGenuine(acts, vr, acked, sent)
  {
  }

  lemma {:induction false} SrejsPlain(ask: seq<nat>, vr: nat)
    ensures Plain(Srejs(ask, vr))
  {
    hide SAct;
    if ask == [] {
    } else {
      SrejsPlain(ask[..|ask| - 1], vr);
    }
  }

  // What is appended to the actions before.
  lemma Appended(before: seq<Action>, a: seq<Action>, b: seq<Action>, acts: seq<Action>, vr: nat, acked: nat,
                 sent: seq<Sendable>)
    requires acts == before + a + b && AllGenuine(a, vr, acked, sent)
    ensures before <= acts && (AllGenuine(acts[|before|..], vr, acked, sent) <==> AllGenuine(b, vr, acked, sent))
  {
    hide Genuine, IsData;
    var more := acts[|before|..];
    assert more == a + b;
    assert forall i :: 0 <= i < |a| ==> more[i] == a[i];
    assert forall i :: 0 <= i < |b| ==> more[|a| + i] == b[i];
    assert forall i :: |a| <= i < |more| ==> more[i] == b[i - |a|];
  }

  // A request for the channel at the end is no frame.
  lemma MoreActions(before: seq<Action>, acts: seq<Action>, all: seq<Action>, vr: nat, acked: nat, sent: seq<Sendable>)
    requires before <= acts && (all == acts || all == acts + [SeizeRequest])
    ensures before <= all
    ensures AllGenuine(acts[|before|..], vr, acked, sent) <==> AllGenuine(all[|before|..], vr, acked, sent)
  {
    hide Genuine;
    assert forall i :: 0 <= i < |acts[|before|..]| ==> all[|before|..][i] == acts[|before|..][i];
  }

  // ---------- frames in figures ----------

  /** An I frame of this number that carries the data: a command whose control byte holds N(S) in bits 1 to 3 and
      N(R) in the top three and nothing else, with 0xf0 for an identifier of 0 or 0xff. */
  ghost predicate Carries(a: Action, nr: nat, ns: nat, d: Sendable)
  {
    && a.Send? && !a.expedited && a.cr == Cmd && a.ct.IContent? && a.ct.Valid()
    && ns < 8 && nr < 8 && Control(a.ct) == 2 * ns + 32 * nr
    && a.ct.pid == (if d.pid == 0 || d.pid == 0xff then 0xf0 else d.pid) && a.ct.info == d.info
  }

  lemma ActCarries(nr: nat, ns: nat, d: Sendable)
    requires nr < 8 && ns < 8
    ensures Carries(IAct(nr, ns, d), nr, ns, d)
    ensures IAct(nr, ns, d).ct.IContent? && IAct(nr, ns, d).ct.ns == ns
  {
  }

  /** Two I frames that carry the same data under the same numbers are the same. */
  lemma CarriesUnique(a: Action, nr: nat, ns: nat, d: Sendable)
    requires Carries(a, nr, ns, d)
    ensures a == IAct(nr, ns, d)
  {
    ControlDecodes(a.ct);
    SendDigits(ns, 0, nr);
    HighDigits(2 * ns, 0, nr);
  }

  /** What a link that is ready to receive, or not, with this V(R) and these slots may send: an I frame from a
      filled slot with N(R) = V(R); RR, or RNR when it is not ready, with N(R) = V(R), as a response or as a
      command that polls; SREJ as a response, with F = 1 exactly for V(R); a SABM that polls; UA and DM. */
  ghost predicate WellSent(a: Action, busy: bool, vr: nat, slots: seq<Slot<Sendable>>)
    requires |slots| == SLOTS
  {
    match a
    case SeizeRequest => true
    case Send(expedited, cr, ct) =>
      && !expedited && ct.Valid()
      && match ct
         case IContent(_, ns, _, _, _) => ns < 8 && slots[ns].Full? && Carries(a, vr, ns, slots[ns].value)
         case SContent(ftype, nr, pf, _) =>
           if ftype == SREJ then cr == Res && (pf <==> nr == vr) && ct.info == []
           else nr == vr && ftype == (if busy then RNR else RR) && (cr == Res || (cr == Cmd && pf))
         case UContent(ftype, pf, _, _) =>
           if ftype == SABM then cr == Cmd && pf else cr == Res && ftype in {UA, DM}
  }

  ghost predicate AllWellSent(acts: seq<Action>, busy: bool, vr: nat, slots: seq<Slot<Sendable>>)
    requires |slots| == SLOTS
  {
    forall i :: 0 <= i < |acts| ==> WellSent(acts[i], busy, vr, slots)
  }

  lemma BothWellSent(a: seq<Action>, b: seq<Action>, busy: bool, vr: nat, slots: seq<Slot<Sendable>>)
    requires |slots| == SLOTS && AllWellSent(a, busy, vr, slots) && AllWellSent(b, busy, vr, slots)
    ensures AllWellSent(a + b, busy, vr, slots)
  {
    hide WellSent;
  }

  lemma DataWellSent(ns: nat, busy: bool, vr: nat, slots: seq<Slot<Sendable>>)
    requires |slots| == SLOTS && vr < 8 && ns < 8 && slots[ns].Full?
    ensures WellSent(IAct(vr, ns, slots[ns].value), busy, vr, slots)
  {
    hide Carries;
    ActCarries(vr, ns, slots[ns].value);
  }

  /** What is sent again is of this kind. */
  lemma {:induction false} ResendsWellSent(slots: seq<Slot<Sendable>>, busy: bool, vr: nat, ns: seq<nat>)
    requires |slots| == SLOTS && vr < 8 && Residues(ns)
    ensures AllWellSent(Resends(slots, vr, ns), busy, vr, slots)
    decreases |ns|
  {
    hide IAct, WellSent;
    if ns == [] {
    } else {
      var x := ns[|ns| - 1];
      ResendsWellSent(slots, busy, vr, ns[..|ns| - 1]);
      if slots[x].Full? {
        DataWellSent(x, busy, vr, slots);
      }
    }
  }

  lemma AgainWellSent(slots: seq<Slot<Sendable>>, busy: bool, vr: nat, nr: nat, vs: nat)
    requires |slots| == SLOTS && vr < 8 && nr < 8
    ensures AllWellSent(Again(slots, vr, nr, vs), busy, vr, slots)
  {
    hide Resends, WellSent, Upward, StepsTo;
    ResendsWellSent(slots, busy, vr, Upward(nr, StepsTo(nr, vs)));
  }

  /** And so is what is sent for the first time, or again, of the frames outstanding. */
  lemma {:induction false} TransmissionsWellSent(slots: seq<Slot<Sendable>>, busy: bool, vr: nat, sent: seq<Sendable>,
                                                 acked: nat, lo: nat, hi: nat)
    requires |slots| == SLOTS && vr < 8 && acked <= lo <= hi <= |sent| && Kept(slots, sent, acked)
    ensures AllWellSent(Transmissions(sent, vr, lo, hi), busy, vr, slots)
    decreases hi
  {
    hide IAct, WellSent;
    if lo < hi {
      TransmissionsWellSent(slots, busy, vr, sent, acked, lo, hi - 1);
      assert slots[(hi - 1) % 8] == Full(sent[hi - 1]);
      DataWellSent((hi - 1) % 8, busy, vr, slots);
    }
  }

  /** In order, the i-th carrying what was first sent under number lo + i. */
  lemma {:induction false} TransmissionsCarry(sent: seq<Sendable>, vr: nat, lo: nat, hi: nat, i: nat)
    requires vr < 8 && lo <= hi <= |sent| && i < hi - lo
    ensures Carries(Transmissions(sent, vr, lo, hi)[i], vr, (lo + i) % 8, sent[lo + i])
    decreases hi
  {
    hide Carries, IAct;
    if i < hi - 1 - lo {
      TransmissionsCarry(sent, vr, lo, hi - 1, i);
    } else {
      ActCarries(vr, (hi - 1) % 8, sent[hi - 1]);
    }
  }

  lemma {:induction false} SrejsWellSent(ask: seq<nat>, busy: bool, vr: nat, slots: seq<Slot<Sendable>>)
    requires |slots| == SLOTS && Residues(ask)
    ensures AllWellSent(Srejs(ask, vr), busy, vr, slots)
    decreases |ask|
  {
    if ask == [] {
    } else {
      SrejsWellSent(ask[..|ask| - 1], busy, vr, slots);
    }
  }

  /** A request for each missing frame: SREJ as a response, with its number as N(R), and F = 1 only for V(R). */
  lemma {:induction false} SrejsFigures(ask: seq<nat>, vr: nat, i: nat)
    requires Residues(ask) && i < |ask|
    ensures Srejs(ask, vr)[i] == Send(false, Res, SContent(SREJ, ask[i], ask[i] == vr, []))
    decreases |ask|
  {
    if i < |ask| - 1 {
      SrejsFigures(ask[..|ask| - 1], vr, i);
    }
  }

  /** An I frame is an outstanding one exactly when it carries the data of an outstanding number. */
  lemma GenuineFigures(a: Action, vr: nat, acked: nat, sent: seq<Sendable>)
    requires vr < 8
    ensures Genuine(a, vr, acked, sent) <==>
            exists n: nat :: acked <= n < |sent| && Carries(a, vr, n % 8, sent[n])
  {
    hide Carries, IAct;
    if Genuine(a, vr, acked, sent) {
      var n: nat :| acked <= n < |sent| && a == IAct(vr, n % 8, sent[n]);
      ActCarries(vr, n % 8, sent[n]);
    }
    if n: nat :| acked <= n < |sent| && Carries(a, vr, n % 8, sent[n]) {
      CarriesUnique(a, vr, n % 8, sent[n]);
    }
  }

  /** The numbers an SREJ names. */
  lemma {:induction false} NamedFigures(nr: nat, info: seq<byte>, i: nat)
    requires nr < 8 && i <= |info|
    ensures Named(nr, info)[i] == if i == 0 then nr else info[i - 1] / 32
    decreases |info|
  {
    if i < |info| {
      NamedFigures(nr, info[..|info| - 1], i);
    }
  }

  /** What is sent again for numbers of which all are at hand: one frame each, in order. */
  lemma {:induction false} ResendsFigures(slots: seq<Slot<Sendable>>, vr: nat, ns: seq<nat>, i: nat)
    requires |slots| == SLOTS && vr < 8 && Residues(ns) && i < |ns|
    requires forall j :: 0 <= j < |ns| ==> slots[ns[j]].Full?
    ensures |Resends(slots, vr, ns)| == |ns| && Carries(Resends(slots, vr, ns)[i], vr, ns[i], slots[ns[i]].value)
    decreases |ns|
  {
    hide Carries, IAct;
    var n := |ns| - 1;
    if i < n {
      ResendsFigures(slots, vr, ns[..n], i);
    } else {
      ActCarries(vr, ns[n], slots[ns[n]].value);
      if n > 0 {
        ResendsFigures(slots, vr, ns[..n], 0);
      }
    }
  }

  /** What a REJ asks for: from its number up to the last one sent, modulo eight, or all eight from V(S) on. */
  lemma {:induction false} UpwardFigures(a: nat, b: nat, n: nat, i: nat)
    requires a < 8 && b < 8 && i < n
    ensures Upward(a, n)[i] == (a + i) % 8
    ensures StepsTo(a, b) == if a == b then 8 else if a < b then b - a else b + 8 - a
    decreases n
  {
    hide StepsTo;
    StepsFigures(a, b);
    if i < n - 1 {
      UpwardFigures(a, b, n - 1, i);
    }
  }

  lemma StepsFigures(a: nat, b: nat)
    requires a < 8 && b < 8
    ensures StepsTo(a, b) == if a == b then 8 else if a < b then b - a else b + 8 - a
  {
    if a == b {
      assert Modulo(b - a) == 0;
    } else if a < b {
      assert Modulo(b - a) == b - a;
    } else {
      assert Modulo(b - a) == b + 8 - a;
    }
  }

  /** Numbers that are not at hand add nothing. */
  lemma {:induction false} ResendsOnly(slots: seq<Slot<Sendable>>, vr: nat, a: seq<nat>, x: nat, b: seq<nat>)
    requires |slots| == SLOTS && x < 8 && Residues(a) && Residues(b) && slots[x].Empty?
    ensures Resends(slots, vr, a + [x] + b) == Resends(slots, vr, a + b)
    decreases |b|
  {
    hide IAct;
    if b == [] {
      assert a + [x] + b == a + [x] && a + b == a;
      ResendsMore(slots, vr, a, x);
    } else {
      var n := |b| - 1;
      ResendsOnly(slots, vr, a, x, b[..n]);
      assert a + [x] + b == a + [x] + b[..n] + [b[n]] && a + b == a + b[..n] + [b[n]];
      ResendsMore(slots, vr, a + [x] + b[..n], b[n]);
      ResendsMore(slots, vr, a + b[..n], b[n]);
    }
  }

  // ---------- what starves a link ----------

  /** An SREJ in timer recovery that names only frames no longer at hand, its N(R) among them
      though it does not acknowledge: T1 is stopped for it and not started again. */
  ghost predicate SrejStarves(state: State, va: nat, vs: nat, slots: seq<Slot<Sendable>>, f: nat, nr: nat,
                              info: seq<byte>)
    requires nr < 8 && |slots| == SLOTS
  {
    && state == TimerRecovery && IsGoodNr(va, vs, nr) && f == 0 && va != vs
    && forall i :: 0 <= i < |Named(nr, info)| ==> slots[Named(nr, info)[i]].Empty?
  }

  // ---------- events ----------

  datatype Activity = Dcd | Ptt

  /** What can happen to a link: a frame from the peer, the channel, the clock, and new data. */
  datatype Event =
    | Frame(ft: FrameType, cr: CmdRes, pf: nat, nr: nat, ns: nat, pid: byte, info: seq<byte>)
    | Channel(activity: Activity, status: bool)
    | Seized
    | Passed(dt: real)
    | Queued(d: Sendable)
  {
    predicate Possible() {
      (Frame? ==> pf < 2 && nr < 8 && ns < 8) && (Passed? ==> dt >= 0.0)
    }
  }

  // ---------- a link at one moment, and what an event may do to it ----------

  datatype LinkView = LinkView(
    state: State, rc: nat, limit: nat, actions: seq<Action>,
    va: nat, vs: nat, k: nat, slots: seq<Slot<Sendable>>, sent: seq<Sendable>, acked: nat,
    vr: nat, delivered: seq<Data>, since: nat, accepted: set<(nat, Data)>,
    t1: bool, t3: bool, busy: bool, armed: real, idle: real, t1v: real, ownBusy: bool)
  {
    /** Some timer will wake the link up: T1 while it waits for an answer, T1 or T3 when connected. */
    predicate Watched() {
      && (state == AwaitingConnection || state == TimerRecovery ==> t1)
      && (state == Connected ==> t1 || t3)
    }

    /** How many more times T1 can expire before the link gives up. */
    function Left(): int {
      match state
      case Connected => limit + 1
      case AwaitingConnection => limit - rc + 1
      case TimerRecovery => limit - rc + 1
      case _ => 0
    }

    /** What holds of every link at every moment. */
    ghost predicate Sound() {
      && |slots| == SLOTS && Left() >= 0 && (Left() == 0 ==> state == Disconnected) && (t1 ==> t1v > 0.0)
      && acked <= |sent| <= acked + k <= acked + 7 && va == acked % 8 && vs == |sent| % 8 && Kept(slots, sent, acked)
      && InOrder(delivered, since, accepted) && vr == Ahead(|delivered| - since, 0)
    }
  }

  /** The event is an SREJ that leaves the link without a timer. */
  ghost predicate Starved(s: LinkView, e: Event)
  {
    e.Frame? && e.ft == SREJ && e.Possible() && |s.slots| == SLOTS
        && SrejStarves(s.state, s.va, s.vs, s.slots, e.pf, e.nr, e.info)
  }

  /** T1 fires: it runs, the channel is idle, and has been for the time T1 was started with. */
  predicate T1Fires(s: LinkView, e: Event)
  {
    e.Passed? && s.t1 && !s.busy && s.idle + e.dt >= s.armed
  }

  /** The idle time that passes in an event. */
  function IdleTime(s: LinkView, e: Event): real
  {
    if e.Passed? && !s.busy then e.dt else 0.0
  }

  /** Only an SREJ that starves it takes the timers from a link. */
  ghost predicate Watches(s: LinkView, e: Event, t: LinkView)
  {
    s.Watched() ==> (t.Watched() <==> !Starved(s, e))
  }

  /** Without a frame, every expiry of T1 uses up one of those left. */
  predicate Retries(s: LinkView, e: Event, t: LinkView)
  {
    !e.Frame? ==> t.Left() + (if T1Fires(s, e) then 1 else 0) <= s.Left()
  }

  /** T1 is stopped, has just been started with its full time, or goes on counting idle time; only the
      channel changes whether it is busy. */
  predicate Clock(s: LinkView, e: Event, t: LinkView)
  {
    && (t.busy == s.busy || e.Channel?)
    && (t.t1 ==>
         || (t.armed == t.t1v && t.idle == 0.0)
         || (s.t1 && !T1Fires(s, e) && t.armed == s.armed && t.t1v == s.t1v && t.idle == s.idle + IdleTime(s, e)))
  }

  /** What an event offers for delivery: an I frame its number and data. */
  function Offered(e: Event): set<(nat, Data)>
  {
    if e.Frame? && e.ft == I then {(e.ns, Data(e.pid, e.info))} else {}
  }

  /** Deliveries are never taken back, and nothing is accepted but what is offered. */
  predicate Received(s: LinkView, e: Event, t: LinkView)
  {
    && s.delivered <= t.delivered
    && ((t.since == s.since && t.accepted <= s.accepted + Offered(e))
        || (t.delivered == s.delivered && t.since == |t.delivered| && t.accepted == {}))
  }

  /** The frame will make the link send something that is not outstanding, by the link as it is before: an
      SREJ, with a good acknowledgement, that names a stale slot, when the link is connected or, retrying,
      will have something outstanding left; or a REJ for V(S), when it is connected and that slot is filled. */
  ghost predicate FrameExhumes(state: State, va: nat, vs: nat, slots: seq<Slot<Sendable>>, acked: nat,
                               sent: seq<Sendable>, ft: FrameType, pf: nat, nr: nat, info: seq<byte>)
    requires nr < 8 && |slots| == SLOTS
  {
    || (ft == SREJ && IsGoodNr(va, vs, nr) && Stale(slots, acked, sent, Named(nr, info))
        && (state == Connected || (state == TimerRecovery && (if pf != 0 then nr else va) != vs)))
    || (ft == REJ && state == Connected && nr == vs && slots[nr].Full?)
  }

  ghost predicate Exhumes(s: LinkView, e: Event)
  {
    && e.Frame? && e.Possible() && |s.slots| == SLOTS
    && FrameExhumes(s.state, s.va, s.vs, s.slots, s.acked, s.sent, e.ft, e.pf, e.nr, e.info)
  }

  /** What is sent keeps its numbers until a reset, and every information frame sent in an event is an
      outstanding one, carrying what its number stands for, if and only if the event exhumes nothing. */
  ghost predicate Sends(s: LinkView, e: Event, t: LinkView)
  {
    && (s.sent <= t.sent || t.sent == []) && s.actions <= t.actions
    && (AllGenuine(t.actions[|s.actions|..], t.vr, t.acked, t.sent) <==> !Exhumes(s, e))
  }

  /** A frame connects a link only so: a SABM when there was nothing, the UA that ends the waiting for a
      connection, and in timer recovery an I frame, an SREJ, a SABM, or another supervisory frame that is
      a response. */
  predicate Connecting(before: State, after: State, ft: FrameType, cr: CmdRes, pf: nat)
  {
    after == Connected && before != Connected ==>
      if before == Disconnected then ft == SABM
      else if before == AwaitingConnection then ft == UA && pf == 1
      else ft in {I, SREJ, SABM} || (ft in {RR, RNR, REJ} && cr == Res)
  }

  /** And nothing else does. */
  predicate Connects(s: LinkView, e: Event, t: LinkView)
  {
    if e.Frame? then Connecting(s.state, t.state, e.ft, e.cr, e.pf) else t.state == Connected ==> s.state == Connected
  }

  /** A link that is ready to receive stays so, and sends nothing but what it may. */
  ghost predicate Speaks(s: LinkView, t: LinkView)
  {
    && (t.ownBusy ==> s.ownBusy) && |t.slots| == SLOTS && s.actions <= t.actions
    && AllWellSent(t.actions[|s.actions|..], s.ownBusy, t.vr, t.slots)
  }

  predicate IsSupervisory(a: Action)
  {
    a.Send? && a.ct.SContent?
  }

  /** Of supervisory frames a poll is answered first, by one frame, and nothing else is. */
  ghost predicate OneAnswer(polled: bool, answer: Action, acts: seq<Action>)
  {
    && (polled ==> acts != [] && acts[0] == answer)
    && forall i :: (if polled then 1 else 0) <= i < |acts| ==> !IsSupervisory(acts[i])
  }

  ghost predicate AllSrej(acts: seq<Action>)
  {
    forall i :: 0 <= i < |acts| ==> IsSupervisory(acts[i]) && acts[i].ct.ftype == SREJ
  }

  /** What a frame is answered with that is no numbered one, or that finds no connection: a SABM UA, a DISC UA if
      there was a connection and DM otherwise, a UI command that polls as any poll or by DM, a UA or FRMR in a
      connection a SABM; and without a connection or the wait for one, a numbered command DM, unless it is SREJ. */
  ghost predicate PlainReplies(before: State, up: bool, answer: Action, ft: FrameType, cr: CmdRes, pf: nat,
                               acts: seq<Action>)
  {
    acts ==
      if ft == SABM then [Send(false, Res, UContent(UA, pf == 1, 0, []))]
      else if ft == DISC then [Send(false, Res, UContent(if up then UA else DM, pf == 1, 0, []))]
      else if ft == UI && cr == Cmd && pf == 1 then
        [if up then answer else Send(false, Res, UContent(DM, true, 0, []))]
      else if ft in {UA, FRMR} && up then [Send(false, Cmd, UContent(SABM, true, 0, []))]
      else if ft in {I, RR, RNR, REJ} && before == Disconnected && cr == Cmd then
        [Send(false, Res, UContent(DM, pf == 1, 0, []))]
      else []
  }

  /** How a frame is answered, when a poll is answered by RR, or RNR when the link is not ready, with F = 1 and
      N(R) = V(R). In a connection, an RR, RNR or REJ that is a command with P = 1 is; so is an I frame with P = 1
      that is taken, and one with P = 0 only by SREJs; one that is not taken makes the link ask for a new
      connection. A link that does so says nothing more. */
  ghost predicate FrameReplies(before: State, after: State, va: nat, vs: nat, busy: bool, vr: nat, ft: FrameType,
                               cr: CmdRes, pf: nat, nr: nat, info: seq<byte>, acts: seq<Action>)
  {
    var up, sabm := before == Connected || before == TimerRecovery, Send(false, Cmd, UContent(SABM, true, 0, []));
    var answer := Send(false, Res, SContent(if busy then RNR else RR, vr, true, []));
    && (after == AwaitingConnection && before != AwaitingConnection ==> acts != [] && acts[|acts| - 1] == sabm)
    && if up && ft in {RR, RNR, REJ, SREJ} then OneAnswer(cr == Cmd && pf == 1 && ft != SREJ, answer, acts)
       else if up && ft == I then
         if |info| > MAX_INFO || !IsGoodNr(va, vs, nr) then acts == [sabm]
         else if pf == 1 then acts == [answer]
         else acts == [SeizeRequest] || AllSrej(acts)
       else PlainReplies(before, up, answer, ft, cr, pf, acts)
  }

  // The actions that are no I frames, in figures.
  lemma ActFigures(vr: nat, pf: nat)
    requires vr < 8 && pf < 2
    ensures UAct(Cmd, SABM, 1) == Send(false, Cmd, UContent(SABM, true, 0, []))
    ensures UAct(Res, DM, pf) == Send(false, Res, UContent(DM, pf == 1, 0, []))
    ensures UAct(Res, UA, pf) == Send(false, Res, UContent(UA, pf == 1, 0, []))
    ensures SAct(Res, RR, vr, pf) == Send(false, Res, SContent(RR, vr, pf == 1, []))
    ensures SAct(Res, RNR, vr, pf) == Send(false, Res, SContent(RNR, vr, pf == 1, []))
    ensures SAct(Cmd, RR, vr, 1) == Send(false, Cmd, SContent(RR, vr, true, []))
    ensures SAct(Cmd, RNR, vr, 1) == Send(false, Cmd, SContent(RNR, vr, true, []))
  {
  }

  /** Actions that were allowed in themselves. */
  lemma ActsWellSent(busy: bool, vr: nat, pf: nat, slots: seq<Slot<Sendable>>)
    requires vr < 8 && pf < 2 && |slots| == SLOTS
    ensures AllWellSent([UAct(Cmd, SABM, 1)], busy, vr, slots) && AllWellSent([], busy, vr, slots)
    ensures AllWellSent([UAct(Res, DM, pf)], busy, vr, slots) && AllWellSent([UAct(Res, UA, pf)], busy, vr, slots)
    ensures AllWellSent([SAct(Res, if busy then RNR else RR, vr, pf)], busy, vr, slots)
    ensures AllWellSent([SAct(Cmd, if busy then RNR else RR, vr, 1)], busy, vr, slots)
    ensures AllWellSent([SeizeRequest], busy, vr, slots)
  {
    hide UAct, SAct, Carries;
    ActFigures(vr, pf);
  }

  lemma SrejsAreSrej(ask: seq<nat>, vr: nat)
    requires Residues(ask)
    ensures AllSrej(Srejs(ask, vr))
  {
    forall i | 0 <= i < |ask|
      ensures IsSupervisory(Srejs(ask, vr)[i]) && Srejs(ask, vr)[i].ct.ftype == SREJ
    {
      SrejsFigures(ask, vr, i);
    }
  }

  /** I frames only, or a SABM. */
  ghost predicate NoneSupervisory(acts: seq<Action>)
  {
    forall i :: 0 <= i < |acts| ==> !IsSupervisory(acts[i])
  }

  lemma {:induction false} TransmissionsNotSupervisory(sent: seq<Sendable>, vr: nat, lo: nat, hi: nat)
    requires lo <= hi <= |sent|
    ensures NoneSupervisory(Transmissions(sent, vr, lo, hi))
    decreases hi
  {
    if lo < hi {
      TransmissionsNotSupervisory(sent, vr, lo, hi - 1);
    }
  }

  lemma {:induction false} ResendsNotSupervisory(slots: seq<Slot<Sendable>>, vr: nat, ns: seq<nat>)
    requires |slots| == SLOTS && Residues(ns)
    ensures NoneSupervisory(Resends(slots, vr, ns))
    decreases |ns|
  {
    if ns != [] {
      ResendsNotSupervisory(slots, vr, ns[..|ns| - 1]);
    }
  }

  lemma SabmNotSupervisory()
    ensures NoneSupervisory([UAct(Cmd, SABM, 1)]) && NoneSupervisory([])
  {
  }

  lemma AgainNotSupervisory(slots: seq<Slot<Sendable>>, vr: nat, nr: nat, vs: nat)
    requires |slots| == SLOTS && nr < 8
    ensures NoneSupervisory(Again(slots, vr, nr, vs))
  {
    hide Resends, Upward, StepsTo;
    ResendsNotSupervisory(slots, vr, Upward(nr, StepsTo(nr, vs)));
  }

  // A supervisory frame other than SREJ is answered by a, and b follows.
  lemma SupervisoryReplies(before: State, after: State, va: nat, vs: nat, busy: bool, vr: nat, ft: FrameType,
                           cr: CmdRes, pf: nat, nr: nat, info: seq<byte>, a: seq<Action>, b: seq<Action>)
    requires ft in {RR, RNR, REJ} && pf < 2 && vr < 8
    requires a == if before == Connected || before == TimerRecovery then
                    if cr == Cmd && pf == 1 then [SAct(Res, if busy then RNR else RR, vr, 1)] else []
                  else if before == Disconnected && cr == Cmd then [UAct(Res, DM, pf)] else []
    requires after == AwaitingConnection && before != AwaitingConnection ==> b == [UAct(Cmd, SABM, 1)]
    requires NoneSupervisory(b) && (before != Connected && before != TimerRecovery ==> b == [])
    ensures FrameReplies(before, after, va, vs, busy, vr, ft, cr, pf, nr, info, a + b)
  {
    hide UAct, SAct, IsGoodNr;
    ActFigures(vr, pf);
    ActFigures(vr, 1);
  }

  // A request for the channel at the end changes nothing.
  lemma MoreSaid(sofar: seq<Action>, acts: seq<Action>, all: seq<Action>, before: State, after: State, va: nat, vs: nat,
                 busy: bool, vr: nat, e: Event, slots: seq<Slot<Sendable>>)
    requires e.Frame? && |slots| == SLOTS && sofar <= acts
    requires all == acts || (all == acts + [SeizeRequest] && after != AwaitingConnection)
    requires AllWellSent(acts[|sofar|..], busy, vr, slots)
    requires FrameReplies(before, after, va, vs, busy, vr, e.ft, e.cr, e.pf, e.nr, e.info, acts[|sofar|..])
    ensures sofar <= all && AllWellSent(all[|sofar|..], busy, vr, slots)
    ensures FrameReplies(before, after, va, vs, busy, vr, e.ft, e.cr, e.pf, e.nr, e.info, Frames(all[|sofar|..]))
  {
    hide WellSent, FrameReplies;
    var more := acts[|sofar|..];
    if all != acts {
      assert all[|sofar|..] == more + [SeizeRequest];
      SeizeWellSent(busy, vr, slots);
    } else {
      FramesReply(before, after, va, vs, busy, vr, e, more);
    }
  }

  lemma FramesReply(before: State, after: State, va: nat, vs: nat, busy: bool, vr: nat, e: Event, acts: seq<Action>)
    requires e.Frame? && FrameReplies(before, after, va, vs, busy, vr, e.ft, e.cr, e.pf, e.nr, e.info, acts)
    ensures FrameReplies(before, after, va, vs, busy, vr, e.ft, e.cr, e.pf, e.nr, e.info, Frames(acts))
  {
    hide IsGoodNr;
  }

  lemma SeizeWellSent(busy: bool, vr: nat, slots: seq<Slot<Sendable>>)
    requires |slots| == SLOTS
    ensures WellSent(SeizeRequest, busy, vr, slots)
  {
  }

  // What answers a frame without a number.
  ghost function UnnumberedAnswer(up: bool, busy: bool, vr: nat, ft: FrameType, cr: CmdRes, pf: nat): seq<Action>
  {
    if ft == SABM then [UAct(Res, UA, pf)]
    else if ft == DISC then [UAct(Res, if up then UA else DM, pf)]
    else if ft in {UA, FRMR} && up then [UAct(Cmd, SABM, 1)]
    else if ft == UI && cr == Cmd && pf == 1 then
      [if up then SAct(Res, if busy then RNR else RR, vr, 1) else UAct(Res, DM, 1)]
    else []
  }

  lemma UnnumberedReplies(before: State, after: State, va: nat, vs: nat, busy: bool, vr: nat, ft: FrameType,
                          cr: CmdRes, pf: nat, nr: nat, info: seq<byte>, slots: seq<Slot<Sendable>>)
    requires ft !in {I, RR, RNR, REJ, SREJ} && pf < 2 && vr < 8 && |slots| == SLOTS
    requires after == AwaitingConnection && before != AwaitingConnection ==>
               (before == Connected || before == TimerRecovery) && ft in {UA, FRMR}
    ensures var acts := UnnumberedAnswer(before == Connected || before == TimerRecovery, busy, vr, ft, cr, pf);
      && FrameReplies(before, after, va, vs, busy, vr, ft, cr, pf, nr, info, acts)
      && AllWellSent(acts, busy, vr, slots)
  {
    hide UAct, SAct, IsGoodNr, WellSent, AllWellSent;
    ActFigures(vr, pf);
    ActFigures(vr, 1);
    ActsWellSent(busy, vr, pf, slots);
    ActsWellSent(busy, vr, 1, slots);
  }

  /** What time makes a link send: when T1 fires, a poll while there is a connection, SABM again while it waits for
      one, and with the last expiry DM with F = 0 or nothing; a poll as well when it is T3 that takes it to timer
      recovery. */
  ghost predicate TimeReplies(s: LinkView, fires: bool, t: LinkView, acts: seq<Action>)
  {
    var poll := Send(false, Cmd, SContent(if s.ownBusy then RNR else RR, t.vr, true, []));
    acts ==
      if !fires then if s.state == Connected && t.state == TimerRecovery then [poll] else []
      else match s.state
        case Connected => [poll]
        case AwaitingConnection =>
          if s.rc == s.limit then [] else [Send(false, Cmd, UContent(SABM, true, 0, []))]
        case TimerRecovery =>
          [if s.rc == s.limit then Send(false, Res, UContent(DM, false, 0, [])) else poll]
        case _ => []
  }

  /** What a link sends once the channel is its own: the frames it now sends for the first time, in order, or an
      acknowledgement with F = 0 if there are none. */
  ghost predicate SeizedReplies(s: LinkView, t: LinkView, acts: seq<Action>)
  {
    && s.sent <= t.sent && |acts| >= |t.sent| - |s.sent|
    && (forall n :: |s.sent| <= n < |t.sent| ==> Carries(acts[n - |s.sent|], t.vr, n % 8, t.sent[n]))
    && (|acts| == |t.sent| - |s.sent|
        || acts == [Send(false, Res, SContent(if s.ownBusy then RNR else RR, t.vr, false, []))])
  }

  /** All but a request for the channel at the end. */
  ghost function Frames(acts: seq<Action>): seq<Action>
  {
    if acts != [] && acts[|acts| - 1] == SeizeRequest then acts[..|acts| - 1] else acts
  }

  /** What each event makes the link send. Nothing else sends a frame for the first time. */
  ghost predicate Replies(s: LinkView, e: Event, t: LinkView)
  {
    && s.actions <= t.actions && (e.Seized? || t.sent == s.sent || t.sent == [])
    && var acts := t.actions[|s.actions|..];
       match e
       case Frame(ft, cr, pf, nr, _, _, info) =>
         FrameReplies(s.state, t.state, s.va, s.vs, s.ownBusy, t.vr, ft, cr, pf, nr, info, Frames(acts))
       case Passed(_) => TimeReplies(s, T1Fires(s, e), t, acts)
       case Seized => SeizedReplies(s, t, acts)
       case _ => acts == []
  }

  /** One event takes the link from s to t. */
  ghost predicate Stepped(s: LinkView, e: Event, t: LinkView)
  {
    && s.Sound() && t.Sound() && e.Possible()
    && Watches(s, e, t) && Retries(s, e, t) && Clock(s, e, t) && Received(s, e, t) && Sends(s, e, t)
    && Connects(s, e, t) && Speaks(s, t) && Replies(s, e, t)
  }

  lemma SoundShape(s: LinkView)
    requires s.Sound()
    ensures |s.slots| == SLOTS
  {
  }

  lemma FramesDoNotRetry(s: LinkView, e: Event, t: LinkView)
    requires e.Frame?
    ensures Retries(s, e, t)
  {
  }

  /** A run: the link before the first event and after every event. */
  ghost predicate IsRun(trace: seq<LinkView>, es: seq<Event>)
  {
    |trace| == |es| + 1 && forall i :: 0 <= i < |es| ==> Stepped(trace[i], es[i], trace[i + 1])
  }

  lemma RunMore(trace: seq<LinkView>, es: seq<Event>, n: nat, t: LinkView)
    requires n < |es| && IsRun(trace, es[..n]) && Stepped(trace[n], es[n], t)
    ensures IsRun(trace + [t], es[..n + 1])
  {
    hide Stepped;
    var more := trace + [t];
    forall i | 0 <= i < n + 1
      ensures Stepped(more[i], es[..n + 1][i], more[i + 1])
    {
      assert i < n ==> Stepped(trace[i], es[..n][i], trace[i + 1]);
    }
  }
}
