/** What holds over whole runs of a data link, proved from what each single event may do to it. */
module LinkRuns {
  import opened Gf256
  import opened Ax25Pad
  import opened LinkSender
  import opened LinkReceiver
  import opened LinkSpec

  lemma StepOf(trace: seq<LinkView>, es: seq<Event>, i: nat)
    requires IsRun(trace, es) && i < |es|
    ensures trace[i].Sound() && trace[i + 1].Sound() && es[i].Possible()
    ensures Watches(trace[i], es[i], trace[i + 1]) && Retries(trace[i], es[i], trace[i + 1])
    ensures Clock(trace[i], es[i], trace[i + 1]) && Received(trace[i], es[i], trace[i + 1])
    ensures Sends(trace[i], es[i], trace[i + 1]) && Connects(trace[i], es[i], trace[i + 1])
    ensures Speaks(trace[i], trace[i + 1]) && Replies(trace[i], es[i], trace[i + 1])
  {
    hide Watches, Retries, Clock, Received, Sends, Connects, Speaks, Replies, LinkView.Sound;
  }

  // ---------- giving up ----------

  /** How often T1 fires in the events from lo up to hi. */
  ghost function Firings(trace: seq<LinkView>, es: seq<Event>, lo: nat, hi: nat): (n: nat)
    requires |trace| == |es| + 1 && lo <= hi <= |es|
    decreases hi
  {
    if lo == hi then 0 else Firings(trace, es, lo, hi - 1) + if T1Fires(trace[hi - 1], es[hi - 1]) then 1 else 0
  }

  /** In any stretch of a run without a received frame, T1 fires at most as often as there were
      expiries left, and after as many the link is disconnected. */
  lemma {:induction false} RetryBound(trace: seq<LinkView>, es: seq<Event>, lo: nat, hi: nat)
    requires IsRun(trace, es) && lo <= hi <= |es| && trace[lo].Sound()
    requires forall i :: lo <= i < hi ==> !es[i].Frame?
    ensures Firings(trace, es, lo, hi) + trace[hi].Left() <= trace[lo].Left()
    ensures Firings(trace, es, lo, hi) <= trace[lo].Left()
    ensures Firings(trace, es, lo, hi) == trace[lo].Left() ==> trace[hi].state == Disconnected
    ensures trace[lo].state == Connected ==> trace[lo].Left() == trace[lo].limit + 1
    decreases hi
  {
    hide T1Fires, Stepped, LinkView.Sound, LinkView.Left, Watches, Clock, Received, Sends, Connects;
    SoundLeft(trace[lo]);
    if lo == hi {
    } else {
      StepOf(trace, es, hi - 1);
      SoundLeft(trace[hi]);
      RetryBound(trace, es, lo, hi - 1);
    }
  }

  lemma SoundLeft(s: LinkView)
    requires s.Sound()
    ensures s.Left() >= 0 && (s.Left() == 0 ==> s.state == Disconnected)
    ensures s.state == Connected ==> s.Left() == s.limit + 1
  {
  }

  // ---------- the watchdog ----------

  /** An SREJ can only starve a link when it does not acknowledge and names the number to be sent next. */
  lemma StarvesOnlyAtVs(s: LinkView, e: Event)
    requires s.Sound() && Starved(s, e)
    ensures e.Frame? && e.ft == SREJ && e.pf == 0 && e.nr == s.vs
  {
    hide Named, IsGoodNr, Kept, InOrder;
    if e.nr != s.vs {
      GoodNrExact(s.acked, |s.sent|, e.nr);
      var n: nat :| InWindow(s.acked, |s.sent|, e.nr, n);
      OutstandingAtHand(s.slots, s.sent, s.acked, n, e.info);
    }
  }

  lemma OutstandingAtHand(slots: seq<Slot<Sendable>>, sent: seq<Sendable>, acked: nat, n: nat, info: seq<byte>)
    requires |slots| == SLOTS && Kept(slots, sent, acked) && acked <= n < |sent|
    ensures exists i :: 0 <= i < |Named(n % 8, info)| && slots[Named(n % 8, info)[i]].Full?
  {
    hide Named;
    assert Named(n % 8, info)[0] == n % 8;
  }

  /** A run from a watched link loses its timers exactly at an SREJ that starves the link: as long as
      there was none, the link is watched. */
  lemma {:induction false} StaysWatched(trace: seq<LinkView>, es: seq<Event>, j: nat)
    requires IsRun(trace, es) && j <= |es| && trace[0].Watched()
    requires forall i :: 0 <= i < j ==> !Starved(trace[i], es[i])
    ensures trace[j].Watched()
  {
    hide Stepped, Speaks, Replies, Starved, LinkView.Watched, Retries, Clock, Received, Sends, Connects, LinkView.Sound;
    if j == 0 {
    } else {
      StaysWatched(trace, es, j - 1);
      StepOf(trace, es, j - 1);
    }
  }

  /** So it is watched at every moment when every SREJ that arrives acknowledges, or names another
      number than the one to be sent next. */
  lemma {:induction false} WatchedUnlessAtVs(trace: seq<LinkView>, es: seq<Event>, j: nat)
    requires IsRun(trace, es) && j <= |es| && trace[0].Watched()
    requires forall i :: 0 <= i < j && es[i].Frame? && es[i].ft == SREJ ==> es[i].pf == 1 || es[i].nr != trace[i].vs
    ensures trace[j].Watched()
  {
    hide Stepped, Speaks, Replies, Starved, LinkView.Watched, Watches, Retries, Clock, Received, Sends, LinkView.Sound;
    forall i | 0 <= i < j
      ensures !Starved(trace[i], es[i])
    {
      StepOf(trace, es, i);
      SoundShape(trace[i]);
      if Starved(trace[i], es[i]) {
        StarvesOnlyAtVs(trace[i], es[i]);
      }
    }
    StaysWatched(trace, es, j);
  }

  /** The first moment without a timer comes right after an SREJ that starves the link. */
  lemma LostAtStarving(trace: seq<LinkView>, es: seq<Event>, j: nat)
    requires IsRun(trace, es) && j < |es| && trace[j].Watched() && !trace[j + 1].Watched()
    ensures Starved(trace[j], es[j])
  {
    hide Stepped, Speaks, Replies, Starved, LinkView.Watched, Retries, Clock, Received, Sends;
    StepOf(trace, es, j);
  }

  // ---------- deliveries ----------

  /** The numbers and data of the I frames among the first n events. */
  ghost function Arrived(es: seq<Event>, n: nat): set<(nat, Data)>
    requires n <= |es|
  {
    if n == 0 then {} else Arrived(es, n - 1) + Offered(es[n - 1])
  }

  /** Nothing is ever accepted that did not arrive in an I frame of the run, or before it. */
  lemma {:induction false} AcceptedArrived(trace: seq<LinkView>, es: seq<Event>, j: nat)
    requires IsRun(trace, es) && j <= |es|
    ensures trace[j].accepted <= trace[0].accepted + Arrived(es, j)
  {
    hide Stepped, Speaks, Replies, Watches, Retries, Clock, Sends, Connects, LinkView.Sound;
    if j == 0 {
    } else {
      AcceptedArrived(trace, es, j - 1);
      StepOf(trace, es, j - 1);
    }
  }

  lemma {:induction false} DeliveriesStay(trace: seq<LinkView>, es: seq<Event>, lo: nat, hi: nat)
    requires IsRun(trace, es) && lo <= hi <= |es|
    ensures trace[lo].delivered <= trace[hi].delivered
    decreases hi
  {
    hide Stepped, Speaks, Replies, Watches, Retries, Clock, Sends, Connects, LinkView.Sound;
    if lo == hi {
    } else {
      DeliveriesStay(trace, es, lo, hi - 1);
      StepOf(trace, es, hi - 1);
    }
  }

  /** Every item handed up in a run was handed up by one event, and by then an I frame had arrived
      that carried it under the number expected in its place: as many modulo eight as were handed up
      before it since the last reset. */
  lemma {:induction false} DeliveredArrived(trace: seq<LinkView>, es: seq<Event>, j: nat, k: nat) returns (i: nat)
    requires IsRun(trace, es) && j <= |es| && |trace[0].delivered| <= k < |trace[j].delivered|
    ensures i < j && |trace[i].delivered| <= k < |trace[i + 1].delivered| && trace[i + 1].since <= k
    ensures ((k - trace[i + 1].since) % 8, trace[j].delivered[k]) in trace[0].accepted + Arrived(es, i + 1)
    decreases j
  {
    hide Stepped, Speaks, Replies, Ahead, Watches, Retries, Clock, Sends, LinkView.Sound;
    if k < |trace[j - 1].delivered| {
      i := DeliveredArrived(trace, es, j - 1, k);
      DeliveriesStay(trace, es, j - 1, j);
    } else {
      i := j - 1;
      StepOf(trace, es, i);
      SoundOrder(trace[i]);
      SoundOrder(trace[j]);
      AcceptedArrived(trace, es, j);
    }
  }

  lemma SoundOrder(s: LinkView)
    requires s.Sound()
    ensures s.since <= |s.delivered|
    ensures forall i :: s.since <= i < |s.delivered| ==> ((i - s.since) % 8, s.delivered[i]) in s.accepted
  {
    forall i | s.since <= i < |s.delivered|
      ensures ((i - s.since) % 8, s.delivered[i]) in s.accepted
    {
      assert (Ahead(i - s.since, 0), s.delivered[i]) in s.accepted;
    }
  }

  // ---------- T1 ----------

  /** The idle time in the events from lo up to hi. */
  ghost function IdleSum(trace: seq<LinkView>, es: seq<Event>, lo: nat, hi: nat): real
    requires |trace| == |es| + 1 && lo <= hi <= |es|
    decreases hi
  {
    if lo == hi then 0.0 else IdleSum(trace, es, lo, hi - 1) + IdleTime(trace[hi - 1], es[hi - 1])
  }

  /** T1 has been running since i, where it was started with its full time or the run begins. */
  ghost predicate RunningSince(trace: seq<LinkView>, es: seq<Event>, i: nat, j: nat)
    requires |trace| == |es| + 1 && i <= j <= |es|
  {
    && (i == 0 || (trace[i].armed == trace[i].t1v && trace[i].idle == 0.0))
    && (forall m :: i <= m <= j ==> trace[m].t1 && trace[m].armed == trace[i].armed && trace[m].t1v == trace[i].t1v)
    && (forall m :: i <= m < j ==> !T1Fires(trace[m], es[m]))
    && trace[j].idle == trace[i].idle + IdleSum(trace, es, i, j)
  }

  lemma {:induction false} WhenStarted(trace: seq<LinkView>, es: seq<Event>, j: nat) returns (i: nat)
    requires IsRun(trace, es) && j <= |es| && trace[j].t1
    ensures i <= j && RunningSince(trace, es, i, j)
  {
    hide Stepped, Speaks, Replies, T1Fires, Watches, Retries, Received, Sends, Connects, LinkView.Sound;
    if j == 0 {
      i := 0;
    } else {
      StepOf(trace, es, j - 1);
      if trace[j].armed == trace[j].t1v && trace[j].idle == 0.0 {
        i := j;
      } else {
        i := WhenStarted(trace, es, j - 1);
      }
    }
  }

  /** T1 never fires early: since it was started, or since the run began, the channel has been idle for
      as long as T1 was started with, and it has run without a break. */
  lemma NeverEarly(trace: seq<LinkView>, es: seq<Event>, j: nat) returns (i: nat)
    requires IsRun(trace, es) && j < |es| && T1Fires(trace[j], es[j])
    ensures i <= j && RunningSince(trace, es, i, j)
    ensures i > 0 ==> IdleSum(trace, es, i, j + 1) >= trace[i].t1v
    ensures i == 0 ==> trace[0].idle + IdleSum(trace, es, 0, j + 1) >= trace[0].armed
  {
    hide Stepped;
    i := WhenStarted(trace, es, j);
    assert IdleSum(trace, es, i, j + 1) == IdleSum(trace, es, i, j) + IdleTime(trace[j], es[j]);
  }

  // ---------- retransmissions ----------

  /** The action carries, under some number, what was first sent under that number. */
  ghost predicate CarriesSent(a: Action, sent: seq<Sendable>)
  {
    exists vr: nat, n: nat :: n < |sent| && Carries(a, vr, n % 8, sent[n])
  }

  lemma CarriesMore(a: Action, sent: seq<Sendable>, more: seq<Sendable>)
    requires CarriesSent(a, sent) && sent <= more
    ensures CarriesSent(a, more)
  {
    hide Carries;
    var vr: nat, n: nat :| n < |sent| && Carries(a, vr, n % 8, sent[n]);
    assert sent[n] == more[n];
  }

  /** Every information frame sent in event i was outstanding after it, and carried what its number stands for,
      with N(R) = V(R). */
  ghost predicate SentGenuine(trace: seq<LinkView>, i: nat)
    requires i + 1 < |trace|
  {
    var s, t := trace[i], trace[i + 1];
    s.actions <= t.actions &&
    forall k :: |s.actions| <= k < |t.actions| && IsData(t.actions[k]) ==> Outstanding(t.actions[k], t)
  }

  ghost predicate Outstanding(a: Action, t: LinkView)
  {
    exists n: nat :: t.acked <= n < |t.sent| && Carries(a, t.vr, n % 8, t.sent[n])
  }

  lemma GenuineSent(trace: seq<LinkView>, es: seq<Event>, i: nat)
    requires IsRun(trace, es) && i < |es|
    ensures SentGenuine(trace, i) <==> !Exhumes(trace[i], es[i])
  {
    hide Stepped, Speaks, Replies, Exhumes, Watches, Retries, Clock, Received, Connects, Genuine, Carries, IsData,
        Outstanding, LinkView.Sound;
    StepOf(trace, es, i);
    SoundVr(trace[i + 1]);
    var s, t := trace[i], trace[i + 1];
    forall k | |s.actions| <= k < |t.actions|
      ensures Genuine(t.actions[k], t.vr, t.acked, t.sent) <==> Outstanding(t.actions[k], t)
    {
      GenuineOutstanding(t.actions[k], t);
    }
    forall k | |s.actions| <= k < |t.actions|
      ensures t.actions[|s.actions|..][k - |s.actions|] == t.actions[k]
    {
    }
  }

  lemma GenuineOutstanding(a: Action, t: LinkView)
    requires t.vr < 8
    ensures Genuine(a, t.vr, t.acked, t.sent) <==> Outstanding(a, t)
  {
    hide Genuine, Carries;
    GenuineFigures(a, t.vr, t.acked, t.sent);
  }

  lemma SoundVr(s: LinkView)
    requires s.Sound()
    ensures s.vr < 8
  {
  }

  /** In any run every information frame sent, for the first time or again, is an outstanding one, if and
      only if no event of the run exhumes anything, which is seen from the link before the event. */
  lemma GenuineExactly(trace: seq<LinkView>, es: seq<Event>, lo: nat, hi: nat)
    requires IsRun(trace, es) && lo <= hi <= |es|
    ensures (forall i :: lo <= i < hi ==> SentGenuine(trace, i)) <==>
            (forall i :: lo <= i < hi ==> !Exhumes(trace[i], es[i]))
  {
    hide Stepped, Exhumes, SentGenuine;
    forall i | lo <= i < hi
      ensures SentGenuine(trace, i) <==> !Exhumes(trace[i], es[i])
    {
      GenuineSent(trace, es, i);
    }
  }

  /** So between resets, unless an event exhumes something, every information frame sent carries what was
      first sent under its number. */
  lemma {:induction false} FramesCarrySent(trace: seq<LinkView>, es: seq<Event>, lo: nat, hi: nat)
    requires IsRun(trace, es) && lo <= hi <= |es|
    requires forall i :: lo <= i < hi ==> trace[i].sent <= trace[i + 1].sent
    requires forall i :: lo <= i < hi ==> !Exhumes(trace[i], es[i])
    ensures trace[lo].actions <= trace[hi].actions
    ensures forall k :: |trace[lo].actions| <= k < |trace[hi].actions| && IsData(trace[hi].actions[k]) ==>
      CarriesSent(trace[hi].actions[k], trace[hi].sent)
    decreases hi
  {
    hide Stepped, Exhumes, CarriesSent, IsData, Outstanding;
    if lo == hi {
    } else {
      FramesCarrySent(trace, es, lo, hi - 1);
      GenuineSent(trace, es, hi - 1);
      var s, t := trace[hi - 1], trace[hi];
      forall k | |trace[lo].actions| <= k < |t.actions| && IsData(t.actions[k])
        ensures CarriesSent(t.actions[k], t.sent)
      {
        if k < |s.actions| {
          assert s.actions[k] == t.actions[k];
          CarriesMore(s.actions[k], s.sent, t.sent);
        } else {
          OutstandingCarries(t.actions[k], t);
        }
      }
    }
  }

  lemma OutstandingCarries(a: Action, t: LinkView)
    requires Outstanding(a, t)
    ensures CarriesSent(a, t.sent)
  {
    hide Carries;
  }

  // ---------- what is sent ----------

  lemma {:induction false} ActionsStay(trace: seq<LinkView>, es: seq<Event>, lo: nat, hi: nat)
    requires IsRun(trace, es) && lo <= hi <= |es|
    ensures trace[lo].actions <= trace[hi].actions
    decreases hi
  {
    hide Stepped, Watches, Retries, Clock, Received, Sends, Connects, Replies, AllWellSent, LinkView.Sound;
    if lo < hi {
      ActionsStay(trace, es, lo, hi - 1);
      StepOf(trace, es, hi - 1);
    }
  }

  /** In any stretch of a run the n-th frame since the reset goes out for the first time when the channel is the
      link's own: a command with N(S) = n modulo eight, N(R) = V(R) and P = 0, and with the data of number n. */
  lemma {:induction false} FirstSent(trace: seq<LinkView>, es: seq<Event>, lo: nat, hi: nat, n: nat) returns (i: nat)
    requires IsRun(trace, es) && lo <= hi <= |es|
    requires forall m :: lo <= m < hi ==> trace[m].sent <= trace[m + 1].sent
    requires |trace[lo].sent| <= n < |trace[hi].sent|
    ensures lo <= i < hi && es[i].Seized? && |trace[i].sent| <= n < |trace[i + 1].sent|
    ensures var k := |trace[i].actions| + (n - |trace[i].sent|);
      k < |trace[hi].actions| && Carries(trace[hi].actions[k], trace[i + 1].vr, n % 8, trace[hi].sent[n])
    decreases hi
  {
    hide Stepped, Watches, Retries, Clock, Received, Sends, Connects, Speaks, FrameReplies, TimeReplies, Carries,
        LinkView.Sound;
    StepOf(trace, es, hi - 1);
    if n < |trace[hi - 1].sent| {
      i := FirstSent(trace, es, lo, hi - 1, n);
      ActionsStay(trace, es, hi - 1, hi);
    } else {
      i := hi - 1;
      var s, t := trace[i], trace[hi];
      assert t.actions[|s.actions|..][n - |s.sent|] == t.actions[|s.actions| + (n - |s.sent|)];
    }
  }

  /** Everything a link sends in a run was allowed when it was sent: an I frame came from a filled slot with
      N(R) = V(R), RR or RNR had N(R) = V(R), and so on. */
  lemma {:induction false} SentWell(trace: seq<LinkView>, es: seq<Event>, lo: nat, hi: nat, k: nat) returns (i: nat)
    requires IsRun(trace, es) && lo <= hi <= |es| && |trace[lo].actions| <= k < |trace[hi].actions|
    ensures lo <= i < hi && |trace[i].actions| <= k < |trace[i + 1].actions| && |trace[i + 1].slots| == SLOTS
    ensures WellSent(trace[hi].actions[k], trace[i].ownBusy, trace[i + 1].vr, trace[i + 1].slots)
    decreases hi
  {
    hide Stepped, Watches, Retries, Clock, Received, Sends, Connects, Replies, WellSent, LinkView.Sound;
    StepOf(trace, es, hi - 1);
    if k < |trace[hi - 1].actions| {
      i := SentWell(trace, es, lo, hi - 1, k);
      ActionsStay(trace, es, hi - 1, hi);
    } else {
      i := hi - 1;
      var s, t := trace[i], trace[hi];
      assert t.actions[|s.actions|..][k - |s.actions|] == t.actions[k];
    }
  }

  /** A link that is ready to receive is so at every later moment. */
  lemma {:induction false} StaysReady(trace: seq<LinkView>, es: seq<Event>, lo: nat, hi: nat)
    requires IsRun(trace, es) && lo <= hi <= |es| && !trace[lo].ownBusy
    ensures !trace[hi].ownBusy
    decreases hi
  {
    hide Stepped, Watches, Retries, Clock, Received, Sends, Connects, Replies, AllWellSent, LinkView.Sound;
    if lo < hi {
      StaysReady(trace, es, lo, hi - 1);
      StepOf(trace, es, hi - 1);
    }
  }

  /** So it never sends an RNR: of the supervisory frames only RR, and SREJ as a response. */
  lemma NeverRnr(trace: seq<LinkView>, es: seq<Event>, lo: nat, hi: nat, k: nat)
    requires IsRun(trace, es) && lo <= hi <= |es| && !trace[lo].ownBusy
    requires |trace[lo].actions| <= k < |trace[hi].actions|
    requires trace[hi].actions[k].Send? && trace[hi].actions[k].ct.SContent?
    ensures var a := trace[hi].actions[k]; a.ct.ftype == RR || (a.ct.ftype == SREJ && a.cr == Res)
  {
    hide Stepped, Carries;
    var i := SentWell(trace, es, lo, hi, k);
    StaysReady(trace, es, lo, i);
  }

  /** And every poll that is answered is answered by RR with F = 1 and N(R) = V(R): while the link is up, an RR,
      RNR, REJ or UI command with P = 1, and an I frame with P = 1 that is taken. */
  lemma PollsAnswered(trace: seq<LinkView>, es: seq<Event>, lo: nat, i: nat)
    requires IsRun(trace, es) && lo <= i < |es| && !trace[lo].ownBusy
    requires es[i].Frame? && es[i].pf == 1 && (trace[i].state == Connected || trace[i].state == TimerRecovery)
    requires (es[i].cr == Cmd && es[i].ft in {RR, RNR, REJ, UI})
          || (es[i].ft == I && |es[i].info| <= MAX_INFO && IsGoodNr(trace[i].va, trace[i].vs, es[i].nr))
    ensures |trace[i].actions| < |trace[i + 1].actions|
    ensures trace[i + 1].actions[|trace[i].actions|] == Send(false, Res, SContent(RR, trace[i + 1].vr, true, []))
  {
    hide Stepped, Watches, Retries, Clock, Received, Sends, Connects, Speaks, IsGoodNr, LinkView.Sound;
    StaysReady(trace, es, lo, i);
    StepOf(trace, es, i);
    var s, t := trace[i], trace[i + 1];
    assert t.actions[|s.actions|..][0] == t.actions[|s.actions|];
  }

  // ---------- getting connected ----------

  /** When every frame reads as having both C bits set, a link in timer recovery becomes connected only by an
      I frame, an SREJ or a SABM. */
  lemma RecoversOnlyBy(trace: seq<LinkView>, es: seq<Event>, i: nat)
    requires IsRun(trace, es) && i < |es|
    requires es[i].Frame? ==> es[i].cr == Cr11
    requires trace[i].state == TimerRecovery && trace[i + 1].state == Connected
    ensures es[i].Frame? && es[i].ft in {I, SREJ, SABM}
  {
    hide Stepped, Speaks, Replies, Watches, Retries, Clock, Received, Sends, LinkView.Sound;
    StepOf(trace, es, i);
  }

  /** So a link in timer recovery that receives none of these, and no UA with F = 1, is at no later moment
      connected, however often the peer acknowledges with RR, RNR or REJ. */
  lemma {:induction false} StaysInRecovery(trace: seq<LinkView>, es: seq<Event>, lo: nat, hi: nat)
    requires IsRun(trace, es) && lo <= hi <= |es| && trace[lo].state != Connected
    requires forall i :: lo <= i < hi && es[i].Frame? ==>
      es[i].cr == Cr11 && es[i].ft !in {I, SREJ, SABM} && !(es[i].ft == UA && es[i].pf == 1)
    ensures trace[hi].state != Connected
    decreases hi
  {
    hide Stepped, Speaks, Replies, Watches, Retries, Clock, Received, Sends, LinkView.Sound;
    if lo == hi {
    } else {
      StaysInRecovery(trace, es, lo, hi - 1);
      StepOf(trace, es, hi - 1);
    }
  }
}
