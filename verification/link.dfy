/** The data link state machine: one link, its timers, its sender and its receiver. */
module Ax25Link {
  import opened Gf256
  import opened Ax25Pad
  import opened LinkTimers
  import opened LinkSender
  import opened LinkReceiver
  import opened LinkSpec

  class Link {
    const maxframe: nat
    const retry: nat
    const frack: real
    const tm: Timers
    const tx: Sender
    const rx: Receiver
    var state: State
    var rc: nat
    var n2Retry: nat
    var layer3Initiated: bool
    var peerReceiverBusy: bool
    var rejectException: bool
    var ownReceiverBusy: bool
    var acknowledgePending: bool
    var dcdStatus: bool
    var pttStatus: bool
    var actions: seq<Action>

    ghost predicate Parts()
      reads tm, tx, tx.txdataByNs, rx, rx.rxdataByNs
    {
      && 1 <= maxframe <= 7 && 1 <= retry <= 15 && frack > 0.0 && tm.Valid() && tx.Valid() && rx.Valid()
      && (tx.txdataByNs as object) != (rx.rxdataByNs as object)
      && (tx.kMaxframe == 0 || tx.kMaxframe == maxframe)
    }

    /** The link is up or coming up, with its parameters loaded. */
    ghost predicate Loaded()
      reads this`n2Retry, tm, tx
    {
      n2Retry == retry && tx.kMaxframe == maxframe && tm.Estimated()
    }

    /** The retry count is zero when connected and from 1 to the limit while retrying; the state
        of awaiting release is never entered. */
    ghost predicate Valid()
      reads this`state, this`rc, this`n2Retry, tm, tx, tx.txdataByNs, rx, rx.rxdataByNs
    {
      && Parts()
      && state != AwaitingRelease
      && (state == Disconnected ==> !tm.IsT1Running())
      && (state != Disconnected ==> Loaded())
      && (state == Connected ==> rc == 0)
      && (state == AwaitingConnection || state == TimerRecovery ==> 1 <= rc <= n2Retry)
      && (state == AwaitingConnection ==> rx.Bare())
    }

    /** Some timer will wake the link up: T1 while it waits for an answer, T1 or T3 when connected. */
    ghost predicate Watched()
      reads this`state, tm
    {
      && (state == AwaitingConnection || state == TimerRecovery ==> tm.IsT1Running())
      && (state == Connected ==> tm.IsT1Running() || tm.IsT3Running())
    }

    predicate Up()
      reads this`state
    {
      state == Connected || state == TimerRecovery
    }

    /** A link that is ready to receive stays so. */
    twostate predicate StaysReady()
      reads this`ownReceiverBusy
    {
      ownReceiverBusy ==> old(ownReceiverBusy)
    }

    predicate GoodNr(nr: nat)
      reads tx`va, tx`vs
    {
      IsGoodNr(tx.va, tx.vs, nr)
    }

    constructor (k: nat, n2: nat, t1: real, start: real, dcd: bool, ptt: bool)
      requires 1 <= k <= 7 && 1 <= n2 <= 15 && t1 > 0.0 && start > 0.0
      ensures Valid() && Watched() && state == Disconnected && actions == []
      ensures maxframe == k && retry == n2 && dcdStatus == dcd && pttStatus == ptt
      ensures rx.accepted == {} && tx.queue == [] && !ownReceiverBusy
      ensures fresh(tm) && fresh(tx) && fresh(rx) && fresh(tx.txdataByNs) && fresh(rx.rxdataByNs)
    {
      maxframe, retry, frack := k, n2, t1;
      tm := new Timers(start);
      tx := new Sender();
      rx := new Receiver();
      state, rc, n2Retry, actions := Disconnected, 0, 0, [];
      layer3Initiated, peerReceiverBusy, rejectException, ownReceiverBusy, acknowledgePending :=
          false, false, false, false, false;
      dcdStatus, pttStatus := dcd, ptt;
    }

    // ---------- sending ----------

    // lm_data_request
    method Request(a: Action)
      modifies this`actions
      ensures actions == old(actions) + [a]
    {
      actions := actions + [a];
    }

    lemma Shapes()
      requires Parts()
      ensures tx.txdataByNs.Length == SLOTS && rx.rxdataByNs.Length == SLOTS
      ensures tx.vs < 8 && tx.va < 8 && rx.vr < 8 && tx.acked <= |tx.sent| <= tx.acked + 7
      ensures tx.vs == tx.va <==> !tx.Outstanding()
    {
      tx.WindowExact();
    }

    /** i_frame_pop_off_queue: send what the window allows, oldest first and nothing twice. */
    method IFramePopOffQueue()
      requires Parts()
      modifies this`actions, this`acknowledgePending, tm, tx`vs, tx`queue, tx`sent, tx.txdataByNs
      ensures Parts() && tx.kMaxframe == old(tx.kMaxframe) && tm.Estimated() == old(tm.Estimated())
          && tx.acked == old(tx.acked)
      ensures Up() ==>
                && old(tx.sent) <= tx.sent && tx.sent + tx.queue == old(tx.sent + tx.queue)
                && actions == old(actions) + Transmissions(tx.sent, rx.vr, |old(tx.sent)|, |tx.sent|)
                && (forall n :: |old(tx.sent)| <= n < |tx.sent| ==>
                      Carries(actions[|old(actions)| + (n - |old(tx.sent)|)], rx.vr, n % 8, tx.sent[n]))
                && (peerReceiverBusy ==> tx.sent == old(tx.sent))
                && (!peerReceiverBusy ==> tx.queue == [] || |tx.sent| == tx.acked + tx.kMaxframe)
      ensures if tx.sent == old(tx.sent) then
                && tm.IsT1Running() == old(tm.IsT1Running()) && tm.IsT3Running() == old(tm.IsT3Running())
                && acknowledgePending == old(acknowledgePending)
              else Up() && tm.IsT1Running() && !tm.IsT3Running() && !acknowledgePending
      ensures !Up() ==> actions == old(actions) && tx.sent == old(tx.sent)
      ensures !Up() ==>
                tx.queue == if state == AwaitingConnection && layer3Initiated
                    && old(tx.queue) != [] then old(tx.queue)[1..] else old(tx.queue)
      ensures tm.Ticks()
    {
      hide Carries, Transmissions, Timers.Valid, Receiver.Valid;
      if tx.queue == [] {
        return;
      }
      match state
      case AwaitingConnection =>
        if layer3Initiated {
          tx.queue := tx.queue[1..];
        }
      case Connected | TimerRecovery =>
        SendAllowed();
        FirstSent(old(actions), |old(tx.sent)|);
      case _ =>
    }

    // What has just been sent for the first time, frame by frame.
    lemma FirstSent(before: seq<Action>, n: nat)
      requires Parts() && n <= |tx.sent| && actions == before + Transmissions(tx.sent, rx.vr, n, |tx.sent|)
      ensures forall m :: n <= m < |tx.sent| ==> Carries(actions[|before| + (m - n)], rx.vr, m % 8, tx.sent[m])
    {
      hide Carries, Transmissions;
      forall m | n <= m < |tx.sent|
        ensures Carries(actions[|before| + (m - n)], rx.vr, m % 8, tx.sent[m])
      {
        TransmissionsCarry(tx.sent, rx.vr, n, |tx.sent|, m - n);
      }
    }

    // The loop of i_frame_pop_off_queue.
    method SendAllowed()
      requires Parts() && Up()
      modifies this`actions, this`acknowledgePending, tm, tx`vs, tx`queue, tx`sent, tx.txdataByNs
      ensures Parts() && tx.kMaxframe == old(tx.kMaxframe) && tm.Estimated() == old(tm.Estimated())
          && tx.acked == old(tx.acked)
      ensures old(tx.sent) <= tx.sent && tx.sent + tx.queue == old(tx.sent + tx.queue)
      ensures actions == old(actions) + Transmissions(tx.sent, rx.vr, |old(tx.sent)|, |tx.sent|)
      ensures peerReceiverBusy ==> tx.sent == old(tx.sent)
      ensures !peerReceiverBusy ==> tx.queue == [] || |tx.sent| == tx.acked + tx.kMaxframe
      ensures if tx.sent == old(tx.sent) then
                && tm.IsT1Running() == old(tm.IsT1Running()) && tm.IsT3Running() == old(tm.IsT3Running())
                && acknowledgePending == old(acknowledgePending)
              else tm.IsT1Running() && !tm.IsT3Running() && !acknowledgePending
      ensures tm.Ticks()
    {
      hide Parts, IAct, Transmissions;
      ghost var s0 := tx.sent;
      TransmissionsNone(tx.sent, rx.vr, |tx.sent|);
      while !peerReceiverBusy && tx.queue != [] && tx.WithinWindowSize()
        invariant Parts() && tm.Ticks() && tx.kMaxframe == old(tx.kMaxframe) && tm.Estimated() == old(tm.Estimated())
            && tx.acked == old(tx.acked)
        invariant s0 <= tx.sent && tx.sent + tx.queue == old(tx.sent + tx.queue)
        invariant actions == old(actions) + Transmissions(tx.sent, rx.vr, |s0|, |tx.sent|)
        invariant peerReceiverBusy ==> tx.sent == s0
        invariant if tx.sent == s0 then
                    && tm.IsT1Running() == old(tm.IsT1Running()) && tm.IsT3Running() == old(tm.IsT3Running())
                    && acknowledgePending == old(acknowledgePending)
                  else tm.IsT1Running() && !tm.IsT3Running() && !acknowledgePending
        decreases |tx.queue|
      {
        ghost var before, q := tx.sent, tx.queue;
        SendOne();
        assert before + q == tx.sent + tx.queue;
        TransmissionsMore(before, tx.sent, rx.vr, |s0|);
      }
      Window();
    }

    lemma Window()
      requires Parts()
      ensures tx.WithinWindowSize() <==> |tx.sent| < tx.acked + tx.kMaxframe
      ensures |tx.sent| <= tx.acked + tx.kMaxframe
    {
      tx.WindowExact();
    }

    method SendOne()
      requires Parts() && Up() && tx.queue != [] && tx.WithinWindowSize()
      modifies this`actions, this`acknowledgePending, tm, tx`vs, tx`queue, tx`sent, tx.txdataByNs
      ensures Parts() && tx.kMaxframe == old(tx.kMaxframe) && tm.Estimated() == old(tm.Estimated())
          && tx.acked == old(tx.acked)
      ensures tx.sent == old(tx.sent) + [old(tx.queue)[0]] && tx.queue == old(tx.queue)[1..]
      ensures actions == old(actions) + [IAct(rx.vr, |old(tx.sent)| % 8, old(tx.queue)[0])]
      ensures Carries(actions[|old(actions)|], rx.vr, |old(tx.sent)| % 8, old(tx.queue)[0])
      ensures tm.IsT1Running() && !tm.IsT3Running() && !acknowledgePending
      ensures tm.Ticks()
    {
      hide IAct, Carries;
      Shapes();
      var ns, d := tx.SendNext();
      ActCarries(rx.vr, ns, d);
      Request(IAct(rx.vr, ns, d));
      acknowledgePending := false;
      tm.StopT3();
      tm.StartT1();
    }

    // ---------- procedures shared by the handlers ----------

    method ClearExceptionConditions()
      requires Parts()
      modifies this`peerReceiverBusy, this`rejectException, this`ownReceiverBusy, this`acknowledgePending, rx.rxdataByNs
      ensures Parts() && rx.Bare()
      ensures !peerReceiverBusy && !rejectException && !ownReceiverBusy && !acknowledgePending
    {
      peerReceiverBusy, rejectException, ownReceiverBusy, acknowledgePending := false, false, false, false;
      rx.Clear();
    }

    /** Ask for a new connection and wait for the answer under T1. */
    method EstablishDataLink()
      requires Parts() && tm.Estimated()
      modifies this`peerReceiverBusy, this`rejectException, this`ownReceiverBusy, this`acknowledgePending, rx.rxdataByNs
      modifies this`rc, this`actions, tm
      ensures Parts() && tm.Estimated() && rx.Bare() && rc == 1
      ensures tm.IsT1Running() && !tm.IsT3Running()
      ensures actions == old(actions) + [UAct(Cmd, SABM, 1)]
      ensures actions == old(actions) + [Send(false, Cmd, UContent(SABM, true, 0, []))]
      ensures !peerReceiverBusy && !rejectException && !ownReceiverBusy && !acknowledgePending
      ensures tm.Ticks()
    {
      hide UAct, Timers.Valid, Sender.Valid, Receiver.Valid;
      ClearExceptionConditions();
      rc := 1;
      RequestSabm();
      tm.StopT3();
      tm.StartT1();
    }

    method RequestSabm()
      modifies this`actions
      ensures actions == old(actions) + [UAct(Cmd, SABM, 1)]
      ensures actions == old(actions) + [Send(false, Cmd, UContent(SABM, true, 0, []))]
    {
      hide UAct;
      ActFigures(0, 1);
      Request(UAct(Cmd, SABM, 1));
    }

    /** The link has given up its old connection and asked for a new one. */
    predicate Reestablished(before: seq<Action>, acts: seq<Action>)
      reads this`state, this`rc
    {
      state == AwaitingConnection && rc == 1 && acts == before + [UAct(Cmd, SABM, 1)]
    }

    // nr_error_recovery, and the change of state that always follows it.
    method NrErrorRecovery()
      requires Parts() && Loaded()
      modifies this`peerReceiverBusy, this`rejectException, this`ownReceiverBusy, this`acknowledgePending, rx.rxdataByNs
      modifies this`rc, this`actions, this`layer3Initiated, this`state, tm
      ensures Valid() && Watched() && !layer3Initiated && !ownReceiverBusy && Reestablished(old(actions), actions)
      ensures tm.Ticks()
    {
      hide UAct;
      EstablishDataLink();
      layer3Initiated := false;
      state := AwaitingConnection;
    }

    /** set_version_2_0: load the parameters. */
    method SetVersion20()
      requires Parts()
      modifies this`n2Retry, tx`kMaxframe
      ensures Parts() && n2Retry == retry && tx.kMaxframe == maxframe
    {
      tx.SetWindow(maxframe);
      n2Retry := retry;
    }

    /** What answers a poll: RNR when this end is busy, RR otherwise, with the next number expected. */
    function EnquiryAct(f: int): Action
      reads this`ownReceiverBusy, rx`vr
    {
      SAct(Res, if ownReceiverBusy then RNR else RR, rx.vr, f)
    }

    method EnquiryResponse(ftype: FrameType, f: int)
      modifies this`actions, this`acknowledgePending
      ensures actions == old(actions) + [EnquiryAct(f)] && !acknowledgePending
      ensures actions == old(actions) +
          [Send(false, Res, SContent(if ownReceiverBusy then RNR else RR, rx.vr % 8, f == 1, []))]
    {
      if f == 1 && (ftype == RR || ftype == RNR || ftype == I) {
        if ownReceiverBusy {
          Request(SAct(Res, RNR, rx.vr, f));
        } else {
          Request(SAct(Res, RR, rx.vr, f));
        }
      } else {
        Request(SAct(Res, if ownReceiverBusy then RNR else RR, rx.vr, f));
      }
      acknowledgePending := false;
    }

    method CheckNeedForResponse(ftype: FrameType, cr: CmdRes, pf: int)
      modifies this`actions, this`acknowledgePending
      ensures actions == old(actions) + (if cr == Cmd && pf == 1 then [EnquiryAct(1)] else [])
    {
      hide EnquiryAct;
      if cr == Cmd && pf == 1 {
        EnquiryResponse(ftype, 1);
      }
    }

    method TransmitEnquiry()
      requires Parts()
      modifies this`actions, this`acknowledgePending, tm
      ensures Parts() && tm.IsT1Running() && tm.Estimated() == old(tm.Estimated()) && !acknowledgePending
      ensures actions == old(actions) + [Poll()] && tm.t3Exp == old(tm.t3Exp)
      ensures actions == old(actions) +
          [Send(false, Cmd, SContent(if ownReceiverBusy then RNR else RR, rx.vr, true, []))]
      ensures tm.Ticks()
    {
      hide SAct, Timers.Valid, Sender.Valid, Receiver.Valid;
      Shapes();
      ActFigures(rx.vr, 1);
      Request(SAct(Cmd, if ownReceiverBusy then RNR else RR, rx.vr, 1));
      acknowledgePending := false;
      tm.StartT1();
    }

    /** SET_VA with a good acknowledgement. */
    method SetVA(nr: nat)
      requires Parts() && nr < 8 && GoodNr(nr)
      modifies tx`va, tx`acked, tx.txdataByNs
      ensures Parts() && tx.va == nr && tx.acked == Acknowledged(old(tx.acked), nr) && tx.OnlyFreed()
    {
      hide Released;
      tx.SetVA(nr);
    }

    /** check_i_frame_ackd: the acknowledgement is taken in every case. T1 runs while the peer is
        busy, stops when everything is acknowledged, and is started by any other progress. */
    method CheckIFrameAckd(nr: nat)
      requires Parts() && nr < 8 && GoodNr(nr) && tm.Estimated()
      modifies tm, tx`va, tx`acked, tx.txdataByNs
      ensures Parts() && tm.Estimated() && tx.va == nr && tx.acked == Acknowledged(old(tx.acked), nr) && tx.OnlyFreed()
      ensures tm.IsT1Running() == if peerReceiverBusy then true else if nr == tx.vs then false
          else old(tm.IsT1Running() || nr != tx.va)
      ensures tm.IsT3Running() == if peerReceiverBusy || nr == tx.vs then true else old(tm.IsT3Running())
      ensures tm.Ticks()
    {
      hide Timers.Valid, Sender.Valid, Receiver.Valid, IsGoodNr, Acknowledged, Released;
      Shapes();
      if peerReceiverBusy {
        SetVA(nr);
        tm.StartT3();
        if !tm.IsT1Running() {
          tm.StartT1();
        }
      } else if nr == tx.vs {
        SetVA(nr);
        tm.StopT1();
        tm.StartT3();
        tm.SelectT1Value(rc);
      } else if nr != tx.va {
        SetVA(nr);
        tm.StartT1();
      } else {
        Unmoved(nr);
      }
    }

    lemma Unmoved(nr: nat)
      requires Parts() && nr == tx.va
      ensures tx.acked == Acknowledged(tx.acked, nr)
      ensures Released(tx.txdataByNs[..], tx.txdataByNs[..], tx.acked, tx.acked)
    {
      SameAcked(tx.acked, nr);
      ReleasedNone(tx.txdataByNs[..], tx.acked);
    }

    /** invoke_retransmission: nothing when the first frame is not at hand, and otherwise whatever is
        at hand from there up to V(S). */
    method InvokeRetransmission(nrInput: nat)
      requires Parts() && nrInput < 8 && tx.txdataByNs.Length == SLOTS
      modifies this`actions
      ensures actions == old(actions) + Again(tx.txdataByNs[..], rx.vr, nrInput, tx.vs)
    {
      hide IAct, Modulo, Parts, Resends, StepsTo, Upward;
      ghost var limit, slots := StepsTo(nrInput, tx.vs), tx.txdataByNs[..];
      Shapes();
      if tx.txdataByNs[nrInput].Empty? {
        return; // not available
      }
      var localVs, sentCount := nrInput, 0;
      ghost var j := 0;
      UpwardNone(slots, rx.vr, nrInput);
      while true
        invariant 0 <= j < limit && localVs == Modulo(nrInput + j)
        invariant actions == old(actions) + Resends(slots, rx.vr, Upward(nrInput, j))
        decreases limit - j
      {
        UpwardMore(slots, rx.vr, nrInput, j);
        var n := SendIfKept(localVs);
        sentCount := sentCount + n;
        StepsMore(nrInput, tx.vs, j);
        localVs := Modulo(localVs + 1);
        j := j + 1;
        if localVs == tx.vs {
          break;
        }
      }
    }

    // What is outstanding is exactly what a REJ for V(A) makes the sender send again.
    lemma AgainOutstanding()
      requires Parts() && tx.va != tx.vs
      ensures tx.va < 8 && tx.txdataByNs.Length == SLOTS && tx.acked <= |tx.sent|
      ensures Again(tx.txdataByNs[..], rx.vr, tx.va, tx.vs) == Transmissions(tx.sent, rx.vr, tx.acked, |tx.sent|)
    {
      hide Resends, Transmissions, StepsTo, Upward;
      tx.WindowExact();
      StepsAre(tx.acked, |tx.sent|);
      assert tx.txdataByNs[..][tx.acked % 8] == Full(tx.sent[tx.acked]);
      OutstandingResends(tx.txdataByNs[..], tx.sent, rx.vr, tx.acked, |tx.sent|);
    }

    /** resend_for_srej: send each frame named, as far as it is still at hand. */
    method ResendForSrej(nr: nat, info: seq<byte>) returns (numResent: nat)
      requires nr < 8 && tx.txdataByNs.Length == SLOTS
      modifies this`actions
      ensures actions == old(actions) + Resends(tx.txdataByNs[..], rx.vr, Named(nr, info))
      ensures numResent == |Resends(tx.txdataByNs[..], rx.vr, Named(nr, info))|
    {
      hide IAct, Resends, Named;
      ghost var slots := tx.txdataByNs[..];
      ResendsMore(slots, rx.vr, [], nr);
      numResent := SendIfKept(nr);
      assert [] + [nr] == [nr] && info[..0] == [];
      NamedNone(nr);
      for j := 0 to |info|
        invariant actions == old(actions) + Resends(slots, rx.vr, Named(nr, info[..j]))
        invariant numResent == |Resends(slots, rx.vr, Named(nr, info[..j]))|
      {
        NamedMore(nr, info, j);
        ResendsMore(slots, rx.vr, Named(nr, info[..j]), info[j] / 32 % 8);
        var n := SendIfKept(info[j] / 32 % 8);
        numResent := numResent + n;
      }
      assert info[..|info|] == info;
    }

    method SendIfKept(ns: nat) returns (n: nat)
      requires tx.txdataByNs.Length == SLOTS && ns < 8
      modifies this`actions
      ensures actions == old(actions) + if tx.txdataByNs[ns].Full? then [IAct(rx.vr, ns, tx.txdataByNs[ns].value)]
          else []
      ensures n == if tx.txdataByNs[ns].Full? then 1 else 0
    {
      hide IAct;
      n := 0;
      if tx.txdataByNs[ns].Full? {
        Request(IAct(rx.vr, ns, tx.txdataByNs[ns].value));
        n := 1;
      }
    }

    // ---------- receiving information ----------

    /** send_srej_frames */
    method SendSrejFrames(resend: seq<nat>)
      requires Residues(resend)
      modifies this`actions, this`acknowledgePending
      ensures actions == old(actions) + Srejs(resend, rx.vr)
      ensures acknowledgePending == (old(acknowledgePending) && rx.vr !in resend)
    {
      hide SAct;
      for i := 0 to |resend|
        invariant actions == old(actions) + Srejs(resend[..i], rx.vr)
        invariant acknowledgePending == (old(acknowledgePending) && rx.vr !in resend[..i])
      {
        var nr := resend[i];
        var f := if nr == rx.vr then 1 else 0;
        if f == 1 {
          acknowledgePending := false;
        }
        Request(SAct(Res, SREJ, nr, f));
        assert resend[..i + 1][..i] == resend[..i] && resend[..i + 1] == resend[..i] + [nr];
      }
      assert resend[..|resend|] == resend;
    }

    /** What an information frame with another number than the one expected is answered with. */
    ghost predicate EarlyAnswer(answer: seq<Action>, p: nat, ns: nat, ask: seq<nat>)
      reads this`ownReceiverBusy, rx, rx.rxdataByNs
    {
      && rx.rxdataByNs.Length == SLOTS
      && if p == 1 then answer == [EnquiryAct(1)]
         else if ownReceiverBusy then answer == [SAct(Res, RNR, rx.vr, 0)]
         else if rx.rxdataByNs[Below(ns, 0)].Full? then answer == []
         else IsMissingRun(ask, rx.rxdataByNs[..], rx.vr, ns) && answer == Srejs(ask, rx.vr)
    }

    /** A frame with the number expected is handed up with the unbroken run that waited for it, and
        acknowledged; any other is kept when it may be ahead, and answered. */
    twostate predicate Continued(p: nat, ns: nat, d: Data, ask: seq<nat>, acts: seq<Action>)
      requires old(rx.Valid()) && rx.rxdataByNs.Length == SLOTS && ns < 8
      reads this`rejectException, this`ownReceiverBusy, this`acknowledgePending, rx, rx.rxdataByNs
    {
      && rx.since == old(rx.since)
      && if ns == old(rx.vr) then
           var count := old(|rx.delivered| - rx.since);
           && rx.delivered == old(rx.delivered) + ([d] + Waiting(old(rx.rxdataByNs[..]), count, 1))
           && Emptied(rx.rxdataByNs[..], old(rx.rxdataByNs[..]), count, |rx.delivered| - old(|rx.delivered|))
           && rx.accepted == old(rx.accepted) + {(ns, d)} && acknowledgePending == (p == 0) && !rejectException
           && acts == old(actions) + if p == 1 then [SAct(Res, RR, rx.vr, 1)]
                                     else if old(acknowledgePending) then [] else [SeizeRequest]
         else
           && rx.delivered == old(rx.delivered) && rx.vr == old(rx.vr) && rejectException == old(rejectException)
           && if old(rejectException) || !IsNsInWindow(old(rx.vr), ns) then
                && rx.rxdataByNs[..] == old(rx.rxdataByNs[..]) && rx.accepted == old(rx.accepted)
                && acts == old(actions) + if p == 0 then [] else if rejectException then [SAct(Res, RR, rx.vr, 1)]
                                          else [EnquiryAct(1)]
              else
                && rx.rxdataByNs[..] == old(rx.rxdataByNs[..])[ns := Full(d)]
                && rx.accepted == old(rx.accepted) + {(ns, d)}
                && old(actions) <= acts && EarlyAnswer(acts[|old(actions)|..], p, ns, ask)
    }

    /** i_frame_continued: a frame with the number expected is handed up together with those that
        waited for it; any other is kept when it may be ahead, and what is missing is asked for. */
    method IFrameContinued(p: nat, ns: nat, d: Data) returns (ghost ask: seq<nat>)
      requires Parts() && ns < 8 && p < 2
      modifies this`actions, this`acknowledgePending, this`rejectException
      modifies rx`vr, rx`delivered, rx`accepted, rx.rxdataByNs
      ensures Parts() && Continued(p, ns, d, ask, actions)
    {
      hide Timers.Valid, Sender.Valid, Receiver.Valid, SAct, IsNsInWindow, Waiting, Emptied;
      ask := [];
      Shapes();
      if ns == rx.vr {
        rejectException := false;
        rx.Accept(d);
        if p != 0 {
          Request(SAct(Res, RR, rx.vr, 1));
          acknowledgePending := false;
        } else if !acknowledgePending {
          acknowledgePending := true;
          Request(SeizeRequest);
        }
      } else if rejectException {
        if p != 0 {
          Request(SAct(Res, RR, rx.vr, 1));
          acknowledgePending := false;
        }
      } else if IsNsInWindow(rx.vr, ns) {
        rx.Store(ns, d);
        ask := AnswerEarly(p, ns);
      } else if p == 1 {
        EnquiryResponse(I, 1);
      }
    }

    // The answer to a frame that came early.
    method AnswerEarly(p: nat, ns: nat) returns (ghost ask: seq<nat>)
      requires Parts() && ns < 8 && p < 2 && IsNsInWindow(rx.vr, ns)
      modifies this`actions, this`acknowledgePending
      ensures old(actions) <= actions && EarlyAnswer(actions[|old(actions)|..], p, ns, ask)
    {
      hide Timers.Valid, Sender.Valid, Receiver.Valid, SAct, IsNsInWindow, Below;
      Shapes();
      BelowLess(ns);
      ask := [];
      if p == 1 {
        EnquiryResponse(I, 1);
      } else if ownReceiverBusy {
        Request(SAct(Res, RNR, rx.vr, 0));
      } else if rx.rxdataByNs[Below(ns, 0)].Empty? {
        var askForResend := rx.MissingBelow(ns);
        ask := askForResend;
        SendSrejFrames(askForResend);
      }
    }

    /** What an information frame does. */
    twostate predicate IFrameDone(cr: CmdRes, p: nat, nr: nat, ns: nat, pid: byte, info: seq<byte>, ask: seq<nat>,
                                  acts: seq<Action>)
      requires old(rx.Valid()) && rx.rxdataByNs.Length == SLOTS && nr < 8 && ns < 8
      reads this`state, this`rc, this`n2Retry, this`peerReceiverBusy, this`rejectException, this`ownReceiverBusy,
          this`acknowledgePending
      reads tm, tx, tx.txdataByNs, rx, rx.rxdataByNs
    {
      && rx.since == old(rx.since) && tx.sent == old(tx.sent) && tx.OnlyFreed()
      && if !old(Up()) then state == old(state) && acts == old(actions + DownAnswer(cr, p)) && rx.Untouched()
         else if |info| > MAX_INFO || old(!GoodNr(nr)) then
           && Reestablished(old(actions), acts) && rx.delivered == old(rx.delivered) && rx.accepted == old(rx.accepted)
           && tx.acked == old(tx.acked)
         else
           && state == (if old(state == TimerRecovery && nr != tx.vs) then TimerRecovery else Connected)
           && tx.acked == Acknowledged(old(tx.acked), nr)
           && if old(ownReceiverBusy) then
                && rx.Untouched() && acknowledgePending == (old(acknowledgePending) && p == 0)
                && acts == old(actions) + if p == 1 then [SAct(Res, RNR, rx.vr, 1)] else []
              else Continued(p, ns, Data(pid, info), ask, acts)
    }

    /** i_frame */
    method IFrame(cr: CmdRes, p: nat, nr: nat, ns: nat, pid: byte, info: seq<byte>) returns (ghost ask: seq<nat>)
      requires Valid() && p < 2 && nr < 8 && ns < 8
      modifies this, tm, tx`va, tx`acked, tx.txdataByNs, rx`vr, rx`delivered, rx`accepted, rx.rxdataByNs
      ensures Valid() && StaysReady() && (old(Watched()) ==> Watched()) && tm.Ticks() && rx.rxdataByNs.Length == SLOTS
      ensures IFrameDone(cr, p, nr, ns, pid, info, ask, actions)
      ensures rx.Grows({(ns, Data(pid, info))})
    {
      hide Timers.Valid, Sender.Valid, Receiver.Valid, UAct, SAct, IsGoodNr, Acknowledged, Continued, Released;
      ask := [];
      Shapes();
      NothingReleased();
      match state
      case Disconnected =>
        if cr == Cmd {
          Request(UAct(Res, DM, p));
        }
      case Connected | TimerRecovery =>
        if |info| > MAX_INFO || !GoodNr(nr) {
          NrErrorRecovery();
        } else {
          ask := IFrameTaken(p, nr, ns, Data(pid, info));
        }
      case _ =>
    }

    lemma NothingReleased()
      requires Parts()
      ensures Released(tx.txdataByNs[..], tx.txdataByNs[..], tx.acked, tx.acked)
    {
      ReleasedNone(tx.txdataByNs[..], tx.acked);
    }

    // A good information frame while the link is up.
    method IFrameTaken(p: nat, nr: nat, ns: nat, d: Data) returns (ghost ask: seq<nat>)
      requires Valid() && Up() && p < 2 && nr < 8 && ns < 8 && GoodNr(nr) && rx.Valid() && rx.rxdataByNs.Length == SLOTS
      modifies this, tm, tx`va, tx`acked, tx.txdataByNs, rx`vr, rx`delivered, rx`accepted, rx.rxdataByNs
      ensures Valid() && StaysReady() && (old(Watched()) ==> Watched()) && tm.Ticks() && rx.Grows({(ns, d)})
      ensures state == (if old(state == TimerRecovery && nr != tx.vs) then TimerRecovery else Connected)
      ensures tx.acked == Acknowledged(old(tx.acked), nr) && tx.OnlyFreed()
      ensures if old(ownReceiverBusy) then
                && rx.Untouched() && acknowledgePending == (old(acknowledgePending) && p == 0)
                && actions == old(actions) + if p == 1 then [SAct(Res, RNR, rx.vr, 1)] else []
              else Continued(p, ns, d, ask, actions)
    {
      hide Timers.Valid, Sender.Valid, Receiver.Valid, SAct, IsGoodNr, Acknowledged, IsNsInWindow, Waiting,
          EarlyAnswer, Below, Emptied, Released;
      ask := [];
      TakeAcknowledgement(nr);
      if ownReceiverBusy {
        if p == 1 {
          Request(SAct(Res, RNR, rx.vr, 1));
          acknowledgePending := false;
        }
      } else {
        ask := IFrameContinued(p, ns, d);
      }
    }

    // The acknowledgement in an information frame; with everything acknowledged the link is connected again.
    method TakeAcknowledgement(nr: nat)
      requires Valid() && Up() && nr < 8 && GoodNr(nr)
      modifies this`state, this`rc, tm, tx`va, tx`acked, tx.txdataByNs
      ensures Valid() && (old(Watched()) ==> Watched())
      ensures state == if old(state) == TimerRecovery && nr != tx.vs then TimerRecovery else Connected
      ensures tx.acked == Acknowledged(old(tx.acked), nr) && tx.OnlyFreed()
      ensures old(state) == TimerRecovery && state == Connected ==> !tm.IsT1Running() && tm.IsT3Running()
      ensures tm.Ticks()
    {
      hide Timers.Valid, Sender.Valid, Receiver.Valid, IsGoodNr, Acknowledged, Released;
      CheckIFrameAckd(nr);
      if state == TimerRecovery && tx.va == tx.vs {
        BackToConnected();
      }
    }

    // Everything is acknowledged: leave timer recovery.
    method BackToConnected()
      requires Parts() && Loaded()
      modifies this`state, this`rc, tm
      ensures Valid() && Watched() && state == Connected && !tm.IsT1Running() && tm.IsT3Running()
      ensures tm.Ticks()
    {
      StopT1AndSelect();
      tm.StartT3();
      rc := 0;
      state := Connected;
    }

    // ---------- supervisory frames ----------

    /** The answer of a link that is down. */
    ghost function DownAnswer(cr: CmdRes, pf: nat): seq<Action>
      reads this`state
    {
      if state == Disconnected && cr == Cmd then [UAct(Res, DM, pf)] else []
    }

    /** The answer due to a supervisory frame: an enquiry response to a command that polls. */
    ghost function PollAnswer(cr: CmdRes, pf: nat): seq<Action>
      reads this`ownReceiverBusy, rx`vr
    {
      if cr == Cmd && pf == 1 then [EnquiryAct(1)] else []
    }

    // Stop T1 and choose its next value.
    method StopT1AndSelect()
      requires Parts() && tm.Estimated()
      modifies tm
      ensures Parts() && tm.Estimated() && !tm.IsT1Running() && tm.IsT3Running() == old(tm.IsT3Running())
      ensures tm.Ticks()
    {
      tm.StopT1();
      tm.SelectT1Value(rc);
    }

    // An acknowledgement that ends a poll in timer recovery.
    method PollEnded(nr: nat)
      requires Valid() && state == TimerRecovery && nr < 8
      modifies this, tm, tx`va, tx`acked, tx.txdataByNs, rx.rxdataByNs
      ensures Valid() && StaysReady() && Watched() && tm.Ticks()
      ensures if old(GoodNr(nr)) then Resumed(nr, old(nr == tx.vs), old(tx.acked), old(actions), actions)
          else Reestablished(old(actions), actions) && tx.acked == old(tx.acked)
      ensures old(GoodNr(nr)) ==> peerReceiverBusy == old(peerReceiverBusy)
      ensures tx.OnlyFreed()
    {
      hide Timers.Valid, Sender.Valid, Receiver.Valid, IsGoodNr, Acknowledged, Transmissions, UAct, Released;
      NothingReleased();
      StopT1AndSelect();
      if !GoodNr(nr) {
        NrErrorRecovery();
        return;
      }
      SetVA(nr);
      Shapes();
      if tx.vs == tx.va {
        tm.StartT3();
        rc := 0;
        state := Connected;
      } else {
        SendAgain();
      }
    }

    /** The acknowledgement is taken; the link is connected again or has sent everything outstanding once more. */
    ghost predicate Resumed(nr: nat, caughtUp: bool, acked: nat, before: seq<Action>, acts: seq<Action>)
      requires nr < 8
      reads this`state, this`acknowledgePending, tm, tx, rx`vr
    {
      && tx.acked == Acknowledged(acked, nr) <= |tx.sent|
      && if caughtUp then state == Connected && acts == before && !tm.IsT1Running() && tm.IsT3Running()
         else state == TimerRecovery && acts == before + Transmissions(tx.sent, rx.vr, tx.acked, |tx.sent|)
              && tm.IsT1Running() && !tm.IsT3Running() && !acknowledgePending
    }

    // Send everything outstanding again and wait under T1.
    method SendAgain()
      requires Parts() && tx.va != tx.vs
      modifies this`actions, this`acknowledgePending, tm
      ensures Parts() && tm.Estimated() == old(tm.Estimated()) && tm.IsT1Running() && !tm.IsT3Running()
          && !acknowledgePending
      ensures tx.acked <= |tx.sent| && actions == old(actions) + Transmissions(tx.sent, rx.vr, tx.acked, |tx.sent|)
      ensures tm.Ticks()
    {
      hide Timers.Valid, Sender.Valid, Receiver.Valid, Transmissions, Again;
      AgainOutstanding();
      InvokeRetransmission(tx.va);
      tm.StopT3();
      tm.StartT1();
      acknowledgePending := false;
    }

    /** What RR and RNR do. In timer recovery only a response leads back to connected. */
    twostate predicate RrRnrDone(ready: bool, cr: CmdRes, pf: nat, nr: nat, acts: seq<Action>)
      requires nr < 8
      reads this`state, this`rc, this`n2Retry, this`peerReceiverBusy, this`rejectException, this`ownReceiverBusy,
          this`acknowledgePending
      reads tm, tx, tx.txdataByNs, rx, rx.rxdataByNs
    {
      tx.OnlyFreed() &&
      if !old(Up()) then state == old(state) && acts == old(actions + DownAnswer(cr, pf))
      else if old(!GoodNr(nr)) then Reestablished(old(actions + PollAnswer(cr, pf)), acts) && tx.acked == old(tx.acked)
      else
        && tx.acked == Acknowledged(old(tx.acked), nr) <= |tx.sent| && peerReceiverBusy == !ready
        && state == (if old(state) == Connected || (cr == Res && nr == tx.vs) then Connected else TimerRecovery)
        && acts == old(actions + PollAnswer(cr, pf))
                   + (if old(state) == TimerRecovery && cr == Res && pf == 1 && nr != tx.vs
                      then Transmissions(tx.sent, rx.vr, tx.acked, |tx.sent|) else [])
        && (old(state) == TimerRecovery && state == Connected ==> !tm.IsT1Running() && tm.IsT3Running())
    }

    /** rr_rnr_frame. In timer recovery only a response leads back to connected. */
    method RrRnrFrame(ready: bool, cr: CmdRes, pf: nat, nr: nat)
      requires Valid() && pf < 2 && nr < 8
      modifies this, tm, tx`va, tx`acked, tx.txdataByNs, rx.rxdataByNs
      ensures Valid() && StaysReady() && (old(Watched()) ==> Watched()) && tm.Ticks()
      ensures RrRnrDone(ready, cr, pf, nr, actions)
    {
      hide Parts, Loaded, Reestablished, IsGoodNr, Acknowledged, Transmissions, UAct, EnquiryAct, Released;
      NothingReleased();
      match state
      case Disconnected =>
        if cr == Cmd {
          Request(UAct(Res, DM, pf));
        }
      case Connected =>
        RrRnrConnected(ready, cr, pf, nr);
      case TimerRecovery =>
        peerReceiverBusy := !ready;
        if cr == Res && pf == 1 {
          assert actions + PollAnswer(cr, pf) == actions;
          PollEnded(nr);
        } else {
          if cr == Cmd && pf == 1 {
            EnquiryResponse(if ready then RR else RNR, 1);
          }
          assert actions == old(actions + PollAnswer(cr, pf));
          AcknowledgedOnly(cr, pf, nr);
        }
      case _ =>
    }

    // rr_rnr_frame when connected.
    method RrRnrConnected(ready: bool, cr: CmdRes, pf: nat, nr: nat)
      requires Valid() && state == Connected && pf < 2 && nr < 8
      modifies this, tm, tx`va, tx`acked, tx.txdataByNs, rx.rxdataByNs
      ensures Valid() && StaysReady() && (old(Watched()) ==> Watched()) && tm.Ticks()
      ensures RrRnrDone(ready, cr, pf, nr, actions)
    {
      hide Timers.Valid, Sender.Valid, Receiver.Valid, IsGoodNr, Acknowledged, UAct, EnquiryAct, Released;
      NothingReleased();
      peerReceiverBusy := !ready;
      if cr == Cmd && pf != 0 {
        CheckNeedForResponse(if ready then RR else RNR, cr, pf);
      }
      if GoodNr(nr) {
        CheckIFrameAckd(nr);
        Shapes();
      } else {
        NrErrorRecovery();
      }
    }

    // The acknowledgement of an RR or RNR that does not end a poll.
    method AcknowledgedOnly(cr: CmdRes, pf: nat, nr: nat)
      requires Valid() && state == TimerRecovery && nr < 8
      modifies this, tm, tx`va, tx`acked, tx.txdataByNs, rx.rxdataByNs
      ensures Valid() && StaysReady() && (old(Watched()) ==> Watched()) && tm.Ticks()
      ensures old(!GoodNr(nr)) ==> Reestablished(old(actions), actions) && tx.acked == old(tx.acked)
      ensures tx.OnlyFreed()
      ensures old(GoodNr(nr)) ==>
                && tx.acked == Acknowledged(old(tx.acked), nr) <= |tx.sent|
                && peerReceiverBusy == old(peerReceiverBusy) && actions == old(actions)
                && state == if cr == Res && pf == 0 && nr == tx.vs then Connected else TimerRecovery
      ensures state == Connected ==> !tm.IsT1Running() && tm.IsT3Running()
    {
      hide Timers.Valid, Sender.Valid, Receiver.Valid, IsGoodNr, Acknowledged, UAct, Released;
      NothingReleased();
      if !GoodNr(nr) {
        NrErrorRecovery();
        return;
      }
      SetVA(nr);
      Shapes();
      if cr == Res && pf == 0 && tx.vs == tx.va {
        BackToConnected();
      }
    }

    // rej_frame when connected.
    method RejConnected(cr: CmdRes, pf: nat, nr: nat)
      requires Valid() && state == Connected && pf < 2 && nr < 8
      modifies this, tm, tx`va, tx`acked, tx.txdataByNs, rx.rxdataByNs
      ensures Valid() && StaysReady() && (old(Watched()) ==> Watched()) && tm.Ticks()
      ensures tx.txdataByNs.Length == SLOTS && RejDone(cr, pf, nr, actions)
    {
      hide Timers.Valid, Sender.Valid, Receiver.Valid, IsGoodNr, Acknowledged, Transmissions, UAct, EnquiryAct, Again,
          Released;
      SlotsThere();
      NothingReleased();
      peerReceiverBusy := false;
      CheckNeedForResponse(REJ, cr, pf);
      assert actions == old(actions + PollAnswer(cr, pf));
      if !GoodNr(nr) {
        NrErrorRecovery();
        return;
      }
      TakeReject(nr);
    }

    // Take the acknowledgement of a REJ and send everything from there on again.
    method TakeReject(nr: nat)
      requires Valid() && state == Connected && nr < 8 && GoodNr(nr)
      modifies this`actions, this`acknowledgePending, tm, tx`va, tx`acked, tx.txdataByNs
      ensures Valid() && tx.txdataByNs.Length == SLOTS && tx.acked == Acknowledged(old(tx.acked), nr) <= |tx.sent|
      ensures tx.OnlyFreed()
      ensures tm.IsT1Running() && !tm.IsT3Running() && !acknowledgePending && tm.Ticks()
      ensures actions == old(actions) + Again(tx.txdataByNs[..], rx.vr, nr, tx.vs)
      ensures nr != tx.vs ==> actions == old(actions) + Transmissions(tx.sent, rx.vr, tx.acked, |tx.sent|)
    {
      hide Timers.Valid, Sender.Valid, Receiver.Valid, IsGoodNr, Acknowledged, Transmissions, Again, Released;
      AcknowledgedByReject(nr);
      Shapes();
      if nr != tx.vs {
        AgainOutstanding();
      }
      InvokeRetransmission(nr);
      tm.StartT1();
      acknowledgePending := false;
    }

    method AcknowledgedByReject(nr: nat)
      requires Parts() && nr < 8 && GoodNr(nr) && tm.Estimated()
      modifies tm, tx`va, tx`acked, tx.txdataByNs
      ensures Parts() && tm.Estimated() && tx.va == nr && tx.acked == Acknowledged(old(tx.acked), nr) <= |tx.sent|
      ensures tm.Ticks() && !tm.IsT1Running() && !tm.IsT3Running() && tx.OnlyFreed()
    {
      hide Timers.Valid, Sender.Valid, Receiver.Valid, IsGoodNr, Acknowledged, Released;
      SetVA(nr);
      Shapes();
      tm.StopT3();
      StopT1AndSelect();
    }

    // The acknowledgement of a REJ that does not end a poll.
    method RejInRecovery(nr: nat)
      requires Valid() && state == TimerRecovery && nr < 8
      modifies this, tm, tx`va, tx`acked, tx.txdataByNs, rx.rxdataByNs
      ensures Valid() && StaysReady() && (old(Watched()) ==> Watched()) && tm.Ticks()
      ensures old(!GoodNr(nr)) ==> Reestablished(old(actions), actions) && tx.acked == old(tx.acked)
      ensures tx.OnlyFreed()
      ensures old(GoodNr(nr)) ==>
                && state == TimerRecovery && tx.acked == Acknowledged(old(tx.acked), nr) <= |tx.sent|
                && actions == old(actions) + (if nr == tx.vs then []
                    else Transmissions(tx.sent, rx.vr, tx.acked, |tx.sent|))
                && peerReceiverBusy == old(peerReceiverBusy)
                    && (nr != tx.vs ==> !tm.IsT3Running() && !acknowledgePending)
    {
      hide Timers.Valid, Sender.Valid, Receiver.Valid, IsGoodNr, Acknowledged, Transmissions, UAct, Released;
      NothingReleased();
      if !GoodNr(nr) {
        NrErrorRecovery();
        return;
      }
      SetVA(nr);
      Shapes();
      if tx.vs != tx.va {
        SendAgain();
      }
    }

    /** What a REJ does: everything from N(R) on is sent again. */
    twostate predicate RejDone(cr: CmdRes, pf: nat, nr: nat, acts: seq<Action>)
      requires nr < 8 && tx.txdataByNs.Length == SLOTS
      reads this`state, this`rc, this`n2Retry, this`peerReceiverBusy, this`rejectException, this`ownReceiverBusy,
          this`acknowledgePending
      reads tm, tx, tx.txdataByNs, rx, rx.rxdataByNs
    {
      tx.OnlyFreed() &&
      if !old(Up()) then state == old(state) && acts == old(actions + DownAnswer(cr, pf))
      else if old(!GoodNr(nr)) then Reestablished(old(actions + PollAnswer(cr, pf)), acts) && tx.acked == old(tx.acked)
      else
        && tx.acked == Acknowledged(old(tx.acked), nr) <= |tx.sent| && !peerReceiverBusy
        && state == (if old(state) == Connected
            || (cr == Res && pf == 1 && nr == tx.vs) then Connected else TimerRecovery)
        && acts == old(actions + PollAnswer(cr, pf))
                   + (if nr != tx.vs then Transmissions(tx.sent, rx.vr, tx.acked, |tx.sent|)
                      else if old(state) == Connected then Again(tx.txdataByNs[..], rx.vr, nr, tx.vs) else [])
        && (nr != tx.vs ==> !tm.IsT3Running() && !acknowledgePending)
        && (old(state) == TimerRecovery && state == Connected ==> !tm.IsT1Running() && tm.IsT3Running())
    }

    /** rej_frame: everything from N(R) on is sent again. */
    method RejFrame(cr: CmdRes, pf: nat, nr: nat)
      requires Valid() && pf < 2 && nr < 8
      modifies this, tm, tx`va, tx`acked, tx.txdataByNs, rx.rxdataByNs
      ensures Valid() && StaysReady() && (old(Watched()) ==> Watched()) && tm.Ticks()
      ensures tx.txdataByNs.Length == SLOTS && RejDone(cr, pf, nr, actions)
    {
      hide Parts, Loaded, Reestablished, IsGoodNr, Acknowledged, Transmissions, UAct, EnquiryAct, Again, Released;
      SlotsThere();
      NothingReleased();
      match state
      case Disconnected =>
        if cr == Cmd {
          Request(UAct(Res, DM, pf));
        }
      case Connected =>
        RejConnected(cr, pf, nr);
      case TimerRecovery =>
        peerReceiverBusy := false;
        if cr == Res && pf == 1 {
          assert actions + PollAnswer(cr, pf) == actions;
          PollEnded(nr);
        } else {
          if cr == Cmd && pf == 1 {
            EnquiryResponse(REJ, 1);
          }
          assert actions == old(actions + PollAnswer(cr, pf));
          RejInRecovery(nr);
        }
      case _ =>
    }

    /** The SREJ leaves the link without a timer. */
    ghost predicate Starves(f: nat, nr: nat, info: seq<byte>)
      requires nr < 8 && tx.txdataByNs.Length == SLOTS
      reads this`state, tx`va, tx`vs, tx.txdataByNs
    {
      SrejStarves(state, tx.va, tx.vs, tx.txdataByNs[..], f, nr, info)
    }

    // Send what the SREJ names and, if there was anything, wait for it under T1.
    method ResendNamed(nr: nat, info: seq<byte>)
      requires Parts() && nr < 8 && tx.txdataByNs.Length == SLOTS
      modifies this`actions, this`acknowledgePending, tm
      ensures Parts() && tm.Estimated() == old(tm.Estimated())
      ensures actions == old(actions) + Resends(tx.txdataByNs[..], rx.vr, Named(nr, info))
      ensures if Resends(tx.txdataByNs[..], rx.vr, Named(nr, info)) == [] then
                tm.IsT1Running() == old(tm.IsT1Running()) && tm.IsT3Running() == old(tm.IsT3Running())
              else tm.IsT1Running() && !tm.IsT3Running() && !acknowledgePending
      ensures tm.Ticks()
    {
      hide Timers.Valid, Sender.Valid, Receiver.Valid, Resends, Named;
      var numResent := ResendForSrej(nr, info);
      if numResent != 0 {
        tm.StopT3();
        tm.StartT1();
        acknowledgePending := false;
      }
    }

    // srej_frame when connected.
    method SrejConnected(f: nat, nr: nat, info: seq<byte>)
      requires Valid() && state == Connected && nr < 8 && tx.txdataByNs.Length == SLOTS
      modifies this, tm, tx`va, tx`acked, tx.txdataByNs, rx.rxdataByNs
      ensures Valid() && StaysReady() && tm.Ticks() && tx.txdataByNs.Length == SLOTS && SrejDone(f, nr, info, actions)
    {
      hide Timers.Valid, Sender.Valid, Receiver.Valid, IsGoodNr, Acknowledged, Resends, Named, UAct, Released;
      Shapes();
      NothingReleased();
      peerReceiverBusy := false;
      if !GoodNr(nr) {
        NrErrorRecovery();
        return;
      }
      if f != 0 {
        SetVA(nr);
      }
      StopT1AndSelect();
      tm.StartT3();
      ResendNamed(nr, info);
    }

    // srej_frame in timer recovery.
    method SrejInRecovery(f: nat, nr: nat, info: seq<byte>)
      requires Valid() && state == TimerRecovery && nr < 8 && tx.txdataByNs.Length == SLOTS
      modifies this, tm, tx`va, tx`acked, tx.txdataByNs, rx.rxdataByNs
      ensures Valid() && StaysReady() && tm.Ticks() && tx.txdataByNs.Length == SLOTS && SrejDone(f, nr, info, actions)
    {
      hide Timers.Valid, Sender.Valid, Receiver.Valid, IsGoodNr, Acknowledged, Resends, Named, UAct, Released;
      NothingReleased();
      peerReceiverBusy := false;
      StopT1AndSelect();
      if !GoodNr(nr) {
        NrErrorRecovery();
        return;
      }
      SrejRecovers(f, nr, info);
    }

    // Take what the SREJ acknowledges and send what it names.
    method SrejRecovers(f: nat, nr: nat, info: seq<byte>)
      requires Valid() && state == TimerRecovery && nr < 8 && tx.txdataByNs.Length == SLOTS && GoodNr(nr)
          && !tm.IsT1Running()
      modifies this`state, this`rc, this`actions, this`acknowledgePending, tm, tx`va, tx`acked, tx.txdataByNs
      ensures Valid() && tm.Ticks() && (Watched() <==> !old(Starves(f, nr, info)))
      ensures tx.acked == if f != 0 then Acknowledged(old(tx.acked), nr) else old(tx.acked)
      ensures tx.OnlyFreed() && tx.va == if f != 0 then nr else old(tx.va)
      ensures tx.va == tx.vs ==> state == Connected && actions == old(actions) && !tm.IsT1Running() && tm.IsT3Running()
      ensures tx.va != tx.vs ==>
                state == TimerRecovery && actions == old(actions) + Resends(tx.txdataByNs[..], rx.vr, Named(nr, info))
    {
      hide Timers.Valid, Sender.Valid, Receiver.Valid, IsGoodNr, Acknowledged, Resends, Named, UAct, Released;
      NothingReleased();
      if f != 0 {
        SetVA(nr);
        Shapes();
        if nr != tx.vs {
          StillAtHand(nr, info);
        }
      }
      if tx.vs == tx.va {
        tm.StartT3();
        rc := 0;
        state := Connected;
      } else {
        ResendsSome(tx.txdataByNs[..], rx.vr, Named(nr, info));
        ResendNamed(nr, info);
      }
    }

    lemma StillAtHand(nr: nat, info: seq<byte>)
      requires Parts() && nr < 8 && nr == tx.va && nr != tx.vs && tx.txdataByNs.Length == SLOTS
      ensures Resends(tx.txdataByNs[..], rx.vr, Named(nr, info)) != []
    {
      Shapes();
      ResendsSome(tx.txdataByNs[..], rx.vr, Named(nr, info));
      assert tx.txdataByNs[..][tx.acked % 8] == Full(tx.sent[tx.acked]);
      assert Named(nr, info)[0] == nr;
    }

    /** What an SREJ does: the frames named are sent again as far as they are at hand. The link stays
        watched by a timer except after an SREJ that starves it. */
    twostate predicate SrejDone(f: nat, nr: nat, info: seq<byte>, acts: seq<Action>)
      requires nr < 8 && tx.txdataByNs.Length == SLOTS
      reads this`state, this`rc, this`n2Retry, this`peerReceiverBusy, this`rejectException, this`ownReceiverBusy,
          this`acknowledgePending
      reads tm, tx, tx.txdataByNs, rx, rx.rxdataByNs
    {
      && (old(Watched()) ==> (Watched() <==> !old(Starves(f, nr, info)))) && tx.OnlyFreed()
      && if !old(Up()) then state == old(state) && acts == old(actions)
         else if old(!GoodNr(nr)) then Reestablished(old(actions), acts) && tx.acked == old(tx.acked)
         else
           && tx.acked == (if f != 0 then Acknowledged(old(tx.acked), nr) else old(tx.acked)) && !peerReceiverBusy
           && tx.va == (if f != 0 then nr else old(tx.va))
           && if old(state) == TimerRecovery && tx.va == tx.vs then
                state == Connected && acts == old(actions) && !tm.IsT1Running() && tm.IsT3Running()
              else state == old(state) && acts == old(actions) + Resends(tx.txdataByNs[..], rx.vr, Named(nr, info))
    }

    /** srej_frame: the frames named are sent again as far as they are at hand. The link stays
        watched by a timer except after an SREJ that starves it. */
    method SrejFrame(f: nat, nr: nat, info: seq<byte>)
      requires Valid() && nr < 8 && tx.txdataByNs.Length == SLOTS
      modifies this, tm, tx`va, tx`acked, tx.txdataByNs, rx.rxdataByNs
      ensures Valid() && StaysReady() && tm.Ticks() && tx.txdataByNs.Length == SLOTS && SrejDone(f, nr, info, actions)
      ensures f == 0 ==> tx.txdataByNs[..] == old(tx.txdataByNs[..])
    {
      hide Parts, Loaded, Reestablished, IsGoodNr, Acknowledged, Resends, Named, Released;
      NothingReleased();
      ghost var slots := tx.txdataByNs[..];
      match state {
      case Connected =>
        SrejConnected(f, nr, info);
      case TimerRecovery =>
        SrejInRecovery(f, nr, info);
      case _ =>
      }
      if f == 0 {
        ReleasedSame(slots, tx.txdataByNs[..], tx.acked);
      }
    }

    // ---------- unnumbered frames ----------

    /** A reset empties only the run of filled slots that ends with the seventh; when that one is empty
        already, every slot stays as it was. */
    twostate predicate SlotsWalked()
      reads tx, tx.txdataByNs
    {
      && tx.txdataByNs.Length == SLOTS && Walked(old(tx.txdataByNs[..]), tx.txdataByNs[..], 0)
      && (old(tx.txdataByNs[7]).Empty? ==> tx.txdataByNs[..] == old(tx.txdataByNs[..]))
    }

    // SET_VS(0), SET_VA(0), SET_VR(0)
    method ResetNumbers()
      requires Parts() && rx.Bare()
      modifies tx`vs, tx`va, tx`sent, tx`acked, tx.txdataByNs, rx`vr, rx`since, rx`accepted
      ensures Parts() && Fresh() && SlotsWalked()
    {
      hide Walked;
      tx.Reset();
      rx.Reset();
    }

    // Connected, with fresh numbers and under T3.
    method StartAfresh()
      requires Parts() && Loaded() && rx.Bare()
      requires !tm.IsT1Running()
      modifies this`state, this`rc, tm, tx`vs, tx`va, tx`sent, tx`acked, tx.txdataByNs, rx`vr, rx`since, rx`accepted
      ensures Valid() && Watched() && state == Connected && Fresh() && !tm.IsT1Running() && tm.IsT3Running()
      ensures tm.Ticks() && SlotsWalked()
    {
      hide Timers.Valid, Sender.Valid, Receiver.Valid, Walked;
      tm.StartT3();
      ResetNumbers();
      rc := 0;
      state := Connected;
    }

    /** Numbering starts from zero in both directions. */
    ghost predicate Fresh()
      reads tx, rx
    {
      tx.sent == [] && tx.acked == 0 && rx.since == |rx.delivered| && rx.accepted == {}
    }

    /** What a SABM does: it is answered with UA, and the link is connected with fresh numbers, unless
        it is itself waiting for an answer. */
    twostate predicate SabmDone(p: nat, acts: seq<Action>)
      reads this`state, this`rc, this`n2Retry, this`peerReceiverBusy, this`rejectException, this`ownReceiverBusy,
          this`acknowledgePending
      reads tm, tx, tx.txdataByNs, rx, rx.rxdataByNs
    {
      && acts == old(actions) + [UAct(Res, UA, p)]
      && if old(state) == AwaitingConnection then
           && state == AwaitingConnection && tx.sent == old(tx.sent) && tx.queue == old(tx.queue) && rx.Untouched()
           && tx.txdataByNs[..] == old(tx.txdataByNs[..]) && tx.acked == old(tx.acked)
         else
           && state == Connected && Fresh() && SlotsWalked() && !tm.IsT1Running() && tm.IsT3Running()
           && !peerReceiverBusy && !rejectException && !ownReceiverBusy && !acknowledgePending
           && tx.queue == if old(Up() && tx.vs != tx.va) then [] else old(tx.queue)
    }

    /** sabm_frame: answered with UA, and the link is connected with fresh numbers, unless it is
        itself waiting for an answer. */
    method SabmFrame(p: nat)
      requires Valid()
      modifies this, tm, tx, tx.txdataByNs, rx`vr, rx`since, rx`accepted, rx.rxdataByNs
      ensures Valid() && StaysReady() && (old(Watched()) ==> Watched()) && tm.Ticks()
      ensures SabmDone(p, actions)
      ensures rx.Grows({}) && (tx.sent == old(tx.sent) || tx.sent == [])
    {
      hide Timers.Valid, Sender.Valid, Receiver.Valid, UAct, Walked;
      match state
      case Disconnected =>
        Connect(p);
      case AwaitingConnection =>
        Request(UAct(Res, UA, p));
      case Connected | TimerRecovery =>
        Request(UAct(Res, UA, p));
        ResetLink();
      case _ =>
    }

    // A connection is asked for while there is none.
    method Connect(p: nat)
      requires Valid() && state == Disconnected
      modifies this, tm, tx`kMaxframe, tx`vs, tx`va, tx`sent, tx`acked, tx.txdataByNs, rx`vr, rx`since, rx`accepted,
          rx.rxdataByNs
      ensures Valid() && StaysReady() && Watched() && state == Connected && Fresh() && SlotsWalked()
      ensures actions == old(actions) + [UAct(Res, UA, p)] && !tm.IsT1Running() && tm.IsT3Running() && tm.Ticks()
      ensures !peerReceiverBusy && !rejectException && !ownReceiverBusy && !acknowledgePending
    {
      hide Timers.Valid, Sender.Valid, Receiver.Valid, UAct, Walked;
      SetVersion20();
      Request(UAct(Res, UA, p));
      ClearExceptionConditions();
      tm.InitT1v(frack);
      StartAfresh();
    }

    // A connection is asked for while there is one.
    method ResetLink()
      requires Valid() && Up()
      modifies this, tm, tx, tx.txdataByNs, rx`vr, rx`since, rx`accepted, rx.rxdataByNs
      ensures Valid() && StaysReady() && Watched() && state == Connected && Fresh() && actions == old(actions)
      ensures !tm.IsT1Running() && tm.IsT3Running()
      ensures !peerReceiverBusy && !rejectException && !ownReceiverBusy && !acknowledgePending
      ensures tx.queue == if old(tx.vs != tx.va) then [] else old(tx.queue)
      ensures tm.Ticks() && SlotsWalked()
    {
      hide Timers.Valid, Sender.Valid, Receiver.Valid, Receiver.Bare, Walked;
      ForgetLink();
      StartAfresh();
    }

    // Drop what the old connection left behind.
    method ForgetLink()
      requires Valid() && Up()
      modifies this`n2Retry, this`peerReceiverBusy, this`rejectException, this`ownReceiverBusy, this`acknowledgePending
      modifies tm, tx`kMaxframe, tx`queue, rx.rxdataByNs
      ensures Parts() && Loaded() && rx.Bare() && !tm.IsT1Running() && tm.Ticks()
      ensures !peerReceiverBusy && !rejectException && !ownReceiverBusy && !acknowledgePending
      ensures tx.queue == if old(tx.vs != tx.va) then [] else old(tx.queue)
    {
      hide Timers.Valid, Sender.Valid, Receiver.Valid, Receiver.Bare;
      if state == TimerRecovery {
        SetVersion20();
      }
      ClearExceptionConditions();
      if tx.vs != tx.va {
        tx.DiscardQueue();
      }
      tm.StopT1();
    }

    // Both timers are stopped and the link is disconnected.
    method Disconnect()
      requires Parts()
      modifies this`state, tm
      ensures Valid() && state == Disconnected && Watched() && !tm.IsT1Running() && !tm.IsT3Running()
      ensures tm.Ticks()
    {
      tm.StopT1();
      tm.StopT3();
      state := Disconnected;
    }

    twostate predicate DiscDone(p: nat, acts: seq<Action>)
      reads this`state, tm, tx`queue
    {
      if old(Up()) then
        && state == Disconnected && acts == old(actions) + [UAct(Res, UA, p)] && tx.queue == []
        && !tm.IsT1Running() && !tm.IsT3Running()
      else state == old(state) && acts == old(actions) + [UAct(Res, DM, p)] && tx.queue == old(tx.queue)
    }

    /** disc_frame */
    method DiscFrame(p: nat)
      requires Valid()
      modifies this, tm, tx`queue
      ensures Valid() && StaysReady() && (old(Watched()) ==> Watched()) && tm.Ticks()
      ensures DiscDone(p, actions)
    {
      hide Timers.Valid, Sender.Valid, Receiver.Valid, UAct;
      match state
      case Connected | TimerRecovery =>
        tx.DiscardQueue();
        Request(UAct(Res, UA, p));
        Disconnect();
      case Disconnected | AwaitingConnection =>
        Request(UAct(Res, DM, p));
      case AwaitingRelease =>
    }

    twostate predicate DmDone(f: nat, acts: seq<Action>)
      reads this`state, tm, tx`queue
    {
      && acts == old(actions)
      && if old(Up() || (state == AwaitingConnection && f == 1)) then
           state == Disconnected && tx.queue == [] && (old(Up()) ==> !tm.IsT1Running() && !tm.IsT3Running())
         else state == old(state) && tx.queue == old(tx.queue)
    }

    /** dm_frame */
    method DmFrame(f: nat)
      requires Valid()
      modifies this, tm, tx`queue
      ensures Valid() && StaysReady() && (old(Watched()) ==> Watched()) && tm.Ticks()
      ensures DmDone(f, actions)
    {
      hide Timers.Valid, Sender.Valid, Receiver.Valid;
      match state
      case AwaitingConnection =>
        if f == 1 {
          tx.DiscardQueue();
          tm.StopT1();
          state := Disconnected;
        }
      case Connected | TimerRecovery =>
        tx.DiscardQueue();
        Disconnect();
      case _ =>
    }

    /** What a UA does: the answer waited for connects the link; when it is up, a stray one starts it over. */
    twostate predicate UaDone(f: nat, acts: seq<Action>)
      reads this`state, this`rc, this`n2Retry, this`peerReceiverBusy, this`rejectException, this`ownReceiverBusy,
          this`acknowledgePending
      reads tm, tx, tx.txdataByNs, rx, rx.rxdataByNs
    {
      if old(Up()) then Reestablished(old(actions), acts) && tx.sent == old(tx.sent) && rx.accepted == old(rx.accepted)
          && rx.since == old(rx.since)
      else
        && acts == old(actions)
        && if old(state) == AwaitingConnection && f == 1 then
             state == Connected && Fresh() && SlotsWalked() && !tm.IsT1Running() && tm.IsT3Running()
           else state == old(state) && tx.sent == old(tx.sent) && rx.Untouched()
    }

    /** ua_frame: the answer waited for connects the link; when it is up, a stray one starts it over. */
    method UaFrame(f: nat)
      requires Valid()
      modifies this, tm, tx`vs, tx`va, tx`sent, tx`acked, tx.txdataByNs, rx`vr, rx`since, rx`accepted, rx.rxdataByNs
      ensures Valid() && StaysReady() && (old(Watched()) ==> Watched()) && tm.Ticks()
      ensures UaDone(f, actions)
      ensures rx.Grows({}) && (tx.sent == old(tx.sent) || tx.sent == [])
    {
      hide Timers.Valid, Sender.Valid, Receiver.Valid, UAct, Walked;
      match state
      case AwaitingConnection =>
        if f == 1 {
          if !layer3Initiated && tx.vs != tx.va {
            tm.InitT1v(frack);
            tm.StartT3();
          }
          StopT1AndSelect();
          StartAfresh();
        }
      case Connected | TimerRecovery =>
        NrErrorRecovery();
      case _ =>
    }

    twostate predicate FrmrDone(acts: seq<Action>)
      reads this`state, this`rc
    {
      if old(Up()) then Reestablished(old(actions), acts) else state == old(state) && acts == old(actions)
    }

    /** frmr_frame */
    method FrmrFrame()
      requires Valid()
      modifies this, tm, tx`kMaxframe, rx.rxdataByNs
      ensures Valid() && StaysReady() && (old(Watched()) ==> Watched()) && tm.Ticks()
      ensures FrmrDone(actions)
    {
      hide Timers.Valid, Sender.Valid, Receiver.Valid, UAct;
      match state
      case Connected | TimerRecovery =>
        SetVersion20();
        NrErrorRecovery();
      case _ =>
    }

    twostate predicate UiDone(cr: CmdRes, pf: nat, acts: seq<Action>)
      reads this`state, this`ownReceiverBusy, rx`vr
    {
      acts == old(actions) + if cr != Cmd || pf != 1 then [] else if Up() then [EnquiryAct(1)] else [UAct(Res, DM, 1)]
    }

    /** ui_frame */
    method UiFrame(cr: CmdRes, pf: nat)
      requires Valid()
      modifies this`actions, this`acknowledgePending
      ensures Valid() && (old(Watched()) ==> Watched())
      ensures UiDone(cr, pf, actions)
    {
      hide Timers.Valid, Sender.Valid, Receiver.Valid, UAct, EnquiryAct;
      if cr == Cmd && pf == 1 {
        match state
        case Connected | TimerRecovery =>
          EnquiryResponse(UI, pf);
        case Disconnected | AwaitingConnection =>
          Request(UAct(Res, DM, pf));
        case AwaitingRelease =>
      }
    }

    // ---------- timers ----------

    /** How many more times T1 can expire before the link gives up. */
    ghost function ExpiriesLeft(): int
      reads this`state, this`rc, this`n2Retry
    {
      match state
      case Connected => n2Retry + 1
      case AwaitingConnection => n2Retry - rc + 1
      case TimerRecovery => n2Retry - rc + 1
      case _ => 0
    }

    /** What the link sends when T1 expires. */
    ghost function ExpiryActs(): seq<Action>
      reads this`state, this`rc, this`n2Retry, this`ownReceiverBusy, rx`vr
    {
      match state
      case Connected => [Poll()]
      case AwaitingConnection => if rc == n2Retry then [] else [UAct(Cmd, SABM, 1)]
      case TimerRecovery => if rc == n2Retry then [UAct(Res, DM, 0)] else [Poll()]
      case _ => []
    }

    function Poll(): Action
      reads this`ownReceiverBusy, rx`vr
    {
      SAct(Cmd, if ownReceiverBusy then RNR else RR, rx.vr, 1)
    }

    // Ask for the connection once more.
    method AskAgain()
      requires Parts() && tm.Estimated()
      modifies this`rc, this`actions, tm
      ensures Parts() && tm.Estimated() && tm.IsT1Running() && rc == old(rc) + 1
      ensures tm.Ticks() && tm.t3Exp == old(tm.t3Exp)
      ensures actions == old(actions) + [UAct(Cmd, SABM, 1)]
    {
      hide Timers.Valid, Sender.Valid, Receiver.Valid, UAct;
      rc := rc + 1;
      Request(UAct(Cmd, SABM, 1));
      tm.SelectT1Value(rc);
      tm.StartT1();
    }

    /** t1_expiry: every expiry uses up one of those left, and the last disconnects the link. */
    method T1Expiry()
      requires Valid() && !tm.IsT1Running()
      modifies this`state, this`rc, this`actions, this`acknowledgePending, tm, tx`queue
      ensures Valid() && Watched() && tm.Ticks() && tm.t3Exp == old(tm.t3Exp)
      ensures old(state) != Disconnected ==> 0 <= ExpiriesLeft() == old(ExpiriesLeft()) - 1
      ensures state == if old(state) == Connected then TimerRecovery
                       else if old(rc) == n2Retry then Disconnected else old(state)
      ensures state == Disconnected <==> ExpiriesLeft() == 0
      ensures actions == old(actions + ExpiryActs())
    {
      hide Timers.Valid, Sender.Valid, Receiver.Valid, UAct, SAct;
      match state
      case AwaitingConnection =>
        if rc == n2Retry {
          tx.DiscardQueue();
          state := Disconnected;
        } else {
          AskAgain();
        }
      case Connected =>
        rc := 1;
        TransmitEnquiry();
        state := TimerRecovery;
      case TimerRecovery =>
        if rc == n2Retry {
          tx.DiscardQueue();
          Request(UAct(Res, DM, 0));
          state := Disconnected;
        } else {
          rc := rc + 1;
          TransmitEnquiry();
        }
      case _ =>
    }

    /** t3_expiry: a quiet connection is asked after. */
    method T3Expiry()
      requires Valid()
      modifies this`state, this`rc, this`actions, this`acknowledgePending, tm
      ensures Valid() && tm.Ticks() && tm.t3Exp == old(tm.t3Exp)
      ensures old(state) == Connected ==>
                && state == TimerRecovery && Watched() && ExpiriesLeft() == old(ExpiriesLeft()) - 1
                && actions == old(actions) + [Poll()]
      ensures old(state) != Connected ==>
                state == old(state) && actions == old(actions) && rc == old(rc)
                    && tm.IsT1Running() == old(tm.IsT1Running())
    {
      hide Timers.Valid, Sender.Valid, Receiver.Valid, SAct;
      match state
      case Connected =>
        rc := 1;
        TransmitEnquiry();
        state := TimerRecovery;
      case _ =>
    }

    /** dl_timer_expiry, for this link: T1 fires when the channel has been idle for its time, and T3 on
        the clock. An expiry of T3 only matters to a link that is still connected then. */
    method DlTimerExpiry() returns (ghost t1: bool, ghost t3: bool)
      requires Valid()
      modifies this`state, this`rc, this`actions, this`acknowledgePending, tm, tx`queue
      ensures Valid() && (old(Watched()) ==> Watched())
      ensures t1 == old(tm.IsT1Running() && !tm.radioChannelBusy && tm.idle >= tm.armed)
      ensures t3 == old(tm.IsT3Running() && tm.t3Exp <= tm.now)
      ensures tm.t3Exp == if t3 then 0.0 else old(tm.t3Exp)
      ensures t1 ==> !tm.IsT1Running() || (tm.armed == tm.t1v && tm.idle == 0.0)
      ensures !t1 ==> tm.Ticks()
      ensures tm.radioChannelBusy == old(tm.radioChannelBusy) && tm.now == old(tm.now)
      ensures ExpiriesLeft() + (if t1 then 1 else 0) <= old(ExpiriesLeft())
      ensures state == if old(state) == Connected && (t1 || t3) then TimerRecovery
                       else if t1 && old(rc) == n2Retry then Disconnected else old(state)
      ensures actions == old(actions + if t1 then ExpiryActs() else if t3 && state == Connected then [Poll()] else [])
    {
      hide Valid, Watched, SAct, UAct, ExpiriesLeft;
      t1 := FireT1();
      t3 := FireT3();
      assert actions + [] == actions;
    }

    // The T1 half.
    method FireT1() returns (ghost t1: bool)
      requires Valid()
      modifies this`state, this`rc, this`actions, this`acknowledgePending, tm, tx`queue
      ensures Valid() && (old(Watched()) ==> Watched())
      ensures t1 == old(tm.IsT1Running() && !tm.radioChannelBusy && tm.idle >= tm.armed)
      ensures t1 ==> !tm.IsT1Running() || (tm.armed == tm.t1v && tm.idle == 0.0)
      ensures !t1 ==> tm.Ticks()
      ensures tm.t3Exp == old(tm.t3Exp) && tm.radioChannelBusy == old(tm.radioChannelBusy) && tm.now == old(tm.now)
      ensures ExpiriesLeft() + (if t1 then 1 else 0) <= old(ExpiriesLeft())
      ensures state == if old(state) == Connected && t1 then TimerRecovery
                       else if t1 && old(rc) == n2Retry then Disconnected else old(state)
      ensures actions == old(actions + if t1 then ExpiryActs() else [])
    {
      hide Timers.Valid, Sender.Valid, Receiver.Valid, SAct, UAct;
      var fired := tm.TakeT1Expiry();
      t1 := fired;
      if fired {
        T1Expiry();
      }
    }

    // The T3 half.
    method FireT3() returns (ghost t3: bool)
      requires Valid()
      modifies this`state, this`rc, this`actions, this`acknowledgePending, tm
      ensures Valid() && (old(Watched()) ==> Watched()) && tm.Ticks()
      ensures t3 == old(tm.IsT3Running() && tm.t3Exp <= tm.now)
      ensures tm.t3Exp == if t3 then 0.0 else old(tm.t3Exp)
      ensures ExpiriesLeft() <= old(ExpiriesLeft())
      ensures state == if old(state) == Connected && t3 then TimerRecovery else old(state)
      ensures actions == old(actions) + if t3 && old(state) == Connected then [Poll()] else []
    {
      hide Timers.Valid, Sender.Valid, Receiver.Valid, SAct, UAct;
      var fired := tm.TakeT3Expiry();
      t3 := fired;
      if fired {
        T3Expiry();
      }
    }

    /** lm_channel_busy: the channel is busy while a carrier is heard or this end transmits. */
    method LmChannelBusy(activity: Activity, status: bool)
      requires Valid()
      modifies this`dcdStatus, this`pttStatus, tm
      ensures Valid() && (old(Watched()) ==> Watched())
      ensures dcdStatus == (if activity == Dcd then status else old(dcdStatus))
      ensures pttStatus == (if activity == Ptt then status else old(pttStatus))
      ensures tm.radioChannelBusy == (dcdStatus || pttStatus)
      ensures tm.IsT1Running() == old(tm.IsT1Running()) && tm.armed == old(tm.armed) && tm.idle == old(tm.idle)
      ensures tm.t1v == old(tm.t1v) && tm.t3Exp == old(tm.t3Exp)
    {
      hide Sender.Valid, Receiver.Valid;
      match activity {
        case Dcd => dcdStatus := status;
        case Ptt => pttStatus := status;
      }
      tm.ChannelBusy(dcdStatus || pttStatus);
    }

    /** Time passes. */
    method Elapse(dt: real)
      requires Valid() && dt >= 0.0
      modifies tm
      ensures Valid() && (old(Watched()) ==> Watched())
      ensures tm.radioChannelBusy == old(tm.radioChannelBusy) && tm.t1v == old(tm.t1v)
      ensures tm.IsT1Running() == old(tm.IsT1Running()) && tm.armed == old(tm.armed) && tm.t3Exp == old(tm.t3Exp)
      ensures tm.idle == old(tm.idle) + (if tm.radioChannelBusy then 0.0 else dt) && tm.now == old(tm.now) + dt
    {
      hide Sender.Valid, Receiver.Valid;
      tm.Pass(dt);
    }

    /** lm_seize_confirm: send what the window allows, and an acknowledgement if one is still due. */
    method LmSeizeConfirm()
      requires Valid()
      modifies this`actions, this`acknowledgePending, tm, tx`vs, tx`queue, tx`sent, tx.txdataByNs
      ensures Valid() && tm.Ticks() && (old(Watched()) ==> Watched()) && tx.acked == old(tx.acked)
          && tx.kMaxframe == old(tx.kMaxframe)
      ensures Up() ==> !acknowledgePending && old(tx.sent) <= tx.sent && tx.sent + tx.queue == old(tx.sent + tx.queue)
      ensures Up() ==> actions == old(actions) + Transmissions(tx.sent, rx.vr, |old(tx.sent)|, |tx.sent|)
                                  + if old(acknowledgePending) && tx.sent == old(tx.sent) then [EnquiryAct(0)] else []
      ensures Up() && !peerReceiverBusy ==> tx.queue == [] || |tx.sent| == tx.acked + tx.kMaxframe
      ensures Up() && tx.sent != old(tx.sent) ==> tm.IsT1Running()
      ensures !Up() ==> actions == old(actions) && tx.sent == old(tx.sent) && tx.queue == old(tx.queue)
    {
      hide Timers.Valid, Sender.Valid, Receiver.Valid, Transmissions, EnquiryAct, Carries;
      match state
      case Connected | TimerRecovery =>
        IFramePopOffQueue();
        assert actions + [] == actions;
        if acknowledgePending {
          NothingSent();
          acknowledgePending := false;
          EnquiryResponse(NotAX25, 0);
        }
      case _ =>
    }

    // Sending nothing takes no frames.
    lemma NothingSent()
      ensures Transmissions(tx.sent, rx.vr, |tx.sent|, |tx.sent|) == []
    {
    }

    // ---------- frames and runs ----------

    /** What the handler of a frame does, by type. */
    twostate predicate FrameDone(e: Event, ask: seq<nat>, acts: seq<Action>)
      requires e.Frame? && e.Possible() && old(rx.Valid()) && tx.txdataByNs.Length == rx.rxdataByNs.Length == SLOTS
      reads this`state, this`rc, this`n2Retry, this`peerReceiverBusy, this`rejectException, this`ownReceiverBusy,
          this`acknowledgePending
      reads tm, tx, tx.txdataByNs, rx, rx.rxdataByNs
    {
      match e.ft
      case I => IFrameDone(e.cr, e.pf, e.nr, e.ns, e.pid, e.info, ask, acts)
      case RR => RrRnrDone(true, e.cr, e.pf, e.nr, acts)
      case RNR => RrRnrDone(false, e.cr, e.pf, e.nr, acts)
      case REJ => RejDone(e.cr, e.pf, e.nr, acts)
      case SREJ => SrejDone(e.pf, e.nr, e.info, acts)
      case SABM => SabmDone(e.pf, acts)
      case DISC => DiscDone(e.pf, acts)
      case DM => DmDone(e.pf, acts)
      case UA => UaDone(e.pf, acts)
      case FRMR => FrmrDone(acts)
      case UI => UiDone(e.cr, e.pf, acts)
      case _ => state == old(state) && acts == old(actions)
    }

    // The handler of each type of frame.
    method Dispatch(ft: FrameType, cr: CmdRes, pf: nat, nr: nat, ns: nat, pid: byte, info: seq<byte>)
      returns (ghost ask: seq<nat>)
      requires Valid() && pf < 2 && nr < 8 && ns < 8 && tx.txdataByNs.Length == rx.rxdataByNs.Length == SLOTS
          && rx.Valid()
      modifies this, tm, tx, tx.txdataByNs, rx, rx.rxdataByNs
      ensures Valid() && StaysReady() && FrameDone(Frame(ft, cr, pf, nr, ns, pid, info), ask, actions)
      ensures old(Watched()) ==> (Watched() <==> !(ft == SREJ && old(Starves(pf, nr, info))))
      ensures tm.Ticks() && rx.Grows(Offered(Frame(ft, cr, pf, nr, ns, pid, info)))
      ensures (tx.sent == old(tx.sent) || tx.sent == []) && Connecting(old(state), state, ft, cr, pf)
      ensures old(actions) <= actions && (Honest(actions) <==> !old(Exhumed(ft, pf, nr, info)))
      ensures tx.txdataByNs.Length == SLOTS && Said(ft, cr, pf, nr, info, actions)
    {
      hide Parts, Loaded, IFrameDone, RrRnrDone, RejDone, SabmDone, UaDone, Starves, Exhumed, Honest, Connecting, Said;
      ask := [];
      OthersExhumeNothing(ft, pf, nr, info);
      match ft {
        case I => ask := IFrameSaid(cr, pf, nr, ns, pid, info);
        case RR => RrRnrSaid(true, cr, pf, nr, info);
        case RNR => RrRnrSaid(false, cr, pf, nr, info);
        case REJ => RejSaid(cr, pf, nr, info);
        case SREJ => SrejSaid(cr, pf, nr, info);
        case _ =>
          UnnumberedSaid(ft, cr, pf, nr, info);
      }
    }

    // The handlers of the frames without a number.
    method Unnumbered(ft: FrameType, cr: CmdRes, pf: nat)
      requires Valid() && pf < 2 && ft !in {I, RR, RNR, REJ, SREJ}
      modifies this, tm, tx, tx.txdataByNs, rx`vr, rx`since, rx`accepted, rx.rxdataByNs
      ensures Valid() && StaysReady() && (old(Watched()) ==> Watched()) && tm.Ticks() && rx.Grows({})
      ensures if ft == SABM then SabmDone(pf, actions) else if ft == DISC then DiscDone(pf, actions)
              else if ft == DM then DmDone(pf, actions) else if ft == UA then UaDone(pf, actions)
              else if ft == FRMR then FrmrDone(actions) else if ft == UI then UiDone(cr, pf, actions)
              else state == old(state) && actions == old(actions)
      ensures ft == UI ==> state == old(state) && ownReceiverBusy == old(ownReceiverBusy)
      ensures (tx.sent == old(tx.sent) || tx.sent == []) && old(actions) <= actions && Honest(actions)
      ensures Connecting(old(state), state, ft, cr, pf)
    {
      hide Parts, Loaded, AllGenuine, Receiver.Untouched, SlotsWalked;
      match ft {
        case SABM => SabmFrame(pf);
        case DISC => DiscFrame(pf);
        case DM => DmFrame(pf);
        case UA => UaFrame(pf);
        case FRMR => FrmrFrame();
        case UI => UiFrame(cr, pf);
        case _ =>
      }
      PlainGenuine(actions[|old(actions)|..], rx.vr, tx.acked, tx.sent);
    }

    /** lm_data_indication: hand a frame to its handler, and ask for the channel if there is now
        something to send. */
    method LmDataIndication(ft: FrameType, cr: CmdRes, pf: nat, nr: nat, ns: nat, pid: byte, info: seq<byte>)
      returns (ghost ask: seq<nat>, ghost acts: seq<Action>)
      requires Valid() && pf < 2 && nr < 8 && ns < 8
      modifies this, tm, tx, tx.txdataByNs, rx, rx.rxdataByNs
      ensures Valid() && StaysReady() && old(rx.Valid()) && tx.txdataByNs.Length == rx.rxdataByNs.Length == SLOTS
      ensures FrameDone(Frame(ft, cr, pf, nr, ns, pid, info), ask, acts)
      ensures actions == acts + if tx.queue != [] && Up() && !peerReceiverBusy
          && tx.WithinWindowSize() then [SeizeRequest] else []
      ensures old(Watched()) ==> (Watched() <==> !(ft == SREJ && old(Starves(pf, nr, info))))
      ensures tm.Ticks() && rx.Grows(Offered(Frame(ft, cr, pf, nr, ns, pid, info)))
      ensures (tx.sent == old(tx.sent) || tx.sent == []) && Connecting(old(state), state, ft, cr, pf)
      ensures old(actions) <= acts && (Honest(acts) <==> !old(Exhumed(ft, pf, nr, info)))
      ensures Said(ft, cr, pf, nr, info, acts)
    {
      hide Valid, Watched, Starves, FrameDone, Exhumed, Honest, Connecting, Said, Receiver.Grows, Timers.Ticks;
      SlotsThere();
      ask := Dispatch(ft, cr, pf, nr, ns, pid, info);
      acts := actions;
      SeizeIfDue();
    }

    // Ask for the channel if the window allows something to be sent.
    method SeizeIfDue()
      modifies this`actions
      ensures actions == old(actions) + if tx.queue != [] && Up() && !peerReceiverBusy
          && tx.WithinWindowSize() then [SeizeRequest] else []
    {
      if tx.queue != [] && Up() && !peerReceiverBusy && tx.WithinWindowSize() {
        Request(SeizeRequest);
      }
    }

    lemma SlotsThere()
      requires Valid()
      ensures tx.txdataByNs.Length == rx.rxdataByNs.Length == SLOTS && rx.Valid() && rx.vr < 8
    {
    }

    // Something new to send.
    method Enqueue(d: Sendable)
      requires Valid()
      modifies tx`queue
      ensures Valid() && tx.queue == old(tx.queue) + [d]
    {
      hide Timers.Valid, Sender.Valid, Receiver.Valid;
      tx.Enqueue(d);
    }

    // ---------- steps and runs ----------

    /** The frame will make the link send something that is not outstanding. */
    ghost predicate Exhumed(ft: FrameType, pf: nat, nr: nat, info: seq<byte>)
      reads this`state, tx, tx.txdataByNs
    {
      && nr < 8 && tx.txdataByNs.Length == SLOTS
      && FrameExhumes(state, tx.va, tx.vs, tx.txdataByNs[..], tx.acked, tx.sent, ft, pf, nr, info)
    }

    lemma OthersExhumeNothing(ft: FrameType, pf: nat, nr: nat, info: seq<byte>)
      ensures ft != SREJ && ft != REJ ==> !Exhumed(ft, pf, nr, info)
    {
      hide Stale, IsGoodNr;
    }

    /** Every information frame among the new actions is outstanding and carries what its number stands for. */
    twostate predicate Honest(acts: seq<Action>)
      reads rx`vr, tx
    {
      old(actions) <= acts && AllGenuine(acts[|old(actions)|..], rx.vr, tx.acked, tx.sent)
    }

    // The answers that go before anything else carry no data.
    lemma AnswersPlain(cr: CmdRes, pf: nat)
      ensures Plain(PollAnswer(cr, pf)) && Plain(DownAnswer(cr, pf)) && Plain([UAct(Cmd, SABM, 1)])
    {
      hide UAct, SAct;
    }

    // rr_rnr_frame, and what it sends.
    method RrRnrHonest(ready: bool, cr: CmdRes, pf: nat, nr: nat)
      requires Valid() && pf < 2 && nr < 8
      modifies this, tm, tx`va, tx`acked, tx.txdataByNs, rx.rxdataByNs
      ensures Valid() && StaysReady() && (old(Watched()) ==> Watched()) && tm.Ticks()
      ensures RrRnrDone(ready, cr, pf, nr, actions) && old(actions) <= actions && Honest(actions)
      ensures Connecting(old(state), state, if ready then RR else RNR, cr, pf)
    {
      hide Valid, Watched, UAct, SAct, IsGoodNr, Acknowledged, Transmissions, AllGenuine, EnquiryAct, Released, Plain;
      AnswersPlain(cr, pf);
      ghost var before, down, answer, sabm := actions, DownAnswer(cr, pf), PollAnswer(cr, pf), [UAct(Cmd, SABM, 1)];
      RrRnrFrame(ready, cr, pf, nr);
      AnswersGenuine(down, answer, sabm);
      if !old(Up()) {
        Appended(before, down, [], actions, rx.vr, tx.acked, tx.sent);
      } else if !old(GoodNr(nr)) {
        Appended(before, answer, sabm, actions, rx.vr, tx.acked, tx.sent);
      } else {
        TransmissionsGenuine(tx.sent, rx.vr, tx.acked, tx.acked, |tx.sent|);
        Appended(before, answer, actions[|before + answer|..], actions, rx.vr, tx.acked, tx.sent);
      }
    }

    lemma AnswersGenuine(a: seq<Action>, b: seq<Action>, c: seq<Action>)
      requires Plain(a) && Plain(b) && Plain(c)
      ensures AllGenuine(a, rx.vr, tx.acked, tx.sent) && AllGenuine(b, rx.vr, tx.acked, tx.sent)
      ensures AllGenuine(c, rx.vr, tx.acked, tx.sent) && AllGenuine([], rx.vr, tx.acked, tx.sent)
    {
      hide Genuine;
    }

    // A REJ for V(S) acknowledges everything, and leaves the slot of V(S) as it was.
    lemma CaughtUp(was: seq<Slot<Sendable>>, from: nat, nr: nat)
      requires Parts() && nr < 8 && nr == tx.vs && tx.acked == Acknowledged(from, nr)
      requires Released(was, tx.txdataByNs[..], from, tx.acked) && from <= tx.acked
      ensures tx.acked == |tx.sent| && tx.txdataByNs.Length == SLOTS && tx.txdataByNs[nr] == was[nr]
    {
      hide Timers.Valid, Receiver.Valid, Acknowledged;
      CongruentTo(from, nr);
      Shapes();
      WithinEight(from, nr);
      NotAmong(from, tx.acked);
    }

    // rej_frame, and what it sends.
    method RejHonest(cr: CmdRes, pf: nat, nr: nat, ghost info: seq<byte>)
      requires Valid() && pf < 2 && nr < 8 && tx.txdataByNs.Length == SLOTS
      modifies this, tm, tx`va, tx`acked, tx.txdataByNs, rx.rxdataByNs
      ensures Valid() && StaysReady() && (old(Watched()) ==> Watched()) && tm.Ticks()
      ensures tx.txdataByNs.Length == SLOTS && RejDone(cr, pf, nr, actions) && old(actions) <= actions
      ensures Honest(actions) <==> !old(Exhumed(REJ, pf, nr, info))
      ensures Connecting(old(state), state, REJ, cr, pf)
    {
      hide Watched, UAct, SAct, IsGoodNr, Acknowledged, Transmissions, Again, AllGenuine, EnquiryAct, Released, Plain,
          Timers.Valid, Receiver.Valid, Sender.Valid;
      AnswersPlain(cr, pf);
      GoodAtVs(tx.va, tx.vs);
      ghost var slots := tx.txdataByNs[..];
      ghost var before, down, answer, sabm := actions, DownAnswer(cr, pf), PollAnswer(cr, pf), [UAct(Cmd, SABM, 1)];
      RejFrame(cr, pf, nr);
      AnswersGenuine(down, answer, sabm);
      if !old(Up()) {
        Appended(before, down, [], actions, rx.vr, tx.acked, tx.sent);
      } else if !old(GoodNr(nr)) {
        Appended(before, answer, sabm, actions, rx.vr, tx.acked, tx.sent);
      } else {
        TransmissionsGenuine(tx.sent, rx.vr, tx.acked, tx.acked, |tx.sent|);
        if nr == tx.vs {
          CaughtUp(slots, old(tx.acked), nr);
          AgainGenuine(nr);
        }
        Appended(before, answer, actions[|before + answer|..], actions, rx.vr, tx.acked, tx.sent);
      }
    }

    lemma AgainGenuine(nr: nat)
      requires tx.txdataByNs.Length == SLOTS && nr < 8 && tx.acked == |tx.sent|
      ensures AllGenuine(Again(tx.txdataByNs[..], rx.vr, nr, tx.vs), rx.vr, tx.acked, tx.sent)
          <==> tx.txdataByNs[nr].Empty?
    {
      hide IAct, Genuine, Resends, StepsTo;
      if tx.txdataByNs[nr].Full? {
        AgainStale(tx.txdataByNs[..], rx.vr, tx.sent, nr, tx.vs);
      }
    }

    // srej_frame, and what it sends.
    method SrejHonest(cr: CmdRes, f: nat, nr: nat, info: seq<byte>)
      requires Valid() && nr < 8 && tx.txdataByNs.Length == SLOTS
      modifies this, tm, tx`va, tx`acked, tx.txdataByNs, rx.rxdataByNs
      ensures Valid() && StaysReady() && tm.Ticks() && tx.txdataByNs.Length == SLOTS && SrejDone(f, nr, info, actions)
          && old(actions) <= actions
      ensures Honest(actions) <==> !old(Exhumed(SREJ, f, nr, info))
      ensures Connecting(old(state), state, SREJ, cr, f)
    {
      hide Valid, Watched, UAct, SAct, IsGoodNr, Acknowledged, Resends, Named, AllGenuine, Starves, Stale, Released,
          Plain, Parts;
      AnswersPlain(Res, 0);
      ghost var slots := tx.txdataByNs[..];
      ghost var before, sabm := actions, [UAct(Cmd, SABM, 1)];
      SrejFrame(f, nr, info);
      AnswersGenuine([], [], sabm);
      AllKept();
      if old(Up() && GoodNr(nr)) {
        StaleSame(slots, tx.txdataByNs[..], old(tx.acked), tx.acked, tx.sent, Named(nr, info));
        ResendsGenuine(tx.txdataByNs[..], rx.vr, tx.acked, tx.sent, Named(nr, info));
      }
      Appended(before, [], actions[|before|..], actions, rx.vr, tx.acked, tx.sent);
    }

    lemma AllKept()
      requires Valid() && tx.txdataByNs.Length == SLOTS
      ensures Kept(tx.txdataByNs[..], tx.sent, tx.acked) && tx.acked <= |tx.sent|
    {
    }

    // i_frame, and what it sends.
    method IFrameHonest(cr: CmdRes, p: nat, nr: nat, ns: nat, pid: byte, info: seq<byte>) returns (ghost ask: seq<nat>)
      requires Valid() && p < 2 && nr < 8 && ns < 8 && rx.Valid()
      modifies this, tm, tx`va, tx`acked, tx.txdataByNs, rx`vr, rx`delivered, rx`accepted, rx.rxdataByNs
      ensures Valid() && StaysReady() && (old(Watched()) ==> Watched()) && tm.Ticks() && rx.rxdataByNs.Length == SLOTS
      ensures IFrameDone(cr, p, nr, ns, pid, info, ask, actions) && rx.Grows({(ns, Data(pid, info))})
      ensures old(actions) <= actions && Honest(actions) && Connecting(old(state), state, I, cr, p)
    {
      hide Valid, Watched, Receiver.Valid, Receiver.Grows, UAct, SAct, IsGoodNr, Acknowledged, Waiting, Emptied,
          IsNsInWindow, AllGenuine, Released;
      ask := IFrame(cr, p, nr, ns, pid, info);
      SrejsPlain(ask, rx.vr);
      PlainGenuine(actions[|old(actions)|..], rx.vr, tx.acked, tx.sent);
    }

    // ---------- what is said ----------

    /** The new actions are what the link may send, and answer the frame. */
    twostate predicate Said(ft: FrameType, cr: CmdRes, pf: nat, nr: nat, info: seq<byte>, acts: seq<Action>)
      requires tx.txdataByNs.Length == SLOTS
      reads this`state, this`ownReceiverBusy, tx, tx.txdataByNs, rx`vr
    {
      old(actions) <= acts &&
      var more := acts[|old(actions)|..];
      && AllWellSent(more, old(ownReceiverBusy), rx.vr, tx.txdataByNs[..])
      && FrameReplies(old(state), state, old(tx.va), old(tx.vs), old(ownReceiverBusy), rx.vr, ft, cr, pf, nr, info,
                      more)
    }

    // What is sent, in two parts.
    lemma InParts(before: seq<Action>, a: seq<Action>, b: seq<Action>, acts: seq<Action>, busy: bool)
      requires tx.txdataByNs.Length == SLOTS && acts == before + a + b
      requires AllWellSent(a, busy, rx.vr, tx.txdataByNs[..]) && AllWellSent(b, busy, rx.vr, tx.txdataByNs[..])
      ensures before <= acts && acts[|before|..] == a + b && AllWellSent(a + b, busy, rx.vr, tx.txdataByNs[..])
    {
      hide WellSent, AllWellSent;
      BothWellSent(a, b, busy, rx.vr, tx.txdataByNs[..]);
      assert acts[|before|..] == a + b;
    }

    // What is outstanding may be sent.
    lemma OutstandingWellSent(busy: bool)
      requires Valid() && tx.txdataByNs.Length == SLOTS
      ensures tx.acked <= |tx.sent|
      ensures AllWellSent(Transmissions(tx.sent, rx.vr, tx.acked, |tx.sent|), busy, rx.vr, tx.txdataByNs[..])
    {
      hide WellSent, Transmissions, AllWellSent, Kept;
      AllKept();
      Shapes();
      TransmissionsWellSent(tx.txdataByNs[..], busy, rx.vr, tx.sent, tx.acked, tx.acked, |tx.sent|);
    }

    // rr_rnr_frame, and what it says.
    method RrRnrSaid(ready: bool, cr: CmdRes, pf: nat, nr: nat, ghost info: seq<byte>)
      requires Valid() && pf < 2 && nr < 8
      modifies this, tm, tx`va, tx`acked, tx.txdataByNs, rx.rxdataByNs
      ensures Valid() && StaysReady() && (old(Watched()) ==> Watched()) && tm.Ticks()
      ensures RrRnrDone(ready, cr, pf, nr, actions) && old(actions) <= actions && Honest(actions)
      ensures Connecting(old(state), state, if ready then RR else RNR, cr, pf)
      ensures tx.txdataByNs.Length == SLOTS && Said(if ready then RR else RNR, cr, pf, nr, info, actions)
    {
      hide Valid, Watched, UAct, SAct, IsGoodNr, Acknowledged, Transmissions, AllGenuine, Released, AllWellSent,
          FrameReplies, Honest, Connecting, NoneSupervisory;
      SlotsThere();
      ghost var before, busy, was, va, vs := actions, ownReceiverBusy, state, tx.va, tx.vs;
      ghost var answer := if Up() then PollAnswer(cr, pf) else DownAnswer(cr, pf);
      RrRnrHonest(ready, cr, pf, nr);
      SlotsThere();
      ActsWellSent(busy, rx.vr, pf, tx.txdataByNs[..]);
      ActsWellSent(busy, rx.vr, 1, tx.txdataByNs[..]);
      OutstandingWellSent(busy);
      TransmissionsNotSupervisory(tx.sent, rx.vr, tx.acked, |tx.sent|);
      SabmNotSupervisory();
      ghost var rest := actions[|before + answer|..];
      assert actions == before + answer + rest;
      InParts(before, answer, rest, actions, busy);
      SupervisoryReplies(was, state, va, vs, busy, rx.vr, if ready then RR else RNR, cr, pf, nr, info, answer, rest);
    }

    // rej_frame, and what it says.
    method RejSaid(cr: CmdRes, pf: nat, nr: nat, ghost info: seq<byte>)
      requires Valid() && pf < 2 && nr < 8 && tx.txdataByNs.Length == SLOTS
      modifies this, tm, tx`va, tx`acked, tx.txdataByNs, rx.rxdataByNs
      ensures Valid() && StaysReady() && (old(Watched()) ==> Watched()) && tm.Ticks()
      ensures tx.txdataByNs.Length == SLOTS && RejDone(cr, pf, nr, actions) && old(actions) <= actions
      ensures Honest(actions) <==> !old(Exhumed(REJ, pf, nr, info))
      ensures Connecting(old(state), state, REJ, cr, pf) && Said(REJ, cr, pf, nr, info, actions)
    {
      hide Valid, Watched, UAct, SAct, IsGoodNr, Acknowledged, Transmissions, AllGenuine, Released, AllWellSent,
          FrameReplies, Honest, Connecting, Again, Exhumed, NoneSupervisory;
      SlotsThere();
      ghost var before, busy, was, va, vs := actions, ownReceiverBusy, state, tx.va, tx.vs;
      ghost var answer := if Up() then PollAnswer(cr, pf) else DownAnswer(cr, pf);
      RejHonest(cr, pf, nr, info);
      SlotsThere();
      ActsWellSent(busy, rx.vr, pf, tx.txdataByNs[..]);
      ActsWellSent(busy, rx.vr, 1, tx.txdataByNs[..]);
      OutstandingWellSent(busy);
      AgainWellSent(tx.txdataByNs[..], busy, rx.vr, nr, tx.vs);
      TransmissionsNotSupervisory(tx.sent, rx.vr, tx.acked, |tx.sent|);
      SabmNotSupervisory();
      AgainNotSupervisory(tx.txdataByNs[..], rx.vr, nr, tx.vs);
      ghost var rest := actions[|before + answer|..];
      assert actions == before + answer + rest;
      InParts(before, answer, rest, actions, busy);
      SupervisoryReplies(was, state, va, vs, busy, rx.vr, REJ, cr, pf, nr, info, answer, rest);
    }

    // srej_frame, and what it says.
    method SrejSaid(cr: CmdRes, f: nat, nr: nat, info: seq<byte>)
      requires Valid() && nr < 8 && tx.txdataByNs.Length == SLOTS
      modifies this, tm, tx`va, tx`acked, tx.txdataByNs, rx.rxdataByNs
      ensures Valid() && StaysReady() && tm.Ticks() && tx.txdataByNs.Length == SLOTS && SrejDone(f, nr, info, actions)
          && old(actions) <= actions
      ensures Honest(actions) <==> !old(Exhumed(SREJ, f, nr, info))
      ensures Connecting(old(state), state, SREJ, cr, f) && Said(SREJ, cr, f, nr, info, actions)
    {
      hide Valid, Watched, UAct, SAct, IsGoodNr, Acknowledged, Resends, Named, AllGenuine, Released, AllWellSent,
          Honest, Connecting, Exhumed, Starves;
      SlotsThere();
      ghost var before, busy := actions, ownReceiverBusy;
      SrejHonest(cr, f, nr, info);
      SlotsThere();
      ActFigures(rx.vr, 1);
      ActsWellSent(busy, rx.vr, 1, tx.txdataByNs[..]);
      ResendsWellSent(tx.txdataByNs[..], busy, rx.vr, Named(nr, info));
      ResendsNotSupervisory(tx.txdataByNs[..], rx.vr, Named(nr, info));
      InParts(before, [], actions[|before|..], actions, busy);
      assert [] + actions[|before|..] == actions[|before|..];
    }

    // i_frame, and what it says.
    method IFrameSaid(cr: CmdRes, p: nat, nr: nat, ns: nat, pid: byte, info: seq<byte>) returns (ghost ask: seq<nat>)
      requires Valid() && p < 2 && nr < 8 && ns < 8 && rx.Valid()
      modifies this, tm, tx`va, tx`acked, tx.txdataByNs, rx`vr, rx`delivered, rx`accepted, rx.rxdataByNs
      ensures Valid() && StaysReady() && (old(Watched()) ==> Watched()) && tm.Ticks() && rx.rxdataByNs.Length == SLOTS
      ensures IFrameDone(cr, p, nr, ns, pid, info, ask, actions) && rx.Grows({(ns, Data(pid, info))})
      ensures old(actions) <= actions && Honest(actions) && Connecting(old(state), state, I, cr, p)
      ensures tx.txdataByNs.Length == SLOTS && Said(I, cr, p, nr, info, actions)
    {
      hide Valid, Watched, Receiver.Valid, Receiver.Grows, UAct, SAct, IsGoodNr, Acknowledged, Waiting, Emptied,
          IsNsInWindow, AllGenuine, Released, AllWellSent, Honest, Connecting, EarlyAnswer;
      SlotsThere();
      ghost var before, busy := actions, ownReceiverBusy;
      ask := IFrameHonest(cr, p, nr, ns, pid, info);
      SlotsThere();
      ActFigures(rx.vr, p);
      ActFigures(rx.vr, 1);
      ActsWellSent(busy, rx.vr, p, tx.txdataByNs[..]);
      ActsWellSent(busy, rx.vr, 1, tx.txdataByNs[..]);
      EarlyWellSent(actions[|before|..], p, ns, ask);
      InParts(before, [], actions[|before|..], actions, busy);
      assert [] + actions[|before|..] == actions[|before|..];
    }

    // The answer to a frame that came early.
    lemma EarlyWellSent(answer: seq<Action>, p: nat, ns: nat, ask: seq<nat>)
      requires tx.txdataByNs.Length == SLOTS && rx.vr < 8
      ensures EarlyAnswer(answer, p, ns, ask) && !ownReceiverBusy ==>
          && AllWellSent(answer, false, rx.vr, tx.txdataByNs[..])
          && if p == 1 then answer == [EnquiryAct(1)] else AllSrej(answer)
    {
      hide SAct, AllWellSent, WellSent;
      ActsWellSent(false, rx.vr, 1, tx.txdataByNs[..]);
      if EarlyAnswer(answer, p, ns, ask) && !ownReceiverBusy && answer == Srejs(ask, rx.vr) && Residues(ask) {
        SrejsWellSent(ask, false, rx.vr, tx.txdataByNs[..]);
        SrejsAreSrej(ask, rx.vr);
      }
    }

    // The frames without a number, and what they say.
    method UnnumberedSaid(ft: FrameType, cr: CmdRes, pf: nat, ghost nr: nat, ghost info: seq<byte>)
      requires Valid() && pf < 2 && ft !in {I, RR, RNR, REJ, SREJ}
      modifies this, tm, tx, tx.txdataByNs, rx`vr, rx`since, rx`accepted, rx.rxdataByNs
      ensures Valid() && StaysReady() && (old(Watched()) ==> Watched()) && tm.Ticks() && rx.Grows({})
      ensures if ft == SABM then SabmDone(pf, actions) else if ft == DISC then DiscDone(pf, actions)
              else if ft == DM then DmDone(pf, actions) else if ft == UA then UaDone(pf, actions)
              else if ft == FRMR then FrmrDone(actions) else if ft == UI then UiDone(cr, pf, actions)
              else state == old(state) && actions == old(actions)
      ensures (tx.sent == old(tx.sent) || tx.sent == []) && old(actions) <= actions && Honest(actions)
      ensures Connecting(old(state), state, ft, cr, pf)
      ensures tx.txdataByNs.Length == SLOTS && Said(ft, cr, pf, nr, info, actions)
    {
      hide Valid, Watched, AllGenuine, Receiver.Untouched, SlotsWalked, UAct, SAct, IsGoodNr, AllWellSent, Honest,
          Connecting, FrameReplies, Receiver.Grows;
      SlotsThere();
      ghost var before, busy, was, va, vs := actions, ownReceiverBusy, state, tx.va, tx.vs;
      ghost var up := Up();
      Unnumbered(ft, cr, pf);
      SlotsThere();
      ghost var answer := UnnumberedAnswer(up, busy, rx.vr, ft, cr, pf);
      assert actions == before + answer;
      assert actions[|before|..] == answer;
      UnnumberedReplies(was, state, va, vs, busy, rx.vr, ft, cr, pf, nr, info, tx.txdataByNs[..]);
    }

    /** The link as a value. */
    ghost function View(): LinkView
      reads this, tm, tx, tx.txdataByNs, rx
    {
      LinkView(state, rc, n2Retry, actions,
               tx.va, tx.vs, tx.kMaxframe, tx.txdataByNs[..], tx.sent, tx.acked,
               rx.vr, rx.delivered, rx.since, rx.accepted,
               tm.IsT1Running(), tm.IsT3Running(), tm.radioChannelBusy, tm.armed, tm.idle, tm.t1v, ownReceiverBusy)
    }

    lemma SoundNow()
      requires Valid()
      ensures View().Sound()
    {
      hide Ahead, InOrder, FromFrames, Kept;
      Counted(rx.delivered, rx.since, rx.accepted);
    }

    // A frame, as a step.
    method FrameStep(e: Event)
      requires Valid() && e.Frame? && e.Possible() && |View().slots| == SLOTS
      modifies this, tm, tx, tx.txdataByNs, rx, rx.rxdataByNs
      ensures Valid() && |View().slots| == SLOTS && Watches(old(View()), e, View()) && Clock(old(View()), e, View())
      ensures Received(old(View()), e, View()) && Sends(old(View()), e, View()) && Connects(old(View()), e, View())
      ensures Speaks(old(View()), View()) && Replies(old(View()), e, View())
    {
      hide Valid, FrameDone, FrameExhumes, AllGenuine, Connecting, AllWellSent, FrameReplies;
      ghost var before, was, busy, va, vs := actions, state, ownReceiverBusy, tx.va, tx.vs;
      ghost var ask, acts;
      ask, acts := LmDataIndication(e.ft, e.cr, e.pf, e.nr, e.ns, e.pid, e.info);
      SlotsThere();
      MoreActions(old(actions), acts, actions, rx.vr, tx.acked, tx.sent);
      MoreSaid(before, acts, actions, was, state, va, vs, busy, rx.vr, e, tx.txdataByNs[..]);
    }

    // What is sent when a timer expires, in figures.
    lemma ExpiryFigures(slots: seq<Slot<Sendable>>)
      requires Valid() && |slots| == SLOTS
      ensures Poll() == Send(false, Cmd, SContent(if ownReceiverBusy then RNR else RR, rx.vr, true, []))
      ensures ExpiryActs() ==
          match state
          case Connected => [Poll()]
          case AwaitingConnection => if rc == n2Retry then [] else [Send(false, Cmd, UContent(SABM, true, 0, []))]
          case TimerRecovery => [if rc == n2Retry then Send(false, Res, UContent(DM, false, 0, [])) else Poll()]
          case _ => []
      ensures AllWellSent(ExpiryActs(), ownReceiverBusy, rx.vr, slots) && AllWellSent([], ownReceiverBusy, rx.vr, slots)
      ensures AllWellSent([Poll()], ownReceiverBusy, rx.vr, slots)
    {
      hide Valid, UAct, SAct, AllWellSent, WellSent;
      SlotsThere();
      ActFigures(rx.vr, 0);
      ActsWellSent(ownReceiverBusy, rx.vr, 0, slots);
    }

    // Time, as a step, but for what is sent.
    method TimePasses(dt: real) returns (ghost t1: bool)
      requires Valid() && dt >= 0.0 && |View().slots| == SLOTS
      modifies this`state, this`rc, this`actions, this`acknowledgePending, tm, tx`queue
      ensures Valid() && |View().slots| == SLOTS && t1 == T1Fires(old(View()), Passed(dt))
      ensures Watches(old(View()), Passed(dt), View()) && Retries(old(View()), Passed(dt), View())
      ensures Clock(old(View()), Passed(dt), View()) && Connects(old(View()), Passed(dt), View())
      ensures actions == old(actions) +
          if t1 then old(ExpiryActs())
          else if old(state) == Connected && state == TimerRecovery then [old(Poll())] else []
    {
      hide Valid, Poll, ExpiryActs;
      Elapse(dt);
      ghost var t3;
      t1, t3 := DlTimerExpiry();
      SlotsThere();
    }

    // Time, as a step.
    method TimeStep(dt: real)
      requires Valid() && dt >= 0.0 && |View().slots| == SLOTS
      modifies this`state, this`rc, this`actions, this`acknowledgePending, tm, tx`queue
      ensures Valid() && |View().slots| == SLOTS
      ensures Watches(old(View()), Passed(dt), View()) && Retries(old(View()), Passed(dt), View())
      ensures Clock(old(View()), Passed(dt), View()) && Received(old(View()), Passed(dt), View())
          && Sends(old(View()), Passed(dt), View()) && Connects(old(View()), Passed(dt), View())
      ensures Speaks(old(View()), View()) && Replies(old(View()), Passed(dt), View())
    {
      hide Valid, Poll, AllGenuine, ExpiryActs, AllWellSent, Watches, Retries, Clock, Connects, T1Fires;
      ExpiryPlain();
      ExpiryFigures(tx.txdataByNs[..]);
      ghost var t1 := TimePasses(dt);
      PlainGenuine(actions[|old(actions)|..], rx.vr, tx.acked, tx.sent);
    }

    // What is sent when a timer expires carries no data.
    lemma ExpiryPlain()
      ensures Plain(ExpiryActs()) && Plain([Poll()])
    {
      hide SAct, UAct;
    }

    // lm_seize_confirm, and what it says.
    method SeizedActs()
      requires Valid() && tx.txdataByNs.Length == SLOTS && tx.acked <= |tx.sent|
      modifies this`actions, this`acknowledgePending, tm, tx`vs, tx`queue, tx`sent, tx.txdataByNs
      ensures Valid() && tm.Ticks() && (old(Watched()) ==> Watched()) && tx.txdataByNs.Length == SLOTS
      ensures old(tx.sent) <= tx.sent && old(actions) <= actions
      ensures AllGenuine(actions[|old(actions)|..], rx.vr, tx.acked, tx.sent)
      ensures AllWellSent(actions[|old(actions)|..], ownReceiverBusy, rx.vr, tx.txdataByNs[..])
      ensures SeizedSends(|old(tx.sent)|, actions[|old(actions)|..])
    {
      hide Valid, EnquiryAct, Transmissions, AllGenuine, AllWellSent, SeizedSends, Watched;
      ghost var before, n, due := actions, |tx.sent|, acknowledgePending;
      NothingSent();
      LmSeizeConfirm();
      SlotsThere();
      SeizedHonest(before, n);
      assert actions == before ==> actions == before + [] + [];
      SeizedSaid(before, n, due && Up());
    }

    // The channel becoming ours, as a step.
    method SeizedStep()
      requires Valid() && |View().slots| == SLOTS
      modifies this`actions, this`acknowledgePending, tm, tx`vs, tx`queue, tx`sent, tx.txdataByNs
      ensures Valid() && |View().slots| == SLOTS
      ensures Watches(old(View()), Seized, View()) && Retries(old(View()), Seized, View())
      ensures Clock(old(View()), Seized, View()) && Received(old(View()), Seized, View())
          && Sends(old(View()), Seized, View()) && Connects(old(View()), Seized, View())
      ensures Speaks(old(View()), View()) && Replies(old(View()), Seized, View())
    {
      hide Valid, AllGenuine, AllWellSent, Kept, Carries;
      AllKept();
      SeizedActs();
    }

    lemma SeizedHonest(before: seq<Action>, n: nat)
      requires tx.acked <= n <= |tx.sent|
      ensures actions == before ==> AllGenuine(actions[|before|..], rx.vr, tx.acked, tx.sent)
      ensures actions == before + Transmissions(tx.sent, rx.vr, n, |tx.sent|) + [EnquiryAct(0)]
              || actions == before + Transmissions(tx.sent, rx.vr, n, |tx.sent|) + [] ==>
                before <= actions && AllGenuine(actions[|before|..], rx.vr, tx.acked, tx.sent)
    {
      hide SAct, Transmissions, AllGenuine;
      var more := Transmissions(tx.sent, rx.vr, n, |tx.sent|);
      TransmissionsGenuine(tx.sent, rx.vr, tx.acked, n, |tx.sent|);
      PlainGenuine([EnquiryAct(0)], rx.vr, tx.acked, tx.sent);
      PlainGenuine([], rx.vr, tx.acked, tx.sent);
      if actions == before {
        assert actions[|before|..] == [];
      }
      if actions == before + more + [EnquiryAct(0)] {
        Appended(before, more, [EnquiryAct(0)], actions, rx.vr, tx.acked, tx.sent);
      } else if actions == before + more + [] {
        Appended(before, more, [], actions, rx.vr, tx.acked, tx.sent);
      }
    }

    // What is sent for the first time, and the acknowledgement that is sent if there is nothing, in figures.
    lemma SeizedSaid(before: seq<Action>, n: nat, due: bool)
      requires Valid() && tx.acked <= n <= |tx.sent| && tx.txdataByNs.Length == SLOTS
      requires actions == before + Transmissions(tx.sent, rx.vr, n, |tx.sent|)
          + if due && n == |tx.sent| then [EnquiryAct(0)] else []
      ensures before <= actions && AllWellSent(actions[|before|..], ownReceiverBusy, rx.vr, tx.txdataByNs[..])
      ensures SeizedSends(n, actions[|before|..])
    {
      hide Valid, SAct, Transmissions, AllWellSent, WellSent, Kept, Carries;
      SlotsThere();
      AllKept();
      ActFigures(rx.vr, 0);
      ActsWellSent(ownReceiverBusy, rx.vr, 0, tx.txdataByNs[..]);
      var a, b := Transmissions(tx.sent, rx.vr, n, |tx.sent|), if due && n == |tx.sent| then [EnquiryAct(0)] else [];
      TransmissionsWellSent(tx.txdataByNs[..], ownReceiverBusy, rx.vr, tx.sent, tx.acked, n, |tx.sent|);
      InParts(before, a, b, actions, ownReceiverBusy);
      forall m | n <= m < |tx.sent|
        ensures Carries((a + b)[m - n], rx.vr, m % 8, tx.sent[m])
      {
        TransmissionsCarry(tx.sent, rx.vr, n, |tx.sent|, m - n);
      }
    }

    ghost predicate SeizedSends(n: nat, acts: seq<Action>)
      requires n <= |tx.sent|
      reads this`ownReceiverBusy, tx`sent, rx`vr
    {
      && |acts| >= |tx.sent| - n
      && (forall m :: n <= m < |tx.sent| ==> Carries(acts[m - n], rx.vr, m % 8, tx.sent[m]))
      && (|acts| == |tx.sent| - n
          || acts == [Send(false, Res, SContent(if ownReceiverBusy then RNR else RR, rx.vr, false, []))])
    }

    // Whatever happens to the channel, as a step.
    method ChannelStep(activity: Activity, status: bool)
      requires Valid() && |View().slots| == SLOTS
      modifies this`dcdStatus, this`pttStatus, tm
      ensures Valid() && |View().slots| == SLOTS
      ensures var e := Channel(activity, status);
        && Watches(old(View()), e, View()) && Retries(old(View()), e, View())
        && Clock(old(View()), e, View()) && Received(old(View()), e, View()) && Sends(old(View()), e, View())
        && Connects(old(View()), e, View()) && Speaks(old(View()), View()) && Replies(old(View()), e, View())
    {
      hide Valid, Genuine;
      LmChannelBusy(activity, status);
      SlotsThere();
    }

    // Something new to send, as a step.
    method QueuedStep(d: Sendable)
      requires Valid() && |View().slots| == SLOTS
      modifies tx`queue
      ensures Valid() && |View().slots| == SLOTS
      ensures Watches(old(View()), Queued(d), View()) && Retries(old(View()), Queued(d), View())
      ensures Clock(old(View()), Queued(d), View()) && Received(old(View()), Queued(d), View())
          && Sends(old(View()), Queued(d), View()) && Connects(old(View()), Queued(d), View())
      ensures Speaks(old(View()), View()) && Replies(old(View()), Queued(d), View())
    {
      hide Valid, Genuine;
      Enqueue(d);
      SlotsThere();
    }

    /** One thing that happens to the link. */
    method Step(e: Event)
      requires Valid() && e.Possible()
      modifies this, tm, tx, tx.txdataByNs, rx, rx.rxdataByNs
      ensures Valid() && Stepped(old(View()), e, View())
    {
      hide Valid, View, LinkView.Sound, Watches, Retries, Clock, Received, Sends, Connects, Speaks, Replies;
      SoundNow();
      SoundShape(View());
      match e {
        case Frame(_, _, _, _, _, _, _) =>
          FrameStep(e);
          FramesDoNotRetry(old(View()), e, View());
        case Channel(activity, status) => ChannelStep(activity, status);
        case Seized => SeizedStep();
        case Passed(dt) => TimeStep(dt);
        case Queued(d) => QueuedStep(d);
      }
      SoundNow();
    }

    /** A run of events, with the link as it was before and after each of them. */
    method Run(es: seq<Event>) returns (ghost trace: seq<LinkView>)
      requires Valid() && forall i :: 0 <= i < |es| ==> es[i].Possible()
      modifies this, tm, tx, tx.txdataByNs, rx, rx.rxdataByNs
      ensures Valid() && IsRun(trace, es) && trace[0] == old(View()) && trace[|es|] == View()
    {
      hide Valid, View, Stepped;
      trace := [View()];
      for n := 0 to |es|
        invariant Valid() && IsRun(trace, es[..n]) && trace[0] == old(View()) && trace[n] == View()
      {
        ghost var before := trace;
        Step(es[n]);
        trace := trace + [View()];
        RunMore(before, es, n, View());
      }
      assert es[..|es|] == es;
    }

    // What remains of a running T1.
    lemma Due()
      requires Valid() && tm.IsT1Running()
      ensures tm.Remaining() == tm.armed - tm.idle
    {
    }

    // With the first frame outstanding, it is in its slot, and the last of the eight is empty.
    lemma FirstOutstanding()
      requires Parts() && tx.acked == 0 && |tx.sent| == 1
      ensures tx.txdataByNs.Length == SLOTS && tx.txdataByNs[..][0] == Full(tx.sent[0]) && tx.txdataByNs[7].Empty?
    {
      assert tx.txdataByNs[..][0 % 8] == Full(tx.sent[0]);
    }

    lemma NothingOutstanding()
      requires Parts() && tx.sent == []
      ensures tx.va == tx.vs == 0 && GoodNr(0)
    {
    }

    /** With seven frames outstanding, an SREJ that does not acknowledge and names the number to be
        sent next starves a link in timer recovery. */
    lemma FullWindowStarves()
      requires Parts() && state == TimerRecovery && |tx.sent| == tx.acked + 7
      ensures tx.vs < 8 && tx.txdataByNs.Length == SLOTS && GoodNr(tx.vs) && Starves(0, tx.vs, [])
    {
      tx.WindowExact();
      GoodNrExact(tx.acked, |tx.sent|, tx.vs);
      assert InWindow(tx.acked, |tx.sent|, tx.vs, |tx.sent|);
      SevenAhead(tx.acked);
      NamedNone(tx.vs);
    }
  }

  /** A link connected, with a full window of seven frames sent. */
  method FullWindow(d: Sendable) returns (l: Link)
    ensures l.Valid() && l.Watched() && l.state == Connected && |l.tx.sent| == l.tx.acked + 7 && l.tm.IsT1Running()
    ensures fresh(l) && fresh(l.tm) && fresh(l.tx) && fresh(l.rx) && fresh(l.tx.txdataByNs) && fresh(l.rx.rxdataByNs)
  {
    hide Timers.Valid, Sender.Valid, Receiver.Valid, Transmissions, UAct, SAct, Link.EnquiryAct;
    l := new Link(7, 10, 3.0, 1.0, false, false);
    l.SabmFrame(0);
    for n := 0 to 7
      invariant l.Valid() && l.Watched() && l.state == Connected && l.tx.sent == [] && l.tx.acked == 0
      invariant |l.tx.queue| >= n && !l.peerReceiverBusy
      invariant fresh(l) && fresh(l.tm) && fresh(l.tx) && fresh(l.rx) && fresh(l.tx.txdataByNs)
          && fresh(l.rx.rxdataByNs)
    {
      l.Enqueue(d);
    }
    l.LmSeizeConfirm();
    l.Shapes();
  }

  /** A link that no timer watches: a full window is sent, T1 expires, and an SREJ for the next
      number arrives. */
  method StarvedRun(d: Sendable) returns (l: Link)
    ensures l.Valid() && l.state == TimerRecovery && !l.tm.IsT1Running() && l.tx.Outstanding()
  {
    hide Timers.Valid, Sender.Valid, Receiver.Valid, Transmissions, UAct, SAct, Link.Starves, Resends, Named, IsGoodNr,
        Acknowledged;
    l := FullWindow(d);
    l.LmChannelBusy(Dcd, false);
    l.LmChannelBusy(Ptt, false);
    l.Due();
    l.Elapse(if l.tm.Remaining() > 0.0 then l.tm.Remaining() else 0.0);
    ghost var t1, t3 := l.DlTimerExpiry();
    l.FullWindowStarves();
    l.SrejFrame(0, l.tx.vs, []);
    l.Shapes();
  }

  /** A link with one frame outstanding. */
  method OneOutstanding(d: Sendable) returns (l: Link)
    ensures l.Valid() && l.Watched() && l.state == Connected && l.tx.sent == [d] && l.tx.acked == 0
    ensures fresh(l) && fresh(l.tm) && fresh(l.tx) && fresh(l.rx) && fresh(l.tx.txdataByNs) && fresh(l.rx.rxdataByNs)
  {
    hide Timers.Valid, Sender.Valid, Receiver.Valid, Transmissions, UAct, SAct, Link.EnquiryAct, Walked;
    l := new Link(7, 10, 3.0, 1.0, false, false);
    l.SabmFrame(0);
    l.Enqueue(d);
    assert l.tx.queue == [d];
    l.LmSeizeConfirm();
    assert l.tx.sent + l.tx.queue == [d] && l.tx.queue == [];
  }

  /** A connected link that has sent nothing yet and holds a frame in its first slot. */
  method LeftOver(d: Sendable) returns (l: Link)
    ensures l.Valid() && l.state == Connected && l.tx.sent == [] && l.tx.acked == 0
    ensures l.tx.txdataByNs.Length == SLOTS && l.tx.txdataByNs[0] == Full(d)
    ensures fresh(l) && fresh(l.tm) && fresh(l.tx) && fresh(l.rx) && fresh(l.tx.txdataByNs) && fresh(l.rx.rxdataByNs)
  {
    hide Timers.Valid, Sender.Valid, Receiver.Valid, UAct, Walked;
    l := OneOutstanding(d);
    l.FirstOutstanding();
    l.SabmFrame(0);
    assert l.tx.txdataByNs[..][0] == Full(d);
  }

  /** A link that sends a frame of an old connection: a frame is outstanding when a SABM resets the link,
      its slot stays filled, and an SREJ for its number sends it, though nothing has been sent since the
      reset. */
  method StaleRun(d: Sendable) returns (l: Link)
    ensures l.Valid() && l.state == Connected && l.tx.sent == []
    ensures l.actions != [] && Carries(l.actions[|l.actions| - 1], l.rx.vr, 0, d)
  {
    hide Timers.Valid, Sender.Valid, Receiver.Valid, IAct, Carries, Link.Starves, Released, Resends, Named,
        Acknowledged;
    l := LeftOver(d);
    l.NothingOutstanding();
    OneResent(l.tx.txdataByNs[..], l.rx.vr);
    l.SrejFrame(0, 0, []);
    l.Shapes();
    ActCarries(l.rx.vr, 0, d);
  }

  lemma OneResent(slots: seq<Slot<Sendable>>, vr: nat)
    requires |slots| == SLOTS && slots[0].Full?
    ensures Resends(slots, vr, Named(0, [])) == [IAct(vr, 0, slots[0].value)]
  {
    hide IAct;
    NamedNone(0);
    ResendsMore(slots, vr, [], 0);
    assert [] + [0] == [0];
  }
}
