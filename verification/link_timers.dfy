/** The two timers of a data link. T1 is paused while the radio channel is busy. */
module LinkTimers {
  const T3_DEFAULT := 300.0

  class Timers {
    var now: real // the clock
    var t1v: real
    var srt: real
    var radioChannelBusy: bool
    var t1Exp: real
    var t1PausedAt: real
    var t1RemainingWhenLastStopped: real
    var t1HadExpired: bool
    var t3Exp: real
    ghost var armed: real // T1 was last started with this much time to run
    ghost var idle: real // for this long the channel has been idle since

    /** T1 is paused exactly while the channel is busy, and what remains of it is what it was
        started with less the idle time since. */
    ghost predicate Valid()
      reads this
    {
      && now > 0.0 && t1v >= 0.0 && srt >= 0.0 && t1Exp >= 0.0 && t3Exp >= 0.0
      && 0.0 <= t1PausedAt <= now && idle >= 0.0
      && (t1Exp != 0.0 ==> (t1PausedAt != 0.0 <==> radioChannelBusy) && Remaining() == armed - idle)
    }

    predicate IsT1Running()
      reads this`t1Exp
    {
      t1Exp != 0.0
    }

    predicate IsT3Running()
      reads this`t3Exp
    {
      t3Exp != 0.0
    }

    /** The time T1 still has to run, not counting any more pauses. */
    function Remaining(): real
      reads this
    {
      t1Exp - if t1PausedAt != 0.0 then t1PausedAt else now
    }

    /** The round-trip estimates have been set up. */
    ghost predicate Estimated()
      reads this`t1v, this`srt
    {
      t1v > 0.0 && srt > 0.0
    }

    /** T1 is stopped, has just been started with its full time, or runs on as it did. */
    twostate predicate Ticks()
      reads this
    {
      && radioChannelBusy == old(radioChannelBusy) && now == old(now)
      && (IsT1Running() ==>
           || (armed == t1v && idle == 0.0)
           || (old(IsT1Running()) && armed == old(armed) && idle == old(idle) && t1v == old(t1v)))
    }

    constructor (start: real)
      requires start > 0.0
      ensures Valid() && now == start && !IsT1Running() && !IsT3Running() && !radioChannelBusy
    {
      now, t1v, srt, t1Exp, t1PausedAt, t3Exp := start, 0.0, 0.0, 0.0, 0.0, 0.0;
      radioChannelBusy, t1HadExpired := false, false;
      t1RemainingWhenLastStopped := -999.0;
      armed, idle := 0.0, 0.0;
    }

    /** INIT_T1V_SRT */
    method InitT1v(frack: real)
      requires Valid() && frack > 0.0
      modifies this`t1v, this`srt
      ensures Valid() && Estimated() && t1v == frack && srt == frack / 2.0
    {
      t1v, srt := frack, frack / 2.0;
    }

    method StartT1()
      requires Valid()
      modifies this`t1Exp, this`t1PausedAt, this`t1HadExpired, this`armed, this`idle
      ensures Valid() && Remaining() == t1v == armed && idle == 0.0
      ensures IsT1Running() && !t1HadExpired
    {
      t1Exp := now + t1v;
      t1PausedAt := if radioChannelBusy then now else 0.0;
      t1HadExpired := false;
      armed, idle := t1v, 0.0;
    }

    method PauseT1()
      modifies this`t1PausedAt
      ensures t1PausedAt == if old(t1PausedAt) == 0.0 then now else old(t1PausedAt)
    {
      if t1PausedAt == 0.0 {
        t1PausedAt := now;
      }
    }

    // The time of the pause is added to the expiry time.
    method ResumeT1()
      requires 0.0 <= t1PausedAt <= now && t1Exp >= 0.0
      modifies this`t1Exp, this`t1PausedAt
      ensures IsT1Running() <==> old(IsT1Running())
      ensures IsT1Running() ==> t1PausedAt == 0.0 && Remaining() == old(Remaining())
      ensures t1Exp >= 0.0 && 0.0 <= t1PausedAt <= now && (!IsT1Running() ==> t1PausedAt == old(t1PausedAt))
    {
      if t1Exp == 0.0 {
        // stopped
      } else if t1PausedAt == 0.0 {
        // running
      } else {
        t1Exp := t1Exp + (now - t1PausedAt);
        t1PausedAt := 0.0;
      }
    }

    /** The time remembered is what remained of T1, and never negative. */
    method StopT1()
      requires Valid()
      modifies this`t1Exp, this`t1PausedAt, this`t1HadExpired, this`t1RemainingWhenLastStopped
      ensures Valid() && !IsT1Running() && !t1HadExpired
      ensures old(IsT1Running()) ==>
                t1RemainingWhenLastStopped == if old(armed < idle) then 0.0 else old(armed - idle)
      ensures !old(IsT1Running()) ==> t1RemainingWhenLastStopped == old(t1RemainingWhenLastStopped)
    {
      ResumeT1();
      if t1Exp != 0.0 {
        t1RemainingWhenLastStopped := t1Exp - now;
        if t1RemainingWhenLastStopped < 0.0 {
          t1RemainingWhenLastStopped := 0.0;
        }
      }
      t1Exp := 0.0;
      t1HadExpired := false;
    }

    method StartT3()
      requires Valid()
      modifies this`t3Exp
      ensures Valid() && IsT3Running() && t3Exp == now + 300.0
    {
      t3Exp := now + T3_DEFAULT;
    }

    method StopT3()
      requires Valid()
      modifies this`t3Exp
      ensures Valid() && !IsT3Running()
    {
      t3Exp := 0.0;
    }

    /** lm_channel_busy, for this link: whatever the channel does, T1 keeps what remains of it. */
    method ChannelBusy(busy: bool)
      requires Valid()
      modifies this`radioChannelBusy, this`t1Exp, this`t1PausedAt
      ensures Valid() && radioChannelBusy == busy
      ensures IsT1Running() == old(IsT1Running())
      ensures IsT1Running() ==> Remaining() == old(Remaining())
    {
      if busy && !radioChannelBusy {
        radioChannelBusy := true;
        PauseT1();
      } else if !busy && radioChannelBusy {
        radioChannelBusy := false;
        ResumeT1();
      }
    }

    /** Time passes. Only idle time counts against T1. */
    method Pass(dt: real)
      requires Valid() && dt >= 0.0
      modifies this`now, this`idle
      ensures Valid() && now == old(now) + dt
      ensures idle == old(idle) + if radioChannelBusy then 0.0 else dt
    {
      now := now + dt;
      if !radioChannelBusy {
        idle := idle + dt;
      }
    }

    /** The T1 half of dl_timer_expiry: T1 fires exactly when the channel is idle and has been for
        at least the time T1 was started with. */
    method TakeT1Expiry() returns (fired: bool)
      requires Valid()
      modifies this`t1Exp, this`t1PausedAt, this`t1HadExpired
      ensures Valid()
      ensures fired == old(IsT1Running() && !radioChannelBusy && idle >= armed)
      ensures fired ==> !IsT1Running() && t1HadExpired
      ensures !fired ==> t1Exp == old(t1Exp) && t1PausedAt == old(t1PausedAt) && t1HadExpired == old(t1HadExpired)
    {
      fired := t1Exp != 0.0 && t1PausedAt == 0.0 && t1Exp <= now;
      if fired {
        t1Exp, t1PausedAt, t1HadExpired := 0.0, 0.0, true;
      }
    }

    /** The T3 half of dl_timer_expiry. */
    method TakeT3Expiry() returns (fired: bool)
      requires Valid()
      modifies this`t3Exp
      ensures Valid() && fired == old(IsT3Running() && t3Exp <= now)
      ensures if fired then !IsT3Running() else t3Exp == old(t3Exp)
    {
      fired := t3Exp != 0.0 && t3Exp <= now;
      if fired {
        t3Exp := 0.0;
      }
    }

    /** select_t1_value: T1 stays positive, and is twice the smoothed round trip of at least one
        second when there was no retry. */
    method SelectT1Value(rc: nat)
      requires Valid() && Estimated()
      modifies this`t1v, this`srt
      ensures Valid() && Estimated()
      ensures rc == 0 ==>
                var smoothed := old(if t1RemainingWhenLastStopped < 0.0 then srt
                                    else 7.0 / 8.0 * srt + 1.0 / 8.0 * (t1v - t1RemainingWhenLastStopped));
                srt == (if smoothed < 1.0 then 1.0 else smoothed) && t1v == 2.0 * srt
      ensures rc != 0 ==> srt == old(srt) && t1v == if t1HadExpired then rc as real * 0.25 + srt * 2.0 else old(t1v)
    {
      if rc == 0 {
        if t1RemainingWhenLastStopped >= 0.0 {
          srt := 7.0 / 8.0 * srt + 1.0 / 8.0 * (t1v - t1RemainingWhenLastStopped);
        }
        if srt < 1.0 {
          srt := 1.0;
        }
        t1v := srt * 2.0;
      } else if t1HadExpired {
        t1v := rc as real * 0.25 + srt * 2.0;
      }
    }
  }
}
