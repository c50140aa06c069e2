/** How 32-bit deadlines and one roll-over flag represent deadlines in unbounded time. */
module AlarmArithmetic {
  import opened Words

  /** The 2^32-tick period that contains an absolute time. */
  function Epoch(t: nat): nat {
    t / 0x1_0000_0000
  }

  /**
   An absolute deadline. An early one is due on the next tick although its deadline word is the present
   counter, so the periods that follow are counted from one tick before it.
   */
  datatype Deadline = Deadline(due: nat, early: bool)

  /**
   The fields of an alarm represent a deadline at time `now`: it is ahead by less than 2^32 ticks and the flag
   is set exactly when it lies in a later epoch. The second case is a full period of 2^32 ticks requested
   when the counter is about to wrap.
   */
  predicate Represents(d: Deadline, now: nat, time: Word, rollover: bool) {
    if d.early then d.due == now + 1 && !rollover && time == Wrap(now) && time != 0xFFFF_FFFF
    else
      && time == Wrap(d.due)
      && if d.due == now + 0x1_0000_0000 then !rollover && time == 0xFFFF_FFFF
         else now < d.due < now + 0x1_0000_0000 && (rollover <==> Epoch(now) < Epoch(d.due))
  }

  /** alt_alarm_start.c lines 82 to 96. */
  function StartFields(nticks: Word, counter: Word): (Word, bool) {
    var time := Wrap(nticks + counter + 1);
    (time, time < counter)
  }

  /** alt_tick.c lines 109 to 115: the flag after the counter moved, and whether the callback is made. */
  function TickFields(time: Word, rollover: bool, counter: Word): (bool, bool) {
    var flag := rollover && counter != 0;
    (flag, time <= counter && !flag)
  }

  /** alt_tick.c lines 127 to 137, entered with a clear flag. */
  function RearmFields(time: Word, period: Word, counter: Word): (Word, bool) {
    var t := Wrap(time + period);
    (t, t < counter)
  }

  /** The one interval alt_alarm_start gets wrong, unless the counter is about to wrap. */
  predicate ExactInterval(now: nat, nticks: Word) {
    nticks != 0xFFFF_FFFF || Wrap(now) == 0xFFFF_FFFF
  }

  /** The deadline of an alarm started at time `now`. */
  function Started(now: nat, nticks: Word): Deadline {
    if ExactInterval(now, nticks) then Deadline(now + nticks + 1, false) else Deadline(now + 1, true)
  }

  /** The deadline after a callback at time `now` has returned `period`. */
  function Rearmed(now: nat, early: bool, period: Word): Deadline {
    if !early then Deadline(now + period, false)
    else if period > 1 then Deadline(now + period - 1, false)
    else if Wrap(now) == 0xFFFF_FFFF then Deadline(now + 0x1_0000_0000, false)
    else Deadline(now + 1, true)
  }

  lemma StartRepresents(now: nat, nticks: Word)
    ensures var f := StartFields(nticks, Wrap(now));
      Represents(Started(now, nticks), now, f.0, f.1)
  {
    if nticks != 0xFFFF_FFFF {
      EpochStep(now, nticks + 1);
    }
  }

  lemma EpochStep(now: nat, d: nat)
    requires 0 < d < 0x1_0000_0000
    ensures Epoch(now + d) == Epoch(now) + (if Wrap(now) + d < 0x1_0000_0000 then 0 else 1)
    ensures Wrap(now + d) == Wrap(now) + d - (if Wrap(now) + d < 0x1_0000_0000 then 0 else 0x1_0000_0000)
  {
  }

  /** On the tick that makes the time `now`, the callback is made exactly when the deadline is reached. */
  lemma TickFiresExactly(d: Deadline, now: nat, time: Word, rollover: bool)
    requires 0 < now && Represents(d, now - 1, time, rollover)
    ensures var f := TickFields(time, rollover, Wrap(now));
      && (f.1 <==> d.due == now)
      && (d.due != now ==> Represents(d, now, time, f.0))
      && (d.due == now ==> !f.0 && time == Wrap(if d.early then now - 1 else now))
  {
    EpochStep(now - 1, 1);
    if now < d.due {
      EpochStep(now, d.due - now);
    }
  }

  /** Re-arming after a callback, whose deadline word is the counter, or one less if the alarm was early. */
  lemma RearmRepresents(now: nat, early: bool, period: Word)
    requires period != 0
    requires early ==> 0 < now && Wrap(now - 1) != 0xFFFF_FFFF
    ensures var f := RearmFields(Wrap(if early then now - 1 else now), period, Wrap(now));
      Represents(Rearmed(now, early, period), now, f.0, f.1)
  {
    if !early {
      EpochStep(now, period);
    } else {
      EpochStep(now - 1, 1);
      LaterByOneLess(now, period);
    }
  }

  /** A period counted from one tick ago. */
  lemma LaterByOneLess(now: nat, period: Word)
    requires period != 0 && 0 < now && Wrap(now) == Wrap(now - 1) + 1
    ensures var time := Wrap(Wrap(now - 1) + period);
      Represents(Rearmed(now, true, period), now, time, time < Wrap(now))
  {
    var time := Wrap(Wrap(now - 1) + period);
    assert time == Wrap(Wrap(now) + (period - 1)) && Wrap(Wrap(now)) == Wrap(now);
    if period > 1 {
      EpochStep(now, period - 1);
    }
  }

  /** Left alone from time `now`, an alarm with these fields is called back first after exactly `k` ticks. */
  predicate FiresFirstAfter(now: nat, time: Word, rollover: bool, k: nat)
    requires 0 < k
    decreases k
  {
    var f := TickFields(time, rollover, Wrap(now + 1));
    if k == 1 then f.1 else !f.1 && FiresFirstAfter(now + 1, time, f.0, k - 1)
  }

  lemma {:induction false} RepresentedFiresAt(d: Deadline, now: nat, time: Word, rollover: bool)
    requires Represents(d, now, time, rollover)
    ensures now < d.due && FiresFirstAfter(now, time, rollover, d.due - now)
    decreases d.due - now
  {
    TickFiresExactly(d, now + 1, time, rollover);
    if now + 1 < d.due {
      RepresentedFiresAt(d, now + 1, time, TickFields(time, rollover, Wrap(now + 1)).0);
    }
  }

  /**
   The deadline arithmetic is exact for an interval if and only if the interval is not 0xFFFFFFFF or the
   counter holds 0xFFFFFFFF. In every other case the alarm fires on the very next tick.
   */
  lemma StartExactness(now: nat, nticks: Word)
    ensures var f := StartFields(nticks, Wrap(now));
      && (FiresFirstAfter(now, f.0, f.1, nticks + 1) <==> ExactInterval(now, nticks))
      && (!ExactInterval(now, nticks) ==> FiresFirstAfter(now, f.0, f.1, 1))
  {
    var f := StartFields(nticks, Wrap(now));
    StartRepresents(now, nticks);
    RepresentedFiresAt(Started(now, nticks), now, f.0, f.1);
  }

  /** The failing interval, at power-up: an alarm asked for 2^32 ticks from tick 0 fires at tick 1. */
  lemma LongestIntervalAtPowerUp()
    ensures StartFields(0xFFFF_FFFF, 0) == (0, false)
    ensures FiresFirstAfter(0, 0, false, 1) && !FiresFirstAfter(0, 0, false, 0x1_0000_0000)
  {
    StartExactness(0, 0xFFFF_FFFF);
  }
}
