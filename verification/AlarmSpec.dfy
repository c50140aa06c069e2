/** Alarms over unbounded time: what the tick service promises its clients. */
module AlarmSpec {
  import opened Words
  import opened AlarmArithmetic

  /**
   What a callback does: the alarms it starts, with their intervals, whether it unregisters its own alarm, and
   the period it returns.
   */
  datatype Reply<A> = Reply(period: Word, stopsItself: bool, starts: seq<(A, Word)>) {
    predicate Keeps() {
      period != 0 && !stopsItself
    }
  }

  /** A registered alarm and the deadline of its next callback. */
  datatype Timer<A> = Timer(alarm: A, at: Deadline)

  /** The service: absolute time, registered alarms in list order, and the callbacks made so far. */
  datatype Clock<A> = Clock(now: nat, timers: seq<Timer<A>>, log: seq<(A, nat)>)

  datatype Op<A> = Start(alarm: A, nticks: Word) | Stop(alarm: A) | Tick

  /** How callbacks answer, by alarm and absolute tick; a callback not listed returns 0. */
  type Replies<!A(==)> = map<(A, nat), Reply<A>>

  function ReplyOf<A(==)>(replies: Replies<A>, a: A, tick: nat): Reply<A> {
    if (a, tick) in replies then replies[(a, tick)] else Reply(0, false, [])
  }

  /** What is left of one timer after the tick that makes the time `now`. */
  function Next<A(==)>(t: Timer<A>, now: nat, replies: Replies<A>): seq<Timer<A>> {
    if t.at.due != now then [t]
    else if ReplyOf(replies, t.alarm, now).Keeps() then
      [Timer(t.alarm, Rearmed(now, t.at.early, ReplyOf(replies, t.alarm, now).period))]
    else []
  }

  function Survivors<A(==)>(ts: seq<Timer<A>>, now: nat, replies: Replies<A>): seq<Timer<A>> {
    if ts == [] then [] else Survivors(ts[..|ts| - 1], now, replies) + Next(ts[|ts| - 1], now, replies)
  }

  /** New timers, the latest in front. */
  function Prepended<A>(starts: seq<(A, Word)>, now: nat): (ts: seq<Timer<A>>)
    ensures |ts| == |starts|
  {
    if starts == [] then []
    else
      var (a, n) := starts[|starts| - 1];
      [Timer(a, Started(now, n))] + Prepended(starts[..|starts| - 1], now)
  }

  /** The starts of one timer's callback, if it is made. */
  function StartsOf<A(==)>(t: Timer<A>, now: nat, replies: Replies<A>): seq<(A, Word)> {
    if t.at.due == now then ReplyOf(replies, t.alarm, now).starts else []
  }

  /** The timers started by the callbacks of one tick. */
  function Newcomers<A(==)>(ts: seq<Timer<A>>, now: nat, replies: Replies<A>): seq<Timer<A>> {
    if ts == [] then []
    else Prepended(StartsOf(ts[|ts| - 1], now, replies), now) + Newcomers(ts[..|ts| - 1], now, replies)
  }

  function FiredOne<A(==)>(t: Timer<A>, now: nat): seq<(A, nat)> {
    if t.at.due == now then [(t.alarm, now)] else []
  }

  function Fired<A(==)>(ts: seq<Timer<A>>, now: nat): seq<(A, nat)> {
    if ts == [] then []
    else Fired(ts[..|ts| - 1], now) + FiredOne(ts[|ts| - 1], now)
  }

  function Without<A(==)>(ts: seq<Timer<A>>, a: A): seq<Timer<A>> {
    if ts == [] then []
    else Without(ts[..|ts| - 1], a) + if ts[|ts| - 1].alarm == a then [] else [ts[|ts| - 1]]
  }

  function Step<A(==)>(c: Clock<A>, op: Op<A>, replies: Replies<A>): Clock<A> {
    match op
    case Start(a, n) => c.(timers := [Timer(a, Started(c.now, n))] + c.timers)
    case Stop(a) => c.(timers := Without(c.timers, a))
    case Tick =>
      var now := c.now + 1;
      Clock(now, Newcomers(c.timers, now, replies) + Survivors(c.timers, now, replies), c.log + Fired(c.timers, now))
  }

  function Run<A(==)>(c: Clock<A>, ops: seq<Op<A>>, replies: Replies<A>): Clock<A> {
    if ops == [] then c else Step(Run(c, ops[..|ops| - 1], replies), ops[|ops| - 1], replies)
  }

  /** The deadlines at which one alarm is registered. */
  function Dues<A(==)>(ts: seq<Timer<A>>, a: A): seq<Deadline> {
    if ts == [] then []
    else Dues(ts[..|ts| - 1], a) + if ts[|ts| - 1].alarm == a then [ts[|ts| - 1].at] else []
  }

  /** The ticks at which one alarm was called back. */
  function Firings<A(==)>(log: seq<(A, nat)>, a: A): seq<nat> {
    if log == [] then []
    else Firings(log[..|log| - 1], a) + if log[|log| - 1].0 == a then [log[|log| - 1].1] else []
  }

  // ---------------------------------------------------------------------------------------------
  // The schedule of one alarm, defined without reference to lists, words or other alarms.
  // ---------------------------------------------------------------------------------------------

  /** Every tick up to `end` at which an alarm with this first deadline is called back. */
  function Schedule<A(==)>(a: A, d: Deadline, end: nat, replies: Replies<A>): seq<nat>
    decreases end + 1 - d.due
  {
    if end < d.due then []
    else
      [d.due] + if ReplyOf(replies, a, d.due).Keeps()
                then Schedule(a, Rearmed(d.due, d.early, ReplyOf(replies, a, d.due).period), end, replies) else []
  }

  /** The deadline that remains after `end`, if any. */
  function Upcoming<A(==)>(a: A, d: Deadline, end: nat, replies: Replies<A>): (r: seq<Deadline>)
    ensures |r| <= 1
    decreases end + 1 - d.due
  {
    if end < d.due then [d]
    else if ReplyOf(replies, a, d.due).Keeps()
    then Upcoming(a, Rearmed(d.due, d.early, ReplyOf(replies, a, d.due).period), end, replies) else []
  }

  /** An alarm started with the inexact interval is early until a period other than 1, or the end of an epoch. */
  ghost predicate StillEarly<A>(a: A, ticks: seq<nat>, early: bool, i: nat, replies: Replies<A>)
    requires i <= |ticks|
  {
    early && forall j :: 0 <= j < i ==> ReplyOf(replies, a, ticks[j]).period == 1 && Wrap(ticks[j]) != 0xFFFF_FFFF
  }

  /** How many ticks after a callback that returned `period` the next one is due. */
  function Gap(early: bool, tick: nat, period: Word): int {
    if !early then period
    else if period > 1 then period - 1
    else if Wrap(tick) == 0xFFFF_FFFF then 0x1_0000_0000
    else 1
  }

  /**
   These are the ticks up to `end` of an alarm first due at `first`: the first one is `first`; a callback that
   returns 0, or stops its alarm, is the last; after any other the next one follows at the period it
   returned, and if it is not listed it lies beyond `end`.
   */
  ghost predicate Spaced<A>(a: A, ticks: seq<nat>, first: nat, early: bool, end: nat, replies: Replies<A>) {
    && (ticks == [] <==> end < first)
    && (ticks != [] ==> ticks[0] == first)
    && forall i :: 0 <= i < |ticks| ==>
         Succeeded(a, ticks, i, end, replies,
                   Gap(StillEarly(a, ticks, early, i, replies), ticks[i], ReplyOf(replies, a, ticks[i]).period))
  }

  /** What comes after the i-th tick, if the next callback is due `gap` ticks later. */
  ghost predicate Succeeded<A>(a: A, ticks: seq<nat>, i: nat, end: nat, replies: Replies<A>, gap: int)
    requires i < |ticks|
  {
    && ticks[i] <= end
    && if ReplyOf(replies, a, ticks[i]).period == 0 || ReplyOf(replies, a, ticks[i]).stopsItself then i == |ticks| - 1
       else if i < |ticks| - 1 then ticks[i + 1] == ticks[i] + gap
       else end < ticks[i] + gap
  }

  /** The same of an alarm started with any other interval. */
  ghost predicate Periodic<A>(a: A, ticks: seq<nat>, first: nat, end: nat, replies: Replies<A>) {
    && (ticks == [] <==> end < first)
    && (ticks != [] ==> ticks[0] == first)
    && forall i :: 0 <= i < |ticks| ==>
         && ticks[i] <= end
         && var r := ReplyOf(replies, a, ticks[i]);
            if r.period == 0 || r.stopsItself then i == |ticks| - 1
            else if i < |ticks| - 1 then ticks[i + 1] == ticks[i] + r.period
            else end < ticks[i] + r.period
  }

  /** Schedules are spaced by the periods that the callbacks return. */
  lemma {:induction false} ScheduleSpaced<A>(a: A, d: Deadline, end: nat, replies: Replies<A>)
    ensures Spaced(a, Schedule(a, d, end, replies), d.due, d.early, end, replies)
    decreases end + 1 - d.due
  {
    var ticks := Schedule(a, d, end, replies);
    if d.due <= end && ReplyOf(replies, a, d.due).Keeps() {
      var p := ReplyOf(replies, a, d.due).period;
      var e := Rearmed(d.due, d.early, p);
      ScheduleSpaced(a, e, end, replies);
      PrependSpaced(a, d.due, d.early, Schedule(a, e, end, replies), e.due, e.early, end, replies);
    }
  }

  /** One more tick in front. */
  lemma PrependSpaced<A>(a: A, first: nat, early: bool, rest: seq<nat>, second: nat, early': bool,
      end: nat, replies: Replies<A>)
    requires Spaced(a, rest, second, early', end, replies) && first <= end
    requires var r := ReplyOf(replies, a, first);
      && r.period != 0 && !r.stopsItself && second == first + Gap(early, first, r.period)
      && (early' <==> early && r.period == 1 && Wrap(first) != 0xFFFF_FFFF)
    ensures Spaced(a, [first] + rest, first, early, end, replies)
  {
    var ticks := [first] + rest;
    forall i | 0 < i < |ticks|
      ensures StillEarly(a, ticks, early, i, replies) <==> StillEarly(a, rest, early', i - 1, replies)
    {
      assert forall j :: 0 < j < |ticks| ==> ticks[j] == rest[j - 1];
      if StillEarly(a, ticks, early, i, replies) {
        assert ticks[0] == first && ReplyOf(replies, a, ticks[0]).period == 1;
        assert forall j :: 0 <= j < i - 1 ==> rest[j] == ticks[j + 1];
      }
    }
    assert StillEarly(a, ticks, early, 0, replies) == early;
    assert forall i :: 0 < i < |ticks| ==> ticks[i] == rest[i - 1];
  }

  lemma SpacedPeriodically<A>(a: A, ticks: seq<nat>, first: nat, end: nat, replies: Replies<A>)
    requires Spaced(a, ticks, first, false, end, replies)
    ensures Periodic(a, ticks, first, end, replies)
  {
    forall i | 0 <= i < |ticks|
      ensures Succeeded(a, ticks, i, end, replies, ReplyOf(replies, a, ticks[i]).period)
    {
      var gap := Gap(StillEarly(a, ticks, false, i, replies), ticks[i], ReplyOf(replies, a, ticks[i]).period);
      assert Succeeded(a, ticks, i, end, replies, gap);
    }
  }

  /** Whether the one deadline in `ds`, if any, is reached at tick `now`. */
  function Hit(ds: seq<Deadline>, now: nat): seq<nat> {
    if |ds| == 1 && ds[0].due == now then [now] else []
  }

  /** The deadline after tick `now`. */
  function Rearm<A(==)>(ds: seq<Deadline>, a: A, now: nat, replies: Replies<A>): seq<Deadline> {
    if Hit(ds, now) == [] then ds
    else if ReplyOf(replies, a, now).Keeps() then [Rearmed(now, ds[0].early, ReplyOf(replies, a, now).period)]
    else []
  }

  lemma {:induction false} ScheduleExtends<A>(a: A, d: Deadline, end: nat, replies: Replies<A>)
    ensures Schedule(a, d, end + 1, replies)
            == Schedule(a, d, end, replies) + Hit(Upcoming(a, d, end, replies), end + 1)
    ensures Upcoming(a, d, end + 1, replies) == Rearm(Upcoming(a, d, end, replies), a, end + 1, replies)
    ensures Upcoming(a, d, end, replies) != [] ==> end < Upcoming(a, d, end, replies)[0].due
    decreases end + 1 - d.due
  {
    if d.due <= end && ReplyOf(replies, a, d.due).Keeps() {
      ScheduleExtends(a, Rearmed(d.due, d.early, ReplyOf(replies, a, d.due).period), end, replies);
    }
  }

  lemma {:induction false} DuesAppend<A>(xs: seq<Timer<A>>, ys: seq<Timer<A>>, a: A)
    ensures Dues(xs + ys, a) == Dues(xs, a) + Dues(ys, a)
  {
    if ys == [] {
      assert xs + ys == xs;
    } else {
      assert (xs + ys)[..|xs + ys| - 1] == xs + ys[..|ys| - 1];
      DuesAppend(xs, ys[..|ys| - 1], a);
    }
  }

  lemma {:induction false} FiringsAppend<A>(xs: seq<(A, nat)>, ys: seq<(A, nat)>, a: A)
    ensures Firings(xs + ys, a) == Firings(xs, a) + Firings(ys, a)
  {
    if ys == [] {
      assert xs + ys == xs;
    } else {
      assert (xs + ys)[..|xs + ys| - 1] == xs + ys[..|ys| - 1];
      FiringsAppend(xs, ys[..|ys| - 1], a);
    }
  }

  lemma Singletons<A>(t: Timer<A>, n: nat, a: A)
    ensures Dues([t], a) == if t.alarm == a then [t.at] else []
    ensures Firings([(t.alarm, n)], a) == if t.alarm == a then [n] else []
  {
    assert [t][..0] == [] && [(t.alarm, n)][..0] == [];
  }

  /** One tick, seen by one alarm that is registered at most once. */
  lemma {:induction false} SweepOne<A>(ts: seq<Timer<A>>, a: A, now: nat, replies: Replies<A>)
    requires |Dues(ts, a)| <= 1
    ensures Firings(Fired(ts, now), a) == Hit(Dues(ts, a), now)
    ensures Dues(Survivors(ts, now, replies), a) == Rearm(Dues(ts, a), a, now, replies)
  {
    if ts != [] {
      var init, last := ts[..|ts| - 1], ts[|ts| - 1];
      SweepOne(init, a, now, replies);
      NextOne(last, a, now, replies);
      DuesAppend(Survivors(init, now, replies), Next(last, now, replies), a);
      FiringsAppend(Fired(init, now), FiredOne(last, now), a);
      if last.alarm == a {
        assert Dues(ts, a) == Dues(init, a) + [last.at];
        assert Dues(init, a) == [] && Dues(ts, a) == [last.at];
      } else {
        assert Dues(ts, a) == Dues(init, a);
      }
    }
  }

  lemma NextOne<A>(t: Timer<A>, a: A, now: nat, replies: Replies<A>)
    ensures Firings(FiredOne(t, now), a) == if t.alarm == a then Hit([t.at], now) else []
    ensures Dues(Next(t, now, replies), a) == if t.alarm == a then Rearm([t.at], a, now, replies) else []
  {
    Singletons(t, now, a);
    Singletons(Timer(t.alarm, Rearmed(now, t.at.early, ReplyOf(replies, t.alarm, now).period)), now, a);
  }

  lemma {:induction false} WithoutOthers<A>(ts: seq<Timer<A>>, b: A, a: A)
    ensures Dues(Without(ts, b), a) == if a == b then [] else Dues(ts, a)
  {
    if ts != [] {
      var init, last := ts[..|ts| - 1], ts[|ts| - 1];
      WithoutOthers(init, b, a);
      DuesAppend(Without(init, b), if last.alarm == b then [] else [last], a);
      Singletons(last, 0, a);
    }
  }

  lemma Associative<T>(xs: seq<T>, ys: seq<T>, zs: seq<T>)
    ensures xs + ys + zs == xs + (ys + zs)
  {
  }

  // ---------------------------------------------------------------------------------------------
  // One alarm over a whole run.
  // ---------------------------------------------------------------------------------------------

  /** A stretch of time in which an alarm was registered: its first deadline, and the tick that ended it. */
  datatype Stretch = Stretch(first: Deadline, end: nat)

  /** The stretches that are over, and the first deadline of the present one, if there is one. */
  datatype History = History(past: seq<Stretch>, present: seq<Deadline>)

  /** The present stretch ends at tick `end`, and another one may begin. */
  function Turn(h: History, end: nat, ds: seq<Deadline>): History {
    History(if h.present == [] then h.past else h.past + [Stretch(h.present[0], end)], ds)
  }

  /** A stretch begins with a start, the client's or one made by a callback, and ends with a stop or the next start. */
  function Recorded<A(==)>(h: History, m: Clock<A>, op: Op<A>, a: A, replies: Replies<A>): History {
    match op
    case Start(b, n) => if b == a then Turn(h, m.now, [Started(m.now, n)]) else h
    case Stop(b) => if b == a then Turn(h, m.now, []) else h
    case Tick =>
      var begun := Dues(Newcomers(m.timers, m.now + 1, replies), a);
      if begun == [] then h else Turn(h, m.now + 1, begun)
  }

  /** The stretches of an alarm over a run. */
  function HistoryOf<A(==)>(c: Clock<A>, ops: seq<Op<A>>, a: A, replies: Replies<A>): History {
    if ops == [] then History([], Dues(c.timers, a))
    else
      var init := ops[..|ops| - 1];
      Recorded(HistoryOf(c, init, a, replies), Run(c, init, replies), ops[|ops| - 1], a, replies)
  }

  /** The schedules of the stretches that are over, each cut off at its end. */
  function PastTicks<A(==)>(a: A, past: seq<Stretch>, replies: Replies<A>): seq<nat> {
    if past == [] then []
    else
      var s := past[|past| - 1];
      PastTicks(a, past[..|past| - 1], replies) + Schedule(a, s.first, s.end, replies)
  }

  /** Every tick up to `now` at which an alarm with this history is called back. */
  function ScheduledTicks<A(==)>(a: A, h: History, now: nat, replies: Replies<A>): seq<nat> {
    PastTicks(a, h.past, replies) + if h.present == [] then [] else Schedule(a, h.present[0], now, replies)
  }

  /** The deadline that a history leaves at `now`. */
  function Remaining<A(==)>(a: A, h: History, now: nat, replies: Replies<A>): seq<Deadline> {
    if h.present == [] then [] else Upcoming(a, h.present[0], now, replies)
  }

  lemma TurnTicks<A>(a: A, h: History, now: nat, ds: seq<Deadline>, replies: Replies<A>)
    requires ds == [] || now < ds[0].due
    ensures ScheduledTicks(a, Turn(h, now, ds), now, replies) == ScheduledTicks(a, h, now, replies)
    ensures |ds| <= 1 ==> Remaining(a, Turn(h, now, ds), now, replies) == ds
  {
    if h.present != [] {
      var s := Stretch(h.present[0], now);
      assert (h.past + [s])[..|h.past|] == h.past;
    }
  }

  /** In every stretch the callbacks are spaced by the periods they return. */
  ghost predicate AllSpaced<A>(a: A, h: History, now: nat, replies: Replies<A>) {
    && (forall i :: 0 <= i < |h.past| ==>
          var s := h.past[i];
          Spaced(a, Schedule(a, s.first, s.end, replies), s.first.due, s.first.early, s.end, replies))
    && (h.present != [] ==>
          var d := h.present[0];
          Spaced(a, Schedule(a, d, now, replies), d.due, d.early, now, replies))
  }

  lemma HistorySpaced<A>(a: A, h: History, now: nat, replies: Replies<A>)
    ensures AllSpaced(a, h, now, replies)
  {
    hide Spaced, Schedule;
    forall i | 0 <= i < |h.past|
      ensures var s := h.past[i];
        Spaced(a, Schedule(a, s.first, s.end, replies), s.first.due, s.first.early, s.end, replies)
    {
      ScheduleSpaced(a, h.past[i].first, h.past[i].end, replies);
    }
    if h.present != [] {
      ScheduleSpaced(a, h.present[0], now, replies);
    }
  }

  /** The callbacks made are those scheduled, and the alarm is registered for what remains. */
  ghost predicate Follows<A>(m: Clock<A>, before: seq<nat>, a: A, h: History, replies: Replies<A>) {
    && Firings(m.log, a) == before + ScheduledTicks(a, h, m.now, replies)
    && Dues(m.timers, a) == Remaining(a, h, m.now, replies)
  }

  /** No run of the service registers an alarm twice. */
  ghost predicate RegisteredOnce<A>(c: Clock<A>, ops: seq<Op<A>>, a: A, replies: Replies<A>) {
    forall i :: 0 <= i <= |ops| ==> |Dues(Run(c, ops[..i], replies).timers, a)| <= 1
  }

  /** New deadlines are ahead. */
  lemma {:induction false} PrependedAhead<A>(starts: seq<(A, Word)>, now: nat, a: A)
    ensures forall d :: d in Dues(Prepended(starts, now), a) ==> now < d.due
  {
    if starts != [] {
      var (b, n) := starts[|starts| - 1];
      PrependedAhead(starts[..|starts| - 1], now, a);
      DuesAppend([Timer(b, Started(now, n))], Prepended(starts[..|starts| - 1], now), a);
      Singletons(Timer(b, Started(now, n)), 0, a);
    }
  }

  lemma {:induction false} NewcomersAhead<A>(ts: seq<Timer<A>>, now: nat, replies: Replies<A>, a: A)
    ensures forall d :: d in Dues(Newcomers(ts, now, replies), a) ==> now < d.due
  {
    if ts != [] {
      NewcomersAhead(ts[..|ts| - 1], now, replies, a);
      PrependedAhead(StartsOf(ts[|ts| - 1], now, replies), now, a);
      DuesAppend(Prepended(StartsOf(ts[|ts| - 1], now, replies), now), Newcomers(ts[..|ts| - 1], now, replies), a);
    }
  }

  /** One more tick of the same history. */
  lemma HistoryTick<A>(a: A, h: History, now: nat, ds: seq<Deadline>, replies: Replies<A>)
    requires ds == Remaining(a, h, now, replies)
    ensures ScheduledTicks(a, h, now + 1, replies) == ScheduledTicks(a, h, now, replies) + Hit(ds, now + 1)
    ensures Remaining(a, h, now + 1, replies) == Rearm(ds, a, now + 1, replies) && |ds| <= 1
  {
    hide Upcoming, Schedule, PastTicks;
    if h.present != [] {
      ScheduleExtends(a, h.present[0], now, replies);
      Associative(PastTicks(a, h.past, replies), Schedule(a, h.present[0], now, replies), Hit(ds, now + 1));
    }
  }

  /** What a tick does to one alarm: newcomers in front of survivors. */
  lemma TickDues<A>(m: Clock<A>, a: A, replies: Replies<A>)
    ensures var now, r := m.now + 1, Step(m, Tick, replies);
      && Dues(r.timers, a) == Dues(Newcomers(m.timers, now, replies), a) + Dues(Survivors(m.timers, now, replies), a)
      && Firings(r.log, a) == Firings(m.log, a) + Firings(Fired(m.timers, now), a)
  {
    hide Newcomers, Survivors, Fired, Dues, Firings;
    FiringsAppend(m.log, Fired(m.timers, m.now + 1), a);
    DuesAppend(Newcomers(m.timers, m.now + 1, replies), Survivors(m.timers, m.now + 1, replies), a);
  }

  lemma TickFollows<A>(m: Clock<A>, before: seq<nat>, a: A, h: History, replies: Replies<A>)
    requires Follows(m, before, a, h, replies)
    requires |Dues(Step(m, Tick, replies).timers, a)| <= 1
    ensures Follows(Step(m, Tick, replies), before, a, Recorded(h, m, Tick, a, replies), replies)
  {
    hide Newcomers, Survivors, Fired, Dues, Firings, ScheduledTicks, Remaining, Turn, Hit, Rearm;
    var now, begun := m.now + 1, Dues(Newcomers(m.timers, m.now + 1, replies), a);
    HistoryTick(a, h, m.now, Dues(m.timers, a), replies);
    SweepOne(m.timers, a, now, replies);
    TickDues(m, a, replies);
    NewcomersAhead(m.timers, now, replies, a);
    Associative(before, ScheduledTicks(a, h, m.now, replies), Firings(Fired(m.timers, now), a));
    TickKeeps(a, h, now, begun, Dues(Survivors(m.timers, now, replies), a), replies);
  }

  /** The deadlines after a tick: what remains, or else the new one. */
  lemma TickKeeps<A>(a: A, h: History, now: nat, begun: seq<Deadline>, left: seq<Deadline>, replies: Replies<A>)
    requires left == Remaining(a, h, now, replies) && |begun + left| <= 1
    requires forall d :: d in begun ==> now < d.due
    ensures var g := if begun == [] then h else Turn(h, now, begun);
      begun + left == Remaining(a, g, now, replies)
          && ScheduledTicks(a, g, now, replies) == ScheduledTicks(a, h, now, replies)
  {
    hide ScheduledTicks, Remaining, Turn;
    if begun == [] {
      assert begun + left == left;
    } else {
      assert begun[0] in begun && left == [] && begun + left == begun;
      TurnTicks(a, h, now, begun, replies);
    }
  }

  lemma OthersFollow<A>(m: Clock<A>, before: seq<nat>, a: A, h: History, op: Op<A>, replies: Replies<A>)
    requires Follows(m, before, a, h, replies) && !op.Tick?
    requires |Dues(Step(m, op, replies).timers, a)| <= 1
    ensures Follows(Step(m, op, replies), before, a, Recorded(h, m, op, a, replies), replies)
  {
    match op {
      case Start(b, n) =>
        DuesAppend([Timer(b, Started(m.now, n))], m.timers, a);
        Singletons(Timer(b, Started(m.now, n)), 0, a);
        hide ScheduledTicks, Remaining, Turn, Dues;
        TurnTicks(a, h, m.now, [Started(m.now, n)], replies);
      case Stop(b) =>
        WithoutOthers(m.timers, b, a);
        hide ScheduledTicks, Remaining, Turn;
        TurnTicks(a, h, m.now, [], replies);
    }
  }

  lemma StepFollows<A>(m: Clock<A>, before: seq<nat>, a: A, h: History, op: Op<A>, replies: Replies<A>)
    requires Follows(m, before, a, h, replies)
    requires |Dues(Step(m, op, replies).timers, a)| <= 1
    ensures Follows(Step(m, op, replies), before, a, Recorded(h, m, op, a, replies), replies)
  {
    if op.Tick? {
      TickFollows(m, before, a, h, replies);
    } else {
      OthersFollow(m, before, a, h, op, replies);
    }
  }

  /** A run that is safe is safe up to its last operation, and after it. */
  lemma OnceBefore<A>(c: Clock<A>, ops: seq<Op<A>>, a: A, replies: Replies<A>)
    requires RegisteredOnce(c, ops, a, replies) && ops != []
    ensures RegisteredOnce(c, ops[..|ops| - 1], a, replies)
    ensures |Dues(Run(c, ops, replies).timers, a)| <= 1
  {
    hide Run, Dues;
    var init := ops[..|ops| - 1];
    assert forall i :: 0 <= i <= |init| ==> init[..i] == ops[..i];
    assert ops[..|ops|] == ops;
  }

  /**
   Over any run of starts, stops and ticks in which it is never registered twice, an alarm is called back at
   exactly the ticks of the schedules of its stretches, each cut off where the stretch ended, and it is
   registered for exactly what remains.
   */
  lemma {:induction false} RunFollowsHistory<A>(c: Clock<A>, ops: seq<Op<A>>, a: A, replies: Replies<A>)
    requires RegisteredOnce(c, ops, a, replies)
    requires forall d :: d in Dues(c.timers, a) ==> c.now < d.due
    ensures Follows(Run(c, ops, replies), Firings(c.log, a), a, HistoryOf(c, ops, a, replies), replies)
  {
    if ops == [] {
      assert ops[..0] == ops;
      StartFollows(c, a, replies);
    } else {
      var init := ops[..|ops| - 1];
      OnceBefore(c, ops, a, replies);
      RunFollowsHistory(c, init, a, replies);
      hide Follows, Dues, Step, Recorded, RegisteredOnce;
      StepFollows(Run(c, init, replies), Firings(c.log, a), a, HistoryOf(c, init, a, replies), ops[|ops| - 1], replies);
    }
  }

  lemma StartFollows<A>(c: Clock<A>, a: A, replies: Replies<A>)
    requires |Dues(c.timers, a)| <= 1 && forall d :: d in Dues(c.timers, a) ==> c.now < d.due
    ensures Follows(c, Firings(c.log, a), a, History([], Dues(c.timers, a)), replies)
  {
    var ds := Dues(c.timers, a);
    if ds != [] {
      assert ds[0] in ds;
    }
  }

  /** An alarm that a callback starts, with any interval but one, is due that many ticks and one after the callback. */
  lemma {:induction false} NewcomerRegistered<A>(ts: seq<Timer<A>>, now: nat, replies: Replies<A>, k: nat, j: nat)
    requires k < |ts| && ts[k].at.due == now && j < |ReplyOf(replies, ts[k].alarm, now).starts|
    ensures var (b, n) := ReplyOf(replies, ts[k].alarm, now).starts[j];
      n != 0xFFFF_FFFF ==> Timer(b, Deadline(now + n + 1, false)) in Newcomers(ts, now, replies)
  {
    if k == |ts| - 1 {
      StartPrepended(ReplyOf(replies, ts[k].alarm, now).starts, now, j);
    } else {
      NewcomerRegistered(ts[..|ts| - 1], now, replies, k, j);
    }
  }

  lemma {:induction false} StartPrepended<A>(starts: seq<(A, Word)>, now: nat, j: nat)
    requires j < |starts|
    ensures Timer(starts[j].0, Started(now, starts[j].1)) in Prepended(starts, now)
  {
    if j < |starts| - 1 {
      StartPrepended(starts[..|starts| - 1], now, j);
    }
  }

  /** Nobody starts the alarm: no operation, and no callback. */
  ghost predicate NobodyStarts<A>(ops: seq<Op<A>>, a: A, replies: Replies<A>) {
    && (forall i :: 0 <= i < |ops| && ops[i].Start? ==> ops[i].alarm != a)
    && (forall k :: k in replies ==> forall j :: 0 <= j < |replies[k].starts| ==> replies[k].starts[j].0 != a)
  }

  lemma {:induction false} NotPrepended<A>(starts: seq<(A, Word)>, now: nat, a: A)
    requires forall j :: 0 <= j < |starts| ==> starts[j].0 != a
    ensures Dues(Prepended(starts, now), a) == []
  {
    if starts != [] {
      var (b, n) := starts[|starts| - 1];
      NotPrepended(starts[..|starts| - 1], now, a);
      DuesAppend([Timer(b, Started(now, n))], Prepended(starts[..|starts| - 1], now), a);
      Singletons(Timer(b, Started(now, n)), 0, a);
    }
  }

  lemma {:induction false} NoNewcomer<A>(ts: seq<Timer<A>>, now: nat, replies: Replies<A>, a: A)
    requires NobodyStarts([], a, replies)
    ensures Dues(Newcomers(ts, now, replies), a) == []
  {
    if ts != [] {
      var init, last := ts[..|ts| - 1], ts[|ts| - 1];
      NoNewcomer(init, now, replies, a);
      NotPrepended(StartsOf(last, now, replies), now, a);
      DuesAppend(Prepended(StartsOf(last, now, replies), now), Newcomers(init, now, replies), a);
    }
  }

  lemma OnceKept<A>(m: Clock<A>, op: Op<A>, a: A, replies: Replies<A>)
    requires NobodyStarts([op], a, replies) && |Dues(m.timers, a)| <= 1
    ensures |Dues(Step(m, op, replies).timers, a)| <= 1
  {
    match op {
      case Start(b, n) =>
        assert [op][0].alarm != a;
        DuesAppend([Timer(b, Started(m.now, n))], m.timers, a);
        Singletons(Timer(b, Started(m.now, n)), 0, a);
      case Stop(b) => WithoutOthers(m.timers, b, a);
      case Tick =>
        NoNewcomer(m.timers, m.now + 1, replies, a);
        SweepOne(m.timers, a, m.now + 1, replies);
        TickDues(m, a, replies);
    }
  }

  /** Nothing but a stop changes the history of an alarm that nobody starts. */
  lemma RecordedWithoutStart<A>(h: History, m: Clock<A>, op: Op<A>, a: A, replies: Replies<A>)
    requires NobodyStarts([op], a, replies)
    ensures Recorded(h, m, op, a, replies) == if op == Op.Stop(a) then Turn(h, m.now, []) else h
  {
    assert [op][0] == op;
    if op.Tick? {
      NoNewcomer(m.timers, m.now + 1, replies, a);
    }
  }

  /** An alarm that nobody starts stays registered at most once, and has at most the one stretch it began with. */
  lemma {:induction false} WithoutStarts<A>(c: Clock<A>, ops: seq<Op<A>>, a: A, replies: Replies<A>)
    requires NobodyStarts(ops, a, replies) && |Dues(c.timers, a)| <= 1
    ensures RegisteredOnce(c, ops, a, replies)
    ensures Dues(c.timers, a) == [] || Op.Stop(a) !in ops
            ==> HistoryOf(c, ops, a, replies) == History([], Dues(c.timers, a))
  {
    if ops == [] {
      assert forall i :: 0 <= i <= 0 ==> ops[..i] == [];
    } else {
      var init, op := ops[..|ops| - 1], ops[|ops| - 1];
      WithoutStarts(c, init, a, replies);
      var m, h := Run(c, init, replies), HistoryOf(c, init, a, replies);
      assert NobodyStarts([op], a, replies);
      RecordedWithoutStart(h, m, op, a, replies);
      hide Dues, Step, Recorded, NobodyStarts;
      assert init[..|init|] == init && |Dues(Run(c, init[..|init|], replies).timers, a)| <= 1;
      OnceKept(m, op, a, replies);
      OnceAfter(c, ops, a, replies);
    }
  }

  lemma OnceAfter<A>(c: Clock<A>, ops: seq<Op<A>>, a: A, replies: Replies<A>)
    requires ops != [] && RegisteredOnce(c, ops[..|ops| - 1], a, replies) && |Dues(Run(c, ops, replies).timers, a)| <= 1
    ensures RegisteredOnce(c, ops, a, replies)
  {
    hide Run, Dues;
    var init := ops[..|ops| - 1];
    forall i | 0 <= i <= |ops|
      ensures |Dues(Run(c, ops[..i], replies).timers, a)| <= 1
    {
      if i < |ops| {
        assert init[..i] == ops[..i] && |Dues(Run(c, init[..i], replies).timers, a)| <= 1;
      } else {
        assert ops[..i] == ops;
      }
    }
  }

  /** An alarm that is not registered, and that nobody starts, is never called back. */
  lemma SilentRun<A>(c: Clock<A>, ops: seq<Op<A>>, a: A, replies: Replies<A>)
    requires Dues(c.timers, a) == [] && NobodyStarts(ops, a, replies)
    ensures Firings(Run(c, ops, replies).log, a) == Firings(c.log, a) && Dues(Run(c, ops, replies).timers, a) == []
  {
    WithoutStarts(c, ops, a, replies);
    RunFollowsHistory(c, ops, a, replies);
    assert Firings(c.log, a) + ([] + []) == Firings(c.log, a);
  }

  /**
   An alarm started at absolute tick T with interval n fires at exactly T + n + 1, then exactly p ticks after
   each firing that returned p, and never otherwise. With the inexact interval it fires at T + 1 first.
   */
  lemma StartedAlarmIsExact<A>(c: Clock<A>, a: A, nticks: Word, ops: seq<Op<A>>, replies: Replies<A>)
    returns (ticks: seq<nat>)
    requires Dues(c.timers, a) == [] && NobodyStarts(ops, a, replies) && Op.Stop(a) !in ops
    ensures ticks == Schedule(a, Started(c.now, nticks), Run(c, [Start(a, nticks)] + ops, replies).now, replies)
    ensures Firings(Run(c, [Start(a, nticks)] + ops, replies).log, a) == Firings(c.log, a) + ticks
    ensures var now := Run(c, [Start(a, nticks)] + ops, replies).now;
      if ExactInterval(c.now, nticks) then Periodic(a, ticks, c.now + nticks + 1, now, replies)
      else Spaced(a, ticks, c.now + 1, true, now, replies)
  {
    hide Dues, Run, Firings, Schedule, Step, ScheduledTicks, HistoryOf, NobodyStarts, RegisteredOnce, Spaced, Periodic;
    var s, d := Step(c, Start(a, nticks), replies), Started(c.now, nticks);
    StartRegisters(c, a, nticks, replies);
    RunOne(c, Start(a, nticks), replies);
    RunAppend(c, [Start(a, nticks)], ops, replies);
    WithoutStarts(s, ops, a, replies);
    RunFollowsHistory(s, ops, a, replies);
    var now := Run(s, ops, replies).now;
    OneStretch(a, d, now, replies);
    ticks := Schedule(a, d, now, replies);
    ScheduleSpaced(a, d, now, replies);
    if ExactInterval(c.now, nticks) {
      SpacedPeriodically(a, ticks, c.now + nticks + 1, now, replies);
    }
  }

  /** And once it is stopped it is not called back again. */
  lemma StoppedAlarmIsSilent<A>(c: Clock<A>, a: A, nticks: Word, ops: seq<Op<A>>, later: seq<Op<A>>,
      replies: Replies<A>)
    requires Dues(c.timers, a) == [] && NobodyStarts(ops, a, replies) && NobodyStarts(later, a, replies)
        && Op.Stop(a) !in ops
    ensures var stopped := Run(c, [Start(a, nticks)] + ops, replies).now;
      Firings(Run(c, [Start(a, nticks)] + ops + [Op.Stop(a)] + later, replies).log, a)
      == Firings(c.log, a) + Schedule(a, Started(c.now, nticks), stopped, replies)
  {
    var m := Run(c, [Start(a, nticks)] + ops, replies);
    WithoutOthers(m.timers, a, a);
    var s := Step(m, Op.Stop(a), replies);
    assert s.log == m.log && Dues(s.timers, a) == [];
    hide Dues, Run, Firings, Schedule, Step, NobodyStarts;
    var ticks := StartedAlarmIsExact(c, a, nticks, ops, replies);
    RunAppend(c, [Start(a, nticks)] + ops, [Op.Stop(a)], replies);
    RunOne(m, Op.Stop(a), replies);
    RunAppend(c, [Start(a, nticks)] + ops + [Op.Stop(a)], later, replies);
    SilentRun(s, later, a, replies);
  }

  lemma StartRegisters<A>(c: Clock<A>, a: A, nticks: Word, replies: Replies<A>)
    requires Dues(c.timers, a) == []
    ensures var s := Step(c, Start(a, nticks), replies);
      Dues(s.timers, a) == [Started(c.now, nticks)] && s.now == c.now && s.log == c.log
  {
    DuesAppend([Timer(a, Started(c.now, nticks))], c.timers, a);
    Singletons(Timer(a, Started(c.now, nticks)), 0, a);
  }

  lemma OneStretch<A>(a: A, d: Deadline, now: nat, replies: Replies<A>)
    ensures ScheduledTicks(a, History([], [d]), now, replies) == Schedule(a, d, now, replies)
  {
    assert [] + Schedule(a, d, now, replies) == Schedule(a, d, now, replies);
  }

  lemma {:induction false} RunAppend<A>(c: Clock<A>, xs: seq<Op<A>>, ys: seq<Op<A>>, replies: Replies<A>)
    ensures Run(c, xs + ys, replies) == Run(Run(c, xs, replies), ys, replies)
  {
    if ys == [] {
      assert xs + ys == xs;
    } else {
      assert (xs + ys)[..|xs + ys| - 1] == xs + ys[..|ys| - 1];
      RunAppend(c, xs, ys[..|ys| - 1], replies);
    }
  }

  lemma RunOne<A>(c: Clock<A>, op: Op<A>, replies: Replies<A>)
    ensures Run(c, [op], replies) == Step(c, op, replies)
  {
    assert [op][..0] == [] && Run(c, [], replies) == c;
  }
}
