/** The intrusive alarm list (alt_llist.h) and the tick service built on it (alt_alarm_start.c, alt_tick.c). */
module AlarmService {
  import opened Words
  import opened AlarmArithmetic
  import opened AlarmSpec

  /** An alt_alarm; the list head is used for its links only. */
  class Alarm {
    var next: Alarm
    var previous: Alarm
    var time: Word
    var rollover: bool

    constructor ()
      ensures next == this && previous == this
    {
      next, previous, time, rollover := this, this, 0, false;
    }
  }

  /** The nodes of `ring`, in this order, form one circular doubly linked list. */
  ghost predicate IsRing(ring: seq<Alarm>)
    reads ring`next, ring`previous
  {
    && |ring| > 0
    && (forall i, j :: 0 <= i < j < |ring| ==> ring[i] != ring[j])
    && (forall i :: 0 <= i < |ring| - 1 ==> ring[i].next == ring[i + 1])
    && (forall i :: 0 < i < |ring| ==> ring[i].previous == ring[i - 1])
    && ring[|ring| - 1].next == ring[0]
    && ring[0].previous == ring[|ring| - 1]
  }

  /** alt_llist_insert: `entry` becomes the first entry after the head. */
  method Insert(list: Alarm, entry: Alarm, ghost ring: seq<Alarm>)
    requires IsRing(ring) && ring[0] == list && entry !in ring
    modifies list`next, list.next`previous, entry`next, entry`previous
    ensures IsRing([list, entry] + ring[1..])
  {
    assert list.next == if |ring| == 1 then ring[0] else ring[1];
    entry.previous := list;
    entry.next := list.next;
    list.next.previous := entry;
    list.next := entry;
    ghost var longer := [list, entry] + ring[1..];
    assert forall i :: 2 <= i < |longer| ==> longer[i] == ring[i - 1];
  }

  ghost predicate Unlinked(entry: Alarm)
    reads entry`next, entry`previous
  {
    entry.next == entry && entry.previous == entry
  }

  /** alt_llist_remove: the entry leaves its ring, and a second removal changes nothing. */
  method Remove(entry: Alarm, ghost ring: seq<Alarm>, ghost k: nat)
    requires Unlinked(entry) || (IsRing(ring) && 0 < k < |ring| && ring[k] == entry)
    modifies entry`next, entry`previous, entry.next`previous, entry.previous`next
    ensures Unlinked(entry)
    ensures old(Unlinked(entry)) ==> unchanged(entry)
    ensures old(Unlinked(entry) && IsRing(ring) && entry !in ring) ==> IsRing(ring)
    ensures !old(Unlinked(entry)) ==> IsRing(ring[..k] + ring[k + 1..])
  {
    assert !Unlinked(entry) ==> entry.previous == ring[k - 1];
    assert !Unlinked(entry) ==> entry.next == if k + 1 < |ring| then ring[k + 1] else ring[0];
    entry.next.previous := entry.previous;
    entry.previous.next := entry.next;
    entry.previous := entry;
    entry.next := entry;
    if !old(Unlinked(entry)) {
      ghost var shorter := ring[..k] + ring[k + 1..];
      assert forall i :: 0 <= i < |shorter| ==> shorter[i] == if i < k then ring[i] else ring[i + 1];
    }
  }

  /** The alarms listed after the head, in order, are those of `ts`, and their fields represent the deadlines. */
  ghost predicate Tracked(ring: seq<Alarm>, ts: seq<Timer<Alarm>>, now: nat)
    reads ring`time, ring`rollover
  {
    && |ring| == |ts| + 1
    && forall i :: 0 <= i < |ts| ==>
         ts[i].alarm == ring[i + 1] && Represents(ts[i].at, now, ring[i + 1].time, ring[i + 1].rollover)
  }

  lemma TrackedInsert(ring: seq<Alarm>, ts: seq<Timer<Alarm>>, a: Alarm, at: Deadline, now: nat)
    requires Tracked(ring, ts, now) && Represents(at, now, a.time, a.rollover)
    ensures Tracked([ring[0], a] + ring[1..], [Timer(a, at)] + ts, now)
  {
    assert forall i :: 2 <= i < |ring| + 1 ==> ([ring[0], a] + ring[1..])[i] == ring[i - 1];
  }

  lemma {:induction false} WithoutStranger(ts: seq<Timer<Alarm>>, a: Alarm)
    requires forall i :: 0 <= i < |ts| ==> ts[i].alarm != a
    ensures Without(ts, a) == ts
  {
    if ts != [] {
      WithoutStranger(ts[..|ts| - 1], a);
    }
  }

  lemma {:induction false} WithoutMember(ts: seq<Timer<Alarm>>, k: nat)
    requires k < |ts| && forall i :: 0 <= i < |ts| && i != k ==> ts[i].alarm != ts[k].alarm
    ensures Without(ts, ts[k].alarm) == ts[..k] + ts[k + 1..]
  {
    var init := ts[..|ts| - 1];
    if k == |ts| - 1 {
      WithoutStranger(init, ts[k].alarm);
    } else {
      WithoutMember(init, k);
      assert ts[..k] + ts[k + 1..] == (init[..k] + init[k + 1..]) + [ts[|ts| - 1]];
    }
  }

  lemma TrackedRemove(ring: seq<Alarm>, ts: seq<Timer<Alarm>>, k: nat, now: nat)
    requires IsRing(ring) && Tracked(ring, ts, now) && 0 < k < |ring|
    ensures Tracked(ring[..k] + ring[k + 1..], Without(ts, ring[k]), now)
    ensures !Unlinked(ring[k]) && ring[k] !in ring[..k] + ring[k + 1..]
  {
    assert ring[k].previous == ring[k - 1];
    RemainingTracked(ring, ts, k, now);
  }

  lemma RemainingTracked(ring: seq<Alarm>, ts: seq<Timer<Alarm>>, k: nat, now: nat)
    requires Tracked(ring, ts, now) && 0 < k < |ring|
    requires forall i :: 0 <= i < |ring| && i != k ==> ring[i] != ring[k]
    ensures Tracked(ring[..k] + ring[k + 1..], Without(ts, ring[k]), now)
  {
    hide Represents, Without;
    assert ts[k - 1].alarm == ring[k];
    assert forall i :: 0 <= i < |ts| && i != k - 1 ==> ts[i].alarm == ring[i + 1];
    WithoutMember(ts, k - 1);
    var r, rest := ring[..k] + ring[k + 1..], ts[..k - 1] + ts[k..];
    assert forall i :: 0 <= i < |rest| ==> rest[i] == ts[if i < k - 1 then i else i + 1];
    assert forall i :: 0 < i < |r| ==> r[i] == ring[if i < k then i else i + 1];
  }

  /** The abstract effect of stopping an alarm, registered or not. */
  lemma Drop(ring: seq<Alarm>, ts: seq<Timer<Alarm>>, a: Alarm, now: nat) returns (k: nat, r: seq<Alarm>)
    requires IsRing(ring) && Tracked(ring, ts, now) && a != ring[0]
    requires a in ring || Unlinked(a)
    ensures Tracked(r, Without(ts, a), now) && a !in r && |r| > 0 && r[0] == ring[0]
    ensures if Unlinked(a) then r == ring else 0 < k < |ring| && ring[k] == a && r == ring[..k] + ring[k + 1..]
    ensures forall b :: b in r <==> b in ring && b != a
  {
    if a in ring {
      k :| 0 <= k < |ring| && ring[k] == a;
      TrackedRemove(ring, ts, k, now);
      r := ring[..k] + ring[k + 1..];
    } else {
      WithoutStranger(ts, a);
      k, r := 0, ring;
    }
  }

  /** The same for a stretch of the list. */
  ghost predicate Listed(es: seq<Alarm>, ts: seq<Timer<Alarm>>, now: nat)
    reads es`time, es`rollover
  {
    && |es| == |ts|
    && forall i :: 0 <= i < |ts| ==> ts[i].alarm == es[i] && Represents(ts[i].at, now, es[i].time, es[i].rollover)
  }

  lemma TrackedIsListed(ring: seq<Alarm>, ts: seq<Timer<Alarm>>, now: nat)
    requires |ring| > 0
    ensures Tracked(ring, ts, now) <==> Listed(ring[1..], ts, now)
  {
    assert forall i :: 0 <= i < |ring| - 1 ==> ring[1..][i] == ring[i + 1];
  }

  lemma ListedSplit(es: seq<Alarm>, ts: seq<Timer<Alarm>>, now: nat)
    requires Listed(es, ts, now) && |es| > 0
    ensures Listed(es[1..], ts[1..], now)
    ensures ts[0].alarm == es[0] && Represents(ts[0].at, now, es[0].time, es[0].rollover)
  {
  }

  lemma ListedAppend(es: seq<Alarm>, ts: seq<Timer<Alarm>>, a: Alarm, at: Deadline, now: nat)
    requires Listed(es, ts, now) && Represents(at, now, a.time, a.rollover)
    ensures Listed(es + [a], ts + [Timer(a, at)], now)
  {
  }

  lemma ListedPrepend(es: seq<Alarm>, ts: seq<Timer<Alarm>>, a: Alarm, at: Deadline, now: nat)
    requires Listed(es, ts, now) && Represents(at, now, a.time, a.rollover)
    ensures Listed([a] + es, [Timer(a, at)] + ts, now)
  {
  }

  lemma NoneListed(now: nat)
    ensures Listed([], [], now) && Prepended<Alarm>([], now) == []
  {
  }

  /** In the middle of alt_tick: the alarms of `done` are up to date with `now`, those of `todo` with now - 1. */
  ghost predicate Sweeping(ring: seq<Alarm>, done: seq<Timer<Alarm>>, todo: seq<Timer<Alarm>>, now: nat)
    requires now > 0
    reads ring
  {
    && IsRing(ring)
    && |ring| == 1 + |done| + |todo|
    && Listed(ring[1..1 + |done|], done, now)
    && Listed(ring[1 + |done|..], todo, now - 1)
  }

  lemma SweepStarts(ring: seq<Alarm>, ts: seq<Timer<Alarm>>, now: nat)
    requires now > 0 && IsRing(ring) && Tracked(ring, ts, now - 1)
    ensures Sweeping(ring, [], ts, now)
  {
    TrackedIsListed(ring, ts, now - 1);
  }

  lemma SweepEnds(ring: seq<Alarm>, done: seq<Timer<Alarm>>, now: nat)
    requires now > 0 && Sweeping(ring, done, [], now)
    ensures IsRing(ring) && Tracked(ring, done, now)
  {
    TrackedIsListed(ring, done, now);
    assert ring[1..1 + |done|] == ring[1..];
  }

  /** The neighbours of a node of a ring. */
  lemma Neighbours(ring: seq<Alarm>, k: nat)
    requires IsRing(ring) && 0 < k < |ring|
    ensures ring[k].previous == ring[k - 1] && ring[k].next == if k + 1 < |ring| then ring[k + 1] else ring[0]
    ensures ring[k] !in ring[1..k] && ring[k] !in ring[k + 1..] && !Unlinked(ring[k])
  {
  }

  lemma OnePrepended(starts: seq<(Alarm, Word)>, i: nat, now: nat)
    requires i < |starts|
    ensures Prepended(starts[..i + 1], now)
        == [Timer(starts[i].0, AlarmArithmetic.Started(now, starts[i].1))] + Prepended(starts[..i], now)
  {
    assert starts[..i + 1][..i] == starts[..i] && starts[..i + 1][i] == starts[i];
  }

  lemma Behind<T>(head: T, a: T, r: seq<T>, n: nat)
    requires n < |r|
    ensures ([head, a] + r[1..])[1..2 + n] == [a] + r[1..1 + n]
  {
    var longer, slice := [head, a] + r[1..], [a] + r[1..1 + n];
    forall i | 0 <= i <= n
      ensures longer[1..2 + n][i] == slice[i]
    {
      assert longer[1..2 + n][i] == longer[i + 1];
    }
  }

  lemma FrontNode(ring: seq<Alarm>)
    requires IsRing(ring)
    ensures |ring| > 0 && ring[0].next in ring && ring[0] in ring
  {
    assert ring[0].next == if |ring| == 1 then ring[0] else ring[1];
  }

  /** The alarm at work is the first of `todo`; its own fields are in flux. */
  ghost predicate AtWork(ring: seq<Alarm>, done: seq<Timer<Alarm>>, todo: seq<Timer<Alarm>>, now: nat)
    requires now > 0
    reads ring
  {
    && todo != [] && IsRing(ring)
    && |ring| == 1 + |done| + |todo|
    && Listed(ring[1..1 + |done|], done, now)
    && ring[1 + |done|] == todo[0].alarm
    && Listed(ring[2 + |done|..], todo[1..], now - 1)
  }

  lemma WorkStarts(r: seq<Alarm>, done: seq<Timer<Alarm>>, todo: seq<Timer<Alarm>>, now: nat)
    requires todo != [] && 0 < now && Sweeping(r, done, todo, now)
    ensures AtWork(r, done, todo, now)
    ensures Represents(todo[0].at, now - 1, r[1 + |done|].time, r[1 + |done|].rollover)
  {
    ListedSplit(r[1 + |done|..], todo, now - 1);
    assert r[1 + |done|..][1..] == r[2 + |done|..];
  }

  /** The alarm stays, with a new deadline. */
  lemma WorkKept(r: seq<Alarm>, done: seq<Timer<Alarm>>, todo: seq<Timer<Alarm>>, at: Deadline, now: nat)
    requires 0 < now && AtWork(r, done, todo, now)
    requires Represents(at, now, r[1 + |done|].time, r[1 + |done|].rollover)
    ensures Sweeping(r, done + [Timer(todo[0].alarm, at)], todo[1..], now)
  {
    var pos := 1 + |done|;
    ListedAppend(r[1..pos], done, r[pos], at, now);
    assert r[1..pos + 1] == r[1..pos] + [r[pos]];
  }

  /** The alarm has been unlinked. */
  lemma WorkDropped(r: seq<Alarm>, done: seq<Timer<Alarm>>, todo: seq<Timer<Alarm>>, now: nat)
    requires 0 < now && todo != [] && |r| == 1 + |done| + |todo|
    requires Listed(r[1..1 + |done|], done, now) && Listed(r[2 + |done|..], todo[1..], now - 1)
    requires IsRing(r[..1 + |done|] + r[2 + |done|..])
    ensures Sweeping(r[..1 + |done|] + r[2 + |done|..], done, todo[1..], now)
  {
    var pos := 1 + |done|;
    var r' := r[..pos] + r[pos + 1..];
    assert r'[1..pos] == r[1..pos] && r'[pos..] == r[pos + 1..];
  }

  lemma ListedJoin(xs: seq<Alarm>, ts: seq<Timer<Alarm>>, ys: seq<Alarm>, us: seq<Timer<Alarm>>, now: nat)
    requires Listed(xs, ts, now) && Listed(ys, us, now)
    ensures Listed(xs + ys, ts + us, now)
  {
  }

  /** New alarms at the front do not disturb the walk. */
  lemma WorkShifted(r: seq<Alarm>, r': seq<Alarm>, added: seq<Timer<Alarm>>, done: seq<Timer<Alarm>>,
      todo: seq<Timer<Alarm>>, now: nat)
    requires 0 < now && todo != [] && |r| == 1 + |done| + |todo| && IsRing(r') && |r'| == |r| + |added|
    requires r'[1 + |added|..] == r[1..] && Listed(r'[1..1 + |added|], added, now)
    requires Listed(r[1..1 + |done|], done, now) && r[1 + |done|] == todo[0].alarm
        && Listed(r[2 + |done|..], todo[1..], now - 1)
    ensures AtWork(r', added + done, todo, now)
  {
    var n, m := |added|, |done|;
    assert forall i :: 1 <= i < |r| ==> r'[n + i] == r'[1 + n..][i - 1] == r[i];
    ListedJoin(r'[1..1 + n], added, r[1..1 + m], done, now);
    assert r'[1..1 + (n + m)] == r'[1..1 + n] + r[1..1 + m];
    assert r'[2 + (n + m)..] == r[2 + m..];
  }

  /** An alarm whose callback is due: its flag is clear, and its deadline word is the counter, or one less. */
  ghost predicate Expired(alarm: Alarm, at: Deadline, now: nat)
    reads alarm`time, alarm`rollover
  {
    && !alarm.rollover
    && if at.early then 0 < now && alarm.time == Wrap(now - 1) != 0xFFFF_FFFF else alarm.time == Wrap(now)
  }

  function Answer(answers: map<Alarm, Reply<Alarm>>, a: Alarm): Reply<Alarm> {
    if a in answers then answers[a] else Reply(0, false, [])
  }

  /** The alarms that callbacks may start on a tick. */
  function Startable(answers: map<Alarm, Reply<Alarm>>): set<Alarm> {
    set a, j | a in answers && 0 <= j < |answers[a].starts| :: answers[a].starts[j].0
  }

  /** Every alarm of a set is in the list or linked to itself: stopped, or never started. */
  ghost predicate Kempt(nodes: set<Alarm>, ring: seq<Alarm>)
    reads nodes
  {
    forall a :: a in nodes ==> a in ring || Unlinked(a)
  }

  /** A callback starts each alarm once, and none that is registered; the code would link it a second time. */
  ghost predicate StartsOthers(starts: seq<(Alarm, Word)>, ts: seq<Timer<Alarm>>) {
    && (forall i, j :: 0 <= i < j < |starts| ==> starts[i].0 != starts[j].0)
    && (forall i, k :: 0 <= i < |starts| && 0 <= k < |ts| ==> starts[i].0 != ts[k].alarm)
  }

  /** The same for every callback of one tick, in turn. */
  ghost predicate Orderly(ts: seq<Timer<Alarm>>, now: nat, replies: Replies<Alarm>) {
    forall i :: 0 <= i < |ts| ==>
      StartsOthers(StartsOf(ts[i], now, replies),
                   Newcomers(ts[..i], now, replies) + Survivors(ts[..i], now, replies) + ts[i..])
  }

  /** No alarm of a service is registered twice. */
  lemma {:induction false} RegisteredAtMostOnce(ring: seq<Alarm>, ts: seq<Timer<Alarm>>, now: nat, a: Alarm)
    requires |ring| > 0 && (forall i, j :: 0 <= i < j < |ring| ==> ring[i] != ring[j]) && Tracked(ring, ts, now)
    ensures |Dues(ts, a)| == if a in ring[1..] then 1 else 0
    ensures forall d :: d in Dues(ts, a) ==> now < d.due
  {
    if ts != [] {
      var init, last := ring[..|ring| - 1], ring[|ring| - 1];
      RegisteredAtMostOnce(init, ts[..|ts| - 1], now, a);
      assert ring[1..] == init[1..] + [last];
    }
  }

  /** The node after the part of the list that is done. */
  lemma NextNode(r: seq<Alarm>, done: seq<Timer<Alarm>>, todo: seq<Timer<Alarm>>, now: nat)
    requires 0 < now && Sweeping(r, done, todo, now)
    ensures |r| == 1 + |done| + |todo|
    ensures todo != [] ==> r[1 + |done|] == todo[0].alarm && r[1 + |done|] != r[0]
    ensures todo != [] ==> r[1 + |done|].next == if |todo| > 1 then todo[1].alarm else r[0]
  {
    if |todo| > 0 {
      assert r[1 + |done|..][0] == r[1 + |done|];
    }
    if |todo| > 1 {
      assert r[1 + |done|..][1] == r[2 + |done|];
    }
  }

  /** The list as alt_tick finds it. */
  lemma Entry(r: seq<Alarm>, ts: seq<Timer<Alarm>>, now: nat, replies: Replies<Alarm>)
    requires 0 < now && Sweeping(r, [], ts, now)
    ensures |r| == 1 + |ts| && forall i :: 0 <= i < |ts| ==> ts[i].alarm == r[i + 1]
    ensures r[0].next == if ts == [] then r[0] else r[1]
    ensures Newcomers(ts[..0], now, replies) + Survivors(ts[..0], now, replies) == [] && Fired(ts[..0], now) == []
  {
    assert forall i :: 0 <= i < |ts| ==> r[1..][i] == r[i + 1];
  }

  lemma OneMore(ts: seq<Timer<Alarm>>, i: nat, now: nat, replies: Replies<Alarm>)
    requires i < |ts| && Orderly(ts, now, replies)
    ensures ts[i..][0] == ts[i] && ts[i..][1..] == ts[i + 1..]
    ensures StartsOthers(StartsOf(ts[i], now, replies),
                         Newcomers(ts[..i], now, replies) + Survivors(ts[..i], now, replies) + ts[i..])
    ensures Survivors(ts[..i + 1], now, replies) == Survivors(ts[..i], now, replies) + Next(ts[i], now, replies)
    ensures Newcomers(ts[..i + 1], now, replies)
        == Prepended(StartsOf(ts[i], now, replies), now) + Newcomers(ts[..i], now, replies)
    ensures Fired(ts[..i + 1], now) == Fired(ts[..i], now) + FiredOne(ts[i], now)
  {
    assert ts[..i + 1][..i] == ts[..i];
  }

  lemma Regroup<T>(p: seq<T>, n: seq<T>, s: seq<T>, x: seq<T>)
    ensures p + (n + s) + x == (p + n) + (s + x)
  {
  }

  lemma StartsAllowed(answers: map<Alarm, Reply<Alarm>>, a: Alarm)
    ensures forall j :: 0 <= j < |Answer(answers, a).starts| ==> Answer(answers, a).starts[j].0 in Startable(answers)
  {
  }

  /** An alarm that may be started is not in the list. */
  lemma NotInRing(r: seq<Alarm>, done: seq<Timer<Alarm>>, todo: seq<Timer<Alarm>>, now: nat, starts: seq<(Alarm, Word)>)
    requires 0 < now && AtWork(r, done, todo, now) && StartsOthers(starts, done + todo)
    requires forall i :: 0 <= i < |starts| ==> starts[i].0 != r[0]
    ensures forall i :: 0 <= i < |starts| ==> starts[i].0 !in r
    ensures forall i, j :: 0 <= i < j < |starts| ==> starts[i].0 != starts[j].0
  {
    var ts := done + todo;
    forall k | 0 < k < |r|
      ensures r[k] == ts[k - 1].alarm
    {
      if k <= |done| {
        assert r[1..1 + |done|][k - 1] == r[k];
      } else if k > 1 + |done| {
        assert r[2 + |done|..][k - 2 - |done|] == r[k];
      }
    }
  }

  /** What is left of a timer whose callback has answered. */
  function Left(t: Timer<Alarm>, reply: Reply<Alarm>, now: nat): seq<Timer<Alarm>> {
    if reply.Keeps() then [Timer(t.alarm, Rearmed(now, t.at.early, reply.period))] else []
  }

  datatype StartResult = Started | InvalidArgument | NotSupported

  class TickService {
    const head: Alarm
    const rate: Word
    var counter: Word
    ghost var ring: seq<Alarm>
    ghost var clock: Clock<Alarm>
    /** The callbacks made, by alarm and absolute tick. */
    ghost var calls: seq<(Alarm, nat)>

    ghost predicate Valid()
      reads this`counter, this`clock, this`ring, this`calls
      reads ring`next, ring`previous, ring`time, ring`rollover
    {
      && IsRing(ring) && ring[0] == head
      && counter == Wrap(clock.now) && calls == clock.log
      && Tracked(ring, clock.timers, clock.now)
    }

    constructor (rate: Word)
      ensures Valid() && fresh(head) && this.rate == rate
      ensures clock == Clock(0, [], []) && ring == [head] && calls == []
    {
      var sentinel := new Alarm();
      head, counter, this.rate, ring, clock, calls := sentinel, 0, rate, [sentinel], Clock(0, [], []), [];
    }

    /** alt_alarm_start. Re-registering a linked alarm would corrupt the list, so callers must not. */
    method Start(alarm: Alarm?, nticks: Word, ghost replies: Replies<Alarm>) returns (result: StartResult)
      requires Valid()
      requires alarm != null ==> alarm !in ring
      modifies this`ring, this`clock, alarm, head`next, head.next`previous
      ensures Valid()
      ensures result == if rate == 0 then NotSupported else if alarm == null then InvalidArgument
          else StartResult.Started
      ensures clock == if result.Started? then Step(old(clock), AlarmSpec.Start(alarm, nticks), replies) else old(clock)
      ensures ring == if result.Started? then [head, alarm] + old(ring)[1..] else old(ring)
    {
      if rate == 0 {
        return NotSupported;
      }
      if alarm == null {
        return InvalidArgument;
      }
      SetDeadline(alarm, nticks, clock.now);
      Link(alarm, AlarmArithmetic.Started(clock.now, nticks));
      return StartResult.Started;
    }

    method SetDeadline(alarm: Alarm, nticks: Word, ghost now: nat)
      requires counter == Wrap(now)
      modifies alarm`time, alarm`rollover
      ensures Represents(AlarmArithmetic.Started(now, nticks), now, alarm.time, alarm.rollover)
    {
      alarm.time := Wrap(nticks + counter + 1);
      alarm.rollover := alarm.time < counter;
      StartRepresents(now, nticks);
    }

    method Link(alarm: Alarm, ghost at: Deadline)
      requires Valid() && alarm !in ring
      requires Represents(at, clock.now, alarm.time, alarm.rollover)
      modifies this`ring, this`clock, alarm`next, alarm`previous, head`next, head.next`previous
      ensures Valid() && ring == [head, alarm] + old(ring)[1..]
      ensures clock == old(clock).(timers := [Timer(alarm, at)] + old(clock).timers)
    {
      TrackedInsert(ring, clock.timers, alarm, at, clock.now);
      ghost var r := [head, alarm] + ring[1..];
      Insert(head, alarm, ring);
      assert Tracked(r, [Timer(alarm, at)] + clock.timers, clock.now);
      ring := r;
      clock := clock.(timers := [Timer(alarm, at)] + clock.timers);
    }

    /** alt_alarm_stop, on a registered alarm or on one already stopped. */
    method Stop(alarm: Alarm, ghost replies: Replies<Alarm>)
      requires Valid() && alarm != head
      requires alarm in ring || Unlinked(alarm)
      modifies this`ring, this`clock, alarm`next, alarm`previous, alarm.next`previous, alarm.previous`next
      ensures Valid() && Unlinked(alarm) && alarm !in ring
      ensures clock == Step(old(clock), AlarmSpec.Stop(alarm), replies)
      ensures forall a :: a in ring <==> a in old(ring) && a != alarm
    {
      hide IsRing, Represents, Tracked, Without;
      ghost var k, r := Drop(ring, clock.timers, alarm, clock.now);
      Remove(alarm, ring, k);
      assert IsRing(r) && Tracked(r, Without(clock.timers, alarm), clock.now);
      ring := r;
      clock := clock.(timers := Without(clock.timers, alarm));
    }

    /** alt_tick.c lines 109 to 115. */
    method Expire(alarm: Alarm, ghost at: Deadline, ghost now: nat) returns (fires: bool)
      requires 0 < now && counter == Wrap(now) && Represents(at, now - 1, alarm.time, alarm.rollover)
      modifies alarm`rollover
      ensures fires <==> at.due == now
      ensures if fires then Expired(alarm, at, now) else Represents(at, now, alarm.time, alarm.rollover)
    {
      TickFiresExactly(at, now, alarm.time, alarm.rollover);
      if alarm.rollover && counter == 0 {
        alarm.rollover := false;
      }
      fires := alarm.time <= counter && !alarm.rollover;
    }

    /** alt_tick.c lines 127 to 137. */
    method Rearm(alarm: Alarm, period: Word, ghost at: Deadline, ghost now: nat)
      requires counter == Wrap(now) && Expired(alarm, at, now)
      modifies alarm`time, alarm`rollover
      ensures period != 0 ==> Represents(Rearmed(now, at.early, period), now, alarm.time, alarm.rollover)
    {
      if period != 0 {
        RearmRepresents(now, at.early, period);
      }
      alarm.time := Wrap(alarm.time + period);
      if alarm.time < counter {
        alarm.rollover := true;
      }
    }

    /** A callback starts an alarm; `ts` are those it has started already, at the front of the list. */
    method StartOne(a: Alarm, n: Word, ghost r: seq<Alarm>, ghost ts: seq<Timer<Alarm>>, ghost now: nat)
      returns (ghost r': seq<Alarm>)
      requires IsRing(r) && r[0] == head && counter == Wrap(now) && a !in r
      requires |ts| < |r| && Listed(r[1..1 + |ts|], ts, now)
      modifies a, head`next, head.next`previous
      ensures IsRing(r') && r' == [head, a] + r[1..]
      ensures Listed(r'[1..2 + |ts|], [Timer(a, AlarmArithmetic.Started(now, n))] + ts, now)
    {
      hide Represents;
      ghost var es := r[1..1 + |ts|];
      assert a !in es && head !in es;
      SetDeadline(a, n, now);
      assert Listed(es, ts, now);
      Insert(head, a, r);
      r' := [head, a] + r[1..];
      assert Listed(es, ts, now);
      ListedPrepend(es, ts, a, AlarmArithmetic.Started(now, n), now);
      Behind(head, a, r, |ts|);
    }

    /**
     The callback of an alarm, as far as it concerns the service: it is recorded, and it starts other alarms,
     which go to the front of the list, behind the walk.
     */
    method CallBack(alarm: Alarm, starts: seq<(Alarm, Word)>, ghost r: seq<Alarm>, ghost now: nat,
        ghost nodes: set<Alarm>)
      returns (ghost r': seq<Alarm>)
      requires IsRing(r) && r[0] == head && counter == Wrap(now)
      requires forall i, j :: 0 <= i < j < |starts| ==> starts[i].0 != starts[j].0
      requires forall i :: 0 <= i < |starts| ==> starts[i].0 !in r && starts[i].0 in nodes
      requires forall x :: x in r ==> x in nodes
      modifies this`calls, nodes
      ensures calls == old(calls) + [(alarm, now)]
      ensures IsRing(r') && |r'| == |r| + |starts| && r'[0] == head && r'[1 + |starts|..] == r[1..]
      ensures Listed(r'[1..1 + |starts|], Prepended(starts, now), now)
      ensures forall x :: x in r' ==> x in nodes
      ensures forall x :: x in r ==> x.time == old(x.time) && x.rollover == old(x.rollover)
      ensures old(Kempt(nodes, r)) ==> Kempt(nodes, r')
    {
      hide Represents, AlarmArithmetic.Started, Listed, IsRing, Prepended;
      calls := calls + [(alarm, now)];
      r' := r;
      NoneListed(now);
      FrontNode(r);
      assert r'[1..1] == [];
      for i := 0 to |starts|
        invariant calls == old(calls) + [(alarm, now)]
        invariant IsRing(r') && |r'| == |r| + i && |r| > 0 && r'[0] == head && r'[1 + i..] == r[1..]
        invariant Listed(r'[1..1 + i], Prepended(starts[..i], now), now)
        invariant forall x :: x in r' ==> x in nodes
        invariant forall j :: i <= j < |starts| ==> starts[j].0 !in r'
        invariant forall x :: x in r ==> x.time == old(x.time) && x.rollover == old(x.rollover)
        invariant old(Kempt(nodes, r)) ==> Kempt(nodes, r')
      {
        FrontNode(r');
        ghost var before := r';
        r' := StartOne(starts[i].0, starts[i].1, r', Prepended(starts[..i], now), now);
        OnePrepended(starts, i, now);
        assert r'[2 + i..] == before[1 + i..];
      }
      assert starts[..|starts|] == starts;
    }

    /** What follows the callback: it may have stopped its own alarm; the period 0 stops it too, another re-arms it. */
    method Conclude(alarm: Alarm, reply: Reply<Alarm>, ghost r: seq<Alarm>, ghost done: seq<Timer<Alarm>>,
        ghost todo: seq<Timer<Alarm>>,
        ghost now: nat, ghost nodes: set<Alarm>)
      returns (ghost r': seq<Alarm>)
      requires 0 < now && counter == Wrap(now) && AtWork(r, done, todo, now)
      requires alarm == todo[0].alarm && Expired(alarm, todo[0].at, now)
      modifies alarm`time, alarm`rollover, alarm`next, alarm`previous, alarm.next`previous, alarm.previous`next
      ensures Sweeping(r', done + Left(todo[0], reply, now), todo[1..], now)
      ensures r' == if reply.Keeps() then r else r[..1 + |done|] + r[2 + |done|..]
      ensures old(Kempt(nodes, r)) ==> Kempt(nodes, r')
    {
      hide IsRing, Represents, Expired;
      ghost var k := 1 + |done|;
      Neighbours(r, k);
      r' := if reply.Keeps() then r else r[..k] + r[k + 1..];
      if reply.stopsItself {
        Remove(alarm, r, k);
      }
      if reply.period == 0 {
        Remove(alarm, r, k);
      } else {
        Rearm(alarm, reply.period, todo[0].at, now);
      }
      assert Listed(r[1..k], done, now) && Listed(r[k + 1..], todo[1..], now - 1);
      if reply.Keeps() {
        WorkKept(r, done, todo, Rearmed(now, todo[0].at.early, reply.period), now);
      } else {
        WorkDropped(r, done, todo, now);
      }
    }

    /** A due alarm: the callback, and what follows it. */
    method Fire(alarm: Alarm, reply: Reply<Alarm>, ghost r: seq<Alarm>, ghost done: seq<Timer<Alarm>>,
        ghost todo: seq<Timer<Alarm>>,
        ghost now: nat, ghost nodes: set<Alarm>)
      returns (ghost r': seq<Alarm>)
      requires 0 < now && counter == Wrap(now) && AtWork(r, done, todo, now) && r[0] == head
      requires alarm == todo[0].alarm && Expired(alarm, todo[0].at, now)
      requires StartsOthers(reply.starts, done + todo)
      requires forall i :: 0 <= i < |reply.starts| ==> reply.starts[i].0 in nodes - {head}
      requires forall a :: a in r ==> a in nodes
      modifies this`calls, nodes
      ensures calls == old(calls) + [(alarm, now)]
      ensures Sweeping(r', Prepended(reply.starts, now) + done + Left(todo[0], reply, now), todo[1..], now)
      ensures r'[0] == head && (forall a :: a in r' ==> a in nodes) && (old(Kempt(nodes, r)) ==> Kempt(nodes, r'))
    {
      hide Represents, Expired, IsRing, Prepended, Left, Kempt;
      NotInRing(r, done, todo, now, reply.starts);
      r' := CallBack(alarm, reply.starts, r, now, nodes);
      assert Listed(r[1..1 + |done|], done, now) && Listed(r[2 + |done|..], todo[1..], now - 1)
          && Expired(alarm, todo[0].at, now);
      ghost var front := Prepended(reply.starts, now) + done;
      WorkShifted(r, r', Prepended(reply.starts, now), done, todo, now);
      Neighbours(r', 1 + |front|);
      r' := Conclude(alarm, reply, r', front, todo, now, nodes);
    }

    /** One pass of the body of the loop in alt_tick. */
    method Visit(alarm: Alarm, reply: Reply<Alarm>, ghost r: seq<Alarm>, ghost done: seq<Timer<Alarm>>,
        ghost todo: seq<Timer<Alarm>>,
        ghost now: nat, ghost replies: Replies<Alarm>, ghost nodes: set<Alarm>)
      returns (ghost r': seq<Alarm>, ghost done': seq<Timer<Alarm>>)
      requires 0 < now && counter == Wrap(now) && Sweeping(r, done, todo, now) && r[0] == head
      requires todo != [] && alarm == r[1 + |done|] && reply == ReplyOf(replies, alarm, now)
      requires StartsOthers(StartsOf(todo[0], now, replies), done + todo)
      requires forall i :: 0 <= i < |reply.starts| ==> reply.starts[i].0 in nodes - {head}
      requires forall a :: a in r ==> a in nodes
      modifies this`calls, nodes
      ensures calls == old(calls) + FiredOne(todo[0], now)
      ensures done' == Prepended(StartsOf(todo[0], now, replies), now) + done + Next(todo[0], now, replies)
      ensures Sweeping(r', done', todo[1..], now)
      ensures r'[0] == head && (forall a :: a in r' ==> a in nodes) && (old(Kempt(nodes, r)) ==> Kempt(nodes, r'))
    {
      hide IsRing, Represents, Expired;
      ghost var pos, at := 1 + |done|, todo[0].at;
      WorkStarts(r, done, todo, now);
      Neighbours(r, pos);
      var fired := Expire(alarm, at, now);
      assert Listed(r[1..pos], done, now) && Listed(r[pos + 1..], todo[1..], now - 1);
      done' := Prepended(StartsOf(todo[0], now, replies), now) + done + Next(todo[0], now, replies);
      if fired {
        r' := Fire(alarm, reply, r, done, todo, now, nodes);
      } else {
        r' := r;
        WorkKept(r, done, todo, at, now);
        assert [] + done == done;
      }
    }

    /**
     alt_tick. `answers` says what each callback does on this tick; `visited` lists the alarms the walk
     looked at.
     */
    method Tick(answers: map<Alarm, Reply<Alarm>>, ghost replies: Replies<Alarm>) returns (ghost visited: seq<Alarm>)
      requires Valid()
      requires forall a :: a in ring[1..] ==> Answer(answers, a) == ReplyOf(replies, a, clock.now + 1)
      requires Orderly(clock.timers, clock.now + 1, replies) && head !in Startable(answers)
      modifies this`counter, this`ring, this`clock, this`calls, ring, Startable(answers)
      ensures Valid() && clock == Step(old(clock), AlarmSpec.Tick, replies)
      ensures [head] + visited == old(ring)
      ensures var nodes := (set a | a in old(ring)) + Startable(answers);
        (forall a :: a in ring ==> a in nodes) && (old(Kempt(nodes, ring)) ==> Kempt(nodes, ring))
    {
      hide Survivors, Newcomers, Fired, Represents, Sweeping, IsRing, Tracked, Orderly, Kempt, Startable;
      ghost var now, ts := clock.now + 1, clock.timers;
      SweepStarts(ring, ts, now);
      counter := Wrap(counter + 1);
      ghost var r, done;
      r, done, visited := Walk(answers, ring, ts, now, replies, (set a | a in ring) + Startable(answers));
      SweepEnds(r, done, now);
      ring := r;
      clock := Clock(now, done, calls);
    }

    /** The same, as one step of the walk over all timers. */
    method Pass(alarm: Alarm, answers: map<Alarm, Reply<Alarm>>, ghost r: seq<Alarm>, ghost done: seq<Timer<Alarm>>,
        ghost ts: seq<Timer<Alarm>>,
        ghost i: nat, ghost now: nat, ghost replies: Replies<Alarm>, ghost nodes: set<Alarm>)
      returns (ghost r': seq<Alarm>, ghost done': seq<Timer<Alarm>>)
      requires 0 < now && counter == Wrap(now) && i < |ts| && Sweeping(r, done, ts[i..], now) && r[0] == head
      requires |r| == 1 + |done| + |ts| - i && alarm == r[1 + |done|]
          && Answer(answers, alarm) == ReplyOf(replies, alarm, now)
      requires done == Newcomers(ts[..i], now, replies) + Survivors(ts[..i], now, replies)
      requires Orderly(ts, now, replies) && head !in Startable(answers) && Startable(answers) <= nodes
      requires forall a :: a in r ==> a in nodes
      modifies this`calls, nodes
      ensures calls == old(calls) + FiredOne(ts[i], now)
      ensures done' == Newcomers(ts[..i + 1], now, replies) + Survivors(ts[..i + 1], now, replies)
      ensures Sweeping(r', done', ts[i + 1..], now) && |r'| == 1 + |done'| + |ts| - (i + 1)
      ensures r'[0] == head && (forall a :: a in r' ==> a in nodes) && (old(Kempt(nodes, r)) ==> Kempt(nodes, r'))
    {
      hide Represents, IsRing, Newcomers, Survivors, Fired, Startable, Prepended, Next, Orderly, Sweeping, FiredOne,
          StartsOf;
      OneMore(ts, i, now, replies);
      StartsAllowed(answers, alarm);
      r', done' := Visit(alarm, Answer(answers, alarm), r, done, ts[i..], now, replies, nodes);
      Regroup(Prepended(StartsOf(ts[i], now, replies), now), Newcomers(ts[..i], now, replies),
          Survivors(ts[..i], now, replies), Next(ts[i], now, replies));
      NextNode(r', done', ts[i + 1..], now);
    }

    /** The loop of alt_tick. The successor is read before the alarm can be unlinked. */
    method Walk(answers: map<Alarm, Reply<Alarm>>, ghost r0: seq<Alarm>, ghost ts: seq<Timer<Alarm>>, ghost now: nat,
        ghost replies: Replies<Alarm>, ghost nodes: set<Alarm>)
      returns (ghost r: seq<Alarm>, ghost done: seq<Timer<Alarm>>, ghost visited: seq<Alarm>)
      requires 0 < now && counter == Wrap(now) && Sweeping(r0, [], ts, now) && r0[0] == head
      requires forall a :: a in r0 ==> a in nodes
      requires forall a :: a in r0[1..] ==> Answer(answers, a) == ReplyOf(replies, a, now)
      requires Orderly(ts, now, replies) && head !in Startable(answers) && Startable(answers) <= nodes
      modifies this`calls, nodes
      ensures Sweeping(r, done, [], now) && r[0] == head
      ensures done == Newcomers(ts, now, replies) + Survivors(ts, now, replies)
      ensures calls == old(calls) + Fired(ts, now)
      ensures [head] + visited == r0 && (forall a :: a in r ==> a in nodes)
          && (old(Kempt(nodes, r0)) ==> Kempt(nodes, r))
    {
      hide Represents, IsRing, Newcomers, Survivors, Fired, Startable, Prepended, Next, Orderly, Sweeping;
      ghost var i := 0;
      r, done, visited := r0, [], [];
      var alarm := head.next;
      Entry(r0, ts, now, replies);
      while alarm != head
        invariant 0 <= i <= |ts| && visited == r0[1..][..i]
        invariant forall j :: 0 <= j < |ts| ==> ts[j].alarm == r0[j + 1]
        invariant done == Newcomers(ts[..i], now, replies) + Survivors(ts[..i], now, replies)
        invariant calls == old(calls) + Fired(ts[..i], now)
        invariant Sweeping(r, done, ts[i..], now) && |r| == 1 + |done| + |ts| - i && r[0] == head
        invariant (forall a :: a in r ==> a in nodes) && (old(Kempt(nodes, r0)) ==> Kempt(nodes, r))
        invariant alarm == if i < |ts| then r[1 + |done|] else head
        decreases |ts| - i
      {
        NextNode(r, done, ts[i..], now);
        OneMore(ts, i, now, replies);
        assert alarm == r0[i + 1] == r0[1..][i];
        var next := alarm.next;
        r, done := Pass(alarm, answers, r, done, ts, i, now, replies, nodes);
        Associative(old(calls), Fired(ts[..i], now), FiredOne(ts[i], now));
        NextNode(r, done, ts[i + 1..], now);
        visited := visited + [alarm];
        i := i + 1;
        alarm := next;
      }
      NextNode(r, done, ts[i..], now);
      assert ts[..i] == ts;
    }
  }

  /**
   Why a callback must not stop the alarm after its own: the walk has read that successor already. Unlinked, it
   points to itself, so the walk visits it again and again and never comes back to the head.
   */
  method StoppedSuccessorTrapsTheWalk(alarm: Alarm, ghost ring: seq<Alarm>, ghost k: nat, passes: nat)
      returns (at: Alarm)
    requires IsRing(ring) && 0 < k < |ring| - 1 && ring[k] == alarm
    modifies alarm.next`next, alarm.next`previous, alarm.next.next`previous, alarm.next.previous`next
    ensures at == ring[k + 1] != ring[0] && Unlinked(at)
  {
    var next := alarm.next;
    Neighbours(ring, k);
    Neighbours(ring, k + 1);
    Remove(next, ring, k + 1);
    at := next;
    for i := 0 to passes
      invariant at == ring[k + 1] && Unlinked(at)
    {
      at := at.next;
    }
  }

  /** What the service asks of one operation of a run. */
  ghost predicate Allowed(c: Clock<Alarm>, op: Op<Alarm>, replies: Replies<Alarm>, pool: set<Alarm>) {
    match op
    case Start(a, _) => a in pool && forall i :: 0 <= i < |c.timers| ==> c.timers[i].alarm != a
    case Stop(a) => a in pool
    case Tick => Orderly(c.timers, c.now + 1, replies)
  }

  ghost predicate AllAllowed(c: Clock<Alarm>, ops: seq<Op<Alarm>>, replies: Replies<Alarm>, pool: set<Alarm>) {
    forall i :: 0 <= i < |ops| ==> Allowed(Run(c, ops[..i], replies), ops[i], replies, pool)
  }

  /** Callbacks start alarms of the pool only. */
  ghost predicate StartsWithin(replies: Replies<Alarm>, pool: set<Alarm>) {
    forall k :: k in replies ==> forall j :: 0 <= j < |replies[k].starts| ==> replies[k].starts[j].0 in pool
  }

  /** A service whose alarms come from a pool, all of them registered or linked to themselves. */
  ghost predicate Running(s: TickService, pool: set<Alarm>)
    reads s, s.ring, pool
  {
    s.Valid() && s.rate != 0 && s.head !in pool && (forall a :: a in s.ring[1..] ==> a in pool) && Kempt(pool, s.ring)
  }

  /** One operation. */
  method Perform(s: TickService, op: Op<Alarm>, replies: Replies<Alarm>, pool: set<Alarm>, tick: nat)
    requires Running(s, pool) && tick == s.clock.now + 1
    requires Allowed(s.clock, op, replies, pool) && StartsWithin(replies, pool)
    modifies s, s.head, pool
    ensures Running(s, pool) && s.clock == Step(old(s.clock), op, replies)
  {
    hide Running, StartsWithin, Orderly, Step;
    match op {
      case Start(a, n) => PerformStart(s, a, n, replies, pool);
      case Stop(a) => PerformStop(s, a, replies, pool);
      case Tick => PerformTick(s, replies, pool, tick);
    }
  }

  method PerformStart(s: TickService, a: Alarm, n: Word, ghost replies: Replies<Alarm>, ghost pool: set<Alarm>)
    requires Running(s, pool) && Allowed(s.clock, AlarmSpec.Start(a, n), replies, pool)
    modifies s, s.head, pool
    ensures Running(s, pool) && s.clock == Step(old(s.clock), AlarmSpec.Start(a, n), replies)
  {
    hide IsRing, Tracked, Represents, Step;
    RingInPool(s, pool);
    NotListed(s.ring, s.clock.timers, s.clock.now, a);
    var result := s.Start(a, n, replies);
  }

  method PerformStop(s: TickService, a: Alarm, ghost replies: Replies<Alarm>, ghost pool: set<Alarm>)
    requires Running(s, pool) && a in pool
    modifies s, s.head, pool
    ensures Running(s, pool) && s.clock == Step(old(s.clock), AlarmSpec.Stop(a), replies)
  {
    hide IsRing, Tracked, Represents, Step;
    RingInPool(s, pool);
    NextTo(s.ring, a);
    s.Stop(a, replies);
    RestInPool(s, pool);
  }

  method PerformTick(s: TickService, replies: Replies<Alarm>, pool: set<Alarm>, tick: nat)
    requires Running(s, pool) && tick == s.clock.now + 1
    requires Orderly(s.clock.timers, tick, replies) && StartsWithin(replies, pool)
    modifies s, s.head, pool
    ensures Running(s, pool) && s.clock == Step(old(s.clock), AlarmSpec.Tick, replies)
  {
    hide IsRing, Tracked, Represents, Step, Orderly;
    RingInPool(s, pool);
    var answers := map a | a in pool :: ReplyOf(replies, a, tick);
    StartableInPool(replies, pool, tick, answers);
    hide Startable, StartsWithin;
    ghost var nodes := (set a | a in s.ring) + Startable(answers);
    ghost var visited := s.Tick(answers, replies);
    RestInPool(s, pool);
  }

  lemma StartableInPool(replies: Replies<Alarm>, pool: set<Alarm>, tick: nat, answers: map<Alarm, Reply<Alarm>>)
    requires StartsWithin(replies, pool) && answers == map a | a in pool :: ReplyOf(replies, a, tick)
    ensures Startable(answers) <= pool
  {
  }

  /** The neighbours that unlinking an alarm touches. */
  lemma NextTo(ring: seq<Alarm>, a: Alarm)
    requires IsRing(ring) && (a in ring || Unlinked(a))
    ensures (a.next in ring || a.next == a) && (a.previous in ring || a.previous == a)
  {
    if a in ring {
      var k :| 0 <= k < |ring| && ring[k] == a;
      assert a.next == if k + 1 < |ring| then ring[k + 1] else ring[0];
      assert a.previous == if k > 0 then ring[k - 1] else ring[|ring| - 1];
    }
  }

  /** Everything behind the head is in the pool. */
  lemma RestInPool(s: TickService, pool: set<Alarm>)
    requires s.Valid() && forall a :: a in s.ring ==> a == s.head || a in pool
    ensures forall a :: a in s.ring[1..] ==> a in pool
  {
  }

  /**
   A whole run: the service does what the specification says, no alarm is ever registered twice, and every
   alarm has been called back at exactly the ticks of the schedules of its registered stretches, which the
   callbacks themselves space.
   */
  method Execute(s: TickService, ops: seq<Op<Alarm>>, replies: Replies<Alarm>, pool: set<Alarm>, now: nat)
    requires Running(s, pool) && now == s.clock.now
    requires AllAllowed(s.clock, ops, replies, pool) && StartsWithin(replies, pool)
    modifies s, s.head, pool
    ensures Running(s, pool) && s.clock == Run(old(s.clock), ops, replies)
    ensures forall a :: a in pool ==> RegisteredOnce(old(s.clock), ops, a, replies)
    ensures forall a :: a in pool ==>
              Firings(s.calls, a)
              == Firings(old(s.calls), a)
                 + ScheduledTicks(a, HistoryOf(old(s.clock), ops, a, replies), s.clock.now, replies)
    ensures forall a :: a in pool ==> AllSpaced(a, HistoryOf(old(s.clock), ops, a, replies), s.clock.now, replies)
  {
    hide Running, Dues, Step, Allowed, StartsWithin, ScheduledTicks, HistoryOf, Firings, AllSpaced;
    ghost var c := s.clock;
    var tick := now;
    AllOnce(s, pool);
    RunningLog(s, pool);
    for i := 0 to |ops|
      invariant Running(s, pool) && s.clock == Run(c, ops[..i], replies) && tick == s.clock.now
      invariant forall a, j :: a in pool && 0 <= j <= i ==> |Dues(Run(c, ops[..j], replies).timers, a)| <= 1
    {
      Perform(s, ops[i], replies, pool, tick + 1);
      RunStep(c, ops, i, replies);
      AllOnce(s, pool);
      tick := if ops[i].Tick? then tick + 1 else tick;
    }
    assert ops[..|ops|] == ops;
    RunningLog(s, pool);
    forall a | a in pool
      ensures Firings(s.calls, a)
              == Firings(c.log, a) + ScheduledTicks(a, HistoryOf(c, ops, a, replies), s.clock.now, replies)
    {
      RunFollowsHistory(c, ops, a, replies);
    }
    forall a | a in pool
      ensures AllSpaced(a, HistoryOf(c, ops, a, replies), s.clock.now, replies)
    {
      HistorySpaced(a, HistoryOf(c, ops, a, replies), s.clock.now, replies);
    }
  }

  lemma RunStep(c: Clock<Alarm>, ops: seq<Op<Alarm>>, i: nat, replies: Replies<Alarm>)
    requires i < |ops|
    ensures Run(c, ops[..i + 1], replies) == Step(Run(c, ops[..i], replies), ops[i], replies)
    ensures var m := Run(c, ops[..i], replies);
      Step(m, ops[i], replies).now == if ops[i].Tick? then m.now + 1 else m.now
  {
    assert ops[..i + 1][..i] == ops[..i];
  }

  lemma RunningLog(s: TickService, pool: set<Alarm>)
    requires Running(s, pool)
    ensures s.calls == s.clock.log
  {
  }

  lemma RingInPool(s: TickService, pool: set<Alarm>)
    requires Running(s, pool)
    ensures s.ring[0] == s.head && forall a :: a in s.ring ==> a == s.head || a in pool
    ensures s.head.next in s.ring
  {
    FrontNode(s.ring);
    assert forall i :: 0 < i < |s.ring| ==> s.ring[1..][i - 1] == s.ring[i];
  }

  lemma NotListed(ring: seq<Alarm>, ts: seq<Timer<Alarm>>, now: nat, a: Alarm)
    requires Tracked(ring, ts, now) && a != ring[0] && forall i :: 0 <= i < |ts| ==> ts[i].alarm != a
    ensures a !in ring
  {
    assert forall k :: 0 < k < |ring| ==> ring[k] == ts[k - 1].alarm;
  }

  lemma AllOnce(s: TickService, pool: set<Alarm>)
    requires Running(s, pool)
    ensures forall a :: a in pool ==> |Dues(s.clock.timers, a)| <= 1
    ensures forall a :: a in pool ==> forall d :: d in Dues(s.clock.timers, a) ==> s.clock.now < d.due
  {
    forall a | a in pool
      ensures |Dues(s.clock.timers, a)| <= 1 && forall d :: d in Dues(s.clock.timers, a) ==> s.clock.now < d.due
    {
      RegisteredAtMostOnce(s.ring, s.clock.timers, s.clock.now, a);
    }
  }
}
