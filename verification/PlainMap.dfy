/** What the file cache promises, as a plain map: its steps, and what holds over every run of them. */
module PlainMap {
  import opened Keys
  import opened Items

  /** A live entry: its bytes, and the counter the cache answers with. */
  datatype Entry = Entry(value: seq<byte>, ttl: int)

  datatype State = State(entries: map<Key, Entry>, lastTick: int)

  datatype Event =
    | Set(key: Key, value: seq<byte>, ttl: int, now: int)
    | Read(key: Key, now: int)
    | Delete(key: Key)
    | Clear
    | Sweep(now: int)

  /** A read lowers the counter by the time since the last sweep, and drops the entry at zero. */
  function ReadStep(s: State, key: Key, now: int): State {
    if key !in s.entries then s
    else
      var e := s.entries[key];
      var ttl := e.ttl - (now - s.lastTick);
      if ttl <= 0 then s.(entries := s.entries - {key}) else s.(entries := s.entries[key := e.(ttl := ttl)])
  }

  /** A sweep lowers every counter by the interval, and drops the entries at zero. */
  function SweepStep(s: State, now: int, interval: int): State {
    State(map k | k in s.entries && s.entries[k].ttl - interval > 0 ::
            s.entries[k].(ttl := s.entries[k].ttl - interval),
          now)
  }

  function Step(s: State, e: Event, interval: int): State {
    match e
    case Set(k, v, ttl, now) => s.(entries := s.entries[k := Entry(v, ttl)])
    case Read(k, now) => ReadStep(s, k, now)
    case Delete(k) => s.(entries := s.entries - {k})
    case Clear => s.(entries := map[])
    case Sweep(now) => SweepStep(s, now, interval)
  }

  /** The state after the events of h, of a cache started at `start`. */
  function Run(h: seq<Event>, start: int, interval: int): State {
    if h == [] then State(map[], start)
    else Step(Run(h[..|h| - 1], start, interval), h[|h| - 1], interval)
  }

  /** The time of the last timed event. */
  function Clock(h: seq<Event>, start: int): int {
    if h == [] then start
    else
      var e := h[|h| - 1];
      if e.Set? || e.Read? || e.Sweep? then e.now else Clock(h[..|h| - 1], start)
  }

  /** Time does not run backwards, and every ttl set is longer than the second the cache asks for. */
  predicate WellTimed(h: seq<Event>, start: int) {
    h != [] ==>
      var before, e := h[..|h| - 1], h[|h| - 1];
      && WellTimed(before, start)
      && (e.Set? || e.Read? || e.Sweep? ==> Clock(before, start) <= e.now)
      && (e.Set? ==> e.ttl > SECOND)
  }

  lemma Snoc(h: seq<Event>, e: Event, start: int, interval: int)
    ensures Run(h + [e], start, interval) == Step(Run(h, start, interval), e, interval)
    ensures WellTimed(h + [e], start) <==>
            && WellTimed(h, start)
            && (e.Set? || e.Read? || e.Sweep? ==> Clock(h, start) <= e.now)
            && (e.Set? ==> e.ttl > SECOND)
    ensures Clock(h + [e], start) == if e.Set? || e.Read? || e.Sweep? then e.now else Clock(h, start)
  {
    assert (h + [e])[..|h + [e]| - 1] == h;
  }

  // ---------------------------------------------------------------- what a history alone says of a key

  predicate Sets(e: Event, k: Key) {
    e.Set? && e.key == k
  }

  /** Events that take k out, whatever its counter. */
  predicate Removes(e: Event, k: Key) {
    e.Clear? || (e.Delete? && e.key == k)
  }

  predicate Reads(e: Event, k: Key) {
    e.Read? && e.key == k
  }

  /** The last Set of k, unless a Delete of k or a Clear came after it. */
  function LastSet(h: seq<Event>, k: Key): (r: Option<Event>)
    ensures r.Some? ==> Sets(r.value, k)
  {
    if h == [] then None
    else
      var e := h[|h| - 1];
      if Sets(e, k) then Some(e) else if Removes(e, k) then None else LastSet(h[..|h| - 1], k)
  }

  lemma LastSetSnoc(h: seq<Event>, e: Event, k: Key)
    ensures LastSet(h + [e], k) == if Sets(e, k) then Some(e) else if Removes(e, k) then None else LastSet(h, k)
  {
    assert (h + [e])[..|h|] == h;
  }

  /** The time of the last sweep. */
  function LastTick(h: seq<Event>, start: int): int {
    if h == [] then start
    else if h[|h| - 1].Sweep? then h[|h| - 1].now
    else LastTick(h[..|h| - 1], start)
  }

  /** The sweeps since the last Set of k. */
  function SweepsSince(h: seq<Event>, k: Key): nat {
    if h == [] || Sets(h[|h| - 1], k) then 0
    else SweepsSince(h[..|h| - 1], k) + if h[|h| - 1].Sweep? then 1 else 0
  }

  /** What the reads since the last Set of k have drained: each takes all the time since the sweep before it. */
  function Drained(h: seq<Event>, k: Key, start: int): int {
    if h == [] || Sets(h[|h| - 1], k) then 0
    else
      var before, e := h[..|h| - 1], h[|h| - 1];
      Drained(before, k, start) + if Reads(e, k) then e.now - LastTick(before, start) else 0
  }

  function Spent(h: seq<Event>, k: Key, start: int, interval: int): int {
    SweepsSince(h, k) * interval + Drained(h, k, start)
  }

  lemma SpentLast(h: seq<Event>, k: Key, start: int, interval: int)
    requires h != []
    ensures var before, e := h[..|h| - 1], h[|h| - 1];
            Spent(h, k, start, interval) ==
            if Sets(e, k) then 0
            else Spent(before, k, start, interval)
                 + if e.Sweep? then interval else if Reads(e, k) then e.now - LastTick(before, start) else 0
  {
    var n := SweepsSince(h[..|h| - 1], k);
    assert (n + 1) * interval == n * interval + interval;
  }

  /** A read directly after a Set of its key drains what has passed since the last sweep. */
  lemma SpentSetRead(h: seq<Event>, e: Event, k: Key, now: int, start: int, interval: int)
    requires Sets(e, k)
    ensures Spent(h + [e] + [Read(k, now)], k, start, interval) == now - LastTick(h, start)
  {
    hide Spent;
    var one, two := h + [e], h + [e] + [Read(k, now)];
    assert one[..|h|] == h && two[..|one|] == one;
    SpentLast(one, k, start, interval);
    SpentLast(two, k, start, interval);
  }

  lemma {:induction false} Ticks(h: seq<Event>, start: int, interval: int)
    ensures Run(h, start, interval).lastTick == LastTick(h, start)
    ensures WellTimed(h, start) ==> start <= LastTick(h, start) <= Clock(h, start)
  {
    if h == [] {
    } else {
      Ticks(h[..|h| - 1], start, interval);
    }
  }

  lemma NothingSpent(k: Key, start: int, interval: int)
    ensures Spent([], k, start, interval) == 0
  {
  }

  /** Over every run, an entry is live exactly while sweeps and reads have not spent the ttl of its last Set,
      with no Delete of it and no Clear since; it holds the bytes of that Set and the time left. */
  lemma {:induction false} AlwaysAccounted(h: seq<Event>, k: Key, start: int, interval: int)
    requires WellTimed(h, start) && interval > 0
    ensures var live, last, spent := Run(h, start, interval).entries, LastSet(h, k), Spent(h, k, start, interval);
            && spent >= 0
            && (k in live <==> last.Some? && spent < last.value.ttl)
            && (k in live ==> live[k] == Entry(last.value.value, last.value.ttl - spent))
  {
    hide Spent;
    if h != [] {
      var before := h[..|h| - 1];
      AlwaysAccounted(before, k, start, interval);
      Ticks(before, start, interval);
      SpentLast(h, k, start, interval);
    } else {
      assert Spent(h, k, start, interval) == 0 by { NothingSpent(k, start, interval); }
    }
  }

  lemma StepAlive(s: State, e: Event, k: Key, interval: int)
    requires k in Step(s, e, interval).entries
    ensures Sets(e, k) ==> Step(s, e, interval).entries[k].value == e.value
    ensures !Sets(e, k) ==>
              !Removes(e, k) && k in s.entries && Step(s, e, interval).entries[k].value == s.entries[k].value
  {
  }

  /** The same after one more read, from the last Set before it. */
  lemma ReadAccounted(h: seq<Event>, k: Key, now: int, start: int, interval: int)
    requires WellTimed(h + [Read(k, now)], start) && interval > 0
    ensures var h' := h + [Read(k, now)];
            var live, last, spent := Run(h', start, interval).entries, LastSet(h, k), Spent(h', k, start, interval);
            && (k in live <==> last.Some? && spent < last.value.ttl)
            && (k in live ==> live[k] == Entry(last.value.value, last.value.ttl - spent))
  {
    hide Spent, Run, WellTimed;
    var h' := h + [Read(k, now)];
    assert h'[..|h'| - 1] == h;
    AlwaysAccounted(h', k, start, interval);
  }

  /** A live entry goes back to one Set, whose bytes it holds, with no other Set of its key, no Delete of it and no
      Clear since; and it was live all the time since then. */
  lemma {:induction false} LiveEverSince(h: seq<Event>, k: Key, start: int, interval: int) returns (n: nat)
    requires k in Run(h, start, interval).entries
    ensures n < |h| && Sets(h[n], k) && LastSet(h, k) == Some(h[n])
    ensures Run(h, start, interval).entries[k].value == h[n].value
    ensures forall i :: n < i < |h| ==> !Sets(h[i], k) && !Removes(h[i], k)
    ensures forall j :: n < j <= |h| ==> k in Run(h[..j], start, interval).entries
  {
    hide Step;
    var before, e := h[..|h| - 1], h[|h| - 1];
    assert h[..|h|] == h;
    StepAlive(Run(before, start, interval), e, k, interval);
    if Sets(e, k) {
      n := |h| - 1;
    } else {
      n := LiveEverSince(before, k, start, interval);
      forall j | n < j < |h| ensures k in Run(h[..j], start, interval).entries {
        assert h[..j] == before[..j];
      }
    }
  }

  // ---------------------------------------------------------------- deadlines

  /** A Get of k at `now`, after the events of h, is a hit. */
  ghost predicate HitAt(h: seq<Event>, k: Key, now: int, start: int, interval: int) {
    WellTimed(h + [Read(k, now)], start) && k in Run(h + [Read(k, now)], start, interval).entries
  }

  /** The true deadline of an entry: when it was set, plus its ttl. */
  function Deadline(e: Event): int
    requires e.Set?
  {
    e.now + e.ttl
  }

  /** The exact moments at which k is answered after h: from now on until what is left of its ttl has passed
      since the last sweep. */
  lemma AnsweredUntil(h: seq<Event>, k: Key, now: int, start: int, interval: int)
    requires WellTimed(h, start) && interval > 0
    ensures HitAt(h, k, now, start, interval) <==>
            && Clock(h, start) <= now && LastSet(h, k).Some?
            && now < LastTick(h, start) + LastSet(h, k).value.ttl - Spent(h, k, start, interval)
  {
    hide Spent, Step, Run;
    var h' := h + [Read(k, now)];
    Snoc(h, Read(k, now), start, interval);
    assert h'[..|h'| - 1] == h;
    if WellTimed(h', start) {
      AlwaysAccounted(h', k, start, interval);
      SpentLast(h', k, start, interval);
    }
  }

  function Lateness(lastTick: int, now: int, interval: int): (l: int)
    ensures l >= 0
  {
    if now - lastTick > interval then now - lastTick - interval else 0
  }

  /** By how much, in all, sweeps since the last Set of k came later than one interval after the sweep before. */
  function LateSince(h: seq<Event>, k: Key, start: int, interval: int): (l: int)
    ensures l >= 0
  {
    if h == [] || Sets(h[|h| - 1], k) then 0
    else
      var before, e := h[..|h| - 1], h[|h| - 1];
      LateSince(before, k, start, interval)
      + if e.Sweep? then Lateness(LastTick(before, start), e.now, interval) else 0
  }

  lemma {:induction false} TickWithinDeadline(h: seq<Event>, k: Key, start: int, interval: int)
    requires WellTimed(h, start) && interval > 0 && LastSet(h, k).Some?
    ensures LastTick(h, start) - Spent(h, k, start, interval) <=
            LastSet(h, k).value.now + LateSince(h, k, start, interval)
  {
    hide Spent;
    var before, e := h[..|h| - 1], h[|h| - 1];
    SpentLast(h, k, start, interval);
    Ticks(before, start, interval);
    if !Sets(e, k) {
      TickWithinDeadline(before, k, start, interval);
    }
  }

  /** Every hit is before the true deadline moved by how late the sweeps since its Set were. */
  lemma HitBeforeDeadline(h: seq<Event>, k: Key, now: int, start: int, interval: int)
    requires interval > 0 && HitAt(h, k, now, start, interval)
    ensures WellTimed(h, start) && LastSet(h, k).Some?
    ensures now < Deadline(LastSet(h, k).value) + LateSince(h, k, start, interval)
  {
    Snoc(h, Read(k, now), start, interval);
    AnsweredUntil(h, k, now, start, interval);
    TickWithinDeadline(h, k, start, interval);
  }

  /** All that a hit is: the bytes and the ttl of the latest Set, less what has been spent, the hit's own read
      included; and a time before the deadline, moved by how late sweeps were since then. */
  lemma HitFacts(h: seq<Event>, k: Key, now: int, start: int, interval: int)
    requires WellTimed(h, start) && Clock(h, start) <= now && interval > 0
    ensures var live := Run(h + [Read(k, now)], start, interval).entries;
            k in live ==>
              var last := LastSet(h, k);
              && last.Some?
              && live[k] == Entry(last.value.value, last.value.ttl - Spent(h + [Read(k, now)], k, start, interval))
              && now < Deadline(last.value) + LateSince(h, k, start, interval)
  {
    hide Spent, Run;
    var h' := h + [Read(k, now)];
    Snoc(h, Read(k, now), start, interval);
    assert h'[..|h'| - 1] == h;
    AlwaysAccounted(h', k, start, interval);
    if k in Run(h', start, interval).entries {
      HitBeforeDeadline(h, k, now, start, interval);
    }
  }

  /** Every Get of k that is a hit directly after h comes before the true deadline. */
  ghost predicate InTime(h: seq<Event>, k: Key, start: int, interval: int) {
    forall now :: HitAt(h, k, now, start, interval) ==> LastSet(h, k).Some? && now < Deadline(LastSet(h, k).value)
  }

  /** Exactly when that is so, for any entry, read or not: the last sweep, less what has been spent, is no later than
      the Set, unless the time in which the entry would still be answered is over already. */
  lemma InTimeIff(h: seq<Event>, k: Key, start: int, interval: int)
    requires WellTimed(h, start) && interval > 0
    ensures InTime(h, k, start, interval) <==>
            (LastSet(h, k).Some? ==>
               var left := LastTick(h, start) - Spent(h, k, start, interval);
               left <= LastSet(h, k).value.now || left + LastSet(h, k).value.ttl <= Clock(h, start))
  {
    hide Spent, HitAt, Run, Clock, LastTick;
    forall now ensures HitAt(h, k, now, start, interval) <==>
                       && Clock(h, start) <= now && LastSet(h, k).Some?
                       && now < LastTick(h, start) + LastSet(h, k).value.ttl - Spent(h, k, start, interval) {
      AnsweredUntil(h, k, now, start, interval);
    }
    if LastSet(h, k).Some? {
      // the first moment from now on that is not before the deadline
      var deadline, clock := Deadline(LastSet(h, k).value), Clock(h, start);
      var now := if deadline < clock then clock else deadline;
      assert InTime(h, k, start, interval) ==> !HitAt(h, k, now, start, interval);
    }
  }

  /** What e sets after h, swept once at t, is a hit at `now`, its deadline past. */
  ghost predicate Overstays(h: seq<Event>, e: Event, t: int, now: int, start: int, interval: int)
    requires e.Set?
  {
    HitAt(h + [e, Sweep(t)], e.key, now, start, interval) && now >= Deadline(e)
  }

  function SweepTimes(h: seq<Event>): seq<int> {
    if h == [] then []
    else SweepTimes(h[..|h| - 1]) + if h[|h| - 1].Sweep? then [h[|h| - 1].now] else []
  }

  lemma OneSweepAfter(h: seq<Event>, e: Event, t: int, start: int, interval: int)
    requires WellTimed(h, start) && e.Set? && e.ttl > SECOND && Clock(h, start) <= e.now <= t
    ensures var h' := h + [e, Sweep(t)];
            && WellTimed(h', start) && LastSet(h', e.key) == Some(e) && Clock(h', start) == t
            && LastTick(h', start) == t && Spent(h', e.key, start, interval) == interval
            && SweepTimes(h') == SweepTimes(h) + [t]
  {
    Snoc(h, e, start, interval);
    Snoc(h + [e], Sweep(t), start, interval);
    var h' := h + [e, Sweep(t)];
    assert h' == h + [e] + [Sweep(t)];
    assert h'[..|h'| - 1] == h + [e] && (h + [e])[..|h + [e]| - 1] == h;
    SpentLast(h', e.key, start, interval);
    SpentLast(h + [e], e.key, start, interval);
  }

  /** What one sweep does to the deadline of an item set before it, at any time since the sweep before that: there is
      a ttl with which the item outlives its deadline exactly if the sweep comes more than an interval after the Set. */
  lemma LateForASet(h: seq<Event>, k: Key, v: seq<byte>, born: int, t: int, start: int, interval: int)
    requires WellTimed(h, start) && interval > 0 && Clock(h, start) <= born <= t
    ensures (exists ttl, now :: ttl > SECOND && Overstays(h, Set(k, v, ttl, born), t, now, start, interval))
            <==> t - born > interval
  {
    hide HitAt;
    forall ttl, now | ttl > SECOND
      ensures HitAt(h + [Set(k, v, ttl, born), Sweep(t)], k, now, start, interval) <==>
              t <= now < t + ttl - interval {
      OneSweepAfter(h, Set(k, v, ttl, born), t, start, interval);
      AnsweredUntil(h + [Set(k, v, ttl, born), Sweep(t)], k, now, start, interval);
    }
    if t - born > interval {
      var ttl := SECOND + 1 + t - born;
      assert Overstays(h, Set(k, v, ttl, born), t, born + ttl, start, interval);
    }
  }

  /** The time of the sweep before the i-th, or of the start. */
  function Before(ticks: seq<int>, start: int, i: nat): int
    requires i <= |ticks|
  {
    if i == 0 then start else ticks[i - 1]
  }

  /** A schedule of sweeps: their times, which do not run backwards. */
  predicate Schedule(ticks: seq<int>, start: int) {
    forall i :: 0 <= i < |ticks| ==> Before(ticks, start, i) <= ticks[i]
  }

  predicate OnTime(ticks: seq<int>, start: int, interval: int) {
    forall i :: 0 <= i < |ticks| ==> ticks[i] - Before(ticks, start, i) <= interval
  }

  /** The run is one of a cache that is swept at these times, as far as it has got. */
  ghost predicate Follows(h: seq<Event>, ticks: seq<int>, start: int) {
    WellTimed(h, start) && SweepTimes(h) <= ticks
  }

  lemma {:induction false} NeverLate(h: seq<Event>, k: Key, ticks: seq<int>, start: int, interval: int)
    requires SweepTimes(h) <= ticks && OnTime(ticks, start, interval)
    ensures LastTick(h, start) == Before(ticks, start, |SweepTimes(h)|)
    ensures LateSince(h, k, start, interval) == 0
  {
    if h == [] {
    } else {
      var before, e := h[..|h| - 1], h[|h| - 1];
      assert SweepTimes(before) <= SweepTimes(h);
      NeverLate(before, k, ticks, start, interval);
      if e.Sweep? {
        assert ticks[|SweepTimes(before)|] == SweepTimes(h)[|SweepTimes(before)|] == e.now;
      }
    }
  }

  lemma OnTimeInTime(h: seq<Event>, k: Key, ticks: seq<int>, start: int, interval: int)
    requires interval > 0 && Follows(h, ticks, start) && OnTime(ticks, start, interval)
    ensures InTime(h, k, start, interval)
  {
    hide HitAt;
    NeverLate(h, k, ticks, start, interval);
    forall now | HitAt(h, k, now, start, interval)
      ensures LastSet(h, k).Some? && now < Deadline(LastSet(h, k).value) {
      HitBeforeDeadline(h, k, now, start, interval);
    }
  }

  lemma SnocTimes(h: seq<Event>, e: Event)
    ensures SweepTimes(h + [e]) == SweepTimes(h) + if e.Sweep? then [e.now] else []
  {
    assert (h + [e])[..|h + [e]| - 1] == h;
  }

  /** A run that sweeps at these times and does nothing else. */
  lemma {:induction false} OnlySweeps(ticks: seq<int>, start: int) returns (h: seq<Event>)
    requires Schedule(ticks, start)
    ensures WellTimed(h, start) && SweepTimes(h) == ticks && Clock(h, start) == Before(ticks, start, |ticks|)
    ensures forall i :: 0 <= i < |h| ==> h[i].Sweep?
  {
    h := [];
    if ticks == [] {
    } else {
      hide WellTimed, Clock, SweepTimes;
      var n := |ticks| - 1;
      assert forall i :: 0 <= i < n ==> Before(ticks[..n], start, i) == Before(ticks, start, i);
      var before := OnlySweeps(ticks[..n], start);
      Snoc(before, Sweep(ticks[n]), start, 1);
      SnocTimes(before, Sweep(ticks[n]));
      h := before + [Sweep(ticks[n])];
    }
  }

  /** An item set just after one sweep, when the next comes too late, outlives its deadline. */
  lemma LateWitness(ticks: seq<int>, k: Key, start: int, interval: int) returns (h: seq<Event>)
    requires interval > 0 && Schedule(ticks, start) && !OnTime(ticks, start, interval)
    ensures Follows(h, ticks, start) && !InTime(h, k, start, interval)
    ensures forall i :: 0 <= i < |h| ==> h[i].Sweep? || Sets(h[i], k)
  {
    hide HitAt, Spent, WellTimed, Clock, SweepTimes, LastSet, LastTick;
    var i: nat :| i < |ticks| && ticks[i] - Before(ticks, start, i) > interval;
    var t, born := ticks[i], Before(ticks, start, i);
    assert forall j :: 0 <= j < i ==> Before(ticks[..i], start, j) == Before(ticks, start, j);
    var swept := OnlySweeps(ticks[..i], start);
    assert Before(ticks[..i], start, i) == born;
    LateForASet(swept, k, [], born, t, start, interval);
    var ttl, now :| ttl > SECOND && Overstays(swept, Set(k, [], ttl, born), t, now, start, interval);
    h := swept + [Set(k, [], ttl, born), Sweep(t)];
    OneSweepAfter(swept, Set(k, [], ttl, born), t, start, interval);
    assert ticks[..i] + [t] == ticks[..i + 1];
  }

  /** For every schedule of sweeps and every key: no run of a cache swept at these times has a hit of the key at or
      after its deadline, if and only if no two sweeps are more than one interval apart. */
  lemma ScheduleInTimeIff(ticks: seq<int>, k: Key, start: int, interval: int)
    requires interval > 0 && Schedule(ticks, start)
    ensures (forall h :: Follows(h, ticks, start) ==> InTime(h, k, start, interval)) <==> OnTime(ticks, start, interval)
  {
    hide InTime, Follows;
    if OnTime(ticks, start, interval) {
      forall h | Follows(h, ticks, start) ensures InTime(h, k, start, interval) {
        OnTimeInTime(h, k, ticks, start, interval);
      }
    } else {
      var h := LateWitness(ticks, k, start, interval);
    }
  }

  /** For instance: in a cache that sweeps every second but is late once, at 4 s, an item set for 5 s at time 0 is
      still answered at 7 s, and until 8 s. */
  lemma LateSweepOverstays(k: Key, v: seq<byte>, now: int)
    ensures Overstays([], Set(k, v, 5 * SECOND, 0), 4 * SECOND, now, 0, SECOND) <==> 5 * SECOND <= now < 8 * SECOND
  {
    var e := Set(k, v, 5 * SECOND, 0);
    assert [] + [e, Sweep(4 * SECOND)] == [e, Sweep(4 * SECOND)];
    OneSweepAfter([], e, 4 * SECOND, 0, SECOND);
    AnsweredUntil([e, Sweep(4 * SECOND)], k, now, 0, SECOND);
  }

  // ---------------------------------------------------------------- eviction

  function CeilDiv(n: int, d: nat): int
    requires d > 0
  {
    (n + d - 1) / d
  }

  lemma TimesMonotone(a: int, b: int, d: nat)
    requires a <= b
    ensures a * d <= b * d
  {
    assert b * d - a * d == (b - a) * d;
  }

  lemma CeilDivCounts(n: int, d: nat, m: int)
    requires d > 0
    ensures m < CeilDiv(n, d) <==> m * d < n
  {
    var q := CeilDiv(n, d);
    assert q * d <= n + d - 1 < q * d + d;
    assert (m + 1) * d == m * d + d;
    if m < q {
      TimesMonotone(m + 1, q, d);
    } else {
      TimesMonotone(q, m, d);
    }
  }

  /** k has not been read since its last Set. */
  predicate Unread(h: seq<Event>, k: Key) {
    h != [] && !Sets(h[|h| - 1], k) ==> !Reads(h[|h| - 1], k) && Unread(h[..|h| - 1], k)
  }

  lemma {:induction false} DrainedByReads(h: seq<Event>, k: Key, start: int)
    requires WellTimed(h, start)
    ensures Drained(h, k, start) >= 0 && (Unread(h, k) ==> Drained(h, k, start) == 0)
  {
    if h == [] {
    } else {
      Ticks(h[..|h| - 1], start, 1);
      DrainedByReads(h[..|h| - 1], k, start);
    }
  }

  /** An item not set again is not live after ceil(ttl / interval) sweeps, whatever else happens. */
  lemma EvictedInTime(h: seq<Event>, k: Key, start: int, interval: int)
    requires WellTimed(h, start) && interval > 0
    ensures k in Run(h, start, interval).entries ==>
              LastSet(h, k).Some? && SweepsSince(h, k) < CeilDiv(LastSet(h, k).value.ttl, interval)
  {
    AlwaysAccounted(h, k, start, interval);
    DrainedByReads(h, k, start);
    if LastSet(h, k).Some? {
      CeilDivCounts(LastSet(h, k).value.ttl, interval, SweepsSince(h, k));
    }
  }

  /** An item that is not read is live, with its bytes and the exact time left, exactly until that sweep, and while
      there has been no Delete of it and no Clear. */
  lemma EvictedExactly(h: seq<Event>, k: Key, start: int, interval: int)
    requires WellTimed(h, start) && interval > 0 && Unread(h, k)
    ensures var live, last := Run(h, start, interval).entries, LastSet(h, k);
            && (k in live <==> last.Some? && SweepsSince(h, k) < CeilDiv(last.value.ttl, interval))
            && (k in live ==>
                  live[k] == Entry(last.value.value, last.value.ttl - SweepsSince(h, k) * interval))
  {
    AlwaysAccounted(h, k, start, interval);
    DrainedByReads(h, k, start);
    if LastSet(h, k).Some? {
      CeilDivCounts(LastSet(h, k).value.ttl, interval, SweepsSince(h, k));
    }
  }
}
