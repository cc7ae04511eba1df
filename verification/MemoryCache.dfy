/** The in-memory cache: a map whose entries lose measured time, on every read and on every sweep. */
module MemoryCaches {
  import opened Keys

  datatype MemItem<T> = MemItem(value: T, ttl: int)

  /** An operation on the cache, and the moment of it. */
  datatype Event<T> =
    | Set(key: Key, value: T, ttl: int, now: int)
    | Get(key: Key, now: int)
    | Has(key: Key, now: int)
    | Delete(key: Key)
    | Clear
    | Sweep(now: int)

  predicate Sets<T>(e: Event<T>, k: Key) {
    e.Set? && e.key == k
  }

  predicate Removes<T>(e: Event<T>, k: Key) {
    e.Clear? || (e.Delete? && e.key == k)
  }

  predicate Reads<T>(e: Event<T>, k: Key) {
    (e.Get? || e.Has?) && e.key == k
  }

  // ---------------------------------------------------------------- what a history says of a key

  /** The last Set of k, unless a Delete of k or a Clear came after it. */
  function LastSet<T>(h: seq<Event<T>>, k: Key): (r: Option<Event<T>>)
    ensures r.Some? ==> Sets(r.value, k)
  {
    if h == [] then None
    else
      var e := h[|h| - 1];
      if Sets(e, k) then Some(e) else if Removes(e, k) then None else LastSet(h[..|h| - 1], k)
  }

  /** The time of the last sweep, or of the start. */
  function LastTick<T>(h: seq<Event<T>>, start: int): int {
    if h == [] then start
    else if h[|h| - 1].Sweep? then h[|h| - 1].now
    else LastTick(h[..|h| - 1], start)
  }

  /** No operation is made before the sweep that it comes after. */
  predicate WellTimed<T>(h: seq<Event<T>>, start: int) {
    h != [] ==>
      var before, e := h[..|h| - 1], h[|h| - 1];
      WellTimed(before, start) && (e.Delete? || e.Clear? || LastTick(before, start) <= e.now)
  }

  /** What reads and sweeps have taken since the last Set of k: each of them all the time since the sweep before. */
  function Charged<T>(h: seq<Event<T>>, k: Key, start: int): int {
    if h == [] || Sets(h[|h| - 1], k) then 0
    else
      var before, e := h[..|h| - 1], h[|h| - 1];
      Charged(before, k, start) + if e.Sweep? || Reads(e, k) then e.now - LastTick(before, start) else 0
  }

  /** The sweep before the last Set of k. */
  function TickAtSet<T>(h: seq<Event<T>>, k: Key, start: int): int {
    if h == [] || Sets(h[|h| - 1], k) then LastTick(h, start) else TickAtSet(h[..|h| - 1], k, start)
  }

  /** k has been set and not removed, and no sweep since then has found its ttl used up; reads remove nothing. */
  predicate Kept<T>(h: seq<Event<T>>, k: Key, start: int) {
    if h == [] || Removes(h[|h| - 1], k) then false
    else if Sets(h[|h| - 1], k) then true
    else
      && Kept(h[..|h| - 1], k, start)
      && (h[|h| - 1].Sweep? ==> LastSet(h, k).Some? && Charged(h, k, start) < LastSet(h, k).value.ttl)
  }

  /** The item of a key that is there: the value of its last Set, and that ttl less what has been charged. */
  function Left<T>(h: seq<Event<T>>, k: Key, start: int): MemItem<T>
    requires LastSet(h, k).Some?
  {
    MemItem(LastSet(h, k).value.value, LastSet(h, k).value.ttl - Charged(h, k, start))
  }

  function Deadline<T>(e: Event<T>): int
    requires e.Set?
  {
    e.now + e.ttl
  }

  /** The cache that a history leaves. */
  ghost predicate Holds<T>(cache: map<Key, MemItem<T>>, h: seq<Event<T>>, start: int) {
    forall k ::
      && (k in cache <==> Kept(h, k, start))
      && (k in cache ==> LastSet(h, k).Some? && cache[k] == Left(h, k, start))
  }

  lemma Snoc<T>(h: seq<Event<T>>, e: Event<T>, k: Key, start: int)
    ensures var h' := h + [e];
            && LastTick(h', start) == (if e.Sweep? then e.now else LastTick(h, start))
            && (WellTimed(h', start) <==>
                  WellTimed(h, start) && (e.Delete? || e.Clear? || LastTick(h, start) <= e.now))
            && LastSet(h', k) == (if Sets(e, k) then Some(e) else if Removes(e, k) then None else LastSet(h, k))
            && Charged(h', k, start) ==
               (if Sets(e, k) then 0
                else Charged(h, k, start) + if e.Sweep? || Reads(e, k) then e.now - LastTick(h, start) else 0)
            && (Kept(h', k, start) <==>
                  !Removes(e, k)
                  && (!Sets(e, k) ==>
                        && Kept(h, k, start)
                        && (e.Sweep? ==> LastSet(h', k).Some? && Charged(h', k, start) < LastSet(h', k).value.ttl)))
  {
    assert (h + [e])[..|h + [e]| - 1] == h;
  }

  // ---------------------------------------------------------------- deadlines

  /** k has not been read since its last Set. */
  predicate Unread<T>(h: seq<Event<T>>, k: Key) {
    h != [] && !Sets(h[|h| - 1], k) ==> !Reads(h[|h| - 1], k) && Unread(h[..|h| - 1], k)
  }

  /** Counter plus last sweep never passes the true deadline; of a key never read since it was set it stands still short
      of it, by the time the key was set after a sweep. */
  lemma {:induction false} TickWithinDeadline<T>(h: seq<Event<T>>, k: Key, start: int)
    requires WellTimed(h, start) && LastSet(h, k).Some?
    ensures LastTick(h, start) - Charged(h, k, start) <= LastSet(h, k).value.now
    ensures TickAtSet(h, k, start) <= LastSet(h, k).value.now
    ensures Unread(h, k) ==> LastTick(h, start) - Charged(h, k, start) == TickAtSet(h, k, start)
  {
    var before, e := h[..|h| - 1], h[|h| - 1];
    if !Sets(e, k) {
      TickWithinDeadline(before, k, start);
    }
  }

  /** Over every run: a Get or Has of a key that is there gives a positive time only before the deadline of the last Set
      of the key, and a sweep leaves the key there only before it. A key never read is taken exactly by the first
      sweep at which its ttl has passed since the sweep before its Set. */
  lemma PositiveIsUnexpired<T>(h: seq<Event<T>>, e: Event<T>, k: Key, start: int)
    requires WellTimed(h + [e], start) && Kept(h, k, start) && LastSet(h, k).Some?
    ensures Reads(e, k) && Left(h + [e], k, start).ttl > 0 ==> e.now < Deadline(LastSet(h, k).value)
    ensures e.Sweep? && Kept(h + [e], k, start) ==> e.now < Deadline(LastSet(h, k).value)
    ensures e.Sweep? && Unread(h, k) ==>
              (Kept(h + [e], k, start) <==> e.now < TickAtSet(h, k, start) + LastSet(h, k).value.ttl)
  {
    Snoc(h, e, k, start);
    TickWithinDeadline(h, k, start);
  }

  /** The sweep's whole effect. */
  ghost function Swept<T>(m: map<Key, MemItem<T>>, elapsed: int): map<Key, MemItem<T>> {
    map k | k in m && m[k].ttl - elapsed > 0 :: m[k].(ttl := m[k].ttl - elapsed)
  }

  // ---------------------------------------------------------------- the cache

  /** What a read does, and what a positive time then means. */
  lemma ReadHolds<T>(m: map<Key, MemItem<T>>, h: seq<Event<T>>, e: Event<T>, key: Key, start: int)
    requires WellTimed(h, start) && Holds(m, h, start) && Reads(e, key) && LastTick(h, start) <= e.now
    ensures var tick, h' := LastTick(h, start), h + [e];
            && WellTimed(h', start) && LastTick(h', start) == tick
            && (key !in m ==> Holds(m, h', start))
            && (key in m ==>
                  var left := m[key].ttl - (e.now - tick);
                  && Holds(m[key := m[key].(ttl := left)], h', start) && LastSet(h, key).Some?
                  && (left > 0 ==> e.now < Deadline(LastSet(h, key).value)))
  {
    hide LastSet, Charged, Kept, WellTimed, LastTick;
    Snoc(h, e, key, start);
    if key in m {
      PositiveIsUnexpired(h, e, key, start);
    }
    forall k ensures Kept(h + [e], k, start) <==> Kept(h, k, start)
             ensures LastSet(h + [e], k) == LastSet(h, k)
             ensures k != key ==> Charged(h + [e], k, start) == Charged(h, k, start) {
      Snoc(h, e, k, start);
    }
  }

  /** What the operations that neither read nor sweep do. */
  lemma ChangeHolds<T>(m: map<Key, MemItem<T>>, h: seq<Event<T>>, e: Event<T>, start: int)
    requires WellTimed(h, start) && Holds(m, h, start) && (e.Set? ==> LastTick(h, start) <= e.now)
    requires e.Set? || e.Delete? || e.Clear?
    ensures var h' := h + [e];
            && WellTimed(h', start) && LastTick(h', start) == LastTick(h, start)
            && Holds(match e
                     case Set(k, v, ttl, _) => m[k := MemItem(v, ttl)]
                     case Delete(k) => m - {k}
                     case _ => map[], h', start)
  {
    hide LastSet, Charged, Kept, WellTimed, LastTick;
    Snoc(h, e, [], start);
    forall k ensures Kept(h + [e], k, start) <==> !Removes(e, k) && (Sets(e, k) || Kept(h, k, start))
             ensures LastSet(h + [e], k) ==
                     if Sets(e, k) then Some(e) else if Removes(e, k) then None else LastSet(h, k)
             ensures Charged(h + [e], k, start) == if Sets(e, k) then 0 else Charged(h, k, start) {
      Snoc(h, e, k, start);
    }
  }

  lemma SweepHolds<T>(m: map<Key, MemItem<T>>, h: seq<Event<T>>, now: int, start: int)
    requires WellTimed(h, start) && LastTick(h, start) <= now && Holds(m, h, start)
    ensures var left, h' := Swept(m, now - LastTick(h, start)), h + [Event.Sweep(now)];
            && WellTimed(h', start) && LastTick(h', start) == now && Holds(left, h', start)
            && (forall k :: k in left ==> LastSet(h, k).Some? && now < Deadline(LastSet(h, k).value))
            && (forall k :: k in m && Unread(h, k) ==>
                  && LastSet(h, k).Some?
                  && (k in left <==> now < TickAtSet(h, k, start) + LastSet(h, k).value.ttl))
  {
    hide LastSet, Charged, Kept, WellTimed, LastTick, TickAtSet, Unread;
    var left, e := Swept(m, now - LastTick(h, start)), Event.Sweep(now);
    Snoc(h, e, [], start);
    forall k
      ensures k in left <==> Kept(h + [e], k, start)
      ensures k in left ==> LastSet(h + [e], k).Some? && left[k] == Left(h + [e], k, start)
      ensures k in left ==> LastSet(h, k).Some? && now < Deadline(LastSet(h, k).value)
      ensures k in m && Unread(h, k) ==>
                && LastSet(h, k).Some?
                && (k in left <==> now < TickAtSet(h, k, start) + LastSet(h, k).value.ttl)
    {
      Snoc(h, e, k, start);
      if k in m {
        PositiveIsUnexpired(h, e, k, start);
      }
    }
  }

  class MemoryCache<T> {
    var cache: map<Key, MemItem<T>>
    var lastTick: int
    ghost const start: int
    ghost var history: seq<Event<T>>

    /** The cache is what the operations so far say of each key. */
    ghost predicate Valid()
      reads this
    {
      WellTimed(history, start) && lastTick == LastTick(history, start) && Holds(cache, history, start)
    }

    /** The cache just after its worker has started. */
    constructor (now: int)
      ensures Valid() && cache == map[] && lastTick == start == now && history == []
    {
      cache, lastTick, start, history := map[], now, now, [];
    }

    /** What the next operation does to what the history says of each key. */
    lemma Recorded(e: Event<T>)
      requires Valid() && (e.Delete? || e.Clear? || lastTick <= e.now)
      ensures WellTimed(history + [e], start)
      ensures LastTick(history + [e], start) == if e.Sweep? then e.now else lastTick
      ensures forall k ::
                && LastSet(history + [e], k) ==
                   (if Sets(e, k) then Some(e) else if Removes(e, k) then None else LastSet(history, k))
                && Charged(history + [e], k, start) ==
                   (if Sets(e, k) then 0
                    else Charged(history, k, start) + if e.Sweep? || Reads(e, k) then e.now - lastTick else 0)
      ensures !e.Sweep? ==> forall k ::
                Kept(history + [e], k, start) <==> !Removes(e, k) && (Sets(e, k) || Kept(history, k, start))
    {
      Snoc(history, e, [], start);
      forall k
        ensures LastSet(history + [e], k) ==
                (if Sets(e, k) then Some(e) else if Removes(e, k) then None else LastSet(history, k))
        ensures Charged(history + [e], k, start) ==
                (if Sets(e, k) then 0
                 else Charged(history, k, start) + if e.Sweep? || Reads(e, k) then e.now - lastTick else 0)
        ensures !e.Sweep? ==>
                  (Kept(history + [e], k, start) <==> !Removes(e, k) && (Sets(e, k) || Kept(history, k, start)))
      {
        Snoc(history, e, k, start);
      }
    }

    method Set(key: Key, value: T, ttl: int, now: int) returns (inserted: bool)
      requires Valid() && lastTick <= now
      modifies this
      ensures Valid() && inserted && history == old(history) + [Event.Set(key, value, ttl, now)]
      ensures cache == old(cache)[key := MemItem(value, ttl)] && lastTick == old(lastTick)
    {
      hide Holds, LastSet, Charged, Kept, WellTimed, LastTick;
      ChangeHolds(cache, history, Event.Set(key, value, ttl, now), start);
      cache := cache[key := MemItem(value, ttl)];
      history := history + [Event.Set(key, value, ttl, now)];
      inserted := true;
    }

    /** The entry, if there is one, after losing the time since the last sweep. It is answered
        even when nothing is left; a positive answer means the deadline has not passed. */
    method Get(key: Key, now: int) returns (item: Option<MemItem<T>>)
      requires Valid() && lastTick <= now
      modifies this
      ensures Valid() && lastTick == old(lastTick) && history == old(history) + [Event.Get(key, now)]
      ensures item.None? <==> key !in old(cache)
      ensures item.None? ==> cache == old(cache)
      ensures item.Some? ==>
                && item.value == old(cache)[key].(ttl := old(cache)[key].ttl - (now - lastTick))
                && cache == old(cache)[key := item.value]
                && LastSet(old(history), key).Some?
                && (item.value.ttl > 0 ==> now < Deadline(LastSet(old(history), key).value))
    {
      hide Holds, LastSet, Charged, Kept, WellTimed, LastTick;
      ReadHolds(cache, history, Event.Get(key, now), key, start);
      if key in cache {
        var aged := cache[key].(ttl := cache[key].ttl - (now - lastTick));
        cache := cache[key := aged];
        item := Some(aged);
      } else {
        item := None;
      }
      history := history + [Event.Get(key, now)];
    }

    /** Has lowers the counter as Get does, and says yes for an entry that has run out as well. */
    method Has(key: Key, now: int) returns (ttl: int, has: bool)
      requires Valid() && lastTick <= now
      modifies this
      ensures Valid() && lastTick == old(lastTick) && history == old(history) + [Event.Has(key, now)]
      ensures has <==> key in old(cache)
      ensures ttl == if has then old(cache)[key].ttl - (now - lastTick) else 0
      ensures cache == if has then old(cache)[key := old(cache)[key].(ttl := ttl)] else old(cache)
      ensures has ==> LastSet(old(history), key).Some?
      ensures has && ttl > 0 ==> now < Deadline(LastSet(old(history), key).value)
    {
      hide Holds, LastSet, Charged, Kept, WellTimed, LastTick;
      ReadHolds(cache, history, Event.Has(key, now), key, start);
      ttl, has := 0, key in cache;
      if has {
        ttl := cache[key].ttl - (now - lastTick);
        cache := cache[key := cache[key].(ttl := ttl)];
      }
      history := history + [Event.Has(key, now)];
    }

    method Delete(key: Key) returns (deleted: bool)
      requires Valid()
      modifies this
      ensures Valid() && lastTick == old(lastTick) && history == old(history) + [Event.Delete(key)]
      ensures deleted <==> key in old(cache)
      ensures cache == old(cache) - {key}
    {
      hide Holds, LastSet, Charged, Kept, WellTimed, LastTick;
      ChangeHolds(cache, history, Event.Delete(key), start);
      deleted := key in cache;
      cache, history := cache - {key}, history + [Event.Delete(key)];
    }

    method Clear()
      requires Valid()
      modifies this
      ensures Valid() && cache == map[] && lastTick == old(lastTick) && history == old(history) + [Event.Clear]
    {
      hide Holds, LastSet, Charged, Kept, WellTimed, LastTick;
      ChangeHolds(cache, history, Event.Clear, start);
      cache, history := map[], history + [Event.Clear];
    }

    /** One tick of the worker, at one instant, meeting the entries in any order. Only entries whose deadline is still
        to come stay; an entry never read stays exactly until the first sweep that finds its shortened time used up. */
    method Sweep(now: int)
      requires Valid() && lastTick <= now
      modifies this
      ensures Valid() && lastTick == now && history == old(history) + [Event.Sweep(now)]
      ensures cache == Swept(old(cache), now - old(lastTick))
      ensures forall k :: k in cache ==>
                LastSet(old(history), k).Some? && now < Deadline(LastSet(old(history), k).value)
      ensures forall k :: k in old(cache) && Unread(old(history), k) ==>
                && LastSet(old(history), k).Some?
                && (k in cache <==>
                      now < TickAtSet(old(history), k, start) + LastSet(old(history), k).value.ttl)
    {
      hide Holds, LastSet, Charged, Kept, WellTimed, LastTick, TickAtSet, Unread;
      var todo := cache.Keys;
      while todo != {}
        invariant todo <= cache.Keys <= old(cache).Keys && lastTick == old(lastTick) && history == old(history)
        invariant forall k :: k in todo ==> cache[k] == old(cache)[k]
        invariant forall k :: k in old(cache) && k !in todo ==>
                    (k in cache <==> old(cache)[k].ttl - (now - lastTick) > 0)
        invariant forall k :: k in cache && k !in todo ==>
                    cache[k] == old(cache)[k].(ttl := old(cache)[k].ttl - (now - lastTick))
        decreases todo
      {
        var key :| key in todo;
        var aged := cache[key].(ttl := cache[key].ttl - (now - lastTick));
        cache := cache[key := aged];
        if aged.ttl <= 0 {
          cache := cache - {key};
        }
        todo := todo - {key};
      }
      assert cache == Swept(old(cache), now - lastTick);
      SweepHolds(old(cache), history, now, start);
      history, lastTick := history + [Event.Sweep(now)], now;
    }
  }

  // ---------------------------------------------------------------- whole runs

  datatype Answer<T> = Item(value: T, ttl: int) | Time(ttl: int) | Absent | NoAnswer

  /** What a history alone says the answer to its last operation is. */
  function Expected<T>(h: seq<Event<T>>, start: int): Answer<T>
    requires h != []
  {
    var before, e := h[..|h| - 1], h[|h| - 1];
    if !e.Get? && !e.Has? then NoAnswer
    else if !Kept(before, e.key, start) || LastSet(h, e.key).None? then Absent
    else
      var item := Left(h, e.key, start);
      if e.Get? then Item(item.value, item.ttl) else Time(item.ttl)
  }

  /** The answer is the expected one; and a positive time means that the deadline of the last Set of the key, before
      this operation, has not passed. */
  ghost predicate Correct<T>(a: Answer<T>, h: seq<Event<T>>, start: int)
    requires h != []
  {
    var before, e := h[..|h| - 1], h[|h| - 1];
    && a == Expected(h, start)
    && ((a.Item? || a.Time?) && a.ttl > 0 ==>
          && (e.Get? || e.Has?) && LastSet(before, e.key).Some?
          && e.now < Deadline(LastSet(before, e.key).value))
  }

  lemma {:induction false} TimedSoFar<T>(ops: seq<Event<T>>, n: nat, start: int)
    requires WellTimed(ops, start) && n < |ops|
    ensures ops[n].Delete? || ops[n].Clear? || LastTick(ops[..n], start) <= ops[n].now
    decreases |ops|
  {
    if n < |ops| - 1 {
      assert ops[..|ops| - 1][..n] == ops[..n];
      TimedSoFar(ops[..|ops| - 1], n, start);
    }
  }

  /** One operation on the cache. */
  method Perform<T>(c: MemoryCache<T>, e: Event<T>) returns (a: Answer<T>)
    requires c.Valid() && (e.Delete? || e.Clear? || c.lastTick <= e.now)
    modifies c
    ensures c.Valid() && c.history == old(c.history) + [e]
    ensures Correct(a, c.history, c.start)
  {
    hide LastSet, Charged, Kept, WellTimed, LastTick, TickAtSet, Unread;
    a := NoAnswer;
    c.Recorded(e);
    assert (c.history + [e])[..|c.history + [e]| - 1] == c.history;
    match e {
      case Set(k, v, ttl, now) =>
        var _ := c.Set(k, v, ttl, now);
      case Get(k, now) =>
        var item := c.Get(k, now);
        a := if item.Some? then Item(item.value.value, item.value.ttl) else Absent;
      case Has(k, now) =>
        var ttl, has := c.Has(k, now);
        a := if has then Time(ttl) else Absent;
      case Delete(k) =>
        var _ := c.Delete(k);
      case Clear =>
        c.Clear();
      case Sweep(now) =>
        c.Sweep(now);
    }
  }

  /** Over every run of operations, from the start of the worker, each answer is correct. */
  method Play<T>(start: int, ops: seq<Event<T>>) returns (answers: seq<Answer<T>>)
    requires WellTimed(ops, start)
    ensures |answers| == |ops|
    ensures forall i :: 0 <= i < |ops| ==> Correct(answers[i], ops[..i + 1], start)
  {
    hide Correct, WellTimed;
    var c := new MemoryCache<T>(start);
    answers := [];
    assert ops[..|ops|] == ops;
    while |answers| < |ops|
      invariant |answers| <= |ops| && fresh(c) && c.start == start
      invariant c.Valid() && c.history == ops[..|answers|]
      invariant forall i :: 0 <= i < |answers| ==> Correct(answers[i], ops[..i + 1], start)
      decreases |ops| - |answers|
    {
      var n := |answers|;
      assert ops[..n + 1] == ops[..n] + [ops[n]];
      TimedSoFar(ops, n, start);
      var a := Perform(c, ops[n]);
      answers := answers + [a];
    }
  }
}
