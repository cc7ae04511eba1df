/** A Set that overlaps other operations. The worker writes its file at once; the tree entry comes only later,
    when the caller has the mutex, and any operations may come between the two. */
module Overlap {
  import opened Keys
  import opened Items
  import opened FileSystem
  import opened Linkage
  import PlainMap

  /** What operations see of a cache: the counters in the tree, the files, and the time of the last sweep. */
  datatype View = View(counters: map<Key, int>, files: map<Path, seq<byte>>, lastTick: int)

  /** Each of these is one atomic step: a Set is two of them. */
  datatype Act =
    | Write(key: Key, value: seq<byte>)
    | Insert(key: Key, ttl: int)
    | Get(key: Key, now: int)
    | Has(key: Key, now: int)
    | Delete(key: Key)
    | Clear
    | Sweep(now: int)

  ghost function Dropped(v: View, dir: Path, key: Key): View {
    v.(counters := v.counters - {key}, files := v.files - {PathOf(dir, key)})
  }

  ghost function Aged(v: View, dir: Path, key: Key, now: int): View
    requires key in v.counters
  {
    var left := v.counters[key] - (now - v.lastTick);
    if left > 0 then v.(counters := v.counters[key := left]) else Dropped(v, dir, key)
  }

  ghost function Do(v: View, a: Act, dir: Path, interval: int): View {
    match a
    case Write(k, value) => v.(files := v.files[PathOf(dir, k) := value])
    case Insert(k, ttl) => v.(counters := v.counters[k := ttl])
    case Get(k, now) =>
      if k !in v.counters then v
      else if PathOf(dir, k) !in v.files then v.(counters := v.counters - {k})
      else Aged(v, dir, k, now)
    case Has(k, now) => if k in v.counters then Aged(v, dir, k, now) else v
    case Delete(k) => if k in v.counters then Dropped(v, dir, k) else v
    case Clear => v.(files := v.files - PathsOf(dir, v.counters.Keys))
    case Sweep(now) =>
      View(SweptCounters(v.counters, interval), v.files - PathsOf(dir, Overdue(v.counters, interval)), now)
  }

  /** The steps that look for one key, case by case. */
  lemma DoFind(v: View, key: Key, now: int, dir: Path, interval: int)
    ensures key !in v.counters ==>
              && Do(v, Get(key, now), dir, interval) == v
              && Do(v, Has(key, now), dir, interval) == v
              && Do(v, Delete(key), dir, interval) == v
    ensures key in v.counters ==>
              && Do(v, Get(key, now), dir, interval) ==
                 (if PathOf(dir, key) in v.files then Aged(v, dir, key, now)
                  else v.(counters := v.counters - {key}))
              && Do(v, Has(key, now), dir, interval) == Aged(v, dir, key, now)
              && Do(v, Delete(key), dir, interval) == Dropped(v, dir, key)
  {
  }

  lemma DoSweep(v: View, now: int, dir: Path, interval: int)
    ensures var v' := Do(v, Sweep(now), dir, interval);
            && v'.counters == SweptCounters(v.counters, interval) && v'.lastTick == now
            && v'.files == v.files - PathsOf(dir, Overdue(v.counters, interval))
  {
  }

  ghost function DoAll(v: View, acts: seq<Act>, dir: Path, interval: int): View {
    if acts == [] then v
    else Do(DoAll(v, acts[..|acts| - 1], dir, interval), acts[|acts| - 1], dir, interval)
  }

  // ---------------------------------------------------------------- what happens between the write and the insert

  /** Only keys with files of their own are in the tree. */
  ghost predicate FileKeys(keys: set<Key>) {
    forall k :: k in keys ==> IsFileKey(k)
  }

  /** A step of the cache: only keys with files of their own are ever written or inserted. */
  ghost predicate OverFileKeys(acts: seq<Act>) {
    forall i :: 0 <= i < |acts| && (acts[i].Write? || acts[i].Insert?) ==> IsFileKey(acts[i].key)
  }

  function TickAfter(acts: seq<Act>, tick: int): int {
    if acts == [] then tick
    else if acts[|acts| - 1].Sweep? then acts[|acts| - 1].now
    else TickAfter(acts[..|acts| - 1], tick)
  }

  /** What one step takes from the counter of k. */
  function Cost(a: Act, k: Key, tick: int, interval: int): int {
    if a.Sweep? then interval else if (a.Get? || a.Has?) && a.key == k then a.now - tick else 0
  }

  /** What sweeps and reads of k take, the last sweep before them having been at `tick`. */
  function Taken(acts: seq<Act>, k: Key, tick: int, interval: int): int {
    if acts == [] then 0
    else
      var before, a := acts[..|acts| - 1], acts[|acts| - 1];
      Taken(before, k, tick, interval) + Cost(a, k, TickAfter(before, tick), interval)
  }

  /** Time does not run backwards. */
  predicate Timely(acts: seq<Act>, tick: int) {
    acts != [] ==>
      var before, a := acts[..|acts| - 1], acts[|acts| - 1];
      Timely(before, tick) && (a.Get? || a.Has? || a.Sweep? ==> TickAfter(before, tick) <= a.now)
  }

  function Sweeps(acts: seq<Act>): nat {
    if acts == [] then 0 else Sweeps(acts[..|acts| - 1]) + if acts[|acts| - 1].Sweep? then 1 else 0
  }

  lemma ActsSnoc(acts: seq<Act>, a: Act, tick: int)
    ensures TickAfter(acts + [a], tick) == if a.Sweep? then a.now else TickAfter(acts, tick)
    ensures Sweeps(acts + [a]) == Sweeps(acts) + if a.Sweep? then 1 else 0
    ensures Timely(acts + [a], tick) <==>
            Timely(acts, tick) && (a.Get? || a.Has? || a.Sweep? ==> TickAfter(acts, tick) <= a.now)
  {
    assert (acts + [a])[..|acts + [a]| - 1] == acts;
  }

  lemma {:induction false} TicksFollow(v: View, acts: seq<Act>, dir: Path, interval: int)
    ensures DoAll(v, acts, dir, interval).lastTick == TickAfter(acts, v.lastTick)
  {
    hide PathOf, PathsOf;
    if acts == [] {
    } else {
      TicksFollow(v, acts[..|acts| - 1], dir, interval);
    }
  }

  lemma DoAllSnoc(v: View, acts: seq<Act>, a: Act, dir: Path, interval: int)
    ensures DoAll(v, acts + [a], dir, interval) == Do(DoAll(v, acts, dir, interval), a, dir, interval)
  {
    assert (acts + [a])[..|acts + [a]| - 1] == acts;
  }

  lemma {:induction false} DoAllConcat(v: View, a: seq<Act>, b: seq<Act>, dir: Path, interval: int)
    ensures DoAll(v, a + b, dir, interval) == DoAll(DoAll(v, a, dir, interval), b, dir, interval)
    decreases |b|
  {
    hide Do;
    if b == [] {
      assert a + b == a;
    } else {
      assert (a + b)[..|a + b| - 1] == a + b[..|b| - 1];
      DoAllConcat(v, a, b[..|b| - 1], dir, interval);
    }
  }

  // ---------------------------------------------------------------- one key

  /** What there is of one key: the bytes of its file, and its counter in the tree. */
  datatype Cell = Cell(file: Option<seq<byte>>, time: Option<int>)

  ghost function CellOf(v: View, dir: Path, k: Key): Cell {
    Cell(if PathOf(dir, k) in v.files then Some(v.files[PathOf(dir, k)]) else None,
         if k in v.counters then Some(v.counters[k]) else None)
  }

  function Spend(c: Cell, cost: int): Cell
    requires c.time.Some?
  {
    if c.time.value - cost > 0 then c.(time := Some(c.time.value - cost)) else Cell(None, None)
  }

  /** What one step does to a key, as far as the key itself can tell. */
  function CellStep(c: Cell, a: Act, k: Key, tick: int, interval: int): Cell {
    match a
    case Write(j, value) => if j == k then c.(file := Some(value)) else c
    case Insert(j, ttl) => if j == k then c.(time := Some(ttl)) else c
    case Get(j, now) =>
      if j != k || c.time.None? then c
      else if c.file.None? then Cell(None, None)
      else Spend(c, now - tick)
    case Has(j, now) => if j != k || c.time.None? then c else Spend(c, now - tick)
    case Delete(j) => if j != k || c.time.None? then c else Cell(None, None)
    case Clear => if c.time.None? then c else c.(file := None)
    case Sweep(_) => if c.time.None? then c else Spend(c, interval)
  }

  lemma PathsOfKeys(dir: Path, k: Key, keys: set<Key>)
    requires IsFileKey(k) && FileKeys(keys)
    ensures PathOf(dir, k) in PathsOf(dir, keys) <==> k in keys
  {
    hide PathOf, IsFileKey;
    AllPathsDiffer(dir, k);
  }

  /** Keys do not interfere: what a step does to one key depends on that key alone, whatever the step is. */
  lemma KeysApart(v: View, a: Act, dir: Path, interval: int, k: Key)
    requires IsFileKey(k) && FileKeys(v.counters.Keys) && (a.Write? || a.Insert? ==> IsFileKey(a.key))
    ensures var v' := Do(v, a, dir, interval);
            && FileKeys(v'.counters.Keys)
            && v'.lastTick == (if a.Sweep? then a.now else v.lastTick)
            && CellOf(v', dir, k) == CellStep(CellOf(v, dir, k), a, k, v.lastTick, interval)
  {
    hide PathOf, IsFileKey;
    PathsOfKeys(dir, k, v.counters.Keys);
    PathsOfKeys(dir, k, Overdue(v.counters, interval));
    AllPathsDiffer(dir, k);
  }

  // ---------------------------------------------------------------- the file that a Set has written

  predicate Writes(a: Act, k: Key) {
    a.Write? && a.key == k
  }

  predicate NoneWrites(acts: seq<Act>, k: Key) {
    forall i :: 0 <= i < |acts| ==> !Writes(acts[i], k)
  }

  predicate Inserts(a: Act, k: Key) {
    a.Insert? && a.key == k
  }

  /** Steps that take away the file of a key in the tree, whatever its counter. */
  predicate Ousts(a: Act, k: Key) {
    a.Clear? || (a.Delete? && a.key == k)
  }

  predicate NoneOusts(acts: seq<Act>, k: Key) {
    forall i :: 0 <= i < |acts| ==> !Ousts(acts[i], k)
  }

  /** Steps that lower the counter of k. */
  predicate Lowers(a: Act, k: Key) {
    a.Sweep? || ((a.Get? || a.Has?) && a.key == k)
  }

  /** The counter of k after steps that leave its file alone, from the steps themselves: the ttl of the last Insert
      of k, or else the counter at first, less what sweeps and reads have taken since. */
  function Left(time: Option<int>, acts: seq<Act>, k: Key, tick: int, interval: int): Option<int> {
    if acts == [] then time
    else
      var before, a := acts[..|acts| - 1], acts[|acts| - 1];
      if Inserts(a, k) then Some(a.ttl)
      else
        var left := Left(time, before, k, tick, interval);
        if left.None? then None else Some(left.value - Cost(a, k, TickAfter(before, tick), interval))
  }

  /** No step meets k in the tree and takes its file: no Clear, no Delete of k, no sweep and no read that uses up
      the counter. */
  predicate Spared(time: Option<int>, acts: seq<Act>, k: Key, tick: int, interval: int) {
    acts != [] ==>
      var before, a := acts[..|acts| - 1], acts[|acts| - 1];
      var left := Left(time, before, k, tick, interval);
      && Spared(time, before, k, tick, interval)
      && (left.Some? ==>
            !Ousts(a, k) && (Lowers(a, k) ==> left.value - Cost(a, k, TickAfter(before, tick), interval) > 0))
  }

  lemma SparedStep(c: Cell, a: Act, k: Key, tick: int, interval: int)
    requires !Writes(a, k)
    ensures c.file.None? ==> CellStep(c, a, k, tick, interval).file.None?
    ensures c.file.Some? ==>
              var cost := Cost(a, k, tick, interval);
              var spared := c.time.Some? ==> !Ousts(a, k) && (Lowers(a, k) ==> c.time.value - cost > 0);
              if spared then
                CellStep(c, a, k, tick, interval) ==
                Cell(c.file,
                     if Inserts(a, k) then Some(a.ttl) else if c.time.None? then None else Some(c.time.value - cost))
              else CellStep(c, a, k, tick, interval).file.None?
  {
  }

  /** A file that is there stays, with its bytes, exactly while no step takes it. */
  lemma {:induction false} StaysIffSpared(v: View, acts: seq<Act>, dir: Path, interval: int, k: Key)
    requires IsFileKey(k) && FileKeys(v.counters.Keys) && OverFileKeys(acts)
    requires CellOf(v, dir, k).file.Some? && NoneWrites(acts, k)
    ensures var v', c := DoAll(v, acts, dir, interval), CellOf(v, dir, k);
            && FileKeys(v'.counters.Keys) && v'.lastTick == TickAfter(acts, v.lastTick)
            && (if Spared(c.time, acts, k, v.lastTick, interval) then
                  CellOf(v', dir, k) == Cell(c.file, Left(c.time, acts, k, v.lastTick, interval))
                else CellOf(v', dir, k).file.None?)
  {
    hide CellOf, Do, IsFileKey;
    if acts == [] {
    } else {
      hide CellStep, Writes, Inserts, Ousts, Lowers, Cost;
      var before, a := acts[..|acts| - 1], acts[|acts| - 1];
      assert !Writes(a, k) && (a.Write? || a.Insert? ==> IsFileKey(a.key));
      assert NoneWrites(before, k) && OverFileKeys(before);
      StaysIffSpared(v, before, dir, interval, k);
      var w := DoAll(v, before, dir, interval);
      KeysApart(w, a, dir, interval, k);
      SparedStep(CellOf(w, dir, k), a, k, w.lastTick, interval);
    }
  }

  /** How many steps there are up to the last Write of k. */
  function ToLastWrite(acts: seq<Act>, k: Key): (n: nat)
    ensures n <= |acts| && (n > 0 ==> Writes(acts[n - 1], k))
    ensures n == 0 <==> NoneWrites(acts, k)
    ensures NoneWrites(acts[n..], k)
  {
    if acts == [] then 0
    else if Writes(acts[|acts| - 1], k) then |acts|
    else
      var before := acts[..|acts| - 1];
      assert forall i :: 0 <= i < |before| ==> before[i] == acts[i];
      ToLastWrite(before, k)
  }

  lemma {:induction false} FileKeysKept(v: View, acts: seq<Act>, dir: Path, interval: int, k: Key)
    requires IsFileKey(k) && FileKeys(v.counters.Keys) && OverFileKeys(acts)
    ensures FileKeys(DoAll(v, acts, dir, interval).counters.Keys)
  {
    hide CellOf, CellStep, IsFileKey, Do;
    if acts == [] {
    } else {
      assert OverFileKeys(acts[..|acts| - 1]);
      FileKeysKept(v, acts[..|acts| - 1], dir, interval, k);
      KeysApart(DoAll(v, acts[..|acts| - 1], dir, interval), acts[|acts| - 1], dir, interval, k);
    }
  }

  /** The whole Set: its write, whatever comes between, and its insert. */
  ghost function SetAround(v: View, k: Key, value: seq<byte>, ttl: int, acts: seq<Act>, dir: Path, interval: int)
    : View
  {
    Do(DoAll(Do(v, Write(k, value), dir, interval), acts, dir, interval), Insert(k, ttl), dir, interval)
  }

  /** A Set returns no error and its key is in the tree with its ttl, whatever comes between its write and its insert,
      other Sets of the key included. But the file is there if and only if, since the last write of the key, no Clear,
      no Delete of it, and no sweep or read that used up its counter has met the key in the tree. The bytes are those
      of that last write, which is the Set's own exactly if no other write of the key came between. */
  lemma SetKeepsFileIff(v: View, k: Key, value: seq<byte>, ttl: int, acts: seq<Act>, dir: Path, interval: int)
    requires IsFileKey(k) && FileKeys(v.counters.Keys) && OverFileKeys(acts)
    ensures var v', n := SetAround(v, k, value, ttl, acts, dir, interval), ToLastWrite(acts, k);
            var w := DoAll(Do(v, Write(k, value), dir, interval), acts[..n], dir, interval);
            && CellOf(v', dir, k).time == Some(ttl)
            && (CellOf(v', dir, k).file.Some? <==>
                  Spared(CellOf(w, dir, k).time, acts[n..], k, w.lastTick, interval))
            && (CellOf(v', dir, k).file.Some? ==>
                  CellOf(v', dir, k).file.value == if n == 0 then value else acts[n - 1].value)
            && (n == 0 <==> NoneWrites(acts, k))
  {
    hide CellOf, Do, IsFileKey, Spared, Left;
    var v1, n := Do(v, Write(k, value), dir, interval), ToLastWrite(acts, k);
    KeysApart(v, Write(k, value), dir, interval, k);
    assert OverFileKeys(acts[..n]) && OverFileKeys(acts[n..]) && acts[..n] + acts[n..] == acts;
    FileKeysKept(v1, acts[..n], dir, interval, k);
    var w := DoAll(v1, acts[..n], dir, interval);
    if n == 0 {
      assert CellOf(w, dir, k).file == Some(value);
    } else {
      assert acts[..n][..n - 1] == acts[..n - 1] && OverFileKeys(acts[..n - 1]);
      FileKeysKept(v1, acts[..n - 1], dir, interval, k);
      KeysApart(DoAll(v1, acts[..n - 1], dir, interval), acts[n - 1], dir, interval, k);
    }
    StaysIffSpared(w, acts[n..], dir, interval, k);
    DoAllConcat(v1, acts[..n], acts[n..], dir, interval);
    KeysApart(DoAll(v1, acts, dir, interval), Insert(k, ttl), dir, interval, k);
  }

  /** Time does not run backwards, and no step is part of another Set of k. */
  predicate Alone(acts: seq<Act>, k: Key, tick: int) {
    Timely(acts, tick) && forall i :: 0 <= i < |acts| ==> !Writes(acts[i], k) && !Inserts(acts[i], k)
  }

  lemma {:induction false} SparedAlone(time: Option<int>, acts: seq<Act>, k: Key, tick: int, interval: int)
    requires Alone(acts, k, tick) && interval > 0 && (time.Some? ==> time.value > 0)
    ensures Taken(acts, k, tick, interval) >= 0
    ensures Left(time, acts, k, tick, interval) ==
            if time.None? then None else Some(time.value - Taken(acts, k, tick, interval))
    ensures Spared(time, acts, k, tick, interval) <==>
            time.Some? ==> NoneOusts(acts, k) && Taken(acts, k, tick, interval) < time.value
  {
    if acts == [] {
    } else {
      var before, a := acts[..|acts| - 1], acts[|acts| - 1];
      assert NoneOusts(acts, k) <==> NoneOusts(before, k) && !Ousts(a, k);
      SparedAlone(time, before, k, tick, interval);
    }
  }

  /** With no other Set of the key in between: the file is there if and only if the key was not in the tree before, or
      there was no Clear and no Delete of it and the sweeps and reads in between left its old counter positive. */
  lemma LoneSetKeepsFileIff(v: View, k: Key, value: seq<byte>, ttl: int, acts: seq<Act>, dir: Path, interval: int)
    requires IsFileKey(k) && FileKeys(v.counters.Keys) && OverFileKeys(acts) && Alone(acts, k, v.lastTick)
    requires interval > 0 && (k in v.counters ==> v.counters[k] > 0)
    ensures CellOf(SetAround(v, k, value, ttl, acts, dir, interval), dir, k) ==
            Cell(if k in v.counters ==>
                    NoneOusts(acts, k) && Taken(acts, k, v.lastTick, interval) < v.counters[k]
                 then Some(value) else None,
                 Some(ttl))
  {
    hide IsFileKey, PathOf, Spared, Left, NoneOusts, Taken;
    assert NoneWrites(acts, k) && acts[0..] == acts && acts[..0] == [];
    SetKeepsFileIff(v, k, value, ttl, acts, dir, interval);
    SparedAlone(CellOf(v, dir, k).time, acts, k, v.lastTick, interval);
  }

  /** For instance: an item with a second left is set again for a minute, a sweep comes between, and a Get of the item
      just set then does not find it. */
  lemma SweptAway(v: View, k: Key, value: seq<byte>, dir: Path, now: int)
    requires IsFileKey(k) && FileKeys(v.counters.Keys) && k in v.counters && v.counters[k] == SECOND
    requires v.lastTick <= now
    ensures var v' := SetAround(v, k, value, 60 * SECOND, [Sweep(now)], dir, SECOND);
            && CellOf(v', dir, k) == Cell(None, Some(60 * SECOND))
            && CellOf(Do(v', Get(k, now), dir, SECOND), dir, k) == Cell(None, None)
  {
    hide PathOf, IsFileKey;
    assert [Sweep(now)][..0] == [];
    assert Timely([], v.lastTick) && TickAfter([], v.lastTick) == v.lastTick;
    assert Timely([Sweep(now)], v.lastTick);
    LoneSetKeepsFileIff(v, k, value, 60 * SECOND, [Sweep(now)], dir, SECOND);
  }

  /** Two Sets of one key that overlap can leave the bytes of one with the ttl of the other; and if a Clear comes
      in between as well, even a key that was not in the tree before is left without its file. */
  lemma TwoSetsMixed(v: View, k: Key, mine: seq<byte>, ttl: int, theirs: seq<byte>, other: int, dir: Path,
                     interval: int)
    requires IsFileKey(k) && FileKeys(v.counters.Keys)
    ensures var acts := [Write(k, theirs), Insert(k, other)];
            && CellOf(SetAround(v, k, mine, ttl, acts, dir, interval), dir, k) == Cell(Some(theirs), Some(ttl))
            && CellOf(SetAround(v, k, mine, ttl, acts + [Clear], dir, interval), dir, k) == Cell(None, Some(ttl))
  {
    hide PathOf, IsFileKey, CellOf, Do;
    var a, b := Write(k, theirs), Insert(k, other);
    var v1 := Do(v, Write(k, mine), dir, interval);
    var v2 := Do(v1, a, dir, interval);
    var v3 := Do(v2, b, dir, interval);
    var v4 := Do(v3, Clear, dir, interval);
    assert [] + [a] == [a] && [a] + [b] == [a, b];
    DoAllSnoc(v1, [], a, dir, interval);
    DoAllSnoc(v1, [a], b, dir, interval);
    DoAllSnoc(v1, [a, b], Clear, dir, interval);
    KeysApart(v, Write(k, mine), dir, interval, k);
    KeysApart(v1, a, dir, interval, k);
    KeysApart(v2, b, dir, interval, k);
    KeysApart(v3, Clear, dir, interval, k);
    KeysApart(v3, Insert(k, ttl), dir, interval, k);
    KeysApart(v4, Insert(k, ttl), dir, interval, k);
  }

  // ---------------------------------------------------------------- how long an entry stays in the tree

  predicate NoneInserts(acts: seq<Act>, k: Key) {
    forall i :: 0 <= i < |acts| ==> !Inserts(acts[i], k)
  }

  /** Steps that neither read, nor delete, nor insert k. They may clear the cache and write k's file. */
  predicate LeavesEntry(a: Act, k: Key) {
    a.Write? || a.Clear? || a.Sweep? || a.key != k
  }

  predicate AllLeaveEntry(acts: seq<Act>, k: Key) {
    forall i :: 0 <= i < |acts| ==> LeavesEntry(acts[i], k)
  }

  lemma EntryStep(v: View, a: Act, dir: Path, interval: int, k: Key)
    requires interval > 0 && !Inserts(a, k) && (a.Get? || a.Has? ==> v.lastTick <= a.now)
    requires k in v.counters ==> v.counters[k] > 0
    ensures var v', cost := Do(v, a, dir, interval), if a.Sweep? then interval else 0;
            && v'.lastTick == (if a.Sweep? then a.now else v.lastTick)
            && (k in v'.counters ==> k in v.counters && 0 < v'.counters[k] <= v.counters[k] - cost)
            && (LeavesEntry(a, k) && k in v.counters ==>
                  (k in v'.counters <==> v.counters[k] - cost > 0)
                  && (k in v'.counters ==> v'.counters[k] == v.counters[k] - cost))
  {
    hide PathOf, PathsOf;
  }

  lemma {:induction false} EntryLeft(v: View, acts: seq<Act>, dir: Path, interval: int, k: Key)
    requires k in v.counters && v.counters[k] > 0 && interval > 0
    requires NoneInserts(acts, k) && Timely(acts, v.lastTick)
    ensures var v', left := DoAll(v, acts, dir, interval), v.counters[k] - Sweeps(acts) * interval;
            && v'.lastTick == TickAfter(acts, v.lastTick)
            && (k in v'.counters ==> 0 < v'.counters[k] <= left)
            && (AllLeaveEntry(acts, k) ==>
                  (k in v'.counters <==> left > 0) && (k in v'.counters ==> v'.counters[k] == left))
  {
    if acts == [] {
    } else {
      hide Do, Inserts, LeavesEntry;
      var before, a := acts[..|acts| - 1], acts[|acts| - 1];
      assert !Inserts(a, k);
      assert AllLeaveEntry(acts, k) <==> AllLeaveEntry(before, k) && LeavesEntry(a, k);
      EntryLeft(v, before, dir, interval, k);
      EntryStep(DoAll(v, before, dir, interval), a, dir, interval, k);
      assert (Sweeps(before) + 1) * interval == Sweeps(before) * interval + interval;
    }
  }

  /** An entry of the tree, whether or not it still has its file, that is not inserted again is gone after at most
      ceil(time left / interval) sweeps, whatever else happens. One that is not read or deleted either is there, with
      exactly the time left, until that sweep; Clears and writes of its file change nothing of that. */
  lemma EntryEvicted(v: View, acts: seq<Act>, dir: Path, interval: int, k: Key)
    requires k in v.counters && v.counters[k] > 0 && interval > 0
    requires NoneInserts(acts, k) && Timely(acts, v.lastTick)
    ensures var after, time := DoAll(v, acts, dir, interval).counters, v.counters[k];
            && (k in after ==> Sweeps(acts) < PlainMap.CeilDiv(time, interval))
            && (AllLeaveEntry(acts, k) ==>
                  && (k in after <==> Sweeps(acts) < PlainMap.CeilDiv(time, interval))
                  && (k in after ==> after[k] == time - Sweeps(acts) * interval))
  {
    hide AllLeaveEntry, NoneInserts, PlainMap.CeilDiv;
    EntryLeft(v, acts, dir, interval, k);
    PlainMap.CeilDivCounts(v.counters[k], interval, Sweeps(acts));
  }
}
