/** Whole runs of one file cache: any list of operations, one after the other, from a directory
    with no files of its own. */
module Session {
  import opened Keys
  import opened Items
  import opened FileSystem
  import opened PlainMap
  import opened FileCaches
  import Overlap
  import Trees

  datatype Op =
    | SetOp(key: Key, value: seq<byte>, ttl: int)
    | GetOp(key: Key)
    | HasOp(key: Key)
    | DeleteOp(key: Key)
    | ClearOp
    | SweepOp

  datatype Timed = Timed(op: Op, now: int)

  /** The plain map's step for an operation, if it is one: refused keys and short TTLs are none. */
  function EventOf(t: Timed): Option<Event> {
    match t.op
    case SetOp(k, v, ttl) => if ttl > SECOND && IsFileKey(k) then Some(Event.Set(k, v, ttl, t.now)) else None
    case GetOp(k) => if IsValidKey(k) then Some(Read(k, t.now)) else None
    case HasOp(k) => Some(Read(k, t.now))
    case DeleteOp(k) => if IsValidKey(k) then Some(Event.Delete(k)) else None
    case ClearOp => Some(Event.Clear)
    case SweepOp => Some(Sweep(t.now))
  }

  function Recorded(ops: seq<Timed>): seq<Event> {
    if ops == [] then []
    else
      var before, e := Recorded(ops[..|ops| - 1]), EventOf(ops[|ops| - 1]);
      if e.Some? then before + [e.value] else before
  }

  /** Time does not run backwards. */
  predicate Chronological(ops: seq<Timed>, start: int) {
    forall i :: 0 <= i < |ops| ==> start <= ops[i].now && (i > 0 ==> ops[i - 1].now <= ops[i].now)
  }

  lemma ChronologicalBefore(ops: seq<Timed>, start: int)
    requires Chronological(ops, start) && ops != []
    ensures Chronological(ops[..|ops| - 1], start) && start <= ops[|ops| - 1].now
    ensures |ops| > 1 ==> ops[|ops| - 2].now <= ops[|ops| - 1].now
  {
  }

  lemma RecordedLast(ops: seq<Timed>)
    requires ops != []
    ensures var before, e := Recorded(ops[..|ops| - 1]), EventOf(ops[|ops| - 1]);
            Recorded(ops) == if e.Some? then before + [e.value] else before
  {
  }

  lemma EventTimes(t: Timed)
    requires EventOf(t).Some?
    ensures var e := EventOf(t).value;
            (e.Set? || e.Read? || e.Sweep? ==> e.now == t.now) && (e.Set? ==> e.ttl > SECOND)
  {
  }

  lemma {:induction false} ClockOfRecorded(ops: seq<Timed>, start: int)
    requires Chronological(ops, start)
    ensures WellTimed(Recorded(ops), start)
    ensures Clock(Recorded(ops), start) <= if ops == [] then start else ops[|ops| - 1].now
  {
    if ops == [] {
    } else {
      hide *;
      ChronologicalBefore(ops, start);
      RecordedLast(ops);
      ClockOfRecorded(ops[..|ops| - 1], start);
      if EventOf(ops[|ops| - 1]).Some? {
        EventTimes(ops[|ops| - 1]);
        Snoc(Recorded(ops[..|ops| - 1]), EventOf(ops[|ops| - 1]).value, start, 1);
      }
    }
  }

  /** What the plain map answers to a read of k, after the run of which that read is the last step. */
  function PlainAnswer(h: seq<Event>, k: Key, start: int, interval: int): GetResult {
    var live := Run(h, start, interval).entries;
    if k in live then Hit(live[k].value, live[k].ttl) else NotFound
  }

  // ---------------------------------------------------------------- what the operations do to tree and files

  /** The steps on counters and files that an operation makes, if it is not refused. */
  function ActsOf(t: Timed): seq<Overlap.Act> {
    match t.op
    case SetOp(k, v, ttl) =>
      if ttl > SECOND && IsFileKey(k) then [Overlap.Write(k, v), Overlap.Insert(k, ttl)] else []
    case GetOp(k) => if IsValidKey(k) then [Overlap.Get(k, t.now)] else []
    case HasOp(k) => [Overlap.Has(k, t.now)]
    case DeleteOp(k) => if IsValidKey(k) then [Overlap.Delete(k)] else []
    case ClearOp => [Overlap.Clear]
    case SweepOp => [Overlap.Sweep(t.now)]
  }

  function AllActs(ops: seq<Timed>): seq<Overlap.Act> {
    if ops == [] then [] else AllActs(ops[..|ops| - 1]) + ActsOf(ops[|ops| - 1])
  }

  /** A cache's directory, the files in it at first, when its worker started, and its interval. */
  datatype Setup = Setup(dir: Path, files: map<Path, seq<byte>>, start: int, interval: int)

  /** Counters and files after ops. */
  ghost function Seen(c: Setup, ops: seq<Timed>): Overlap.View {
    Overlap.DoAll(Overlap.View(map[], c.files, c.start), AllActs(ops), c.dir, c.interval)
  }

  lemma SeenNext(c: Setup, ops: seq<Timed>, n: nat)
    requires n < |ops|
    ensures Seen(c, ops[..n + 1]) == Overlap.DoAll(Seen(c, ops[..n]), ActsOf(ops[n]), c.dir, c.interval)
  {
    hide Overlap.DoAll;
    assert ops[..n + 1][..n] == ops[..n];
    Overlap.DoAllConcat(Overlap.View(map[], c.files, c.start), AllActs(ops[..n]), ActsOf(ops[n]), c.dir, c.interval);
  }

  /** The two ways an operation ends the program: a Get of an invalid key while the tree is not empty, and a Delete of
      a valid key that is not in the tree. */
  predicate Ends(op: Op, before: Overlap.View) {
    || (op.GetOp? && !IsValidKey(op.key) && before.counters != map[])
    || (op.DeleteOp? && IsValidKey(op.key) && op.key !in before.counters)
  }

  /** No operation of ops ends the program. */
  ghost predicate Completes(c: Setup, ops: seq<Timed>) {
    forall i :: 0 <= i < |ops| ==> !Ends(ops[i].op, Seen(c, ops[..i]))
  }

  // ---------------------------------------------------------------- whole runs

  datatype Answer =
    | Stored(inserted: bool, err: Option<SetError>)
    | Got(get: GetResult)
    | Had(ttl: int, has: bool)
    | Deletion(result: DeleteResult)
    | Cleared(errors: nat)
    | Swept(panicked: bool)

  /** What an operation is answered, from the counters and files before it and, for a Get of a valid key, from the
      plain map's run h, that read included. */
  ghost function Expected(t: Timed, before: Overlap.View, h: seq<Event>, start: int, interval: int): Answer {
    match t.op
    case SetOp(k, _, ttl) =>
      var err := if ttl <= SECOND then Some(BadItem(TtlTooShort))
                 else if CheckKey(k).Some? then Some(BadItem(ItemError.BadKey(CheckKey(k).value)))
                 else if k == DOTDOT then Some(NotWritten(Failed(IsDirectory)))
                 else None;
      Stored(err.None? && k !in before.counters, err)
    case GetOp(k) => Got(if IsValidKey(k) then PlainAnswer(h, k, start, interval) else NotFound)
    case HasOp(k) =>
      var left := if k in before.counters then before.counters[k] - (t.now - before.lastTick) else 0;
      if left > 0 then Had(left, true) else Had(0, false)
    case DeleteOp(k) => Deletion(if CheckKey(k).Some? then DeleteResult.BadKey(CheckKey(k).value) else Deleted)
    case ClearOp => Cleared(0)
    case SweepOp => Swept(false)
  }

  lemma ShortRuns(v: Overlap.View, acts: seq<Overlap.Act>, dir: Path, interval: int)
    ensures acts == [] ==> Overlap.DoAll(v, acts, dir, interval) == v
    ensures |acts| == 1 ==> Overlap.DoAll(v, acts, dir, interval) == Overlap.Do(v, acts[0], dir, interval)
  {
    hide Overlap.Do;
    if |acts| == 1 {
      assert acts[..0] == [];
    }
  }

  lemma WriteThenInsert(v: Overlap.View, k: Key, value: seq<byte>, ttl: int, dir: Path, interval: int)
    ensures Overlap.DoAll(v, [Overlap.Write(k, value), Overlap.Insert(k, ttl)], dir, interval) ==
            Overlap.SetAround(v, k, value, ttl, [], dir, interval)
  {
    hide Overlap.Do;
    var write, insert := Overlap.Write(k, value), Overlap.Insert(k, ttl);
    assert [] + [write] == [write] && [write] + [insert] == [write, insert];
    Overlap.DoAllSnoc(v, [], write, dir, interval);
    Overlap.DoAllSnoc(v, [write], insert, dir, interval);
    assert Overlap.DoAll(v, [], dir, interval) == v;
    var v1 := Overlap.Do(v, write, dir, interval);
    assert Overlap.DoAll(v1, [], dir, interval) == v1;
  }

  /** One operation on the cache. */
  method Perform(c: FileCache, t: Timed) returns (a: Answer, ended: bool)
    requires c.Valid() && Clock(c.history, c.start) <= t.now
    modifies c, c.cache, Trees.Nodes(c.cache.tree), Trees.Elems(c.cache.tree)
    ensures c.Valid()
    ensures fresh(Trees.Nodes(c.cache.tree) - old(Trees.Nodes(c.cache.tree)))
    ensures fresh(Trees.Elems(c.cache.tree) - old(Trees.Elems(c.cache.tree)))
    ensures ended <==> Ends(t.op, old(c.View()))
    ensures !ended ==>
              && c.history == old(c.history) + (if EventOf(t).Some? then [EventOf(t).value] else [])
              && c.View() == Overlap.DoAll(old(c.View()), ActsOf(t), c.dir, c.cleanupInterval)
              && a == Expected(t, old(c.View()), c.history, c.start, c.cleanupInterval)
  {
    hide Less, Run, Clock, HashOf, FileCache.Steady, FileCache.Valid, Counters, CheckKey, Trees.BST, Trees.Rep,
      SweepStep, Overlap.Do, Overlap.DoAll, Overlap.SetAround, LastSet, LateSince, Spent;
    ghost var v := c.View();
    ShortRuns(v, ActsOf(t), c.dir, c.cleanupInterval);
    match t.op {
      case SetOp(k, value, ttl) =>
        var inserted, err := c.Set(k, value, ttl, t.now);
        WriteThenInsert(v, k, value, ttl, c.dir, c.cleanupInterval);
        a, ended := Stored(inserted, err), false;
      case GetOp(k) =>
        var r := c.Get(k, t.now);
        a, ended := Got(r), r.Crash?;
      case HasOp(k) =>
        var ttl, has := c.Has(k, t.now);
        a, ended := Had(ttl, has), false;
      case DeleteOp(k) =>
        var r := c.Delete(k);
        a, ended := Deletion(r), r.Fatal?;
      case ClearOp =>
        var errors := c.Clear();
        a, ended := Cleared(errors), false;
      case SweepOp =>
        var panicked := c.Tick(t.now);
        a, ended := Swept(panicked), false;
    }
  }

  /** The same answers from the operations alone: the i-th of ops, after those before it. */
  ghost function Predicted(c: Setup, ops: seq<Timed>, i: nat): Answer
    requires i < |ops|
  {
    Expected(ops[i], Seen(c, ops[..i]), Recorded(ops[..i + 1]), c.start, c.interval)
  }

  lemma NothingDone(c: FileCache, setup: Setup)
    requires c.cache.tree == Trees.Leaf && c.lastTick == c.start && c.fs.files == setup.files && c.start == setup.start
    ensures c.View() == Seen(setup, []) && Recorded([]) == []
    ensures Trees.Nodes(c.cache.tree) == {} && Trees.Elems(c.cache.tree) == {}
  {
  }

  lemma FirstEnds(c: Setup, ops: seq<Timed>, n: nat)
    requires n < |ops| && Ends(ops[n].op, Seen(c, ops[..n]))
    requires forall i :: 0 <= i < n ==> !Ends(ops[i].op, Seen(c, ops[..i]))
    ensures !Completes(c, ops) && Completes(c, ops[..n])
  {
    hide Ends, Seen;
    forall i | 0 <= i < n ensures !Ends(ops[..n][i].op, Seen(c, ops[..n][..i])) {
      assert ops[..n][..i] == ops[..i];
    }
  }

  /** The next operation is not before the last recorded one, and how it goes on record. */
  lemma NextRecorded(ops: seq<Timed>, n: nat, start: int)
    requires Chronological(ops, start) && n < |ops|
    ensures Clock(Recorded(ops[..n]), start) <= ops[n].now
    ensures var before, e := Recorded(ops[..n]), EventOf(ops[n]);
            Recorded(ops[..n + 1]) == before + if e.Some? then [e.value] else []
  {
    hide EventOf, Clock;
    assert ops[..n + 1][..n] == ops[..n];
    ClockOfRecorded(ops[..n], start);
  }

  /** Every operation of every run is answered as the operations before it say. A run stops early exactly at the first
      Get of an invalid key while the tree is not empty, or Delete of a valid key that is not in the tree. */
  method Play(dir: Path, interval: int, fs: FS, start: int, ops: seq<Timed>) returns (answers: seq<Answer>)
    requires interval > 0 && Sound(fs, dir) && Chronological(ops, start)
    requires forall k :: IsFileKey(k) ==> PathOf(dir, k) !in fs.files
    ensures var c := Setup(dir, fs.files, start, interval);
            && |answers| <= |ops| && Completes(c, ops[..|answers|])
            && (|answers| < |ops| <==> !Completes(c, ops))
            && (|answers| < |ops| ==> Ends(ops[|answers|].op, Seen(c, ops[..|answers|])))
            && (forall i :: 0 <= i < |answers| ==> answers[i] == Predicted(c, ops, i))
  {
    hide Less, EventOf, FileCache.Valid, Run, Clock, Sound, IsValidKey, IsFileKey, PlainAnswer, Ends, Expected, ActsOf,
      Seen, FileCache.View, Recorded, Chronological, PathOf, Trees.Nodes, Trees.Elems;
    var c := new FileCache(dir, interval, fs, start);
    ghost var setup := Setup(dir, fs.files, start, interval);
    NothingDone(c, setup);
    answers := [];
    assert ops[..|ops|] == ops && ops[..0] == [];
    while |answers| < |ops|
      invariant |answers| <= |ops| && c.dir == dir && c.start == start && c.cleanupInterval == interval
      invariant c.Valid() && c.history == Recorded(ops[..|answers|]) && c.View() == Seen(setup, ops[..|answers|])
      invariant fresh(c) && fresh(c.cache) && fresh(Trees.Nodes(c.cache.tree)) && fresh(Trees.Elems(c.cache.tree))
      invariant forall i :: 0 <= i < |answers| ==> !Ends(ops[i].op, Seen(setup, ops[..i]))
      invariant forall i :: 0 <= i < |answers| ==> answers[i] == Predicted(setup, ops, i)
      decreases |ops| - |answers|
    {
      var n := |answers|;
      NextRecorded(ops, n, start);
      SeenNext(setup, ops, n);
      ghost var nodes, items := Trees.Nodes(c.cache.tree), Trees.Elems(c.cache.tree);
      label before:
      var a, ended := Perform(c, ops[n]);
      forall x: Trees.Node | x in Trees.Nodes(c.cache.tree) ensures fresh(x) {
        assert x !in nodes ==> fresh@before(x);
      }
      forall x: Item | x in Trees.Elems(c.cache.tree) ensures fresh(x) {
        assert x !in items ==> fresh@before(x);
      }
      if ended {
        FirstEnds(setup, ops, n);
        return;
      }
      answers := answers + [a];
    }
  }

  lemma ReadKeepsOthers(h: seq<Event>, k: Key, now: int, start: int, interval: int)
    requires k in Run(h + [Read(k, now)], start, interval).entries
    ensures k in Run(h, start, interval).entries
  {
    Snoc(h, Read(k, now), start, interval);
  }

  /** What those answers are. A hit goes back to one Set among the operations before it, the n-th recorded: it bears the
      bytes of that Set, and its ttl less what sweeps and reads have taken since; no other Set of the key, no Delete of
      it and no Clear came after, and the key was live after every step since. The hit comes before the deadline
      of that Set, moved by how late the sweeps since then were. */
  lemma HitMeans(ops: seq<Timed>, k: Key, now: int, start: int, interval: int) returns (n: nat)
    requires Chronological(ops + [Timed(GetOp(k), now)], start) && interval > 0 && IsValidKey(k)
    requires PlainAnswer(Recorded(ops + [Timed(GetOp(k), now)]), k, start, interval).Hit?
    ensures var h, h' := Recorded(ops), Recorded(ops + [Timed(GetOp(k), now)]);
            && n < |h| && Sets(h[n], k)
            && PlainAnswer(h', k, start, interval) == Hit(h[n].value, h[n].ttl - Spent(h', k, start, interval))
            && (forall i :: n < i < |h| ==> !Sets(h[i], k) && !Removes(h[i], k))
            && (forall j :: n < j <= |h| ==> k in Run(h[..j], start, interval).entries)
            && now < Deadline(h[n]) + LateSince(h, k, start, interval)
  {
    hide Run, Spent, LateSince, IsValidKey, IsFileKey;
    var h := Recorded(ops);
    ClockOfRecorded(ops + [Timed(GetOp(k), now)], start);
    assert (ops + [Timed(GetOp(k), now)])[..|ops|] == ops;
    Snoc(h, Read(k, now), start, interval);
    HitFacts(h, k, now, start, interval);
    ReadKeepsOthers(h, k, now, start, interval);
    n := LiveEverSince(h, k, start, interval);
  }

  // ---------------------------------------------------------------- deadlines, over all runs of operations

  /** The operation that an event records, at this moment if the event has none of its own. */
  function OpOf(e: Event, now: int): Timed {
    Timed(match e
          case Set(k, v, ttl, _) => SetOp(k, v, ttl)
          case Read(k, _) => GetOp(k)
          case Delete(k) => DeleteOp(k)
          case Clear => ClearOp
          case Sweep(_) => SweepOp,
          now)
  }

  lemma OpOfRecords(e: Event, now: int)
    requires e.Clear? || e.Sweep? || IsFileKey(e.key)
    requires (e.Set? || e.Read? || e.Sweep? ==> e.now == now) && (e.Set? ==> e.ttl > SECOND)
    ensures EventOf(OpOf(e, now)) == Some(e)
  {
    hide CheckKey;
  }

  lemma ChronologicalSnoc(ops: seq<Timed>, t: Timed, start: int)
    requires Chronological(ops, start) && (if ops == [] then start else ops[|ops| - 1].now) <= t.now
    ensures Chronological(ops + [t], start)
  {
  }

  lemma OpTime(e: Event, now: int)
    ensures OpOf(e, now).now == now
  {
  }

  lemma Ticking(h: seq<Event>, start: int)
    requires WellTimed(h, start) && h != []
    ensures WellTimed(h[..|h| - 1], start) && Clock(h[..|h| - 1], start) <= Clock(h, start)
    ensures var e := h[|h| - 1];
            (e.Set? || e.Read? || e.Sweep? ==> e.now == Clock(h, start)) && (e.Set? ==> e.ttl > SECOND)
  {
  }

  /** Operation by operation, ops records the events of h, and ends at the time h has come to. */
  ghost predicate Records(ops: seq<Timed>, h: seq<Event>, start: int) {
    && |ops| == |h| && Recorded(ops) == h && Chronological(ops, start)
    && (forall i :: 0 <= i < |ops| ==> EventOf(ops[i]) == Some(h[i]))
    && (if ops == [] then start else ops[|ops| - 1].now) == Clock(h, start)
  }

  lemma RecordsSnoc(ops: seq<Timed>, h: seq<Event>, e: Event, start: int) returns (t: Timed)
    requires Records(ops, h, start) && WellTimed(h + [e], start)
    requires e.Clear? || e.Sweep? || IsFileKey(e.key)
    ensures Records(ops + [t], h + [e], start)
  {
    hide EventOf, OpOf, Chronological, IsFileKey, Recorded, Clock, WellTimed;
    t := OpOf(e, Clock(h + [e], start));
    assert (h + [e])[..|h|] == h && (ops + [t])[..|ops|] == ops;
    Ticking(h + [e], start);
    OpTime(e, Clock(h + [e], start));
    OpOfRecords(e, t.now);
    ChronologicalSnoc(ops, t, start);
    RecordedLast(ops + [t]);
  }

  lemma RecordsNone(start: int)
    ensures Records([], [], start)
  {
  }

  /** Every run of the plain map over file keys is what some run of operations records. */
  lemma {:induction false} Realised(h: seq<Event>, start: int) returns (ops: seq<Timed>)
    requires WellTimed(h, start)
    requires forall i :: 0 <= i < |h| ==> h[i].Clear? || h[i].Sweep? || IsFileKey(h[i].key)
    ensures Records(ops, h, start)
  {
    hide Records, IsFileKey, WellTimed;
    if h == [] {
      ops := [];
      RecordsNone(start);
    } else {
      var before, e := h[..|h| - 1], h[|h| - 1];
      Ticking(h, start);
      var done := Realised(before, start);
      assert h == before + [e];
      var t := RecordsSnoc(done, before, e, start);
      ops := done + [t];
    }
  }

  /** A Get of k at `now`, after ops, is answered with a value. */
  ghost predicate HitAfter(ops: seq<Timed>, k: Key, now: int, start: int, interval: int) {
    && Chronological(ops + [Timed(GetOp(k), now)], start)
    && PlainAnswer(Recorded(ops + [Timed(GetOp(k), now)]), k, start, interval).Hit?
  }

  /** The sweeps of ops are at these times, as far as ops goes. */
  ghost predicate SweptAt(ops: seq<Timed>, ticks: seq<int>, start: int) {
    Chronological(ops, start) && SweepTimes(Recorded(ops)) <= ticks
  }

  lemma HitAfterIsHitAt(ops: seq<Timed>, k: Key, now: int, start: int, interval: int)
    requires IsValidKey(k)
    ensures HitAfter(ops, k, now, start, interval) <==>
            HitAt(Recorded(ops), k, now, start, interval) && Chronological(ops + [Timed(GetOp(k), now)], start)
  {
    hide Run, IsValidKey, IsFileKey;
    var all := ops + [Timed(GetOp(k), now)];
    assert all[..|all| - 1] == ops;
    if Chronological(all, start) {
      ClockOfRecorded(all, start);
    }
  }

  /** Sets and sweeps never end the program. */
  lemma SetsComplete(c: Setup, ops: seq<Timed>)
    requires forall i :: 0 <= i < |ops| ==> ops[i].op.SetOp? || ops[i].op.SweepOp?
    ensures Completes(c, ops)
  {
  }

  /** A run of Sets and sweeps alone, and a Get after it that comes too late and is answered all the same. */
  lemma LateRun(c: Setup, ticks: seq<int>, k: Key) returns (ops: seq<Timed>, now: int)
    requires c.interval > 0 && Schedule(ticks, c.start) && IsFileKey(k) && !OnTime(ticks, c.start, c.interval)
    ensures SweptAt(ops, ticks, c.start) && Completes(c, ops) && HitAfter(ops, k, now, c.start, c.interval)
    ensures !(LastSet(Recorded(ops), k).Some? && now < Deadline(LastSet(Recorded(ops), k).value))
  {
    hide Run, Recorded, CheckKey, HitAfter, WellTimed, Clock, OnTime, Spent, SweepTimes, Completes;
    var start, interval := c.start, c.interval;
    var h := LateWitness(ticks, k, start, interval);
    ops := Realised(h, start);
    forall i | 0 <= i < |ops| ensures ops[i].op.SetOp? || ops[i].op.SweepOp? {
      assert EventOf(ops[i]) == Some(h[i]) && (h[i].Sweep? || h[i].Set?);
    }
    SetsComplete(c, ops);
    now :| HitAt(h, k, now, start, interval) && !(LastSet(h, k).Some? && now < Deadline(LastSet(h, k).value));
    Snoc(h, Read(k, now), start, interval);
    HitAfterIsHitAt(ops, k, now, start, interval);
  }

  /** For every schedule of sweeps and every key with a file of its own: in all runs of operations that are swept at
      these times and go on to their end, each Get that is answered with a value comes before the deadline of the Set
      it goes back to, if and only if no two sweeps are more than one interval apart. */
  lemma GetsInTimeIff(c: Setup, ticks: seq<int>, k: Key)
    requires c.interval > 0 && Schedule(ticks, c.start) && IsFileKey(k)
    ensures (forall ops, now ::
               SweptAt(ops, ticks, c.start) && Completes(c, ops) && HitAfter(ops, k, now, c.start, c.interval) ==>
               LastSet(Recorded(ops), k).Some? && now < Deadline(LastSet(Recorded(ops), k).value))
            <==> OnTime(ticks, c.start, c.interval)
  {
    hide Run, Recorded, CheckKey, HitAfter, WellTimed, Clock, OnTime, Spent, SweepTimes, Completes;
    var start, interval := c.start, c.interval;
    if OnTime(ticks, start, interval) {
      forall ops, now | SweptAt(ops, ticks, start) && HitAfter(ops, k, now, start, interval)
        ensures LastSet(Recorded(ops), k).Some? && now < Deadline(LastSet(Recorded(ops), k).value) {
        HitAfterIsHitAt(ops, k, now, start, interval);
        ClockOfRecorded(ops, start);
        OnTimeInTime(Recorded(ops), k, ticks, start, interval);
      }
    } else {
      var ops, now := LateRun(c, ticks, k);
    }
  }

  // ---------------------------------------------------------------- entries of the tree, over all runs of operations

  function SweepOps(ops: seq<Timed>): nat {
    if ops == [] then 0 else SweepOps(ops[..|ops| - 1]) + if ops[|ops| - 1].op.SweepOp? then 1 else 0
  }

  /** t stores k anew. */
  predicate Stores(t: Timed, k: Key) {
    t.op.SetOp? && t.op.key == k && t.op.ttl > SECOND && IsFileKey(k)
  }

  /** t stores, reads or deletes k; clearing the cache does none of these. */
  predicate Uses(t: Timed, k: Key) {
    Stores(t, k) || ((t.op.GetOp? || t.op.HasOp? || t.op.DeleteOp?) && t.op.key == k)
  }

  lemma ActTimes(t: Timed)
    ensures var acts := ActsOf(t);
            && |acts| <= 2
            && (forall i :: 0 <= i < |acts| && (acts[i].Get? || acts[i].Has? || acts[i].Sweep?) ==>
                  acts[i].now == t.now)
            && (if t.op.SweepOp? then acts == [Overlap.Sweep(t.now)]
                else forall i :: 0 <= i < |acts| ==> !acts[i].Sweep?)
  {
    hide IsFileKey, IsValidKey;
  }

  lemma ActsTimelyNext(acts: seq<Overlap.Act>, t: Timed, tick: int)
    requires Overlap.Timely(acts, tick) && Overlap.TickAfter(acts, tick) <= t.now
    ensures var after := acts + ActsOf(t);
            && Overlap.Timely(after, tick) && Overlap.TickAfter(after, tick) <= t.now
            && Overlap.Sweeps(after) == Overlap.Sweeps(acts) + if t.op.SweepOp? then 1 else 0
  {
    hide *;
    ActTimes(t);
    var more := ActsOf(t);
    if |more| == 0 {
      assert acts + more == acts;
    } else if |more| == 1 {
      Overlap.ActsSnoc(acts, more[0], tick);
      assert more == [more[0]];
    } else {
      Overlap.ActsSnoc(acts, more[0], tick);
      Overlap.ActsSnoc(acts + [more[0]], more[1], tick);
      assert acts + more == acts + [more[0]] + [more[1]];
    }
  }

  lemma {:induction false} ActsTimely(ops: seq<Timed>, tick: int, from: int)
    requires Chronological(ops, from) && tick <= from
    ensures var acts := AllActs(ops);
            && Overlap.Timely(acts, tick) && Overlap.Sweeps(acts) == SweepOps(ops)
            && Overlap.TickAfter(acts, tick) <= if ops == [] then from else ops[|ops| - 1].now
  {
    if ops == [] {
    } else {
      hide Chronological, ActsOf, Overlap.Timely, Overlap.TickAfter, Overlap.Sweeps;
      ChronologicalBefore(ops, from);
      ActsTimely(ops[..|ops| - 1], tick, from);
      ActsTimelyNext(AllActs(ops[..|ops| - 1]), ops[|ops| - 1], tick);
    }
  }

  lemma ActsKeepOne(t: Timed, k: Key)
    ensures !Stores(t, k) ==> forall i :: 0 <= i < |ActsOf(t)| ==> !Overlap.Inserts(ActsOf(t)[i], k)
    ensures !Uses(t, k) ==> forall i :: 0 <= i < |ActsOf(t)| ==> Overlap.LeavesEntry(ActsOf(t)[i], k)
  {
    hide IsFileKey, IsValidKey;
  }

  lemma {:induction false} ActsKeep(ops: seq<Timed>, k: Key)
    ensures (forall i :: 0 <= i < |ops| ==> !Stores(ops[i], k)) ==> Overlap.NoneInserts(AllActs(ops), k)
    ensures (forall i :: 0 <= i < |ops| ==> !Uses(ops[i], k)) ==> Overlap.AllLeaveEntry(AllActs(ops), k)
  {
    hide IsFileKey, IsValidKey;
    if ops == [] {
    } else {
      var before, t := ops[..|ops| - 1], ops[|ops| - 1];
      hide ActsOf, Stores, Uses, Overlap.Inserts, Overlap.LeavesEntry;
      ActsKeep(before, k);
      ActsKeepOne(t, k);
    }
  }

  lemma {:induction false} AllActsConcat(a: seq<Timed>, b: seq<Timed>)
    ensures AllActs(a + b) == AllActs(a) + AllActs(b)
    decreases |b|
  {
    hide ActsOf;
    if b == [] {
      assert a + b == a;
    } else {
      assert (a + b)[..|a + b| - 1] == a + b[..|b| - 1];
      AllActsConcat(a, b[..|b| - 1]);
    }
  }

  lemma JustStored(c: Setup, pre: seq<Timed>, t: Timed, k: Key)
    requires Stores(t, k)
    ensures var v := Seen(c, pre + [t]); k in v.counters && v.counters[k] == t.op.ttl > SECOND
  {
    hide Overlap.DoAll, IsFileKey;
    var ops := pre + [t];
    assert ops[..|pre|] == pre && ops[..|pre| + 1] == ops;
    SeenNext(c, ops, |pre|);
    WriteThenInsert(Seen(c, pre), k, t.op.value, t.op.ttl, c.dir, c.interval);
  }

  /** Over every run: an item stored and not stored again is out of the tree after at most ceil(ttl / interval) sweeps,
      cleared or not. One that is not read or deleted either is in the tree, with exactly the time left, until that
      sweep, even when a Clear has taken its file. */
  lemma EntryEvicted(c: Setup, pre: seq<Timed>, t: Timed, post: seq<Timed>, k: Key)
    requires Chronological(pre + [t], c.start) && Chronological(post, t.now) && c.interval > 0
    requires Stores(t, k) && forall i :: 0 <= i < |post| ==> !Stores(post[i], k)
    ensures var after, sweeps := Seen(c, pre + [t] + post).counters, SweepOps(post);
            && (k in after ==> sweeps < CeilDiv(t.op.ttl, c.interval))
            && ((forall i :: 0 <= i < |post| ==> !Uses(post[i], k)) ==>
                  && (k in after <==> sweeps < CeilDiv(t.op.ttl, c.interval))
                  && (k in after ==> after[k] == t.op.ttl - sweeps * c.interval))
  {
    hide Overlap.Timely, Overlap.DoAll, Overlap.Do, Overlap.AllLeaveEntry, Overlap.NoneInserts, CeilDiv, Uses, Stores,
      ActsOf, Chronological, AllActs;
    var v0 := Overlap.View(map[], c.files, c.start);
    ActsTimely(pre + [t], c.start, c.start);
    Overlap.TicksFollow(v0, AllActs(pre + [t]), c.dir, c.interval);
    JustStored(c, pre, t, k);
    var v := Seen(c, pre + [t]);
    ActsTimely(post, v.lastTick, t.now);
    ActsKeep(post, k);
    AllActsConcat(pre + [t], post);
    Overlap.DoAllConcat(v0, AllActs(pre + [t]), AllActs(post), c.dir, c.interval);
    Overlap.EntryEvicted(v, AllActs(post), c.dir, c.interval, k);
  }

  lemma SeenAfterClear(c: Setup, ops: seq<Timed>, now: int)
    ensures var v := Seen(c, ops);
            Seen(c, ops + [Timed(ClearOp, now)]) == Overlap.Do(v, Overlap.Clear, c.dir, c.interval)
  {
    hide Overlap.DoAll, Overlap.Do;
    var cleared := ops + [Timed(ClearOp, now)];
    assert cleared[..|ops|] == ops && cleared[..|ops| + 1] == cleared;
    SeenNext(c, cleared, |ops|);
    ShortRuns(Seen(c, ops), [Overlap.Clear], c.dir, c.interval);
  }

  lemma NotFoundAfterClear(c: Setup, ops: seq<Timed>, k: Key, now: int)
    requires IsValidKey(k)
    ensures PlainAnswer(Recorded(ops + [Timed(ClearOp, now)] + [Timed(GetOp(k), now)]), k, c.start, c.interval)
            == NotFound
  {
    hide Run, IsValidKey, IsFileKey;
    var cleared := ops + [Timed(ClearOp, now)];
    var got := cleared + [Timed(GetOp(k), now)];
    var h := Recorded(ops);
    assert cleared[..|cleared| - 1] == ops && got[..|got| - 1] == cleared;
    assert Recorded(got) == h + [Event.Clear] + [Read(k, now)];
    Snoc(h, Event.Clear, c.start, c.interval);
    Snoc(h + [Event.Clear], Read(k, now), c.start, c.interval);
  }

  /** After a Clear, Has says yes for an item that still has time left, and Get does not find it. */
  lemma YesAfterClear(c: Setup, ops: seq<Timed>, k: Key, now: int)
    requires IsValidKey(k) && k in Seen(c, ops).counters
    requires Seen(c, ops).counters[k] > now - Seen(c, ops).lastTick
    ensures var cleared := ops + [Timed(ClearOp, now)];
            && Predicted(c, cleared + [Timed(HasOp(k), now)], |ops| + 1) ==
               Had(Seen(c, ops).counters[k] - (now - Seen(c, ops).lastTick), true)
            && Predicted(c, cleared + [Timed(GetOp(k), now)], |ops| + 1) == Got(NotFound)
  {
    hide Seen, IsValidKey, PlainAnswer, Recorded;
    var cleared := ops + [Timed(ClearOp, now)];
    var has, got := cleared + [Timed(HasOp(k), now)], cleared + [Timed(GetOp(k), now)];
    assert has[..|ops| + 1] == cleared == got[..|ops| + 1] && got[..|ops| + 2] == got;
    SeenAfterClear(c, ops, now);
    NotFoundAfterClear(c, ops, k, now);
  }

  // ---------------------------------------------------------------- what a Get answers, from the operations alone

  /** The last operation that stored k, unless a Delete of k or a Clear came after it. */
  function LastStore(ops: seq<Timed>, k: Key): (r: Option<Timed>)
    ensures r.Some? ==> Stores(r.value, k)
  {
    if ops == [] then None
    else
      var t := ops[|ops| - 1];
      if Stores(t, k) then Some(t)
      else if t.op.ClearOp? || (t.op.DeleteOp? && t.op.key == k) then None
      else LastStore(ops[..|ops| - 1], k)
  }

  lemma StoreRecorded(t: Timed, k: Key)
    requires IsValidKey(k)
    ensures var e := EventOf(t);
            && (e.Some? && Sets(e.value, k) <==> Stores(t, k))
            && (Stores(t, k) ==> e.value == Event.Set(k, t.op.value, t.op.ttl, t.now))
            && (e.Some? && Removes(e.value, k) <==> t.op.ClearOp? || (t.op.DeleteOp? && t.op.key == k))
  {
    hide IsFileKey, CheckKey;
  }

  lemma {:induction false} LastStoreRecorded(ops: seq<Timed>, k: Key)
    requires IsValidKey(k)
    ensures LastSet(Recorded(ops), k) ==
            match LastStore(ops, k)
            case Some(t) => Some(Event.Set(k, t.op.value, t.op.ttl, t.now))
            case None => None
  {
    if ops == [] {
    } else {
      hide EventOf, Stores, Sets, Removes, IsValidKey, Recorded, LastSet;
      var before, t := ops[..|ops| - 1], ops[|ops| - 1];
      LastStoreRecorded(before, k);
      RecordedLast(ops);
      StoreRecorded(t, k);
      if EventOf(t).Some? {
        LastSetSnoc(Recorded(before), EventOf(t).value, k);
      }
    }
  }

  /** In every run a Get is answered with the bytes last stored for the key, with no Delete of it and no Clear since,
      and with what sweeps and reads have left of that ttl; and with nothing exactly if there is no such operation
      or nothing is left. */
  lemma GetTellsLatest(c: Setup, ops: seq<Timed>, k: Key, now: int)
    requires Chronological(ops + [Timed(GetOp(k), now)], c.start) && c.interval > 0 && IsValidKey(k)
    ensures var last := LastStore(ops, k);
            var spent := Spent(Recorded(ops) + [Read(k, now)], k, c.start, c.interval);
            && (last.Some? ==> Stores(last.value, k))
            && Predicted(c, ops + [Timed(GetOp(k), now)], |ops|) ==
               Got(if last.Some? && spent < last.value.op.ttl
                   then Hit(last.value.op.value, last.value.op.ttl - spent) else NotFound)
  {
    hide Run, Spent, IsFileKey, CheckKey, Seen, LastStore, LastSet, WellTimed, Clock, Chronological, Stores;
    var all := ops + [Timed(GetOp(k), now)];
    assert all[..|all| - 1] == ops && all[..|ops| + 1] == all;
    RecordedLast(all);
    ClockOfRecorded(all, c.start);
    ReadAccounted(Recorded(ops), k, now, c.start, c.interval);
    LastStoreRecorded(ops, k);
  }
}
