/** How the cache's counters and files stand for the plain map, and that each of its steps keeps them so. */
module Linkage {
  import opened Keys
  import opened Items
  import opened FileSystem
  import opened PlainMap

  /** The live entries are exactly the file keys that have a file. Each is in the tree, with its counter and its bytes.
      The tree may also hold keys whose file a Clear took away. */
  ghost predicate Linked(c: map<Key, int>, files: map<Path, seq<byte>>, dir: Path, s: State) {
    && (forall k :: k in c ==> IsFileKey(k) && c[k] > 0)
    && (forall k :: k in s.entries ==>
          && k in c && c[k] == s.entries[k].ttl
          && PathOf(dir, k) in files && files[PathOf(dir, k)] == s.entries[k].value)
    && (forall k :: IsFileKey(k) && PathOf(dir, k) in files ==> k in s.entries)
  }

  lemma SamePathSameKey(dir: Path, j: Key, k: Key)
    requires IsFileKey(j) && IsFileKey(k) && PathOf(dir, j) == PathOf(dir, k)
    ensures j == k
  {
    PathsInjective(dir, HashOf(j), j, HashOf(k), k);
  }

  lemma AllPathsDiffer(dir: Path, k: Key)
    requires IsFileKey(k)
    ensures forall j :: IsFileKey(j) && PathOf(dir, j) == PathOf(dir, k) ==> j == k
  {
    forall j | IsFileKey(j) && PathOf(dir, j) == PathOf(dir, k) ensures j == k {
      SamePathSameKey(dir, j, k);
    }
  }

  lemma LinkSet(c: map<Key, int>, files: map<Path, seq<byte>>, dir: Path, s: State, e: Event, interval: int)
    requires Linked(c, files, dir, s) && e.Set? && IsFileKey(e.key) && e.ttl > SECOND
    ensures Linked(c[e.key := e.ttl], files[PathOf(dir, e.key) := e.value], dir, Step(s, e, interval))
  {
    hide IsFileKey, PathOf;
    AllPathsDiffer(dir, e.key);
  }

  /** A read of a key with a file: the counter falls in both, or the key goes from both. */
  lemma LinkRead(c: map<Key, int>, files: map<Path, seq<byte>>, dir: Path, s: State, k: Key, now: int)
    requires Linked(c, files, dir, s) && k in c && PathOf(dir, k) in files
    ensures IsFileKey(k) && c[k] > 0
    ensures k in s.entries && s.entries[k].ttl == c[k] && s.entries[k].value == files[PathOf(dir, k)]
    ensures var ttl := c[k] - (now - s.lastTick);
            if ttl > 0 then Linked(c[k := ttl], files, dir, ReadStep(s, k, now))
            else Linked(c - {k}, files - {PathOf(dir, k)}, dir, ReadStep(s, k, now))
  {
    hide IsFileKey, PathOf;
    AllPathsDiffer(dir, k);
  }

  lemma LinkAbsent(c: map<Key, int>, files: map<Path, seq<byte>>, dir: Path, s: State, k: Key)
    requires Linked(c, files, dir, s) && k !in c
    ensures k !in s.entries
  {
  }

  /** A key without a file is not live: what happens to its counter does not show in the plain map. */
  lemma LinkStale(c: map<Key, int>, files: map<Path, seq<byte>>, dir: Path, s: State, k: Key, ttl: int)
    requires Linked(c, files, dir, s) && k in c && PathOf(dir, k) !in files
    ensures k !in s.entries && IsFileKey(k) && c[k] > 0
    ensures Linked(c - {k}, files, dir, s) && files - {PathOf(dir, k)} == files
    ensures ttl > 0 ==> Linked(c[k := ttl], files, dir, s)
  {
    hide IsFileKey, PathOf;
  }

  lemma LinkDelete(c: map<Key, int>, files: map<Path, seq<byte>>, dir: Path, s: State, k: Key, interval: int)
    requires Linked(c, files, dir, s) && k in c
    ensures Linked(c - {k}, files - {PathOf(dir, k)}, dir, Step(s, Delete(k), interval))
  {
    hide IsFileKey, PathOf;
    AllPathsDiffer(dir, k);
  }

  ghost function PathsOf(dir: Path, keys: set<Key>): set<Path> {
    set k | k in keys :: PathOf(dir, k)
  }

  lemma LinkClear(c: map<Key, int>, files: map<Path, seq<byte>>, dir: Path, s: State, interval: int)
    requires Linked(c, files, dir, s)
    ensures Linked(c, files - PathsOf(dir, c.Keys), dir, Step(s, Clear, interval))
  {
    hide IsFileKey, PathOf;
    forall k | IsFileKey(k) && PathOf(dir, k) in files ensures PathOf(dir, k) in PathsOf(dir, c.Keys) {
      assert k in c.Keys;
    }
  }

  /** The counters after a sweep. */
  ghost function SweptCounters(c: map<Key, int>, interval: int): map<Key, int> {
    map k | k in c && c[k] - interval > 0 :: c[k] - interval
  }

  /** The keys a sweep takes. */
  ghost function Overdue(c: map<Key, int>, interval: int): set<Key> {
    set k | k in c && c[k] - interval <= 0
  }

  lemma LinkSweep(c: map<Key, int>, files: map<Path, seq<byte>>, dir: Path, s: State, now: int, interval: int)
    requires Linked(c, files, dir, s)
    ensures Linked(SweptCounters(c, interval), files - PathsOf(dir, Overdue(c, interval)), dir,
                   SweepStep(s, now, interval))
  {
    hide IsFileKey, PathOf;
    var gone := PathsOf(dir, Overdue(c, interval));
    forall k | k in c ensures PathOf(dir, k) in gone <==> c[k] - interval <= 0 {
      AllPathsDiffer(dir, k);
      if c[k] - interval <= 0 {
        assert k in Overdue(c, interval);
      }
    }
  }

  // ---------------------------------------------------------------- steps of a recorded run

  ghost predicate NeverCleared(h: seq<Event>) {
    forall i :: 0 <= i < |h| ==> !h[i].Clear?
  }

  /** Counters and files stand for the plain map after the run h; without a Clear no counter lacks its file. */
  ghost predicate Stands(c: map<Key, int>, fs: FS, dir: Path, h: seq<Event>, start: int, interval: int) {
    && Sound(fs, dir) && WellTimed(h, start)
    && Linked(c, fs.files, dir, Run(h, start, interval))
    && (NeverCleared(h) ==> c.Keys == Run(h, start, interval).entries.Keys)
  }

  lemma NeverClearedSnoc(h: seq<Event>, e: Event)
    ensures NeverCleared(h + [e]) ==> NeverCleared(h) && !e.Clear?
  {
    if NeverCleared(h + [e]) {
      assert (h + [e])[|h|] == e;
      forall i | 0 <= i < |h| ensures !h[i].Clear? {
        assert (h + [e])[i] == h[i];
      }
    }
  }

  lemma OnSet(c: map<Key, int>, fs: FS, dir: Path, h: seq<Event>, start: int, interval: int, e: Event)
    requires Stands(c, fs, dir, h, start, interval)
    requires e.Set? && IsFileKey(e.key) && e.ttl > SECOND && Clock(h, start) <= e.now
    ensures var (after, replies) := WriteItem(fs, dir, HashOf(e.key), e.key, e.ttl, e.value);
            && replies == [None]
            && Stands(c[e.key := e.ttl], after, dir, h + [e], start, interval)
            && after.files == fs.files[PathOf(dir, e.key) := e.value]
    ensures Run(h + [e], start, interval).lastTick == Run(h, start, interval).lastTick
  {
    hide Sound, Linked, IsFileKey, WriteItem, WellTimed, Clock;
    Snoc(h, e, start, interval);
    NeverClearedSnoc(h, e);
    WriteOne(fs, dir, HashOf(e.key), e.key, e.ttl, e.value);
    LinkSet(c, fs.files, dir, Run(h, start, interval), e, interval);
  }

  /** A write to ".." fails without touching what the cache stands for. */
  lemma OnDotDot(c: map<Key, int>, fs: FS, dir: Path, h: seq<Event>, start: int, interval: int, ttl: int,
                 value: seq<byte>)
    requires Stands(c, fs, dir, h, start, interval) && ttl > SECOND
    ensures var (after, replies) := WriteItem(fs, dir, HashOf(DOTDOT), DOTDOT, ttl, value);
            && replies == [Some(Failed(IsDirectory))]
            && Stands(c, after, dir, h, start, interval) && after.files == fs.files
  {
    hide Linked;
    WriteDotDot(fs, dir, HashOf(DOTDOT), ttl, value);
  }

  lemma StandsKeys(c: map<Key, int>, fs: FS, dir: Path, h: seq<Event>, start: int, interval: int)
    requires Stands(c, fs, dir, h, start, interval)
    ensures var live := Run(h, start, interval).entries;
            && (NeverCleared(h) ==> c.Keys == live.Keys)
            && live.Keys <= c.Keys && Sound(fs, dir)
            && (forall k :: k in c ==> IsFileKey(k) && c[k] > 0)
  {
  }

  /** A read of a key that is not in the tree. */
  lemma OnMiss(c: map<Key, int>, fs: FS, dir: Path, h: seq<Event>, start: int, interval: int, k: Key, now: int)
    requires Stands(c, fs, dir, h, start, interval) && Clock(h, start) <= now && k !in c
    ensures var h' := h + [PlainMap.Read(k, now)];
            && Run(h', start, interval) == Run(h, start, interval)
            && Stands(c, fs, dir, h', start, interval)
            && k !in Run(h, start, interval).entries
  {
    hide Sound, Linked, IsFileKey, WellTimed, Clock;
    var e := PlainMap.Read(k, now);
    Snoc(h, e, start, interval);
    NeverClearedSnoc(h, e);
    LinkAbsent(c, fs.files, dir, Run(h, start, interval), k);
    assert Run(h + [e], start, interval) == ReadStep(Run(h, start, interval), k, now);
  }

  lemma FileIffLive(c: map<Key, int>, fs: FS, dir: Path, h: seq<Event>, start: int, interval: int, k: Key)
    requires Stands(c, fs, dir, h, start, interval) && k in c
    ensures k in Run(h, start, interval).entries <==> PathOf(dir, k) in fs.files
  {
    hide IsFileKey, PathOf, Run, Sound, WellTimed;
  }

  lemma PathIs(dir: Path, k: Key)
    ensures PathOf(dir, k) == ItemPath(dir, HashOf(k), k)
  {
  }

  lemma LinkKeys(c: map<Key, int>, files: map<Path, seq<byte>>, dir: Path, s: State, k: Key)
    requires Linked(c, files, dir, s) && k in c
    ensures IsFileKey(k) && c[k] > 0
  {
  }

  lemma DeleteFile(fs: FS, dir: Path, k: Key)
    requires Sound(fs, dir) && IsFileKey(k)
    ensures var (after, e) := DeleteItem(fs, dir, HashOf(k), k);
            && e.None? && Sound(after, dir)
            && after.files == fs.files - {PathOf(dir, k)} && after.dirs == DirsWithout(fs, dir, k)
    ensures PathOf(dir, k) !in fs.dirs
  {
    DeleteOne(fs, dir, HashOf(k), k);
  }

  /** What `read` finds for a key in the tree: its bytes, or no file; nothing else can come about. */
  lemma ReadOutcome(c: map<Key, int>, fs: FS, dir: Path, h: seq<Event>, start: int, interval: int, k: Key)
    requires Stands(c, fs, dir, h, start, interval) && k in c
    ensures var live := Run(h, start, interval).entries;
            && ReadItem(fs, dir, HashOf(k), k, c[k]) ==
               (fs, if k in live then Contents(live[k].value) else ReadFailed(NotExist))
            && (k in live ==> LastSet(h, k).Some? && LastSet(h, k).value.value == live[k].value && live[k].ttl == c[k])
  {
    LinkKeys(c, fs.files, dir, Run(h, start, interval), k);
    DeleteFile(fs, dir, k);
    PathIs(dir, k);
    if k in Run(h, start, interval).entries {
      var _ := LiveEverSince(h, k, start, interval);
    }
  }

  /** A read of a key in the tree that has lost its file: nothing is live, and the tree entry may go. */
  lemma OnLost(c: map<Key, int>, fs: FS, dir: Path, h: seq<Event>, start: int, interval: int, k: Key, now: int)
    requires Stands(c, fs, dir, h, start, interval) && Clock(h, start) <= now
    requires k in c && k !in Run(h, start, interval).entries
    ensures var h' := h + [PlainMap.Read(k, now)];
            && Run(h', start, interval) == Run(h, start, interval)
            && Stands(c - {k}, fs, dir, h', start, interval)
  {
    var e := PlainMap.Read(k, now);
    Snoc(h, e, start, interval);
    NeverClearedSnoc(h, e);
    LinkKeys(c, fs.files, dir, Run(h, start, interval), k);
    LinkStale(c, fs.files, dir, Run(h, start, interval), k, 0);
    assert Run(h + [e], start, interval) == ReadStep(Run(h, start, interval), k, now);
  }

  /** A read that ages a key in the tree. If it is live, the plain map's counter falls the same way. */
  lemma OnAge(c: map<Key, int>, fs: FS, dir: Path, h: seq<Event>, start: int, interval: int, k: Key, now: int)
    requires Stands(c, fs, dir, h, start, interval) && Clock(h, start) <= now && k in c
    ensures var s, h' := Run(h, start, interval), h + [PlainMap.Read(k, now)];
            var s', ttl := Run(h', start, interval), c[k] - (now - s.lastTick);
            && s'.lastTick == s.lastTick
            && Stands(if ttl > 0 then c[k := ttl] else c - {k},
                      if ttl > 0 then fs else DeleteItem(fs, dir, HashOf(k), k).0, dir, h', start, interval)
            && DeleteItem(fs, dir, HashOf(k), k).0.files == fs.files - {PathOf(dir, k)}
            && (k in s'.entries <==> k in s.entries && ttl > 0)
            && (k in s'.entries ==> s'.entries[k].ttl == ttl && s'.entries[k].value == s.entries[k].value)
  {
    hide DirsWithout, Sound, Linked, IsFileKey, DeleteItem, WellTimed, Clock, PathOf;
    var e := PlainMap.Read(k, now);
    var s := Run(h, start, interval);
    Snoc(h, e, start, interval);
    NeverClearedSnoc(h, e);
    LinkKeys(c, fs.files, dir, s, k);
    DeleteFile(fs, dir, k);
    assert Run(h + [e], start, interval) == ReadStep(s, k, now);
    if PathOf(dir, k) in fs.files {
      LinkRead(c, fs.files, dir, s, k, now);
    } else {
      LinkStale(c, fs.files, dir, s, k, c[k] - (now - s.lastTick));
    }
  }

  /** Dropping counters of keys without files changes nothing the cache stands for. */
  lemma OnPurge(c: map<Key, int>, c': map<Key, int>, fs: FS, dir: Path, h: seq<Event>, start: int, interval: int)
    requires Stands(c, fs, dir, h, start, interval)
    requires forall k :: k in c' ==> k in c && c'[k] == c[k]
    requires forall k :: k in c && PathOf(dir, k) in fs.files ==> k in c'
    ensures Stands(c', fs, dir, h, start, interval)
  {
    hide Sound, IsFileKey, PathOf, Run;
    var live := Run(h, start, interval).entries;
    assert forall k :: k in live ==> k in c';
    if NeverCleared(h) {
      assert c'.Keys == live.Keys;
    }
  }

  lemma OnDelete(c: map<Key, int>, fs: FS, dir: Path, h: seq<Event>, start: int, interval: int, k: Key)
    requires Stands(c, fs, dir, h, start, interval) && k in c
    ensures var (after, e) := DeleteItem(fs, dir, HashOf(k), k);
            && e.None? && after.files == fs.files - {PathOf(dir, k)} && after.dirs == DirsWithout(fs, dir, k)
            && Stands(c - {k}, after, dir, h + [Delete(k)], start, interval)
    ensures Run(h + [Delete(k)], start, interval).lastTick == Run(h, start, interval).lastTick
  {
    hide DirsWithout, Sound, Linked, IsFileKey, DeleteItem, WellTimed, Clock, PathOf;
    Snoc(h, Delete(k), start, interval);
    NeverClearedSnoc(h, Delete(k));
    LinkKeys(c, fs.files, dir, Run(h, start, interval), k);
    DeleteFile(fs, dir, k);
    LinkDelete(c, fs.files, dir, Run(h, start, interval), k, interval);
  }

  lemma OnClear(c: map<Key, int>, fs: FS, after: FS, dir: Path, h: seq<Event>, start: int, interval: int)
    requires Stands(c, fs, dir, h, start, interval)
    requires Sound(after, dir) && after.files == fs.files - PathsOf(dir, c.Keys)
    ensures Stands(c, after, dir, h + [Clear], start, interval)
    ensures Run(h + [Clear], start, interval) == Run(h, start, interval).(entries := map[])
  {
    hide Sound, Linked, IsFileKey, WellTimed, Clock, PathsOf;
    Snoc(h, Clear, start, interval);
    NeverClearedSnoc(h, Clear);
    LinkClear(c, fs.files, dir, Run(h, start, interval), interval);
  }

  lemma LinkedKeys(c: map<Key, int>, files: map<Path, seq<byte>>, dir: Path, s: State)
    requires Linked(c, files, dir, s)
    ensures forall k :: k in s.entries ==> k in c && c[k] == s.entries[k].ttl
  {
  }

  lemma OnSweep(c: map<Key, int>, fs: FS, after: FS, dir: Path, h: seq<Event>, start: int, interval: int, now: int)
    requires Stands(c, fs, dir, h, start, interval) && Clock(h, start) <= now
    requires Sound(after, dir) && after.files == fs.files - PathsOf(dir, Overdue(c, interval))
    ensures Stands(SweptCounters(c, interval), after, dir, h + [Sweep(now)], start, interval)
    ensures Run(h + [Sweep(now)], start, interval) == SweepStep(Run(h, start, interval), now, interval)
  {
    hide Sound, Linked, IsFileKey, WellTimed, Clock, PathsOf, Overdue;
    var s := Run(h, start, interval);
    Snoc(h, Sweep(now), start, interval);
    NeverClearedSnoc(h, Sweep(now));
    LinkSweep(c, fs.files, dir, s, now, interval);
    LinkedKeys(c, fs.files, dir, s);
  }
}
