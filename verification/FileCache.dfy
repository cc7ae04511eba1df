/** The file cache: a tree of items, their files, and the clock of the last sweep. Every operation, run on its own,
    is the plain map's step; `history` records the steps taken. */
module FileCaches {
  import opened Keys
  import opened Items
  import opened Trees
  import opened Pruning
  import opened FileSystem
  import opened PlainMap
  import opened Linkage
  import opened InterfacedTree
  import Overlap
  import TreeNode

  // ---------------------------------------------------------------- views of the tree

  ghost function Counters(t: Tree): map<Key, int>
    reads Elems(t)
  {
    IndexValues(t);
    map k | k in Index(t) :: Index(t)[k].TTL
  }

  /** Every item carries the hash of its key. */
  ghost predicate Hashed(items: set<Item>) {
    forall x :: x in items ==> x.hash == HashOf(x.key)
  }

  // ---------------------------------------------------------------- delete under the lock

  /** What `delete` and the sweep's predicate share with the cache: the files and the mutex. */
  datatype Guarded = Guarded(fs: FS, locked: bool)

  datatype DeleteOutcome = Removed | NoItem | Vanished | Broken(error: FsError) | DoubleUnlock

  /** `delete(item)`, given what the tree search inside it finds. The lock is taken if it is free and then given back;
      the not-found branch unlocks once more by hand. `Vanished` is the branch that would delete from the tree. */
  function DeleteGuarded(g: Guarded, dir: Path, item: Item, found: Option<Item>): (Guarded, DeleteOutcome) {
    var took := !g.locked;
    if found.None? then (g.(locked := false), if took then DoubleUnlock else NoItem)
    else
      var (after, e) := DeleteItem(g.fs, dir, item.hash, item.key);
      (g.(fs := after),
       if e.None? then Removed else if e == Some(NotExist) then Vanished else Broken(e.value))
  }

  // ---------------------------------------------------------------- the predicates given to DeleteIf

  datatype SweepState = SweepState(g: Guarded, panicked: bool)

  /** The predicate of `cleanup`: it lowers the TTL, and deletes an item that has run out, re-entering the tree. */
  function CleanupPredicate(dir: Path, interval: int): Predicate<SweepState> {
    (s: SweepState, i: Item, found: Option<Item>, ttl: int) =>
      if s.panicked then (s, false, ttl)
      else if ttl - interval <= 0 then
        var (g, outcome) := DeleteGuarded(s.g, dir, i, found);
        (SweepState(g, outcome != Removed), true, ttl - interval)
      else (s, false, ttl - interval)
  }

  ghost function ItemPaths(dir: Path, items: set<Item>): set<Path> {
    set x | x in items :: ItemPath(dir, x.hash, x.key)
  }

  ghost predicate AllFileKeys(xs: seq<Item>) {
    forall i :: 0 <= i < |xs| ==> IsFileKey(xs[i].key)
  }

  lemma CleanupCall(dir: Path, interval: int, s: SweepState, x: Item, ttl: int)
    requires IsFileKey(x.key) && Sound(s.g.fs, dir) && s.g.locked && !s.panicked
    ensures var (after, taken, left) := CleanupPredicate(dir, interval)(s, x, Some(x), ttl);
            && after.g.locked && !after.panicked && Sound(after.g.fs, dir)
            && left == ttl - interval && (taken <==> ttl - interval <= 0)
            && after.g.fs.files == s.g.fs.files - ItemPaths(dir, if taken then {x} else {})
  {
    hide Sound, Less, IsFileKey, ItemPath, DeleteItem;
    DeleteOne(s.g.fs, dir, x.hash, x.key);
    var (fs', e) := DeleteItem(s.g.fs, dir, x.hash, x.key);
    var (g, outcome) := DeleteGuarded(s.g, dir, x, Some(x));
    assert g == Guarded(fs', true) && outcome == Removed;
    assert ItemPaths(dir, {x}) == {ItemPath(dir, x.hash, x.key)};
    assert ItemPaths(dir, {}) == {};
  }

  /** Every TTL has lost the interval, and exactly those it has used up were answered true. */
  ghost predicate SweptAnswers(ttls: seq<int>, interval: int, answers: seq<bool>, left: seq<int>) {
    && |answers| == |left| == |ttls|
    && forall i :: 0 <= i < |ttls| ==> left[i] == ttls[i] - interval && (answers[i] <==> ttls[i] - interval <= 0)
  }

  lemma SweptAnswersSnoc(ttls: seq<int>, interval: int, answers: seq<bool>, left: seq<int>, b: bool, t: int)
    requires ttls != [] && SweptAnswers(ttls[..|ttls| - 1], interval, answers, left)
    requires t == ttls[|ttls| - 1] - interval && (b <==> t <= 0)
    ensures SweptAnswers(ttls, interval, answers + [b], left + [t])
  {
  }

  lemma FileKeysSnoc(xs: seq<Item>)
    requires xs != [] && AllFileKeys(xs)
    ensures AllFileKeys(xs[..|xs| - 1]) && IsFileKey(xs[|xs| - 1].key)
  {
  }

  lemma NothingSwept(interval: int)
    ensures SweptAnswers([], interval, [], [])
  {
  }

  lemma NoneTaken(dir: Path)
    ensures Taken([], []) == {} && ItemPaths(dir, {}) == {}
  {
  }

  lemma FilesWithout(files: map<Path, seq<byte>>, dir: Path, a: set<Item>, b: set<Item>)
    ensures files - ItemPaths(dir, a) - ItemPaths(dir, b) == files - ItemPaths(dir, a + b)
  {
    assert ItemPaths(dir, a + b) == ItemPaths(dir, a) + ItemPaths(dir, b);
  }

  lemma TakenOne(x: Item, b: bool)
    ensures Taken([x], [b]) == if b then {x} else {}
  {
    assert b ==> [x][0] in Taken([x], [b]);
  }

  /** A whole sweep under the lock: no panic, the lock still held, each counter down by the interval,
      and the files of exactly the items that ran out gone. */
  lemma {:induction false} CleanupCalls(dir: Path, interval: int, s: SweepState, xs: seq<Item>, ttls: seq<int>)
    requires |xs| == |ttls| && AllFileKeys(xs)
    requires Sound(s.g.fs, dir) && s.g.locked && !s.panicked
    ensures var c := CallAll(CleanupPredicate(dir, interval), s, xs, ttls);
            && SweptAnswers(ttls, interval, c.answers, c.ttls)
            && c.state.g.locked && !c.state.panicked && Sound(c.state.g.fs, dir)
            && c.state.g.fs.files == s.g.fs.files - ItemPaths(dir, Taken(xs, c.answers))
  {
    hide Sound, IsFileKey, CleanupPredicate, ItemPaths, Taken, Less, HashOf, SweptAnswers, AllFileKeys;
    if xs == [] {
      NoneTaken(dir);
      NothingSwept(interval);
    } else {
      var n := |xs| - 1;
      FileKeysSnoc(xs);
      CleanupCalls(dir, interval, s, xs[..n], ttls[..n]);
      var b := CallAll(CleanupPredicate(dir, interval), s, xs[..n], ttls[..n]);
      var z := CleanupPredicate(dir, interval)(b.state, xs[n], Some(xs[n]), ttls[n]);
      CleanupCall(dir, interval, b.state, xs[n], ttls[n]);
      SweptAnswersSnoc(ttls, interval, b.answers, b.ttls, z.1, z.2);
      TakenConcat(xs[..n], b.answers, [xs[n]], [z.1]);
      assert xs == xs[..n] + [xs[n]];
      TakenOne(xs[n], z.1);
      FilesWithout(s.g.fs.files, dir, Taken(xs[..n], b.answers), if z.1 then {xs[n]} else {});
    }
  }

  /** The predicate of `VerifyIntegrity`: items whose file cannot be found are noted and taken. */
  function IntegrityPredicate(fs: FS, dir: Path): Predicate<seq<Key>> {
    (errs: seq<Key>, i: Item, found: Option<Item>, ttl: int) =>
      if Exists(fs, ItemPath(dir, i.hash, i.key)) then (errs, false, ttl) else (errs + [i.key], true, ttl)
  }

  /** A file or a directory is at p. */
  ghost predicate IsThere(fs: FS, p: Path) {
    p in fs.files.Keys + fs.dirs
  }

  /** The keys of the items of xs that have no file, in order. */
  ghost function MissingKeys(fs: FS, dir: Path, xs: seq<Item>): seq<Key> {
    if xs == [] then []
    else
      var n := |xs| - 1;
      MissingKeys(fs, dir, xs[..n]) + if IsThere(fs, ItemPath(dir, xs[n].hash, xs[n].key)) then [] else [xs[n].key]
  }

  lemma IntegrityCall(fs: FS, dir: Path, errs: seq<Key>, x: Item, found: Option<Item>, ttl: int)
    ensures var there := IsThere(fs, ItemPath(dir, x.hash, x.key));
            IntegrityPredicate(fs, dir)(errs, x, found, ttl) ==
            (errs + (if there then [] else [x.key]), !there, ttl)
  {
    assert errs + [] == errs;
  }

  /** The answers say which items have no file. */
  ghost predicate SayMissing(fs: FS, dir: Path, xs: seq<Item>, answers: seq<bool>) {
    && |answers| == |xs|
    && forall i :: 0 <= i < |xs| ==> (answers[i] <==> !IsThere(fs, ItemPath(dir, xs[i].hash, xs[i].key)))
  }

  lemma SayMissingSnoc(fs: FS, dir: Path, xs: seq<Item>, answers: seq<bool>, b: bool)
    requires xs != [] && SayMissing(fs, dir, xs[..|xs| - 1], answers)
    requires b <==> !IsThere(fs, ItemPath(dir, xs[|xs| - 1].hash, xs[|xs| - 1].key))
    ensures SayMissing(fs, dir, xs, answers + [b])
  {
    hide IsThere, ItemPath;
  }

  lemma {:induction false} IntegrityCalls(fs: FS, dir: Path, xs: seq<Item>, ttls: seq<int>)
    requires |xs| == |ttls|
    ensures var c := CallAll(IntegrityPredicate(fs, dir), [], xs, ttls);
            && c.state == MissingKeys(fs, dir, xs) && c.ttls == ttls
            && SayMissing(fs, dir, xs, c.answers)
  {
    hide IsThere, ItemPath;
    if xs == [] {
    } else {
      hide IntegrityPredicate, SayMissing;
      var n := |xs| - 1;
      IntegrityCalls(fs, dir, xs[..n], ttls[..n]);
      var b := CallAll(IntegrityPredicate(fs, dir), [], xs[..n], ttls[..n]);
      IntegrityCall(fs, dir, b.state, xs[n], Some(xs[n]), ttls[n]);
      SayMissingSnoc(fs, dir, xs, b.answers, !IsThere(fs, ItemPath(dir, xs[n].hash, xs[n].key)));
      assert ttls == ttls[..n] + [ttls[n]];
    }
  }

  // ---------------------------------------------------------------- the functions given to Traverse

  /** Clear's visit: the item's file goes, and an error would be counted. */
  function ClearVisit(dir: Path): ((FS, nat), Item) -> (FS, nat) {
    (s: (FS, nat), i: Item) =>
      var (after, e) := DeleteItem(s.0, dir, i.hash, i.key);
      (after, if e.Some? then s.1 + 1 else s.1)
  }

  lemma NoneVisited(dir: Path)
    ensures ItemSet([]) == {} && ItemPaths(dir, {}) == {}
  {
  }

  lemma OneVisited(dir: Path, x: Item)
    ensures ItemSet([x]) == {x} && ItemPaths(dir, {x}) == {ItemPath(dir, x.hash, x.key)}
  {
    assert [x][0] in ItemSet([x]);
  }

  lemma {:induction false} ClearVisits(dir: Path, fs: FS, xs: seq<Item>)
    requires Sound(fs, dir) && AllFileKeys(xs)
    ensures var (after, errors) := TreeNode.Fold(ClearVisit(dir), (fs, 0), xs);
            && errors == 0 && Sound(after, dir) && after.files == fs.files - ItemPaths(dir, ItemSet(xs))
  {
    hide Sound, IsFileKey, Less, HashOf, ItemPaths, ItemSet, DeleteItem, ItemPath;
    if xs == [] {
      NoneVisited(dir);
    } else {
      var n := |xs| - 1;
      ClearVisits(dir, fs, xs[..n]);
      var b := TreeNode.Fold(ClearVisit(dir), (fs, 0), xs[..n]);
      assert IsFileKey(xs[n].key);
      DeleteOne(b.0, dir, xs[n].hash, xs[n].key);
      assert xs == xs[..n] + [xs[n]];
      ItemSetConcat(xs[..n], [xs[n]]);
      OneVisited(dir, xs[n]);
      FilesWithout(fs.files, dir, ItemSet(xs[..n]), {xs[n]});
    }
  }

  datatype KeysState = KeysState(keys: seq<Key>, i: nat, panicked: bool)

  /** Keys' visit: the next element of the array is set; past its end Go would panic. */
  function KeysVisit(s: KeysState, i: Item): KeysState {
    if s.i < |s.keys| then KeysState(s.keys[s.i := i.key], s.i + 1, s.panicked) else s.(panicked := true)
  }

  ghost function KeysOf(xs: seq<Item>): (keys: seq<Key>)
    ensures |keys| == |xs|
  {
    seq(|xs|, i requires 0 <= i < |xs| => xs[i].key)
  }

  ghost function Blank(n: nat): seq<Key> {
    seq(n, _ => [])
  }

  /** An array at least as long as the walk is filled from the front, in order, and never overrun. */
  lemma {:induction false} KeysVisits(n: nat, xs: seq<Item>)
    requires |xs| <= n
    ensures TreeNode.Fold(KeysVisit, KeysState(Blank(n), 0, false), xs) ==
            KeysState(KeysOf(xs) + Blank(n - |xs|), |xs|, false)
  {
    if xs == [] {
      assert KeysOf(xs) + Blank(n) == Blank(n);
    } else {
      var m := |xs| - 1;
      KeysVisits(n, xs[..m]);
      assert (KeysOf(xs[..m]) + Blank(n - m))[m := xs[m].key] == KeysOf(xs) + Blank(n - m - 1);
    }
  }

  // ---------------------------------------------------------------- results

  datatype SetError = BadItem(item: ItemError) | NotWritten(write: WriteError)

  datatype GetResult = Hit(value: seq<byte>, ttl: int) | NotFound | Crash

  datatype DeleteResult = Deleted | BadKey(error: KeyError) | Absent | Fatal

  /** c gives each item of t the TTL listed for it. */
  ghost predicate Indexed(t: Tree, c: map<Key, int>, ttls: seq<int>) {
    && c.Keys == Index(t).Keys && |ttls| == |PostOrder(t)|
    && forall i :: 0 <= i < |ttls| ==> PostOrder(t)[i].key in c && c[PostOrder(t)[i].key] == ttls[i]
  }

  lemma TreeIndexed(t: Tree)
    requires BST(t)
    ensures Indexed(t, Counters(t), TTLs(PostOrder(t)))
  {
    hide Less, BST;
    ElemsListed(t);
    forall i | 0 <= i < |PostOrder(t)| ensures PostOrder(t)[i].key in Counters(t)
                                               && Counters(t)[PostOrder(t)[i].key] == PostOrder(t)[i].TTL {
      assert PostOrder(t)[i] in ItemSet(PostOrder(t));
      IndexElems(t, PostOrder(t)[i]);
    }
  }

  lemma Position(t: Tree, k: Key) returns (i: nat)
    requires BST(t) && k in Index(t)
    ensures i < |PostOrder(t)| && PostOrder(t)[i] == Index(t)[k] && Index(t)[k].key == k
  {
    hide Less, BST;
    IndexValues(t);
    ElemsListed(t);
    assert Index(t)[k] in ItemSet(PostOrder(t));
    i :| 0 <= i < |PostOrder(t)| && PostOrder(t)[i] == Index(t)[k];
  }

  /** The items a sweep takes are those whose counter the interval uses up. */
  lemma TakenIsOverdue(t: Tree, interval: int, c: map<Key, int>, ttls: seq<int>, answers: seq<bool>, left: seq<int>,
                       k: Key)
    requires BST(t) && Indexed(t, c, ttls) && SweptAnswers(ttls, interval, answers, left) && k in c
    ensures Index(t)[k] in Taken(PostOrder(t), answers) <==> c[k] - interval <= 0
  {
    hide Less, BST;
    var i := Position(t, k);
    var x := Index(t)[k];
    if x in Taken(PostOrder(t), answers) {
      var j :| 0 <= j < |answers| && answers[j] && PostOrder(t)[j] == x;
      assert c[PostOrder(t)[j].key] == ttls[j];
    }
    assert c[PostOrder(t)[i].key] == ttls[i];
  }

  lemma OverduePaths(t: Tree, dir: Path, interval: int, c: map<Key, int>, ttls: seq<int>, answers: seq<bool>,
                     left: seq<int>)
    requires BST(t) && Indexed(t, c, ttls) && Hashed(Elems(t))
    requires SweptAnswers(ttls, interval, answers, left)
    ensures ItemPaths(dir, Taken(PostOrder(t), answers)) == PathsOf(dir, Overdue(c, interval))
  {
    hide Less, BST, Index;
    var dead := Taken(PostOrder(t), answers);
    TakenInside(t, answers);
    forall p | p in PathsOf(dir, Overdue(c, interval)) ensures p in ItemPaths(dir, dead) {
      var k :| k in Overdue(c, interval) && p == PathOf(dir, k);
      TakenIsOverdue(t, interval, c, ttls, answers, left, k);
      var i := Position(t, k);
    }
    forall x | x in dead ensures x.key in Overdue(c, interval) {
      var j :| 0 <= j < |answers| && answers[j] && PostOrder(t)[j] == x;
    }
  }

  /** The counters of what is left of t, each item's TTL now being the one its call left. */
  lemma SweptTree(t: Tree, interval: int, c: map<Key, int>, ttls: seq<int>, answers: seq<bool>)
    requires BST(t) && Indexed(t, c, ttls) && SweptAnswers(ttls, interval, answers, TTLs(PostOrder(t)))
    ensures Counters(Prune(t, Taken(PostOrder(t), answers))) == SweptCounters(c, interval)
  {
    hide Less, BST, Index, Prune, Taken;
    var dead := Taken(PostOrder(t), answers);
    IndexPrune(t, dead);
    forall k | k in c ensures Index(t)[k] in dead <==> c[k] - interval <= 0
                      ensures Index(t)[k].TTL == c[k] - interval {
      TakenIsOverdue(t, interval, c, ttls, answers, TTLs(PostOrder(t)), k);
      var i := Position(t, k);
      assert TTLs(PostOrder(t))[i] == PostOrder(t)[i].TTL && c[PostOrder(t)[i].key] == ttls[i];
    }
  }

  ghost function Present(fs: FS, dir: Path, items: set<Item>): set<Item> {
    set x | x in items && IsThere(fs, ItemPath(dir, x.hash, x.key))
  }

  lemma Found(fs: FS, p: Path)
    requires p in fs.files
    ensures IsThere(fs, p)
  {
  }

  lemma {:induction false} MissingConcat(fs: FS, dir: Path, xs: seq<Item>, ys: seq<Item>)
    ensures MissingKeys(fs, dir, xs + ys) == MissingKeys(fs, dir, xs) + MissingKeys(fs, dir, ys)
    decreases |ys|
  {
    hide IsThere, ItemPath;
    if ys == [] {
      assert xs + ys == xs;
    } else {
      var n := |ys| - 1;
      assert (xs + ys)[..|xs + ys| - 1] == xs + ys[..n];
      MissingConcat(fs, dir, xs, ys[..n]);
    }
  }

  lemma PresentPart(t: Tree, u: Tree, fs: FS, dir: Path, dead: set<Item>)
    requires Elems(u) <= Elems(t) && Elems(t) * dead == Elems(t) - Present(fs, dir, Elems(t))
    ensures Elems(u) * dead == Elems(u) - Present(fs, dir, Elems(u))
  {
    hide IsThere, ItemPath, Less;
    forall x | x in Elems(u) ensures x in dead <==> x !in Present(fs, dir, Elems(u)) {
      assert x in dead <==> x in Elems(t) * dead;
    }
  }

  ghost function KeySet(items: set<Item>): set<Key> {
    set x | x in items :: x.key
  }

  lemma PresentMeans(fs: FS, dir: Path, items: set<Item>)
    ensures Present(fs, dir, items) ==
            set x | x in items && (ItemPath(dir, x.hash, x.key) in fs.files || ItemPath(dir, x.hash, x.key) in fs.dirs)
  {
  }

  lemma AbsentAdds(fs: FS, dir: Path, items: set<Item>, x: Item)
    ensures var there := IsThere(fs, ItemPath(dir, x.hash, x.key));
            KeySet(items + {x} - Present(fs, dir, items + {x})) ==
            KeySet(items - Present(fs, dir, items)) + if there then {} else {x.key}
  {
    hide IsThere, ItemPath;
    var there := IsThere(fs, ItemPath(dir, x.hash, x.key));
    assert items + {x} - Present(fs, dir, items + {x}) ==
           (items - Present(fs, dir, items)) + if there then {} else {x};
  }

  lemma PresentTwice(fs: FS, dir: Path, items: set<Item>)
    ensures Present(fs, dir, Present(fs, dir, items)) == Present(fs, dir, items)
  {
    hide IsThere, ItemPath;
  }

  lemma {:induction false} MissingKeysOf(fs: FS, dir: Path, xs: seq<Item>)
    ensures (set k | k in MissingKeys(fs, dir, xs)) == KeySet(ItemSet(xs) - Present(fs, dir, ItemSet(xs)))
  {
    hide IsThere, ItemPath;
    if xs == [] {
    } else {
      hide Present, KeySet;
      var n := |xs| - 1;
      MissingKeysOf(fs, dir, xs[..n]);
      ItemSetConcat(xs[..n], [xs[n]]);
      assert xs == xs[..n] + [xs[n]];
      OneVisited(dir, xs[n]);
      AbsentAdds(fs, dir, ItemSet(xs[..n]), xs[n]);
    }
  }

  /** The keys noted are those of the items that are not there. */
  lemma MissingSet(fs: FS, dir: Path, t: Tree)
    ensures (set k | k in MissingKeys(fs, dir, PostOrder(t))) == KeySet(Elems(t) - Present(fs, dir, Elems(t)))
  {
    ElemsListed(t);
    MissingKeysOf(fs, dir, PostOrder(t));
  }

  /** One key is noted for each node that goes. */
  lemma {:induction false} MissingCount(t: Tree, fs: FS, dir: Path, dead: set<Item>)
    requires Elems(t) * dead == Elems(t) - Present(fs, dir, Elems(t))
    ensures |MissingKeys(fs, dir, PostOrder(t))| == Hits(t, dead)
  {
    hide IsThere, ItemPath, Less;
    if t.Leaf? {
    } else {
      var l, x, r := t.left, t.item, t.right;
      assert Elems(l) * dead == Elems(l) - Present(fs, dir, Elems(l)) by { PresentPart(t, l, fs, dir, dead); }
      assert Elems(r) * dead == Elems(r) - Present(fs, dir, Elems(r)) by { PresentPart(t, r, fs, dir, dead); }
      MissingCount(l, fs, dir, dead);
      MissingCount(r, fs, dir, dead);
      MissingConcat(fs, dir, PostOrder(l) + PostOrder(r), [x]);
      MissingConcat(fs, dir, PostOrder(l), PostOrder(r));
      assert [x][..0] == [];
      assert x in Elems(t);
      assert x in dead <==> x in Elems(t) * dead;
    }
  }

  lemma TakenIsMissing(t: Tree, fs: FS, dir: Path, answers: seq<bool>)
    requires BST(t) && SayMissing(fs, dir, PostOrder(t), answers)
    ensures var dead := Taken(PostOrder(t), answers);
            && Elems(t) - dead == Present(fs, dir, Elems(t))
            && Size(Prune(t, dead)) == Size(t) - |MissingKeys(fs, dir, PostOrder(t))|
            && (MissingKeys(fs, dir, PostOrder(t)) == [] <==> Elems(t) - dead == Elems(t))
  {
    hide Less, BST, IsThere, ItemPath, Prune;
    var dead := Taken(PostOrder(t), answers);
    TakenInside(t, answers);
    ElemsListed(t);
    forall x | x in Elems(t) ensures x in dead <==> x !in Present(fs, dir, Elems(t)) {
      assert x in ItemSet(PostOrder(t));
      var i :| 0 <= i < |PostOrder(t)| && PostOrder(t)[i] == x;
    }
    PruneShrinks(t, dead);
    MissingCount(t, fs, dir, dead);
    NoHits(t, dead);
  }

  lemma HashedPut(items: set<Item>, x: Item)
    requires Hashed(items) && x.hash == HashOf(x.key)
    ensures Hashed(Without(items, x.key) + {x}) && Without(items, x.key) <= items
  {
  }

  lemma CountersPut(t: Tree, x: Item, nd: Node)
    requires BST(t)
    ensures Counters(Put(t, x, nd)) == Counters(t)[x.key := x.TTL]
  {
    IndexPut(t, x, nd);
  }

  /** Where the tree search and the counters look for a key. */
  lemma Located(t: Tree, k: Key)
    requires BST(t)
    ensures Find(t, k) == if k in Index(t) then Some(Index(t)[k]) else None
    ensures k in Counters(t) <==> k in Index(t)
    ensures k in Index(t) ==>
              Index(t)[k] in Elems(t) && Index(t)[k].key == k && Counters(t)[k] == Index(t)[k].TTL
  {
    IndexFind(t, k);
    IndexValues(t);
  }

  lemma CounterAt(t: Tree, k: Key)
    requires k in Index(t)
    ensures k in Counters(t) && Counters(t)[k] == Index(t)[k].TTL
    ensures Index(t)[k] in Elems(t) && Index(t)[k].key == k
  {
    IndexValues(t);
  }

  lemma PutThenDrop(c: map<Key, int>, k: Key, v: int)
    ensures c[k := v] - {k} == c - {k}
  {
  }

  lemma CountersRemoved(t: Tree, k: Key)
    requires BST(t)
    ensures Counters(Remove(t, k)) == Counters(t) - {k}
  {
    IndexRemove(t, k);
  }

  class FileCache {
    const dir: Path
    const cleanupInterval: int
    const cache: InterfacedBST
    var fs: FS
    var lastTick: int
    var locked: bool
    ghost const start: int
    ghost var history: seq<Event>

    /** The plain map this cache stands for. */
    ghost function Plain(): State
      reads `history
    {
      Run(history, start, cleanupInterval)
    }

    /** What operations see of this cache. */
    ghost function View(): Overlap.View
      reads `fs, `lastTick, cache`tree, Elems(cache.tree)
    {
      Overlap.View(Counters(cache.tree), fs.files, lastTick)
    }

    /** What holds whenever no operation is under way, the mutex aside. */
    ghost predicate Steady()
      reads `fs, `lastTick, `history, cache, Nodes(cache.tree), Elems(cache.tree)
    {
      && cache.Valid() && cleanupInterval > 0
      && Plain().lastTick == lastTick && Hashed(Elems(cache.tree))
      && Stands(Counters(cache.tree), fs, dir, history, start, cleanupInterval)
    }

    ghost predicate Valid()
      reads this, cache, Nodes(cache.tree), Elems(cache.tree)
    {
      Steady() && !locked
    }

    /** The cache just after its worker has started, in a directory with nothing of its own in the way. */
    constructor (dir: Path, interval: int, fs: FS, now: int)
      requires interval > 0 && Sound(fs, dir)
      requires forall k :: IsFileKey(k) ==> PathOf(dir, k) !in fs.files
      ensures Valid() && fresh(cache) && this.dir == dir && this.fs == fs && cleanupInterval == interval
      ensures history == [] && start == lastTick == now && cache.tree == Leaf
    {
      this.dir, cleanupInterval, this.fs := dir, interval, fs;
      lastTick, locked, start, history := now, false, now, [];
      cache := new InterfacedBST();
    }

    lemma ValidIs()
      ensures Valid() <==> Steady() && !locked
    {
      hide Steady;
    }

    method Lock()
      requires !locked
      modifies this`locked
      ensures locked
    {
      locked := true;
    }

    method Unlock()
      requires locked
      modifies this`locked
      ensures !locked
    {
      locked := false;
    }

    /** `cache.Delete`, and what it does to the counters. */
    method Drop(live: Item) returns (deleted: bool)
      requires cache.Valid() && Hashed(Elems(cache.tree))
      modifies cache, Nodes(cache.tree)
      ensures cache.Valid() && Hashed(Elems(cache.tree)) && Elems(cache.tree) <= old(Elems(cache.tree))
      ensures Nodes(cache.tree) <= old(Nodes(cache.tree))
      ensures deleted <==> live.key in old(Counters(cache.tree))
      ensures Counters(cache.tree) == old(Counters(cache.tree)) - {live.key}
    {
      hide Less, BST, Rep, Remove, Find;
      ghost var t := cache.tree;
      assert allocated(Elems(t)) && allocated(Nodes(t));
      IndexFind(t, live.key);
      deleted := cache.Delete(live);
      assert Counters(t) == old(Counters(t));
      CountersRemoved(t, live.key);
    }

    /** A read lowers the counter of a live item by the time since the last sweep. */
    method Age(live: Item, now: int)
      requires cache.Valid() && live.key in Index(cache.tree) && Index(cache.tree)[live.key] == live
      modifies live`TTL
      ensures cache.Valid()
      ensures live.TTL == old(live.TTL) - (now - lastTick)
      ensures Counters(cache.tree) == old(Counters(cache.tree))[live.key := live.TTL]
    {
      hide Less, BST, Rep, Remove, Find;
      IndexValues(cache.tree);
      assert allocated(Elems(cache.tree)) && allocated(Nodes(cache.tree));
      live.TTL := live.TTL - (now - lastTick);
    }

    /** The removal from the tree that completes a read or a delete. */
    method Forget(item: Item, ghost e: Event) returns (deleted: bool)
      requires cache.Valid() && Hashed(Elems(cache.tree)) && cleanupInterval > 0
      requires var h := history + [e];
               && Stands(Counters(cache.tree) - {item.key}, fs, dir, h, start, cleanupInterval)
               && Run(h, start, cleanupInterval).lastTick == lastTick
      modifies `history, cache, Nodes(cache.tree)
      ensures Steady() && history == old(history) + [e]
      ensures Nodes(cache.tree) <= old(Nodes(cache.tree)) && Elems(cache.tree) <= old(Elems(cache.tree))
      ensures deleted <==> item.key in old(Counters(cache.tree))
      ensures Counters(cache.tree) == old(Counters(cache.tree)) - {item.key}
    {
      hide Less, Rep, BST, Find, Stands, Run, Counters, Index, HashOf;
      assert allocated(Nodes(cache.tree)) && allocated(Elems(cache.tree));
      deleted := Drop(item);
      history := history + [e];
    }

    /** The end of both Get and Has: a live item loses the time since the last sweep, and goes if nothing is left. */
    method AgeOrDrop(live: Item, now: int) returns (ttl: int, alive: bool)
      requires Steady() && Clock(history, start) <= now
      requires live.key in Index(cache.tree) && Index(cache.tree)[live.key] == live
      modifies this`fs, this`history, cache, Nodes(cache.tree), live`TTL
      ensures Steady() && history == old(history) + [Read(live.key, now)]
      ensures Nodes(cache.tree) <= old(Nodes(cache.tree)) && Elems(cache.tree) <= old(Elems(cache.tree))
      ensures alive <==> old(live.TTL) - (now - lastTick) > 0
      ensures ttl == if alive then old(live.TTL) - (now - lastTick) else 0
      ensures live.key in old(Counters(cache.tree)) && View() == Overlap.Aged(old(View()), dir, live.key, now)
      ensures live.key in Plain().entries <==> live.key in old(Plain()).entries && alive
      ensures live.key in Plain().entries ==>
                && ttl == Plain().entries[live.key].ttl
                && old(Plain()).entries[live.key].value == Plain().entries[live.key].value
    {
      hide Less, Rep, BST, Find, Stands, Run, Clock, HashOf, DeleteItem, Counters, Index, PathOf, Nodes, Elems;
      assert allocated(Nodes(cache.tree)) && allocated(Elems(cache.tree));
      ghost var c, key, e := Counters(cache.tree), live.key, Read(live.key, now);
      CounterAt(cache.tree, key);
      assert live.hash == HashOf(key);
      OnAge(c, fs, dir, history, start, cleanupInterval, key, now);
      Age(live, now);
      ttl, alive := live.TTL, true;
      if live.TTL <= 0 {
        PutThenDrop(c, key, live.TTL);
        var _ := Drop(live);
        fs := DeleteItem(fs, dir, live.hash, live.key).0;
        history := history + [e];
        return 0, false;
      }
      history := history + [e];
    }

    lemma ToRead(live: Item, now: int)
      requires Steady() && Clock(history, start) <= now
      requires live.key in Index(cache.tree) && Index(cache.tree)[live.key] == live
      ensures cache.Valid() && Hashed(Elems(cache.tree)) && cleanupInterval > 0
      ensures var s, h := Plain(), history + [Read(live.key, now)];
              && ReadItem(fs, dir, live.hash, live.key, live.TTL) ==
                 (fs, if live.key in s.entries then Contents(s.entries[live.key].value) else ReadFailed(NotExist))
              && (live.key in s.entries <==> PathOf(dir, live.key) in fs.files)
              && (live.key !in s.entries ==>
                    && Stands(Counters(cache.tree) - {live.key}, fs, dir, h, start, cleanupInterval)
                    && Run(h, start, cleanupInterval) == s && s.lastTick == lastTick)
    {
      hide Less, Rep, BST, Find, Stands, Run, Clock, LastSet, HashOf, ReadItem, Counters, Index;
      CounterAt(cache.tree, live.key);
      FileIffLive(Counters(cache.tree), fs, dir, history, start, cleanupInterval, live.key);
      ReadOutcome(Counters(cache.tree), fs, dir, history, start, cleanupInterval, live.key);
      if live.key !in Plain().entries {
        OnLost(Counters(cache.tree), fs, dir, history, start, cleanupInterval, live.key, now);
      }
    }

    /** Get's turn with the item it found, the mutex held. */
    method GetFound(live: Item, now: int) returns (r: GetResult)
      requires Steady() && Clock(history, start) <= now
      requires live.key in Index(cache.tree) && Index(cache.tree)[live.key] == live
      modifies this`fs, this`history, cache, Nodes(cache.tree), live`TTL
      ensures Steady() && history == old(history) + [Read(live.key, now)]
      ensures Nodes(cache.tree) <= old(Nodes(cache.tree)) && Elems(cache.tree) <= old(Elems(cache.tree))
      ensures r == if live.key in Plain().entries
                   then Hit(Plain().entries[live.key].value, Plain().entries[live.key].ttl) else NotFound
      ensures View() == Overlap.Do(old(View()), Overlap.Get(live.key, now), dir, cleanupInterval)
    {
      hide Less, Rep, BST, Find, Stands, Run, Clock, HashOf, ReadItem, Counters, Index, Steady, PathOf, Overlap.Do,
        Overlap.Aged;
      Overlap.DoFind(View(), live.key, now, dir, cleanupInterval);
      assert allocated(Nodes(cache.tree)) && allocated(Elems(cache.tree));
      ToRead(live, now);
      var (fs', read) := ReadItem(fs, dir, live.hash, live.key, live.TTL);
      fs := fs';
      if !read.Contents? {
        assert read == ReadFailed(NotExist);  // no other error can come about
        var _ := Forget(live, Read(live.key, now));
        return NotFound;
      }
      var ttl, alive := AgeOrDrop(live, now);
      r := if alive then Hit(read.value, ttl) else NotFound;
    }

    lemma HitFacts(key: Key, now: int)
      requires Steady() && Clock(history, start) <= now
      ensures var h := history + [Read(key, now)];
              var live := Run(h, start, cleanupInterval).entries;
              key in live ==>
                var last := LastSet(history, key);
                && last.Some?
                && live[key] == Entry(last.value.value, last.value.ttl - Spent(h, key, start, cleanupInterval))
                && now < Deadline(last.value) + LateSince(history, key, start, cleanupInterval)
    {
      hide Run, Clock, HashOf, Less, BST, Linked;
      PlainMap.HitFacts(history, key, now, start, cleanupInterval);
    }

    lemma EmptyRoot()
      requires Steady()
      ensures cache.Root == null <==> Counters(cache.tree) == map[]
    {
      hide Less, BST, Stands, Hashed;
      TreeNode.NullIsLeaf(cache.Root, cache.tree);
      if cache.tree.Leaf? {
        assert Counters(cache.tree) == map[];
      } else {
        assert cache.tree.item.key in Counters(cache.tree);
      }
    }

    lemma ToFind(key: Key)
      requires Steady()
      ensures cache.Valid() && Hashed(Elems(cache.tree)) && cleanupInterval > 0
      ensures Find(cache.tree, key) == if key in Index(cache.tree) then Some(Index(cache.tree)[key]) else None
      ensures key in Counters(cache.tree) <==> key in Index(cache.tree)
      ensures key in Index(cache.tree) ==>
                var x := Index(cache.tree)[key];
                x in Elems(cache.tree) && x.key == key && Counters(cache.tree)[key] == x.TTL && x.hash == HashOf(key)
    {
      Located(cache.tree, key);
    }

    lemma NothingFound(key: Key, now: int)
      requires Steady()
      ensures var v := View();
              if key !in Index(cache.tree) then
                && Overlap.Do(v, Overlap.Get(key, now), dir, cleanupInterval) == v
                && Overlap.Do(v, Overlap.Has(key, now), dir, cleanupInterval) == v
              else
                key in v.counters
                && Overlap.Do(v, Overlap.Has(key, now), dir, cleanupInterval) == Overlap.Aged(v, dir, key, now)
    {
      hide Overlap.Do, Overlap.Aged, Steady;
      ToFind(key);
      Overlap.DoFind(View(), key, now, dir, cleanupInterval);
    }

    /** A read that found no item only goes on record. */
    ghost method Missed(key: Key, now: int)
      requires Steady() && Clock(history, start) <= now && key !in Index(cache.tree)
      modifies `history
      ensures Steady() && history == old(history) + [Read(key, now)]
      ensures key !in Plain().entries && key !in old(Plain()).entries
    {
      hide Less, Rep, BST, Find, Stands, Run, Clock, Counters, Index;
      assert allocated(Nodes(cache.tree)) && allocated(Elems(cache.tree));
      Located(cache.tree, key);
      OnMiss(Counters(cache.tree), fs, dir, history, start, cleanupInterval, key, now);
      history := history + [Read(key, now)];
    }

    method Get(key: Key, now: int) returns (r: GetResult)
      requires Valid() && Clock(history, start) <= now
      modifies this, cache, Nodes(cache.tree), Elems(cache.tree)`TTL
      ensures Valid()
      ensures Nodes(cache.tree) <= old(Nodes(cache.tree)) && Elems(cache.tree) <= old(Elems(cache.tree))
      ensures r.Crash? <==> !IsValidKey(key) && old(Counters(cache.tree)) != map[]
      ensures !IsValidKey(key) ==> (r.Crash? || r.NotFound?)
                                   && history == old(history) && fs == old(fs) && cache.tree == old(cache.tree)
                                   && View() == old(View())
      ensures IsValidKey(key) ==>
                && history == old(history) + [Read(key, now)]
                && r == if key in Plain().entries then Hit(Plain().entries[key].value, Plain().entries[key].ttl)
                        else NotFound
      ensures IsValidKey(key) ==>
                View() == Overlap.Do(old(View()), Overlap.Get(key, now), dir, cleanupInterval)
      ensures r.Hit? ==>
                var h, last := old(history), LastSet(old(history), key);
                && last.Some?
                && r == Hit(last.value.value, last.value.ttl - Spent(history, key, start, cleanupInterval))
                && now < Deadline(last.value) + LateSince(h, key, start, cleanupInterval)
    {
      hide Less, Rep, BST, Find, Steady, Run, Clock, LastSet, HashOf, CheckKey, Counters, Index, Deadline, Spent,
        LateSince, PathOf, Overlap.Do, View, Nodes, Elems;
      NothingFound(key, now);
      HitFacts(key, now);
      EmptyRoot();
      assert allocated(Nodes(cache.tree)) && allocated(Elems(cache.tree));
      ToFind(key);
      var item, _ := NewItemKey(key);
      Lock();
      if item == null {
        // Search compares the root's key with that of a nil item
        r := if cache.Root == null then NotFound else Crash;
      } else {
        var found := cache.Search(item);
        if found.None? {
          Missed(key, now);
          r := NotFound;
        } else {
          r := GetFound(found.value, now);
        }
      }
      assert allocated(Nodes(cache.tree)) && allocated(Elems(cache.tree));
      Unlock();
    }

    /** A key in the tree is live exactly if it has its file. */
    lemma LiveWithFile(key: Key)
      requires Steady() && key in Counters(cache.tree)
      ensures key in Plain().entries <==> PathOf(dir, key) in fs.files
    {
      hide Stands, Run, Counters, PathOf;
      FileIffLive(Counters(cache.tree), fs, dir, history, start, cleanupInterval, key);
    }

    lemma KeysLive()
      requires Steady()
      ensures NeverCleared(history) ==> Counters(cache.tree).Keys == Plain().entries.Keys
      ensures Plain().entries.Keys <= Counters(cache.tree).Keys && Sound(fs, dir)
      ensures forall k :: k in Counters(cache.tree) ==> IsFileKey(k)
    {
      StandsKeys(Counters(cache.tree), fs, dir, history, start, cleanupInterval);
    }

    method Has(key: Key, now: int) returns (ttl: int, has: bool)
      requires Valid() && Clock(history, start) <= now
      modifies this, cache, Nodes(cache.tree), Elems(cache.tree)`TTL
      ensures Valid() && history == old(history) + [Read(key, now)]
      ensures Nodes(cache.tree) <= old(Nodes(cache.tree)) && Elems(cache.tree) <= old(Elems(cache.tree))
      ensures has <==> key in old(Counters(cache.tree)) && old(Counters(cache.tree))[key] - (now - old(lastTick)) > 0
      ensures ttl == if has then old(Counters(cache.tree))[key] - (now - old(lastTick)) else 0
      ensures has && key in old(Plain()).entries ==> key in Plain().entries && ttl == Plain().entries[key].ttl
      ensures (has <==> key in Plain().entries) <==>
              !(key in old(Counters(cache.tree)) && PathOf(dir, key) !in old(fs).files
                && old(Counters(cache.tree))[key] > now - old(lastTick))
      ensures NeverCleared(old(history)) ==> (has <==> key in Plain().entries)
      ensures View() == Overlap.Do(old(View()), Overlap.Has(key, now), dir, cleanupInterval)
    {
      hide *;
      ValidIs();
      NothingFound(key, now);
      assert allocated(Nodes(cache.tree)) && allocated(Elems(cache.tree));
      ToFind(key);
      KeysLive();
      if key in Counters(cache.tree) {
        LiveWithFile(key);
      }
      Lock();
      var probe := new Item(key, 0, 0);
      var found := cache.Search(probe);
      if found.None? {
        Missed(key, now);
        ttl, has := 0, false;
      } else {
        ttl, has := AgeOrDrop(found.value, now);
      }
      assert allocated(Nodes(cache.tree)) && allocated(Elems(cache.tree));
      Unlock();
      ValidIs();
    }

    /** Between operations: a key has a file exactly when it is live, every live key is in the tree, every key in the
        tree has its file if there was never a Clear, and no item in the tree has run out. */
    lemma FilesBelong(k: Key)
      requires Steady() && IsFileKey(k)
      ensures PathOf(dir, k) in fs.files <==> k in Plain().entries
      ensures k in Plain().entries ==> k in Index(cache.tree) && fs.files[PathOf(dir, k)] == Plain().entries[k].value
      ensures NeverCleared(history) && k in Index(cache.tree) ==> PathOf(dir, k) in fs.files
      ensures k in Index(cache.tree) ==> Index(cache.tree)[k].TTL > 0
    {
    }

    lemma LiveInTree(k: Key)
      requires Valid()
      ensures k in Run(history, start, cleanupInterval).entries ==> k in Counters(cache.tree)
    {
      hide Stands, Run, Counters;
      KeysLive();
    }

    /** The worker's write of a pushed item and its reply. */
    method WriteReplied(item: Item, value: seq<byte>, ghost now: int) returns (reply: Option<WriteError>)
      requires Steady() && Clock(history, start) <= now
      requires IsValidKey(item.key) && item.hash == HashOf(item.key) && item.TTL > SECOND
      modifies `fs
      ensures reply == if item.key == DOTDOT then Some(Failed(IsDirectory)) else None
      ensures item.key == DOTDOT ==> Steady() && fs.files == old(fs).files
      ensures item.key != DOTDOT ==>
                && fs.files == old(fs).files[PathOf(dir, item.key) := value]
                && (var h := history + [Event.Set(item.key, value, item.TTL, now)];
                    && Stands(Counters(cache.tree)[item.key := item.TTL], fs, dir, h, start, cleanupInterval)
                    && Run(h, start, cleanupInterval).lastTick == lastTick)
      ensures cache.Valid() && Hashed(Elems(cache.tree))
    {
      hide Less, Rep, BST, Find, Stands, Run, Clock, HashOf, WriteItem, CheckKey, Counters, Index, PathOf;
      assert allocated(Nodes(cache.tree)) && allocated(Elems(cache.tree));
      ghost var h, c := history, Counters(cache.tree);
      if item.key == DOTDOT {
        OnDotDot(c, fs, dir, h, start, cleanupInterval, item.TTL, value);
      } else {
        OnSet(c, fs, dir, h, start, cleanupInterval, Event.Set(item.key, value, item.TTL, now));
      }
      var (fs', replies) := WriteItem(fs, dir, item.hash, item.key, item.TTL, value);
      fs := fs';
      reply := replies[0];
    }

    /** The insertion of a written item, under the lock. */
    method Store(item: Item, ghost e: Event) returns (inserted: bool, ghost nd: Node)
      requires cache.Valid() && !locked && cleanupInterval > 0
      requires Hashed(Elems(cache.tree)) && item.hash == HashOf(item.key)
      requires var h := history + [e];
               && Stands(Counters(cache.tree)[item.key := item.TTL], fs, dir, h, start, cleanupInterval)
               && Run(h, start, cleanupInterval).lastTick == lastTick
      modifies `locked, `history, cache, Nodes(cache.tree)
      ensures Valid() && history == old(history) + [e]
      ensures Nodes(cache.tree) == old(Nodes(cache.tree)) + (if inserted then {nd} else {}) && (inserted ==> fresh(nd))
      ensures Elems(cache.tree) <= old(Elems(cache.tree)) + {item}
      ensures inserted <==> item.key !in old(Counters(cache.tree))
      ensures Counters(cache.tree) == old(Counters(cache.tree))[item.key := item.TTL]
    {
      hide Less, Rep, BST, Find, Counters, Index, Put, Stands, Run, HashOf, Hashed, Size, Nodes, Elems, Without;
      ghost var t := cache.tree;
      assert allocated(Nodes(t)) && allocated(Elems(t));
      Located(t, item.key);
      HashedPut(Elems(t), item);
      Lock();
      inserted, nd := cache.Insert(item);
      CountersPut(t, item, nd);
      history := history + [e];
      assert allocated(Nodes(cache.tree)) && allocated(Elems(cache.tree));
      assert Steady();
      Unlock();
    }

    /** A push to the queue, the worker's write, its reply, and then the insertion under the lock. */
    method Set(key: Key, value: seq<byte>, ttl: int, now: int) returns (inserted: bool, err: Option<SetError>)
      requires Valid() && Clock(history, start) <= now
      modifies this, cache, Nodes(cache.tree)
      ensures Valid()
      ensures fresh(Nodes(cache.tree) - old(Nodes(cache.tree))) && fresh(Elems(cache.tree) - old(Elems(cache.tree)))
      ensures err == if ttl <= SECOND then Some(BadItem(TtlTooShort))
                     else if CheckKey(key).Some? then Some(BadItem(ItemError.BadKey(CheckKey(key).value)))
                     else if key == DOTDOT then Some(NotWritten(Failed(IsDirectory)))
                     else None
      ensures err.Some? ==>
                && !inserted && history == old(history) && fs.files == old(fs.files) && cache.tree == old(cache.tree)
                && View() == old(View())
      ensures err.None? ==>
                && history == old(history) + [Event.Set(key, value, ttl, now)]
                && (inserted <==> key !in old(Counters(cache.tree)))
                && fs.files == old(fs.files)[PathOf(dir, key) := value]
                && View() == Overlap.SetAround(old(View()), key, value, ttl, [], dir, cleanupInterval)
    {
      hide Less, Rep, BST, Find, Stands, Run, Clock, HashOf, CheckKey, Counters, Index, PathOf;
      assert allocated(Nodes(cache.tree)) && allocated(Elems(cache.tree));
      var item, bad := NewItem(key, ttl);
      if item == null {
        return false, Some(BadItem(bad.value));
      }
      var reply := WriteReplied(item, value, now);
      if reply.Some? {
        return false, Some(NotWritten(reply.value));
      }
      ghost var nd;
      inserted, nd := Store(item, Event.Set(key, value, ttl, now));
      err := None;
    }

    lemma UnderLock(item: Item, found: Option<Item>)
      requires Valid() && item.hash == HashOf(item.key)
      requires found == if item.key in Index(cache.tree) then Some(Index(cache.tree)[item.key]) else None
      ensures var (g, outcome) := DeleteGuarded(Guarded(fs, locked), dir, item, found);
              var h := history + [Event.Delete(item.key)];
              && !g.locked
              && (found.None? ==> outcome == DoubleUnlock && g.fs == fs)
              && (found.Some? ==>
                    && outcome == Removed
                    && g.fs.files == fs.files - {PathOf(dir, item.key)} && g.fs.dirs == DirsWithout(fs, dir, item.key)
                    && Stands(Counters(cache.tree) - {item.key}, g.fs, dir, h, start, cleanupInterval)
                    && Run(h, start, cleanupInterval).lastTick == lastTick)
    {
      hide DirsWithout, Less, Rep, BST, Find, Stands, Run, Clock, HashOf, DeleteItem;
      if found.Some? {
        OnDelete(Counters(cache.tree), fs, dir, history, start, cleanupInterval, item.key);
      }
    }

    /** Deleting a valid key that is not in the tree unlocks the mutex twice, which ends the program. */
    method Delete(key: Key) returns (r: DeleteResult)
      requires Valid()
      modifies this, cache, Nodes(cache.tree)
      ensures Valid()
      ensures Nodes(cache.tree) <= old(Nodes(cache.tree)) && Elems(cache.tree) <= old(Elems(cache.tree))
      ensures r == if CheckKey(key).Some? then DeleteResult.BadKey(CheckKey(key).value)
                   else if key !in old(Counters(cache.tree)) then Fatal
                   else Deleted
      ensures r.Deleted? ==> history == old(history) + [Event.Delete(key)]
                             && Counters(cache.tree) == old(Counters(cache.tree)) - {key}
                             && View() == Overlap.Do(old(View()), Overlap.Delete(key), dir, cleanupInterval)
                             && fs.dirs == DirsWithout(old(fs), dir, key)
      ensures !r.Deleted? ==> history == old(history) && fs == old(fs) && cache.tree == old(cache.tree)
                              && View() == old(View())
    {
      hide DirsWithout, Less, Rep, BST, Find, Stands, Run, Clock, HashOf, CheckKey, DeleteGuarded, Counters, Index,
        Steady, PathOf, Overlap.Do;
      Overlap.DoFind(View(), key, 0, dir, cleanupInterval);
      assert allocated(Nodes(cache.tree)) && allocated(Elems(cache.tree));
      ToFind(key);
      var item, bad := NewItemKey(key);
      if item == null {
        return DeleteResult.BadKey(bad.value);
      }
      var found := cache.Search(item);
      UnderLock(item, found);
      var (g, outcome) := DeleteGuarded(Guarded(fs, locked), dir, item, found);
      fs, locked := g.fs, g.locked;
      if outcome == DoubleUnlock {
        return Fatal;
      }
      assert outcome == Removed;  // no other outcome can come about
      var deleted := Forget(item, Event.Delete(key));
      r := if deleted then Deleted else Absent;
    }

    /** The tree's items, seen as keys and as paths. */
    lemma TreeKeys()
      requires Steady()
      ensures AllFileKeys(InOrder(cache.tree)) && AllFileKeys(PostOrder(cache.tree))
      ensures ItemSet(InOrder(cache.tree)) == Elems(cache.tree)
      ensures ItemPaths(dir, Elems(cache.tree)) == PathsOf(dir, Counters(cache.tree).Keys)
    {
      var t := cache.tree;
      KeysLive();
      ElemsListed(t);
      IndexValues(t);
      forall x | x in Elems(t) ensures x.key in Counters(t) && Counters(t)[x.key] == x.TTL && x.hash == HashOf(x.key) {
        IndexElems(t, x);
      }
      forall i | 0 <= i < |InOrder(t)| ensures IsFileKey(InOrder(t)[i].key) {
        assert InOrder(t)[i] in ItemSet(InOrder(t));
      }
      forall i | 0 <= i < |PostOrder(t)| ensures IsFileKey(PostOrder(t)[i].key) {
        assert PostOrder(t)[i] in ItemSet(PostOrder(t));
      }
    }

    lemma AllVisited()
      requires Steady()
      ensures var (after, errors) := TreeNode.Fold(ClearVisit(dir), (fs, 0), InOrder(cache.tree));
              var h := history + [Event.Clear];
              && errors == 0 && after.files == fs.files - PathsOf(dir, Counters(cache.tree).Keys)
              && Stands(Counters(cache.tree), after, dir, h, start, cleanupInterval)
              && Run(h, start, cleanupInterval) == Plain().(entries := map[])
    {
      hide Less, Rep, BST, Find, Stands, Run, HashOf, PathsOf, ItemPaths, Counters, Index, ItemSet, ClearVisit, Sound;
      KeysLive();
      TreeKeys();
      ClearVisits(dir, fs, InOrder(cache.tree));
      var after := TreeNode.Fold(ClearVisit(dir), (fs, 0), InOrder(cache.tree)).0;
      OnClear(Counters(cache.tree), fs, after, dir, history, start, cleanupInterval);
    }

    /** Every item's file goes; the tree keeps its entries. */
    method Clear() returns (errors: nat)
      requires Valid()
      modifies this
      ensures Valid() && errors == 0 && history == old(history) + [Event.Clear]
      ensures fs.files == old(fs).files - PathsOf(dir, Counters(cache.tree).Keys)
      ensures Plain() == old(Plain()).(entries := map[])
      ensures View() == Overlap.Do(old(View()), Overlap.Clear, dir, cleanupInterval)
    {
      hide Less, Rep, BST, Find, Stands, Run, HashOf, PathsOf, Counters, Index, ClearVisit, Nodes, Elems;
      assert allocated(Nodes(cache.tree)) && allocated(Elems(cache.tree));
      AllVisited();
      Lock();
      var visited := cache.Traverse(ClearVisit(dir), (fs, 0));
      fs, errors := visited.0, visited.1;
      history := history + [Event.Clear];
      Unlock();
    }

    /** The keys in increasing order, then as many empty strings as the counter is too high by. */
    method Keys() returns (keys: seq<Key>)
      requires Valid()
      modifies `locked
      ensures Valid()
      ensures keys == KeysOf(InOrder(cache.tree)) + Blank(cache.Length - Size(cache.tree))
    {
      hide Less, Rep, Find, HashOf, Counters, Index, Steady, BST, ItemSet;
      assert allocated(Nodes(cache.tree)) && allocated(Elems(cache.tree));
      ToFind([]);
      ElemsListed(cache.tree);
      KeysVisits(cache.Length, InOrder(cache.tree));
      Lock();
      var s := cache.Traverse(KeysVisit, KeysState(seq(cache.Len(), _ => []), 0, false));
      assert Blank(cache.Length) == seq(cache.Len(), _ => []);
      keys := s.keys;
      Unlock();
    }

    /** The calls of a sweep started in this state, the mutex held. */
    lemma WholeSweep(now: int)
      requires Steady() && Clock(history, start) <= now
      ensures var t, c := cache.tree, Counters(cache.tree);
              var xs, ttls := PostOrder(t), TTLs(PostOrder(t));
              var s := SweepState(Guarded(fs, true), false);
              var calls := CallAll(CleanupPredicate(dir, cleanupInterval), s, xs, ttls);
              var h := history + [Sweep(now)];
              && BST(t) && Indexed(t, c, ttls) && |ttls| == |xs|
              && SweptAnswers(ttls, cleanupInterval, calls.answers, calls.ttls)
              && calls.state.g.locked && !calls.state.panicked
              && Stands(SweptCounters(c, cleanupInterval), calls.state.g.fs, dir, h, start, cleanupInterval)
              && calls.state.g.fs.files == fs.files - PathsOf(dir, Overdue(c, cleanupInterval))
              && Run(h, start, cleanupInterval) == SweepStep(Plain(), now, cleanupInterval)
    {
      hide Less, Rep, BST, Find, Stands, Run, Clock, HashOf, CallAll, PathsOf, Overdue,
        SweptCounters, CleanupPredicate, Sound, AllFileKeys, Index, Counters, SweptAnswers;
      var t, c := cache.tree, Counters(cache.tree);
      var xs, ttls := PostOrder(t), TTLs(PostOrder(t));
      var s := SweepState(Guarded(fs, true), false);
      KeysLive();
      TreeKeys();
      TreeIndexed(t);
      CleanupCalls(dir, cleanupInterval, s, xs, ttls);
      var calls := CallAll(CleanupPredicate(dir, cleanupInterval), s, xs, ttls);
      OverduePaths(t, dir, cleanupInterval, c, ttls, calls.answers, calls.ttls);
      OnSweep(c, fs, calls.state.g.fs, dir, history, start, cleanupInterval, now);
    }

    /** The worker's tick: a sweep under the lock. The predicate's re-entrant deletes find their items,
        so nothing panics, and the lock is still the worker's to give back. */
    method Tick(now: int) returns (panicked: bool)
      requires Valid() && Clock(history, start) <= now
      modifies this, cache, Nodes(cache.tree), Elems(cache.tree)`TTL
      ensures Valid() && !panicked && history == old(history) + [Sweep(now)] && lastTick == now
      ensures Nodes(cache.tree) <= old(Nodes(cache.tree)) && Elems(cache.tree) <= old(Elems(cache.tree))
      ensures Plain() == SweepStep(old(Plain()), now, cleanupInterval)
      ensures Counters(cache.tree) == SweptCounters(old(Counters(cache.tree)), cleanupInterval)
      ensures fs.files == old(fs).files - PathsOf(dir, Overdue(old(Counters(cache.tree)), cleanupInterval))
      ensures View() == Overlap.Do(old(View()), Overlap.Sweep(now), dir, cleanupInterval)
    {
      hide Less, Rep, BST, Find, Stands, Run, Clock, HashOf, Counters, Index, CallAll, Taken, Prune, PathsOf, Overdue,
        SweptCounters, CleanupPredicate, TTLs, PostOrder, Nodes, Elems, SweptAnswers, Indexed, InOrder, Filter,
        DeadNodes, LostHits, SpineHits, Size, Height, Overlap.Do;
      Overlap.DoSweep(View(), now, dir, cleanupInterval);
      assert allocated(Nodes(cache.tree)) && allocated(Elems(cache.tree));
      ghost var c, t := Counters(cache.tree), cache.tree;
      ghost var xs, ttls := PostOrder(t), TTLs(PostOrder(t));
      WholeSweep(now);
      Lock();
      var before := SweepState(Guarded(fs, locked), false);
      var _, after := cache.DeleteIf(CleanupPredicate(dir, cleanupInterval), before);
      SweptTree(t, cleanupInterval, c, ttls, CallAll(CleanupPredicate(dir, cleanupInterval), before, xs, ttls).answers);
      fs, locked, panicked := after.g.fs, after.g.locked, after.panicked;
      history, lastTick := history + [Sweep(now)], now;
      assert allocated(Nodes(cache.tree)) && allocated(Elems(cache.tree));
      Unlock();
    }

    /** The counters left by a check of the files. */
    lemma Purged(t: Tree, c: map<Key, int>, ttls: seq<int>)
      requires BST(t) && Indexed(t, c, ttls) && TTLs(PostOrder(t)) == ttls && Hashed(Elems(t))
      requires BST(cache.tree) && Elems(cache.tree) == Present(fs, dir, Elems(t))
      requires Stands(c, fs, dir, history, start, cleanupInterval)
      ensures Stands(Counters(cache.tree), fs, dir, history, start, cleanupInterval)
    {
      hide Less, BST, Stands, Run, HashOf, IsThere, Index;
      var c' := Counters(cache.tree);
      IndexValues(cache.tree);
      IndexValues(t);
      forall k | k in c' ensures k in c && c'[k] == c[k] {
        IndexChange(t, cache.tree, k);
        var i := Position(t, k);
        assert c[PostOrder(t)[i].key] == ttls[i] && TTLs(PostOrder(t))[i] == PostOrder(t)[i].TTL;
      }
      forall k | k in c && PathOf(dir, k) in fs.files ensures k in c' {
        IndexChange(t, cache.tree, k);
        Found(fs, PathOf(dir, k));
      }
      OnPurge(c, c', fs, dir, history, start, cleanupInterval);
    }

    /** When every item in the tree has its file, the keys in the tree are the live ones. */
    lemma PurgedLive()
      requires Steady()
      requires Elems(cache.tree) == Present(fs, dir, Elems(cache.tree))
      ensures Counters(cache.tree).Keys == Plain().entries.Keys
    {
      hide DirsWithout, Less, BST, Rep, Stands, Run, HashOf, ItemPath;
      KeysLive();
      forall k | k in Counters(cache.tree) ensures k in Plain().entries {
        CounterAt(cache.tree, k);
        LiveWithFile(k);
        DeleteFile(fs, dir, k);
        PathIs(dir, k);
      }
    }

    /** Takes out of the tree the items whose file is not there, and nothing else. It only asks for a search tree,
        so it applies to a tree just loaded; on a cache already running the plain map does not change. */
    method VerifyIntegrity() returns (errs: Option<seq<Key>>)
      requires cache.Valid()
      modifies cache, Nodes(cache.tree), Elems(cache.tree)`TTL
      ensures cache.Valid() && Nodes(cache.tree) <= old(Nodes(cache.tree))
      ensures Elems(cache.tree) ==
              set x | x in old(Elems(cache.tree))
                      && (ItemPath(dir, x.hash, x.key) in fs.files || ItemPath(dir, x.hash, x.key) in fs.dirs)
      ensures errs == (var missing := old(MissingKeys(fs, dir, PostOrder(cache.tree)));
                       if missing == [] then None else Some(missing))
      ensures Size(cache.tree) == old(Size(cache.tree)) - if errs.None? then 0 else |errs.value|
      ensures errs.None? <==> Elems(cache.tree) == old(Elems(cache.tree))
      ensures TTLs(old(PostOrder(cache.tree))) == old(TTLs(PostOrder(cache.tree)))
      ensures (set k | errs.Some? && k in errs.value) == KeySet(old(Elems(cache.tree)) - Elems(cache.tree))
      ensures old(Steady()) ==> Steady() && Counters(cache.tree).Keys == Plain().entries.Keys
    {
      hide Less, Rep, BST, Find, CallAll, Taken, Prune, IntegrityPredicate, TTLs, MissingKeys, Present, Size, PostOrder,
        Counters, Index, Stands, Run, HashOf, KeySet;
      PresentMeans(fs, dir, Elems(cache.tree));
      PresentTwice(fs, dir, Elems(cache.tree));
      MissingSet(fs, dir, cache.tree);
      assert allocated(Nodes(cache.tree)) && allocated(Elems(cache.tree));
      ghost var t, c, ttls := cache.tree, Counters(cache.tree), TTLs(PostOrder(cache.tree));
      TreeIndexed(t);
      IntegrityCalls(fs, dir, PostOrder(t), TTLs(PostOrder(t)));
      TakenIsMissing(t, fs, dir, CallAll(IntegrityPredicate(fs, dir), [], PostOrder(t), TTLs(PostOrder(t))).answers);
      var _, missing := cache.DeleteIf(IntegrityPredicate(fs, dir), []);
      errs := if missing == [] then None else Some(missing);
      if old(Steady()) {
        Purged(t, c, ttls);
        PurgedLive();
      }
    }
  }
}
