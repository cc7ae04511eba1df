/** The part of the file system the cache uses, as a value, and an item's operations on it.
    Each operation is one atomic step; the only errors are those the tree of files itself gives rise to. */
module FileSystem {
  import opened Keys
  import opened Items

  type Name = seq<byte>
  type Path = seq<Name>

  datatype FS = FS(files: map<Path, seq<byte>>, dirs: set<Path>)

  datatype FsError = NotExist | IsDirectory | NotDirectory | NotEmpty

  // ---------------------------------------------------------------- paths

  /** The number that digits stand for, read from left to right. */
  function Read10(s: Name): int {
    if s == [] then 0 else 10 * Read10(s[..|s| - 1]) + (s[|s| - 1] as int - 48)
  }

  /** `strconv.FormatUint(n, 10)`. */
  function Decimal(n: nat): (s: Name)
    ensures s != [] && forall i :: 0 <= i < |s| ==> '0' <= s[i] as char <= '9'
    ensures Read10(s) == n && (s[0] as char == '0' ==> n == 0 && |s| == 1)
  {
    if n < 10 then
      assert [48 + n][..0] == [];
      [48 + n]
    else
      var front := Decimal(n / 10);
      assert (front + [48 + n % 10])[..|front|] == front;
      front + [48 + n % 10]
  }

  /** `filepath.Join` of a clean absolute path and one slash-free name: ".." goes up, "." and "" stay. */
  function JoinPath(p: Path, name: Name): Path {
    if name == DOTDOT then (if p == [] then [] else p[..|p| - 1])
    else if name == [] || name == [DOT] then p
    else p + [name]
  }

  function ItemDir(dir: Path, hash: nat): Path {
    JoinPath(dir, Decimal(hash))
  }

  function ItemPath(dir: Path, hash: nat, key: Key): Path {
    JoinPath(ItemDir(dir, hash), key)
  }

  /** Where the file of a key is. */
  ghost function PathOf(dir: Path, key: Key): Path {
    ItemPath(dir, HashOf(key), key)
  }

  lemma DirShape(dir: Path, hash: nat)
    ensures ItemDir(dir, hash) == dir + [Decimal(hash)]
  {
    assert 48 <= Decimal(hash)[0];
  }

  lemma PathShape(dir: Path, hash: nat, key: Key)
    requires IsValidKey(key)
    ensures ItemDir(dir, hash) == dir + [Decimal(hash)]
    ensures ItemPath(dir, hash, key) == if key == DOTDOT then dir else dir + [Decimal(hash), key]
  {
    DirShape(dir, hash);
  }

  /** Two items share a file only if they share the key, whatever their hashes. */
  lemma PathsInjective(dir: Path, h1: nat, k1: Key, h2: nat, k2: Key)
    requires IsFileKey(k1) && IsFileKey(k2)
    ensures ItemPath(dir, h1, k1) == ItemPath(dir, h2, k2) ==> k1 == k2
    ensures ItemPath(dir, h1, k1) != ItemDir(dir, h2)
  {
    PathShape(dir, h1, k1);
    DirShape(dir, h2);
    var p1, p2 := ItemPath(dir, h1, k1), ItemPath(dir, h2, k2);
    assert p1[|p1| - 1] == k1 && p2[|p2| - 1] == k2;
  }

  // ---------------------------------------------------------------- the operating system's calls

  function MkdirAll(fs: FS, p: Path): (FS, Option<FsError>) {
    if exists i :: 0 <= i <= |p| && p[..i] in fs.files then (fs, Some(NotDirectory))
    else (fs.(dirs := fs.dirs + set i | 0 <= i <= |p| :: p[..i]), None)
  }

  function Create(fs: FS, p: Path): (FS, Option<FsError>) {
    if p in fs.dirs then (fs, Some(IsDirectory))
    else if p == [] || p[..|p| - 1] !in fs.dirs then (fs, Some(NotExist))
    else (fs.(files := fs.files[p := []]), None)
  }

  function Append(fs: FS, p: Path, value: seq<byte>): FS
    requires p in fs.files
  {
    fs.(files := fs.files[p := fs.files[p] + value])
  }

  predicate IsEmptyDir(fs: FS, p: Path) {
    && (forall q <- fs.files :: |q| != |p| + 1 || q[..|p|] != p)
    && (forall q <- fs.dirs :: |q| != |p| + 1 || q[..|p|] != p)
  }

  function RemoveFile(fs: FS, p: Path): (FS, Option<FsError>) {
    if p in fs.files then (fs.(files := fs.files - {p}), None)
    else if p !in fs.dirs then (fs, Some(NotExist))
    else if !IsEmptyDir(fs, p) then (fs, Some(NotEmpty))
    else (fs.(dirs := fs.dirs - {p}), None)
  }

  predicate Exists(fs: FS, p: Path) {
    p in fs.files || p in fs.dirs
  }

  // ---------------------------------------------------------------- an item's operations

  datatype WriteError = StillTooShort | Failed(error: FsError)

  /** `write`: the files after it, and what it sends on the item's reply channel, in order.
      The first check sends without returning, so an item with a short TTL would send twice. */
  function WriteItem(fs: FS, dir: Path, hash: nat, key: Key, ttl: int, value: seq<byte>)
    : (FS, seq<Option<WriteError>>)
  {
    var first := if ttl <= SECOND then [Some(StillTooShort)] else [];
    var (made, e1) := MkdirAll(fs, ItemDir(dir, hash));
    if e1.Some? then (made, first + [Some(Failed(e1.value))])
    else
      var p := ItemPath(dir, hash, key);
      var (created, e2) := Create(made, p);
      if e2.Some? then (created, first + [Some(Failed(e2.value))])
      else (Append(created, p, value), first + [None])
  }

  function RemoveIfEmpty(fs: FS, p: Path): (FS, Option<FsError>) {
    if p !in fs.dirs then (fs, Some(if p in fs.files then NotDirectory else NotExist))
    else if IsEmptyDir(fs, p) then RemoveFile(fs, p)
    else (fs, None)
  }

  /** `delete`: a file that is not there is no error. */
  function DeleteItem(fs: FS, dir: Path, hash: nat, key: Key): (FS, Option<FsError>) {
    var (removed, e) := RemoveFile(fs, ItemPath(dir, hash, key));
    if e == Some(NotExist) then (removed, None)
    else if e.Some? then (removed, e)
    else RemoveIfEmpty(removed, ItemDir(dir, hash))
  }

  datatype ReadResult = Contents(value: seq<byte>) | Expired | ReadFailed(error: FsError)

  /** `read`: an expired item deletes its file instead. */
  function ReadItem(fs: FS, dir: Path, hash: nat, key: Key, ttl: int): (FS, ReadResult) {
    var p := ItemPath(dir, hash, key);
    if ttl <= 0 then (DeleteItem(fs, dir, hash, key).0, Expired)
    else if p in fs.files then (fs, Contents(fs.files[p]))
    else if p in fs.dirs then (fs, ReadFailed(IsDirectory))
    else (fs, ReadFailed(NotExist))
  }

  // ---------------------------------------------------------------- what the cache can rely on

  /** Nothing else in the tree of files stands where the cache's directories and files go. */
  ghost predicate Sound(fs: FS, dir: Path) {
    && (forall i :: 0 <= i <= |dir| ==> dir[..i] !in fs.files)
    && (forall h: nat :: ItemDir(dir, h) !in fs.files)
    && (forall h: nat, k: Key :: IsFileKey(k) ==> ItemPath(dir, h, k) !in fs.dirs)
    && (forall p :: p in fs.files ==> p != [] && p[..|p| - 1] in fs.dirs)
  }

  lemma MkdirItemDir(fs: FS, dir: Path, hash: nat)
    requires Sound(fs, dir)
    ensures var (made, e) := MkdirAll(fs, ItemDir(dir, hash));
            && e.None? && made.files == fs.files && Sound(made, dir)
            && (forall q :: q in made.dirs <==> q in fs.dirs || q <= ItemDir(dir, hash))
  {
    var p := ItemDir(dir, hash);
    DirShape(dir, hash);
    forall i | 0 <= i <= |p| ensures p[..i] !in fs.files {
      if i <= |dir| {
        assert p[..i] == dir[..i];
      } else {
        assert p[..i] == p;
      }
    }
    var made := MkdirAll(fs, p).0;
    assert p[..|p|] == p;
    forall q ensures q in made.dirs <==> q in fs.dirs || q <= p {
      if q <= p {
        assert p[..|q|] == q;
      }
    }
    forall h: nat, k: Key | IsFileKey(k) ensures ItemPath(dir, h, k) !in made.dirs {
      PathShape(dir, h, k);
    }
  }

  /** Writing a file key's value gives exactly one reply, success, and changes that one file and no other; its hash
      directory and those above it are there afterwards, and no other directory is made. */
  lemma WriteOne(fs: FS, dir: Path, hash: nat, key: Key, ttl: int, value: seq<byte>)
    requires Sound(fs, dir) && IsFileKey(key) && ttl > SECOND
    ensures var (after, replies) := WriteItem(fs, dir, hash, key, ttl, value);
            && replies == [None] && Sound(after, dir)
            && after.files == fs.files[ItemPath(dir, hash, key) := value]
            && (forall q :: q in after.dirs <==> q in fs.dirs || q <= ItemDir(dir, hash))
  {
    MkdirItemDir(fs, dir, hash);
    PathShape(dir, hash, key);
    var made := MkdirAll(fs, ItemDir(dir, hash)).0;
    var p := ItemPath(dir, hash, key);
    assert p[..|p| - 1] == ItemDir(dir, hash);
    var after := Append(Create(made, p).0, p, value);
    assert [] + value == value;
    forall h: nat ensures ItemDir(dir, h) !in after.files {
      PathsInjective(dir, hash, key, h, key);
    }
  }

  /** ".." is a valid key whose path is the cache directory: its write always fails and changes no file. */
  lemma WriteDotDot(fs: FS, dir: Path, hash: nat, ttl: int, value: seq<byte>)
    requires Sound(fs, dir) && ttl > SECOND
    ensures IsValidKey(DOTDOT) && |DOTDOT| == 2 && DOTDOT[0] as char == DOTDOT[1] as char == '.'
    ensures var (after, replies) := WriteItem(fs, dir, hash, DOTDOT, ttl, value);
            && replies == [Some(Failed(IsDirectory))] && Sound(after, dir) && after.files == fs.files
            && (forall q :: q in after.dirs <==> q in fs.dirs || q <= ItemDir(dir, hash))
  {
    MkdirItemDir(fs, dir, hash);
    PathShape(dir, hash, DOTDOT);
  }

  /** Something in the directory d, other than p. */
  ghost predicate Others(fs: FS, d: Path, p: Path) {
    exists q :: (q in fs.files || q in fs.dirs) && q != p && q != [] && q[..|q| - 1] == d
  }

  lemma EmptyIffAlone(fs: FS, removed: FS, d: Path, p: Path)
    requires removed == fs.(files := fs.files - {p}) && p !in fs.dirs
    ensures IsEmptyDir(removed, d) <==> !Others(fs, d, p)
    ensures IsEmptyDir(removed, d) ==> forall q :: q in removed.files && q != [] ==> q[..|q| - 1] != d
  {
    if !IsEmptyDir(removed, d) {
      var q :| (q in removed.files || q in removed.dirs) && |q| == |d| + 1 && q[..|d|] == d;
      assert q != [] && q[..|q| - 1] == d && q != p;
    }
    if Others(fs, d, p) {
      var q :| (q in fs.files || q in fs.dirs) && q != p && q != [] && q[..|q| - 1] == d;
      assert q in removed.files || q in removed.dirs;
    }
  }

  /** The directories left when a key's file is removed: its hash directory goes exactly if nothing else is in it. */
  ghost function DirsWithout(fs: FS, dir: Path, key: Key): set<Path> {
    var p, d := PathOf(dir, key), ItemDir(dir, HashOf(key));
    if p in fs.files && !Others(fs, d, p) then fs.dirs - {d} else fs.dirs
  }

  /** Deleting a file key's file succeeds, there or not, and changes no other file. If it was there, its hash directory
      stays if and only if it holds something else; no other directory changes. */
  lemma DeleteOne(fs: FS, dir: Path, hash: nat, key: Key)
    requires Sound(fs, dir) && IsFileKey(key)
    ensures var (after, e) := DeleteItem(fs, dir, hash, key);
            && e.None? && Sound(after, dir) && after.files == fs.files - {ItemPath(dir, hash, key)}
    ensures var p, d := ItemPath(dir, hash, key), ItemDir(dir, hash);
            DeleteItem(fs, dir, hash, key).0.dirs ==
            if p in fs.files && !Others(fs, d, p) then fs.dirs - {d} else fs.dirs
    ensures ItemPath(dir, hash, key) in fs.files ==> ItemDir(dir, hash) in fs.dirs
  {
    hide IsEmptyDir, Others;
    PathShape(dir, hash, key);
    var p, d := ItemPath(dir, hash, key), ItemDir(dir, hash);
    var after := DeleteItem(fs, dir, hash, key).0;
    if p in fs.files {
      assert p[..|p| - 1] == d;
      var removed := RemoveFile(fs, p).0;
      assert d in removed.dirs && d !in removed.files;
      EmptyIffAlone(fs, removed, d, p);
      forall q | q in after.files ensures q != [] && q[..|q| - 1] in after.dirs {
        assert q in removed.files;
        if q[..|q| - 1] == d {
          assert |q| == |d| + 1 && q[..|d|] == d;
        }
      }
    }
  }

  /** A read finds an item expired exactly when no time is left, and then removes its file; otherwise it changes
      nothing, and gives the bytes exactly if there is a file. */
  lemma ReadMeans(fs: FS, dir: Path, hash: nat, key: Key, ttl: int)
    requires Sound(fs, dir) && IsFileKey(key)
    ensures var (after, r) := ReadItem(fs, dir, hash, key, ttl);
            && (r.Expired? <==> ttl <= 0)
            && (ttl <= 0 ==> after.files == fs.files - {ItemPath(dir, hash, key)})
            && (ttl > 0 ==> after == fs)
            && (ttl > 0 ==>
                  if ItemPath(dir, hash, key) in fs.files then r == Contents(fs.files[ItemPath(dir, hash, key)])
                  else if ItemPath(dir, hash, key) in fs.dirs then r == ReadFailed(IsDirectory)
                  else r == ReadFailed(NotExist))
  {
    DeleteOne(fs, dir, hash, key);
  }

  /** What one key's write or delete leaves of another key's file, whether or not their hashes collide. */
  lemma OtherFilesUntouched(fs: FS, dir: Path, key: Key, other: Key, ttl: int, value: seq<byte>)
    requires Sound(fs, dir) && IsFileKey(key) && IsFileKey(other) && key != other && ttl > SECOND
    ensures var p := PathOf(dir, other);
            var written := WriteItem(fs, dir, HashOf(key), key, ttl, value).0.files;
            var deleted := DeleteItem(fs, dir, HashOf(key), key).0.files;
            && (p in written <==> p in fs.files) && (p in fs.files ==> written[p] == fs.files[p])
            && (p in deleted <==> p in fs.files) && (p in fs.files ==> deleted[p] == fs.files[p])
  {
    WriteOne(fs, dir, HashOf(key), key, ttl, value);
    DeleteOne(fs, dir, HashOf(key), key);
    PathsInjective(dir, HashOf(key), key, HashOf(other), other);
  }
}
