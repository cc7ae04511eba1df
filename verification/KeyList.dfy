/** The list of keys on its way to the client: joined by the server, trimmed and split by the client. */
module KeyList {
  import opened Keys
  import opened Trees
  import opened FileCaches

  /** `strings.Join(keys, ",")`. */
  function JoinKeys(keys: seq<Key>): seq<byte> {
    if keys == [] then []
    else if |keys| == 1 then keys[0]
    else keys[0] + [COMMA] + JoinKeys(keys[1..])
  }

  function TrimLeft(s: seq<byte>): seq<byte> {
    if s != [] && s[0] == COMMA then TrimLeft(s[1..]) else s
  }

  function TrimRight(s: seq<byte>): seq<byte> {
    if s != [] && s[|s| - 1] == COMMA then TrimRight(s[..|s| - 1]) else s
  }

  /** `bytes.Trim(s, ",")`. */
  function Trim(s: seq<byte>): seq<byte> {
    TrimRight(TrimLeft(s))
  }

  /** `strings.Split(s, ",")`: one part more than there are commas, so the empty string has one part. */
  function Split(s: seq<byte>): (parts: seq<seq<byte>>)
    ensures parts != []
  {
    if s == [] then [[]]
    else
      var rest := Split(s[1..]);
      if s[0] == COMMA then [[]] + rest else [[s[0]] + rest[0]] + rest[1..]
  }

  /** Splitting undoes joining and the parts hold no comma, for every string. */
  lemma JoinFirst(first: Key, rest: seq<Key>)
    requires rest != []
    ensures JoinKeys([first] + rest) == first + [COMMA] + JoinKeys(rest)
  {
    assert ([first] + rest)[1..] == rest;
  }

  lemma JoinOne(first: Key)
    ensures JoinKeys([first]) == first
  {
  }

  /** One byte more in front: a part of its own, or a longer first part. */
  lemma JoinLonger(c: byte, rest: seq<Key>)
    requires rest != []
    ensures JoinKeys([[]] + rest) == [COMMA] + JoinKeys(rest)
    ensures JoinKeys([[c] + rest[0]] + rest[1..]) == [c] + JoinKeys(rest)
  {
    hide JoinKeys;
    JoinFirst([], rest);
    assert rest == [rest[0]] + rest[1..];
    if rest[1..] == [] {
      JoinOne(rest[0]);
      JoinOne([c] + rest[0]);
      assert rest == [rest[0]] && [[c] + rest[0]] + rest[1..] == [[c] + rest[0]];
    } else {
      JoinFirst(rest[0], rest[1..]);
      JoinFirst([c] + rest[0], rest[1..]);
      var more := [COMMA] + JoinKeys(rest[1..]);
      assert [c] + rest[0] + more == [c] + (rest[0] + more);
    }
  }

  lemma {:induction false} SplitMeans(s: seq<byte>)
    ensures JoinKeys(Split(s)) == s
    ensures forall i, j :: 0 <= i < |Split(s)| && 0 <= j < |Split(s)[i]| ==> Split(s)[i][j] as char != ','
  {
    if s == [] {
    } else {
      SplitMeans(s[1..]);
      hide JoinKeys;
      assert s == [s[0]] + s[1..];
      JoinLonger(s[0], Split(s[1..]));
    }
  }

  predicate IsSpace(b: byte) {
    b == 32 || 9 <= b <= 13
  }

  /** `strings.TrimSpace`, on ASCII. */
  function TrimSpace(s: seq<byte>): seq<byte> {
    if s != [] && IsSpace(s[0]) then TrimSpace(s[1..])
    else if s != [] && IsSpace(s[|s| - 1]) then TrimSpace(s[..|s| - 1])
    else s
  }

  /** Tab, line feed, vertical tab, form feed, carriage return and space. */
  ghost predicate White(b: byte) {
    b in [9, 10, 11, 12, 13, 32]
  }

  ghost predicate AllBlank(s: seq<byte>) {
    forall n :: 0 <= n < |s| ==> White(s[n])
  }

  lemma SpaceIsBlank(b: byte)
    ensures IsSpace(b) <==> White(b)
  {
  }

  lemma BlankPrefix(s: seq<byte>, i: nat)
    requires i < |s| && White(s[0]) && AllBlank(s[1..][..i])
    ensures AllBlank(s[..i + 1])
  {
    hide White;
    assert s[..i + 1] == [s[0]] + s[1..][..i];
  }

  lemma BlankSuffix(s: seq<byte>, j: nat)
    requires j < |s| && White(s[|s| - 1]) && AllBlank(s[..|s| - 1][j..])
    ensures AllBlank(s[j..])
  {
    hide White;
    assert s[j..] == s[..|s| - 1][j..] + [s[|s| - 1]];
  }

  /** What is trimmed off either end is white space, and what is left neither begins nor ends with any. */
  lemma {:induction false} TrimSpaceMeans(s: seq<byte>) returns (i: nat, j: nat)
    ensures i <= j <= |s| && TrimSpace(s) == s[i..j]
    ensures AllBlank(s[..i]) && AllBlank(s[j..])
    ensures i < j ==> !White(s[i]) && !White(s[j - 1])
    decreases |s|
  {
    hide White, IsSpace;
    if s == [] {
      i, j := 0, 0;
    } else if IsSpace(s[0]) {
      SpaceIsBlank(s[0]);
      i, j := TrimSpaceMeans(s[1..]);
      BlankPrefix(s, i);
      assert s[1..][i..j] == s[i + 1..j + 1] && s[1..][j..] == s[j + 1..];
      i, j := i + 1, j + 1;
    } else if IsSpace(s[|s| - 1]) {
      SpaceIsBlank(s[|s| - 1]);
      i, j := TrimSpaceMeans(s[..|s| - 1]);
      BlankSuffix(s, j);
      assert s[..|s| - 1][i..j] == s[i..j] && s[..|s| - 1][..i] == s[..i];
    } else {
      SpaceIsBlank(s[0]);
      SpaceIsBlank(s[|s| - 1]);
      i, j := 0, |s|;
    }
  }

  ghost function TrimAll(parts: seq<seq<byte>>): (trimmed: seq<seq<byte>>)
    ensures |trimmed| == |parts|
  {
    seq(|parts|, i requires 0 <= i < |parts| => TrimSpace(parts[i]))
  }

  ghost function Parsed(value: seq<byte>): seq<Key> {
    TrimAll(Split(Trim(value)))
  }

  /** The client's loop, which rewrites the parts in place; what it checks about them it ignores. */
  method ParseKeys(value: seq<byte>) returns (keys: seq<Key>)
    ensures keys == Parsed(value)
  {
    var parts := Split(Trim(value));
    keys := parts;
    for i := 0 to |keys|
      invariant |keys| == |parts|
      invariant forall j :: 0 <= j < i ==> keys[j] == TrimSpace(parts[j])
      invariant forall j :: i <= j < |keys| ==> keys[j] == parts[j]
    {
      keys := keys[i := TrimSpace(keys[i])];
    }
  }

  // ---------------------------------------------------------------- what arrives

  ghost predicate AllValid(keys: seq<Key>) {
    forall i :: 0 <= i < |keys| ==> IsValidKey(keys[i])
  }

  ghost function Commas(n: nat): seq<byte> {
    seq(n, _ => COMMA)
  }

  lemma {:induction false} SplitFirst(k: seq<byte>, rest: seq<byte>)
    requires COMMA !in k
    ensures Split(k + [COMMA] + rest) == [k] + Split(rest) && Split(k) == [k]
  {
    if k == [] {
      assert k + [COMMA] + rest == [COMMA] + rest;
      assert ([COMMA] + rest)[1..] == rest;
    } else {
      SplitFirst(k[1..], rest);
      assert (k + [COMMA] + rest)[1..] == k[1..] + [COMMA] + rest;
      assert [k[0]] + k[1..] == k;
    }
  }

  lemma ValidChars(k: Key)
    requires IsValidKey(k)
    ensures k != [] && COMMA !in k && TrimSpace(k) == k
  {
    assert IsKeyChar(k[0]) && IsKeyChar(k[|k| - 1]);
  }

  lemma {:induction false} SplitJoined(keys: seq<Key>)
    requires keys != [] && AllValid(keys)
    ensures Split(JoinKeys(keys)) == keys
  {
    hide JoinKeys, Split, IsValidKey;
    var first, rest := keys[0], keys[1..];
    ValidChars(first);
    SplitFirst(first, if rest == [] then [] else JoinKeys(rest));
    assert keys == [first] + rest;
    if rest == [] {
      assert keys == [first];
      JoinOne(first);
    } else {
      JoinFirst(first, rest);
      SplitJoined(rest);
    }
  }

  lemma {:induction false} JoinBlanks(k: Key, n: nat)
    ensures JoinKeys([k] + Blank(n)) == k + Commas(n)
    decreases n
  {
    if n == 0 {
      assert [k] + Blank(0) == [k];
    } else {
      assert ([k] + Blank(n))[1..] == [[]] + Blank(n - 1);
      JoinBlanks([], n - 1);
      assert [COMMA] + Commas(n - 1) == Commas(n);
    }
  }

  lemma {:induction false} JoinPadded(keys: seq<Key>, n: nat)
    requires keys != []
    ensures JoinKeys(keys + Blank(n)) == JoinKeys(keys) + Commas(n)
  {
    if |keys| == 1 {
      JoinBlanks(keys[0], n);
      assert keys == [keys[0]];
    } else {
      assert (keys + Blank(n))[1..] == keys[1..] + Blank(n);
      JoinPadded(keys[1..], n);
    }
  }

  lemma {:induction false} JoinEnds(keys: seq<Key>)
    requires keys != [] && AllValid(keys)
    ensures var s := JoinKeys(keys); s != [] && s[0] != COMMA && s[|s| - 1] != COMMA
  {
    ValidChars(keys[0]);
    if |keys| == 1 {
    } else {
      JoinEnds(keys[1..]);
    }
  }

  lemma {:induction false} TrimRightCommas(s: seq<byte>, n: nat)
    requires s != [] ==> s[|s| - 1] != COMMA
    ensures TrimRight(s + Commas(n)) == s
  {
    if n == 0 {
      assert s + Commas(0) == s;
    } else {
      assert (s + Commas(n))[..|s| + n - 1] == s + Commas(n - 1);
      TrimRightCommas(s, n - 1);
    }
  }

  lemma {:induction false} OnlyCommas(n: nat)
    ensures TrimLeft(Commas(n)) == []
  {
    if n == 0 {
    } else {
      assert Commas(n)[1..] == Commas(n - 1);
      OnlyCommas(n - 1);
    }
  }

  /** However many empty strings follow them, the keys arrive as they are, unless there are none:
      then the client gets one empty key. */
  lemma ListArrives(keys: seq<Key>, n: nat)
    requires AllValid(keys)
    ensures Parsed(JoinKeys(keys + Blank(n))) == if keys == [] then [[]] else keys
  {
    if keys == [] {
      var k := if n == 0 then 0 else n - 1;
      assert JoinKeys(keys + Blank(n)) == Commas(k) by {
        if n == 0 {
          assert keys + Blank(0) == [];
        } else {
          assert keys + Blank(n) == [[]] + Blank(n - 1);
          JoinBlanks([], n - 1);
        }
      }
      OnlyCommas(k);
    } else {
      JoinPadded(keys, n);
      JoinEnds(keys);
      TrimRightCommas(JoinKeys(keys), n);
      SplitJoined(keys);
      forall i | 0 <= i < |keys| ensures TrimSpace(keys[i]) == keys[i] {
        ValidChars(keys[i]);
      }
    }
  }

  ghost predicate Increasing(keys: seq<Key>) {
    forall i, j :: 0 <= i < j < |keys| ==> Less(keys[i], keys[j])
  }

  /** The keys of a search tree, as its walk lists them. */
  lemma TreeListed(t: Tree)
    requires BST(t) && AllFileKeys(InOrder(t))
    ensures var keys := KeysOf(InOrder(t));
            && AllValid(keys) && Increasing(keys) && |keys| == Size(t)
            && (forall k :: k in keys <==> k in Index(t))
  {
    hide Less, BST, Index, Elems, InOrder, PostOrder, Size, CheckKey;
    var keys := KeysOf(InOrder(t));
    SearchTreeIffSorted(t);
    ElemsListed(t);
    IndexValues(t);
    forall i | 0 <= i < |keys| ensures IsValidKey(keys[i]) && keys[i] in Index(t) {
      assert InOrder(t)[i] in ItemSet(InOrder(t));
      IndexElems(t, InOrder(t)[i]);
    }
    forall k | k in Index(t) ensures k in keys {
      assert Index(t)[k] in ItemSet(InOrder(t));
      var i :| 0 <= i < |InOrder(t)| && InOrder(t)[i] == Index(t)[k];
      assert keys[i] == k;
    }
  }

  lemma LeafIsEmpty(t: Tree)
    ensures Size(t) == 0 <==> t.Leaf?
  {
  }

  /** End to end: the client's list is the tree's keys in strictly increasing order exactly when the tree is not empty,
      whatever the counter that sized the array is too high by. */
  lemma TreeArrives(t: Tree, length: int)
    requires BST(t) && Size(t) <= length && AllFileKeys(InOrder(t))
    ensures var keys := KeysOf(InOrder(t));
            && AllValid(keys) && Increasing(keys) && |keys| == Size(t)
            && (forall k :: k in keys <==> k in Index(t))
            && (Parsed(JoinKeys(keys + Blank(length - Size(t)))) == keys <==> t.Branch?)
  {
    hide *;
    TreeListed(t);
    LeafIsEmpty(t);
    ListArrives(KeysOf(InOrder(t)), length - Size(t));
  }
}
