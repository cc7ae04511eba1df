/** What the pointer tree means: trees as values that still name the heap nodes they are made of. */
module Trees {
  import opened Keys
  import opened Items

  class Node {
    var Val: Item
    var Left: Node?
    var Right: Node?

    constructor (v: Item)
      ensures Val == v && Left == null && Right == null
    {
      Val, Left, Right := v, null, null;
    }
  }

  datatype Tree = Leaf | Branch(node: Node, item: Item, left: Tree, right: Tree)

  ghost function Nodes(t: Tree): set<Node> {
    if t.Leaf? then {} else {t.node} + Nodes(t.left) + Nodes(t.right)
  }

  ghost function Elems(t: Tree): set<Item> {
    if t.Leaf? then {} else {t.item} + Elems(t.left) + Elems(t.right)
  }

  ghost function InOrder(t: Tree): seq<Item> {
    if t.Leaf? then [] else InOrder(t.left) + [t.item] + InOrder(t.right)
  }

  ghost function PostOrder(t: Tree): seq<Item> {
    if t.Leaf? then [] else PostOrder(t.left) + PostOrder(t.right) + [t.item]
  }

  ghost function Size(t: Tree): nat {
    if t.Leaf? then 0 else 1 + Size(t.left) + Size(t.right)
  }

  function Max(a: int, b: int): int {
    if a > b then a else b
  }

  ghost function Height(t: Tree): nat {
    if t.Leaf? then 0 else 1 + Max(Height(t.left), Height(t.right))
  }

  /** No node occurs twice: the heap tree has no sharing and no cycle. */
  ghost predicate Proper(t: Tree) {
    t.Branch? ==>
      && Proper(t.left) && Proper(t.right)
      && t.node !in Nodes(t.left) && t.node !in Nodes(t.right) && Nodes(t.left) !! Nodes(t.right)
  }

  ghost predicate AllBelow(t: Tree, k: Key) {
    forall y :: y in Elems(t) ==> Less(y.key, k)
  }

  ghost predicate AllAbove(t: Tree, k: Key) {
    forall y :: y in Elems(t) ==> Less(k, y.key)
  }

  ghost predicate BST(t: Tree) {
    t.Branch? ==>
      && BST(t.left) && BST(t.right)
      && AllBelow(t.left, t.item.key) && AllAbove(t.right, t.item.key)
  }

  /** The heap below n is laid out as t. */
  ghost predicate Rep(n: Node?, t: Tree)
    reads Nodes(t)
  {
    match t
    case Leaf => n == null
    case Branch(m, x, l, r) =>
      && n == m && m.Val == x && Rep(m.Left, l) && Rep(m.Right, r)
      && m !in Nodes(l) && m !in Nodes(r) && Nodes(l) !! Nodes(r)
  }

  ghost function Without(s: set<Item>, k: Key): set<Item> {
    set y | y in s && y.key != k
  }

  // ---------------------------------------------------------------- search

  ghost function Find(t: Tree, k: Key): Option<Item> {
    if t.Leaf? then None
    else if Less(t.item.key, k) then Find(t.right, k)
    else if Less(k, t.item.key) then Find(t.left, k)
    else Some(t.item)
  }

  /** In a search tree, searching finds exactly the items that are there. */
  lemma {:induction false} FindIff(t: Tree, k: Key)
    requires BST(t)
    ensures Find(t, k).Some? ==> Find(t, k).value in Elems(t) && Find(t, k).value.key == k
    ensures forall x :: x in Elems(t) && x.key == k ==> Find(t, k) == Some(x)
  {
    if t.Leaf? {
    } else {
      FindIff(t.left, k);
      FindIff(t.right, k);
    }
  }

  // ---------------------------------------------------------------- insert

  /** t with x in it, on the fresh node nd when its key is new, in the old item's place otherwise. */
  ghost function Put(t: Tree, x: Item, nd: Node): Tree {
    if t.Leaf? then Branch(nd, x, Leaf, Leaf)
    else if Less(t.item.key, x.key) then t.(right := Put(t.right, x, nd))
    else if Less(x.key, t.item.key) then t.(left := Put(t.left, x, nd))
    else t.(item := x)
  }

  /** Where the items without k are. */
  lemma WithoutAtBranch(t: Tree, k: Key)
    requires BST(t) && t.Branch?
    ensures Less(k, t.item.key) ==> Without(Elems(t), k) == {t.item} + Without(Elems(t.left), k) + Elems(t.right)
    ensures Less(t.item.key, k) ==> Without(Elems(t), k) == {t.item} + Elems(t.left) + Without(Elems(t.right), k)
    ensures !Less(k, t.item.key) && !Less(t.item.key, k) ==>
              t.item.key == k && Without(Elems(t), k) == Elems(t.left) + Elems(t.right)
  {
    hide Less;
    LessIsLexicographic(k, t.item.key, k);
  }

  lemma {:induction false} PutElems(t: Tree, x: Item, nd: Node)
    requires BST(t)
    ensures Elems(Put(t, x, nd)) == Without(Elems(t), x.key) + {x}
  {
    if t.Leaf? {
    } else {
      hide Less, Without, AllBelow, AllAbove;
      WithoutAtBranch(t, x.key);
      if Less(t.item.key, x.key) {
        PutElems(t.right, x, nd);
      } else if Less(x.key, t.item.key) {
        PutElems(t.left, x, nd);
      }
    }
  }

  lemma {:induction false} PutOrder(t: Tree, x: Item, nd: Node)
    requires BST(t)
    ensures BST(Put(t, x, nd))
  {
    if t.Leaf? {
    } else {
      if Less(t.item.key, x.key) {
        PutElems(t.right, x, nd);
        PutOrder(t.right, x, nd);
        assert AllAbove(Put(t.right, x, nd), t.item.key);
      } else if Less(x.key, t.item.key) {
        PutElems(t.left, x, nd);
        PutOrder(t.left, x, nd);
        assert AllBelow(Put(t.left, x, nd), t.item.key);
      }
    }
  }

  lemma {:induction false} PutFootprint(t: Tree, x: Item, nd: Node)
    ensures Nodes(Put(t, x, nd)) == Nodes(t) + if Find(t, x.key).None? then {nd} else {}
    ensures Size(Put(t, x, nd)) == Size(t) + if Find(t, x.key).None? then 1 else 0
    ensures Proper(t) && nd !in Nodes(t) ==> Proper(Put(t, x, nd))
  {
    if t.Leaf? {
    } else {
      if Less(t.item.key, x.key) {
        PutFootprint(t.right, x, nd);
      } else if Less(x.key, t.item.key) {
        PutFootprint(t.left, x, nd);
      }
    }
  }

  // ---------------------------------------------------------------- delete

  ghost function Least(t: Tree): (m: Tree)
    requires t.Branch?
    ensures m.Branch?
  {
    if t.left.Leaf? then t else Least(t.left)
  }

  ghost function DropLeast(t: Tree): Tree
    requires t.Branch?
  {
    if t.left.Leaf? then t.right else t.(left := DropLeast(t.left))
  }

  /** What stands in the place of a removed node with subtrees l and r: the successor's node, moved up. */
  ghost function Join(l: Tree, r: Tree): Tree {
    if l.Leaf? then r
    else if r.Leaf? then l
    else Branch(Least(r).node, Least(r).item, l, DropLeast(r))
  }

  ghost function Remove(t: Tree, k: Key): Tree {
    if t.Leaf? then Leaf
    else if Less(k, t.item.key) then t.(left := Remove(t.left, k))
    else if Less(t.item.key, k) then t.(right := Remove(t.right, k))
    else Join(t.left, t.right)
  }

  /** The node that holds k. */
  ghost function Holder(t: Tree, k: Key): set<Node> {
    if t.Leaf? then {}
    else if Less(k, t.item.key) then Holder(t.left, k)
    else if Less(t.item.key, k) then Holder(t.right, k)
    else {t.node}
  }

  lemma {:induction false} DropLeastMeans(t: Tree)
    requires t.Branch?
    ensures InOrder(t) == [Least(t).item] + InOrder(DropLeast(t))
    ensures Size(DropLeast(t)) == Size(t) - 1
    ensures Height(DropLeast(t)) <= Height(t)
    ensures Elems(t) == Elems(DropLeast(t)) + {Least(t).item}
    ensures Least(t).node in Nodes(t)
    ensures Proper(t) ==> Proper(DropLeast(t)) && Nodes(DropLeast(t)) == Nodes(t) - {Least(t).node}
  {
    if t.left.Leaf? {
    } else {
      DropLeastMeans(t.left);
    }
  }

  lemma {:induction false} DropLeastOrder(t: Tree)
    requires t.Branch? && BST(t)
    ensures BST(DropLeast(t)) && AllAbove(DropLeast(t), Least(t).item.key)
    ensures Elems(DropLeast(t)) == Elems(t) - {Least(t).item}
    ensures Remove(t, Least(t).item.key) == DropLeast(t)
  {
    DropLeastMeans(t);
    if t.left.Leaf? {
    } else {
      DropLeastMeans(t.left);
      DropLeastOrder(t.left);
    }
  }

  lemma JoinFootprint(l: Tree, r: Tree)
    requires l.Branch? && r.Branch?
    ensures Proper(l) && Proper(r) && Nodes(l) !! Nodes(r) ==>
              Proper(Join(l, r)) && Nodes(Join(l, r)) == Nodes(l) + Nodes(r)
  {
    hide InOrder, Elems, Size, Height, Less;
    DropLeastMeans(r);
  }

  lemma JoinInOrder(l: Tree, r: Tree)
    ensures InOrder(Join(l, r)) == InOrder(l) + InOrder(r)
  {
    hide Proper, Nodes, Elems, Size, Height;
    if l.Branch? && r.Branch? {
      DropLeastMeans(r);
      assert InOrder(l) + [Least(r).item] + InOrder(DropLeast(r)) == InOrder(l) + InOrder(r);
    }
  }

  lemma JoinMeans(l: Tree, r: Tree)
    ensures InOrder(Join(l, r)) == InOrder(l) + InOrder(r)
    ensures Size(Join(l, r)) == Size(l) + Size(r)
    ensures Height(Join(l, r)) <= 1 + Max(Height(l), Height(r))
    ensures Elems(Join(l, r)) == Elems(l) + Elems(r)
    ensures Proper(l) && Proper(r) && Nodes(l) !! Nodes(r) ==>
              Proper(Join(l, r)) && Nodes(Join(l, r)) == Nodes(l) + Nodes(r)
  {
    hide InOrder;
    JoinInOrder(l, r);
    if l.Branch? && r.Branch? {
      DropLeastMeans(r);
      JoinFootprint(l, r);
    }
  }

  lemma JoinOrder(l: Tree, r: Tree, k: Key)
    requires BST(l) && BST(r) && AllBelow(l, k) && AllAbove(r, k)
    ensures BST(Join(l, r))
  {
    if l.Branch? && r.Branch? {
      DropLeastMeans(r);
      DropLeastOrder(r);
    }
  }

  lemma {:induction false} RemoveElems(t: Tree, k: Key)
    requires BST(t)
    ensures Elems(Remove(t, k)) == Without(Elems(t), k)
  {
    if t.Leaf? {
    } else {
      hide Less, Without, AllBelow, AllAbove, Join;
      WithoutAtBranch(t, k);
      if Less(k, t.item.key) {
        RemoveElems(t.left, k);
      } else if Less(t.item.key, k) {
        RemoveElems(t.right, k);
      } else {
        JoinMeans(t.left, t.right);
      }
    }
  }

  lemma {:induction false} RemoveOrder(t: Tree, k: Key)
    requires BST(t)
    ensures BST(Remove(t, k))
  {
    if t.Leaf? {
    } else {
      if Less(k, t.item.key) {
        RemoveElems(t.left, k);
        RemoveOrder(t.left, k);
        assert AllBelow(Remove(t.left, k), t.item.key);
      } else if Less(t.item.key, k) {
        RemoveElems(t.right, k);
        RemoveOrder(t.right, k);
        assert AllAbove(Remove(t.right, k), t.item.key);
      } else {
        JoinOrder(t.left, t.right, k);
      }
    }
  }

  lemma {:induction false} RemoveShrinks(t: Tree, k: Key)
    ensures Size(Remove(t, k)) == Size(t) - if Find(t, k).Some? then 1 else 0
    ensures Height(Remove(t, k)) <= Height(t)
  {
    if t.Leaf? {
    } else {
      if Less(k, t.item.key) {
        RemoveShrinks(t.left, k);
      } else if Less(t.item.key, k) {
        RemoveShrinks(t.right, k);
      } else {
        JoinMeans(t.left, t.right);
      }
    }
  }

  /** The footprint after a removal is the old one without exactly the node that held the key; no node is shared. */
  lemma {:induction false} RemoveFootprint(t: Tree, k: Key)
    requires Proper(t)
    ensures Proper(Remove(t, k))
    ensures Nodes(Remove(t, k)) == Nodes(t) - Holder(t, k)
    ensures Holder(t, k) <= Nodes(t)
    ensures Find(t, k).Some? <==> Holder(t, k) != {}
  {
    if t.Leaf? {
    } else {
      if Less(k, t.item.key) {
        RemoveFootprint(t.left, k);
      } else if Less(t.item.key, k) {
        RemoveFootprint(t.right, k);
      } else {
        JoinMeans(t.left, t.right);
      }
    }
  }

  // ---------------------------------------------------------------- order and size

  ghost predicate Sorted(xs: seq<Item>) {
    forall i, j :: 0 <= i < j < |xs| ==> Less(xs[i].key, xs[j].key)
  }

  ghost function ItemSet(xs: seq<Item>): set<Item> {
    set i | 0 <= i < |xs| :: xs[i]
  }

  lemma ItemSetConcat(xs: seq<Item>, ys: seq<Item>)
    ensures ItemSet(xs + ys) == ItemSet(xs) + ItemSet(ys)
  {
    var all := xs + ys;
    forall y | y in ItemSet(xs) + ItemSet(ys) ensures y in ItemSet(all) {
      if y in ItemSet(xs) {
        var i :| 0 <= i < |xs| && xs[i] == y;
        assert all[i] == y;
      } else {
        var i :| 0 <= i < |ys| && ys[i] == y;
        assert all[|xs| + i] == y;
      }
    }
  }

  lemma {:induction false} ElemsListed(t: Tree)
    ensures ItemSet(InOrder(t)) == Elems(t) == ItemSet(PostOrder(t))
    ensures |InOrder(t)| == Size(t) == |PostOrder(t)|
  {
    if t.Leaf? {
    } else {
      ElemsListed(t.left);
      ElemsListed(t.right);
      ItemSetConcat(InOrder(t.left) + [t.item], InOrder(t.right));
      ItemSetConcat(InOrder(t.left), [t.item]);
      ItemSetConcat(PostOrder(t.left) + PostOrder(t.right), [t.item]);
      ItemSetConcat(PostOrder(t.left), PostOrder(t.right));
      assert [t.item][0] in ItemSet([t.item]);
    }
  }

  lemma SortedJoin(ls: seq<Item>, x: Item, rs: seq<Item>)
    requires Sorted(ls) && Sorted(rs)
    requires forall i :: 0 <= i < |ls| ==> Less(ls[i].key, x.key)
    requires forall i :: 0 <= i < |rs| ==> Less(x.key, rs[i].key)
    ensures Sorted(ls + [x] + rs)
  {
  }

  lemma SortedSplit(ls: seq<Item>, x: Item, rs: seq<Item>)
    requires Sorted(ls + [x] + rs)
    ensures Sorted(ls) && Sorted(rs)
    ensures forall i :: 0 <= i < |ls| ==> Less(ls[i].key, x.key)
    ensures forall i :: 0 <= i < |rs| ==> Less(x.key, rs[i].key)
  {
    var s := ls + [x] + rs;
    assert forall i :: 0 <= i < |ls| ==> s[i] == ls[i];
    assert s[|ls|] == x;
    assert forall i :: 0 <= i < |rs| ==> rs[i] == s[|ls| + 1 + i];
  }

  /** A tree is a search tree exactly when walking it in order meets strictly increasing keys. */
  lemma {:induction false} SearchTreeIffSorted(t: Tree)
    ensures BST(t) <==> Sorted(InOrder(t))
  {
    hide Less, Elems;
    if t.Leaf? {
    } else {
      var ls, x, rs := InOrder(t.left), t.item, InOrder(t.right);
      SearchTreeIffSorted(t.left);
      SearchTreeIffSorted(t.right);
      ElemsListed(t.left);
      ElemsListed(t.right);
      if BST(t) {
        assert forall i :: 0 <= i < |ls| ==> ls[i] in Elems(t.left);
        assert forall i :: 0 <= i < |rs| ==> rs[i] in Elems(t.right);
        SortedJoin(ls, x, rs);
      }
      if Sorted(InOrder(t)) {
        SortedSplit(ls, x, rs);
        assert AllBelow(t.left, x.key) && AllAbove(t.right, x.key);
      }
    }
  }

  ghost function Pow2(n: nat): nat {
    if n == 0 then 1 else 2 * Pow2(n - 1)
  }

  lemma Pow2Monotone(m: nat, n: nat)
    requires m <= n
    ensures Pow2(m) <= Pow2(n)
  {
    if m == n {
    } else {
      Pow2Monotone(m, n - 1);
    }
  }

  lemma {:induction false} SizeWithinHeight(t: Tree)
    ensures Size(t) <= Pow2(Height(t)) - 1
  {
    if t.Leaf? {
    } else {
      SizeWithinHeight(t.left);
      SizeWithinHeight(t.right);
      var h := Max(Height(t.left), Height(t.right));
      Pow2Monotone(Height(t.left), h);
      Pow2Monotone(Height(t.right), h);
    }
  }

  /** The items at depth d, left to right. */
  ghost function Level(t: Tree, d: int): seq<Item> {
    if t.Leaf? || d < 0 then []
    else if d == 0 then [t.item]
    else Level(t.left, d - 1) + Level(t.right, d - 1)
  }

  /** The first h levels, from the root down. */
  ghost function Levels(t: Tree, h: nat): seq<Item> {
    if h == 0 then [] else Levels(t, h - 1) + Level(t, h - 1)
  }

  /** Every level above the height holds something. */
  lemma {:induction false} LevelsFilled(t: Tree, d: nat)
    ensures Level(t, d) != [] <==> d < Height(t)
  {
    if t.Leaf? || d == 0 {
    } else {
      LevelsFilled(t.left, d - 1);
      LevelsFilled(t.right, d - 1);
    }
  }

  ghost function Bag(xs: seq<Item>): multiset<Item> {
    multiset(xs)
  }

  lemma BagConcat(xs: seq<Item>, ys: seq<Item>)
    ensures Bag(xs + ys) == Bag(xs) + Bag(ys)
  {
  }

  lemma {:induction false} LevelsOfLeaf(h: nat)
    ensures Levels(Leaf, h) == []
  {
    if h == 0 {
    } else {
      LevelsOfLeaf(h - 1);
    }
  }

  lemma Regrouped(l: multiset<Item>, x: multiset<Item>, r: multiset<Item>, ls: multiset<Item>, rs: multiset<Item>)
    ensures (l + x + r) + (ls + rs) == (l + ls) + x + (r + rs)
  {
  }

  lemma {:induction false} LevelsSplit(t: Tree, h: nat)
    requires t.Branch? && h > 0
    ensures Bag(Levels(t, h)) == Bag(Levels(t.left, h - 1)) + Bag([t.item]) + Bag(Levels(t.right, h - 1))
  {
    if h > 1 {
      hide Bag;
      LevelsSplit(t, h - 1);
      var l, r, ls, rs := Levels(t.left, h - 2), Levels(t.right, h - 2), Level(t.left, h - 2), Level(t.right, h - 2);
      BagConcat(Levels(t, h - 1), Level(t, h - 1));
      BagConcat(ls, rs);
      BagConcat(l, ls);
      BagConcat(r, rs);
      Regrouped(Bag(l), Bag([t.item]), Bag(r), Bag(ls), Bag(rs));
    } else {
      assert Levels(t, 1) == [t.item];
    }
  }

  lemma {:induction false} SameBag(t: Tree, h: nat)
    requires Height(t) <= h
    ensures Bag(Levels(t, h)) == Bag(InOrder(t))
  {
    hide Levels, Less, Bag;
    if t.Leaf? {
      LevelsOfLeaf(h);
    } else {
      LevelsSplit(t, h);
      SameBag(t.left, h - 1);
      SameBag(t.right, h - 1);
      BagConcat(InOrder(t.left), [t.item]);
      BagConcat(InOrder(t.left) + [t.item], InOrder(t.right));
    }
  }

  /** No item is listed twice where keys increase. */
  lemma {:induction false} SortedOnce(xs: seq<Item>, x: Item)
    requires Sorted(xs) && x in xs
    ensures multiset(xs)[x] == 1
  {
    var n := |xs| - 1;
    assert xs == xs[..n] + [xs[n]];
    if x in xs[..n] {
      SortedOnce(xs[..n], x);
    }
  }

  /** The first Height(t) levels hold the items of the tree, each as often as the tree does: once, in a search tree. */
  lemma LevelsCover(t: Tree, h: nat)
    requires Height(t) <= h
    ensures multiset(Levels(t, h)) == multiset(InOrder(t))
    ensures BST(t) ==> forall x :: x in Elems(t) ==> multiset(Levels(t, h))[x] == 1
  {
    hide Levels, Less, Sorted, Height, InOrder;
    SameBag(t, h);
    if BST(t) {
      SearchTreeIffSorted(t);
      ElemsListed(t);
      forall x | x in Elems(t) ensures multiset(InOrder(t))[x] == 1 {
        assert x in ItemSet(InOrder(t));
        SortedOnce(InOrder(t), x);
      }
    }
  }

  // ---------------------------------------------------------------- the tree as a map

  ghost function Index(t: Tree): map<Key, Item> {
    if t.Leaf? then map[] else (Index(t.left) + Index(t.right))[t.item.key := t.item]
  }

  lemma {:induction false} IndexValues(t: Tree)
    ensures forall k :: k in Index(t) ==> Index(t)[k] in Elems(t) && Index(t)[k].key == k
  {
    if t.Leaf? {
    } else {
      IndexValues(t.left);
      IndexValues(t.right);
    }
  }

  lemma {:induction false} IndexFind(t: Tree, k: Key)
    requires BST(t)
    ensures Find(t, k) == if k in Index(t) then Some(Index(t)[k]) else None
  {
    if t.Leaf? {
    } else {
      IndexFind(t.left, k);
      IndexFind(t.right, k);
      IndexValues(t.left);
      IndexValues(t.right);
    }
  }

  lemma IndexElems(t: Tree, x: Item)
    requires BST(t)
    ensures x in Elems(t) <==> x.key in Index(t) && Index(t)[x.key] == x
  {
    IndexFind(t, x.key);
    IndexValues(t);
    FindIff(t, x.key);
  }

  /** At any key, either tree's entry is in the other if the item is. */
  lemma IndexChange(t: Tree, t': Tree, k: Key)
    requires BST(t) && BST(t')
    ensures k in Index(t) && Index(t)[k] in Elems(t') ==> k in Index(t') && Index(t')[k] == Index(t)[k]
    ensures k in Index(t') && Index(t')[k] in Elems(t) ==> k in Index(t) && Index(t)[k] == Index(t')[k]
  {
    IndexValues(t);
    IndexValues(t');
    if k in Index(t) {
      IndexElems(t', Index(t)[k]);
    }
    if k in Index(t') {
      IndexElems(t, Index(t')[k]);
    }
  }

  lemma IndexPut(t: Tree, x: Item, nd: Node)
    requires BST(t)
    ensures Index(Put(t, x, nd)) == Index(t)[x.key := x]
  {
    hide BST, Index, Elems, Put, Remove, Less, Find;
    var t' := Put(t, x, nd);
    PutOrder(t, x, nd);
    PutElems(t, x, nd);
    IndexValues(t);
    IndexValues(t');
    forall k ensures k in Index(t') <==> k in Index(t) || k == x.key
             ensures k in Index(t') ==> Index(t')[k] == if k == x.key then x else Index(t)[k] {
      IndexChange(t, t', k);
      IndexElems(t', x);
    }
  }

  lemma IndexRemove(t: Tree, k: Key)
    requires BST(t)
    ensures Index(Remove(t, k)) == Index(t) - {k}
  {
    hide BST, Index, Elems, Put, Remove, Less, Find;
    var t' := Remove(t, k);
    RemoveOrder(t, k);
    RemoveElems(t, k);
    IndexValues(t);
    IndexValues(t');
    forall j ensures j in Index(t') <==> j in Index(t) && j != k
             ensures j in Index(t') ==> Index(t')[j] == Index(t)[j] {
      IndexChange(t, t', j);
    }
  }
}
