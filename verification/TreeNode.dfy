/** The in-place operations on a tree node. A ghost tree says how the heap below the pointer is laid out;
    each operation's result is a function of that tree. A nil receiver is a null first argument. */
module TreeNode {
  import opened Keys
  import opened Items
  import opened Trees
  import opened Pruning

  method Insert(n: Node, v: Item, ghost t: Tree) returns (inserted: bool, ghost nd: Node)
    requires Rep(n, t)
    modifies Nodes(t)
    ensures inserted <==> Find(t, v.key).None?
    ensures inserted ==> fresh(nd)
    ensures Rep(n, Put(t, v, nd))
    decreases t
  {
    inserted, nd := false, n;
    assert allocated(Nodes(t));
    if n.Val.Lt(v) {
      if n.Right == null {
        var leaf := new Node(v);
        n.Right := leaf;
        inserted, nd := true, leaf;
      } else {
        inserted, nd := Insert(n.Right, v, t.right);
        PutFootprint(t.right, v, nd);
      }
    } else if n.Val.Gt(v) {
      if n.Left == null {
        var leaf := new Node(v);
        n.Left := leaf;
        inserted, nd := true, leaf;
      } else {
        inserted, nd := Insert(n.Left, v, t.left);
        PutFootprint(t.left, v, nd);
      }
    } else if n.Val.Equals(v) {
      n.Val := v;
    }
  }

  function Search(n: Node?, v: Item, ghost t: Tree): (r: Option<Item>)
    requires Rep(n, t)
    reads Nodes(t)
    ensures r == Find(t, v.key)
    decreases t
  {
    if n == null then None
    else if n.Val.Lt(v) then Search(n.Right, v, t.right)
    else if n.Val.Gt(v) then Search(n.Left, v, t.left)
    else Some(n.Val)  // neither below nor above: Equals
  }

  ghost function Fold<S>(f: (S, Item) -> S, s: S, xs: seq<Item>): S {
    if xs == [] then s else f(Fold(f, s, xs[..|xs| - 1]), xs[|xs| - 1])
  }

  lemma {:induction false} FoldConcat<S>(f: (S, Item) -> S, s: S, xs: seq<Item>, ys: seq<Item>)
    ensures Fold(f, s, xs + ys) == Fold(f, Fold(f, s, xs), ys)
  {
    if ys == [] {
      assert xs + ys == xs;
    } else {
      var n := |ys| - 1;
      assert (xs + ys)[..|xs + ys| - 1] == xs + ys[..n];
      FoldConcat(f, s, xs, ys[..n]);
    }
  }

  /** Calls f, which carries its captured variables as a state, on every item in key order. */
  method Traverse<S>(n: Node?, f: (S, Item) -> S, s: S, ghost t: Tree) returns (s': S)
    requires Rep(n, t)
    ensures s' == Fold(f, s, InOrder(t))
    decreases t
  {
    if n == null {
      return s;
    }
    assert allocated(Nodes(t));
    s' := Traverse(n.Left, f, s, t.left);
    s' := f(s', n.Val);
    s' := Traverse(n.Right, f, s', t.right);
    assert (InOrder(t.left) + [t.item])[..|InOrder(t.left)|] == InOrder(t.left);
    FoldConcat(f, s, InOrder(t.left) + [t.item], InOrder(t.right));
  }

  method FindMin(n: Node, ghost t: Tree) returns (m: Node)
    requires Rep(n, t)
    ensures m == Least(t).node && m.Val == Least(t).item
  {
    m := n;
    ghost var below := t;
    while m.Left != null
      invariant Rep(m, below) && Least(below) == Least(t)
      decreases below
    {
      m, below := m.Left, below.left;
    }
  }

  lemma JoinWithLeaf(l: Tree, r: Tree)
    ensures l.Leaf? ==> Join(l, r) == r
    ensures r.Leaf? ==> Join(l, r) == l
  {
  }

  lemma JoinAssembled(m: Node, l: Tree, r: Tree)
    requires l.Branch? && r.Branch? && m == Least(r).node && m.Val == Least(r).item
    requires Rep(m.Left, l) && Rep(m.Right, DropLeast(r)) && Nodes(l) !! Nodes(r)
    requires m in Nodes(r) && Nodes(DropLeast(r)) == Nodes(r) - {m}
    ensures Rep(m, Join(l, r))
  {
  }

  lemma {:induction false} RepIsProper(n: Node?, t: Tree)
    requires Rep(n, t)
    ensures Proper(t)
  {
    if t.Leaf? {
    } else {
      RepIsProper(n.Left, t.left);
      RepIsProper(n.Right, t.right);
    }
  }

  lemma LeastParts(n: Node?, t: Tree)
    requires Rep(n, t) && BST(t) && t.Branch?
    ensures Least(t).node in Nodes(t) && Nodes(DropLeast(t)) == Nodes(t) - {Least(t).node}
    ensures Remove(t, Least(t).item.key) == DropLeast(t)
  {
    RepIsProper(n, t);
    DropLeastMeans(t);
    DropLeastOrder(t);
  }

  lemma NullIsLeaf(n: Node?, t: Tree)
    requires Rep(n, t)
    ensures n == null <==> t.Leaf?
    ensures n != null ==> n in Nodes(t)
  {
  }

  /** Takes n itself out and returns what stands in its place; `delete` and `deleteIf` both end this way. */
  lemma Parts(n: Node?, t: Tree)
    requires Rep(n, t) && BST(t)
    ensures n == null <==> t.Leaf?
    ensures n != null ==>
              && n == t.node && n.Val == t.item && Rep(n.Left, t.left) && Rep(n.Right, t.right)
              && n in Nodes(t) && Nodes(t.left) <= Nodes(t) && Nodes(t.right) <= Nodes(t)
              && n !in Nodes(t.left) && n !in Nodes(t.right) && Nodes(t.left) !! Nodes(t.right)
              && BST(t.left) && BST(t.right) && Proper(t.left) && Proper(t.right)
  {
    hide AllBelow, AllAbove;
    RepIsProper(n, t);
  }

  lemma RemovedNowhere(v: Item)
    ensures Remove(Leaf, v.key) == Leaf && Find(Leaf, v.key).None? && Rep(null, Leaf)
  {
  }

  lemma RemovedHere(n: Node, t: Tree, v: Item)
    requires t.Branch? && n.Val == t.item
    ensures v.Lt(n.Val) || v.Gt(n.Val) || v.Equals(n.Val)
    ensures !v.Lt(n.Val) && !v.Gt(n.Val) ==> Remove(t, v.key) == Join(t.left, t.right) && Find(t, v.key).Some?
  {
    hide Join;
    LessIsLexicographic(v.key, n.Val.key, v.key);
  }

  /** One child replaced by what is left of it. */
  lemma RemovedBelow(n: Node, t: Tree, v: Item)
    requires t.Branch? && n == t.node && n.Val == t.item
    requires n !in Nodes(t.left) && n !in Nodes(t.right) && Nodes(t.left) !! Nodes(t.right)
    requires Proper(t.left) && Proper(t.right)
    ensures v.Lt(n.Val) && Rep(n.Left, Remove(t.left, v.key)) && Rep(n.Right, t.right) ==>
              Rep(n, Remove(t, v.key)) && (Find(t, v.key).Some? <==> Find(t.left, v.key).Some?)
    ensures v.Gt(n.Val) && Rep(n.Right, Remove(t.right, v.key)) && Rep(n.Left, t.left) ==>
              Rep(n, Remove(t, v.key)) && (Find(t, v.key).Some? <==> Find(t.right, v.key).Some?)
  {
    hide Join, Proper;
    LessIsLexicographic(v.key, n.Val.key, v.key);
    RemoveFootprint(t.left, v.key);
    RemoveFootprint(t.right, v.key);
  }

  method TakeOut(n: Node, ghost l: Tree, ghost r: Tree) returns (newRoot: Node?)
    requires Rep(n.Left, l) && Rep(n.Right, r) && Nodes(l) !! Nodes(r)
    requires n !in Nodes(l) && n !in Nodes(r) && BST(r)
    modifies Nodes(r)`Left, Nodes(r)`Right
    ensures Rep(newRoot, Join(l, r))
    decreases r, 1
  {
    hide *;
    assert allocated(Nodes(l)) && allocated(Nodes(r));
    NullIsLeaf(n.Left, l);
    NullIsLeaf(n.Right, r);
    JoinWithLeaf(l, r);
    if n.Left == null {
      return n.Right;
    } else if n.Right == null {
      return n.Left;
    }
    LeastParts(n.Right, r);
    var minRight := FindMin(n.Right, r);
    var rest, _ := Delete(n.Right, minRight.Val, r);
    minRight.Right := rest;
    minRight.Left := n.Left;
    assert Rep(minRight.Right, DropLeast(r));
    JoinAssembled(minRight, l, r);
    return minRight;
  }

  lemma SingleNode(n: Node)
    requires n.Left == null && n.Right == null
    ensures Rep(n, Branch(n, n.Val, Leaf, Leaf))
  {
  }

  method Delete(n: Node?, v: Item, ghost t: Tree) returns (newRoot: Node?, deleted: bool)
    requires Rep(n, t) && BST(t)
    modifies Nodes(t)`Left, Nodes(t)`Right
    ensures Rep(newRoot, Remove(t, v.key))
    ensures deleted <==> Find(t, v.key).Some?
    decreases t, 0
  {
    hide *;
    assert allocated(Nodes(t));
    Parts(n, t);
    if n == null {
      RemovedNowhere(v);
      return null, false;
    }
    RemovedHere(n, t, v);
    deleted := false;
    if v.Lt(n.Val) {
      RemoveFootprint(t.left, v.key);
      n.Left, deleted := Delete(n.Left, v, t.left);
      RemovedBelow(n, t, v);
    } else if v.Gt(n.Val) {
      RemoveFootprint(t.right, v.key);
      n.Right, deleted := Delete(n.Right, v, t.right);
      RemovedBelow(n, t, v);
    } else if v.Equals(n.Val) {
      deleted := true;
      newRoot := TakeOut(n, t.left, t.right);
      return;
    }
    return n, deleted;
  }

  function GetHeight(n: Node?, ghost t: Tree): (h: nat)
    requires Rep(n, t)
    reads Nodes(t)
    ensures h == Height(t)
    decreases t
  {
    if n == null then 0
    else
      var leftHeight, rightHeight := GetHeight(n.Left, t.left), GetHeight(n.Right, t.right);
      if leftHeight > rightHeight then leftHeight + 1 else rightHeight + 1
  }

  /** Appends every item to the row of its depth. */
  method FillNodes(rows: array<seq<Item>>, n: Node?, depth: nat, ghost t: Tree)
    requires Rep(n, t) && depth + Height(t) <= rows.Length
    modifies rows
    ensures forall d :: 0 <= d < rows.Length ==> rows[d] == old(rows[d]) + Level(t, d - depth)
    decreases t
  {
    if n == null {
      return;
    }
    assert allocated(Nodes(t));
    rows[depth] := rows[depth] + [n.Val];
    FillNodes(rows, n.Left, depth + 1, t.left);
    FillNodes(rows, n.Right, depth + 1, t.right);
  }

  /** What one walk of deleteIf does: the tree that is left, the count as the code counts, the state, the TTLs.
      The calls are those of CallAll: once for each item, in post-order of the original tree,
      each search from the unchanged root finding the very item under examination. */
  ghost predicate Swept<S>(p: Predicate<S>, s: S, t: Tree, ttls: seq<int>, newRoot: Node?, deleted: int, s': S)
    requires |ttls| == |PostOrder(t)|
    reads Nodes(t), PostOrder(t)
  {
    var xs := PostOrder(t);
    var calls := CallAll(p, s, xs, ttls);
    var dead := Taken(xs, calls.answers);
    && s' == calls.state
    && TTLs(xs) == calls.ttls
    && Nodes(Prune(t, dead)) <= Nodes(t)
    && Rep(newRoot, Prune(t, dead))
    && deleted == SpineHits(t, dead)
  }

  /** The end of deleteIf at one node: the predicate is called, and n goes if it says so. */
  method Examine<S>(n: Node, p: Predicate<S>, s: S, below: int, root: Node?, ghost now: Tree, ghost c: Around)
    returns (newRoot: Node?, deleted: int, s': S)
    requires Rep(n, now) && AroundRep(root, n, c) && Nodes(now) !! AroundNodes(c)
    requires BST(Plug(c, now))
    modifies Nodes(now.right)`Left, Nodes(now.right)`Right, now.item`TTL
    ensures var (z, answer, ttl) := p(s, now.item, Some(now.item), old(now.item.TTL));
            && s' == z
            && now.item.TTL == ttl
            && Rep(newRoot, if answer then Join(now.left, now.right) else now)
            && deleted == below + if answer then 1 else 0
  {
    assert allocated(Nodes(now)) && allocated(AroundNodes(c));
    PlugRep(root, n, c, now);
    PlugPart(c, now);
    FoundInHole(c, now, now.item);
    var found := Search(root, n.Val, Plug(c, now));
    var (z, answer, ttl) := p(s, n.Val, found, n.Val.TTL);
    s' := z;
    n.Val.TTL := ttl;
    if answer {
      deleted := below + 1;
      newRoot := TakeOut(n, now.left, now.right);
      return;
    }
    return n, below, s';
  }

  /** The child pointers of a represented node are holes of their own. */
  lemma ChildHoles(n: Node, root: Node?, t: Tree, c: Around)
    requires Rep(n, t) && AroundRep(root, n, c) && Nodes(t) !! AroundNodes(c)
    ensures t.Branch? && n == t.node && n.Val == t.item && Rep(n.Left, t.left) && Rep(n.Right, t.right)
    ensures n !in Nodes(t.left) && n !in Nodes(t.right) && n !in AroundNodes(c) && Nodes(t.left) !! Nodes(t.right)
    ensures Nodes(t) == {n} + Nodes(t.left) + Nodes(t.right)
    ensures var l := FromLeft(c, n, t.item, t.right);
            && AroundRep(root, n.Left, l) && AroundNodes(l) == {n} + Nodes(t.right) + AroundNodes(c)
            && Plug(l, t.left) == Plug(c, t)
    ensures var r := FromRight(c, n, t.item, t.left);
            && AroundRep(root, n.Right, r) && AroundNodes(r) == {n} + Nodes(t.left) + AroundNodes(c)
            && Plug(r, t.right) == Plug(c, t)
  {
  }

  lemma ChildStored(n: Node, t: Tree, l: Tree, r: Tree)
    requires t.Branch? && n == t.node && n.Val == t.item && Rep(n.Left, l) && Rep(n.Right, r)
    requires Nodes(l) <= Nodes(t.left) && Nodes(r) <= Nodes(t.right) && Nodes(t.left) !! Nodes(t.right)
    requires n !in Nodes(t.left) && n !in Nodes(t.right)
    ensures Rep(n, Branch(n, t.item, l, r)) && Nodes(Branch(n, t.item, l, r)) <= Nodes(t)
  {
  }

  lemma SweptParts<S>(p: Predicate<S>, s: S, t: Tree, ttls: seq<int>, newRoot: Node?, deleted: int, s': S)
    requires |ttls| == |PostOrder(t)| && Swept(p, s, t, ttls, newRoot, deleted, s')
    ensures var calls := CallAll(p, s, PostOrder(t), ttls);
            var dead := Taken(PostOrder(t), calls.answers);
            && s' == calls.state && TTLs(PostOrder(t)) == calls.ttls && Nodes(Prune(t, dead)) <= Nodes(t)
            && Rep(newRoot, Prune(t, dead)) && deleted == SpineHits(t, dead)
  {
  }

  /** The walk below n on the left, with its result stored in n. */
  method SweepLeft<S>(n: Node, p: Predicate<S>, s: S, root: Node?, ghost t: Tree, ghost c: Around)
    returns (deleted: int, s': S)
    requires Rep(n, t) && AroundRep(root, n, c) && Nodes(t) !! AroundNodes(c)
    requires BST(Plug(c, t))
    modifies n`Left, Nodes(t.left)`Left, Nodes(t.left)`Right, Elems(t.left)`TTL
    ensures var xs := PostOrder(t.left);
            var calls := CallAll(p, s, xs, old(TTLs(xs)));
            var dead := Taken(xs, calls.answers);
            && s' == calls.state && TTLs(xs) == calls.ttls
            && Rep(n, t.(left := Prune(t.left, dead))) && BST(Plug(c, t.(left := Prune(t.left, dead))))
            && Nodes(t.(left := Prune(t.left, dead))) <= Nodes(t)
    decreases t.left, 2
  {
    hide *;
    assert allocated(Nodes(t)) && allocated(AroundNodes(c));
    ChildHoles(n, root, t, c);
    ghost var dead := Taken(PostOrder(t.left), CallAll(p, s, PostOrder(t.left), TTLs(PostOrder(t.left))).answers);
    var newRoot;
    newRoot, deleted, s' := DeleteIf(n.Left, p, s, root, t.left, FromLeft(c, n, t.item, t.right));
    SweptParts(p, s, t.left, old(TTLs(PostOrder(t.left))), newRoot, deleted, s');
    n.Left := newRoot;
    assert Rep(n.Left, Prune(t.left, dead)) && Rep(n.Right, t.right);
    ChildStored(n, t, Prune(t.left, dead), t.right);
    PlugPruned(c, t, dead, {});
  }

  lemma NodeParts(n: Node?, t: Tree, c: Around)
    requires Rep(n, t) && BST(Plug(c, t))
    ensures Proper(t) && BST(t)
    ensures n == null <==> t.Leaf?
    ensures n != null ==>
              && n in Nodes(t) && t.item in Elems(t)
              && Nodes(t.left) <= Nodes(t) && Nodes(t.right) <= Nodes(t)
              && Elems(t.left) <= Elems(t) && Elems(t.right) <= Elems(t)
              && Elems(t.left) !! Elems(t.right) && t.item !in Elems(t.left) && t.item !in Elems(t.right)
              && Within(PostOrder(t.left), Elems(t.left)) && Within(PostOrder(t.right), Elems(t.right))
              && TTLs(PostOrder(t)) == TTLs(PostOrder(t.left)) + TTLs(PostOrder(t.right)) + [t.item.TTL]
  {
    RepIsProper(n, t);
    PlugPart(c, t);
    if n != null {
      TTLsAtBranch(t);
      PartsApart(t);
      PostOrderInside(t.left);
      PostOrderInside(t.right);
    }
  }

  /** The walk below n on the right, with its result stored in n, and then n's own turn. */
  method SweepRest<S>(n: Node, p: Predicate<S>, s: S, root: Node?, ghost t: Tree, ghost c: Around)
    returns (newRoot: Node?, deleted: int, s': S)
    requires Rep(n, t) && AroundRep(root, n, c) && Nodes(t) !! AroundNodes(c)
    requires BST(Plug(c, t))
    modifies n`Right, Nodes(t.right)`Left, Nodes(t.right)`Right, Elems(t.right)`TTL, t.item`TTL
    ensures var xs := PostOrder(t.right);
            var calls := CallAll(p, s, xs, old(TTLs(xs)));
            var dead := Taken(xs, calls.answers);
            var (z, answer, ttl) := p(calls.state, t.item, Some(t.item), old(t.item.TTL));
            var r := Prune(t.right, dead);
            && s' == z && TTLs(xs) == calls.ttls && t.item.TTL == ttl
            && Rep(newRoot, if answer then Join(t.left, r) else t.(right := r))
            && deleted == SpineHits(t.right, dead) + if answer then 1 else 0
    decreases t.right, 2
  {
    hide *;
    assert allocated(Nodes(t)) && allocated(AroundNodes(c));
    NodeParts(n, t, c);
    ChildHoles(n, root, t, c);
    ghost var dead := Taken(PostOrder(t.right), CallAll(p, s, PostOrder(t.right), TTLs(PostOrder(t.right))).answers);
    newRoot, deleted, s' := DeleteIf(n.Right, p, s, root, t.right, FromRight(c, n, t.item, t.left));
    SweptParts(p, s, t.right, old(TTLs(PostOrder(t.right))), newRoot, deleted, s');
    n.Right := newRoot;
    assert Rep(n.Right, Prune(t.right, dead)) && Rep(n.Left, t.left) && AroundRep(root, n, c);
    ChildStored(n, t, t.left, Prune(t.right, dead));
    PlugPruned(c, t, {}, dead);
    newRoot, deleted, s' := Examine(n, p, s', deleted, root, t.(right := Prune(t.right, dead)), c);
  }

  lemma LeafSwept<S>(p: Predicate<S>, s: S, t: Tree)
    requires t.Leaf?
    ensures Swept(p, s, t, TTLs(PostOrder(t)), null, 0, s)
  {
  }

  /** The walk at a node, from the walks below it and the call for its own item. */
  lemma SweptAtBranch<S>(p: Predicate<S>, s: S, t: Tree, tl: seq<int>, tr: seq<int>, tx: int,
                         newRoot: Node?, deleted: int, s': S)
    requires t.Branch? && Proper(t) && BST(t) && |tl| == |PostOrder(t.left)| && |tr| == |PostOrder(t.right)|
    requires var a := CallAll(p, s, PostOrder(t.left), tl);
             var b := CallAll(p, a.state, PostOrder(t.right), tr);
             var (z, answer, ttl) := p(b.state, t.item, Some(t.item), tx);
             var l := Prune(t.left, Taken(PostOrder(t.left), a.answers));
             var r := Prune(t.right, Taken(PostOrder(t.right), b.answers));
             && TTLs(PostOrder(t.left)) == a.ttls && TTLs(PostOrder(t.right)) == b.ttls
             && t.item.TTL == ttl && s' == z
             && Rep(newRoot, if answer then Join(l, r) else Branch(t.node, t.item, l, r))
             && deleted == SpineHits(t.right, Taken(PostOrder(t.right), b.answers)) + if answer then 1 else 0
    ensures Swept(p, s, t, tl + tr + [tx], newRoot, deleted, s')
  {
    hide BST, Less, Rep, SpineHits, Prune, Join;
    var a := CallAll(p, s, PostOrder(t.left), tl);
    var b := CallAll(p, a.state, PostOrder(t.right), tr);
    var dl, dr := Taken(PostOrder(t.left), a.answers), Taken(PostOrder(t.right), b.answers);
    TTLsAtBranch(t);
    CallsAtBranch(p, s, t, tl, tr, tx);
    TakenInside(t.left, a.answers);
    TakenInside(t.right, b.answers);
    PruneAtBranch(t, dl, dr, p(b.state, t.item, Some(t.item), tx).1);
    PruneProper(t, Taken(PostOrder(t), CallAll(p, s, PostOrder(t), tl + tr + [tx]).answers));
  }

  method DeleteIf<S>(n: Node?, p: Predicate<S>, s: S, root: Node?, ghost t: Tree, ghost c: Around)
    returns (newRoot: Node?, deleted: int, s': S)
    requires Rep(n, t) && AroundRep(root, n, c) && Nodes(t) !! AroundNodes(c)
    requires BST(Plug(c, t))
    modifies Nodes(t)`Left, Nodes(t)`Right, Elems(t)`TTL
    ensures Swept(p, s, t, old(TTLs(PostOrder(t))), newRoot, deleted, s')
    decreases t, 1
  {
    hide BST, Less, Rep, AroundRep, CallAll, Prune, SpineHits, Taken, Nodes, Elems, PostOrder, Plug, AroundNodes,
      Proper;
    NodeParts(n, t, c);
    if n == null {
      LeafSwept(p, s, t);
      return null, 0, s;
    }
    assert allocated(Nodes(t)) && allocated(Elems(t)) && allocated(AroundNodes(c));
    ghost var x, xl, xr := t.item, PostOrder(t.left), PostOrder(t.right);
    ghost var tl, tr, tx := TTLs(xl), TTLs(xr), x.TTL;

    deleted, s' := SweepLeft(n, p, s, root, t, c);
    ghost var t1 := t.(left := Prune(t.left, Taken(xl, CallAll(p, s, xl, tl).answers)));
    assert TTLs(xr) == tr && x.TTL == tx && AroundRep(root, n, c);
    newRoot, deleted, s' := SweepRest(n, p, s', root, t1, c);
    SweptAtBranch(p, s, t, tl, tr, tx, newRoot, deleted, s');
  }
}
