/** What deleting by a predicate means: the tree that is left, the count, the calls, and the tree seen during them. */
module Pruning {
  import opened Keys
  import opened Items
  import opened Trees

  // ---------------------------------------------------------------- the tree that is left

  ghost function Filter(xs: seq<Item>, dead: set<Item>): seq<Item> {
    if xs == [] then []
    else (if xs[0] in dead then [] else [xs[0]]) + Filter(xs[1..], dead)
  }

  lemma {:induction false} FilterConcat(xs: seq<Item>, ys: seq<Item>, dead: set<Item>)
    ensures Filter(xs + ys, dead) == Filter(xs, dead) + Filter(ys, dead)
  {
    if xs == [] {
      assert xs + ys == ys;
    } else {
      assert (xs + ys)[1..] == xs[1..] + ys;
      FilterConcat(xs[1..], ys, dead);
    }
  }

  /** t without the items in dead, children first, as the code takes them out. */
  ghost function Prune(t: Tree, dead: set<Item>): Tree {
    if t.Leaf? then Leaf
    else
      var l, r := Prune(t.left, dead), Prune(t.right, dead);
      if t.item in dead then Join(l, r) else Branch(t.node, t.item, l, r)
  }

  lemma PruneLeaf(dead: set<Item>)
    ensures Prune(Leaf, dead) == Leaf
  {
  }

  /** The nodes that hold a dead item. */
  ghost function DeadNodes(t: Tree, dead: set<Item>): set<Node> {
    if t.Leaf? then {}
    else DeadNodes(t.left, dead) + DeadNodes(t.right, dead) + if t.item in dead then {t.node} else {}
  }

  ghost function Hits(t: Tree, dead: set<Item>): nat {
    if t.Leaf? then 0
    else Hits(t.left, dead) + Hits(t.right, dead) + if t.item in dead then 1 else 0
  }

  /** The hits along the right spine: the only ones the code's count keeps. */
  ghost function SpineHits(t: Tree, dead: set<Item>): nat {
    if t.Leaf? then 0 else SpineHits(t.right, dead) + if t.item in dead then 1 else 0
  }

  /** The hits in the left subtrees of the right spine. */
  ghost function LostHits(t: Tree, dead: set<Item>): nat {
    if t.Leaf? then 0 else Hits(t.left, dead) + LostHits(t.right, dead)
  }

  lemma {:induction false} HitsSplit(t: Tree, dead: set<Item>)
    ensures Hits(t, dead) == SpineHits(t, dead) + LostHits(t, dead)
  {
    if t.Leaf? {
    } else {
      HitsSplit(t.right, dead);
    }
  }

  lemma {:induction false} NoHits(t: Tree, dead: set<Item>)
    ensures Hits(t, dead) == 0 <==> Elems(t) !! dead
  {
    if t.Leaf? {
    } else {
      NoHits(t.left, dead);
      NoHits(t.right, dead);
    }
  }

  /** Walking what is left meets the old items, in the old order, that the predicate did not take. */
  lemma {:induction false} PruneFilters(t: Tree, dead: set<Item>)
    ensures InOrder(Prune(t, dead)) == Filter(InOrder(t), dead)
  {
    if t.Leaf? {
    } else {
      PruneFilters(t.left, dead);
      PruneFilters(t.right, dead);
      FilterConcat(InOrder(t.left) + [t.item], InOrder(t.right), dead);
      FilterConcat(InOrder(t.left), [t.item], dead);
      assert Filter([t.item], dead) == if t.item in dead then [] else [t.item];
      JoinMeans(Prune(t.left, dead), Prune(t.right, dead));
    }
  }

  lemma {:induction false} PruneShrinks(t: Tree, dead: set<Item>)
    ensures Elems(Prune(t, dead)) == Elems(t) - dead
    ensures Size(Prune(t, dead)) == Size(t) - Hits(t, dead)
    ensures Height(Prune(t, dead)) <= Height(t)
  {
    if t.Leaf? {
    } else {
      PruneShrinks(t.left, dead);
      PruneShrinks(t.right, dead);
      JoinMeans(Prune(t.left, dead), Prune(t.right, dead));
    }
  }

  lemma {:induction false} PruneOrder(t: Tree, dead: set<Item>)
    requires BST(t)
    ensures BST(Prune(t, dead))
  {
    if t.Leaf? {
    } else {
      PruneOrder(t.left, dead);
      PruneOrder(t.right, dead);
      PruneShrinks(t.left, dead);
      PruneShrinks(t.right, dead);
      JoinOrder(Prune(t.left, dead), Prune(t.right, dead), t.item.key);
    }
  }

  lemma {:induction false} DeadNodesInside(t: Tree, dead: set<Item>)
    ensures DeadNodes(t, dead) <= Nodes(t)
  {
    if t.Leaf? {
    } else {
      DeadNodesInside(t.left, dead);
      DeadNodesInside(t.right, dead);
    }
  }

  lemma {:induction false} PruneProper(t: Tree, dead: set<Item>)
    requires Proper(t)
    ensures Proper(Prune(t, dead)) && Nodes(Prune(t, dead)) <= Nodes(t)
  {
    if t.Leaf? {
    } else {
      PruneProper(t.left, dead);
      PruneProper(t.right, dead);
      if t.item in dead {
        JoinMeans(Prune(t.left, dead), Prune(t.right, dead));
      }
    }
  }

  /** The footprint loses exactly the nodes that held a taken item. */
  lemma NodesLeft(n: Node, l: set<Node>, r: set<Node>, deadLeft: set<Node>, deadRight: set<Node>)
    requires deadLeft <= l && deadRight <= r && l !! r && n !in l && n !in r
    ensures {n} + (l - deadLeft) + (r - deadRight) == {n} + l + r - (deadLeft + deadRight)
    ensures (l - deadLeft) + (r - deadRight) == {n} + l + r - (deadLeft + deadRight + {n})
  {
  }

  lemma {:induction false} PruneFootprint(t: Tree, dead: set<Item>)
    requires Proper(t)
    ensures Nodes(Prune(t, dead)) == Nodes(t) - DeadNodes(t, dead)
  {
    hide Join, Elems, InOrder, Size, Height;
    if t.Leaf? {
    } else {
      var l, r := t.left, t.right;
      PruneFootprint(l, dead);
      PruneFootprint(r, dead);
      PruneProper(l, dead);
      PruneProper(r, dead);
      DeadNodesInside(l, dead);
      DeadNodesInside(r, dead);
      NodesLeft(t.node, Nodes(l), Nodes(r), DeadNodes(l, dead), DeadNodes(r, dead));
      if t.item in dead {
        JoinMeans(Prune(l, dead), Prune(r, dead));
      }
    }
  }

  /** Only the answers about the tree's own items matter. */
  lemma {:induction false} PruneLocal(t: Tree, a: set<Item>, b: set<Item>)
    requires Elems(t) * a == Elems(t) * b
    ensures Prune(t, a) == Prune(t, b) && SpineHits(t, a) == SpineHits(t, b)
  {
    if t.Leaf? {
    } else {
      assert Elems(t.left) <= Elems(t) && Elems(t.right) <= Elems(t);
      assert Elems(t.left) * a == Elems(t.left) * (Elems(t) * a);
      assert Elems(t.left) * b == Elems(t.left) * (Elems(t) * b);
      assert Elems(t.right) * a == Elems(t.right) * (Elems(t) * a);
      assert Elems(t.right) * b == Elems(t.right) * (Elems(t) * b);
      PruneLocal(t.left, a, b);
      PruneLocal(t.right, a, b);
      assert t.item in a <==> t.item in Elems(t) * a;
      assert t.item in b <==> t.item in Elems(t) * b;
    }
  }

  /** The counter after a sweep that subtracts the code's count misses the size by the lost hits;
      it stays exact exactly when no item to be taken lies off the right spine. */
  lemma CounterDrift(t: Tree, dead: set<Item>, length: int)
    requires Size(t) <= length
    ensures Size(Prune(t, dead)) <= length - SpineHits(t, dead)
    ensures (length - SpineHits(t, dead)) - Size(Prune(t, dead)) == (length - Size(t)) + LostHits(t, dead)
    ensures length == Size(t) ==>
              (length - SpineHits(t, dead) == Size(Prune(t, dead)) <==> LostHits(t, dead) == 0)
    ensures length == Size(t) ==> length - Hits(t, dead) == Size(Prune(t, dead))
  {
    PruneShrinks(t, dead);
    HitsSplit(t, dead);
  }

  /** Two items, the smaller one on the left and taken: nothing is counted, and the counter stays at two. */
  lemma CounterCanDrift(n: Node, x: Item, m: Node, y: Item)
    requires x != y
    ensures var t := Branch(n, x, Branch(m, y, Leaf, Leaf), Leaf);
            Size(t) == 2 && SpineHits(t, {y}) == 0 && Size(Prune(t, {y})) == 1
  {
    var t := Branch(n, x, Branch(m, y, Leaf, Leaf), Leaf);
    assert Prune(t.left, {y}) == Leaf;
    assert Prune(t, {y}) == Branch(n, x, Leaf, Leaf);
  }

  // ---------------------------------------------------------------- the calls

  /** A predicate that keeps state of its own, may search the tree for the item it is given,
      and may change that item's TTL: state, item, what the search found, TTL to state, answer, TTL. */
  type Predicate<!S> = (S, Item, Option<Item>, int) -> (S, bool, int)

  datatype Calls<S> = Calls(state: S, answers: seq<bool>, ttls: seq<int>)

  /** Calling p once for each of xs, in that order, every search finding the item itself. */
  ghost function CallAll<S>(p: Predicate<S>, s: S, xs: seq<Item>, ttls: seq<int>): (c: Calls<S>)
    requires |xs| == |ttls|
    ensures |c.answers| == |c.ttls| == |xs|
  {
    if xs == [] then Calls(s, [], [])
    else
      var n := |xs| - 1;
      var before := CallAll(p, s, xs[..n], ttls[..n]);
      var (s', b, ttl) := p(before.state, xs[n], Some(xs[n]), ttls[n]);
      Calls(s', before.answers + [b], before.ttls + [ttl])
  }

  lemma {:induction false} CallAllConcat<S>(p: Predicate<S>, s: S, xs: seq<Item>, tx: seq<int>,
                                            ys: seq<Item>, ty: seq<int>)
    requires |xs| == |tx| && |ys| == |ty|
    ensures var a := CallAll(p, s, xs, tx);
            var b := CallAll(p, a.state, ys, ty);
            CallAll(p, s, xs + ys, tx + ty) == Calls(b.state, a.answers + b.answers, a.ttls + b.ttls)
    decreases |ys|
  {
    if ys == [] {
      assert xs + ys == xs && tx + ty == tx;
      var a := CallAll(p, s, xs, tx);
      assert a.answers + [] == a.answers && a.ttls + [] == a.ttls;
    } else {
      var n := |ys| - 1;
      CallAllConcat(p, s, xs, tx, ys[..n], ty[..n]);
      assert (xs + ys)[..|xs + ys| - 1] == xs + ys[..n];
      assert (tx + ty)[..|xs + ys| - 1] == tx + ty[..n];
    }
  }

  /** The items of xs that were answered true. */
  ghost function Taken(xs: seq<Item>, answers: seq<bool>): set<Item>
    requires |xs| == |answers|
  {
    set i | 0 <= i < |xs| && answers[i] :: xs[i]
  }

  lemma TakenConcat(xs: seq<Item>, a: seq<bool>, ys: seq<Item>, b: seq<bool>)
    requires |xs| == |a| && |ys| == |b|
    ensures Taken(xs + ys, a + b) == Taken(xs, a) + Taken(ys, b)
  {
    var all, both := xs + ys, a + b;
    forall x | x in Taken(xs, a) + Taken(ys, b) ensures x in Taken(all, both) {
      if x in Taken(xs, a) {
        var i :| 0 <= i < |xs| && a[i] && xs[i] == x;
        assert all[i] == x && both[i];
      } else {
        var i :| 0 <= i < |ys| && b[i] && ys[i] == x;
        assert all[|xs| + i] == x && both[|xs| + i];
      }
    }
  }

  ghost function TTLs(xs: seq<Item>): (ttls: seq<int>)
    reads xs
    ensures |ttls| == |xs|
  {
    seq(|xs|, i requires 0 <= i < |xs| reads xs => xs[i].TTL)
  }

  // ---------------------------------------------------------------- the tree seen during the calls

  /** The rest of a tree around a hole, from the hole upwards. */
  datatype Around =
    | Top
    | FromLeft(up: Around, node: Node, item: Item, right: Tree)
    | FromRight(up: Around, node: Node, item: Item, left: Tree)

  ghost function Plug(c: Around, t: Tree): Tree {
    match c
    case Top => t
    case FromLeft(up, n, x, r) => Plug(up, Branch(n, x, t, r))
    case FromRight(up, n, x, l) => Plug(up, Branch(n, x, l, t))
  }

  ghost function AroundNodes(c: Around): set<Node> {
    match c
    case Top => {}
    case FromLeft(up, n, x, r) => {n} + Nodes(r) + AroundNodes(up)
    case FromRight(up, n, x, l) => {n} + Nodes(l) + AroundNodes(up)
  }

  /** The heap from root down to the pointer hole is laid out as c. */
  ghost predicate AroundRep(root: Node?, hole: Node?, c: Around)
    reads AroundNodes(c)
    decreases c
  {
    match c
    case Top => root == hole
    case FromLeft(up, n, x, r) =>
      && n.Val == x && n.Left == hole && Rep(n.Right, r) && AroundRep(root, n, up)
      && n !in Nodes(r) && ({n} + Nodes(r)) !! AroundNodes(up)
    case FromRight(up, n, x, l) =>
      && n.Val == x && n.Right == hole && Rep(n.Left, l) && AroundRep(root, n, up)
      && n !in Nodes(l) && ({n} + Nodes(l)) !! AroundNodes(up)
  }

  /** A represented context with a represented tree in its hole is one represented tree. */
  lemma {:induction false} PlugRep(root: Node?, hole: Node?, c: Around, t: Tree)
    requires AroundRep(root, hole, c) && Rep(hole, t) && Nodes(t) !! AroundNodes(c)
    ensures Rep(root, Plug(c, t))
    decreases c
  {
    match c
    case Top =>
    case FromLeft(up, n, x, r) => PlugRep(root, n, up, Branch(n, x, t, r));
    case FromRight(up, n, x, l) => PlugRep(root, n, up, Branch(n, x, l, t));
  }

  lemma {:induction false} PlugPart(c: Around, t: Tree)
    requires BST(Plug(c, t))
    ensures BST(t) && Elems(t) <= Elems(Plug(c, t))
    decreases c
  {
    match c
    case Top =>
    case FromLeft(up, n, x, r) => PlugPart(up, Branch(n, x, t, r));
    case FromRight(up, n, x, l) => PlugPart(up, Branch(n, x, l, t));
  }

  lemma {:induction false} PlugOrder(c: Around, t: Tree, t': Tree)
    requires BST(Plug(c, t)) && BST(t') && Elems(t') <= Elems(t)
    ensures BST(Plug(c, t'))
    decreases c
  {
    match c
    case Top =>
    case FromLeft(up, n, x, r) =>
      PlugPart(up, Branch(n, x, t, r));
      PlugOrder(up, Branch(n, x, t, r), Branch(n, x, t', r));
    case FromRight(up, n, x, l) =>
      PlugPart(up, Branch(n, x, l, t));
      PlugOrder(up, Branch(n, x, l, t), Branch(n, x, l, t'));
  }

  /** Searching the whole tree for the key of an item in the hole ends at that item. */
  lemma FoundInHole(c: Around, t: Tree, x: Item)
    requires BST(Plug(c, t)) && x in Elems(t)
    ensures Find(Plug(c, t), x.key) == Some(x)
  {
    PlugPart(c, t);
    FindIff(Plug(c, t), x.key);
  }

  // ---------------------------------------------------------------- one node of the walk

  lemma PartsApart(t: Tree)
    requires BST(t) && t.Branch?
    ensures Elems(t.left) !! Elems(t.right) && t.item !in Elems(t.left) && t.item !in Elems(t.right)
  {
  }

  lemma TakenInside(t: Tree, answers: seq<bool>)
    requires |answers| == |PostOrder(t)|
    ensures Taken(PostOrder(t), answers) <= Elems(t)
  {
    ElemsListed(t);
  }

  /** The calls at a node: those of the left subtree, those of the right one, and one for the node's item. */
  lemma CallsAtBranch<S>(p: Predicate<S>, s: S, t: Tree, tl: seq<int>, tr: seq<int>, ttl: int)
    requires t.Branch? && |tl| == |PostOrder(t.left)| && |tr| == |PostOrder(t.right)|
    ensures var a := CallAll(p, s, PostOrder(t.left), tl);
            var b := CallAll(p, a.state, PostOrder(t.right), tr);
            var z := p(b.state, t.item, Some(t.item), ttl);
            var c := CallAll(p, s, PostOrder(t), tl + tr + [ttl]);
            && c == Calls(z.0, a.answers + b.answers + [z.1], a.ttls + b.ttls + [z.2])
            && Taken(PostOrder(t), c.answers) ==
               Taken(PostOrder(t.left), a.answers) + Taken(PostOrder(t.right), b.answers) + if z.1 then {t.item} else {}
  {
    var xl, xr := PostOrder(t.left), PostOrder(t.right);
    var a := CallAll(p, s, xl, tl);
    var b := CallAll(p, a.state, xr, tr);
    var z := p(b.state, t.item, Some(t.item), ttl);
    CallAllConcat(p, s, xl, tl, xr, tr);
    assert (xl + xr + [t.item])[..|xl + xr|] == xl + xr;
    assert (tl + tr + [ttl])[..|xl + xr|] == tl + tr;
    TakenConcat(xl, a.answers, xr, b.answers);
    TakenConcat(xl + xr, a.answers + b.answers, [t.item], [z.1]);
    assert z.1 ==> [t.item][0] in Taken([t.item], [z.1]);
  }

  /** The tree left at a node, from the answers below it and at it. */
  lemma PruneAtBranch(t: Tree, dl: set<Item>, dr: set<Item>, b: bool)
    requires BST(t) && t.Branch? && dl <= Elems(t.left) && dr <= Elems(t.right)
    ensures var l, r := Prune(t.left, dl), Prune(t.right, dr);
            var dead := dl + dr + if b then {t.item} else {};
            && Prune(t, dead) == (if b then Join(l, r) else Branch(t.node, t.item, l, r))
            && SpineHits(t, dead) == SpineHits(t.right, dr) + if b then 1 else 0
  {
    PartsApart(t);
    var dead := dl + dr + if b then {t.item} else {};
    assert Elems(t.left) * dead == Elems(t.left) * dl;
    assert Elems(t.right) * dead == Elems(t.right) * dr;
    PruneLocal(t.left, dead, dl);
    PruneLocal(t.right, dead, dr);
  }

  /** The tree around the walk stays a search tree when a part of it is pruned. */
  lemma PlugPruned(c: Around, t: Tree, dl: set<Item>, dr: set<Item>)
    requires BST(Plug(c, t)) && t.Branch?
    ensures BST(Plug(c, Branch(t.node, t.item, Prune(t.left, dl), t.right)))
    ensures BST(Plug(c, Branch(t.node, t.item, t.left, Prune(t.right, dr))))
  {
    PlugPart(c, t);
    PruneOrder(t.left, dl);
    PruneShrinks(t.left, dl);
    PruneOrder(t.right, dr);
    PruneShrinks(t.right, dr);
    PlugOrder(c, t, Branch(t.node, t.item, Prune(t.left, dl), t.right));
    PlugOrder(c, t, Branch(t.node, t.item, t.left, Prune(t.right, dr)));
  }

  ghost predicate Within(xs: seq<Item>, s: set<Item>) {
    forall x :: x in xs ==> x in s
  }

  lemma {:induction false} PostOrderInside(t: Tree)
    ensures Within(PostOrder(t), Elems(t))
  {
    if t.Leaf? {
    } else {
      PostOrderInside(t.left);
      PostOrderInside(t.right);
    }
  }

  lemma TTLsConcat(xs: seq<Item>, ys: seq<Item>)
    ensures TTLs(xs + ys) == TTLs(xs) + TTLs(ys)
  {
  }

  lemma TTLsAtBranch(t: Tree)
    requires t.Branch?
    ensures TTLs(PostOrder(t)) == TTLs(PostOrder(t.left)) + TTLs(PostOrder(t.right)) + [t.item.TTL]
  {
    var xl, xr := PostOrder(t.left), PostOrder(t.right);
    TTLsConcat(xl, xr);
    TTLsConcat(xl + xr, [t.item]);
  }

  lemma IndexPrune(t: Tree, dead: set<Item>)
    requires BST(t)
    ensures Index(Prune(t, dead)) == map k | k in Index(t) && Index(t)[k] !in dead :: Index(t)[k]
  {
    hide *;
    var t' := Prune(t, dead);
    PruneOrder(t, dead);
    PruneShrinks(t, dead);
    IndexValues(t);
    IndexValues(t');
    forall k ensures k in Index(t') <==> k in Index(t) && Index(t)[k] !in dead
             ensures k in Index(t') ==> Index(t')[k] == Index(t)[k] {
      IndexChange(t, t', k);
    }
  }
}
