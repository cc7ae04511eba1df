/** The tree object: a root and a counter over the nodes' in-place operations. */
module InterfacedTree {
  import opened Keys
  import opened Items
  import opened Trees
  import opened Pruning
  import TreeNode

  class InterfacedBST {
    var Root: Node?
    var Length: int
    ghost var tree: Tree

    /** The heap below Root is a search tree, and the counter is never below its size. */
    ghost predicate Valid()
      reads this, Nodes(tree)
    {
      Rep(Root, tree) && BST(tree) && Size(tree) <= Length
    }

    constructor ()
      ensures Valid() && tree == Leaf && Length == 0
    {
      Root, Length, tree := null, 0, Leaf;
    }

    method Insert(value: Item) returns (inserted: bool, ghost nd: Node)
      requires Valid()
      modifies this, Nodes(tree)
      ensures Valid() && (inserted ==> fresh(nd))
      ensures Nodes(tree) == old(Nodes(tree)) + if inserted then {nd} else {}
      ensures inserted <==> old(Find(tree, value.key)).None?
      ensures tree == Put(old(tree), value, nd)
      ensures Elems(tree) == old(Without(Elems(tree), value.key)) + {value}
      ensures Length - Size(tree) == old(Length - Size(tree))
    {
      hide Less, Rep, BST, Elems, Without;
      assert allocated(Nodes(tree));
      assert Root == null <==> tree.Leaf? by { TreeNode.NullIsLeaf(Root, tree); }
      if Root == null {
        var first := new Node(value);
        TreeNode.SingleNode(first);
        Root, nd := first, first;
        inserted := true;
      } else {
        inserted, nd := TreeNode.Insert(Root, value, tree);
      }
      if inserted {
        Length := Length + 1;
      }
      PutOrder(tree, value, nd);
      PutElems(tree, value, nd);
      PutFootprint(tree, value, nd);
      tree := Put(tree, value, nd);
    }

    function Search(value: Item): (r: Option<Item>)
      requires Valid()
      reads this, Nodes(tree)
      ensures r == Find(tree, value.key)
      ensures r.Some? ==> r.value in Elems(tree) && r.value.key == value.key
      ensures r.None? ==> forall x :: x in Elems(tree) ==> x.key != value.key
    {
      FindIff(tree, value.key);
      if Root == null then None else TreeNode.Search(Root, value, tree)
    }

    method Delete(value: Item) returns (deleted: bool)
      requires Valid()
      modifies this, Nodes(tree)
      ensures Valid()
      ensures deleted <==> old(Find(tree, value.key)).Some?
      ensures tree == Remove(old(tree), value.key)
      ensures Elems(tree) == old(Without(Elems(tree), value.key))
      ensures Nodes(tree) == old(Nodes(tree) - Holder(tree, value.key))
      ensures Length - Size(tree) == old(Length - Size(tree))
      ensures Height(tree) <= old(Height(tree))
    {
      hide Less, Rep, BST, Remove, Holder, Find;
      assert allocated(Nodes(tree));
      TreeNode.NullIsLeaf(Root, tree);
      TreeNode.RepIsProper(Root, tree);
      RemoveOrder(tree, value.key);
      RemoveElems(tree, value.key);
      RemoveFootprint(tree, value.key);
      RemoveShrinks(tree, value.key);
      if Root == null {
        return false;
      }
      Root, deleted := TreeNode.Delete(Root, value, tree);
      if deleted {
        Length := Length - 1;
      }
      tree := Remove(tree, value.key);
    }

    /** Deletes what the predicate takes. The predicate is called as CallAll says, each search in it
        answered by the half-rewritten tree; the counter falls by the hits on the right spine only. */
    method DeleteIf<S>(p: Predicate<S>, s: S) returns (deleted: int, s': S)
      requires Valid()
      modifies this, Nodes(tree), Elems(tree)`TTL
      ensures Valid()
      ensures var xs := old(PostOrder(tree));
              var calls := CallAll(p, s, xs, old(TTLs(PostOrder(tree))));
              var dead := Taken(xs, calls.answers);
              && s' == calls.state
              && TTLs(xs) == calls.ttls
              && tree == Prune(old(tree), dead)
              && deleted == SpineHits(old(tree), dead)
              && Nodes(tree) == old(Nodes(tree)) - DeadNodes(old(tree), dead)
              && InOrder(tree) == Filter(old(InOrder(tree)), dead)
              && Elems(tree) == old(Elems(tree)) - dead
              && Length - Size(tree) == old(Length - Size(tree)) + LostHits(old(tree), dead)
      ensures Height(tree) <= old(Height(tree))
    {
      hide Less, Rep, BST, CallAll, Taken, Prune, Nodes, Elems, PostOrder, TTLs, InOrder, Filter, DeadNodes, LostHits,
        SpineHits, Size, Height;
      assert allocated(Nodes(tree)) && allocated(Elems(tree));
      TreeNode.NullIsLeaf(Root, tree);
      TreeNode.RepIsProper(Root, tree);
      ghost var xs := PostOrder(tree);
      ghost var dead := Taken(xs, CallAll(p, s, xs, TTLs(xs)).answers);
      PruneOrder(tree, dead);
      PruneShrinks(tree, dead);
      PruneFilters(tree, dead);
      PruneFootprint(tree, dead);
      CounterDrift(tree, dead, Length);
      if Root == null {
        TreeNode.LeafSwept(p, s, tree);
        PruneLeaf(dead);
        return 0, s;
      }
      Root, deleted, s' := TreeNode.DeleteIf(Root, p, s, Root, tree, Top);
      Length := Length - deleted;
      tree := Prune(tree, dead);
    }

    method Traverse<S>(f: (S, Item) -> S, s: S) returns (s': S)
      requires Valid()
      ensures s' == TreeNode.Fold(f, s, InOrder(tree))
    {
      if Root == null {
        return s;
      }
      s' := TreeNode.Traverse(Root, f, s, tree);
    }

    function Len(): int
      reads this
    {
      Length
    }

    function GetHeight(): (h: nat)
      requires Valid()
      reads this, Nodes(tree)
      ensures h == Height(tree) && Size(tree) <= Pow2(h) - 1
      ensures Level(tree, h) == [] && (h > 0 ==> Level(tree, h - 1) != [])
    {
      SizeWithinHeight(tree);
      LevelsFilled(tree, Height(tree));
      LevelsFilled(tree, if tree.Leaf? then 0 else Height(tree) - 1);
      if Root == null then 0 else TreeNode.GetHeight(Root, tree)
    }

    method Clear()
      modifies this
      ensures Valid() && tree == Leaf && Length == 0
    {
      Root, Length, tree := null, 0, Leaf;
    }

    /** The rows that String prints: level by level, left to right, every index within the height. */
    method Rows() returns (rows: array<seq<Item>>)
      requires Valid()
      ensures rows.Length == Height(tree)
      ensures multiset(Levels(tree, rows.Length)) == multiset(InOrder(tree))
      ensures forall x :: x in Elems(tree) ==> multiset(Levels(tree, rows.Length))[x] == 1
      ensures forall d :: 0 <= d < rows.Length ==> rows[d] == Level(tree, d) != []
    {
      hide Less, Rep, BST, Level, Levels, Elems, InOrder, Height;
      assert allocated(Nodes(tree));
      var height := GetHeight();
      rows := new seq<Item>[height](_ => []);
      TreeNode.FillNodes(rows, Root, 0, tree);
      forall d | 0 <= d < height ensures Level(tree, d) != [] {
        LevelsFilled(tree, d);
      }
      LevelsCover(tree, height);
    }
  }
}
