/** `rb_tree` and `map`: insertion with its fixup loop, lookup, and `operator[]`. */
module RbTree {
  import opened Machine
  import opened RedBlack
  import opened RbMemory

  class RbTree {
    var root: Node?
    ghost var nodes: set<Node>
    /** The tree the pointers describe. */
    ghost var shape: Tree

    ghost function Mem(): Memory
      reads `nodes, nodes
    {
      map n | n in nodes :: Cell(n.value, n.colo, n.parent, n.left, n.right)
    }

    /** The memory is t with x around it, and nothing else. */
    ghost predicate Split(x: Context, t: Tree)
      reads this, nodes
    {
      Holds(Mem(), root, x, t) && nodes == Ring(x) + Nodes(t)
    }

    ghost predicate Valid()
      reads this, nodes
    {
      Split(Top, shape) && RedBlackTree(shape) && Sorted(Contents(shape))
    }

    constructor ()
      ensures Valid() && Contents(shape) == [] && nodes == {}
    {
      root := null;
      nodes := {};
      shape := Leaf;
    }

    // ---------- single writes ----------

    method SetParent(n: Node, p: Node?)
      requires n in nodes
      modifies n`parent
      ensures Mem() == WithParent(old(Mem()), n, p)
    {
      n.parent := p;
    }

    method SetLeft(n: Node, c: Node?)
      requires n in nodes
      modifies n`left
      ensures Mem() == WithLeft(old(Mem()), n, c)
    {
      n.left := c;
    }

    method SetRight(n: Node, c: Node?)
      requires n in nodes
      modifies n`right
      ensures Mem() == WithRight(old(Mem()), n, c)
    {
      n.right := c;
    }

    method Paint(n: Node, c: Color)
      requires n in nodes
      modifies n`colo
      ensures Mem() == Painted(old(Mem()), n, c)
    {
      n.colo := c;
    }

    method SetValue(n: Node, value: int)
      requires n in nodes
      modifies n`value
      ensures Mem() == Revalued(old(Mem()), n, Pair(old(n.value.key), value))
    {
      n.value := Pair(n.value.key, value);
    }

    // ---------- rotations ----------

    method ReplaceChild(n: Node, y: Node)
      requires n in nodes && (n.parent == null || n.parent in nodes)
      modifies `root, nodes
      ensures Mem() == ChildReplaced(old(Mem()), n, y) && root == NewRoot(old(Mem()), old(root), n, y)
      ensures n.parent == old(n.parent)
    {
      if n.parent == null {
        root := y;
      } else if n == n.parent.left {
        SetLeft(n.parent, y);
      } else {
        SetRight(n.parent, y);
      }
    }

    method RotateLeft(n: Node)
      requires n in nodes && n.right != null && n.right in nodes && n.right != n && n.right.left != n
      requires n.right.left == null || n.right.left in nodes
      requires n.parent == null || n.parent in nodes
      modifies `root, nodes
      ensures Mem() == LeftRotated(old(Mem()), n) && root == NewRoot(old(Mem()), old(root), n, old(n.right))
    {
      var y := n.right;
      SetRight(n, y.left);
      if y.left != null {
        SetParent(y.left, n);
      }
      SetParent(y, n.parent);
      ReplaceChild(n, y);
      SetLeft(y, n);
      SetParent(n, y);
    }

    method RotateRight(n: Node)
      requires n in nodes && n.left != null && n.left in nodes && n.left != n && n.left.right != n
      requires n.left.right == null || n.left.right in nodes
      requires n.parent == null || n.parent in nodes
      modifies `root, nodes
      ensures Mem() == RightRotated(old(Mem()), n) && root == NewRoot(old(Mem()), old(root), n, old(n.left))
    {
      var y := n.left;
      SetLeft(n, y.right);
      if y.right != null {
        SetParent(y.right, n);
      }
      SetParent(y, n.parent);
      ReplaceChild(n, y);
      SetRight(y, n);
      SetParent(n, y);
    }

    // ---------- insert_fixup ----------

    /** The fixup loop is at n: n is a red node at the top of t, and only n and its parent may clash. */
    ghost predicate Fixing(n: Node, x: Context, t: Tree, s: seq<Pair>)
      reads this, nodes
    {
      Split(x, t) && AlmostRedBlack(x, t) && RedRoot(t) && t.node == n && Contents(Plug(x, t)) == s
    }

    /** Red uncle: parent and uncle become black, the grandparent red, and the loop goes on there. */
    method Recolor(n: Node, y: Node, ghost x: Context, ghost t: Tree, ghost s: seq<Pair>) returns (g: Node)
      requires Fixing(n, x, t, s) && Clash(x, t) && RedRoot(x.up.other) && y == x.up.other.node
      modifies nodes
      ensures Fixing(g, x.up.up, Recolored(x, t), s)
    {
      hide Holds, Painted, AlmostRedBlack, Nodes, Ring, Contents, Plug;
      RecoloredKeeps(x, t);
      ClashHasGrandparent(x, t);
      Family(Mem(), root, x, t);
      RecolorHolds(Mem(), root, x, t);
      RecoloredNodes(x, t);
      Paint(n.parent, Black);
      Paint(y, Black);
      Paint(n.parent.parent, Red);
      g := n.parent.parent;
    }

    /** Inner grandchild on the left: the loop goes up to the parent and rotates it left. */
    method TurnLeft(n: Node, ghost x: Context, ghost t: Tree, ghost s: seq<Pair>) returns (p: Node)
      requires Fixing(n, x, t, s) && Clash(x, t) && x.RightOf?
      modifies `root, nodes
      ensures Fixing(p, TurnedContext(x, t), TurnedTree(x, t), s)
    {
      hide Holds, LeftRotated, RightRotated, AlmostRedBlack, Nodes, Ring, Contents, Plug;
      ClashHasGrandparent(x, t);
      Family(Mem(), root, x, t);
      TurnedKeeps(x, t);
      TurnHolds(Mem(), root, x, t);
      HoldsLift(Mem(), root, x, t);
      RotateLeftReady(Mem(), root, x.up, Lifted(x, t));
      p := n.parent;
      RotateLeft(p);
    }

    method TurnRight(n: Node, ghost x: Context, ghost t: Tree, ghost s: seq<Pair>) returns (p: Node)
      requires Fixing(n, x, t, s) && Clash(x, t) && x.LeftOf?
      modifies `root, nodes
      ensures Fixing(p, TurnedContext(x, t), TurnedTree(x, t), s)
    {
      hide Holds, LeftRotated, RightRotated, AlmostRedBlack, Nodes, Ring, Contents, Plug;
      ClashHasGrandparent(x, t);
      Family(Mem(), root, x, t);
      TurnedKeeps(x, t);
      TurnHolds(Mem(), root, x, t);
      HoldsLift(Mem(), root, x, t);
      RotateRightReady(Mem(), root, x.up, Lifted(x, t));
      p := n.parent;
      RotateRight(p);
    }

    /** The parent becomes black and the grandparent red. */
    method Repaint(n: Node, ghost x: Context, ghost t: Tree, ghost s: seq<Pair>)
      requires Fixing(n, x, t, s) && Clash(x, t)
      modifies nodes
      ensures !x.up.Top? && Split(Repainted(x), t)
      ensures n in nodes && n.parent == x.node && n.parent in nodes && n.parent.parent == x.up.node
    {
      hide Holds, Painted, Nodes, Ring;
      ClashHasGrandparent(x, t);
      Family(Mem(), root, x, t);
      RepaintHolds(Mem(), root, x, t);
      Paint(n.parent, Black);
      Paint(n.parent.parent, Red);
    }

    /** Outer grandchild on the left, black uncle: repaint, and rotate the grandparent right. */
    method StraightenRight(n: Node, ghost x: Context, ghost t: Tree, ghost s: seq<Pair>)
      requires Fixing(n, x, t, s) && Clash(x, t) && !RedRoot(x.up.other) && x.LeftOf? && x.up.LeftOf?
      modifies `root, nodes
      ensures Fixing(n, Straightened(x), t, s)
    {
      hide Holds, LeftRotated, RightRotated, AlmostRedBlack, Nodes, Ring, Contents, Plug;
      ClashHasGrandparent(x, t);
      StraightenedKeeps(x, t);
      Repaint(n, x, t, s);
      StraightenHolds(Mem(), root, x, t);
      HoldsLift(Mem(), root, Repainted(x), t);
      HoldsLift(Mem(), root, Repainted(x).up, Lifted(Repainted(x), t));
      RotateRightReady(Mem(), root, x.up.up, Grand(Repainted(x), t));
      RotateRight(n.parent.parent);
    }

    method StraightenLeft(n: Node, ghost x: Context, ghost t: Tree, ghost s: seq<Pair>)
      requires Fixing(n, x, t, s) && Clash(x, t) && !RedRoot(x.up.other) && x.RightOf? && x.up.RightOf?
      modifies `root, nodes
      ensures Fixing(n, Straightened(x), t, s)
    {
      hide Holds, LeftRotated, RightRotated, AlmostRedBlack, Nodes, Ring, Contents, Plug;
      ClashHasGrandparent(x, t);
      StraightenedKeeps(x, t);
      Repaint(n, x, t, s);
      StraightenHolds(Mem(), root, x, t);
      HoldsLift(Mem(), root, Repainted(x), t);
      HoldsLift(Mem(), root, Repainted(x).up, Lifted(Repainted(x), t));
      RotateLeftReady(Mem(), root, x.up.up, Grand(Repainted(x), t));
      RotateLeft(n.parent.parent);
    }

    lemma FixingParent(n: Node, x: Context, t: Tree, s: seq<Pair>)
      requires Fixing(n, x, t, s)
      ensures n in nodes && n.parent == UpOf(x) && LinkIn(Mem(), n.parent)
      ensures !x.Top? ==> n.parent.colo == x.colo
    {}

    /** The root becomes black. */
    method BlackenRoot(ghost n: Node, ghost x: Context, ghost t: Tree, ghost s: seq<Pair>)
      requires Fixing(n, x, t, s) && Sorted(s) && (x.Top? || x.colo.Black?)
      modifies this, nodes
      ensures Valid() && Contents(shape) == s && nodes == old(nodes)
    {
      FinishedIsFine(x, t);
      HoldsPlugged(Mem(), root, x, t);
      PlugNodes(x, t);
      hide AlmostRedBlack, RedBlackTree, Plug, Contents;
      ghost var whole := Plug(x, t);
      assert root == whole.node && nodes == Nodes(whole) == Nodes(Colored(whole, Black));
      PaintHolds(Mem(), root, Top, whole, Black);
      Paint(root, Black);
      shape := Colored(whole, Black);
    }

    /** insert_fixup terminates with a red-black tree of the same contents. */
    method InsertFixup(n: Node, ghost x: Context, ghost t: Tree, ghost s: seq<Pair>)
      requires Fixing(n, x, t, s) && Sorted(s)
      modifies this, nodes
      ensures Valid() && Contents(shape) == s && nodes == old(nodes)
    {
      hide Holds, AlmostRedBlack, Nodes, Ring, Contents, Plug, RedBlackTree;
      var m := n;
      ghost var y, u := x, t;
      FixingParent(m, y, u, s);
      while m.parent != null && m.parent.colo == Red
        invariant Fixing(m, y, u, s) && nodes == old(nodes)
        invariant m in nodes && m.parent == UpOf(y) && LinkIn(Mem(), m.parent)
        invariant !y.Top? ==> m.parent.colo == y.colo
        decreases Depth(y)
      {
        Family(Mem(), root, y, u);
        assert Depth(y) == 2 + Depth(y.up.up);
        if m.parent == m.parent.parent.left {
          var uncle := m.parent.parent.right;
          if uncle != null && uncle.colo == Red {
            m := Recolor(m, uncle, y, u, s);
            y, u := y.up.up, Recolored(y, u);
          } else {
            if m == m.parent.right {
              m := TurnLeft(m, y, u, s);
              TurnedKeeps(y, u);
              y, u := TurnedContext(y, u), TurnedTree(y, u);
            }
            StraightenRight(m, y, u, s);
            y := Straightened(y);
          }
        } else {
          var uncle := m.parent.parent.left;
          if uncle != null && uncle.colo == Red {
            m := Recolor(m, uncle, y, u, s);
            y, u := y.up.up, Recolored(y, u);
          } else {
            if m == m.parent.left {
              m := TurnRight(m, y, u, s);
              TurnedKeeps(y, u);
              y, u := TurnedContext(y, u), TurnedTree(y, u);
            }
            StraightenLeft(m, y, u, s);
            y := Straightened(y);
          }
        }
        FixingParent(m, y, u, s);
      }
      BlackenRoot(m, y, u, s);
    }

    // ---------- insert and find_node ----------

    /** A hole on the way down from the root. */
    ghost predicate On(x: Context, t: Tree, c: Node?)
      reads this, nodes
    {
      Split(x, t) && Plug(x, t) == shape && c == RootOf(t)
    }

    lemma AtRoot()
      requires Valid()
      ensures On(Top, shape, root) && Before(Top) == [] && After(Top) == []
    {}

    lemma StepDown(x: Context, t: Tree, c: Node)
      requires On(x, t, c)
      ensures t.Fork? && c in nodes && c.value == t.value && c.left == RootOf(t.left) && c.right == RootOf(t.right)
      ensures Split(IntoLeft(x, t), t.left) && Split(IntoRight(x, t), t.right)
    {
      HoldsLower(Mem(), root, x, t);
    }

    /** Adds exactly one element, behind every element that is not greater, and leaves a red-black tree. */
    method Insert(value: Pair)
      requires Valid()
      modifies this, nodes
      ensures Valid() && fresh(nodes - old(nodes)) && old(nodes) <= nodes
      ensures Inserted(old(Contents(shape)), value, Contents(shape))
    {
      hide Holds, AlmostRedBlack, Nodes, Ring, Contents, Plug, RedBlackTree, Before, After;
      var n := new Node(value);
      var y: Node? := null;
      var x := root;
      ghost var u, t := Top, shape;
      AtRoot();
      while x != null
        modifies {}
        invariant On(u, t, x) && y == UpOf(u)
        invariant AtMost(Before(u), value.key) && Above(After(u), value.key)
        invariant !u.Top? ==> (u.LeftOf? <==> value.key < u.value.key)
        decreases t
      {
        StepDown(u, t, x);
        y := x;
        if value.key < x.value.key {
          GoLeft(u, t, value.key);
          x := x.left;
          u, t := IntoLeft(u, t), t.left;
        } else {
          GoRight(u, t, value.key);
          x := x.right;
          u, t := IntoRight(u, t), t.right;
        }
      }
      Attach(n, y, u);
      AddedLeaf(u, n, value);
      InsertedSorted(old(Contents(shape)), value, Contents(Plug(u, Fork(n, value, Red, Leaf, Leaf))));
      InsertFixup(n, u, Fork(n, value, Red, Leaf, Leaf), Contents(Plug(u, Fork(n, value, Red, Leaf, Leaf))));
    }

    /** Links n below y on the side of its key, or makes it the root. */
    method Attach(n: Node, y: Node?, ghost x: Context)
      requires Split(x, Leaf) && y == UpOf(x) && n !in nodes
      requires n.colo == Red && n.parent == null && n.left == null && n.right == null
      requires !x.Top? ==> (x.LeftOf? <==> n.value.key < x.value.key)
      modifies this, nodes, n
      ensures Split(x, Fork(n, n.value, Red, Leaf, Leaf)) && nodes == old(nodes) + {n} && shape == old(shape)
      ensures n.value == old(n.value)
    {
      RingIn(Mem(), root, x);
      LeafAttached(Mem(), root, x, n, n.value);
      hide Holds, Ring;
      n.parent := y;
      nodes := nodes + {n};
      ghost var m := old(Mem())[n := Cell(n.value, Red, y, null, null)];
      assert Mem() == m;
      if y == null {
        root := n;
        assert Mem() == m == Attached(m, x, n);
      } else if n.value.key < y.value.key {
        SetLeft(y, n);
      } else {
        SetRight(y, n);
      }
    }

    /** find_node: a node with the key exactly when there is one. */
    method FindNode(key: int) returns (n: Node?, ghost x: Context, ghost t: Tree)
      requires Valid()
      ensures n == null <==> !HasKey(Contents(shape), key)
      ensures n != null ==> On(x, t, n) && t.Fork? && t.value.key == key && n in nodes && n.value in Contents(shape)
    {
      hide Holds, AlmostRedBlack, Nodes, Ring, Contents, Plug, RedBlackTree, Before, After;
      n, x, t := root, Top, shape;
      AtRoot();
      while n != null
        invariant On(x, t, n) && Below(Before(x), key) && Above(After(x), key)
        decreases t
      {
        StepDown(x, t, n);
        if key < n.value.key {
          GoLeft(x, t, key);
          n := n.left;
          x, t := IntoLeft(x, t), t.left;
        } else if n.value.key < key {
          GoRight(x, t, key);
          n := n.right;
          x, t := IntoRight(x, t), t.right;
        } else {
          PresentKey(x, t);
          return;
        }
      }
      assert t.Leaf?;
      AbsentKey(x, key);
    }

    /** Writes the value part of a node that find_node returned. */
    method Revalue(n: Node, value: int, ghost x: Context, ghost t: Tree)
      requires Valid() && On(x, t, n) && t.Fork? && n in nodes && Distinct(Contents(shape))
      modifies n, `shape
      ensures Valid() && nodes == old(nodes) && Distinct(Contents(shape))
      ensures forall k, w :: Bound(Contents(shape), k, w) <==>
                             if k == old(n.value.key) then w == value else Bound(old(Contents(shape)), k, w)
    {
      hide Holds, Contents, Plug, RedBlackTree, Nodes, Ring, Bound, Distinct, Sorted;
      StepDown(x, t, n);
      RevaluedWhole(Mem(), root, x, t, value);
      ghost var v := Pair(t.value.key, value);
      ghost var m, w := Revalued(Mem(), n, v), Plug(x, t.(value := v));
      SetValue(n, value);
      assert Mem() == m;
      shape := w;
    }
  }

  /** The whole tree after the value under a key is changed in place. */
  lemma RevaluedWhole(m: Memory, root: Node?, x: Context, t: Tree, value: int)
    requires Holds(m, root, x, t) && t.Fork? && RedBlackTree(Plug(x, t)) && Distinct(Contents(Plug(x, t)))
    ensures var v := Pair(t.value.key, value);
            var w := Plug(x, t.(value := v));
            && Holds(Revalued(m, t.node, v), root, Top, w) && RedBlackTree(w) && Sorted(Contents(w))
            && Ring(Top) + Nodes(w) == Ring(x) + Nodes(t)
            && Distinct(Contents(w))
            && forall k, u :: Bound(Contents(w), k, u) <==>
                 if k == v.key then u == value else Bound(Contents(Plug(x, t)), k, u)
  {
    hide Holds, Contents, Plug, RedBlackTree, Sorted, Bound;
    var v := Pair(t.value.key, value);
    RevaluedColors(x, t, v);
    RevaluedContents(x, t, value);
    RevalueHolds(m, root, x, t, v);
    HoldsPlugged(Revalued(m, t.node, v), root, x, t.(value := v));
    PlugNodes(x, t.(value := v));
    DistinctIsSorted(Contents(Plug(x, t.(value := v))));
  }

  /** The kernel's `map`.  Its invariant, beyond the tree's, is that no key occurs twice. */
  class Map {
    const tree: RbTree

    ghost function Pairs(): seq<Pair>
      reads tree
    {
      Contents(tree.shape)
    }

    ghost predicate Valid()
      reads tree, tree.nodes
    {
      tree.Valid() && Distinct(Pairs())
    }

    constructor ()
      ensures Valid() && Pairs() == []
    {
      tree := new RbTree();
    }

    /** `insert` keeps the keys distinct exactly when the key was absent. */
    method Insert(key: int, value: int)
      requires Valid()
      modifies tree, tree.nodes
      ensures tree.Valid() && fresh(tree.nodes - old(tree.nodes)) && Inserted(old(Pairs()), Pair(key, value), Pairs())
      ensures Valid() <==> !HasKey(old(Pairs()), key)
    {
      tree.Insert(Pair(key, value));
      InsertedDistinctIff(old(Pairs()), Pair(key, value), Pairs());
    }

    /** `operator[]`; `raw` is what an uninitialised value holds. */
    method Index(key: int, raw: int) returns (n: Node, ghost x: Context, ghost t: Tree)
      requires Valid()
      modifies tree, tree.nodes
      ensures Valid() && fresh(tree.nodes - old(tree.nodes))
      ensures n in tree.nodes && tree.On(x, t, n) && t.Fork? && n.value.key == key && n.value in Pairs()
      ensures HasKey(old(Pairs()), key) ==> Pairs() == old(Pairs())
      ensures !HasKey(old(Pairs()), key) ==> Inserted(old(Pairs()), Pair(key, raw), Pairs())
    {
      var found: Node?;
      found, x, t := tree.FindNode(key);
      if found == null {
        tree.Insert(Pair(key, raw));
        InsertedDistinctIff(old(Pairs()), Pair(key, raw), Pairs());
        InsertedKeys(old(Pairs()), Pair(key, raw), Pairs(), key);
        found, x, t := tree.FindNode(key);
      }
      n := found;
    }

    /** `map[key] = value`: afterwards the key is bound to the value, and every other binding is as before. */
    method Store(key: int, value: int, raw: int)
      requires Valid()
      modifies tree, tree.nodes
      ensures Valid() && fresh(tree.nodes - old(tree.nodes))
      ensures forall k, w :: Bound(Pairs(), k, w) <==> if k == key then w == value else Bound(old(Pairs()), k, w)
    {
      var n, x, t := Index(key, raw);
      ghost var s := Pairs();
      if !HasKey(old(Pairs()), key) { OtherBindings(old(Pairs()), Pair(key, raw), s); }
      tree.Revalue(n, value, x, t);
    }

    /** `at`: the bound value, or None for the exception. */
    method At(key: int) returns (r: Option<int>)
      requires Valid()
      ensures r.None? <==> !HasKey(Pairs(), key)
      ensures r.Some? ==> forall w :: Bound(Pairs(), key, w) <==> w == r.value
    {
      var n, x, t := tree.FindNode(key);
      if n == null { return None; }
      OneBinding(Pairs(), n.value);
      return Some(n.value.value);
    }
  }
}
