/** Trees in memory: what the pointers of `rb_tree` mean, and what a write does to the tree they describe. */
module RbMemory {
  import opened RedBlack

  /** The fields of a node. */
  datatype Cell = Cell(value: Pair, colo: Color, parent: Node?, left: Node?, right: Node?)

  type Memory = map<Node, Cell>

  function RootOf(t: Tree): Node? {
    if t.Leaf? then null else t.node
  }

  function Nodes(t: Tree): set<Node> {
    if t.Leaf? then {} else {t.node} + Nodes(t.left) + Nodes(t.right)
  }

  /** The nodes around a hole. */
  function Ring(x: Context): set<Node> {
    if x.Top? then {} else {x.node} + Nodes(x.other) + Ring(x.up)
  }

  function UpOf(x: Context): Node? {
    if x.Top? then null else x.node
  }

  /** No node occurs twice. */
  ghost predicate Apart(t: Tree) {
    t.Fork? ==>
      && t.node !in Nodes(t.left) && t.node !in Nodes(t.right) && Nodes(t.left) !! Nodes(t.right)
      && Apart(t.left) && Apart(t.right)
  }

  ghost predicate ApartAround(x: Context) {
    !x.Top? ==>
      && x.node !in Nodes(x.other) && x.node !in Ring(x.up) && Nodes(x.other) !! Ring(x.up)
      && Apart(x.other) && ApartAround(x.up)
  }

  predicate Has(m: Memory, n: Node, c: Cell) {
    n in m && m[n] == c
  }

  /** Below a pointer is t, with parent links leading back to `up`. */
  ghost predicate At(m: Memory, t: Tree, up: Node?) {
    t.Fork? ==>
      && Has(m, t.node, Cell(t.value, t.colo, up, RootOf(t.left), RootOf(t.right)))
      && At(m, t.left, t.node) && At(m, t.right, t.node)
  }

  /** Around a hole that `hole` fills is x, below `root`. */
  ghost predicate Around(m: Memory, x: Context, hole: Node?, root: Node?) {
    if x.Top? then root == hole
    else
      && Has(m, x.node, Cell(x.value, x.colo, UpOf(x.up),
                             if x.LeftOf? then hole else RootOf(x.other), if x.LeftOf? then RootOf(x.other) else hole))
      && At(m, x.other, x.node) && Around(m, x.up, x.node, root)
  }

  /** The memory is t with x around it. */
  ghost predicate Holds(m: Memory, root: Node?, x: Context, t: Tree) {
    && Apart(t) && ApartAround(x) && Nodes(t) !! Ring(x)
    && At(m, t, UpOf(x)) && Around(m, x, RootOf(t), root)
  }

  // ---------- moving the hole ----------

  lemma HoldsLift(m: Memory, root: Node?, x: Context, t: Tree)
    requires !x.Top?
    ensures Holds(m, root, x, t) <==> Holds(m, root, x.up, Lifted(x, t))
  {}

  lemma HoldsLower(m: Memory, root: Node?, x: Context, t: Tree)
    requires t.Fork?
    ensures Holds(m, root, x, t) <==> Holds(m, root, IntoLeft(x, t), t.left)
    ensures Holds(m, root, x, t) <==> Holds(m, root, IntoRight(x, t), t.right)
  {
    HoldsLift(m, root, IntoLeft(x, t), t.left);
    HoldsLift(m, root, IntoRight(x, t), t.right);
  }

  lemma {:induction false} HoldsPlugged(m: Memory, root: Node?, x: Context, t: Tree)
    ensures Holds(m, root, x, t) <==> Holds(m, root, Top, Plug(x, t))
    decreases x
  {
    hide Holds;
    if !x.Top? {
      HoldsLift(m, root, x, t);
      HoldsPlugged(m, root, x.up, Lifted(x, t));
    }
  }

  lemma {:induction false} PlugNodes(x: Context, t: Tree)
    ensures Nodes(Plug(x, t)) == Ring(x) + Nodes(t)
  {
    if !x.Top? { PlugNodes(x.up, Lifted(x, t)); }
  }

  // ---------- writes ----------

  predicate SameOn(m: Memory, m': Memory, s: set<Node>) {
    forall n :: n in s && n in m ==> n in m' && m'[n] == m[n]
  }

  lemma {:induction false} AtFrame(m: Memory, m': Memory, t: Tree, up: Node?)
    requires At(m, t, up) && SameOn(m, m', Nodes(t))
    ensures At(m', t, up)
  {
    if t.Fork? {
      AtFrame(m, m', t.left, t.node);
      AtFrame(m, m', t.right, t.node);
    }
  }

  lemma {:induction false} AroundFrame(m: Memory, m': Memory, x: Context, hole: Node?, root: Node?)
    requires Around(m, x, hole, root) && SameOn(m, m', Ring(x))
    ensures Around(m', x, hole, root)
  {
    if !x.Top? {
      AtFrame(m, m', x.other, x.node);
      AroundFrame(m, m', x.up, x.node, root);
    }
  }

  function Painted(m: Memory, n: Node, c: Color): Memory {
    if n in m then m[n := m[n].(colo := c)] else m
  }

  function WithParent(m: Memory, n: Node?, p: Node?): Memory {
    if n != null && n in m then m[n := m[n].(parent := p)] else m
  }

  function WithLeft(m: Memory, n: Node?, c: Node?): Memory {
    if n != null && n in m then m[n := m[n].(left := c)] else m
  }

  function WithRight(m: Memory, n: Node?, c: Node?): Memory {
    if n != null && n in m then m[n := m[n].(right := c)] else m
  }

  lemma PaintHolds(m: Memory, root: Node?, x: Context, t: Tree, c: Color)
    requires Holds(m, root, x, t) && t.Fork?
    ensures Holds(Painted(m, t.node, c), root, x, Colored(t, c))
  {
    var m' := Painted(m, t.node, c);
    AtFrame(m, m', t.left, t.node);
    AtFrame(m, m', t.right, t.node);
    AroundFrame(m, m', x, t.node, root);
  }

  lemma PaintParent(m: Memory, root: Node?, x: Context, t: Tree, c: Color)
    requires Holds(m, root, x, t) && !x.Top?
    ensures Holds(Painted(m, x.node, c), root, x.(colo := c), t)
  {
    hide Holds, Painted;
    HoldsLift(m, root, x, t);
    PaintHolds(m, root, x.up, Lifted(x, t), c);
    HoldsLift(Painted(m, x.node, c), root, x.(colo := c), t);
  }

  lemma PaintOther(m: Memory, root: Node?, x: Context, t: Tree, c: Color)
    requires Holds(m, root, x, t) && !x.Top? && x.other.Fork?
    ensures Holds(Painted(m, x.other.node, c), root, x.(other := Colored(x.other, c)), t)
  {
    hide Holds, Painted;
    HoldsLift(m, root, x, t);
    HoldsLower(m, root, x.up, Lifted(x, t));
    var o := if x.LeftOf? then IntoRight(x.up, Lifted(x, t)) else IntoLeft(x.up, Lifted(x, t));
    PaintHolds(m, root, o, x.other, c);
    var m', x' := Painted(m, x.other.node, c), x.(other := Colored(x.other, c));
    HoldsLift(m', root, o, Colored(x.other, c));
    HoldsLift(m', root, x', t);
  }

  lemma PaintGrandparent(m: Memory, root: Node?, x: Context, t: Tree, c: Color)
    requires Holds(m, root, x, t) && !x.Top? && !x.up.Top?
    ensures Holds(Painted(m, x.up.node, c), root, x.(up := x.up.(colo := c)), t)
  {
    hide Holds, Painted;
    HoldsLift(m, root, x, t);
    PaintParent(m, root, x.up, Lifted(x, t), c);
    HoldsLift(Painted(m, x.up.node, c), root, x.(up := x.up.(colo := c)), t);
  }

  /** A new parent link for what hangs below a pointer. */
  lemma ParentAt(m: Memory, t: Tree, up: Node?, p: Node?)
    requires At(m, t, up) && Apart(t)
    ensures At(WithParent(m, RootOf(t), p), t, p)
  {
    if t.Fork? {
      var m' := WithParent(m, RootOf(t), p);
      AtFrame(m, m', t.left, t.node);
      AtFrame(m, m', t.right, t.node);
    }
  }

  /** A leaf in the hole becomes the new node n. */
  function Attached(m: Memory, x: Context, n: Node): Memory {
    if x.Top? then m else if x.LeftOf? then WithLeft(m, x.node, n) else WithRight(m, x.node, n)
  }

  /** The pointer into the hole now leads to y. */
  lemma AroundAttach(m: Memory, x: Context, hole: Node?, root: Node?, y: Node)
    requires Around(m, x, hole, root) && ApartAround(x)
    ensures Around(Attached(m, x, y), x, y, if x.Top? then y else root)
  {
    if !x.Top? {
      var m' := Attached(m, x, y);
      AtFrame(m, m', x.other, x.node);
      AroundFrame(m, m', x.up, x.node, root);
    }
  }

  // ---------- rotations ----------

  /** The memory after y has taken the place of n below the parent of n, if it has one. */
  function ChildReplaced(m: Memory, n: Node, y: Node): Memory
    requires n in m
  {
    var p := m[n].parent;
    if p == null || p !in m then m
    else if m[p].left == n then WithLeft(m, p, y)
    else WithRight(m, p, y)
  }

  function LeftRotated(m: Memory, n: Node): Memory
    requires n in m && m[n].right != null && m[n].right in m
  {
    var y := m[n].right;
    var b := m[y].left;
    var m1 := WithParent(WithRight(m, n, b), b, n);
    var m2 := WithParent(m1, y, m1[n].parent);
    WithParent(WithLeft(ChildReplaced(m2, n, y), y, n), n, y)
  }

  function RightRotated(m: Memory, n: Node): Memory
    requires n in m && m[n].left != null && m[n].left in m
  {
    var y := m[n].left;
    var b := m[y].right;
    var m1 := WithParent(WithLeft(m, n, b), b, n);
    var m2 := WithParent(m1, y, m1[n].parent);
    WithParent(WithRight(ChildReplaced(m2, n, y), y, n), n, y)
  }

  function NewRoot(m: Memory, root: Node?, n: Node, y: Node): Node?
    requires n in m
  {
    if m[n].parent == null then y else root
  }

  /** The node in the hole is replaced on the right side. */
  lemma ReplacedIsAttached(m: Memory, root: Node?, x: Context, n: Node, y: Node)
    requires Around(m, x, n, root) && n !in Ring(x) && n in m && m[n].parent == UpOf(x)
    ensures ChildReplaced(m, n, y) == Attached(m, x, y)
  {}

  /** The tree t has neither n nor y nor anything of x. */
  ghost predicate Clear(t: Tree, n: Node, y: Node, x: Context) {
    && Apart(t) && n !in Nodes(t) && y !in Nodes(t) && Nodes(t) !! Ring(x)
    && (RootOf(t) == null || RootOf(t) in Nodes(t))
  }

  /** Nodes n and y, the trees a, b, c and the context x share nothing. */
  ghost predicate Separate(n: Node, y: Node, a: Tree, b: Tree, c: Tree, x: Context) {
    && n != y
    && Clear(a, n, y, x) && Clear(b, n, y, x) && Clear(c, n, y, x)
    && Nodes(a) !! Nodes(b) && Nodes(a) !! Nodes(c) && Nodes(b) !! Nodes(c)
    && n !in Ring(x) && y !in Ring(x) && ApartAround(x)
    && (UpOf(x) == null || UpOf(x) in Ring(x))
  }

  lemma LeftParts(m: Memory, root: Node?, x: Context, t: Tree)
    requires Holds(m, root, x, t) && t.Fork? && t.right.Fork?
    ensures Separate(t.node, t.right.node, t.left, t.right.left, t.right.right, x)
    ensures Has(m, t.node, Cell(t.value, t.colo, UpOf(x), RootOf(t.left), t.right.node))
    ensures Has(m, t.right.node, Cell(t.right.value, t.right.colo, t.node, RootOf(t.right.left), RootOf(t.right.right)))
    ensures At(m, t.left, t.node) && At(m, t.right.left, t.right.node) && At(m, t.right.right, t.right.node)
    ensures Around(m, x, t.node, root)
    ensures Apart(RotatedLeft(t)) && Nodes(RotatedLeft(t)) !! Ring(x)
  {
    assert At(m, t.right, t.node) && Apart(t.right);
  }

  lemma RightParts(m: Memory, root: Node?, x: Context, t: Tree)
    requires Holds(m, root, x, t) && t.Fork? && t.left.Fork?
    ensures Separate(t.node, t.left.node, t.right, t.left.right, t.left.left, x)
    ensures Has(m, t.node, Cell(t.value, t.colo, UpOf(x), t.left.node, RootOf(t.right)))
    ensures Has(m, t.left.node, Cell(t.left.value, t.left.colo, t.node, RootOf(t.left.left), RootOf(t.left.right)))
    ensures At(m, t.right, t.node) && At(m, t.left.right, t.left.node) && At(m, t.left.left, t.left.node)
    ensures Around(m, x, t.node, root)
    ensures Apart(RotatedRight(t)) && Nodes(RotatedRight(t)) !! Ring(x)
  {
    assert At(m, t.left, t.node) && Apart(t.left);
  }

  lemma LeftRotationHolds(m: Memory, root: Node?, x: Context, t: Tree)
    requires Holds(m, root, x, t) && t.Fork? && t.right.Fork?
    ensures Has(m, t.node, Cell(t.value, t.colo, UpOf(x), RootOf(t.left), t.right.node)) && t.right.node in m
    ensures Holds(LeftRotated(m, t.node), NewRoot(m, root, t.node, t.right.node), x, RotatedLeft(t))
  {
    hide Nodes, Ring, Apart, ApartAround, At, Around, ChildReplaced, Attached;
    LeftParts(m, root, x, t);
    var n, y, a, b, c := t.node, t.right.node, t.left, t.right.left, t.right.right;
    var m1 := WithParent(WithRight(m, n, RootOf(b)), RootOf(b), n);
    var m2 := WithParent(m1, y, UpOf(x));
    AroundFrame(m, m2, x, n, root);
    ReplacedIsAttached(m2, root, x, n, y);
    AroundAttach(m2, x, n, root, y);
    var m3 := Attached(m2, x, y);
    AttachKeeps(m2, x, y);
    var m' := WithParent(WithLeft(m3, y, n), n, y);
    AroundFrame(m3, m', x, y, if x.Top? then y else root);
    AtFrame(m, m', a, n);
    ParentAt(m, b, y, n);
    AtFrame(WithParent(m, RootOf(b), n), m', b, n);
    AtFrame(m, m', c, y);
    assert LeftRotated(m, n) == m';
    AtFork(m', n, y, t.value, t.colo, a, b);
    AtFork(m', y, UpOf(x), t.right.value, t.right.colo, RotatedLeft(t).left, c);
  }

  lemma RightRotationHolds(m: Memory, root: Node?, x: Context, t: Tree)
    requires Holds(m, root, x, t) && t.Fork? && t.left.Fork?
    ensures Has(m, t.node, Cell(t.value, t.colo, UpOf(x), t.left.node, RootOf(t.right))) && t.left.node in m
    ensures Holds(RightRotated(m, t.node), NewRoot(m, root, t.node, t.left.node), x, RotatedRight(t))
  {
    hide Nodes, Ring, Apart, ApartAround, At, Around, ChildReplaced, Attached;
    RightParts(m, root, x, t);
    var n, y, a, b, c := t.node, t.left.node, t.right, t.left.right, t.left.left;
    var m1 := WithParent(WithLeft(m, n, RootOf(b)), RootOf(b), n);
    var m2 := WithParent(m1, y, UpOf(x));
    AroundFrame(m, m2, x, n, root);
    ReplacedIsAttached(m2, root, x, n, y);
    AroundAttach(m2, x, n, root, y);
    var m3 := Attached(m2, x, y);
    AttachKeeps(m2, x, y);
    var m' := WithParent(WithRight(m3, y, n), n, y);
    AroundFrame(m3, m', x, y, if x.Top? then y else root);
    AtFrame(m, m', a, n);
    ParentAt(m, b, y, n);
    AtFrame(WithParent(m, RootOf(b), n), m', b, n);
    AtFrame(m, m', c, y);
    assert RightRotated(m, n) == m';
    AtFork(m', n, y, t.value, t.colo, b, a);
    AtFork(m', y, UpOf(x), t.left.value, t.left.colo, c, RotatedRight(t).right);
  }

  lemma AtFork(m: Memory, n: Node, up: Node?, v: Pair, c: Color, l: Tree, r: Tree)
    requires Has(m, n, Cell(v, c, up, RootOf(l), RootOf(r))) && At(m, l, n) && At(m, r, n)
    ensures At(m, Fork(n, v, c, l, r), up)
  {}

  lemma AttachKeeps(m: Memory, x: Context, y: Node)
    ensures forall n: Node :: n in m && n !in Ring(x) ==> n in Attached(m, x, y) && Attached(m, x, y)[n] == m[n]
  {}

  // ---------- the steps of insert_fixup ----------

  /** What the loop reads through n: its parent, grandparent and uncle. */
  lemma Family(m: Memory, root: Node?, x: Context, t: Tree)
    requires Holds(m, root, x, t) && Clash(x, t)
    ensures !x.up.Top? && t.node in m && m[t.node].parent == x.node && x.node in m && m[x.node].colo == Red
    ensures m[x.node].parent == x.up.node && x.up.node in m
    ensures x.LeftOf? <==> m[x.node].left == t.node
    ensures x.RightOf? <==> m[x.node].right == t.node
    ensures x.up.LeftOf? <==> m[x.up.node].left == x.node
    ensures RootOf(x.up.other) == if x.up.LeftOf? then m[x.up.node].right else m[x.up.node].left
    ensures x.up.other.Fork? ==> x.up.other.node in m && m[x.up.other.node].colo == x.up.other.colo
    ensures t.node != x.node && t.node != x.up.node && x.node != x.up.node
    ensures x.up.other.Fork? ==> x.up.other.node != t.node && x.up.other.node != x.node && x.up.other.node != x.up.node
  {
    assert Around(m, x.up, x.node, root) && ApartAround(x.up);
    assert t.node in Nodes(t) && x.up.node in Ring(x.up);
    if x.up.other.Fork? { assert x.up.other.node in Nodes(x.up.other) && x.up.other.node in Ring(x.up); }
  }

  lemma RecolorHolds(m: Memory, root: Node?, x: Context, t: Tree)
    requires Holds(m, root, x, t) && Clash(x, t) && RedRoot(x.up.other)
    ensures Holds(Painted(Painted(Painted(m, x.node, Black), x.up.other.node, Black), x.up.node, Red), root, x.up.up,
            Recolored(x, t))
  {
    hide Holds, Painted;
    ClashHasGrandparent(x, t);
    PaintParent(m, root, x, t, Black);
    var m1, x1 := Painted(m, x.node, Black), x.(colo := Black);
    HoldsLift(m1, root, x1, t);
    var t1 := Lifted(x1, t);
    PaintOther(m1, root, x.up, t1, Black);
    var m2, x2 := Painted(m1, x.up.other.node, Black), x.up.(other := Colored(x.up.other, Black));
    PaintParent(m2, root, x2, t1, Red);
    HoldsLift(Painted(m2, x.up.node, Red), root, x2.(colo := Red), t1);
  }

  lemma RecoloredNodes(x: Context, t: Tree)
    requires !x.Top? && !x.up.Top? && x.up.other.Fork?
    ensures Ring(x.up.up) + Nodes(Recolored(x, t)) == Ring(x) + Nodes(t)
  {}

  /** Every pointer of a node leads to a node of the tree or nowhere. */
  predicate LinkIn(m: Memory, n: Node?) {
    n == null || n in m
  }

  lemma RotateLeftReady(m: Memory, root: Node?, x: Context, t: Tree)
    requires Holds(m, root, x, t) && t.Fork? && t.right.Fork?
    ensures t.node in m && LinkIn(m, m[t.node].parent) && m[t.node].right == t.right.node && t.right.node in m
    ensures t.right.node != t.node && LinkIn(m, m[t.right.node].left) && m[t.right.node].left != t.node
  {
    LeftParts(m, root, x, t);
    RootsIn(m, root, x, t.node);
  }

  lemma RotateRightReady(m: Memory, root: Node?, x: Context, t: Tree)
    requires Holds(m, root, x, t) && t.Fork? && t.left.Fork?
    ensures t.node in m && LinkIn(m, m[t.node].parent) && m[t.node].left == t.left.node && t.left.node in m
    ensures t.left.node != t.node && LinkIn(m, m[t.left.node].right) && m[t.left.node].right != t.node
  {
    RightParts(m, root, x, t);
    RootsIn(m, root, x, t.node);
  }

  lemma RootsIn(m: Memory, root: Node?, x: Context, n: Node)
    requires Around(m, x, n, root)
    ensures LinkIn(m, UpOf(x))
  {}

  /** Going up to the parent of an inner grandchild and rotating there, to the left or, mirrored, to the right. */
  lemma TurnHolds(m: Memory, root: Node?, x: Context, t: Tree)
    requires Holds(m, root, x, t) && Clash(x, t)
    ensures x.RightOf? ==> x.node in m && m[x.node].right != null && m[x.node].right in m &&
                           Holds(LeftRotated(m, x.node), root, TurnedContext(x, t), TurnedTree(x, t))
    ensures x.LeftOf? ==> x.node in m && m[x.node].left != null && m[x.node].left in m &&
                          Holds(RightRotated(m, x.node), root, TurnedContext(x, t), TurnedTree(x, t))
    ensures Ring(TurnedContext(x, t)) + Nodes(TurnedTree(x, t)) == Ring(x) + Nodes(t)
  {
    ClashHasGrandparent(x, t);
    TurnedNodes(x, t);
    hide Holds, LeftRotated, RightRotated, Nodes, Ring;
    HoldsLift(m, root, x, t);
    if x.RightOf? {
      RotateLeftReady(m, root, x.up, Lifted(x, t));
      LeftRotationHolds(m, root, x.up, Lifted(x, t));
      HoldsLift(LeftRotated(m, x.node), root, TurnedContext(x, t), TurnedTree(x, t));
    } else {
      RotateRightReady(m, root, x.up, Lifted(x, t));
      RightRotationHolds(m, root, x.up, Lifted(x, t));
      HoldsLift(RightRotated(m, x.node), root, TurnedContext(x, t), TurnedTree(x, t));
    }
  }

  lemma TurnedNodes(x: Context, t: Tree)
    requires !x.Top? && t.Fork?
    ensures Ring(TurnedContext(x, t)) + Nodes(TurnedTree(x, t)) == Ring(x) + Nodes(t)
  {}

  /** The parent black, the grandparent red. */
  function Repainted(x: Context): Context
    requires !x.Top? && !x.up.Top?
  {
    x.(colo := Black, up := x.up.(colo := Red))
  }

  lemma RepaintHolds(m: Memory, root: Node?, x: Context, t: Tree)
    requires Holds(m, root, x, t) && !x.Top? && !x.up.Top?
    ensures Holds(Painted(Painted(m, x.node, Black), x.up.node, Red), root, Repainted(x), t)
    ensures Ring(Repainted(x)) == Ring(x)
  {
    hide Holds, Painted;
    PaintParent(m, root, x, t, Black);
    PaintGrandparent(Painted(m, x.node, Black), root, x.(colo := Black), t, Red);
  }

  function Grand(x: Context, t: Tree): Tree
    requires !x.Top? && !x.up.Top?
  {
    Lifted(x.up, Lifted(x, t))
  }

  /** Rotating the grandparent straightens the line of a repainted outer grandchild. */
  lemma StraightenHolds(m: Memory, root: Node?, x: Context, t: Tree)
    requires !x.Top? && !x.up.Top? && x.LeftOf? == x.up.LeftOf? && Holds(m, root, Repainted(x), t)
    ensures x.LeftOf? ==> x.up.node in m && m[x.up.node].left == x.node && x.node in m
    ensures x.LeftOf? ==> Holds(RightRotated(m, x.up.node), NewRoot(m, root, x.up.node, x.node), Straightened(x), t)
    ensures x.RightOf? ==> x.up.node in m && m[x.up.node].right == x.node && x.node in m
    ensures x.RightOf? ==> Holds(LeftRotated(m, x.up.node), NewRoot(m, root, x.up.node, x.node), Straightened(x), t)
    ensures Ring(Straightened(x)) == Ring(x)
  {
    StraightenedRing(x);
    hide Holds, LeftRotated, RightRotated, NewRoot, Nodes, Ring;
    var g := Grand(Repainted(x), t);
    HoldsLift(m, root, Repainted(x), t);
    HoldsLift(m, root, Repainted(x).up, Lifted(Repainted(x), t));
    var root' := NewRoot(m, root, x.up.node, x.node);
    if x.LeftOf? {
      RotateRightReady(m, root, x.up.up, g);
      RightRotationHolds(m, root, x.up.up, g);
      HoldsLift(RightRotated(m, x.up.node), root', Straightened(x), t);
    } else {
      RotateLeftReady(m, root, x.up.up, g);
      LeftRotationHolds(m, root, x.up.up, g);
      HoldsLift(LeftRotated(m, x.up.node), root', Straightened(x), t);
    }
  }

  lemma StraightenedRing(x: Context)
    requires !x.Top? && !x.up.Top?
    ensures Ring(Straightened(x)) == Ring(x)
  {}

  // ---------- adding a node ----------

  lemma LeafAttached(m: Memory, root: Node?, x: Context, n: Node, v: Pair)
    requires Holds(m, root, x, Leaf) && n !in m && n !in Ring(x)
    ensures Holds(Attached(m[n := Cell(v, Red, UpOf(x), null, null)], x, n), if x.Top? then n else root, x,
                  Fork(n, v, Red, Leaf, Leaf))
  {
    var m1 := m[n := Cell(v, Red, UpOf(x), null, null)];
    AroundFrame(m, m1, x, null, root);
    AroundAttach(m1, x, null, root, n);
    AttachKeeps(m1, x, n);
  }

  function Revalued(m: Memory, n: Node, v: Pair): Memory {
    if n in m then m[n := m[n].(value := v)] else m
  }

  lemma RevalueHolds(m: Memory, root: Node?, x: Context, t: Tree, v: Pair)
    requires Holds(m, root, x, t) && t.Fork?
    ensures Holds(Revalued(m, t.node, v), root, x, t.(value := v))
  {
    var m' := Revalued(m, t.node, v);
    AtFrame(m, m', t.left, t.node);
    AtFrame(m, m', t.right, t.node);
    AroundFrame(m, m', x, t.node, root);
  }

  lemma {:induction false} AroundIn(m: Memory, x: Context, hole: Node?, root: Node?)
    requires Around(m, x, hole, root)
    ensures Ring(x) <= m.Keys
  {
    if !x.Top? {
      AtIn(m, x.other, x.node);
      AroundIn(m, x.up, x.node, root);
    }
  }

  lemma {:induction false} AtIn(m: Memory, t: Tree, up: Node?)
    requires At(m, t, up)
    ensures Nodes(t) <= m.Keys
  {
    if t.Fork? {
      AtIn(m, t.left, t.node);
      AtIn(m, t.right, t.node);
    }
  }

  /** The node above the hole, as the memory has it. */
  lemma RingIn(m: Memory, root: Node?, x: Context)
    requires Holds(m, root, x, Leaf)
    ensures Ring(x) <= m.Keys
    ensures !x.Top? ==> x.node in m && m[x.node].value == x.value
  {
    AroundIn(m, x, null, root);
  }
}
