/** Red-black trees as values: order, colours, black heights, and trees with one place taken out. */
module RedBlack {

  datatype Color = Red | Black

  /** `pair` of `map`: compared by key alone. */
  datatype Pair = Pair(key: int, value: int)

  class Node {
    var value: Pair
    var colo: Color
    var parent: Node?
    var left: Node?
    var right: Node?

    constructor (value: Pair)
      ensures this.value == value && colo == Red && parent == null && left == null && right == null
    {
      this.value, colo, parent, left, right := value, Red, null, null, null;
    }
  }

  /** What hangs below a pointer: the node it leads to, with its fields, and its subtrees. */
  datatype Tree = Leaf | Fork(node: Node, value: Pair, colo: Color, left: Tree, right: Tree)

  /** A tree with a hole: the nodes on the way up from the hole, each with the subtree on the other side. */
  datatype Context =
    | Top
    | LeftOf(node: Node, value: Pair, colo: Color, other: Tree, up: Context)
    | RightOf(node: Node, value: Pair, colo: Color, other: Tree, up: Context)

  function Plug(x: Context, t: Tree): Tree {
    match x
    case Top => t
    case LeftOf(n, v, c, o, up) => Plug(up, Fork(n, v, c, t, o))
    case RightOf(n, v, c, o, up) => Plug(up, Fork(n, v, c, o, t))
  }

  function Depth(x: Context): nat {
    if x.Top? then 0 else 1 + Depth(x.up)
  }

  // ---------- contents ----------

  function Contents(t: Tree): seq<Pair> {
    if t.Leaf? then [] else Contents(t.left) + [t.value] + Contents(t.right)
  }

  /** What comes before the hole, and after it. */
  function Before(x: Context): seq<Pair> {
    match x
    case Top => []
    case LeftOf(_, v, _, o, up) => Before(up)
    case RightOf(_, v, _, o, up) => Before(up) + Contents(o) + [v]
  }

  function After(x: Context): seq<Pair> {
    match x
    case Top => []
    case LeftOf(_, v, _, o, up) => [v] + Contents(o) + After(up)
    case RightOf(_, v, _, o, up) => After(up)
  }

  lemma {:induction false} PlugContents(x: Context, t: Tree)
    ensures Contents(Plug(x, t)) == Before(x) + Contents(t) + After(x)
  {
    match x
    case Top =>
    case LeftOf(n, v, c, o, up) => PlugContents(up, Fork(n, v, c, t, o));
    case RightOf(n, v, c, o, up) => PlugContents(up, Fork(n, v, c, o, t));
  }

  ghost predicate Sorted(s: seq<Pair>) {
    forall i, j :: 0 <= i < j < |s| ==> s[i].key <= s[j].key
  }

  ghost predicate AtMost(s: seq<Pair>, key: int) {
    forall i :: 0 <= i < |s| ==> s[i].key <= key
  }

  ghost predicate Above(s: seq<Pair>, key: int) {
    forall i :: 0 <= i < |s| ==> key < s[i].key
  }

  /** s' is s with one element more, v, behind every element that is not greater. */
  ghost predicate Inserted(s: seq<Pair>, v: Pair, s': seq<Pair>) {
    exists k: nat :: SplitAt(s, v.key, k) && s' == Spliced(s, v, k)
  }

  function Spliced(s: seq<Pair>, v: Pair, k: nat): seq<Pair> {
    if k <= |s| then s[..k] + [v] + s[k..] else s
  }

  ghost predicate SplitAt(s: seq<Pair>, key: int, k: nat) {
    && k <= |s|
    && (forall i :: 0 <= i < k ==> s[i].key <= key)
    && (forall i :: k <= i < |s| ==> key < s[i].key)
  }

  lemma SplicedAt(s: seq<Pair>, v: Pair, k: nat)
    requires k <= |s|
    ensures |Spliced(s, v, k)| == |s| + 1 && Spliced(s, v, k)[k] == v
    ensures forall i :: 0 <= i <= |s| && i != k ==> Spliced(s, v, k)[i] == s[if i < k then i else i - 1]
  {}

  /** Where the element at i of s is after the insertion. */
  lemma SplicedKeeps(s: seq<Pair>, v: Pair, k: nat, i: nat)
    requires i < |s| && k <= |s|
    ensures |Spliced(s, v, k)| == |s| + 1 && Spliced(s, v, k)[if i < k then i else i + 1] == s[i]
  {}

  lemma InsertedSorted(s: seq<Pair>, v: Pair, s': seq<Pair>)
    requires Sorted(s) && Inserted(s, v, s')
    ensures Sorted(s') && multiset(s') == multiset(s) + multiset{v} && |s'| == |s| + 1
  {
    hide Spliced;
    var k: nat :| SplitAt(s, v.key, k) && s' == Spliced(s, v, k);
    SplicedAt(s, v, k);
    SplicedElements(s, v, k);
  }

  lemma SplicedElements(s: seq<Pair>, v: Pair, k: nat)
    requires k <= |s|
    ensures multiset(Spliced(s, v, k)) == multiset(s) + multiset{v}
  {
    assert s == s[..k] + s[k..];
  }

  lemma InsertedByParts(a: seq<Pair>, b: seq<Pair>, v: Pair)
    requires AtMost(a, v.key) && Above(b, v.key)
    ensures Inserted(a + b, v, a + [v] + b)
  {
    assert (a + b)[..|a|] == a && (a + b)[|a|..] == b;
    assert SplitAt(a + b, v.key, |a|);
  }

  ghost predicate HasKey(s: seq<Pair>, key: int) {
    exists i :: 0 <= i < |s| && s[i].key == key
  }

  ghost predicate Distinct(s: seq<Pair>) {
    forall i, j :: 0 <= i < j < |s| ==> s[i].key < s[j].key
  }

  /** `map::insert` keeps the keys distinct exactly when the key is new. */
  lemma InsertedDistinctIff(s: seq<Pair>, v: Pair, s': seq<Pair>)
    requires Distinct(s) && Inserted(s, v, s')
    ensures Distinct(s') <==> !HasKey(s, v.key)
  {
    hide Spliced;
    var k: nat :| SplitAt(s, v.key, k) && s' == Spliced(s, v, k);
    SplicedAt(s, v, k);
    if HasKey(s, v.key) {
      var i: nat :| i < |s| && s[i].key == v.key;
      SplicedKeeps(s, v, k, i);
      assert !(s'[i].key < s'[k].key);
    }
  }

  lemma InsertedKeys(s: seq<Pair>, v: Pair, s': seq<Pair>, key: int)
    requires Inserted(s, v, s')
    ensures HasKey(s', key) <==> HasKey(s, key) || key == v.key
  {
    hide Spliced;
    var k: nat :| SplitAt(s, v.key, k) && s' == Spliced(s, v, k);
    SplicedAt(s, v, k);
    if HasKey(s, key) {
      var i: nat :| i < |s| && s[i].key == key;
      SplicedKeeps(s, v, k, i);
    }
  }

  // ---------- colours and black heights ----------

  predicate RedRoot(t: Tree) {
    t.Fork? && t.colo.Red?
  }

  /** No red node has a red child. */
  predicate NoRedRed(t: Tree) {
    t.Fork? ==>
      && (t.colo.Red? ==> !RedRoot(t.left) && !RedRoot(t.right))
      && NoRedRed(t.left) && NoRedRed(t.right)
  }

  function One(c: Color): nat {
    if c.Black? then 1 else 0
  }

  /** Black nodes on the way down the left edge. */
  function BlackHeight(t: Tree): nat {
    if t.Leaf? then 0 else One(t.colo) + BlackHeight(t.left)
  }

  /** All ways down pass the same number of black nodes. */
  predicate Balanced(t: Tree) {
    t.Fork? ==> Balanced(t.left) && Balanced(t.right) && BlackHeight(t.left) == BlackHeight(t.right)
  }

  predicate RedBlackTree(t: Tree) {
    !RedRoot(t) && NoRedRed(t) && Balanced(t)
  }

  /** The context fits a tree of black height h. */
  predicate BalancedAround(x: Context, h: nat) {
    x.Top? || (Balanced(x.other) && BlackHeight(x.other) == h && BalancedAround(x.up, h + One(x.colo)))
  }

  /** Nowhere outside the hole does a red node have a red child, and the root is black. */
  predicate NoRedRedAround(x: Context) {
    x.Top? ||
    (&& NoRedRed(x.other)
     && (x.colo.Red? ==> !RedRoot(x.other) && !x.up.Top? && x.up.colo.Black?)
     && NoRedRedAround(x.up))
  }

  /** The tree in the hole may have a red root under a red node; everything else is in order. */
  predicate AlmostRedBlack(x: Context, t: Tree) {
    NoRedRedAround(x) && BalancedAround(x, BlackHeight(t)) && NoRedRed(t) && Balanced(t)
  }

  function Blackened(t: Tree): Tree {
    if t.Leaf? then Leaf else Fork(t.node, t.value, Black, t.left, t.right)
  }

  lemma BlackenedIsFine(t: Tree)
    requires AlmostRedBlack(Top, t)
    ensures RedBlackTree(Blackened(t)) && Contents(Blackened(t)) == Contents(t)
  {}

  /** When the node above the hole is black, the whole is a red-black tree. */
  lemma {:induction false} BlackParentIsFine(x: Context, t: Tree)
    requires AlmostRedBlack(x, t) && !x.Top? && (RedRoot(t) ==> x.colo.Black?)
    ensures RedBlackTree(Plug(x, t))
  {
    var s := if x.LeftOf? then Fork(x.node, x.value, x.colo, t, x.other) else Fork(x.node, x.value, x.colo, x.other, t);
    assert BlackHeight(s) == BlackHeight(t) + One(x.colo);
    if !x.up.Top? { BlackParentIsFine(x.up, s); }
  }

  lemma {:induction false} Opens(t: Tree, x: Context)
    requires RedBlackTree(Plug(x, t))
    ensures AlmostRedBlack(x, t) && (!x.Top? && RedRoot(t) ==> x.colo.Black?)
    decreases x
  {
    if !x.Top? {
      var s := if x.LeftOf? then Fork(x.node, x.value, x.colo, t, x.other)
        else Fork(x.node, x.value, x.colo, x.other, t);
      Opens(s, x.up);
      assert BlackHeight(s) == BlackHeight(t) + One(x.colo);
    }
  }

  // ---------- height ----------

  function Size(t: Tree): nat {
    if t.Leaf? then 0 else Size(t.left) + 1 + Size(t.right)
  }

  function Height(t: Tree): nat {
    if t.Leaf? then 0 else 1 + if Height(t.left) > Height(t.right) then Height(t.left) else Height(t.right)
  }

  function Pow2(k: nat): (r: nat)
    ensures r > 0
  {
    if k == 0 then 1 else 2 * Pow2(k - 1)
  }

  lemma {:induction false} SizeAtLeast(t: Tree)
    requires Balanced(t)
    ensures Size(t) + 1 >= Pow2(BlackHeight(t))
  {
    if t.Fork? {
      SizeAtLeast(t.left);
      SizeAtLeast(t.right);
    }
  }

  lemma {:induction false} HeightAtMost(t: Tree)
    requires Balanced(t) && NoRedRed(t)
    ensures Height(t) <= 2 * BlackHeight(t) + (if RedRoot(t) then 1 else 0)
  {
    if t.Fork? {
      HeightAtMost(t.left);
      HeightAtMost(t.right);
    }
  }

  lemma {:induction false} Pow2Sum(a: nat, b: nat)
    ensures Pow2(a + b) == Pow2(a) * Pow2(b)
  {
    if a > 0 { Pow2Sum(a - 1, b); }
  }

  lemma {:induction false} Pow2Grows(a: nat, b: nat)
    requires a <= b
    ensures Pow2(a) <= Pow2(b)
  {
    if a < b { Pow2Grows(a, b - 1); }
  }

  /** The height of a red-black tree of n elements is at most 2 * log2(n + 1). */
  lemma HeightIsLogarithmic(t: Tree)
    requires RedBlackTree(t)
    ensures Pow2(Height(t)) <= (Size(t) + 1) * (Size(t) + 1)
    ensures Size(t) == |Contents(t)|
  {
    var h := BlackHeight(t);
    SizeAtLeast(t);
    HeightAtMost(t);
    Pow2Grows(Height(t), h + h);
    Pow2Sum(h, h);
    Squares(Pow2(h), Size(t) + 1);
    SizeIsCount(t);
  }

  lemma Squares(a: nat, b: nat)
    requires a <= b
    ensures a * a <= b * b
  {}

  lemma {:induction false} SizeIsCount(t: Tree)
    ensures Size(t) == |Contents(t)|
  {
    if t.Fork? {
      SizeIsCount(t.left);
      SizeIsCount(t.right);
    }
  }

  // ---------- the steps of insert_fixup ----------

  function RotatedLeft(t: Tree): Tree
    requires t.Fork? && t.right.Fork?
  {
    var y := t.right;
    Fork(y.node, y.value, y.colo, Fork(t.node, t.value, t.colo, t.left, y.left), y.right)
  }

  function RotatedRight(t: Tree): Tree
    requires t.Fork? && t.left.Fork?
  {
    var y := t.left;
    Fork(y.node, y.value, y.colo, y.left, Fork(t.node, t.value, t.colo, y.right, t.right))
  }

  function Colored(t: Tree, c: Color): Tree
    requires t.Fork?
  {
    t.(colo := c)
  }

  /** What is in the hole, one level further up. */
  function Lifted(x: Context, t: Tree): Tree
    requires !x.Top?
  {
    if x.LeftOf? then Fork(x.node, x.value, x.colo, t, x.other) else Fork(x.node, x.value, x.colo, x.other, t)
  }

  /** A red tree under a red node: the state in which the loop goes on. */
  predicate Clash(x: Context, t: Tree) {
    AlmostRedBlack(x, t) && RedRoot(t) && !x.Top? && x.colo.Red?
  }

  lemma ClashHasGrandparent(x: Context, t: Tree)
    requires Clash(x, t)
    ensures !x.up.Top? && x.up.colo.Black? && !RedRoot(x.other)
    ensures var h := BlackHeight(t);
            && Balanced(x.other) && NoRedRed(x.other) && BlackHeight(x.other) == h
            && Balanced(x.up.other) && NoRedRed(x.up.other) && BlackHeight(x.up.other) == h
            && BalancedAround(x.up.up, h + 1) && NoRedRedAround(x.up.up)
  {
    assert BalancedAround(x.up, BlackHeight(t)) && NoRedRedAround(x.up);
  }

  /** Red uncle: the tree one takes two levels up. */
  function Recolored(x: Context, t: Tree): Tree
    requires !x.Top? && !x.up.Top? && x.up.other.Fork?
  {
    Lifted(x.up.(colo := Red, other := Colored(x.up.other, Black)), Lifted(x.(colo := Black), t))
  }

  lemma RecoloredKeeps(x: Context, t: Tree)
    requires Clash(x, t) && RedRoot(x.up.other)
    ensures AlmostRedBlack(x.up.up, Recolored(x, t)) && RedRoot(Recolored(x, t))
    ensures Contents(Plug(x.up.up, Recolored(x, t))) == Contents(Plug(x, t))
  {
    ClashHasGrandparent(x, t);
    RecoloredContents(x, t);
  }

  lemma RecoloredContents(x: Context, t: Tree)
    requires !x.Top? && !x.up.Top? && x.up.other.Fork?
    ensures Contents(Plug(x.up.up, Recolored(x, t))) == Contents(Plug(x, t))
  {
    PlugContents(x.up.up, Recolored(x, t));
    PlugContents(x.up.up, Lifted(x.up, Lifted(x, t)));
  }

  /** Inner grandchild: after the first rotation the old parent is in the hole, below the old n. */
  function TurnedContext(x: Context, t: Tree): Context
    requires !x.Top? && t.Fork?
  {
    if x.RightOf? then LeftOf(t.node, t.value, t.colo, t.right, x.up)
      else RightOf(t.node, t.value, t.colo, t.left, x.up)
  }

  function TurnedTree(x: Context, t: Tree): Tree
    requires !x.Top? && t.Fork?
  {
    if x.RightOf? then Fork(x.node, x.value, x.colo, x.other, t.left)
      else Fork(x.node, x.value, x.colo, t.right, x.other)
  }

  lemma TurnedKeeps(x: Context, t: Tree)
    requires Clash(x, t)
    ensures Clash(TurnedContext(x, t), TurnedTree(x, t))
    ensures Contents(Plug(TurnedContext(x, t), TurnedTree(x, t))) == Contents(Plug(x, t))
  {
    hide Contents, Plug;
    TurnedContents(x, t);
  }

  lemma TurnedContents(x: Context, t: Tree)
    requires !x.Top? && t.Fork?
    ensures Contents(Plug(TurnedContext(x, t), TurnedTree(x, t))) == Contents(Plug(x, t))
  {
    TurnedSame(x, t);
    hide Contents, TurnedContext, TurnedTree;
    PlugContents(x.up, Lifted(x, t));
    PlugContents(x.up, Lifted(TurnedContext(x, t), TurnedTree(x, t)));
  }

  lemma TurnedSame(x: Context, t: Tree)
    requires !x.Top? && t.Fork?
    ensures !TurnedContext(x, t).Top? && TurnedContext(x, t).up == x.up
    ensures Contents(Lifted(TurnedContext(x, t), TurnedTree(x, t))) == Contents(Lifted(x, t))
  {
    var l, r, o := Contents(t.left), Contents(t.right), Contents(x.other);
    if x.RightOf? {
      assert (o + [x.value] + l) + [t.value] + r == o + [x.value] + (l + [t.value] + r);
    } else {
      assert l + [t.value] + (r + [x.value] + o) == (l + [t.value] + r) + [x.value] + o;
    }
  }

  /** Outer grandchild, black uncle: after the rotation the black parent has the old grandparent on the other side. */
  function Straightened(x: Context): Context
    requires !x.Top? && !x.up.Top?
  {
    var g := x.up;
    x.(colo := Black, up := g.up,
       other := if x.LeftOf? then Fork(g.node, g.value, Red, x.other, g.other)
         else Fork(g.node, g.value, Red, g.other, x.other))
  }

  lemma StraightenedKeeps(x: Context, t: Tree)
    requires Clash(x, t) && !RedRoot(x.up.other) && x.LeftOf? == x.up.LeftOf?
    ensures AlmostRedBlack(Straightened(x), t)
    ensures Contents(Plug(Straightened(x), t)) == Contents(Plug(x, t))
  {
    ClashHasGrandparent(x, t);
    StraightenedContents(x, t);
  }

  lemma StraightenedContents(x: Context, t: Tree)
    requires !x.Top? && !x.up.Top? && x.LeftOf? == x.up.LeftOf?
    ensures Contents(Plug(Straightened(x), t)) == Contents(Plug(x, t))
  {
    StraightenedSame(x, t);
    hide Contents, Straightened;
    PlugContents(x.up.up, Lifted(Straightened(x), t));
    PlugContents(x.up.up, Lifted(x.up, Lifted(x, t)));
  }

  lemma StraightenedSame(x: Context, t: Tree)
    requires !x.Top? && !x.up.Top? && x.LeftOf? == x.up.LeftOf?
    ensures !Straightened(x).Top? && Straightened(x).up == x.up.up
    ensures Contents(Lifted(Straightened(x), t)) == Contents(Lifted(x.up, Lifted(x, t)))
  {
    var g := x.up;
    if x.LeftOf? {
      assert Contents(Lifted(Straightened(x), t)) ==
        Contents(t) + [x.value] + (Contents(x.other) + [g.value] + Contents(g.other));
      assert Contents(Lifted(g, Lifted(x, t))) ==
        (Contents(t) + [x.value] + Contents(x.other)) + [g.value] + Contents(g.other);
    } else {
      assert Contents(Lifted(Straightened(x), t)) ==
        (Contents(g.other) + [g.value] + Contents(x.other)) + [x.value] + Contents(t);
      assert Contents(Lifted(g, Lifted(x, t))) ==
        Contents(g.other) + [g.value] + (Contents(x.other) + [x.value] + Contents(t));
    }
  }

  lemma {:induction false} PlugFork(x: Context, t: Tree)
    requires t.Fork?
    ensures Plug(x, t).Fork?
  {
    if !x.Top? { PlugFork(x.up, Lifted(x, t)); }
  }

  /** When the loop ends, blackening the root leaves a red-black tree. */
  lemma FinishedIsFine(x: Context, t: Tree)
    requires AlmostRedBlack(x, t) && RedRoot(t) && (x.Top? || x.colo.Black?)
    ensures Plug(x, t).Fork? && RedBlackTree(Colored(Plug(x, t), Black))
    ensures Contents(Colored(Plug(x, t), Black)) == Contents(Plug(x, t))
  {
    PlugFork(x, t);
    if x.Top? { BlackenedIsFine(t); } else { BlackParentIsFine(x, t); }
  }

  // ---------- going down ----------

  function IntoLeft(x: Context, t: Tree): Context
    requires t.Fork?
  {
    LeftOf(t.node, t.value, t.colo, t.right, x)
  }

  function IntoRight(x: Context, t: Tree): Context
    requires t.Fork?
  {
    RightOf(t.node, t.value, t.colo, t.left, x)
  }

  ghost predicate Below(s: seq<Pair>, key: int) {
    forall i :: 0 <= i < |s| ==> s[i].key < key
  }

  lemma SortedParts(a: seq<Pair>, l: seq<Pair>, v: Pair, r: seq<Pair>, b: seq<Pair>)
    requires Sorted(a + (l + [v] + r) + b)
    ensures AtMost(l, v.key) && forall i :: 0 <= i < |r| ==> v.key <= r[i].key
  {
    var s := a + (l + [v] + r) + b;
    assert s[|a| + |l|] == v;
    forall i | 0 <= i < |l| ensures l[i].key <= v.key { assert s[|a| + i] == l[i]; }
    forall i | 0 <= i < |r| ensures v.key <= r[i].key { assert s[|a| + |l| + 1 + i] == r[i]; }
  }

  /** Going left of a greater value leaves only greater values on the right. */
  lemma GoLeft(x: Context, t: Tree, key: int)
    requires Sorted(Contents(Plug(x, t))) && t.Fork? && key < t.value.key && Above(After(x), key)
    ensures Above(After(IntoLeft(x, t)), key) && Before(IntoLeft(x, t)) == Before(x)
    ensures Plug(IntoLeft(x, t), t.left) == Plug(x, t)
  {
    PlugContents(x, t);
    SortedParts(Before(x), Contents(t.left), t.value, Contents(t.right), After(x));
  }

  lemma GoRight(x: Context, t: Tree, key: int)
    requires Sorted(Contents(Plug(x, t))) && t.Fork? && t.value.key <= key
    ensures AtMost(Before(x), key) ==> AtMost(Before(IntoRight(x, t)), key)
    ensures Below(Before(x), key) && t.value.key < key ==> Below(Before(IntoRight(x, t)), key)
    ensures After(IntoRight(x, t)) == After(x) && Plug(IntoRight(x, t), t.right) == Plug(x, t)
  {
    PlugContents(x, t);
    SortedParts(Before(x), Contents(t.left), t.value, Contents(t.right), After(x));
  }

  lemma AbsentKey(x: Context, key: int)
    requires Below(Before(x), key) && Above(After(x), key)
    ensures !HasKey(Contents(Plug(x, Leaf)), key)
  {
    PlugContents(x, Leaf);
  }

  lemma PresentKey(x: Context, t: Tree)
    requires t.Fork?
    ensures t.value in Contents(Plug(x, t)) && HasKey(Contents(Plug(x, t)), t.value.key)
  {
    PlugContents(x, t);
    var s := Contents(Plug(x, t));
    assert s[|Before(x)| + |Contents(t.left)|] == t.value;
  }

  /** A red leaf in the place of a hole without a tree adds its value between what is before and after. */
  lemma AddedLeaf(x: Context, n: Node, v: Pair)
    requires RedBlackTree(Plug(x, Leaf)) && AtMost(Before(x), v.key) && Above(After(x), v.key)
    ensures var t := Fork(n, v, Red, Leaf, Leaf);
            AlmostRedBlack(x, t) && Inserted(Contents(Plug(x, Leaf)), v, Contents(Plug(x, t)))
  {
    Opens(Leaf, x);
    AddedContents(x, n, v);
  }

  lemma AddedContents(x: Context, n: Node, v: Pair)
    requires AtMost(Before(x), v.key) && Above(After(x), v.key)
    ensures Inserted(Contents(Plug(x, Leaf)), v, Contents(Plug(x, Fork(n, v, Red, Leaf, Leaf))))
  {
    var t := Fork(n, v, Red, Leaf, Leaf);
    assert Contents(t) == [v];
    PlugContents(x, Leaf);
    PlugContents(x, t);
    hide Before, After, Plug, Inserted;
    InsertedByParts(Before(x), After(x), v);
    assert Before(x) + [] + After(x) == Before(x) + After(x);
  }

  // ---------- changing the value stored under a key ----------

  lemma {:induction false} RevaluedColors(x: Context, t: Tree, v: Pair)
    requires t.Fork?
    ensures RedBlackTree(Plug(x, t)) <==> RedBlackTree(Plug(x, t.(value := v)))
  {
    SameColors(x, t, t.(value := v));
  }

  /** Two trees with the same colours and heights are interchangeable in a hole. */
  lemma {:induction false} SameColors(x: Context, t: Tree, u: Tree)
    requires RedRoot(t) == RedRoot(u) && NoRedRed(t) == NoRedRed(u) && Balanced(t) == Balanced(u)
             && BlackHeight(t) == BlackHeight(u)
    ensures RedBlackTree(Plug(x, t)) <==> RedBlackTree(Plug(x, u))
    decreases x
  {
    if !x.Top? { SameColors(x.up, Lifted(x, t), Lifted(x, u)); }
  }

  ghost predicate Bound(s: seq<Pair>, key: int, value: int) {
    Pair(key, value) in s
  }

  lemma RevaluedContents(x: Context, t: Tree, value: int)
    requires t.Fork? && Distinct(Contents(Plug(x, t)))
    ensures var key := t.value.key;
            var s, s' := Contents(Plug(x, t)), Contents(Plug(x, t.(value := Pair(key, value))));
            Distinct(s') && forall k, w :: Bound(s', k, w) <==> if k == key then w == value else Bound(s, k, w)
  {
    var v := Pair(t.value.key, value);
    ContentsAround(x, t);
    ContentsAround(x, t.(value := v));
    hide Contents, Before, After, Plug, Distinct, Bound;
    Replaced(Before(x) + Contents(t.left), t.value, v, Contents(t.right) + After(x));
  }

  /** The contents on both sides of a node. */
  lemma ContentsAround(x: Context, t: Tree)
    requires t.Fork?
    ensures Contents(Plug(x, t)) == (Before(x) + Contents(t.left)) + [t.value] + (Contents(t.right) + After(x))
  {
    PlugContents(x, t);
    Regroup(Before(x), Contents(t.left), t.value, Contents(t.right), After(x));
  }

  lemma Regroup(a: seq<Pair>, l: seq<Pair>, v: Pair, r: seq<Pair>, b: seq<Pair>)
    ensures a + (l + [v] + r) + b == (a + l) + [v] + (r + b)
  {}

  lemma Replaced(a: seq<Pair>, v: Pair, v': Pair, b: seq<Pair>)
    requires Distinct(a + [v] + b) && v'.key == v.key
    ensures Distinct(a + [v'] + b)
    ensures forall k, w :: Bound(a + [v'] + b, k, w) <==> if k == v.key then w == v'.value else Bound(a + [v] + b, k, w)
  {
    var s, s' := a + [v] + b, a + [v'] + b;
    assert s[|a|] == v && s' == s[|a| := v'];
    forall k, w ensures Bound(s', k, w) <==> if k == v.key then w == v'.value else Bound(s, k, w) {
      if Bound(s, k, w) && k != v.key {
        var i: nat :| i < |s| && s[i] == Pair(k, w);
        assert s'[i] == Pair(k, w);
      }
      assert s'[|a|] == v';
    }
  }

  lemma DistinctIsSorted(s: seq<Pair>)
    requires Distinct(s)
    ensures Sorted(s)
  {}

  lemma OneBinding(s: seq<Pair>, v: Pair)
    requires Distinct(s) && v in s
    ensures forall w :: Bound(s, v.key, w) <==> w == v.value
  {
    var i: nat :| i < |s| && s[i] == v;
    forall w | Bound(s, v.key, w) ensures w == v.value {
      var j: nat :| j < |s| && s[j] == Pair(v.key, w);
    }
  }

  /** An insertion changes no binding of another key. */
  lemma OtherBindings(s: seq<Pair>, v: Pair, s': seq<Pair>)
    requires Inserted(s, v, s')
    ensures forall k, w :: k != v.key ==> (Bound(s', k, w) <==> Bound(s, k, w))
  {
    var k: nat :| SplitAt(s, v.key, k) && s' == Spliced(s, v, k);
    SplicedElements(s, v, k);
    forall q: Pair | q != v ensures q in s' <==> q in s {
      assert q in s' <==> q in multiset(s');
      assert q in s <==> q in multiset(s);
    }
  }
}
