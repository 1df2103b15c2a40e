/**
  The pointer tree of rbtree.c.  `At(c, t, root)` says that the nodes on the heap form the
  tree Plug(c, t); every method is proved against the values of RbSpec.
 */
module RbTree {
  import opened RbSpec

  /** A node, together with the entry it is embedded in. */
  class RbNode {
    var rb_left: RbNode?
    var rb_right: RbNode?
    var rb_parent: RbNode?
    var rb_color: Color
    const st_dev: nat
    const st_ino: nat
    var ino: nat

    constructor (st_dev: nat, st_ino: nat, ino: nat)
      ensures this.st_dev == st_dev && this.st_ino == st_ino && this.ino == ino
    {
      this.st_dev, this.st_ino, this.ino := st_dev, st_ino, ino;
      rb_left, rb_right, rb_parent, rb_color := null, null, null, Red;
    }
  }

  class RbRoot {
    var rb_node: RbNode?

    constructor ()
      ensures rb_node == null
    {
      rb_node := null;
    }
  }

  type NodeTree = Tree<RbNode>
  type NodeCtx = Ctx<RbNode>

  // ----- the tree on the heap -----

  ghost function Nodes(t: NodeTree): set<RbNode> {
    if t.Nil? then {} else Nodes(t.left) + {t.item} + Nodes(t.right)
  }

  ghost function CtxNodes(c: NodeCtx): set<RbNode> {
    if c.Top? then {} else {c.item} + Nodes(Sibling(c)) + CtxNodes(c.up)
  }

  /** No node occurs twice. */
  ghost predicate Separate(t: NodeTree) {
    t.Node? ==>
      && t.item !in Nodes(t.left) && t.item !in Nodes(t.right) && Nodes(t.left) !! Nodes(t.right)
      && Separate(t.left) && Separate(t.right)
  }

  ghost predicate CtxSeparate(c: NodeCtx) {
    !c.Top? ==>
      && c.item !in Nodes(Sibling(c)) && c.item !in CtxNodes(c.up) && Nodes(Sibling(c)) !! CtxNodes(c.up)
      && Separate(Sibling(c)) && CtxSeparate(c.up)
  }

  function Item(t: NodeTree): RbNode? { if t.Nil? then null else t.item }

  function Above(c: NodeCtx): RbNode? { if c.Top? then null else c.item }

  /** Pointer n leads to the nodes of t, below the given parent. */
  ghost predicate Rep(t: NodeTree, n: RbNode?, parent: RbNode?)
    reads Nodes(t)`rb_left, Nodes(t)`rb_right, Nodes(t)`rb_parent, Nodes(t)`rb_color
  {
    && n == Item(t)
    && (t.Node? ==>
          && t.item.rb_parent == parent && t.item.rb_color == t.color
          && Rep(t.left, t.item.rb_left, t.item) && Rep(t.right, t.item.rb_right, t.item))
  }

  /** The nodes around a position, whose link leads to n. */
  ghost predicate RepCtx(c: NodeCtx, n: RbNode?, root: RbRoot)
    reads root, CtxNodes(c)`rb_left, CtxNodes(c)`rb_right, CtxNodes(c)`rb_parent, CtxNodes(c)`rb_color
  {
    if c.Top? then root.rb_node == n
    else
      && c.item.rb_parent == Above(c.up) && c.item.rb_color == c.color
      && (if c.InLeft? then c.item.rb_left == n && Rep(c.right, c.item.rb_right, c.item)
          else c.item.rb_right == n && Rep(c.left, c.item.rb_left, c.item))
      && RepCtx(c.up, c.item, root)
  }

  ghost predicate At(c: NodeCtx, t: NodeTree, root: RbRoot)
    reads root, Nodes(t)`rb_left, Nodes(t)`rb_right, Nodes(t)`rb_parent, Nodes(t)`rb_color
    reads CtxNodes(c)`rb_left, CtxNodes(c)`rb_right, CtxNodes(c)`rb_parent, CtxNodes(c)`rb_color
  {
    && Separate(t) && CtxSeparate(c) && Nodes(t) !! CtxNodes(c)
    && Rep(t, Item(t), Above(c)) && RepCtx(c, Item(t), root)
  }

  // ----- taking descriptions apart and putting them together -----

  lemma Open(t: NodeTree, n: RbNode?, parent: RbNode?)
    requires t.Node? && Rep(t, n, parent) && Separate(t)
    ensures n == t.item && t.item.rb_parent == parent && t.item.rb_color == t.color
    ensures Rep(t.left, t.item.rb_left, t.item) && Rep(t.right, t.item.rb_right, t.item)
    ensures t.item.rb_left == Item(t.left) && t.item.rb_right == Item(t.right)
    ensures Separate(t.left) && Separate(t.right) && Nodes(t.left) !! Nodes(t.right)
    ensures t.item !in Nodes(t.left) && t.item !in Nodes(t.right)
    ensures Nodes(t) == Nodes(t.left) + {t.item} + Nodes(t.right)
  {}

  lemma Close(l: NodeTree, x: RbNode, color: Color, r: NodeTree, parent: RbNode?)
    requires x.rb_parent == parent && x.rb_color == color
    requires Rep(l, x.rb_left, x) && Rep(r, x.rb_right, x)
    requires Separate(l) && Separate(r) && Nodes(l) !! Nodes(r) && x !in Nodes(l) && x !in Nodes(r)
    ensures var t := Node(l, x, color, r);
      Rep(t, x, parent) && Separate(t) && Nodes(t) == Nodes(l) + {x} + Nodes(r)
  {}

  lemma ItemIn(t: NodeTree)
    ensures t.Node? ==> t.item in Nodes(t)
    ensures t.Nil? ==> Nodes(t) == {} && Separate(t)
  {}

  lemma OpenCtx(c: NodeCtx, n: RbNode?, root: RbRoot)
    requires !c.Top? && RepCtx(c, n, root) && CtxSeparate(c)
    ensures c.item.rb_parent == Above(c.up) && c.item.rb_color == c.color
    ensures c.InLeft? ==> c.item.rb_left == n && Rep(c.right, c.item.rb_right, c.item)
    ensures c.InRight? ==> c.item.rb_right == n && Rep(c.left, c.item.rb_left, c.item)
    ensures RepCtx(c.up, c.item, root) && CtxSeparate(c.up) && Separate(Sibling(c))
    ensures c.item !in Nodes(Sibling(c)) && c.item !in CtxNodes(c.up) && Nodes(Sibling(c)) !! CtxNodes(c.up)
    ensures CtxNodes(c) == {c.item} + Nodes(Sibling(c)) + CtxNodes(c.up)
  {}

  lemma CloseCtx(c: NodeCtx, n: RbNode?, root: RbRoot)
    requires !c.Top? && c.item.rb_parent == Above(c.up) && c.item.rb_color == c.color
    requires c.InLeft? ==> c.item.rb_left == n && Rep(c.right, c.item.rb_right, c.item)
    requires c.InRight? ==> c.item.rb_right == n && Rep(c.left, c.item.rb_left, c.item)
    requires RepCtx(c.up, c.item, root) && CtxSeparate(c.up) && Separate(Sibling(c))
    requires c.item !in Nodes(Sibling(c)) && c.item !in CtxNodes(c.up) && Nodes(Sibling(c)) !! CtxNodes(c.up)
    ensures RepCtx(c, n, root) && CtxSeparate(c)
    ensures CtxNodes(c) == {c.item} + Nodes(Sibling(c)) + CtxNodes(c.up)
  {}

  /** Moving the focus to the parent, and back. */
  lemma FocusUp(c: NodeCtx, t: NodeTree, root: RbRoot)
    requires !c.Top?
    ensures At(c, t, root) <==> At(c.up, Up(c, t), root)
    ensures Nodes(t) + CtxNodes(c) == Nodes(Up(c, t)) + CtxNodes(c.up)
  {
    hide Rep, RepCtx, Separate, CtxSeparate;
    var p := Up(c, t);
    if At(c, t, root) {
      OpenCtx(c, Item(t), root);
      Close(p.left, p.item, p.color, p.right, Above(c.up));
    }
    if At(c.up, p, root) {
      Open(p, Item(p), Above(c.up));
      CloseCtx(c, Item(t), root);
    }
  }

  /** All positions of a tree describe the same heap. */
  lemma {:induction false} FocusRoot(c: NodeCtx, t: NodeTree, root: RbRoot)
    ensures At(c, t, root) <==> At(Top, Plug(c, t), root)
    ensures Nodes(t) + CtxNodes(c) == Nodes(Plug(c, t))
    decreases c
  {
    hide At;
    if !c.Top? {
      FocusUp(c, t, root);
      FocusRoot(c.up, Up(c, t), root);
    }
  }

  lemma Refocus(c: NodeCtx, t: NodeTree, c': NodeCtx, t': NodeTree, root: RbRoot)
    requires Plug(c, t) == Plug(c', t')
    ensures At(c, t, root) <==> At(c', t', root)
    ensures Nodes(t) + CtxNodes(c) == Nodes(t') + CtxNodes(c')
  {
    hide At, Plug;
    FocusRoot(c, t, root);
    FocusRoot(c', t', root);
  }

  // ----- elementary pointer steps -----

  /** Gives a subtree another parent. */
  method SetParent(n: RbNode?, p: RbNode?, ghost t: NodeTree, ghost q: RbNode?)
    requires Rep(t, n, q) && Separate(t)
    modifies (if n == null then {} else {n})`rb_parent
    ensures Rep(t, n, p)
  {
    if n != null {
      n.rb_parent := p;
      assert Rep(t.left, n.rb_left, n) && Rep(t.right, n.rb_right, n);
    }
  }

  /** Lets the parent, or the root, point to another child. */
  method ReplaceChild(parent: RbNode?, node: RbNode, other: RbNode?, root: RbRoot, ghost c: NodeCtx)
    requires RepCtx(c, node, root) && CtxSeparate(c) && node !in CtxNodes(c) && parent == Above(c)
    modifies root, (if parent == null then {} else {parent})`rb_left, (if parent == null then {} else {parent})`rb_right
    ensures RepCtx(c, other, root)
    ensures parent != null ==> root.rb_node == old(root.rb_node)
  {
    hide Rep, RepCtx, Separate, CtxSeparate;
    if parent != null {
      OpenCtx(c, node, root);
      ItemIn(Sibling(c));
      RepItem(Sibling(c), if c.InLeft? then c.item.rb_right else c.item.rb_left, c.item);
      if node == parent.rb_left {
        parent.rb_left := other;
      } else {
        parent.rb_right := other;
      }
      CloseCtx(c, other, root);
    } else {
      root.rb_node := other;
      TopCtx(other, root);
    }
  }

  lemma RepItem(t: NodeTree, n: RbNode?, parent: RbNode?)
    requires Rep(t, n, parent)
    ensures n == Item(t)
  {}

  lemma TopCtx(n: RbNode?, root: RbRoot)
    ensures RepCtx(Top, n, root) <==> root.rb_node == n
    ensures CtxSeparate(Top) && CtxNodes(Top) == {}
  {}

  // ----- rotations -----

  ghost function RotatedLeft(t: NodeTree): NodeTree
    requires t.Node? && t.right.Node?
  {
    Node(Node(t.left, t.item, t.color, t.right.left), t.right.item, t.right.color, t.right.right)
  }

  ghost function RotatedRight(t: NodeTree): NodeTree
    requires t.Node? && t.left.Node?
  {
    Node(t.left.left, t.left.item, t.left.color, Node(t.left.right, t.item, t.color, t.right))
  }

  ghost function All(c: NodeCtx, t: NodeTree): set<RbNode> { Nodes(t) + CtxNodes(c) }

  lemma AboveIn(c: NodeCtx)
    ensures !c.Top? ==> c.item in CtxNodes(c)
  {}

  /** Turns a subtree: all pointers but the one from above. */
  method TurnLeft(node: RbNode, ghost t: NodeTree, ghost parent: RbNode?)
    requires t.Node? && t.item == node && t.right.Node? && Rep(t, node, parent) && Separate(t)
    modifies Nodes(t)`rb_left, Nodes(t)`rb_right, Nodes(t)`rb_parent
    ensures Rep(RotatedLeft(t), t.right.item, parent) && Separate(RotatedLeft(t))
    ensures Nodes(RotatedLeft(t)) == Nodes(t)
  {
    hide Rep, Separate, Nodes;
    ghost var l, m, r := t.left, t.right.left, t.right.right;
    Open(t, node, parent);
    Open(t.right, node.rb_right, node);
    ItemIn(m);
    var right := node.rb_right;
    assert allocated(Nodes(l)) && allocated(Nodes(m)) && allocated(Nodes(r));
    node.rb_right := right.rb_left;
    SetParent(right.rb_left, node, m, right);
    right.rb_left := node;
    right.rb_parent := node.rb_parent;
    node.rb_parent := right;
    Close(l, node, t.color, m, right);
    Close(Node(l, node, t.color, m), right, t.right.color, r, parent);
  }

  method TurnRight(node: RbNode, ghost t: NodeTree, ghost parent: RbNode?)
    requires t.Node? && t.item == node && t.left.Node? && Rep(t, node, parent) && Separate(t)
    modifies Nodes(t)`rb_left, Nodes(t)`rb_right, Nodes(t)`rb_parent
    ensures Rep(RotatedRight(t), t.left.item, parent) && Separate(RotatedRight(t))
    ensures Nodes(RotatedRight(t)) == Nodes(t)
  {
    hide Rep, Separate, Nodes;
    ghost var l, m, r := t.left.left, t.left.right, t.right;
    Open(t, node, parent);
    Open(t.left, node.rb_left, node);
    ItemIn(m);
    var left := node.rb_left;
    assert allocated(Nodes(l)) && allocated(Nodes(m)) && allocated(Nodes(r));
    node.rb_left := left.rb_right;
    SetParent(left.rb_right, node, m, left);
    left.rb_right := node;
    left.rb_parent := node.rb_parent;
    node.rb_parent := left;
    Close(m, node, t.color, r, left);
    Close(l, left, t.left.color, Node(m, node, t.color, r), parent);
  }

  method RotateLeft(node: RbNode, root: RbRoot, ghost c: NodeCtx, ghost t: NodeTree)
    requires At(c, t, root) && t.Node? && t.item == node && t.right.Node?
    modifies root, All(c, t)`rb_left, All(c, t)`rb_right, All(c, t)`rb_parent
    ensures At(c, RotatedLeft(t), root) && All(c, RotatedLeft(t)) == All(c, t)
  {
    hide Rep, RepCtx, Separate, CtxSeparate, Nodes, CtxNodes;
    Open(t, node, Above(c));
    AboveIn(c);
    assert allocated(Nodes(t)) && allocated(CtxNodes(c));
    var parent := node.rb_parent;
    var right := node.rb_right;
    TurnLeft(node, t, parent);
    ReplaceChild(parent, node, right, root, c);
  }

  method RotateRight(node: RbNode, root: RbRoot, ghost c: NodeCtx, ghost t: NodeTree)
    requires At(c, t, root) && t.Node? && t.item == node && t.left.Node?
    modifies root, All(c, t)`rb_left, All(c, t)`rb_right, All(c, t)`rb_parent
    ensures At(c, RotatedRight(t), root) && All(c, RotatedRight(t)) == All(c, t)
  {
    hide Rep, RepCtx, Separate, CtxSeparate, Nodes, CtxNodes;
    Open(t, node, Above(c));
    AboveIn(c);
    assert allocated(Nodes(t)) && allocated(CtxNodes(c));
    var parent := node.rb_parent;
    var left := node.rb_left;
    TurnRight(node, t, parent);
    ReplaceChild(parent, node, left, root, c);
  }

  /** Colours the node in focus. */
  method Paint(x: RbNode, color: Color, root: RbRoot, ghost c: NodeCtx, ghost t: NodeTree)
    requires At(c, t, root) && t.Node? && t.item == x
    modifies x`rb_color
    ensures At(c, t.(color := color), root) && All(c, t.(color := color)) == All(c, t)
  {
    hide Rep, RepCtx, Separate, CtxSeparate, Nodes, CtxNodes;
    Open(t, x, Above(c));
    x.rb_color := color;
    Close(t.left, x, color, t.right, Above(c));
  }

  // ----- reading the tree around a node -----

  /** What the parent's fields say. */
  lemma Parent(c: NodeCtx, t: NodeTree, root: RbRoot)
    requires At(c, t, root) && t.Node?
    ensures t.item.rb_parent == Above(c) && t.item.rb_color == t.color
    ensures t.item.rb_left == Item(t.left) && t.item.rb_right == Item(t.right)
    ensures t.left.Node? ==> t.left.item.rb_color == t.left.color
    ensures t.right.Node? ==> t.right.item.rb_color == t.right.color
    ensures t.item in All(c, t) && (t.left.Node? ==> t.left.item in All(c, t))
    ensures (t.right.Node? ==> t.right.item in All(c, t))
    ensures t.left.Node? && t.right.Node? ==> t.left.item != t.right.item
  {
    hide Rep, RepCtx, Separate, CtxSeparate, Nodes, CtxNodes;
    Open(t, t.item, Above(c));
    if t.left.Node? { Open(t.left, t.item.rb_left, t.item); }
    if t.right.Node? { Open(t.right, t.item.rb_right, t.item); }
  }

  lemma Around(c: NodeCtx, t: NodeTree, root: RbRoot)
    requires At(c, t, root) && t.Node? && !c.Top?
    ensures t.item.rb_parent == c.item && c.item.rb_parent == Above(c.up) && c.item.rb_color == c.color
    ensures c.InLeft? ==> c.item.rb_left == t.item && c.item.rb_right == Item(c.right)
    ensures c.InRight? ==> c.item.rb_right == t.item && c.item.rb_left == Item(c.left)
    ensures Sibling(c).Node? ==> Sibling(c).item.rb_color == Sibling(c).color && Sibling(c).item != t.item
    ensures c.item in All(c, t) && (Sibling(c).Node? ==> Sibling(c).item in All(c, t))
  {
    hide Rep, RepCtx, Separate, CtxSeparate, Nodes, CtxNodes;
    FocusUp(c, t, root);
    Parent(c, t, root);
    Parent(c.up, Up(c, t), root);
  }

  ghost function Depth(c: NodeCtx): nat { if c.Top? then 0 else Depth(c.up) + 1 }

  // ----- insertion -----

  /** Parent and uncle turn black, the grandparent turns red. */
  method PassRedUp(parent: RbNode, gparent: RbNode, uncle: RbNode, root: RbRoot, ghost c: NodeCtx, ghost t: NodeTree)
    requires At(c, t, root) && t.Node? && !c.Top? && !c.up.Top?
    requires parent == c.item && gparent == c.up.item && Sibling(c.up).Node? && uncle == Sibling(c.up).item
    modifies {parent, gparent, uncle}`rb_color
    ensures At(c.up.up, PassRed(c, t), root) && All(c.up.up, PassRed(c, t)) == All(c, t)
  {
    hide At, Nodes, CtxNodes;
    ghost var g, p, u := c.up, Up(c, t), Sibling(c.up);
    ghost var cu := if g.InLeft? then InRight(p, g.item, g.color, g.up) else InLeft(g.item, g.color, p, g.up);
    Refocus(c, t, cu, u, root);
    Paint(uncle, Black, root, cu, u);
    ghost var u' := u.(color := Black);
    ghost var cp := if g.InLeft? then InLeft(g.item, g.color, u', g.up) else InRight(u', g.item, g.color, g.up);
    Refocus(cu, u', cp, p, root);
    Paint(parent, Black, root, cp, p);
    ghost var p' := p.(color := Black);
    ghost var whole := Up(cp, p');
    Refocus(cp, p', g.up, whole, root);
    Paint(gparent, Red, root, g.up, whole);
  }

  /** The final rotations when the parent is a left child. */
  method FinishLeft(n: RbNode, root: RbRoot, ghost c: NodeCtx, ghost t: NodeTree)
    returns (node: RbNode, ghost c': NodeCtx, ghost t': NodeTree)
    requires At(c, t, root) && t.Node? && t.item == n && !c.Top? && c.up.InLeft?
    modifies root, All(c, t)`rb_left, All(c, t)`rb_right, All(c, t)`rb_parent, All(c, t)`rb_color
    ensures At(c', t', root) && t'.Node? && t'.item == node && All(c', t') == All(c, t)
    ensures c'.InLeft? && c'.color == Black && c'.up == c.up.up && Plug(c', t') == Plug(c.up.up, InsertRotate(c, t))
  {
    hide At, Nodes, CtxNodes;
    node := n;
    Around(c, t, root);
    var parent := node.rb_parent;
    ghost var g := c.up;
    FocusUp(c, t, root);
    Around(g, Up(c, t), root);
    var gparent := parent.rb_parent;
    ghost var p := Up(c, t);
    Parent(c, t, root);
    SideOf(c, t, root);
    if parent.rb_right == node {
      RotateLeft(parent, root, g, p);
      p := RotatedLeft(p);
      parent, node := node, parent;
    }
    Paint(parent, Black, root, g, p);
    p := p.(color := Black);
    ghost var whole := Up(g, p);
    FocusUp(g, p, root);
    Paint(gparent, Red, root, g.up, whole);
    whole := whole.(color := Red);
    RotateRight(gparent, root, g.up, whole);
    whole := RotatedRight(whole);
    c', t' := InLeft(whole.item, whole.color, whole.right, g.up), whole.left;
    FocusUp(c', t', root);
  }

  /** A node is its parent's left child exactly when the parent's left link leads to it. */
  lemma SideOf(c: NodeCtx, t: NodeTree, root: RbRoot)
    requires At(c, t, root) && t.Node? && !c.Top?
    ensures c.item.rb_left == t.item <==> c.InLeft?
    ensures c.item.rb_right == t.item <==> c.InRight?
  {
    hide At, Nodes, CtxNodes;
    Around(c, t, root);
  }

  /** The final rotations when the parent is a right child. */
  method FinishRight(n: RbNode, root: RbRoot, ghost c: NodeCtx, ghost t: NodeTree)
    returns (node: RbNode, ghost c': NodeCtx, ghost t': NodeTree)
    requires At(c, t, root) && t.Node? && t.item == n && !c.Top? && c.up.InRight?
    modifies root, All(c, t)`rb_left, All(c, t)`rb_right, All(c, t)`rb_parent, All(c, t)`rb_color
    ensures At(c', t', root) && t'.Node? && t'.item == node && All(c', t') == All(c, t)
    ensures c'.InRight? && c'.color == Black && c'.up == c.up.up && Plug(c', t') == Plug(c.up.up, InsertRotate(c, t))
  {
    hide At, Nodes, CtxNodes;
    node := n;
    Around(c, t, root);
    var parent := node.rb_parent;
    ghost var g := c.up;
    FocusUp(c, t, root);
    Around(g, Up(c, t), root);
    var gparent := parent.rb_parent;
    ghost var p := Up(c, t);
    Parent(c, t, root);
    SideOf(c, t, root);
    if parent.rb_left == node {
      RotateRight(parent, root, g, p);
      p := RotatedRight(p);
      parent, node := node, parent;
    }
    Paint(parent, Black, root, g, p);
    p := p.(color := Black);
    ghost var whole := Up(g, p);
    FocusUp(g, p, root);
    Paint(gparent, Red, root, g.up, whole);
    whole := whole.(color := Red);
    RotateLeft(gparent, root, g.up, whole);
    whole := RotatedLeft(whole);
    c', t' := InRight(whole.left, whole.item, whole.color, g.up), whole.right;
    FocusUp(c', t', root);
  }

  /** The root pointer leads to the root of the tree. */
  lemma RootItem(c: NodeCtx, t: NodeTree, root: RbRoot)
    requires At(c, t, root)
    ensures At(Top, Plug(c, t), root) && root.rb_node == Item(Plug(c, t))
    ensures Nodes(Plug(c, t)) + CtxNodes(Top) == Nodes(t) + CtxNodes(c)
    ensures if c.Top? then root.rb_node == Item(t) else root.rb_node != null && root.rb_node != Item(t)
  {
    hide Rep, Separate, CtxSeparate, Nodes;
    FocusRoot(c, t, root);
    if !c.Top? {
      PlugNode(c, t);
      OutermostItem(c, t);
      ItemIn(t);
    }
  }

  lemma {:induction false} OutermostItem(c: NodeCtx, t: NodeTree)
    requires !c.Top?
    ensures Plug(c, t).Node? && Plug(c, t).item in CtxNodes(c)
    decreases c
  {
    if !c.up.Top? { OutermostItem(c.up, Up(c, t)); }
  }

  /** Restores the red-black rules after a red node has been linked in. */
  method InsertColor(n: RbNode, root: RbRoot, ghost c0: NodeCtx, ghost t0: NodeTree)
    requires At(c0, t0, root) && t0.Node? && t0.item == n && RootBlack(c0)
    modifies root, All(c0, t0)`rb_left, All(c0, t0)`rb_right, All(c0, t0)`rb_parent, All(c0, t0)`rb_color
    ensures At(Top, InsertFix(c0, t0), root) && All(Top, InsertFix(c0, t0)) == All(c0, t0)
  {
    hide At, Nodes, CtxNodes, PassRed, InsertRotate, Plug;
    var node := n;
    ghost var c, t := c0, t0;
    while node.rb_parent != null && node.rb_parent.rb_color == Red
      invariant At(c, t, root) && t.Node? && t.item == node && RootBlack(c) && All(c, t) == All(c0, t0)
      invariant InsertFix(c, t) == InsertFix(c0, t0)
      decreases Depth(c)
    {
      var parent := node.rb_parent;
      Parent(c, t, root);
      Around(c, t, root);
      FocusUp(c, t, root);
      var gparent := parent.rb_parent;
      Around(c.up, Up(c, t), root);
      SideOf(c.up, Up(c, t), root);
      assert Depth(c) == Depth(c.up.up) + 2;
      if parent == gparent.rb_left {
        var uncle := gparent.rb_right;
        if uncle != null && uncle.rb_color == Red {
          PassRedUp(parent, gparent, uncle, root, c, t);
          c, t, node := c.up.up, PassRed(c, t), gparent;
        } else {
          node, c, t := FinishLeft(node, root, c, t);
        }
      } else {
        var uncle := gparent.rb_left;
        if uncle != null && uncle.rb_color == Red {
          PassRedUp(parent, gparent, uncle, root, c, t);
          c, t, node := c.up.up, PassRed(c, t), gparent;
        } else {
          node, c, t := FinishRight(node, root, c, t);
        }
      }
    }
    Parent(c, t, root);
    if !c.Top? { Around(c, t, root); }
    RootItem(c, t, root);
    PlugNode(c, t);
    Parent(Top, Plug(c, t), root);
    Paint(root.rb_node, Black, root, Top, Plug(c, t));
  }

  // ----- removal -----

  /** Colours the left child of the node in focus. */
  method PaintLeft(x: RbNode, color: Color, root: RbRoot, ghost c: NodeCtx, ghost t: NodeTree)
    requires At(c, t, root) && t.Node? && t.left.Node? && t.left.item == x
    modifies x`rb_color
    ensures At(c, t.(left := t.left.(color := color)), root) && All(c, t.(left := t.left.(color := color))) == All(c, t)
  {
    hide At, Nodes, CtxNodes;
    ghost var cl := InLeft(t.item, t.color, t.right, c);
    FocusUp(cl, t.left, root);
    Paint(x, color, root, cl, t.left);
    FocusUp(cl, t.left.(color := color), root);
  }

  /** Colours the right child of the node in focus. */
  method PaintRight(x: RbNode, color: Color, root: RbRoot, ghost c: NodeCtx, ghost t: NodeTree)
    requires At(c, t, root) && t.Node? && t.right.Node? && t.right.item == x
    modifies x`rb_color
    ensures At(c, t.(right := t.right.(color := color)), root)
    ensures All(c, t.(right := t.right.(color := color))) == All(c, t)
  {
    hide At, Nodes, CtxNodes;
    ghost var cr := InRight(t.left, t.item, t.color, c);
    FocusUp(cr, t.right, root);
    Paint(x, color, root, cr, t.right);
    FocusUp(cr, t.right.(color := color), root);
  }

  predicate BlackNode(n: RbNode?)
    reads (if n == null then {} else {n})`rb_color
  {
    n == null || n.rb_color == Black
  }

  /** A red sibling on the right: it turns black, the parent red, and the parent is rotated down. */
  method RaiseRight(parent: RbNode, o: RbNode, root: RbRoot, ghost c: NodeCtx, ghost t: NodeTree)
    requires At(c, t, root) && c.InLeft? && c.right.Node? && parent == c.item && o == c.right.item
    modifies root, All(c, t)`rb_left, All(c, t)`rb_right, All(c, t)`rb_parent, All(c, t)`rb_color
    ensures At(RedSiblingLeft(c), t, root) && All(RedSiblingLeft(c), t) == All(c, t)
  {
    hide At, Nodes, CtxNodes;
    ghost var p := Up(c, t);
    FocusUp(c, t, root);
    Parent(c.up, p, root);
    PaintRight(o, Black, root, c.up, p);
    p := p.(right := p.right.(color := Black));
    Paint(parent, Red, root, c.up, p);
    p := p.(color := Red);
    RotateLeft(parent, root, c.up, p);
    Refocus(c.up, RotatedLeft(p), RedSiblingLeft(c), t, root);
  }

  method RaiseLeft(parent: RbNode, o: RbNode, root: RbRoot, ghost c: NodeCtx, ghost t: NodeTree)
    requires At(c, t, root) && c.InRight? && c.left.Node? && parent == c.item && o == c.left.item
    modifies root, All(c, t)`rb_left, All(c, t)`rb_right, All(c, t)`rb_parent, All(c, t)`rb_color
    ensures At(RedSiblingRight(c), t, root) && All(RedSiblingRight(c), t) == All(c, t)
  {
    hide At, Nodes, CtxNodes;
    ghost var p := Up(c, t);
    FocusUp(c, t, root);
    Parent(c.up, p, root);
    PaintLeft(o, Black, root, c.up, p);
    p := p.(left := p.left.(color := Black));
    Paint(parent, Red, root, c.up, p);
    p := p.(color := Red);
    RotateRight(parent, root, c.up, p);
    Refocus(c.up, RotatedRight(p), RedSiblingRight(c), t, root);
  }

  /** The right sibling after its red left child has been rotated up, if its right child is black. */
  ghost function TurnedRight(o: NodeTree): NodeTree
    requires o.Node?
  {
    if IsRed(o.right) || !IsRed(o.left) then o
    else Node(o.left.left, o.left.item, Black, Node(o.left.right, o.item, Red, o.right))
  }

  ghost function TurnedLeft(o: NodeTree): NodeTree
    requires o.Node?
  {
    if IsRed(o.left) || !IsRed(o.right) then o
    else Node(Node(o.left, o.item, Red, o.right.left), o.right.item, Black, o.right.right)
  }

  /** Rotates the sibling so that its outer child is red; returns the new sibling. */
  method TurnSiblingRight(parent: RbNode, o: RbNode, root: RbRoot, ghost c: NodeCtx, ghost t: NodeTree)
    returns (other: RbNode)
    requires At(c, t, root) && t.Node? && t.right.Node? && parent == t.item && o == t.right.item
    requires IsRed(t.right.left) || IsRed(t.right.right)
    modifies root, All(c, t)`rb_left, All(c, t)`rb_right, All(c, t)`rb_parent, All(c, t)`rb_color
    ensures At(c, t.(right := TurnedRight(t.right)), root) && All(c, t.(right := TurnedRight(t.right))) == All(c, t)
    ensures other == TurnedRight(t.right).item && IsRed(TurnedRight(t.right).right)
  {
    hide At, Nodes, CtxNodes;
    other := o;
    ghost var co, s := InRight(t.left, t.item, t.color, c), t.right;
    FocusUp(co, s, root);
    Parent(co, s, root);
    if BlackNode(other.rb_right) {
      PaintLeft(other.rb_left, Black, root, co, s);
      s := s.(left := s.left.(color := Black));
      Paint(other, Red, root, co, s);
      s := s.(color := Red);
      RotateRight(other, root, co, s);
      s := RotatedRight(s);
      FocusUp(co, s, root);
      Parent(c, Up(co, s), root);
      other := parent.rb_right;
    }
  }

  method TurnSiblingLeft(parent: RbNode, o: RbNode, root: RbRoot, ghost c: NodeCtx, ghost t: NodeTree)
    returns (other: RbNode)
    requires At(c, t, root) && t.Node? && t.left.Node? && parent == t.item && o == t.left.item
    requires IsRed(t.left.left) || IsRed(t.left.right)
    modifies root, All(c, t)`rb_left, All(c, t)`rb_right, All(c, t)`rb_parent, All(c, t)`rb_color
    ensures At(c, t.(left := TurnedLeft(t.left)), root) && All(c, t.(left := TurnedLeft(t.left))) == All(c, t)
    ensures other == TurnedLeft(t.left).item && IsRed(TurnedLeft(t.left).left)
  {
    hide At, Nodes, CtxNodes;
    other := o;
    ghost var co, s := InLeft(t.item, t.color, t.right, c), t.left;
    FocusUp(co, s, root);
    Parent(co, s, root);
    if BlackNode(other.rb_left) {
      PaintRight(other.rb_right, Black, root, co, s);
      s := s.(right := s.right.(color := Black));
      Paint(other, Red, root, co, s);
      s := s.(color := Red);
      RotateLeft(other, root, co, s);
      s := RotatedLeft(s);
      FocusUp(co, s, root);
      Parent(c, Up(co, s), root);
      other := parent.rb_left;
    }
  }

  /** The last rotation: the sibling takes the parent's place and colour. */
  method SettleLeft(parent: RbNode, o: RbNode, root: RbRoot, ghost c: NodeCtx, ghost t: NodeTree)
    requires At(c, t, root) && c.InLeft? && c.right.Node? && parent == c.item && o == c.right.item
    requires IsRed(c.right.left) || IsRed(c.right.right)
    modifies root, All(c, t)`rb_left, All(c, t)`rb_right, All(c, t)`rb_parent, All(c, t)`rb_color
    ensures At(c.up, EraseLeftTree(c, t), root) && All(c.up, EraseLeftTree(c, t)) == All(c, t)
  {
    hide At, Nodes, CtxNodes;
    ghost var p := Up(c, t);
    FocusUp(c, t, root);
    var other := TurnSiblingRight(parent, o, root, c.up, p);
    p := p.(right := TurnedRight(p.right));
    Parent(c.up, p, root);
    PaintRight(other, parent.rb_color, root, c.up, p);
    p := p.(right := p.right.(color := c.color));
    Paint(parent, Black, root, c.up, p);
    p := p.(color := Black);
    ghost var co := InRight(p.left, p.item, p.color, c.up);
    FocusUp(co, p.right, root);
    Parent(co, p.right, root);
    PaintRight(other.rb_right, Black, root, co, p.right);
    ghost var s := p.right.(right := p.right.right.(color := Black));
    FocusUp(co, s, root);
    p := p.(right := s);
    RotateLeft(parent, root, c.up, p);
  }

  method SettleRight(parent: RbNode, o: RbNode, root: RbRoot, ghost c: NodeCtx, ghost t: NodeTree)
    requires At(c, t, root) && c.InRight? && c.left.Node? && parent == c.item && o == c.left.item
    requires IsRed(c.left.left) || IsRed(c.left.right)
    modifies root, All(c, t)`rb_left, All(c, t)`rb_right, All(c, t)`rb_parent, All(c, t)`rb_color
    ensures At(c.up, EraseRightTree(c, t), root) && All(c.up, EraseRightTree(c, t)) == All(c, t)
  {
    hide At, Nodes, CtxNodes;
    ghost var p := Up(c, t);
    FocusUp(c, t, root);
    var other := TurnSiblingLeft(parent, o, root, c.up, p);
    p := p.(left := TurnedLeft(p.left));
    Parent(c.up, p, root);
    PaintLeft(other, parent.rb_color, root, c.up, p);
    p := p.(left := p.left.(color := c.color));
    Paint(parent, Black, root, c.up, p);
    p := p.(color := Black);
    ghost var co := InLeft(p.item, p.color, p.right, c.up);
    FocusUp(co, p.left, root);
    Parent(co, p.left, root);
    PaintLeft(other.rb_left, Black, root, co, p.left);
    ghost var s := p.left.(left := p.left.left.(color := Black));
    FocusUp(co, s, root);
    p := p.(left := s);
    RotateRight(parent, root, c.up, p);
  }

  /** One turn of the loop when the short subtree is a left child. */
  method FixLeft(n: RbNode?, p: RbNode, root: RbRoot, ghost c0: NodeCtx, ghost t0: NodeTree)
    returns (done: bool, node: RbNode?, parent: RbNode?, ghost c: NodeCtx, ghost t: NodeTree)
    requires At(c0, t0, root) && n == Item(t0) && c0.InLeft? && p == c0.item && CtxSiblings(c0) && !IsRed(t0)
    modifies root, All(c0, t0)`rb_left, All(c0, t0)`rb_right, All(c0, t0)`rb_parent, All(c0, t0)`rb_color
    ensures At(c, t, root) && All(c, t) == All(c0, t0) && node == Item(t)
    ensures !done ==> parent == Above(c) && CtxSiblings(c) && EraseFix(c, t) == EraseFix(c0, t0)
    ensures !done ==> IsRed(t) || Depth(c) < Depth(c0)
    ensures done ==> c.Top? && Blacken(t) == EraseFix(c0, t0)
  {
    hide At, Nodes, CtxNodes, EraseFix, Plug, EraseLeftTree;
    node, parent, c, t := n, p, c0, t0;
    EraseFixLeft(c, t);
    FocusUp(c, t, root);
    Parent(c.up, Up(c, t), root);
    var other := parent.rb_right;
    if other.rb_color == Red {
      RaiseRight(parent, other, root, c, t);
      c := RedSiblingLeft(c);
      FocusUp(c, t, root);
      Parent(c.up, Up(c, t), root);
      other := parent.rb_right;
      EraseFixLeft(c, t);
    }
    ghost var up := Up(c, t);
    ghost var co := InRight(up.left, up.item, up.color, c.up);
    FocusUp(co, c.right, root);
    Parent(co, c.right, root);
    if BlackNode(other.rb_left) && BlackNode(other.rb_right) {
      PaintRight(other, Red, root, c.up, up);
      c, t := c.up, up.(right := up.right.(color := Red));
      node := parent;
      Parent(c, t, root);
      parent := node.rb_parent;
      done := false;
    } else {
      SettleLeft(parent, other, root, c, t);
      RootItem(c.up, EraseLeftTree(c, t), root);
      c, t := Top, Plug(c.up, EraseLeftTree(c, t));
      node := root.rb_node;
      done := true;
    }
  }

  method FixRight(n: RbNode?, p: RbNode, root: RbRoot, ghost c0: NodeCtx, ghost t0: NodeTree)
    returns (done: bool, node: RbNode?, parent: RbNode?, ghost c: NodeCtx, ghost t: NodeTree)
    requires At(c0, t0, root) && n == Item(t0) && c0.InRight? && p == c0.item && CtxSiblings(c0) && !IsRed(t0)
    modifies root, All(c0, t0)`rb_left, All(c0, t0)`rb_right, All(c0, t0)`rb_parent, All(c0, t0)`rb_color
    ensures At(c, t, root) && All(c, t) == All(c0, t0) && node == Item(t)
    ensures !done ==> parent == Above(c) && CtxSiblings(c) && EraseFix(c, t) == EraseFix(c0, t0)
    ensures !done ==> IsRed(t) || Depth(c) < Depth(c0)
    ensures done ==> c.Top? && Blacken(t) == EraseFix(c0, t0)
  {
    hide At, Nodes, CtxNodes, EraseFix, Plug, EraseRightTree;
    node, parent, c, t := n, p, c0, t0;
    EraseFixRight(c, t);
    FocusUp(c, t, root);
    Parent(c.up, Up(c, t), root);
    var other := parent.rb_left;
    if other.rb_color == Red {
      RaiseLeft(parent, other, root, c, t);
      c := RedSiblingRight(c);
      FocusUp(c, t, root);
      Parent(c.up, Up(c, t), root);
      other := parent.rb_left;
      EraseFixRight(c, t);
    }
    ghost var up := Up(c, t);
    ghost var co := InLeft(up.item, up.color, up.right, c.up);
    FocusUp(co, c.left, root);
    Parent(co, c.left, root);
    if BlackNode(other.rb_left) && BlackNode(other.rb_right) {
      PaintLeft(other, Red, root, c.up, up);
      c, t := c.up, up.(left := up.left.(color := Red));
      node := parent;
      Parent(c, t, root);
      parent := node.rb_parent;
      done := false;
    } else {
      SettleRight(parent, other, root, c, t);
      RootItem(c.up, EraseRightTree(c, t), root);
      c, t := Top, Plug(c.up, EraseRightTree(c, t));
      node := root.rb_node;
      done := true;
    }
  }

  /** Restores the red-black rules when every path through `node` has lost a black node. */
  method EraseColor(n: RbNode?, p: RbNode?, root: RbRoot, ghost c0: NodeCtx, ghost t0: NodeTree)
    requires At(c0, t0, root) && n == Item(t0) && p == Above(c0) && CtxSiblings(c0)
    modifies root, All(c0, t0)`rb_left, All(c0, t0)`rb_right, All(c0, t0)`rb_parent, All(c0, t0)`rb_color
    ensures At(Top, EraseFix(c0, t0), root) && All(Top, EraseFix(c0, t0)) == All(c0, t0)
  {
    hide At, Nodes, CtxNodes, Plug;
    var node, parent := n, p;
    ghost var c, t := c0, t0;
    var done := false;
    RootItem(c, t, root);
    if t.Node? { Parent(c, t, root); }
    while !done && BlackNode(node) && node != root.rb_node
      invariant At(c, t, root) && All(c, t) == All(c0, t0) && node == Item(t)
      invariant t.Node? ==> node.rb_color == t.color
      invariant !c.Top? ==> root.rb_node != Item(t)
      invariant c.Top? ==> root.rb_node == Item(t)
      invariant !done ==> parent == Above(c) && CtxSiblings(c) && EraseFix(c, t) == EraseFix(c0, t0)
      invariant done ==> c.Top? && Blacken(t) == EraseFix(c0, t0)
      decreases !done, if IsRed(t) then 0 else Depth(c) + 1
    {
      FocusUp(c, t, root);
      Parent(c.up, Up(c, t), root);
      if parent.rb_left == node {
        done, node, parent, c, t := FixLeft(node, parent, root, c, t);
      } else {
        done, node, parent, c, t := FixRight(node, parent, root, c, t);
      }
      RootItem(c, t, root);
      if t.Node? { Parent(c, t, root); }
    }
    if !done { EraseFixEnd(c, t); } else { PlugTop(Blacken(t)); }
    if node != null {
      Parent(c, t, root);
      Paint(node, Black, root, c, t);
    }
    RootItem(c, Blacken(t), root);
  }

  /** Puts the only child of a node in the node's place. */
  method Splice(node: RbNode, child: RbNode?, parent: RbNode?, root: RbRoot, ghost c: NodeCtx, ghost t: NodeTree,
                ghost ch: NodeTree)
    requires At(c, t, root) && t.Node? && t.item == node && child == Item(ch) && parent == Above(c)
    requires if t.left.Nil? then ch == t.right else t.right.Nil? && ch == t.left
    modifies root, All(c, t)`rb_left, All(c, t)`rb_right, All(c, t)`rb_parent
    ensures At(c, ch, root) && All(c, ch) == All(c, t) - {node}
  {
    hide Rep, RepCtx, Separate, CtxSeparate, Nodes, CtxNodes;
    Open(t, node, Above(c));
    ItemIn(t.left);
    ItemIn(t.right);
    AboveIn(c);
    assert allocated(Nodes(ch)) && allocated(CtxNodes(c));
    SetParent(child, parent, ch, node);
    ReplaceChild(parent, node, child, root, c);
  }

  /** Takes the successor out of its place; its parent is the removed node, or links it on the left. */
  method UnlinkMin(gone: RbNode, node: RbNode, child: RbNode?, p: RbNode, root: RbRoot, ghost c: NodeCtx,
                   ghost t: NodeTree)
    returns (parent: RbNode)
    requires At(c, t, root) && t.Node? && t.item == node && t.left.Nil? && child == Item(t.right)
    requires !c.Top? && p == c.item && (p == gone <==> c.InRight?)
    modifies All(c, t)`rb_left, All(c, t)`rb_right, All(c, t)`rb_parent
    ensures At(c, t.right, root) && All(c, t.right) == All(c, t) - {node}
    ensures parent == if c.InRight? then node else c.item
  {
    hide Rep, RepCtx, Separate, CtxSeparate, Nodes, CtxNodes;
    parent := p;
    Open(t, node, Above(c));
    ItemIn(t.left);
    ItemIn(t.right);
    AboveIn(c);
    OpenCtx(c, node, root);
    assert allocated(Nodes(t.right)) && allocated(CtxNodes(c.up)) && allocated(Nodes(Sibling(c)));
    SetParent(child, parent, t.right, node);
    if parent == gone {
      parent.rb_right := child;
      parent := node;
    } else {
      parent.rb_left := child;
    }
    CloseCtx(c, child, root);
  }

  /** The children a node has been given learn who their parent is. */
  method Adopt(node: RbNode, ghost q: RbNode, ghost t: NodeTree)
    requires t.Node? && t.item == node && node.rb_color == t.color && Separate(t)
    requires Rep(t.left, node.rb_left, q) && Rep(t.right, node.rb_right, q)
    modifies Nodes(t.left)`rb_parent, Nodes(t.right)`rb_parent
    ensures Rep(t, node, node.rb_parent)
  {
    hide Rep;
    ItemIn(t.left);
    ItemIn(t.right);
    RepItem(t.left, node.rb_left, q);
    RepItem(t.right, node.rb_right, q);
    assert allocated(Nodes(t.left)) && allocated(Nodes(t.right));
    SetParent(node.rb_left, node, t.left, q);
    SetParent(node.rb_right, node, t.right, q);
    Close(t.left, node, t.color, t.right, node.rb_parent);
  }

  /** A node outside the tree takes over the links and the colour of one inside. */
  method TakePlace(gone: RbNode, node: RbNode, root: RbRoot, ghost c: NodeCtx, ghost t: NodeTree)
    requires At(c, t, root) && t.Node? && t.item == gone && node !in All(c, t)
    modifies root, (All(c, t) + {node})`rb_left, (All(c, t) + {node})`rb_right, (All(c, t) + {node})`rb_parent
    modifies node`rb_color
    ensures At(c, t.(item := node), root) && All(c, t.(item := node)) == All(c, t) - {gone} + {node}
  {
    hide Rep, RepCtx, Separate, CtxSeparate, Nodes, CtxNodes;
    ghost var t' := t.(item := node);
    Open(t, gone, Above(c));
    AboveIn(c);
    SameNodes(t, node);
    assert allocated(Nodes(t.left)) && allocated(Nodes(t.right)) && allocated(CtxNodes(c));
    node.rb_parent, node.rb_color := gone.rb_parent, gone.rb_color;
    node.rb_right := gone.rb_right;
    node.rb_left := gone.rb_left;
    ReplaceChild(gone.rb_parent, gone, node, root, c);
    Adopt(node, gone, t');
  }

  lemma SameNodes(t: NodeTree, node: RbNode)
    requires t.Node? && Separate(t) && node !in Nodes(t)
    ensures Separate(t.(item := node)) && Nodes(t.(item := node)) == Nodes(t) - {t.item} + {node}
  {}

  /** The leftmost node hangs where the walk started, or on the left of a node below. */
  lemma {:induction false} MinPosition(c: NodeCtx, c': NodeCtx, t: NodeTree)
    requires t.Node?
    ensures var m, m' := MinCtx(c, t), MinCtx(c', t);
      if t.left.Nil? then m == c && m' == c' else m.InLeft? && m.item in Nodes(t) && m'.InLeft? && m'.item == m.item
    decreases t
  {
    if t.left.Node? {
      MinPosition(InLeft(t.item, t.color, t.right, c), InLeft(t.item, t.color, t.right, c'), t.left);
      if t.left.left.Nil? { ItemIn(t); }
    }
  }

  /** The successor's parent is the removed node exactly when the walk took no left turn. */
  lemma SuccessorParent(c: NodeCtx, t: NodeTree, y: RbNode, root: RbRoot)
    requires At(c, t, root) && t.Node? && t.right.Node?
    ensures var f, f' := InRight(t.left, t.item, t.color, c), InRight(t.left, y, t.color, c);
      var m, m' := MinCtx(f, t.right), MinCtx(f', t.right);
      && !m.Top? && !m'.Top? && (m.item == t.item <==> m.InRight?)
      && (if m.InRight? then m'.item == y else m'.item == m.item)
  {
    hide RepCtx, CtxSeparate, CtxNodes;
    MinPosition(InRight(t.left, t.item, t.color, c), InRight(t.left, y, t.color, c), t.right);
  }

  /** Removes the node in focus. */
  method EraseNode(n: RbNode, root: RbRoot, ghost c: NodeCtx, ghost t: NodeTree)
    requires At(c, t, root) && t.Node? && t.item == n && RedBlack(Plug(c, t))
    modifies root, All(c, t)`rb_left, All(c, t)`rb_right, All(c, t)`rb_parent, All(c, t)`rb_color
    ensures At(Top, Erase(c, t), root) && Nodes(Erase(c, t)) == All(c, t) - {n}
  {
    hide At, Nodes, CtxNodes, Plug, EraseFix, Balanced, NoRedRed, BlackHeight, MinCtx, Min;
    Parent(c, t, root);
    if n.rb_left == null {
      EraseSingle(n, n.rb_right, root, c, t, t.right);
    } else if n.rb_right == null {
      EraseSingle(n, n.rb_left, root, c, t, t.left);
    } else {
      EraseDouble(n, root, c, t);
    }
  }

  /** At most one child. */
  method EraseSingle(node: RbNode, child: RbNode?, root: RbRoot, ghost c: NodeCtx, ghost t: NodeTree,
                     ghost ch: NodeTree)
    requires At(c, t, root) && t.Node? && t.item == node && RedBlack(Plug(c, t)) && child == Item(ch)
    requires if t.left.Nil? then ch == t.right else t.right.Nil? && ch == t.left
    modifies root, All(c, t)`rb_left, All(c, t)`rb_right, All(c, t)`rb_parent, All(c, t)`rb_color
    ensures At(Top, Erase(c, t), root) && Nodes(Erase(c, t)) == All(c, t) - {node}
  {
    hide At, Nodes, CtxNodes, Plug, Removable, EraseAt, RedBlack;
    Parent(c, t, root);
    RemovableAt(c, t);
    var parent := node.rb_parent;
    var color := node.rb_color;
    Splice(node, child, parent, root, c, t, ch);
    Recolor(child, parent, color, root, c, ch);
  }

  /** The fix-up is needed when the removed node was black. */
  method Recolor(child: RbNode?, parent: RbNode?, color: Color, root: RbRoot, ghost c: NodeCtx, ghost ch: NodeTree)
    requires At(c, ch, root) && child == Item(ch) && parent == Above(c) && Removable(c, color, ch)
    modifies root, All(c, ch)`rb_left, All(c, ch)`rb_right, All(c, ch)`rb_parent, All(c, ch)`rb_color
    ensures At(Top, EraseAt(c, color, ch), root) && Nodes(EraseAt(c, color, ch)) == All(c, ch)
  {
    hide At, Nodes, EraseFix, Plug, Balanced, NoRedRed;
    if color == Black {
      SiblingsExist(c, BlackHeight(ch) + 1);
      EraseColor(child, parent, root, c, ch);
    } else {
      FocusRoot(c, ch, root);
    }
  }

  /** Two children: the successor takes the node's place, and the successor's own place is closed. */
  method EraseDouble(gone: RbNode, root: RbRoot, ghost c: NodeCtx, ghost t: NodeTree)
    requires At(c, t, root) && t.Node? && t.item == gone && RedBlack(Plug(c, t)) && t.left.Node? && t.right.Node?
    modifies root, All(c, t)`rb_left, All(c, t)`rb_right, All(c, t)`rb_parent, All(c, t)`rb_color
    ensures At(Top, Erase(c, t), root) && Nodes(Erase(c, t)) == All(c, t) - {gone}
  {
    hide At, Nodes, CtxNodes, Plug, Removable, EraseAt, RedBlack, RemoveMin;
    Parent(c, t, root);
    SuccessorParent(c, t, Min(t.right).item, root);
    ghost var f := InRight(t.left, gone, t.color, c);
    ghost var cm, tm := f, t.right;
    FocusUp(cm, tm, root);
    Parent(cm, tm, root);
    var node := gone.rb_right;
    while node.rb_left != null
      invariant At(cm, tm, root) && tm.Node? && tm.item == node && All(cm, tm) == All(c, t)
      invariant node.rb_left == Item(tm.left)
      invariant MinCtx(cm, tm) == MinCtx(f, t.right) && Min(tm) == Min(t.right)
      decreases tm
    {
      cm, tm := InLeft(tm.item, tm.color, tm.right, cm), tm.left;
      FocusUp(cm, tm, root);
      Parent(cm, tm, root);
      node := node.rb_left;
    }
    Parent(cm, tm, root);
    var child := node.rb_right;
    var color := node.rb_color;
    MinEnd(cm, tm);
    var parent := UnlinkMin(gone, node, child, node.rb_parent, root, cm, tm);
    ghost var ch := tm.right;
    ghost var rest := RemoveMin(t.right);
    RemoveMinPlug(f, t.right);
    Refocus(cm, ch, f, rest, root);
    FocusUp(f, rest, root);
    TakePlace(gone, node, root, c, Up(f, rest));
    ghost var f' := InRight(t.left, node, t.color, c);
    FocusUp(f', rest, root);
    RemoveMinPlug(f', t.right);
    ghost var cm' := MinCtx(f', t.right);
    Refocus(f', rest, cm', ch, root);
    SuccessorPosition(c, t);
    Recolor(child, parent, color, root, cm', ch);
  }

  /** The position of a node of the tree. */
  lemma {:induction false} Locate(c: NodeCtx, t: NodeTree, n: RbNode) returns (c': NodeCtx, t': NodeTree)
    requires n in Nodes(t)
    ensures Plug(c', t') == Plug(c, t) && t'.Node? && t'.item == n
    decreases t
  {
    if n == t.item {
      c', t' := c, t;
    } else if n in Nodes(t.left) {
      c', t' := Locate(InLeft(t.item, t.color, t.right, c), t.left, n);
    } else {
      c', t' := Locate(InRight(t.left, t.item, t.color, c), t.right, n);
    }
  }

  /** rb_erase, for every node of every red-black tree: exactly that node leaves the order. */
  method RbErase(n: RbNode, root: RbRoot, ghost t: NodeTree) returns (ghost t': NodeTree, ghost i: nat)
    requires At(Top, t, root) && RedBlack(t) && n in Nodes(t)
    modifies root, Nodes(t)`rb_left, Nodes(t)`rb_right, Nodes(t)`rb_parent, Nodes(t)`rb_color
    ensures At(Top, t', root) && RedBlack(t') && Nodes(t') == Nodes(t) - {n}
    ensures i < |Inorder(t)| && Inorder(t)[i] == n && Inorder(t') == Inorder(t)[..i] + Inorder(t)[i + 1..]
  {
    hide At, Nodes, CtxNodes, Plug, Erase, Inorder, RedBlack;
    PlugTop(t);
    ghost var c, s := Locate(Top, t, n);
    Refocus(Top, t, c, s, root);
    TopCtx(null, root);
    EraseNode(n, root, c, s);
    t' := Erase(c, s);
    EraseCorrect(c, s);
    i := |Before(c) + Inorder(s.left)|;
  }
}
