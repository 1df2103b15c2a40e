/**
  Red-black trees as values: what rbtree.c does to the shape and the colours, and why the
  tree stays ordered and balanced.  A position in a tree is a context (the path back to the
  root) together with the subtree that hangs there.
 */
module RbSpec {

  datatype Color = Red | Black

  datatype Tree<T> = Nil | Node(left: Tree<T>, item: T, color: Color, right: Tree<T>)

  /** The surroundings of a subtree; InLeft means that it is the left child of `item`. */
  datatype Ctx<T> =
    | Top
    | InLeft(item: T, color: Color, right: Tree<T>, up: Ctx<T>)
    | InRight(left: Tree<T>, item: T, color: Color, up: Ctx<T>)

  function Up<T>(c: Ctx<T>, t: Tree<T>): Tree<T>
    requires !c.Top?
  {
    if c.InLeft? then Node(t, c.item, c.color, c.right) else Node(c.left, c.item, c.color, t)
  }

  /** The whole tree. */
  function Plug<T>(c: Ctx<T>, t: Tree<T>): Tree<T>
    decreases c
  {
    if c.Top? then t else Plug(c.up, Up(c, t))
  }

  function Inorder<T>(t: Tree<T>): seq<T> {
    if t.Nil? then [] else Inorder(t.left) + [t.item] + Inorder(t.right)
  }

  function Before<T>(c: Ctx<T>): seq<T> {
    match c
    case Top => []
    case InLeft(_, _, _, up) => Before(up)
    case InRight(l, x, _, up) => Before(up) + Inorder(l) + [x]
  }

  function After<T>(c: Ctx<T>): seq<T> {
    match c
    case Top => []
    case InLeft(x, _, r, up) => [x] + Inorder(r) + After(up)
    case InRight(_, _, _, up) => After(up)
  }

  lemma CatAssoc<T>(a: seq<T>, b: seq<T>, c: seq<T>)
    ensures (a + b) + c == a + (b + c)
  {}

  lemma {:induction false} PlugInorder<T>(c: Ctx<T>, t: Tree<T>)
    ensures Inorder(Plug(c, t)) == Before(c) + Inorder(t) + After(c)
    decreases c
  {
    if c.Top? {
      CatAssoc([], Inorder(t), []);
    } else {
      PlugInorder(c.up, Up(c, t));
      var b, m, a := Before(c.up), Inorder(t), After(c.up);
      if c.InLeft? {
        var r := [c.item] + Inorder(c.right);
        CatAssoc(m, [c.item], Inorder(c.right));
        CatAssoc(b, m, r);
        CatAssoc(b + m, r, a);
      } else {
        var l := Inorder(c.left) + [c.item];
        CatAssoc(b, Inorder(c.left), [c.item]);
        CatAssoc(b, l, m);
      }
    }
  }

  /** Subtrees with the same order are interchangeable as far as the order goes. */
  lemma SameOrder<T>(c: Ctx<T>, t: Tree<T>, t': Tree<T>)
    requires Inorder(t) == Inorder(t')
    ensures Inorder(Plug(c, t)) == Inorder(Plug(c, t'))
  {
    PlugInorder(c, t);
    PlugInorder(c, t');
  }

  /** Rotating does not change the order. */
  lemma Rotation<T>(a: Tree<T>, x: T, cx: Color, b: Tree<T>, y: T, cy: Color, d: Tree<T>, cx': Color, cy': Color)
    ensures Inorder(Node(Node(a, x, cx, b), y, cy, d)) == Inorder(Node(a, x, cx', Node(b, y, cy', d)))
  {
    assert (Inorder(a) + [x] + Inorder(b)) + [y] + Inorder(d) == Inorder(a) + [x] + (Inorder(b) + [y] + Inorder(d));
  }

  // ----- the red-black rules -----

  predicate IsRed<T>(t: Tree<T>) {
    t.Node? && t.color == Red
  }

  function Count(c: Color): nat { if c == Black then 1 else 0 }

  /** Black nodes on the leftmost path; the same on every path when the tree is balanced. */
  function BlackHeight<T>(t: Tree<T>): nat {
    if t.Nil? then 0 else BlackHeight(t.left) + Count(t.color)
  }

  predicate Balanced<T>(t: Tree<T>) {
    t.Node? ==> Balanced(t.left) && Balanced(t.right) && BlackHeight(t.left) == BlackHeight(t.right)
  }

  predicate NoRedRed<T>(t: Tree<T>) {
    t.Node? ==> NoRedRed(t.left) && NoRedRed(t.right) && (t.color == Red ==> !IsRed(t.left) && !IsRed(t.right))
  }

  predicate RedBlack<T>(t: Tree<T>) {
    Balanced(t) && NoRedRed(t) && !IsRed(t)
  }

  /** The number of nodes on the longest way down. */
  function Depth<T>(t: Tree<T>): nat {
    if t.Nil? then 0 else 1 + if Depth(t.left) > Depth(t.right) then Depth(t.left) else Depth(t.right)
  }

  function Pow2(n: nat): nat { if n == 0 then 1 else 2 * Pow2(n - 1) }

  lemma {:induction false} BlackBounds<T>(t: Tree<T>)
    requires Balanced(t) && NoRedRed(t)
    ensures Depth(t) <= 2 * BlackHeight(t) + (if IsRed(t) then 1 else 0)
    ensures Pow2(BlackHeight(t)) <= |Inorder(t)| + 1
  {
    if t.Node? {
      BlackBounds(t.left);
      BlackBounds(t.right);
    }
  }

  lemma {:induction false} Pow2Mono(m: nat, n: nat)
    requires m <= n
    ensures Pow2(m) <= Pow2(n)
    decreases n - m
  {
    if m < n { Pow2Mono(m + 1, n); }
  }

  /** What the rules are for: no way down is longer than twice the logarithm of the number of items. */
  lemma RedBlackShallow<T>(t: Tree<T>)
    requires RedBlack(t)
    ensures Pow2((Depth(t) + 1) / 2) <= |Inorder(t)| + 1
  {
    BlackBounds(t);
    Pow2Mono((Depth(t) + 1) / 2, BlackHeight(t));
  }

  predicate RedAbove<T>(c: Ctx<T>) {
    !c.Top? && c.color == Red
  }

  function Sibling<T>(c: Ctx<T>): Tree<T>
    requires !c.Top?
  {
    if c.InLeft? then c.right else c.left
  }

  /** The surroundings are balanced for a subtree of black height h. */
  predicate CtxBalanced<T>(c: Ctx<T>, h: nat) {
    !c.Top? ==> Balanced(Sibling(c)) && BlackHeight(Sibling(c)) == h && CtxBalanced(c.up, h + Count(c.color))
  }

  predicate CtxNoRedRed<T>(c: Ctx<T>) {
    !c.Top? ==> NoRedRed(Sibling(c)) && (c.color == Red ==> !IsRed(Sibling(c)) && !RedAbove(c.up)) && CtxNoRedRed(c.up)
  }

  /** The root is black, unless the subtree itself is the root. */
  predicate RootBlack<T>(c: Ctx<T>) {
    !c.Top? ==> (c.up.Top? ==> c.color == Black) && RootBlack(c.up)
  }

  lemma {:induction false} PlugRedBlack<T>(c: Ctx<T>, t: Tree<T>)
    requires Balanced(t) && NoRedRed(t) && CtxBalanced(c, BlackHeight(t)) && CtxNoRedRed(c) && RootBlack(c)
    requires IsRed(t) ==> !c.Top? && !RedAbove(c)
    ensures RedBlack(Plug(c, t))
    decreases c
  {
    if !c.Top? {
      PlugRedBlack(c.up, Up(c, t));
    }
  }

  /** Every position of a red-black tree has red-black surroundings. */
  lemma {:induction false} UnplugRedBlack<T>(c: Ctx<T>, t: Tree<T>)
    requires RedBlack(Plug(c, t))
    ensures Balanced(t) && NoRedRed(t) && CtxBalanced(c, BlackHeight(t)) && CtxNoRedRed(c) && RootBlack(c)
    ensures IsRed(t) ==> !c.Top? && !RedAbove(c)
    decreases c
  {
    if !c.Top? {
      UnplugRedBlack(c.up, Up(c, t));
    }
  }

  function Blacken<T>(t: Tree<T>): Tree<T> {
    if t.Nil? then t else t.(color := Black)
  }

  lemma {:induction false} PlugNode<T>(c: Ctx<T>, t: Tree<T>)
    requires t.Node? || !c.Top?
    ensures Plug(c, t).Node?
    decreases c
  {
    if !c.Top? { PlugNode(c.up, Up(c, t)); }
  }

  // ----- insertion -----

  /**
    The fix-up after inserting the red root of t: a red uncle passes the red upwards, a
    black one ends with one or two rotations.
   */
  function InsertFix<T>(c: Ctx<T>, t: Tree<T>): Tree<T>
    requires t.Node? && RootBlack(c)
    decreases c
  {
    if !RedAbove(c) then Blacken(Plug(c, t))
    else
      var g := c.up;
      var uncle := Sibling(g);
      if IsRed(uncle) then
        assert RootBlack(g);
        InsertFix(g.up, PassRed(c, t))
      else
        Blacken(Plug(g.up, InsertRotate(c, t)))
  }

  /** Parent and uncle turn black, the grandparent turns red. */
  function PassRed<T>(c: Ctx<T>, t: Tree<T>): (g: Tree<T>)
    requires !c.Top? && !c.up.Top?
    ensures g.Node? && g.item == c.up.item
  {
    var p := Blacken(Up(c, t));
    if c.up.InLeft? then Node(p, c.up.item, Red, Blacken(c.up.right)) else Node(Blacken(c.up.left), c.up.item, Red, p)
  }

  /** The rotations that end an insertion: the grandparent's subtree afterwards. */
  function InsertRotate<T>(c: Ctx<T>, t: Tree<T>): Tree<T>
    requires t.Node? && !c.Top? && !c.up.Top?
  {
    var g := c.up;
    if g.InLeft? then
      if c.InLeft? then
        Node(t, c.item, Black, Node(c.right, g.item, Red, g.right))
      else
        Node(Node(c.left, c.item, c.color, t.left), t.item, Black, Node(t.right, g.item, Red, g.right))
    else
      if c.InRight? then
        Node(Node(g.left, g.item, Red, c.left), c.item, Black, t)
      else
        Node(Node(g.left, g.item, Red, t.left), t.item, Black, Node(t.right, c.item, c.color, c.right))
  }

  lemma BlackenInorder<T>(t: Tree<T>)
    ensures Inorder(Blacken(t)) == Inorder(t)
  {}

  lemma PassRedInorder<T>(c: Ctx<T>, t: Tree<T>)
    requires !c.Top? && !c.up.Top?
    ensures Inorder(PassRed(c, t)) == Inorder(Up(c.up, Up(c, t)))
  {
    BlackenInorder(Up(c, t));
    BlackenInorder(Sibling(c.up));
  }

  lemma InsertRotateInorder<T>(c: Ctx<T>, t: Tree<T>)
    requires t.Node? && !c.Top? && !c.up.Top?
    ensures Inorder(InsertRotate(c, t)) == Inorder(Up(c.up, Up(c, t)))
  {
    var g := c.up;
    if g.InLeft? {
      if c.InLeft? {
        Rotation(t, c.item, c.color, c.right, g.item, g.color, g.right, Black, Red);
      } else {
        var ll := Inorder(c.left);
        Rotation(c.left, c.item, c.color, t.left, t.item, t.color, t.right, c.color, t.color);
        Rotation(Node(c.left, c.item, c.color, t.left), t.item, t.color, t.right, g.item, g.color, g.right, Black, Red);
      }
    } else {
      if c.InRight? {
        Rotation(g.left, g.item, Red, c.left, c.item, Black, t, g.color, c.color);
      } else {
        Rotation(t.left, t.item, t.color, t.right, c.item, c.color, c.right, t.color, c.color);
        Rotation(g.left, g.item, Red, t.left, t.item, Black, Node(t.right, c.item, c.color, c.right), g.color, t.color);
      }
    }
  }

  /** Fixing up never changes the order. */
  lemma {:induction false} InsertFixInorder<T>(c: Ctx<T>, t: Tree<T>)
    requires t.Node? && RootBlack(c)
    ensures Inorder(InsertFix(c, t)) == Inorder(Plug(c, t))
    decreases c
  {
    hide Inorder, InsertRotate, PassRed;
    if !RedAbove(c) {
      BlackenInorder(Plug(c, t));
    } else {
      var g := c.up;
      var whole := Up(g, Up(c, t));
      assert Plug(c, t) == Plug(g, Up(c, t)) == Plug(g.up, whole);
      if IsRed(Sibling(g)) {
        PassRedInorder(c, t);
        assert RootBlack(g);
        InsertFixInorder(g.up, PassRed(c, t));
        SameOrder(g.up, PassRed(c, t), whole);
      } else {
        InsertRotateInorder(c, t);
        SameOrder(g.up, InsertRotate(c, t), whole);
        BlackenInorder(Plug(g.up, InsertRotate(c, t)));
      }
    }
  }

  /** The fix-up restores the red-black rules. */
  lemma {:induction false} InsertFixRedBlack<T>(c: Ctx<T>, t: Tree<T>)
    requires t.Node? && t.color == Red && RootBlack(c)
    requires Balanced(t) && NoRedRed(t) && CtxBalanced(c, BlackHeight(t)) && CtxNoRedRed(c)
    ensures RedBlack(InsertFix(c, t))
    decreases c
  {
    if !RedAbove(c) {
      if !c.Top? { PlugRedBlack(c, t); }
    } else {
      var g := c.up;
      assert RootBlack(g) && CtxBalanced(g, BlackHeight(t)) && CtxNoRedRed(g);
      if IsRed(Sibling(g)) {
        InsertFixRedBlack(g.up, PassRed(c, t));
      } else {
        PlugRedBlack(g.up, InsertRotate(c, t));
      }
    }
  }

  // ----- removal -----

  /**
    The fix-up when every path through t has lost a black node: a red subtree is blackened,
    otherwise the sibling's side gives a black node away.
   */
  function EraseFix<T>(c: Ctx<T>, t: Tree<T>): Tree<T>
    requires CtxSiblings(c)
    decreases c
  {
    if IsRed(t) then Plug(c, Blacken(t))
    else if c.Top? then t
    else if c.InLeft? then
      if IsRed(c.right) then
        EraseLeft(RedSiblingLeft(c), t)
      else if !IsRed(c.right.left) && !IsRed(c.right.right) && c.color == Black then
        EraseFix(c.up, Node(t, c.item, Black, c.right.(color := Red)))
      else
        EraseLeft(c, t)
    else
      if IsRed(c.left) then
        EraseRight(RedSiblingRight(c), t)
      else if !IsRed(c.left.left) && !IsRed(c.left.right) && c.color == Black then
        EraseFix(c.up, Node(c.left.(color := Red), c.item, Black, t))
      else
        EraseRight(c, t)
  }

  /** Wherever the fix-up looks, there is a sibling, and a red sibling has black children. */
  predicate CtxSiblings<T>(c: Ctx<T>) {
    !c.Top? ==>
      var o := Sibling(c);
      && o.Node? && CtxSiblings(c.up)
      && (o.color == Red ==> o.left.Node? && o.right.Node? && !IsRed(o.left) && !IsRed(o.right))
  }

  /** A red sibling moves up and the parent turns red; the new sibling is black. */
  function RedSiblingLeft<T>(c: Ctx<T>): Ctx<T>
    requires c.InLeft? && c.right.Node?
  {
    InLeft(c.item, Red, c.right.left, InLeft(c.right.item, Black, c.right.right, c.up))
  }

  function RedSiblingRight<T>(c: Ctx<T>): Ctx<T>
    requires c.InRight? && c.left.Node?
  {
    InRight(c.left.right, c.item, Red, InRight(c.left.left, c.left.item, Black, c.up))
  }

  /** The subtree at the parent's place after the final left-hand case. */
  function EraseLeftTree<T>(c: Ctx<T>, t: Tree<T>): Tree<T>
    requires c.InLeft? && c.right.Node?
  {
    var o := c.right;
    if !IsRed(o.left) && !IsRed(o.right) then
      Node(t, c.item, Black, o.(color := Red))
    else if !IsRed(o.right) then
      Node(Node(t, c.item, Black, o.left.left), o.left.item, c.color, Node(o.left.right, o.item, Black, o.right))
    else
      Node(Node(t, c.item, Black, o.left), o.item, c.color, Blacken(o.right))
  }

  function EraseRightTree<T>(c: Ctx<T>, t: Tree<T>): Tree<T>
    requires c.InRight? && c.left.Node?
  {
    var o := c.left;
    if !IsRed(o.left) && !IsRed(o.right) then
      Node(o.(color := Red), c.item, Black, t)
    else if !IsRed(o.left) then
      Node(Node(o.left, o.item, Black, o.right.left), o.right.item, c.color, Node(o.right.right, c.item, Black, t))
    else
      Node(Blacken(o.left), o.item, c.color, Node(o.right, c.item, Black, t))
  }

  /** The cases that end the loop; after a rotation the root is blackened. */
  function EraseLeft<T>(c: Ctx<T>, t: Tree<T>): Tree<T>
    requires c.InLeft? && c.right.Node?
  {
    var w := Plug(c.up, EraseLeftTree(c, t));
    if IsRed(c.right.left) || IsRed(c.right.right) then Blacken(w) else w
  }

  function EraseRight<T>(c: Ctx<T>, t: Tree<T>): Tree<T>
    requires c.InRight? && c.left.Node?
  {
    var w := Plug(c.up, EraseRightTree(c, t));
    if IsRed(c.left.left) || IsRed(c.left.right) then Blacken(w) else w
  }

  lemma EraseLeftTreeInorder<T>(c: Ctx<T>, t: Tree<T>)
    requires c.InLeft? && c.right.Node?
    ensures Inorder(EraseLeftTree(c, t)) == Inorder(Node(t, c.item, c.color, c.right))
  {
    var o := c.right;
    if !IsRed(o.left) && !IsRed(o.right) {
      RedRight(t, c.item, o);
    } else if !IsRed(o.right) {
      var o' := Node(o.left.left, o.left.item, Black, Node(o.left.right, o.item, Black, o.right));
      Rotation(o.left.left, o.left.item, o.left.color, o.left.right, o.item, o.color, o.right, Black, Black);
      Rotation(t, c.item, Black, o.left.left, o.left.item, c.color, o'.right, c.color, Black);
      assert Inorder(Node(t, c.item, c.color, o')) == Inorder(Node(t, c.item, c.color, o));
    } else {
      BlackenInorder(o.right);
      Rotation(t, c.item, Black, o.left, o.item, c.color, o.right, c.color, o.color);
      assert Inorder(EraseLeftTree(c, t)) == Inorder(Node(Node(t, c.item, Black, o.left), o.item, c.color, o.right));
    }
  }

  lemma EraseRightTreeInorder<T>(c: Ctx<T>, t: Tree<T>)
    requires c.InRight? && c.left.Node?
    ensures Inorder(EraseRightTree(c, t)) == Inorder(Node(c.left, c.item, c.color, t))
  {
    var o := c.left;
    if !IsRed(o.left) && !IsRed(o.right) {
      RedRight(t, c.item, o);
    } else if !IsRed(o.left) {
      var o' := Node(Node(o.left, o.item, Black, o.right.left), o.right.item, Black, o.right.right);
      Rotation(o.left, o.item, Black, o.right.left, o.right.item, Black, o.right.right, o.color, o.right.color);
      Rotation(o'.left, o.right.item, Black, o.right.right, c.item, c.color, t, c.color, Black);
      assert Inorder(Node(o', c.item, c.color, t)) == Inorder(Node(o, c.item, c.color, t));
    } else {
      BlackenInorder(o.left);
      Rotation(o.left, o.item, o.color, o.right, c.item, c.color, t, c.color, Black);
      assert Inorder(EraseRightTree(c, t)) == Inorder(Node(o.left, o.item, c.color, Node(o.right, c.item, Black, t)));
    }
  }

  lemma EraseLeftInorder<T>(c: Ctx<T>, t: Tree<T>)
    requires c.InLeft? && c.right.Node?
    ensures Inorder(EraseLeft(c, t)) == Inorder(Plug(c, t))
  {
    hide Inorder, EraseLeftTree;
    EraseLeftTreeInorder(c, t);
    SameOrder(c.up, EraseLeftTree(c, t), Up(c, t));
    BlackenInorder(Plug(c.up, EraseLeftTree(c, t)));
  }

  lemma EraseRightInorder<T>(c: Ctx<T>, t: Tree<T>)
    requires c.InRight? && c.left.Node?
    ensures Inorder(EraseRight(c, t)) == Inorder(Plug(c, t))
  {
    hide Inorder, EraseRightTree;
    EraseRightTreeInorder(c, t);
    SameOrder(c.up, EraseRightTree(c, t), Up(c, t));
    BlackenInorder(Plug(c.up, EraseRightTree(c, t)));
  }

  lemma {:induction false} EraseFixInorder<T>(c: Ctx<T>, t: Tree<T>)
    requires CtxSiblings(c)
    ensures Inorder(EraseFix(c, t)) == Inorder(Plug(c, t))
    decreases c
  {
    hide Inorder, EraseLeft, EraseRight;
    if IsRed(t) {
      BlackenInorder(t);
      SameOrder(c, Blacken(t), t);
    } else if c.Top? {
    } else if c.InLeft? {
      var o := c.right;
      if IsRed(o) {
        EraseLeftInorder(RedSiblingLeft(c), t);
        RedSiblingLeftInorder(c, t);
      } else if !IsRed(o.left) && !IsRed(o.right) && c.color == Black {
        var p := Node(t, c.item, Black, o.(color := Red));
        EraseFixInorder(c.up, p);
        RedRight(t, c.item, o);
        SameOrder(c.up, p, Up(c, t));
      } else {
        EraseLeftInorder(c, t);
      }
    } else {
      var o := c.left;
      if IsRed(o) {
        EraseRightInorder(RedSiblingRight(c), t);
        RedSiblingRightInorder(c, t);
      } else if !IsRed(o.left) && !IsRed(o.right) && c.color == Black {
        var p := Node(o.(color := Red), c.item, Black, t);
        EraseFixInorder(c.up, p);
        RedRight(t, c.item, o);
        SameOrder(c.up, p, Up(c, t));
      } else {
        EraseRightInorder(c, t);
      }
    }
  }

  lemma RedRight<T>(t: Tree<T>, x: T, o: Tree<T>)
    requires o.Node?
    ensures Inorder(Node(t, x, Black, o.(color := Red))) == Inorder(Node(t, x, Black, o))
    ensures Inorder(Node(o.(color := Red), x, Black, t)) == Inorder(Node(o, x, Black, t))
  {}

  lemma RedSiblingLeftInorder<T>(c: Ctx<T>, t: Tree<T>)
    requires c.InLeft? && c.right.Node?
    ensures Inorder(Plug(RedSiblingLeft(c), t)) == Inorder(Plug(c, t))
  {
    var o := c.right;
    var c' := RedSiblingLeft(c);
    Rotation(t, c.item, Red, o.left, o.item, Black, o.right, c.color, o.color);
    SameOrder(c.up, Up(c'.up, Up(c', t)), Up(c, t));
  }

  lemma RedSiblingRightInorder<T>(c: Ctx<T>, t: Tree<T>)
    requires c.InRight? && c.left.Node?
    ensures Inorder(Plug(RedSiblingRight(c), t)) == Inorder(Plug(c, t))
  {
    var o := c.left;
    var c' := RedSiblingRight(c);
    Rotation(o.left, o.item, o.color, o.right, c.item, c.color, t, Black, Red);
    SameOrder(c.up, Up(c'.up, Up(c', t)), Up(c, t));
  }

  /** What the rules say about a subtree's children. */
  lemma Children<T>(t: Tree<T>)
    requires t.Node? && Balanced(t) && NoRedRed(t)
    ensures Balanced(t.left) && NoRedRed(t.left) && Balanced(t.right) && NoRedRed(t.right)
    ensures BlackHeight(t.left) == BlackHeight(t.right) && BlackHeight(t) == BlackHeight(t.left) + Count(t.color)
    ensures t.color == Red ==> !IsRed(t.left) && !IsRed(t.right)
  {}

  /** The rules for a subtree of black height h, which may be red only below a black parent. */
  predicate Fits<T>(t: Tree<T>, h: nat, color: Color) {
    Balanced(t) && NoRedRed(t) && BlackHeight(t) == h && (IsRed(t) ==> color == Red)
  }

  /** A node on top of two subtrees of the same black height. */
  lemma MakeNode<T>(l: Tree<T>, x: T, color: Color, r: Tree<T>)
    requires Balanced(l) && NoRedRed(l) && Balanced(r) && NoRedRed(r) && BlackHeight(l) == BlackHeight(r)
    requires color == Red ==> !IsRed(l) && !IsRed(r)
    ensures var t := Node(l, x, color, r);
      Balanced(t) && NoRedRed(t) && BlackHeight(t) == BlackHeight(l) + Count(color)
  {}

  lemma BlackenFits<T>(t: Tree<T>)
    requires Balanced(t) && NoRedRed(t)
    ensures Balanced(Blacken(t)) && NoRedRed(Blacken(t)) && !IsRed(Blacken(t))
    ensures BlackHeight(Blacken(t)) == BlackHeight(t) + (if IsRed(t) then 1 else 0)
  {}

  lemma EraseLeftTreeFits<T>(c: Ctx<T>, t: Tree<T>)
    requires c.InLeft? && c.right.Node? && !IsRed(c.right) && !IsRed(t)
    requires Balanced(t) && NoRedRed(t) && Balanced(c.right) && NoRedRed(c.right)
    requires BlackHeight(c.right) == BlackHeight(t) + 1
    requires IsRed(c.right.left) || IsRed(c.right.right) || c.color == Red
    ensures Fits(EraseLeftTree(c, t), BlackHeight(t) + 1 + Count(c.color), c.color)
  {
    hide Balanced, NoRedRed, BlackHeight, Blacken;
    var o := c.right;
    Children(o);
    if !IsRed(o.left) && !IsRed(o.right) {
      MakeNode(o.left, o.item, Red, o.right);
      MakeNode(t, c.item, Black, o.(color := Red));
    } else if !IsRed(o.right) {
      Children(o.left);
      MakeNode(t, c.item, Black, o.left.left);
      MakeNode(o.left.right, o.item, Black, o.right);
      MakeNode(Node(t, c.item, Black, o.left.left), o.left.item, c.color, Node(o.left.right, o.item, Black, o.right));
    } else {
      BlackenFits(o.right);
      MakeNode(t, c.item, Black, o.left);
      MakeNode(Node(t, c.item, Black, o.left), o.item, c.color, Blacken(o.right));
    }
  }

  lemma EraseRightTreeFits<T>(c: Ctx<T>, t: Tree<T>)
    requires c.InRight? && c.left.Node? && !IsRed(c.left) && !IsRed(t)
    requires Balanced(t) && NoRedRed(t) && Balanced(c.left) && NoRedRed(c.left)
    requires BlackHeight(c.left) == BlackHeight(t) + 1
    requires IsRed(c.left.left) || IsRed(c.left.right) || c.color == Red
    ensures Fits(EraseRightTree(c, t), BlackHeight(t) + 1 + Count(c.color), c.color)
  {
    hide Balanced, NoRedRed, BlackHeight, Blacken;
    var o := c.left;
    Children(o);
    if !IsRed(o.left) && !IsRed(o.right) {
      MakeNode(o.left, o.item, Red, o.right);
      MakeNode(o.(color := Red), c.item, Black, t);
    } else if !IsRed(o.left) {
      Children(o.right);
      MakeNode(o.left, o.item, Black, o.right.left);
      MakeNode(o.right.right, c.item, Black, t);
      MakeNode(Node(o.left, o.item, Black, o.right.left), o.right.item, c.color, Node(o.right.right, c.item, Black, t));
    } else {
      BlackenFits(o.left);
      MakeNode(o.right, c.item, Black, t);
      MakeNode(Blacken(o.left), o.item, c.color, Node(o.right, c.item, Black, t));
    }
  }

  lemma EraseLeftRedBlack<T>(c: Ctx<T>, t: Tree<T>)
    requires c.InLeft? && c.right.Node? && !IsRed(c.right) && !IsRed(t) && Short(c, t)
    requires IsRed(c.right.left) || IsRed(c.right.right) || c.color == Red
    ensures RedBlack(EraseLeft(c, t))
  {
    hide EraseLeftTree, Balanced, NoRedRed, BlackHeight;
    EraseLeftTreeFits(c, t);
    PlugRedBlack(c.up, EraseLeftTree(c, t));
    BlackenBlack(Plug(c.up, EraseLeftTree(c, t)));
  }

  lemma EraseRightRedBlack<T>(c: Ctx<T>, t: Tree<T>)
    requires c.InRight? && c.left.Node? && !IsRed(c.left) && !IsRed(t) && Short(c, t)
    requires IsRed(c.left.left) || IsRed(c.left.right) || c.color == Red
    ensures RedBlack(EraseRight(c, t))
  {
    hide EraseRightTree, Balanced, NoRedRed, BlackHeight;
    EraseRightTreeFits(c, t);
    PlugRedBlack(c.up, EraseRightTree(c, t));
    BlackenBlack(Plug(c.up, EraseRightTree(c, t)));
  }

  lemma BlackenBlack<T>(t: Tree<T>)
    ensures !IsRed(t) ==> Blacken(t) == t
  {}

  /** Black heights alone provide the siblings the fix-up relies on. */
  lemma {:induction false} SiblingsExist<T>(c: Ctx<T>, h: nat)
    requires h >= 1 && CtxBalanced(c, h) && CtxNoRedRed(c)
    ensures CtxSiblings(c)
    decreases c
  {
    if !c.Top? {
      SiblingsExist(c.up, h + Count(c.color));
    }
  }

  /** The surroundings of a subtree that is one black node short. */
  predicate Short<T>(c: Ctx<T>, t: Tree<T>) {
    RootBlack(c) && Balanced(t) && NoRedRed(t) && CtxBalanced(c, BlackHeight(t) + 1) && CtxNoRedRed(c)
  }

  lemma ShortSibling<T>(c: Ctx<T>, t: Tree<T>)
    requires Short(c, t) && !c.Top?
    ensures Balanced(Sibling(c)) && NoRedRed(Sibling(c)) && BlackHeight(Sibling(c)) == BlackHeight(t) + 1
  {}

  /** After a red sibling has moved up, the surroundings are as short as before. */
  lemma RedSiblingShort<T>(c: Ctx<T>, t: Tree<T>)
    requires Short(c, t) && !c.Top? && IsRed(Sibling(c)) && CtxSiblings(c)
    ensures var c' := if c.InLeft? then RedSiblingLeft(c) else RedSiblingRight(c);
      Short(c', t) && Sibling(c').Node? && !IsRed(Sibling(c')) && c'.color == Red
  {
    Children(Sibling(c));
  }

  /** With a black parent and black nephews the shortage moves up. */
  lemma ShortMovesUp<T>(c: Ctx<T>, t: Tree<T>, p: Tree<T>)
    requires Short(c, t) && !c.Top? && c.color == Black && !IsRed(t) && Sibling(c).Node? && !IsRed(Sibling(c))
    requires !IsRed(Sibling(c).left) && !IsRed(Sibling(c).right)
    requires var o := Sibling(c).(color := Red);
      p == if c.InLeft? then Node(t, c.item, Black, o) else Node(o, c.item, Black, t)
    ensures Short(c.up, p)
  {
    hide Balanced, NoRedRed, BlackHeight;
    ShortSibling(c, t);
    var o := Sibling(c);
    Children(o);
    MakeNode(o.left, o.item, Red, o.right);
    if c.InLeft? {
      MakeNode(t, c.item, Black, o.(color := Red));
    } else {
      MakeNode(o.(color := Red), c.item, Black, t);
    }
  }

  /** The fix-up restores the red-black rules when t is one black node short. */
  lemma {:induction false} EraseFixRedBlack<T>(c: Ctx<T>, t: Tree<T>)
    requires Short(c, t) && CtxSiblings(c)
    ensures RedBlack(EraseFix(c, t))
    decreases c
  {
    hide EraseLeft, EraseRight, Balanced, NoRedRed, BlackHeight;
    if IsRed(t) {
      BlackenFits(t);
      PlugRedBlack(c, Blacken(t));
    } else if !c.Top? {
      ShortSibling(c, t);
      var o := Sibling(c);
      if IsRed(o) {
        RedSiblingShort(c, t);
        if c.InLeft? { EraseLeftRedBlack(RedSiblingLeft(c), t); } else { EraseRightRedBlack(RedSiblingRight(c), t); }
      } else if !IsRed(o.left) && !IsRed(o.right) && c.color == Black {
        var p := if c.InLeft? then Node(t, c.item, Black, o.(color := Red))
                 else Node(o.(color := Red), c.item, Black, t);
        ShortMovesUp(c, t, p);
        EraseFixRedBlack(c.up, p);
      } else if c.InLeft? {
        EraseLeftRedBlack(c, t);
      } else {
        EraseRightRedBlack(c, t);
      }
    }
  }

  // ----- the fix-up one turn of the loop at a time -----

  /** What one turn does on the left: a red sibling is rotated away first, then the red moves up or the loop ends. */
  lemma EraseFixLeft<T>(c: Ctx<T>, t: Tree<T>)
    requires c.InLeft? && CtxSiblings(c) && !IsRed(t)
    ensures IsRed(c.right) ==> var c1 := RedSiblingLeft(c);
      CtxSiblings(c1) && !IsRed(c1.right) && EraseFix(c1, t) == EraseFix(c, t)
    ensures !IsRed(c.right) && !IsRed(c.right.left) && !IsRed(c.right.right) ==>
      EraseFix(c.up, Node(t, c.item, c.color, c.right.(color := Red))) == EraseFix(c, t)
    ensures !IsRed(c.right) && (IsRed(c.right.left) || IsRed(c.right.right)) ==>
      EraseFix(c, t) == Blacken(Plug(c.up, EraseLeftTree(c, t)))
  {
    hide Plug;
  }

  lemma EraseFixRight<T>(c: Ctx<T>, t: Tree<T>)
    requires c.InRight? && CtxSiblings(c) && !IsRed(t)
    ensures IsRed(c.left) ==> var c1 := RedSiblingRight(c);
      CtxSiblings(c1) && !IsRed(c1.left) && EraseFix(c1, t) == EraseFix(c, t)
    ensures !IsRed(c.left) && !IsRed(c.left.left) && !IsRed(c.left.right) ==>
      EraseFix(c.up, Node(c.left.(color := Red), c.item, c.color, t)) == EraseFix(c, t)
    ensures !IsRed(c.left) && (IsRed(c.left.left) || IsRed(c.left.right)) ==>
      EraseFix(c, t) == Blacken(Plug(c.up, EraseRightTree(c, t)))
  {
    hide Plug;
  }

  /** Where the loop stops: at a red subtree, or at the root. */
  lemma EraseFixEnd<T>(c: Ctx<T>, t: Tree<T>)
    requires CtxSiblings(c) && (IsRed(t) || c.Top?)
    ensures EraseFix(c, t) == Plug(c, Blacken(t))
  {}

  lemma PlugTop<T>(t: Tree<T>)
    ensures Plug(Top, t) == t
  {}

  // ----- taking a node out -----

  /** The position of the leftmost node below t. */
  function MinCtx<T>(c: Ctx<T>, t: Tree<T>): Ctx<T>
    requires t.Node?
    decreases t
  {
    if t.left.Nil? then c else MinCtx(InLeft(t.item, t.color, t.right, c), t.left)
  }

  function Min<T>(t: Tree<T>): (m: Tree<T>)
    requires t.Node?
    ensures m.Node? && m.left.Nil?
    decreases t
  {
    if t.left.Nil? then t else Min(t.left)
  }

  lemma {:induction false} MinPlug<T>(c: Ctx<T>, t: Tree<T>)
    requires t.Node?
    ensures Plug(MinCtx(c, t), Min(t)) == Plug(c, t)
    ensures Before(MinCtx(c, t)) == Before(c)
    decreases t
  {
    if t.left.Node? { MinPlug(InLeft(t.item, t.color, t.right, c), t.left); }
  }

  lemma MinEnd<T>(c: Ctx<T>, t: Tree<T>)
    requires t.Node? && t.left.Nil?
    ensures MinCtx(c, t) == c && Min(t) == t
  {}

  function RemoveMin<T>(t: Tree<T>): Tree<T>
    requires t.Node?
    decreases t
  {
    if t.left.Nil? then t.right else Node(RemoveMin(t.left), t.item, t.color, t.right)
  }

  /** Taking the leftmost node out, seen from the root of t and from its own position. */
  lemma {:induction false} RemoveMinPlug<T>(c: Ctx<T>, t: Tree<T>)
    requires t.Node?
    ensures Plug(MinCtx(c, t), Min(t).right) == Plug(c, RemoveMin(t))
    decreases t
  {
    if t.left.Node? { RemoveMinPlug(InLeft(t.item, t.color, t.right, c), t.left); }
  }

  /** Removing the node at the root of t: with two children, its successor takes its place and colour. */
  function Erase<T>(c: Ctx<T>, t: Tree<T>): Tree<T>
    requires t.Node? && RedBlack(Plug(c, t))
  {
    UnplugRedBlack(c, t);
    if t.left.Nil? then EraseAt(c, t.color, t.right)
    else if t.right.Nil? then EraseAt(c, t.color, t.left)
    else
      var y := Min(t.right);
      var c' := MinCtx(InRight(t.left, y.item, t.color, c), t.right);
      SuccessorPosition(c, t);
      EraseAt(c', y.color, y.right)
  }

  /** The subtree `child` has taken the place of a removed node of the given colour. */
  function EraseAt<T>(c: Ctx<T>, color: Color, child: Tree<T>): Tree<T>
    requires Removable(c, color, child)
  {
    if color == Black then
      SiblingsExist(c, BlackHeight(child) + 1);
      EraseFix(c, child)
    else Plug(c, child)
  }

  /** The surroundings of a removed node, and what is left of it. */
  predicate Removable<T>(c: Ctx<T>, color: Color, child: Tree<T>) {
    && RootBlack(c) && Balanced(child) && NoRedRed(child)
    && CtxBalanced(c, BlackHeight(child) + Count(color)) && CtxNoRedRed(c)
    && (color == Red ==> !IsRed(child) && !c.Top?)
  }

  lemma EraseAtRedBlack<T>(c: Ctx<T>, color: Color, child: Tree<T>)
    requires Removable(c, color, child)
    ensures RedBlack(EraseAt(c, color, child))
    ensures Inorder(EraseAt(c, color, child)) == Before(c) + Inorder(child) + After(c)
  {
    hide EraseFix;
    PlugInorder(c, child);
    if color == Black {
      SiblingsExist(c, BlackHeight(child) + 1);
      EraseFixRedBlack(c, child);
      EraseFixInorder(c, child);
    } else {
      PlugRedBlack(c, child);
    }
  }

  /** Swapping items does not affect the rules: the successor's position, with the successor moved up. */
  lemma SuccessorPosition<T>(c: Ctx<T>, t: Tree<T>)
    requires t.Node? && t.left.Node? && t.right.Node? && RedBlack(Plug(c, t))
    ensures var y := Min(t.right);
      Removable(MinCtx(InRight(t.left, y.item, t.color, c), t.right), y.color, y.right)
  {
    var y := Min(t.right);
    var f := InRight(t.left, y.item, t.color, c);
    UnplugRedBlack(c, t);
    SameRules(c, t.left, t.item, t.color, t.right, y.item);
    MinPlug(f, t.right);
    UnplugRedBlack(MinCtx(f, t.right), y);
    MinCtxNotTop(f, t.right);
  }

  lemma SameRules<T>(c: Ctx<T>, l: Tree<T>, x: T, color: Color, r: Tree<T>, y: T)
    requires RedBlack(Plug(c, Node(l, x, color, r)))
    ensures RedBlack(Plug(c, Node(l, y, color, r)))
  {
    hide Balanced, NoRedRed, BlackHeight, Plug;
    UnplugRedBlack(c, Node(l, x, color, r));
    Children(Node(l, x, color, r));
    MakeNode(l, x, color, r);
    MakeNode(l, y, color, r);
    PlugRedBlack(c, Node(l, y, color, r));
  }

  lemma {:induction false} MinCtxNotTop<T>(c: Ctx<T>, t: Tree<T>)
    requires t.Node? && !c.Top?
    ensures !MinCtx(c, t).Top?
    decreases t
  {
    if t.left.Node? { MinCtxNotTop(InLeft(t.item, t.color, t.right, c), t.left); }
  }

  lemma {:induction false} MinAfter<T>(c: Ctx<T>, t: Tree<T>)
    requires t.Node?
    ensures Inorder(t) == [Min(t).item] + Inorder(t)[1..]
    ensures Inorder(Min(t).right) + After(MinCtx(c, t)) == Inorder(t)[1..] + After(c)
    decreases t
  {
    if t.left.Node? {
      var c' := InLeft(t.item, t.color, t.right, c);
      MinAfter(c', t.left);
      var l, r := Inorder(t.left)[1..], [t.item] + Inorder(t.right);
      MinFirst(t, l);
      CatAssoc(l, r, After(c));
    } else {
      assert Inorder(t) == [t.item] + Inorder(t.right);
    }
  }

  lemma MinFirst<T>(t: Tree<T>, l: seq<T>)
    requires t.Node? && t.left.Node? && Inorder(t.left) == [Min(t).item] + l
    ensures Inorder(t) == [Min(t).item] + (l + ([t.item] + Inorder(t.right)))
  {
    var x, m, r := [Min(t).item], [t.item], Inorder(t.right);
    CatAssoc(x + l, m, r);
    CatAssoc(x, l, m + r);
  }

  lemma OrderAround<T>(c: Ctx<T>, t: Tree<T>)
    requires t.Node?
    ensures Inorder(Plug(c, t)) == (Before(c) + Inorder(t.left)) + [t.item] + (Inorder(t.right) + After(c))
  {
    hide Plug;
    PlugInorder(c, t);
  }

  lemma EraseChild<T>(c: Ctx<T>, t: Tree<T>)
    requires t.Node? && RedBlack(Plug(c, t)) && (t.left.Nil? || t.right.Nil?)
    ensures RedBlack(Erase(c, t))
    ensures Inorder(Erase(c, t)) == (Before(c) + Inorder(t.left)) + (Inorder(t.right) + After(c))
  {
    hide EraseAt, Plug, Removable, RedBlack;
    RemovableAt(c, t);
    EraseAtRedBlack(c, t.color, if t.left.Nil? then t.right else t.left);
  }

  /** Removal takes exactly the chosen item out of the order and keeps the red-black rules. */
  lemma EraseCorrect<T>(c: Ctx<T>, t: Tree<T>)
    requires t.Node? && RedBlack(Plug(c, t))
    ensures RedBlack(Erase(c, t))
    ensures Inorder(Plug(c, t)) == (Before(c) + Inorder(t.left)) + [t.item] + (Inorder(t.right) + After(c))
    ensures Inorder(Erase(c, t)) == (Before(c) + Inorder(t.left)) + (Inorder(t.right) + After(c))
  {
    hide Erase, Plug, RedBlack, Inorder;
    OrderAround(c, t);
    if t.left.Nil? || t.right.Nil? {
      EraseChild(c, t);
    } else {
      EraseSuccessor(c, t);
    }
  }

  lemma RemovableAt<T>(c: Ctx<T>, t: Tree<T>)
    requires t.Node? && RedBlack(Plug(c, t))
    ensures t.left.Nil? ==> Removable(c, t.color, t.right)
    ensures t.right.Nil? ==> Removable(c, t.color, t.left)
  {
    UnplugRedBlack(c, t);
    Children(t);
  }

  lemma EraseSuccessor<T>(c: Ctx<T>, t: Tree<T>)
    requires t.Node? && RedBlack(Plug(c, t)) && t.left.Node? && t.right.Node?
    ensures RedBlack(Erase(c, t))
    ensures Inorder(Erase(c, t)) == (Before(c) + Inorder(t.left)) + (Inorder(t.right) + After(c))
  {
    hide EraseAt, Plug, Removable, RedBlack, MinCtx, Min, Inorder;
    var y := Min(t.right);
    var f := InRight(t.left, y.item, t.color, c);
    var c' := MinCtx(f, t.right);
    SuccessorPosition(c, t);
    EraseAtRedBlack(c', y.color, y.right);
    MinPlug(f, t.right);
    MinAfter(f, t.right);
    var rest := Inorder(t.right)[1..];
    assert Before(c') == Before(c) + Inorder(t.left) + [y.item];
    assert Before(c') + Inorder(y.right) + After(c') == Before(c') + (rest + After(c));
    assert Before(c') + (rest + After(c)) == (Before(c) + Inorder(t.left)) + (([y.item] + rest) + After(c));
  }

  /** Inserting a red leaf keeps the rules and puts the item between its neighbours. */
  lemma InsertCorrect<T>(c: Ctx<T>, x: T)
    requires RedBlack(Plug(c, Nil))
    ensures RootBlack(c)
    ensures RedBlack(InsertFix(c, Node(Nil, x, Red, Nil)))
    ensures Inorder(InsertFix(c, Node(Nil, x, Red, Nil))) == Before(c) + [x] + After(c)
  {
    UnplugRedBlack(c, Nil);
    var t: Tree<T> := Node(Nil, x, Red, Nil);
    InsertFixRedBlack(c, t);
    InsertFixInorder(c, t);
    PlugInorder(c, t);
    assert Inorder(t) == [x];
  }
}
