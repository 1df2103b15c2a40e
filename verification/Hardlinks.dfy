/**
  Hard links in mkfs.jffs2: the directory entries already written are kept in a red-black
  tree ordered by device and inode number, the larger keys on the left.
 */
module Hardlinks {
  import opened RbSpec
  import opened RbTree

  predicate Smaller(x: RbNode, y: RbNode) {
    x.st_dev < y.st_dev || (x.st_dev == y.st_dev && x.st_ino < y.st_ino)
  }

  predicate SameFile(x: RbNode, y: RbNode) {
    x.st_dev == y.st_dev && x.st_ino == y.st_ino
  }

  predicate Descending(s: seq<RbNode>) {
    forall i, j :: 0 <= i < j < |s| ==> Smaller(s[j], s[i])
  }

  predicate AllAbove(s: seq<RbNode>, e: RbNode) {
    forall i :: 0 <= i < |s| ==> Smaller(e, s[i])
  }

  predicate AllBelow(s: seq<RbNode>, e: RbNode) {
    forall i :: 0 <= i < |s| ==> Smaller(s[i], e)
  }

  lemma DescendingParts(a: seq<RbNode>, x: RbNode, b: seq<RbNode>)
    ensures Descending(a + [x] + b) ==>
      Descending(a + b) && Descending(a) && Descending(b) && AllAbove(a, x) && AllBelow(b, x)
  {
    var s := a + [x] + b;
    if Descending(s) {
      forall i | 0 <= i < |a| ensures Smaller(x, a[i]) { assert s[i] == a[i] && s[|a|] == x; }
      forall i | 0 <= i < |b| ensures Smaller(b[i], x) { assert s[|a| + 1 + i] == b[i] && s[|a|] == x; }
      forall i, j | 0 <= i < j < |b|
        ensures Smaller(b[j], b[i])
      {
        assert s[|a| + 1 + i] == b[i] && s[|a| + 1 + j] == b[j];
      }
      forall i, j | 0 <= i < j < |a| ensures Smaller(a[j], a[i]) { assert s[i] == a[i] && s[j] == a[j]; }
    }
  }

  lemma DescendingInsert(a: seq<RbNode>, x: RbNode, b: seq<RbNode>)
    requires Descending(a + b) && AllAbove(a, x) && AllBelow(b, x)
    ensures Descending(a + [x] + b)
  {
    var s, s' := a + b, a + [x] + b;
    forall i, j | 0 <= i < j < |s'| ensures Smaller(s'[j], s'[i]) {
      var i', j' := if i < |a| then i else i - 1, if j < |a| then j else j - 1;
      if i != |a| && j != |a| { assert s'[i] == s[i'] && s'[j] == s[j']; }
    }
  }

  lemma {:induction false} InorderNodes(t: NodeTree, n: RbNode)
    ensures n in Inorder(t) <==> n in Nodes(t)
    decreases t
  {
    if t.Node? {
      InorderNodes(t.left, n);
      InorderNodes(t.right, n);
    }
  }

  // ----- the search -----

  /** The key can only be inside the subtree. */
  ghost predicate Narrowed(c: NodeCtx, t: NodeTree, e: RbNode) {
    Descending(Inorder(Plug(c, t))) && AllAbove(Before(c), e) && AllBelow(After(c), e)
  }

  lemma AtFocus(c: NodeCtx, t: NodeTree)
    requires t.Node? && Descending(Inorder(Plug(c, t)))
    ensures AllAbove(Before(c) + Inorder(t.left), t.item) && AllBelow(Inorder(t.right) + After(c), t.item)
  {
    hide Inorder, Plug;
    OrderAround(c, t);
    DescendingParts(Before(c) + Inorder(t.left), t.item, Inorder(t.right) + After(c));
  }

  /** Smaller keys are on the right: one step down. */
  lemma Narrow(c: NodeCtx, t: NodeTree, e: RbNode)
    requires Narrowed(c, t, e) && t.Node?
    ensures Smaller(t.item, e) ==> Narrowed(InLeft(t.item, t.color, t.right, c), t.left, e)
    ensures Smaller(e, t.item) ==> Narrowed(InRight(t.left, t.item, t.color, c), t.right, e)
  {
    hide Inorder;
    AtFocus(c, t);
    var above, below := Before(c) + Inorder(t.left), Inorder(t.right) + After(c);
    if Smaller(t.item, e) {
      assert After(InLeft(t.item, t.color, t.right, c)) == [t.item] + below by {
        assert [t.item] + Inorder(t.right) + After(c) == [t.item] + below;
      }
    }
    if Smaller(e, t.item) {
      assert Before(InRight(t.left, t.item, t.color, c)) == above + [t.item];
    }
  }

  lemma NarrowedTop(t: NodeTree, e: RbNode)
    requires Descending(Inorder(t))
    ensures Narrowed(Top, t, e)
  {}

  lemma PlugUp(c: NodeCtx, t: NodeTree)
    requires !c.Top?
    ensures Plug(c, t) == Plug(c.up, Up(c, t))
  {}

  /** Nothing left to search: no entry of the tree has the key, and here is its place. */
  lemma NotThere(c: NodeCtx, e: RbNode)
    requires Narrowed(c, Nil, e)
    ensures forall f :: f in Nodes(Plug(c, Nil)) ==> !SameFile(f, e)
    ensures Descending(Before(c) + [e] + After(c))
  {
    PlugInorder(c, Nil);
    var s := Before(c) + After(c);
    assert Inorder(Plug(c, Nil)) == s;
    forall f | f in Nodes(Plug(c, Nil)) ensures !SameFile(f, e) {
      InorderNodes(Plug(c, Nil), f);
      assert f in Before(c) || f in After(c);
    }
    DescendingInsert(Before(c), e, After(c));
  }

  // ----- the first entry with a key -----

  ghost function First(s: seq<RbNode>, e: RbNode): (f: RbNode?)
    ensures f != null ==> f in s && SameFile(f, e)
    ensures f == null ==> forall x :: x in s ==> !SameFile(x, e)
  {
    if s == [] then null else if SameFile(s[0], e) then s[0] else First(s[1..], e)
  }

  /** The first entry with the same device and inode number, with all names spelt out. */
  lemma {:induction false} FirstMeans(s: seq<RbNode>, e: RbNode)
    ensures First(s, e) == null <==> forall x :: x in s ==> !(x.st_dev == e.st_dev && x.st_ino == e.st_ino)
    ensures First(s, e) != null ==> exists i ::
      && 0 <= i < |s| && s[i] == First(s, e) && s[i].st_dev == e.st_dev && s[i].st_ino == e.st_ino
      && forall j :: 0 <= j < i ==> !(s[j].st_dev == e.st_dev && s[j].st_ino == e.st_ino)
  {
    if s != [] && !SameFile(s[0], e) {
      FirstMeans(s[1..], e);
      if First(s, e) != null {
        var f := First(s, e);
        var i :| 0 <= i < |s[1..]| && s[1..][i] == f && s[1..][i].st_dev == e.st_dev && s[1..][i].st_ino == e.st_ino
          && forall j :: 0 <= j < i ==> !(s[1..][j].st_dev == e.st_dev && s[1..][j].st_ino == e.st_ino);
        assert s[i + 1] == f;
        forall j | 0 <= j < i + 1 ensures !(s[j].st_dev == e.st_dev && s[j].st_ino == e.st_ino) {
          if j > 0 { assert s[j] == s[1..][j - 1]; }
        }
      }
    }
  }

  lemma {:induction false} FirstSame(s: seq<RbNode>, x: RbNode, y: RbNode)
    requires SameFile(x, y)
    ensures First(s, x) == First(s, y)
  {
    if s != [] { FirstSame(s[1..], x, y); }
  }

  lemma {:induction false} FirstAppend(s: seq<RbNode>, e: RbNode, x: RbNode)
    ensures First(s + [e], x) == if First(s, x) != null then First(s, x) else if SameFile(e, x) then e else null
  {
    if s != [] {
      assert (s + [e])[1..] == s[1..] + [e];
      FirstAppend(s[1..], e, x);
    }
  }

  /** The nodes kept are exactly the first entries passed with their keys. */
  ghost predicate Known(nodes: set<RbNode>, passed: seq<RbNode>) {
    && (forall f :: f in nodes ==> f in passed && First(passed, f) == f)
    && (forall f :: f in passed ==> First(passed, f) in nodes)
  }

  lemma KnownFound(nodes: set<RbNode>, passed: seq<RbNode>, f: RbNode, e: RbNode)
    requires Known(nodes, passed) && f in nodes && SameFile(f, e)
    ensures First(passed, e) == f && Known(nodes, passed + [e])
  {
    FirstSame(passed, f, e);
    forall x | x in passed + [e] ensures First(passed + [e], x) == First(passed, x) && First(passed, x) in nodes {
      FirstAppend(passed, e, x);
    }
  }

  lemma KnownNew(nodes: set<RbNode>, passed: seq<RbNode>, e: RbNode)
    requires Known(nodes, passed) && forall f :: f in nodes ==> !SameFile(f, e)
    ensures First(passed, e) == null && Known(nodes + {e}, passed + [e])
  {
    var f := First(passed, e);
    if f != null {
      FirstSame(passed, f, e);
      assert false;
    }
    forall x | x in passed + [e]
      ensures First(passed + [e], x) in nodes + {e} && (x in nodes + {e} ==> First(passed + [e], x) == x)
    {
      FirstAppend(passed, e, x);
    }
  }

  lemma LeafNodes(e: RbNode)
    ensures Nodes(Node(Nil, e, Red, Nil)) == {e}
  {}

  lemma Leaf(e: RbNode, parent: RbNode?)
    requires e.rb_parent == parent && e.rb_color == Red && e.rb_left == null && e.rb_right == null
    ensures var s: NodeTree := Node(Nil, e, Red, Nil);
      Rep(s, e, parent) && Separate(s) && Nodes(s) == {e}
  {}

  /** The entries passed are the linked ones among the first k. */
  ghost predicate Linked(entries: seq<RbNode>, st_nlink: seq<nat>, k: nat, passed: seq<RbNode>)
    requires k <= |entries| == |st_nlink|
  {
    && (forall x :: x in passed ==> exists i :: 0 <= i < k && st_nlink[i] >= 1 && entries[i] == x)
    && (forall i :: 0 <= i < k && st_nlink[i] >= 1 ==> entries[i] in passed)
  }

  /** Two entries with links to the same file. */
  ghost predicate Alike(entries: seq<RbNode>, st_nlink: seq<nat>, i: nat, j: nat)
    requires i < |entries| == |st_nlink| && j < |entries|
  {
    st_nlink[i] >= 1 && st_nlink[j] >= 1 && SameFile(entries[i], entries[j])
  }

  /** Among the entries numbered so far, those written share numbers exactly along hard links. */
  ghost predicate Numbered(entries: seq<RbNode>, st_nlink: seq<nat>, fits: seq<bool>, inos: seq<nat>, ino: nat)
    requires |inos| <= |entries| == |st_nlink| == |fits|
  {
    && (forall i :: 0 <= i < |inos| && st_nlink[i] >= 1 && !fits[i] ==> inos[i] == 0)
    && (forall i :: 0 <= i < |inos| && fits[i] ==> 1 <= inos[i] <= ino)
    && (forall i, j :: 0 <= i < j < |inos| && fits[i] && fits[j] ==>
          (inos[i] == inos[j] <==> Alike(entries, st_nlink, i, j)))
  }

  /** The number an entry gets, given the first entry f with the same key. */
  ghost predicate Gets(linked: bool, fits: bool, fino: nat, ino: nat, e_ino: nat, ino': nat) {
    if linked && fino != 0 then e_ino == fino && ino' == ino
    else if fits then e_ino == ino' == ino + 1
    else ino' == ino && (linked ==> e_ino == 0)
  }

  /** A written entry that shares its number with exactly the entries it should extends the numbering. */
  lemma NumberedAppend(entries: seq<RbNode>, st_nlink: seq<nat>, fits: seq<bool>, inos: seq<nat>, ino: nat,
                       e_ino: nat, ino': nat)
    requires |inos| < |entries| == |st_nlink| == |fits| && Numbered(entries, st_nlink, fits, inos, ino) && ino <= ino'
    requires var k := |inos|;
      && (st_nlink[k] >= 1 && !fits[k] ==> e_ino == 0)
      && (fits[k] ==> 1 <= e_ino <= ino')
      && (forall i :: 0 <= i < k && fits[i] && fits[k] ==> (inos[i] == e_ino <==> Alike(entries, st_nlink, i, k)))
    ensures Numbered(entries, st_nlink, fits, inos + [e_ino], ino')
  {
    hide Alike;
  }

  lemma NumberedStep(entries: seq<RbNode>, st_nlink: seq<nat>, fits: seq<bool>, inos: seq<nat>, ino: nat,
                     passed: seq<RbNode>, e_ino: nat, ino': nat)
    requires |inos| < |entries| == |st_nlink| == |fits| && Numbered(entries, st_nlink, fits, inos, ino)
    requires Linked(entries, st_nlink, |inos|, passed)
    requires forall i, j :: 0 <= i < j < |entries| ==> entries[i] != entries[j]
    requires forall i, j :: 0 <= i < j < |entries| && SameFile(entries[i], entries[j]) ==> fits[i] == fits[j]
    requires var k := |inos|;
      var f := First(passed, entries[k]);
      if f == null then Gets(st_nlink[k] >= 1, fits[k], 0, ino, e_ino, ino')
      else exists m :: 0 <= m < k && entries[m] == f && Gets(st_nlink[k] >= 1, fits[k], inos[m], ino, e_ino, ino')
    ensures Numbered(entries, st_nlink, fits, inos + [e_ino], ino')
  {
    hide First;
    var k := |inos|;
    var e := entries[k];
    var f := First(passed, e);
    if f == null {
      forall i | 0 <= i < k && st_nlink[i] >= 1 ensures !SameFile(entries[i], e) {
        assert entries[i] in passed;
      }
    } else {
      var m :| 0 <= m < k && entries[m] == f && Gets(st_nlink[k] >= 1, fits[k], inos[m], ino, e_ino, ino');
      assert SameFile(entries[m], e) && fits[m] == fits[k];
      assert st_nlink[m] >= 1;
      forall i | 0 <= i < k && fits[i] && fits[k] ensures inos[i] == e_ino <==> Alike(entries, st_nlink, i, k) {
        if i < m { assert inos[i] == inos[m] <==> Alike(entries, st_nlink, i, m); }
        if m < i { assert inos[m] == inos[i] <==> Alike(entries, st_nlink, m, i); }
      }
    }
    NumberedAppend(entries, st_nlink, fits, inos, ino, e_ino, ino');
  }

  /** The tree and the inode counter while an image is populated. */
  class Population {
    const hardlinks: RbRoot
    var ino: nat
    ghost var tree: NodeTree
    /** The entries looked up so far, in order. */
    ghost var passed: seq<RbNode>

    ghost predicate Valid()
      reads this, hardlinks, Nodes(tree)
    {
      && At(Top, tree, hardlinks) && RedBlack(tree) && Descending(Inorder(tree))
      && Known(Nodes(tree), passed)
    }

    lemma TreePassed()
      requires Valid()
      ensures forall x :: x in Nodes(tree) ==> x in passed
    {}

    constructor ()
      ensures Valid() && passed == [] && ino == 1 && tree == Nil && fresh(hardlinks)
    {
      hardlinks := new RbRoot();
      ino := 1;
      tree := Nil;
      passed := [];
      new;
      TopCtx(null, hardlinks);
    }

    /** Walks down; ends at an entry with the same key, or at the place for e. */
    method Search(e: RbNode) returns (found: RbNode?, parent: RbNode?, left: bool, ghost c: NodeCtx)
      requires Valid()
      ensures found != null ==> found in Nodes(tree) && SameFile(found, e)
      ensures found != null ==> found.st_dev == e.st_dev && found.st_ino == e.st_ino
      ensures found == null ==>
        && At(c, Nil, hardlinks) && Plug(c, Nil) == tree && Narrowed(c, Nil, e)
        && parent == Above(c) && (parent != null ==> (left <==> c.InLeft?))
    {
      hide At, Nodes, CtxNodes, Plug, Inorder, Narrowed, RedBlack;
      c := Top;
      ghost var t := tree;
      var n := hardlinks.rb_node;
      parent, left, found := null, false, null;
      RootItem(c, t, hardlinks);
      PlugTop(t);
      NarrowedTop(t, e);
      while n != null
        invariant At(c, t, hardlinks) && Plug(c, t) == tree && Narrowed(c, t, e) && n == Item(t)
        invariant parent == Above(c) && (parent != null ==> (left <==> c.InLeft?))
        decreases t
      {
        parent := n;
        Parent(c, t, hardlinks);
        Narrow(c, t, e);
        ghost var c', t';
        if n.st_dev < e.st_dev || (n.st_dev == e.st_dev && n.st_ino < e.st_ino) {
          n, left := n.rb_left, true;
          c', t' := InLeft(t.item, t.color, t.right, c), t.left;
        } else if n.st_dev > e.st_dev || (n.st_dev == e.st_dev && n.st_ino > e.st_ino) {
          n, left := n.rb_right, false;
          c', t' := InRight(t.left, t.item, t.color, c), t.right;
        } else {
          found := n;
          FocusRoot(c, t, hardlinks);
          ItemIn(t);
          return;
        }
        FocusUp(c', t', hardlinks);
        PlugUp(c', t');
        c, t := c', t';
      }
    }

    /** rb_link_node: e becomes a red leaf. */
    method LinkNode(e: RbNode, parent: RbNode?, left: bool, ghost c: NodeCtx)
      requires At(c, Nil, hardlinks) && e !in CtxNodes(c) && parent == Above(c)
      requires (parent != null ==> (left <==> c.InLeft?))
      modifies hardlinks, e`rb_left, e`rb_right, e`rb_parent, e`rb_color
      modifies (if parent == null then {} else {parent})`rb_left, (if parent == null then {} else {parent})`rb_right
      ensures At(c, Node(Nil, e, Red, Nil), hardlinks)
    {
      hide Rep, RepCtx, Separate, CtxSeparate, Nodes, CtxNodes;
      e.rb_parent, e.rb_color := parent, Red;
      e.rb_left, e.rb_right := null, null;
      Leaf(e, parent);
      assert allocated(CtxNodes(c));
      if parent == null {
        hardlinks.rb_node := e;
        TopCtx(e, hardlinks);
      } else {
        OpenCtx(c, null, hardlinks);
        assert allocated(CtxNodes(c.up)) && allocated(Nodes(Sibling(c)));
        if left {
          parent.rb_left := e;
        } else {
          parent.rb_right := e;
        }
        CloseCtx(c, e, hardlinks);
      }
    }

    /**
      Looks an entry up.  The answer is the inode number of the first entry passed with the
      same device and inode number; an entry without predecessor goes into the tree.
     */
    method FindHardlink(e: RbNode) returns (r: nat)
      requires Valid()
      modifies this`tree, this`passed, hardlinks, (Nodes(tree) + {e})`rb_left, (Nodes(tree) + {e})`rb_right
      modifies (Nodes(tree) + {e})`rb_parent, (Nodes(tree) + {e})`rb_color
      ensures Valid() && passed == old(passed) + [e]
      ensures var f := First(old(passed), e); r == if f == null then 0 else f.ino
    {
      hide At, Nodes, CtxNodes, Plug, Inorder, Narrowed, RedBlack, Descending;
      var found, parent, left;
      ghost var c;
      found, parent, left, c := Search(e);
      ghost var nodes := Nodes(tree);
      if found != null {
        KnownFound(nodes, passed, found, e);
        TopCtx(null, hardlinks);
        passed := passed + [e];
        return found.ino;
      }
      ghost var s: NodeTree := Node(Nil, e, Red, Nil);
      NotThere(c, e);
      KnownNew(nodes, passed, e);
      FocusRoot(c, Nil, hardlinks);
      ItemIn(Nil);
      AboveIn(c);
      InsertCorrect(c, e);
      LinkNode(e, parent, left, c);
      LeafNodes(e);
      InsertColor(e, hardlinks, c, s);
      TopCtx(null, hardlinks);
      tree := InsertFix(c, s);
      passed := passed + [e];
      return 0;
    }

    /**
      One turn of the loop over the directory entries.  An entry whose file was passed before gets
      that file's inode number; any other gets a new one, unless the file cannot be written.
     */
    method NumberEntry(e: RbNode, st_nlink: nat, fits: bool)
      requires Valid() && e !in passed
      modifies this, hardlinks, (Nodes(tree) + {e})`rb_left, (Nodes(tree) + {e})`rb_right
      modifies (Nodes(tree) + {e})`rb_parent, (Nodes(tree) + {e})`rb_color, e`ino
      ensures Valid() && passed == if st_nlink >= 1 then old(passed) + [e] else old(passed)
      ensures var f := First(old(passed), e);
        Gets(st_nlink >= 1, fits, if f == null then 0 else old(f.ino), old(ino), e.ino, ino)
      ensures var f := First(old(passed), e);
        if st_nlink >= 1 && f != null && old(f.ino) != 0 then e.ino == old(f.ino) && ino == old(ino)
        else if fits then e.ino == old(ino) + 1 && ino == old(ino) + 1
        else ino == old(ino)
    {
      if st_nlink >= 1 {
        var r := FindHardlink(e);
        e.ino := r;
        if r != 0 {
          return;
        }
      }
      if fits {
        ino := ino + 1;
        e.ino := ino;
      }
    }

    /**
      Populating an image keeps hard links and nothing but hard links together: two entries that
      are written share an inode number exactly when both have links to the same file.
     */
    method NumberEntries(entries: seq<RbNode>, st_nlink: seq<nat>, fits: seq<bool>)
      requires Valid() && passed == [] && |entries| == |st_nlink| == |fits|
      requires forall i, j :: 0 <= i < j < |entries| ==> entries[i] != entries[j]
      requires forall i, j :: 0 <= i < j < |entries| ==>
        (entries[i].st_dev == entries[j].st_dev && entries[i].st_ino == entries[j].st_ino ==> fits[i] == fits[j])
      modifies this, hardlinks, entries
      ensures Valid()
      ensures forall i, j :: 0 <= i < j < |entries| && fits[i] && fits[j] ==>
        (entries[i].ino == entries[j].ino <==>
          && st_nlink[i] >= 1 && st_nlink[j] >= 1
          && entries[i].st_dev == entries[j].st_dev && entries[i].st_ino == entries[j].st_ino)
    {
      hide Valid, First;
      ghost var inos: seq<nat> := [];
      for k := 0 to |entries|
        invariant Valid()
        invariant |inos| == k && forall i :: 0 <= i < k ==> entries[i].ino == inos[i]
        invariant Numbered(entries, st_nlink, fits, inos, ino)
        invariant Linked(entries, st_nlink, k, passed)
      {
        var e := entries[k];
        ghost var before, f, ino0 := passed, First(passed, e), ino;
        TreePassed();
        assert e !in passed;
        NumberEntry(e, st_nlink[k], fits[k]);
        NumberedStep(entries, st_nlink, fits, inos, ino0, before, e.ino, ino);
        inos := inos + [e.ino];
      }
    }
  }
}
