/**
  The in-memory index of index.c, used by depmod: nodes with 128 child pointers, split and
  extended in place as strings are inserted.
 */
module IndexTree {
  import opened TrieSpec

  class IndexNode {
    var prefix: seq<Ch>
    var isEndpoint: bool
    var first: nat
    var last: nat
    var children: seq<IndexNode?>

    /** A node without children. */
    constructor (prefix: seq<Ch>, isEndpoint: bool)
      ensures this.prefix == prefix && this.isEndpoint == isEndpoint && first == CHILDMAX && last == 0
      ensures |children| == CHILDMAX && forall k :: 0 <= k < CHILDMAX ==> children[k] == null
    {
      this.prefix, this.isEndpoint := prefix, isEndpoint;
      first, last := CHILDMAX, 0;
      children := seq(CHILDMAX, _ => null);
    }

    /** A copy of a node, with another prefix. */
    constructor Copy(node: IndexNode, prefix: seq<Ch>)
      ensures this.prefix == prefix && isEndpoint == node.isEndpoint
      ensures first == node.first && last == node.last && children == node.children
    {
      this.prefix, isEndpoint := prefix, node.isEndpoint;
      first, last, children := node.first, node.last, node.children;
    }
  }

  type Index = Trie<IndexNode>
  type IndexCtx = Ctx<IndexNode>

  // ----- the trie on the heap -----

  ghost function Nodes(t: Index): set<IndexNode>
    decreases t
  {
    {t.at} + set k, x | k in t.kids && x in Nodes(t.kids[k]) :: x
  }

  ghost function CtxNodes(c: IndexCtx): set<IndexNode> {
    if c.Top? then {} else {c.at} + (set k, x | k in c.kids && x in Nodes(c.kids[k]) :: x) + CtxNodes(c.up)
  }

  /** No node occurs twice. */
  ghost predicate Separate(t: Index)
    decreases t
  {
    && (forall k :: k in t.kids ==> t.at !in Nodes(t.kids[k]) && Separate(t.kids[k]))
    && (forall k, m :: k in t.kids && m in t.kids && k != m ==> Nodes(t.kids[k]) !! Nodes(t.kids[m]))
  }

  /** The same around a position; the child in focus is not among `kids`. */
  ghost predicate CtxSeparate(c: IndexCtx) {
    c.Kid? ==>
      && c.k !in c.kids && c.at !in CtxNodes(c.up) && CtxSeparate(c.up)
      && (forall k :: k in c.kids ==>
            c.at !in Nodes(c.kids[k]) && Separate(c.kids[k]) && Nodes(c.kids[k]) !! CtxNodes(c.up))
      && (forall k, m :: k in c.kids && m in c.kids && k != m ==> Nodes(c.kids[k]) !! Nodes(c.kids[m]))
  }

  /** The range of the children's characters; empty from CHILDMAX to 0. */
  predicate Span(keys: set<Ch>, first: nat, last: nat) {
    if keys == {} then first == CHILDMAX && last == 0
    else first in keys && last in keys && forall k :: k in keys ==> first <= k <= last
  }

  ghost predicate Rep(t: Index)
    reads Nodes(t)
    decreases t
  {
    && t.at.prefix == t.prefix && t.at.isEndpoint == t.isEnd
    && Span(t.kids.Keys, t.at.first, t.at.last)
    && |t.at.children| == CHILDMAX
    && (forall k: Ch :: k in t.kids ==> t.at.children[k] == t.kids[k].at && Rep(t.kids[k]))
    && (forall k: Ch :: k !in t.kids ==> t.at.children[k] == null)
  }

  /** The nodes around a position, which node n occupies. */
  ghost predicate RepCtx(c: IndexCtx, n: IndexNode, root: IndexNode)
    reads CtxNodes(c)
  {
    if c.Top? then n == root
    else
      && c.at.prefix == c.prefix && c.at.isEndpoint == c.isEnd
      && Span(c.kids.Keys + {c.k}, c.at.first, c.at.last)
      && |c.at.children| == CHILDMAX && c.at.children[c.k] == n
      && (forall k: Ch :: k in c.kids && k != c.k ==> c.at.children[k] == c.kids[k].at && Rep(c.kids[k]))
      && (forall k: Ch :: k !in c.kids && k != c.k ==> c.at.children[k] == null)
      && RepCtx(c.up, c.at, root)
  }

  ghost predicate At(c: IndexCtx, t: Index, root: IndexNode)
    reads Nodes(t), CtxNodes(c)
  {
    && Separate(t) && CtxSeparate(c) && Nodes(t) !! CtxNodes(c)
    && Rep(t) && RepCtx(c, t.at, root)
  }

  ghost function MapNodes(kids: map<Ch, Index>): set<IndexNode> {
    set k, x | k in kids && x in Nodes(kids[k]) :: x
  }

  lemma UpNodes(c: IndexCtx, t: Index)
    requires c.Kid? && c.k !in c.kids
    ensures Nodes(Up(c, t)) == {c.at} + Nodes(t) + MapNodes(c.kids)
    ensures CtxNodes(c) == {c.at} + MapNodes(c.kids) + CtxNodes(c.up)
  {
    var u := Up(c, t);
    var others := MapNodes(c.kids);
    assert c.k in u.kids && u.kids[c.k] == t;
    forall k, x | k in c.kids && x in Nodes(c.kids[k]) ensures x in Nodes(u) {
      assert k in u.kids && u.kids[k] == c.kids[k];
    }
    forall k, x | k in u.kids && x in Nodes(u.kids[k]) ensures x in Nodes(t) + others {
      if k != c.k { assert k in c.kids && x in Nodes(c.kids[k]); }
    }
    assert Nodes(u) <= {c.at} + Nodes(t) + others;
    assert Nodes(t) <= Nodes(u);
    assert others <= Nodes(u);
  }

  lemma OtherIn(c: IndexCtx, s: set<IndexNode>)
    requires c.Kid?
    ensures forall k :: k in c.kids ==> Nodes(c.kids[k]) <= MapNodes(c.kids)
    ensures MapNodes(c.kids) !! s <==> forall k :: k in c.kids ==> Nodes(c.kids[k]) !! s
  {
    forall k, x | k in c.kids && x in Nodes(c.kids[k]) ensures x in MapNodes(c.kids) {}
  }

  /** The other children are separate from each other and from the node above. */
  ghost predicate OthersSeparate(c: IndexCtx)
    requires c.Kid?
  {
    && (forall k :: k in c.kids ==> c.at !in Nodes(c.kids[k]) && Separate(c.kids[k]))
    && (forall k, m :: k in c.kids && m in c.kids && k != m ==> Nodes(c.kids[k]) !! Nodes(c.kids[m]))
  }

  lemma SeparateUp(c: IndexCtx, t: Index)
    requires c.Kid? && c.k !in c.kids
    ensures Separate(Up(c, t)) <==>
      OthersSeparate(c) && Separate(t) && c.at !in Nodes(t) && MapNodes(c.kids) !! Nodes(t)
  {
    hide Nodes, MapNodes;
    var u := Up(c, t);
    OtherIn(c, Nodes(t));
    assert c.k in u.kids && u.kids[c.k] == t;
    assert u.kids.Keys == c.kids.Keys + {c.k};
    assert forall k :: k in c.kids ==> k in u.kids && u.kids[k] == c.kids[k];
  }

  lemma CtxSeparateUp(c: IndexCtx)
    requires c.Kid? && c.k !in c.kids
    ensures CtxSeparate(c) <==>
      OthersSeparate(c) && c.at !in CtxNodes(c.up) && MapNodes(c.kids) !! CtxNodes(c.up) && CtxSeparate(c.up)
  {
    hide Nodes, MapNodes, Separate, CtxNodes;
    OtherIn(c, CtxNodes(c.up));
  }

  lemma UpSeparate(c: IndexCtx, t: Index)
    requires c.Kid? && c.k !in c.kids
    ensures Separate(t) && CtxSeparate(c) && Nodes(t) !! CtxNodes(c) <==>
            Separate(Up(c, t)) && CtxSeparate(c.up) && Nodes(Up(c, t)) !! CtxNodes(c.up)
    ensures Nodes(t) + CtxNodes(c) == Nodes(Up(c, t)) + CtxNodes(c.up)
  {
    hide Nodes, MapNodes, Separate, CtxSeparate, CtxNodes, OthersSeparate;
    SeparateUp(c, t);
    CtxSeparateUp(c);
    UpNodes(c, t);
  }

  lemma UpRep(c: IndexCtx, t: Index, root: IndexNode)
    requires c.Kid? && c.k !in c.kids
    ensures Rep(t) && RepCtx(c, t.at, root) <==> Rep(Up(c, t)) && RepCtx(c.up, c.at, root)
  {
    var u := Up(c, t);
    assert u.kids[c.k] == t;
    assert u.kids.Keys == c.kids.Keys + {c.k};
    assert forall k :: k in c.kids ==> k in u.kids && u.kids[k] == c.kids[k];
  }

  lemma {:induction false} FocusRoot(c: IndexCtx, t: Index, root: IndexNode)
    ensures At(c, t, root) ==> At(Top, Plug(c, t), root) && Nodes(t) + CtxNodes(c) == Nodes(Plug(c, t))
    ensures CtxSeparate(c) ==> Nodes(t) + CtxNodes(c) == Nodes(Plug(c, t))
    decreases c
  {
    hide Rep, RepCtx, Separate, Nodes, CtxNodes;
    if c.Kid? && CtxSeparate(c) {
      UpSeparate(c, t);
      UpRep(c, t, root);
      FocusRoot(c.up, Up(c, t), root);
    } else if c.Top? {
      TopNodes();
    }
  }

  lemma TopNodes()
    ensures CtxNodes(Top) == {} && CtxSeparate(Top)
  {}

  /** Moving the focus to a child. */
  lemma FocusDown(c: IndexCtx, t: Index, k: Ch, root: IndexNode)
    requires At(c, t, root) && k in t.kids
    ensures var c' := Kid(t.at, t.prefix, t.isEnd, t.kids - {k}, k, c);
      At(c', t.kids[k], root) && Nodes(t.kids[k]) + CtxNodes(c') == Nodes(t) + CtxNodes(c)
  {
    hide Rep, RepCtx, Separate, CtxSeparate, Nodes, CtxNodes;
    var c' := Kid(t.at, t.prefix, t.isEnd, t.kids - {k}, k, c);
    Down(c, t, k);
    UpSeparate(c', t.kids[k]);
    UpRep(c', t.kids[k], root);
  }

  // ----- changing one node -----

  /** The pointers to the children. */
  ghost predicate Linked(children: seq<IndexNode?>, kids: map<Ch, Index>) {
    && |children| == CHILDMAX
    && (forall k: Ch :: k in kids ==> children[k] == kids[k].at)
    && (forall k: Ch :: k !in kids ==> children[k] == null)
  }

  /** The node's own fields. */
  ghost predicate Local(t: Index)
    reads t.at
  {
    && t.at.prefix == t.prefix && t.at.isEndpoint == t.isEnd
    && Span(t.kids.Keys, t.at.first, t.at.last)
    && Linked(t.at.children, t.kids)
  }

  ghost predicate Below(kids: map<Ch, Index>)
    reads MapNodes(kids)
  {
    forall k :: k in kids ==> Rep(kids[k])
  }

  lemma RepParts(t: Index)
    ensures Rep(t) <==> Local(t) && Below(t.kids)
    ensures Nodes(t) == {t.at} + MapNodes(t.kids)
    ensures Separate(t) ==> t.at !in MapNodes(t.kids)
  {}

  /** A node whose first j characters stay; the rest moves into a copy below it. */
  method SplitNode(node: IndexNode, j: nat, root: IndexNode, ghost c: IndexCtx, ghost t: Index) returns (n: IndexNode)
    requires At(c, t, root) && t.at == node && j < |t.prefix|
    modifies node
    ensures fresh(n) && At(c, Split(t, j, n), root) && Nodes(Split(t, j, n)) == Nodes(t) + {n}
  {
    hide RepCtx, CtxSeparate, CtxNodes, Rep, Below, Separate, Nodes, MapNodes;
    assert allocated(MapNodes(t.kids)) && allocated(CtxNodes(c));
    RepParts(t);
    var ch := node.prefix[j];
    n := new IndexNode.Copy(node, node.prefix[j + 1..]);
    node.prefix := node.prefix[..j];
    node.isEndpoint := false;
    node.first, node.last := ch, ch;
    node.children := seq(CHILDMAX, _ => null)[ch := n];
    assert Split(t, j, n).kids.Keys == {ch as Ch};
    SplitNodes(t, j, n);
    SplitRep(t, j, n);
  }

  lemma SplitRep(t: Index, j: nat, n: IndexNode)
    requires j < |t.prefix| && Local(Split(t, j, n)) && Local(Split(t, j, n).kids[t.prefix[j]]) && Below(t.kids)
    ensures Rep(Split(t, j, n))
  {
    var t' := Split(t, j, n);
    RepParts(t'.kids[t.prefix[j]]);
    RepParts(t');
  }

  lemma SplitNodes(t: Index, j: nat, n: IndexNode)
    requires Separate(t) && j < |t.prefix| && n !in Nodes(t)
    ensures Separate(Split(t, j, n)) && Nodes(Split(t, j, n)) == Nodes(t) + {n}
  {
    var t' := Split(t, j, n);
    var ch := t.prefix[j];
    var lower := t'.kids[ch];
    assert lower.kids == t.kids;
    assert Nodes(lower) == Nodes(t) - {t.at} + {n};
    assert forall k :: k in t'.kids ==> k == ch;
    assert Nodes(lower) <= Nodes(t');
  }

  lemma LinkedAdd(children: seq<IndexNode?>, kids: map<Ch, Index>, ch: Ch, leaf: Index)
    requires Linked(children, kids)
    ensures |children| == CHILDMAX && Linked(children[ch := leaf.at], kids[ch := leaf])
  {}

  lemma NoChildren(children: seq<IndexNode?>)
    requires |children| == CHILDMAX && forall k :: 0 <= k < CHILDMAX ==> children[k] == null
    ensures Linked(children, map[])
  {}

  lemma SpanAdd(keys: set<Ch>, first: nat, last: nat, ch: Ch)
    requires Span(keys, first, last)
    ensures Span(keys + {ch}, if ch < first then ch else first, if ch > last then ch else last)
  {}

  /** Enters a child in the node's table and widens the range. */
  method LinkChild(node: IndexNode, ch: Ch, child: IndexNode, rest: seq<Ch>, ghost t: Index)
    requires Local(t) && t.at == node && ch !in t.kids
    modifies node
    ensures Local(WithLeaf(t, child, ch, rest))
  {
    hide Span, Linked;
    SpanAdd(t.kids.Keys, node.first, node.last, ch);
    LinkedAdd(node.children, t.kids, ch, Trie(child, rest, true, map[]));
    if ch < node.first {
      node.first := ch;
    }
    if ch > node.last {
      node.last := ch;
    }
    node.children := node.children[ch := child];
    assert WithLeaf(t, child, ch, rest).kids.Keys == t.kids.Keys + {ch};
  }

  /** A new leaf below a node. */
  method AddLeaf(node: IndexNode, ch: Ch, rest: seq<Ch>, root: IndexNode, ghost c: IndexCtx, ghost t: Index)
    returns (child: IndexNode)
    requires At(c, t, root) && t.at == node && ch !in t.kids
    modifies node
    ensures fresh(child)
    ensures var t' := WithLeaf(t, child, ch, rest);
      At(c, t', root) && Nodes(t') == Nodes(t) + {child}
  {
    hide RepCtx, CtxSeparate, CtxNodes, Rep, Below, Separate, Nodes, MapNodes, Span, Linked;
    assert allocated(MapNodes(t.kids)) && allocated(CtxNodes(c));
    RepParts(t);
    child := new IndexNode(rest, true);
    NoChildren(child.children);
    LinkChild(node, ch, child, rest, t);
    ghost var leaf: Index := Trie(child, rest, true, map[]);
    LeafSpan();
    LeafNodes(t, ch, leaf);
    LeafRep(t, ch, leaf);
  }

  lemma LeafSpan()
    ensures Span({}, CHILDMAX, 0)
  {}

  lemma LeafRep(t: Index, ch: Ch, leaf: Index)
    requires ch !in t.kids && leaf.kids == map[] && Below(t.kids) && Local(leaf)
    requires Local(t.(kids := t.kids[ch := leaf]))
    ensures Rep(t.(kids := t.kids[ch := leaf]))
  {
    RepParts(leaf);
    RepParts(t.(kids := t.kids[ch := leaf]));
  }

  lemma LeafNodes(t: Index, ch: Ch, leaf: Index)
    requires Separate(t) && ch !in t.kids && leaf.kids == map[] && leaf.at !in Nodes(t)
    ensures var t' := t.(kids := t.kids[ch := leaf]);
      Separate(t') && Nodes(t') == Nodes(t) + {leaf.at}
  {
    var c: IndexCtx := Kid(t.at, t.prefix, t.isEnd, t.kids, ch, Top);
    assert Nodes(leaf) == {leaf.at};
    UpNodes(c, leaf);
    SeparateUp(c, leaf);
    assert Nodes(t) == {t.at} + MapNodes(c.kids);
  }

  // ----- insertion -----

  datatype InsertResult = Refused | Inserted(duplicate: bool)

  /** The characters of a C string, and the NUL behind them. */
  function CharAt(str: seq<int>, i: nat): int {
    if i < |str| then str[i] else 0
  }

  predicate CString(str: seq<int>) {
    forall i :: 0 <= i < |str| ==> 0 < str[i] < 256
  }

  /** What index_insert accepts: 7-bit characters and a space between key and value. */
  predicate Indexable(str: seq<int>) {
    SPACE in str && forall i :: 0 <= i < |str| ==> str[i] < CHILDMAX
  }

  /** A byte as a char of the compiler at hand. */
  function AsChar(b: int, signed: bool): int {
    if signed && b >= 128 then b - 256 else b
  }

  /** index__checkstring: where chars are signed, bytes above 127 pass as well. */
  method CheckString(str: seq<int>, signed: bool) returns (ok: bool)
    requires CString(str)
    ensures !signed ==> (ok <==> Indexable(str))
    ensures !signed ==> (ok <==> SPACE in str && forall i :: 0 <= i < |str| ==> str[i] < 128)
    ensures signed ==> (ok <==> SPACE in str)
  {
    var spaces := 0;
    for i := 0 to |str|
      invariant signed || forall k :: 0 <= k < i ==> str[k] < CHILDMAX
      invariant spaces > 0 <==> SPACE in str[..i]
    {
      var ch := AsChar(str[i], signed);
      if ch >= CHILDMAX {
        return false;
      }
      if ch == SPACE {
        spaces := spaces + 1;
      }
      assert str[..i + 1] == str[..i] + [str[i]];
    }
    assert str[..|str|] == str;
    ok := spaces > 0;
  }

  /** An index that insertion can start from: no prefix at the root, and no needless nodes. */
  ghost predicate Proper(t: Index, root: IndexNode)
    reads Nodes(t)
  {
    t.at == root && Rep(t) && Separate(t) && Compact(t) && t.prefix == []
  }

  /** What the fields of the node in focus say. */
  lemma AtNode(c: IndexCtx, t: Index, root: IndexNode)
    requires At(c, t, root)
    ensures t.at.prefix == t.prefix && t.at.isEndpoint == t.isEnd && |t.at.children| == CHILDMAX
    ensures forall k: Ch :: t.at.children[k] == if k in t.kids then t.kids[k].at else null
    ensures t.at in Nodes(t) && t.at !in CtxNodes(c)
  {}

  lemma SplitTop(t: Index, j: nat, n: IndexNode)
    requires j < |t.prefix|
    ensures Split(t, j, n).at == t.at && Split(t, j, n).prefix == t.prefix[..j]
  {}

  /** Makes the node's prefix a prefix of the rest of the string, splitting the node if it is not. */
  method MatchPrefix(node: IndexNode, str: seq<int>, i: nat, root: IndexNode, ghost c: IndexCtx, ghost t: Index)
    returns (j: nat, ghost t1: Index, ghost added: set<IndexNode>)
    requires At(c, t, root) && t.at == node && Reached(c, t, t, str, i)
    modifies node
    ensures At(c, t1, root) && t1.at == node && Reached(c, t, t1, str, i)
    ensures j == |t1.prefix| && i + j <= |str| && t1.prefix == str[i..i + j]
    ensures i + j < |str| && str[i + j] in t1.kids ==> t1 == t
    ensures Nodes(t1) == Nodes(t) + added && fresh(added)
  {
    hide At, Nodes, CtxNodes, Has, Compact, Split, Plug, SameStrings, Word;
    AtNode(c, t, root);
    j, t1, added := 0, t, {};
    while j < |node.prefix|
      invariant t1 == t && added == {}
      invariant At(c, t, root) && node.prefix == t.prefix
      invariant j <= |t.prefix| && i + j <= |str| && t.prefix[..j] == str[i..i + j]
    {
      var ch := node.prefix[j];
      if ch != CharAt(str, i + j) {
        var n := SplitNode(node, j, root, c, t);
        ReachedSplit(c, t, str, i, j, n);
        SplitTop(t, j, n);
        t1, added := Split(t, j, n), {n};
        return;
      }
      assert t.prefix[..j + 1] == t.prefix[..j] + [ch];
      assert str[i..i + j + 1] == str[i..i + j] + [ch];
      j := j + 1;
    }
    assert t.prefix[..j] == t.prefix;
  }

  /** Marks the end of a string. */
  method MarkEnd(node: IndexNode, root: IndexNode, ghost c: IndexCtx, ghost t: Index)
    requires At(c, t, root) && t.at == node
    modifies node
    ensures At(c, t.(isEnd := true), root) && Nodes(t.(isEnd := true)) == Nodes(t)
  {
    hide RepCtx, CtxSeparate, CtxNodes, Below, MapNodes, Span, Linked;
    assert allocated(MapNodes(t.kids)) && allocated(CtxNodes(c));
    RepParts(t);
    node.isEndpoint := true;
    RepParts(t.(isEnd := true));
  }

  /** The string ends at the node: it is marked, unless it was already. */
  method EndHere(node: IndexNode, str: seq<int>, i: nat, root: IndexNode, ghost c: IndexCtx, ghost t: Index,
                 ghost t1: Index)
    returns (duplicate: bool, ghost t': Index)
    requires At(c, t1, root) && t1.at == node && Reached(c, t, t1, str, i) && t1.prefix == str[i..]
    modifies node
    ensures Proper(t', root) && Nodes(t') == Nodes(t1) + CtxNodes(c)
    ensures Adds(Plug(c, t), t', str) && (duplicate <==> Has(Plug(c, t), str))
  {
    hide At, Nodes, CtxNodes, Has, Adds, Compact, Plug, Reached;
    AtNode(c, t1, root);
    GainEnd(c, t, t1, str, i);
    duplicate := node.isEndpoint;
    MarkEnd(node, root, c, t1);
    ghost var t2 := t1.(isEnd := true);
    FocusRoot(c, t2, root);
    TopAt(Plug(c, t2), root);
    t' := Plug(c, t2);
  }

  /** The string leaves the trie at the node: the rest goes into a new leaf. */
  method GrowHere(node: IndexNode, ch: Ch, rest: seq<Ch>, str: seq<int>, i: nat, root: IndexNode,
                  ghost c: IndexCtx, ghost t: Index, ghost t1: Index) returns (ghost t': Index, child: IndexNode)
    requires At(c, t1, root) && t1.at == node && Reached(c, t, t1, str, i)
    requires str[i..] == t1.prefix + [ch] + rest && ch !in t1.kids
    modifies node
    ensures Proper(t', root) && fresh(child) && Nodes(t') == Nodes(t1) + CtxNodes(c) + {child}
    ensures Adds(Plug(c, t), t', str) && !Has(Plug(c, t), str)
  {
    hide At, Nodes, CtxNodes, Has, Adds, Compact, Plug, Reached;
    child := AddLeaf(node, ch, rest, root, c, t1);
    GainLeaf(c, t, t1, child, ch, rest, str, i);
    ghost var t2 := WithLeaf(t1, child, ch, rest);
    FocusRoot(c, t2, root);
    TopAt(Plug(c, t2), root);
    t' := Plug(c, t2);
  }

  /**
    One turn of the insertion loop: the string is added at this node, or the node has a child for
    the character behind its prefix.
   */
  method InsertHere(node: IndexNode, str: seq<int>, i: nat, root: IndexNode, ghost c: IndexCtx, ghost t: Index)
    returns (done: bool, duplicate: bool, j: nat, ghost t': Index, ghost added: set<IndexNode>)
    requires At(c, t, root) && t.at == node && Reached(c, t, t, str, i) && Indexable(str) && CString(str)
    modifies node
    ensures done ==> Proper(t', root) && Nodes(t') == Nodes(t) + CtxNodes(c) + added && fresh(added)
    ensures done ==> Adds(Plug(c, t), t', str) && (duplicate <==> Has(Plug(c, t), str))
    ensures !done ==>
      At(c, t, root) && j == |t.prefix| && i + j < |str| && t.prefix == str[i..i + j] && str[i + j] in t.kids
  {
    hide At, Nodes, CtxNodes, Has, Adds, Compact, Plug, SameStrings, Separate, Rep, Proper, Word;
    ghost var t1;
    j, t1, added := MatchPrefix(node, str, i, root, c, t);
    AtNode(c, t1, root);
    t' := t;
    if i + j == |str| {
      duplicate, t' := EndHere(node, str, i, root, c, t, t1);
      return true, duplicate, j, t', added;
    }
    var ch: Ch := str[i + j];
    if node.children[ch] == null {
      assert str[i..] == t1.prefix + [ch] + str[i + j + 1..];
      var child;
      t', child := GrowHere(node, ch, str[i + j + 1..], str, i, root, c, t, t1);
      return true, false, j, t', added + {child};
    }
    done, duplicate := false, false;
  }

  /** Inserting a string adds exactly that string; a string already present is reported.  Chars are unsigned. */
  method IndexInsert(root: IndexNode, str: seq<int>, ghost t0: Index)
    returns (r: InsertResult, ghost t': Index, ghost added: set<IndexNode>)
    requires Proper(t0, root) && CString(str)
    modifies Nodes(t0)
    ensures Proper(t', root) && Nodes(t') == Nodes(t0) + added && fresh(added)
    ensures r.Refused? <==> !Indexable(str)
    ensures if r.Refused? then t' == t0 else Adds(t0, t', str) && (r.duplicate <==> Has(t0, str))
  {
    hide At, Nodes, CtxNodes, Has, Adds, Compact, Plug, Separate, Rep, Reached, Indexable;
    t', added := t0, {};
    assert allocated(Nodes(t0));
    var ok := CheckString(str, false);
    if !ok {
      return Refused, t0, {};
    }
    var node, i := root, 0;
    ghost var c: IndexCtx, t := Top, t0;
    TopAt(t, root);
    ReachedTop(t, str);
    while true
      invariant At(c, t, root) && t.at == node && Plug(c, t) == t0
      invariant i <= |str| && Reached(c, t, t, str, i)
      invariant Nodes(t) + CtxNodes(c) == Nodes(t0)
      decreases |str| - i
    {
      assert node in Nodes(t0) by { AtNode(c, t, root); }
      var done, duplicate, j;
      done, duplicate, j, t', added := InsertHere(node, str, i, root, c, t);
      if done {
        return Inserted(duplicate), t', added;
      }
      AtNode(c, t, root);
      var ch: Ch := str[i + j];
      node := node.children[ch];
      FocusDown(c, t, ch, root);
      ReachedDown(c, t, str, i, ch);
      c, t := Kid(t.at, t.prefix, t.isEnd, t.kids - {ch}, ch, c), t.kids[ch];
      i := i + j + 1;
    }
  }

  lemma TopAt(t: Index, root: IndexNode)
    ensures At(Top, t, root) <==> t.at == root && Rep(t) && Separate(t)
    ensures Nodes(t) + CtxNodes(Top) == Nodes(t) && Plug(Top, t) == t
  {}
}
