/**
  Searching an index file, as modprobe does: the value of a key is the least of the values
  stored with it, and the whole index is listed in order.
 */
module IndexSearch {
  import opened Sequences
  import opened TrieSpec
  import opened IndexTree
  import opened IndexFile

  // ----- the order of strings -----

  predicate LexLE(a: seq<int>, b: seq<int>) {
    a == [] || (b != [] && (a[0] < b[0] || (a[0] == b[0] && LexLE(a[1..], b[1..]))))
  }

  lemma {:induction false} LexPrefix(p: seq<int>, a: seq<int>, b: seq<int>)
    ensures LexLE(p + a, p + b) <==> LexLE(a, b)
  {
    if p == [] {
      assert p + a == a && p + b == b;
    } else {
      assert (p + a)[1..] == p[1..] + a && (p + b)[1..] == p[1..] + b;
      LexPrefix(p[1..], a, b);
    }
  }

  /** Strings that part after p: their order is that of the characters there. */
  lemma LexParts(p: seq<int>, x: int, a: seq<int>, y: int, b: seq<int>)
    ensures x < y ==> LexLE(p + [x] + a, p + [y] + b)
    ensures x == y ==> (LexLE(p + [x] + a, p + [y] + b) <==> LexLE(a, b))
    ensures LexLE(p, p + [y] + b)
  {
    assert p + [x] + a == p + ([x] + a) && p + [y] + b == p + ([y] + b);
    LexPrefix(p, [x] + a, [y] + b);
    LexPrefix(p, [], [y] + b);
    assert p + [] == p;
    assert ([x] + a)[1..] == a && ([y] + b)[1..] == b;
  }

  /** The order, without recursion: behind what two strings share, one ends or has the smaller character. */
  lemma {:induction false} LexMeans(a: seq<int>, b: seq<int>)
    ensures LexLE(a, b) <==> exists n: nat ::
      && n <= |a| && n <= |b| && a[..n] == b[..n]
      && (n == |a| || (n < |b| && a[n] < b[n]))
  {
    if a != [] && b != [] && a[0] == b[0] {
      LexMeans(a[1..], b[1..]);
      if n: nat :| n <= |a[1..]| && n <= |b[1..]| && a[1..][..n] == b[1..][..n]
                   && (n == |a[1..]| || (n < |b[1..]| && a[1..][n] < b[1..][n])) {
        assert a[..n + 1] == [a[0]] + a[1..][..n] && b[..n + 1] == [b[0]] + b[1..][..n];
      }
      if n: nat :| n <= |a| && n <= |b| && a[..n] == b[..n] && (n == |a| || (n < |b| && a[n] < b[n])) {
        assert n > 0;
        assert a[1..][..n - 1] == a[..n][1..] && b[1..][..n - 1] == b[..n][1..];
      }
    } else {
      assert a[..0] == b[..0] == [];
      if a != [] && b != [] {
        forall n: nat | 0 < n <= |a| && n <= |b| ensures a[..n] != b[..n] {
          assert a[..n][0] == a[0] && b[..n][0] == b[0];
        }
      }
    }
  }

  /** The bytes of words in a file are in the order of the words. */
  lemma WordOrder(n: int, m: int)
    requires 0 <= n < WORD && 0 <= m < WORD
    ensures n <= m <==> LexLE(ToWord(n), ToWord(m))
  {
    WordBytes(n);
    WordBytes(m);
    var v, w := ToWord(n), ToWord(m);
    assert v[1..][1..] == v[2..] && v[2..][1..] == v[3..] && v[3..][1..] == [];
    assert w[1..][1..] == w[2..] && w[2..][1..] == w[3..] && w[3..][1..] == [];
    assert LexLE(v[3..], w[3..]) <==> v[3] <= w[3];
    assert LexLE(v[2..], w[2..]) <==> v[2] < w[2] || (v[2] == w[2] && v[3] <= w[3]);
  }

  lemma LexRefl(p: seq<int>)
    ensures LexLE(p, p)
  {
    LexPrefix(p, [], []);
    assert p + [] == p;
  }

  // ----- the least string of a trie -----

  lemma {:induction false} MinExists(keys: set<Ch>) returns (k: Ch)
    requires keys != {}
    ensures k in keys && forall m :: m in keys ==> k <= m
    decreases |keys|
  {
    k :| k in keys;
    assert keys == (keys - {k}) + {k};
    if keys - {k} != {} {
      var m := MinExists(keys - {k});
      assert forall x :: x in keys ==> x == k || x in keys - {k};
      if m < k { k := m; }
    }
  }

  ghost predicate IsMin(keys: set<Ch>, k: Ch) {
    k in keys && forall m :: m in keys ==> k <= m
  }

  ghost function MinKey(keys: set<Ch>): (k: Ch)
    requires keys != {}
    ensures IsMin(keys, k)
  {
    assert exists k :: IsMin(keys, k) by {
      var k := MinExists(keys);
      assert IsMin(keys, k);
    }
    var k :| IsMin(keys, k);
    k
  }

  /** A node from which every walk down ends at a string. */
  predicate Alive<A>(t: Trie<A>) {
    Fit(t) && Compact(t)
  }

  lemma AliveKids<A>(t: Trie<A>)
    requires Alive(t)
    ensures forall k :: k in t.kids ==> Alive(t.kids[k])
    ensures !t.isEnd ==> t.kids.Keys != {}
  {
    if t.kids.Keys == {} { assert t.kids == map[]; }
  }

  ghost function Least<A>(t: Trie<A>): seq<int>
    requires Alive(t)
    decreases t
  {
    if t.isEnd then t.prefix
    else
      AliveKids(t);
      var k: Ch := MinKey(t.kids.Keys);
      t.prefix + [k] + Least(t.kids[k])
  }

  lemma {:induction false} LeastIsLeast<A>(t: Trie<A>, s: seq<int>)
    requires Alive(t)
    ensures Has(t, Least(t))
    ensures Has(t, s) ==> LexLE(Least(t), s)
    decreases t
  {
    hide Has;
    HasEnd(t);
    LexParts(t.prefix, 0, [], 0, []);
    LexRefl(t.prefix);
    if Has(t, s) { HasShape(t, s); }
    if t.isEnd {
      if Has(t, s) && s != t.prefix {
        LexParts(t.prefix, 0, [], s[|t.prefix|], s[|t.prefix| + 1..]);
      }
    } else {
      AliveKids(t);
      var k: Ch := MinKey(t.kids.Keys);
      HasKid(t, k, Least(t.kids[k]));
      var r := if Has(t, s) then s[|t.prefix| + 1..] else [];
      LeastIsLeast(t.kids[k], r);
      if Has(t, s) {
        LexParts(t.prefix, k, Least(t.kids[k]), s[|t.prefix|], r);
      }
    }
  }

  // ----- exact search -----

  datatype Option<T> = None | Some(value: T)

  method ReadChild<A>(file: seq<Byte>, parent: NodeF, ch: int, ghost t: Trie<A>) returns (r: ReadResult)
    requires Matches(file, parent, t)
    ensures if ch in t.kids then r.Node? && Matches(file, r.node, Child(t, ch)) else r.Null?
  {
    hide Stored;
    if parent.first <= ch <= parent.last {
      assert KidMatches(file, parent, t, ch);
      r := IndexRead(file, parent.children[ch - parent.first], if ch in t.kids then Child(t, ch) else t);
    } else {
      r := Null;
    }
  }

  /** What the least string has behind the node's own piece. */
  ghost function Tail<A>(t: Trie<A>): seq<int>
    requires Alive(t)
  {
    if t.isEnd then []
    else
      AliveKids(t);
      var k: Ch := MinKey(t.kids.Keys);
      [k] + Least(t.kids[k])
  }

  lemma LeastTail<A>(t: Trie<A>)
    requires Alive(t)
    ensures Least(t) == t.prefix + Tail(t)
  {
    if t.isEnd {
      assert t.prefix + [] == t.prefix;
    } else {
      AliveKids(t);
      var k: Ch := MinKey(t.kids.Keys);
      assert t.prefix + [k] + Least(t.kids[k]) == t.prefix + ([k] + Least(t.kids[k]));
    }
  }

  lemma TailParts<A>(t: Trie<A>)
    requires Alive(t)
    ensures if t.isEnd then Tail(t) == []
            else
              t.kids.Keys != {}
              && var k: Ch := MinKey(t.kids.Keys);
                 Alive(t.kids[k]) && Tail(t) == [k] + t.kids[k].prefix + Tail(t.kids[k])
  {
    hide Least, Alive, Fit, Compact;
    AliveKids(t);
    if !t.isEnd {
      var k: Ch := MinKey(t.kids.Keys);
      LeastTail(t.kids[k]);
      assert [k] + Least(t.kids[k]) == [k] + t.kids[k].prefix + Tail(t.kids[k]);
    }
  }

  lemma SpanMin(keys: set<Ch>, first: nat, last: nat)
    requires Span(keys, first, last) && keys != {}
    ensures first in keys && MinKey(keys) == first
  {}

  /** The first value below a node: the least string, less the j characters of the node that belong to the key. */
  method FirstValue<A>(file: seq<Byte>, n: NodeF, j: nat, ghost t: Trie<A>) returns (v: seq<int>)
    requires Matches(file, n, t) && Alive(t) && j <= |t.prefix|
    ensures t.prefix[..j] + v == Least(t)
  {
    hide Alive, Least, Tail, KidMatches;
    var node := n;
    ghost var tn := t;
    v := node.prefix[j..];
    LeastTail(t);
    assert t.prefix[..j] + v == t.prefix;
    while !node.isEndpoint
      invariant Matches(file, node, tn) && Alive(tn) && (t.prefix[..j] + v) + Tail(tn) == Least(t)
      decreases tn
    {
      TailParts(tn);
      SpanMin(tn.kids.Keys, node.first, node.last);
      var first := node.first;
      var r := ReadChild(file, node, first, tn);
      v := v + [first] + r.node.prefix;
      node := r.node;
      tn := Child(tn, first);
    }
    TailParts(tn);
    assert (t.prefix[..j] + v) + [] == t.prefix[..j] + v;
  }

  /** The strings of t that start with `rest` and a space. */
  ghost predicate HasValue<A>(t: Trie<A>, rest: seq<int>, v: seq<int>) {
    Has(t, rest + [SPACE] + v)
  }

  /** The answer to a search: the least value, or none when there is no value. */
  ghost predicate Answers<A>(t: Trie<A>, key: seq<int>, r: Option<seq<int>>) {
    match r
    case None => forall v :: !HasValue(t, key, v)
    case Some(v) => HasValue(t, key, v) && forall v' :: HasValue(t, key, v') ==> LexLE(v, v')
  }

  /** Searching t for key comes down to searching u for rest. */
  ghost predicate SameValues<A>(t: Trie<A>, key: seq<int>, u: Trie<A>, rest: seq<int>) {
    forall v :: HasValue(t, key, v) <==> HasValue(u, rest, v)
  }

  lemma SameAnswers<A>(t: Trie<A>, key: seq<int>, u: Trie<A>, rest: seq<int>, r: Option<seq<int>>)
    requires SameValues(t, key, u, rest) && Answers(u, rest, r)
    ensures Answers(t, key, r)
  {
    hide HasValue;
  }

  /** A least string that starts with `front` answers for front, less its final space. */
  lemma LeastAnswers<A>(t: Trie<A>, rest: seq<int>, v: seq<int>)
    requires Alive(t) && Least(t) == rest + [SPACE] + v
    ensures Answers(t, rest, Some(v))
  {
    hide Has, LexLE;
    LeastIsLeast(t, []);
    forall v' | HasValue(t, rest, v') ensures LexLE(v, v') {
      LeastIsLeast(t, rest + [SPACE] + v');
      LexParts(rest, SPACE, v, SPACE, v');
    }
  }

  /** The key ends inside the node's piece. */
  lemma ValueInside<A>(t: Trie<A>, rest: seq<int>, j: nat, v: seq<int>)
    requires Alive(t) && j < |t.prefix| && t.prefix[..j] == rest && t.prefix[j] == SPACE
    requires t.prefix[..j + 1] + v == Least(t)
    ensures Answers(t, rest, Some(v))
  {
    assert t.prefix[..j + 1] == rest + [SPACE];
    LeastAnswers(t, rest, v);
  }

  /** A character of the piece that the key does not have: no values. */
  lemma Mismatch<A>(t: Trie<A>, rest: seq<int>, j: nat)
    requires j < |t.prefix| && j <= |rest| && t.prefix[..j] == rest[..j]
    requires t.prefix[j] != CharAt(rest, j) && !(t.prefix[j] == SPACE && j == |rest|)
    ensures Answers(t, rest, None)
  {
    hide Has;
    forall v ensures !HasValue(t, rest, v) {
      var s := rest + [SPACE] + v;
      HasPrefix(t, s);
      assert s[j] == if j < |rest| then rest[j] else SPACE;
      assert s[j] != t.prefix[j];
    }
  }

  /** The key goes on, or ends, behind the node: the next character decides. */
  lemma NextChild<A>(t: Trie<A>, rest: seq<int>)
    requires t.prefix <= rest
    ensures var r := rest[|t.prefix|..];
      forall v :: HasValue(t, rest, v) <==>
        if r == [] then KidHas(t, SPACE, v) else KidHas(t, r[0], r[1..] + [SPACE] + v)
  {
    hide Has;
    var r := rest[|t.prefix|..];
    assert rest == t.prefix + r;
    forall v
      ensures HasValue(t, rest, v) <==> if r == [] then KidHas(t, SPACE, v) else KidHas(t, r[0], r[1..] + [SPACE] + v)
    {
      if r == [] {
        assert rest == t.prefix;
        HasKid(t, SPACE, v);
      } else {
        assert r == [r[0]] + r[1..];
        assert rest + [SPACE] + v == t.prefix + [r[0]] + (r[1..] + [SPACE] + v);
        HasKid(t, r[0], r[1..] + [SPACE] + v);
      }
    }
  }

  /** The key ends at the node. */
  lemma EndsHere<A>(t: Trie<A>, rest: seq<int>, v: seq<int>)
    requires t.prefix == rest
    requires SPACE in t.kids ==> Alive(Child(t, SPACE)) && Least(Child(t, SPACE)) == v
    ensures Answers(t, rest, if SPACE in t.kids then Some(v) else None)
  {
    hide Has, LexLE;
    NextChild(t, rest);
    if SPACE in t.kids {
      LeastIsLeast(Child(t, SPACE), []);
      assert KidHas(t, SPACE, v);
      forall v' | HasValue(t, rest, v') ensures LexLE(v, v') {
        LeastIsLeast(Child(t, SPACE), v');
      }
    }
  }

  /** The key goes on in a child, if there is one. */
  lemma GoesOn<A>(t: Trie<A>, rest: seq<int>)
    requires t.prefix < rest
    ensures var c, r := rest[|t.prefix|], rest[|t.prefix| + 1..];
      if c in t.kids then SameValues(t, rest, Child(t, c), r) else Answers(t, rest, None)
  {
    hide Has;
    NextChild(t, rest);
    assert rest[|t.prefix|..][1..] == rest[|t.prefix| + 1..];
  }

  /** Descends the index; the keys are compared literally. */
  method SearchNode<A>(file: seq<Byte>, root: NodeF, key: seq<int>, ghost t: Trie<A>) returns (r: Option<seq<int>>)
    requires Matches(file, root, t) && Compact(t) && t.prefix == [] && CString(key)
    ensures Answers(t, key, r)
  {
    hide Compact, Answers, SameValues, Matches, Least;
    var node, i := root, 0;
    ghost var tn := t;
    assert key[0..] == key;
    SameSelf(t, key);
    while true
      invariant Matches(file, node, tn) && Compact(tn) && (tn.prefix == [] || Alive(tn))
      invariant i <= |key| && SameValues(t, key, tn, key[i..])
      decreases |key| - i
    {
      ghost var rest := key[i..];
      MatchesNode(file, node, tn);
      var j := 0;
      while j < |node.prefix|
        invariant j <= |tn.prefix| && i + j <= |key| && tn.prefix[..j] == rest[..j]
      {
        var ch := node.prefix[j];
        if ch == SPACE && CharAt(key, i + j) == 0 {
          var v := FirstValue(file, node, j + 1, tn);
          ValueInside(tn, rest, j, v);
          SameAnswers(t, key, tn, rest, Some(v));
          return Some(v);
        }
        if ch != CharAt(key, i + j) {
          Mismatch(tn, rest, j);
          SameAnswers(t, key, tn, rest, None);
          return None;
        }
        j := j + 1;
      }
      i := i + j;
      if i == |key| {
        var child := ReadChild(file, node, SPACE, tn);
        if child.Node? {
          AliveChild(tn, SPACE);
          var v := FirstValue(file, child.node, 0, Child(tn, SPACE));
          EndsHere(tn, rest, v);
          SameAnswers(t, key, tn, rest, Some(v));
          return Some(v);
        } else {
          EndsHere(tn, rest, []);
          SameAnswers(t, key, tn, rest, None);
          return None;
        }
      }
      GoesOn(tn, rest);
      var child := ReadChild(file, node, key[i], tn);
      if !child.Node? {
        SameAnswers(t, key, tn, rest, None);
        return None;
      }
      AliveChild(tn, key[i]);
      SameTransitive(t, key, tn, rest, Child(tn, key[i]), key[i + 1..]);
      node, tn := child.node, Child(tn, key[i]);
      i := i + 1;
    }
  }

  lemma SameSelf<A>(t: Trie<A>, key: seq<int>)
    ensures SameValues(t, key, t, key)
  {}

  lemma SameTransitive<A>(t: Trie<A>, a: seq<int>, u: Trie<A>, b: seq<int>, w: Trie<A>, c: seq<int>)
    requires SameValues(t, a, u, b) && SameValues(u, b, w, c)
    ensures SameValues(t, a, w, c)
  {
    hide HasValue;
  }

  lemma MatchesNode<A>(file: seq<Byte>, n: NodeF, t: Trie<A>)
    requires Matches(file, n, t)
    ensures n.prefix == t.prefix && n.isEndpoint == t.isEnd
  {}

  lemma AliveChild<A>(t: Trie<A>, c: int)
    requires Compact(t) && c in t.kids
    ensures Alive(Child(t, c))
  {}

  /** The root of an index file. */
  method ReadRoot<A>(file: seq<Byte>, ghost t: Trie<A>) returns (r: ReadResult)
    ensures IndexOf(file, t) ==> r.Node? && Matches(file, r.node, t)
  {
    if |file| < 8 || WordAt(file, 0) != INDEX_MAGIC {
      return Fatal;
    }
    r := IndexRead(file, WordAt(file, 4), t);
  }

  /** index_search: on a file that holds an index, the least value of the key. */
  method Search<A>(file: seq<Byte>, key: seq<int>, ghost t: Trie<A>) returns (r: Option<seq<int>>)
    requires IndexOf(file, t) && Compact(t) && t.prefix == [] && CString(key)
    ensures Answers(t, key, r)
  {
    var root := ReadRoot(file, t);
    r := SearchNode(file, root.node, key, t);
  }
}
