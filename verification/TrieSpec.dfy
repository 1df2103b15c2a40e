/**
  The path-compressed trie of index.c as a value: which strings it holds, the shape its nodes
  keep, and what splitting and extending a node does to the strings.
 */
module TrieSpec {

  /** The characters an index may hold: 7-bit, and not the terminating NUL. */
  type Ch = c: int | 0 < c < 128 witness 32

  const CHILDMAX := 128
  const SPACE: int := 32

  /** A node with the piece of string on the edge above it; `at` identifies the node. */
  datatype Trie<A> = Trie(at: A, prefix: seq<Ch>, isEnd: bool, kids: map<Ch, Trie<A>>)

  /** The surroundings of a subtrie: it is child k of a node with the given other children. */
  datatype Ctx<A> =
    | Top
    | Kid(at: A, prefix: seq<Ch>, isEnd: bool, kids: map<Ch, Trie<A>>, k: Ch, up: Ctx<A>)

  function Up<A>(c: Ctx<A>, t: Trie<A>): Trie<A>
    requires c.Kid?
  {
    Trie(c.at, c.prefix, c.isEnd, c.kids[c.k := t])
  }

  function Plug<A>(c: Ctx<A>, t: Trie<A>): Trie<A>
    decreases c
  {
    if c.Top? then t else Plug(c.up, Up(c, t))
  }

  function Child<A>(t: Trie<A>, c: int): Trie<A>
    requires c in t.kids
  {
    var k: Ch := c;
    t.kids[k]
  }

  // ----- the strings of a trie -----

  predicate Has<A>(t: Trie<A>, s: seq<int>)
    decreases |s|
  {
    && t.prefix <= s
    && var r := s[|t.prefix|..];
      if r == [] then t.isEnd else r[0] in t.kids && Has(Child(t, r[0]), r[1..])
  }

  /** t' holds the strings of t, and w. */
  ghost predicate Adds<A>(t: Trie<A>, t': Trie<A>, w: seq<int>) {
    forall s: seq<int> :: Has(t', s) <==> Has(t, s) || s == w
  }

  ghost predicate SameStrings<A>(t: Trie<A>, t': Trie<A>) {
    forall s: seq<int> :: Has(t', s) <==> Has(t, s)
  }

  ghost predicate KidHas<A>(t: Trie<A>, c: int, s: seq<int>) {
    c in t.kids && Has(Child(t, c), s)
  }

  lemma HasKid<A>(t: Trie<A>, c: int, s: seq<int>)
    ensures Has(t, t.prefix + [c] + s) <==> KidHas(t, c, s)
  {
    var w := t.prefix + [c] + s;
    assert w[|t.prefix|..] == [c] + s;
    assert t.prefix <= w;
  }

  lemma HasEnd<A>(t: Trie<A>)
    ensures Has(t, t.prefix) <==> t.isEnd
  {}

  lemma HasPrefix<A>(t: Trie<A>, s: seq<int>)
    ensures Has(t, s) ==> t.prefix <= s
  {}

  /** A string that continues after p. */
  lemma Continues(p: seq<int>, s: seq<int>)
    requires p <= s && p != s
    ensures |p| < |s| && s == p + [s[|p|]] + s[|p| + 1..]
  {}

  /** A string of a trie ends at its root or goes on in one child. */
  lemma HasShape<A>(t: Trie<A>, s: seq<int>)
    requires Has(t, s)
    ensures t.prefix <= s
    ensures s != t.prefix ==>
      && |t.prefix| < |s| && s == t.prefix + [s[|t.prefix|]] + s[|t.prefix| + 1..]
      && KidHas(t, s[|t.prefix|], s[|t.prefix| + 1..])
  {
    HasPrefix(t, s);
    if s != t.prefix {
      Continues(t.prefix, s);
      HasKid(t, s[|t.prefix|], s[|t.prefix| + 1..]);
    }
  }

  lemma SameContinuation(p: seq<int>, a: int, x: seq<int>, b: int, y: seq<int>)
    ensures p + [a] + x == p + [b] + y <==> a == b && x == y
  {
    var s, s' := p + [a] + x, p + [b] + y;
    assert s[|p|..] == [a] + x && s'[|p|..] == [b] + y;
    assert ([a] + x)[1..] == x && ([b] + y)[1..] == y;
    assert ([a] + x)[0] == a && ([b] + y)[0] == b;
  }

  /** To compare two tries with the same prefix, compare the ends and the children. */
  lemma AddsByKids<A>(t: Trie<A>, t': Trie<A>, c: int, w: seq<int>)
    requires t.prefix == t'.prefix && t.isEnd == t'.isEnd
    requires forall b: int, s: seq<int> :: KidHas(t', b, s) <==> KidHas(t, b, s) || (b == c && s == w)
    ensures Adds(t, t', t.prefix + [c] + w)
  {
    hide Has;
    forall s: seq<int> ensures Has(t', s) <==> Has(t, s) || s == t.prefix + [c] + w {
      HasPrefix(t, s);
      HasPrefix(t', s);
      HasEnd(t);
      HasEnd(t');
      if t.prefix <= s && s != t.prefix {
        Continues(t.prefix, s);
        var b, r := s[|t.prefix|], s[|t.prefix| + 1..];
        HasKid(t, b, r);
        HasKid(t', b, r);
        SameContinuation(t.prefix, b, r, c, w);
      }
      assert t.prefix <= t.prefix + [c] + w && t.prefix != t.prefix + [c] + w;
    }
  }

  /** Marking a node adds the string that leads to it. */
  lemma MarkAdds<A>(t: Trie<A>)
    ensures Adds(t, t.(isEnd := true), t.prefix)
  {
    var t' := t.(isEnd := true);
    forall s: seq<int> ensures Has(t', s) <==> Has(t, s) || s == t.prefix {
      if t.prefix <= s && s[|t.prefix|..] == [] { assert s == t.prefix; }
    }
  }

  lemma HasLeaf<A>(at: A, rest: seq<Ch>, s: seq<int>)
    ensures Has(Trie(at, rest, true, map[]), s) <==> s == rest
  {
    if rest <= s && s[|rest|..] == [] { assert s == rest; }
  }

  /** A new leaf adds one string. */
  lemma LeafAdds<A>(t: Trie<A>, at: A, c: Ch, rest: seq<Ch>)
    requires c !in t.kids
    ensures Adds(t, t.(kids := t.kids[c := Trie(at, rest, true, map[])]), t.prefix + [c] + rest)
  {
    hide Has, Adds;
    var t' := t.(kids := t.kids[c := Trie(at, rest, true, map[])]);
    forall b: int, s: seq<int>
      ensures KidHas(t', b, s) <==> KidHas(t, b, s) || (b == c && s == rest)
    {
      HasLeaf(at, rest, s);
    }
    AddsByKids(t, t', c, rest);
  }

  /** Replacing a child changes the strings as the child's change. */
  lemma KidAdds<A>(t: Trie<A>, c: Ch, k: Trie<A>, w: seq<int>)
    requires c in t.kids && Adds(t.kids[c], k, w)
    ensures Adds(t, t.(kids := t.kids[c := k]), t.prefix + [c] + w)
  {
    hide Has;
    var t' := t.(kids := t.kids[c := k]);
    forall b: int, s: seq<int> ensures KidHas(t', b, s) <==> KidHas(t, b, s) || (b == c && s == w) {
      if b == c { assert Child(t', b) == k && Child(t, b) == t.kids[c]; }
    }
    AddsByKids(t, t', c, w);
  }

  /** A node split after j characters of its prefix. */
  function Split<A>(t: Trie<A>, j: nat, at: A): Trie<A>
    requires j < |t.prefix|
  {
    Trie(t.at, t.prefix[..j], false, map[t.prefix[j] := Trie(at, t.prefix[j + 1..], t.isEnd, t.kids)])
  }

  lemma HasLowered<A>(t: Trie<A>, j: nat, at: A, s: seq<int>)
    requires j < |t.prefix|
    ensures Has(Trie(at, t.prefix[j + 1..], t.isEnd, t.kids), s) <==> Has(t, t.prefix[..j + 1] + s)
  {
    var q, w := t.prefix[j + 1..], t.prefix[..j + 1] + s;
    assert t.prefix == t.prefix[..j + 1] + q;
    if q <= s {
      assert w == t.prefix[..j + 1] + (q + s[|q|..]) == t.prefix + s[|q|..];
      assert w[|t.prefix|..] == s[|q|..];
    }
    if t.prefix <= w {
      assert q == w[..|t.prefix|][j + 1..] == s[..|q|];
    }
  }

  /** Splitting does not change the strings. */
  lemma SplitSame<A>(t: Trie<A>, j: nat, at: A)
    requires j < |t.prefix|
    ensures SameStrings(t, Split(t, j, at))
  {
    hide Has;
    var t' := Split(t, j, at);
    var p, c := t.prefix[..j], t.prefix[j];
    assert t.prefix[..j + 1] == p + [c];
    forall s: seq<int> ensures Has(t', s) <==> Has(t, s) {
      HasPrefix(t, s);
      HasPrefix(t', s);
      HasEnd(t');
      if t.prefix <= s { assert p == s[..|t.prefix|][..j] && s[j] == c; }
      if p <= s && s != p {
        Continues(p, s);
        HasKid(t', s[j], s[j + 1..]);
        HasLowered(t, j, at, s[j + 1..]);
      }
    }
  }

  /** The characters from the root to the subtrie. */
  function Word<A>(c: Ctx<A>): seq<Ch> {
    if c.Top? then [] else Word(c.up) + c.prefix + [c.k]
  }

  /** Adding a string to a subtrie adds the string with the path in front to the whole. */
  lemma {:induction false} PlugAdds<A>(c: Ctx<A>, t: Trie<A>, t': Trie<A>, w: seq<int>)
    requires Adds(t, t', w)
    ensures Adds(Plug(c, t), Plug(c, t'), Word(c) + w)
    decreases c
  {
    hide Adds, Has;
    if c.Top? {
      assert Word(c) + w == w;
    } else {
      var u := Up(c, t);
      KidAdds(u, c.k, t', w);
      assert u.(kids := u.kids[c.k := t']) == Up(c, t') by { assert u.kids[c.k := t'] == c.kids[c.k := t']; }
      PlugAdds(c.up, u, Up(c, t'), c.prefix + [c.k] + w);
      assert Word(c) + w == Word(c.up) + (c.prefix + [c.k] + w);
    }
  }

  lemma AddsSame<A>(t: Trie<A>, u: Trie<A>, t': Trie<A>, w: seq<int>)
    requires SameStrings(t, u) && Adds(u, t', w)
    ensures Adds(t, t', w)
  {}

  /** The subtrie decides about the strings that lead through it. */
  lemma {:induction false} HasPlug<A>(c: Ctx<A>, t: Trie<A>, s: seq<int>)
    ensures Has(Plug(c, t), Word(c) + s) <==> Has(t, s)
    decreases c
  {
    hide Has;
    if c.Top? {
      assert Word(c) + s == s;
    } else {
      var u := Up(c, t);
      HasPlug(c.up, u, c.prefix + [c.k] + s);
      HasKid(u, c.k, s);
      assert Word(c) + s == Word(c.up) + (c.prefix + [c.k] + s);
    }
  }

  // ----- the shape -----

  predicate Fit<A>(t: Trie<A>) {
    t.isEnd || |t.kids| >= 2
  }

  /** Below the root, every node ends a string or branches. */
  predicate Compact<A>(t: Trie<A>)
    decreases t
  {
    forall k :: k in t.kids ==> Fit(t.kids[k]) && Compact(t.kids[k])
  }

  lemma {:induction false} SubCompact<A>(c: Ctx<A>, t: Trie<A>)
    requires Compact(Plug(c, t))
    ensures Compact(t) && (c.Kid? ==> Fit(t))
    decreases c
  {
    if c.Kid? {
      SubCompact(c.up, Up(c, t));
      assert Up(c, t).kids[c.k] == t;
    }
  }

  lemma {:induction false} PlugCompact<A>(c: Ctx<A>, t: Trie<A>, t': Trie<A>)
    requires Compact(Plug(c, t)) && Compact(t') && (c.Kid? ==> Fit(t'))
    ensures Compact(Plug(c, t'))
    decreases c
  {
    if c.Kid? {
      var u, u' := Up(c, t), Up(c, t');
      SubCompact(c.up, u);
      assert u.kids.Keys == u'.kids.Keys;
      assert |u.kids| == |u.kids.Keys| == |u'.kids.Keys| == |u'.kids|;
      assert forall k :: k in u'.kids && k != c.k ==> u'.kids[k] == u.kids[k];
      PlugCompact(c.up, u, u');
    }
  }

  lemma SplitCompact<A>(t: Trie<A>, j: nat, at: A)
    requires j < |t.prefix| && Compact(t) && Fit(t)
    ensures Compact(Split(t, j, at))
  {}

  // ----- insertion at a position -----

  lemma {:induction false} RootPrefix<A>(c: Ctx<A>, t: Trie<A>, t': Trie<A>)
    requires c.Top? ==> t'.prefix == t.prefix
    requires t'.at == t.at
    ensures Plug(c, t').prefix == Plug(c, t).prefix && Plug(c, t').at == Plug(c, t).at
    decreases c
  {
    if c.Kid? { RootPrefix(c.up, Up(c, t), Up(c, t')); }
  }

  /** The whole trie, with t replaced by t2, has gained the string. */
  ghost predicate Gained<A>(c: Ctx<A>, t: Trie<A>, t2: Trie<A>, str: seq<int>) {
    Adds(Plug(c, t), Plug(c, t2), str) && Compact(Plug(c, t2)) && Plug(c, t2).prefix == Plug(c, t).prefix
  }

  lemma Gain<A>(c: Ctx<A>, t: Trie<A>, t1: Trie<A>, t2: Trie<A>, str: seq<int>, i: nat)
    requires Compact(Plug(c, t)) && i <= |str| && Word(c) == str[..i]
    requires SameStrings(t, t1) && Adds(t1, t2, str[i..]) && Compact(t2) && (c.Kid? ==> Fit(t2))
    requires (c.Top? ==> t2.prefix == t.prefix) && t2.at == t.at
    ensures Gained(c, t, t2, str) && (Has(Plug(c, t), str) <==> Has(t1, str[i..]))
  {
    hide Compact, Adds, SameStrings, Has, Plug;
    AddsSame(t, t1, t2, str[i..]);
    assert Word(c) + str[i..] == str;
    PlugAdds(c, t, t2, str[i..]);
    PlugCompact(c, t, t2);
    RootPrefix(c, t, t2);
    HasPlug(c, t, str[i..]);
    SameHas(t, t1, str[i..]);
  }

  lemma SameHas<A>(t: Trie<A>, t1: Trie<A>, s: seq<int>)
    requires SameStrings(t, t1)
    ensures Has(t, s) <==> Has(t1, s)
  {}

  /** A position in a trie whose subtrie t, perhaps split into t1, is reached by the first i characters. */
  ghost predicate Reached<A>(c: Ctx<A>, t: Trie<A>, t1: Trie<A>, str: seq<int>, i: nat) {
    && Compact(Plug(c, t)) && Plug(c, t).prefix == [] && i <= |str| && Word(c) == str[..i]
    && SameStrings(t, t1) && Compact(t1) && (c.Kid? ==> t1.isEnd || |t1.kids| >= 1)
    && t1.at == t.at && (c.Top? ==> t1.prefix == t.prefix)
  }

  lemma ReachedTop<A>(t: Trie<A>, str: seq<int>)
    requires Compact(t) && t.prefix == []
    ensures Reached(Top, t, t, str, 0)
  {}

  /** A split node still stands for its strings. */
  lemma ReachedSplit<A>(c: Ctx<A>, t: Trie<A>, str: seq<int>, i: nat, j: nat, at: A)
    requires Reached(c, t, t, str, i) && j < |t.prefix|
    ensures Reached(c, t, Split(t, j, at), str, i) && Split(t, j, at).kids.Keys == {t.prefix[j]}
  {
    hide Has;
    var t1 := Split(t, j, at);
    assert c.Kid?;
    SubCompact(c, t);
    SplitCompact(t, j, at);
    SplitSame(t, j, at);
    assert t1.kids.Keys == {t.prefix[j]};
    assert |t1.kids| == |t1.kids.Keys| == 1;
  }

  /** Moving the focus to a child. */
  lemma Down<A>(c: Ctx<A>, t: Trie<A>, k: Ch)
    requires k in t.kids
    ensures var c' := Kid(t.at, t.prefix, t.isEnd, t.kids - {k}, k, c);
      Up(c', t.kids[k]) == t && Plug(c', t.kids[k]) == Plug(c, t) && Word(c') == Word(c) + t.prefix + [k]
  {
    assert (t.kids - {k})[k := t.kids[k]] == t.kids;
  }

  /** The child for the next character. */
  lemma ReachedDown<A>(c: Ctx<A>, t: Trie<A>, str: seq<int>, i: nat, k: Ch)
    requires Reached(c, t, t, str, i) && i + |t.prefix| < |str| && t.prefix == str[i..i + |t.prefix|]
    requires k == str[i + |t.prefix|] && k in t.kids
    ensures var c' := Kid(t.at, t.prefix, t.isEnd, t.kids - {k}, k, c);
      Reached(c', t.kids[k], t.kids[k], str, i + |t.prefix| + 1) && Plug(c', t.kids[k]) == Plug(c, t)
  {
    hide Has, Compact, Plug, Word, Fit;
    var c' := Kid(t.at, t.prefix, t.isEnd, t.kids - {k}, k, c);
    Down(c, t, k);
    assert str[..i + |t.prefix| + 1] == str[..i] + t.prefix + [k];
    SubCompact(c', t.kids[k]);
    FitKids(t.kids[k]);
  }

  lemma FitKids<A>(t: Trie<A>)
    ensures Fit(t) ==> t.isEnd || |t.kids| >= 1
  {}

  /** The string ends at the node. */
  lemma GainEnd<A>(c: Ctx<A>, t: Trie<A>, t1: Trie<A>, str: seq<int>, i: nat)
    requires Reached(c, t, t1, str, i) && t1.prefix == str[i..]
    ensures Gained(c, t, t1.(isEnd := true), str) && Plug(c, t).prefix == [] && (Has(Plug(c, t), str) <==> t1.isEnd)
  {
    hide Adds, SameStrings, Has, Plug;
    MarkAdds(t1);
    HasEnd(t1);
    Gain(c, t, t1, t1.(isEnd := true), str, i);
  }

  function WithLeaf<A>(t: Trie<A>, at: A, ch: Ch, rest: seq<Ch>): Trie<A> {
    t.(kids := t.kids[ch := Trie(at, rest, true, map[])])
  }

  lemma LeafCompact<A>(t: Trie<A>, at: A, ch: Ch, rest: seq<Ch>)
    requires Compact(t) && ch !in t.kids
    ensures Compact(WithLeaf(t, at, ch, rest)) && |WithLeaf(t, at, ch, rest).kids| == |t.kids| + 1
  {
    var t2 := WithLeaf(t, at, ch, rest);
    assert t2.kids.Keys == t.kids.Keys + {ch};
    assert |t2.kids| == |t2.kids.Keys| == |t.kids.Keys| + 1;
  }

  /** The string continues with a character that has no child. */
  lemma GainLeaf<A>(c: Ctx<A>, t: Trie<A>, t1: Trie<A>, at: A, ch: Ch, rest: seq<Ch>, str: seq<int>, i: nat)
    requires Reached(c, t, t1, str, i) && str[i..] == t1.prefix + [ch] + rest && ch !in t1.kids
    ensures Gained(c, t, WithLeaf(t1, at, ch, rest), str) && Plug(c, t).prefix == [] && !Has(Plug(c, t), str)
  {
    hide Adds, SameStrings, Has, Plug, Compact;
    LeafAdds(t1, at, ch, rest);
    HasKid(t1, ch, rest);
    LeafCompact(t1, at, ch, rest);
    Gain(c, t, t1, WithLeaf(t1, at, ch, rest), str, i);
  }
}
