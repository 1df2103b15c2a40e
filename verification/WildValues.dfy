/**
  The lower half of index.c's wildcard search: below a wildcard every stored pattern is
  completed and handed to fnmatch, and the values of those that match are collected.
 */
module WildValues {
  import opened Sequences
  import opened TrieSpec
  import opened IndexTree
  import opened IndexFile
  import opened IndexSearch
  import opened IndexList

  const STAR: int := 42
  const QUESTION: int := 63
  const BRACKET: int := 91

  /** What fnmatch says about a pattern that starts with a wildcard. */
  type Matcher = (seq<int>, seq<int>) -> bool

  predicate Wild(c: int) {
    c == STAR || c == QUESTION || c == BRACKET
  }

  /**
    How a pattern is tried: the text in front of the first wildcard, backslashes included, has to
    be the key's own, and the rest is left to fnmatch.
   */
  predicate FnMatch(w: Matcher, pattern: seq<int>, key: seq<int>)
    decreases |pattern|
  {
    if pattern == [] then key == []
    else if Wild(pattern[0]) then w(pattern, key)
    else key != [] && key[0] == pattern[0] && FnMatch(w, pattern[1..], key[1..])
  }

  /** Neither a wildcard nor the separator. */
  predicate Literal(p: seq<int>) {
    forall i :: 0 <= i < |p| ==> !Wild(p[i]) && p[i] != SPACE
  }

  // ----- keys and values of the stored strings -----

  /** The key ends at the first space. */
  function KeyLen(s: seq<int>): (n: nat)
    ensures n <= |s| && SPACE !in s[..n] && (n < |s| ==> s[n] == SPACE)
  {
    if s == [] || s[0] == SPACE then 0
    else
      assert forall n: nat :: n <= |s| - 1 ==> s[..n + 1] == [s[0]] + s[1..][..n];
      1 + KeyLen(s[1..])
  }

  function KeyOf(s: seq<int>): seq<int> { s[..KeyLen(s)] }

  function ValOf(s: seq<int>): seq<int> { if KeyLen(s) < |s| then s[KeyLen(s) + 1..] else [] }

  lemma {:induction false} KeyPrefix(p: seq<int>, s: seq<int>)
    requires SPACE !in p
    ensures KeyOf(p + s) == p + KeyOf(s) && ValOf(p + s) == ValOf(s)
  {
    if p == [] {
      assert p + s == s;
      assert p + KeyOf(s) == KeyOf(s);
    } else {
      KeyPrefix(p[1..], s);
      assert (p + s)[1..] == p[1..] + s;
    }
  }

  lemma KeySpace(s: seq<int>)
    ensures KeyOf([SPACE] + s) == [] && ValOf([SPACE] + s) == s
  {}

  /** The values of those strings whose key, behind `buf`, matches; without a space there is no value. */
  function Hits(w: Matcher, buf: seq<int>, sub: seq<int>, ss: seq<seq<int>>): seq<seq<int>> {
    if ss == [] then []
    else
      (if SPACE in ss[0] && FnMatch(w, buf + KeyOf(ss[0]), sub) then [ValOf(ss[0])] else [])
      + Hits(w, buf, sub, ss[1..])
  }

  lemma {:induction false} HitsCat(w: Matcher, buf: seq<int>, sub: seq<int>, a: seq<seq<int>>, b: seq<seq<int>>)
    ensures Hits(w, buf, sub, a + b) == Hits(w, buf, sub, a) + Hits(w, buf, sub, b)
  {
    if a == [] {
      assert a + b == b;
    } else {
      assert (a + b)[1..] == a[1..] + b;
      HitsCat(w, buf, sub, a[1..], b);
    }
  }

  lemma PrependTail(p: seq<int>, ss: seq<seq<int>>)
    requires ss != []
    ensures Prepend(p, ss)[1..] == Prepend(p, ss[1..]) && Prepend(p, ss)[0] == p + ss[0]
  {}

  lemma {:induction false} HitsPrepend(w: Matcher, buf: seq<int>, sub: seq<int>, p: seq<int>, ss: seq<seq<int>>)
    requires SPACE !in p
    ensures Hits(w, buf, sub, Prepend(p, ss)) == Hits(w, buf + p, sub, ss)
  {
    hide FnMatch, Prepend, KeyOf, ValOf;
    if ss != [] {
      PrependTail(p, ss);
      KeyPrefix(p, ss[0]);
      assert buf + (p + KeyOf(ss[0])) == (buf + p) + KeyOf(ss[0]);
      HitsPrepend(w, buf, sub, p, ss[1..]);
    }
  }

  /** Strings whose key ends at once. */
  lemma {:induction false} HitsSpace(w: Matcher, buf: seq<int>, sub: seq<int>, ss: seq<seq<int>>)
    ensures Hits(w, buf, sub, Prepend([SPACE], ss)) == if FnMatch(w, buf, sub) then ss else []
  {
    hide FnMatch, Prepend, KeyOf, ValOf;
    if ss != [] {
      PrependTail([SPACE], ss);
      KeySpace(ss[0]);
      assert buf + [] == buf;
      HitsSpace(w, buf, sub, ss[1..]);
      assert ss == [ss[0]] + ss[1..];
    }
  }

  // ----- a node without the first characters of its piece -----

  function Drop<A>(t: Trie<A>, j: nat): Trie<A>
    requires j <= |t.prefix|
  {
    t.(prefix := t.prefix[j..])
  }

  lemma {:induction false} DropKids<A>(t: Trie<A>, j: nat, k: int)
    requires j <= |t.prefix| && 1 <= k <= CHILDMAX
    ensures KidStrings(t, k) == Prepend(t.prefix[..j], KidStrings(Drop(t, j), k))
    decreases CHILDMAX - k
  {
    hide Prepend;
    var u, p := Drop(t, j), t.prefix[..j];
    if k == CHILDMAX {
      PrependNone(p);
    } else {
      DropKids(t, j, k + 1);
      PrependCat(p, OneKid(u, k), KidStrings(u, k + 1));
      if k in t.kids {
        PrependTwice(p, u.prefix + [k], Strings(Child(t, k)));
        assert p + (u.prefix + [k]) == t.prefix + [k];
      } else {
        PrependNone(p);
      }
    }
  }

  lemma PrependNone(p: seq<int>)
    ensures Prepend(p, []) == []
  {}

  lemma PrependOne(p: seq<int>, s: seq<int>)
    ensures Prepend(p, [s]) == [p + s]
  {}

  lemma PrependEmpty(ss: seq<seq<int>>)
    ensures Prepend([], ss) == ss
  {
    forall i | 0 <= i < |ss| ensures Prepend([], ss)[i] == ss[i] {
      assert [] + ss[i] == ss[i];
    }
  }

  lemma DropStrings<A>(t: Trie<A>, j: nat)
    requires j <= |t.prefix|
    ensures Strings(t) == Prepend(t.prefix[..j], Strings(Drop(t, j)))
  {
    hide Prepend;
    var u, p := Drop(t, j), t.prefix[..j];
    DropKids(t, j, 1);
    var own := if t.isEnd then [u.prefix] else [];
    PrependCat(p, own, KidStrings(u, 1));
    PrependOne(p, u.prefix);
    PrependNone(p);
    assert p + u.prefix == t.prefix;
  }

  // ----- collecting the values -----

  /** The list of values found, the last one first. */
  class Values {
    var list: seq<seq<int>>

    constructor ()
      ensures list == []
    {
      list := [];
    }

    method Add(v: seq<int>)
      modifies this
      ensures list == [v] + old(list)
    {
      list := [v] + list;
    }
  }

  /** The values from children from character k on. */
  ghost function KidValues<A>(base: seq<int>, t: Trie<A>, k: int): seq<seq<int>>
    requires 1 <= k <= CHILDMAX
  {
    Prepend(base, KidStrings(t, k))
  }

  lemma OntoCat(a: seq<seq<int>>, b: seq<seq<int>>, list: seq<seq<int>>)
    ensures Reversed(a + b) + list == Reversed(b) + (Reversed(a) + list)
  {
    ReversedCat(a, b);
  }

  lemma OntoFew(v: seq<int>, list: seq<seq<int>>)
    ensures Reversed([v]) + list == [v] + list && Reversed([]) + list == list
  {
    ReversedOne(v);
  }

  lemma ValuesStart<A>(base: seq<int>, u: Trie<A>, first: nat, last: nat)
    requires Span(u.kids.Keys, first, last)
    ensures 1 <= first <= CHILDMAX
    ensures Prepend(base, Strings(u)) == (if u.isEnd then [base + u.prefix] else []) + KidValues(base, u, first)
  {
    hide Prepend;
    SkipKids(u, 1, first);
    PrependCat(base, if u.isEnd then [u.prefix] else [], KidStrings(u, 1));
    PrependOne(base, u.prefix);
    PrependNone(base);
  }

  lemma ValuesKid<A>(base: seq<int>, u: Trie<A>, k: int)
    requires 1 <= k < CHILDMAX
    ensures KidValues(base, u, k) ==
            (if k in u.kids then Prepend(base + u.prefix + [k], Strings(Child(u, k))) else [])
            + KidValues(base, u, k + 1)
  {
    hide Prepend;
    PrependCat(base, OneKid(u, k), KidStrings(u, k + 1));
    if k in u.kids {
      PrependTwice(base, u.prefix + [k], Strings(Child(u, k)));
      assert base + (u.prefix + [k]) == base + u.prefix + [k];
    } else {
      PrependNone(base);
    }
  }

  lemma ValuesEnd<A>(base: seq<int>, u: Trie<A>, k: int)
    requires 1 <= k <= CHILDMAX && forall x :: x in u.kids ==> x < k
    ensures KidValues(base, u, k) == []
  {
    SkipKids(u, k, CHILDMAX);
    PrependNone(base);
  }

  /** Level 5: all strings below a node, from character j of its piece on, are values. */
  method AllValues<A>(file: seq<Byte>, node: NodeF, j: nat, buf: Buffer, out: Values, ghost t: Trie<A>)
    requires Matches(file, node, t) && j <= |t.prefix|
    modifies buf, out
    ensures buf.bytes == old(buf.bytes)
    ensures out.list == Reversed(Prepend(old(buf.bytes), Strings(Drop(t, j)))) + old(out.list)
    decreases t
  {
    hide Stored, KidMatches, Span, Prepend, Strings, KidValues, Reversed;
    ghost var u := Drop(t, j);
    ghost var base, target := buf.bytes, Reversed(Prepend(buf.bytes, Strings(u))) + out.list;
    SpanBounds(t.kids.Keys, node.first, node.last);
    ValuesStart(base, u, node.first, node.last);
    OntoCat(if u.isEnd then [base + u.prefix] else [], KidValues(base, u, node.first), out.list);
    OntoFew(base + u.prefix, out.list);
    var pushed := buf.PushChars(node.prefix[j..]);
    if node.isEndpoint {
      out.Add(buf.bytes);
    }
    var ch := node.first;
    while ch <= node.last
      invariant 1 <= ch <= CHILDMAX && (node.first <= node.last ==> ch <= node.last + 1)
      invariant buf.bytes == base + u.prefix
      invariant Reversed(KidValues(base, u, ch)) + out.list == target
    {
      ValuesKid(base, u, ch);
      ghost var kid := if ch in t.kids then Prepend(base + u.prefix + [ch], Strings(Child(t, ch))) else [];
      OntoCat(kid, KidValues(base, u, ch + 1), out.list);
      OntoFew([], out.list);
      var child := ReadChild(file, node, ch, t);
      if child.Node? {
        buf.PushChar(ch);
        DropNone(Child(t, ch));
        AllValues(file, child.node, 0, buf, out, Child(t, ch));
        buf.PopChars(1);
      }
      ch := ch + 1;
    }
    SpanAbove(t.kids.Keys, node.first, node.last, ch);
    ValuesEnd(base, u, ch);
    OntoFew([], out.list);
    buf.PopChars(pushed);
  }

  lemma DropNone<A>(t: Trie<A>)
    ensures Drop(t, 0) == t
  {
    assert t.prefix[0..] == t.prefix;
  }

  /** Level 4: all values below, if the pattern collected in the buffer matches. */
  method Match<A>(w: Matcher, file: seq<Byte>, node: NodeF, j: nat, buf: Buffer, sub: seq<int>, out: Values,
                  ghost t: Trie<A>)
    requires Matches(file, node, t) && j <= |t.prefix|
    modifies out
    ensures out.list == Reversed(if FnMatch(w, buf.bytes, sub) then Strings(Drop(t, j)) else []) + old(out.list)
  {
    OntoFew([], out.list);
    if FnMatch(w, buf.bytes, sub) {
      var values := new Buffer();
      AllValues(file, node, j, values, out, t);
      PrependEmpty(Strings(Drop(t, j)));
    }
  }

  /** The values that match below one child, or below the children from character k on. */
  ghost function KidHits<A>(w: Matcher, buf: seq<int>, sub: seq<int>, t: Trie<A>, k: int): seq<seq<int>>
    requires 1 <= k < CHILDMAX
  {
    Hits(w, buf, sub, OneKid(t, k))
  }

  ghost function HitsFrom<A>(w: Matcher, buf: seq<int>, sub: seq<int>, t: Trie<A>, k: int): seq<seq<int>>
    requires 1 <= k <= CHILDMAX
  {
    Hits(w, buf, sub, KidStrings(t, k))
  }

  lemma HitsStep<A>(w: Matcher, buf: seq<int>, sub: seq<int>, t: Trie<A>, k: int)
    requires 1 <= k < CHILDMAX
    ensures HitsFrom(w, buf, sub, t, k) == KidHits(w, buf, sub, t, k) + HitsFrom(w, buf, sub, t, k + 1)
  {
    HitsCat(w, buf, sub, OneKid(t, k), KidStrings(t, k + 1));
  }

  /** A child below a piece without a space. */
  lemma HitsKid<A>(w: Matcher, buf: seq<int>, sub: seq<int>, t: Trie<A>, k: int)
    requires 1 <= k < CHILDMAX && SPACE !in t.prefix
    ensures k !in t.kids ==> KidHits(w, buf, sub, t, k) == []
    ensures k in t.kids && k != SPACE ==>
      KidHits(w, buf, sub, t, k) == Hits(w, buf + t.prefix + [k], sub, Strings(Child(t, k)))
    ensures k in t.kids && k == SPACE ==>
      KidHits(w, buf, sub, t, k) ==
        if FnMatch(w, buf + t.prefix, sub) then Strings(Child(t, k)) else []
  {
    hide FnMatch, Prepend;
    if k in t.kids {
      var ss := Strings(Child(t, k));
      if k != SPACE {
        HitsPrepend(w, buf, sub, t.prefix + [k], ss);
        assert buf + (t.prefix + [k]) == buf + t.prefix + [k];
      } else {
        PrependTwice(t.prefix, [SPACE], ss);
        HitsPrepend(w, buf, sub, t.prefix, Prepend([SPACE], ss));
        HitsSpace(w, buf + t.prefix, sub, ss);
      }
    }
  }

  /** A piece without a space: only the children's strings can have values. */
  lemma HitsStart<A>(w: Matcher, buf: seq<int>, sub: seq<int>, t: Trie<A>, first: nat, last: nat)
    requires SPACE !in t.prefix && Span(t.kids.Keys, first, last)
    ensures 1 <= first <= CHILDMAX && Hits(w, buf, sub, Strings(t)) == HitsFrom(w, buf, sub, t, first)
  {
    SkipKids(t, 1, first);
    assert [] + KidStrings(t, 1) == KidStrings(t, 1);
  }

  lemma HitsEnd<A>(w: Matcher, buf: seq<int>, sub: seq<int>, t: Trie<A>, k: int)
    requires 1 <= k <= CHILDMAX && forall x :: x in t.kids ==> x < k
    ensures HitsFrom(w, buf, sub, t, k) == []
  {
    SkipKids(t, k, CHILDMAX);
  }

  /** The key of all strings ends inside the piece. */
  lemma HitsInside<A>(w: Matcher, buf: seq<int>, sub: seq<int>, t: Trie<A>, j: nat)
    requires j < |t.prefix| && SPACE !in t.prefix[..j] && t.prefix[j] == SPACE
    ensures Hits(w, buf, sub, Strings(t)) ==
      if FnMatch(w, buf + t.prefix[..j], sub) then Strings(Drop(t, j + 1)) else []
  {
    hide FnMatch, Prepend;
    var ss := Strings(Drop(t, j + 1));
    DropStrings(t, j + 1);
    assert t.prefix[..j + 1] == t.prefix[..j] + [SPACE];
    PrependTwice(t.prefix[..j], [SPACE], ss);
    HitsPrepend(w, buf, sub, t.prefix[..j], Prepend([SPACE], ss));
    HitsSpace(w, buf + t.prefix[..j], sub, ss);
  }

  /** Level 3: below a wildcard every pattern is completed and tried. */
  method All<A>(w: Matcher, file: seq<Byte>, node: NodeF, j0: nat, buf: Buffer, sub: seq<int>, out: Values,
                ghost t: Trie<A>)
    requires Matches(file, node, t) && j0 <= |t.prefix|
    modifies buf, out
    ensures buf.bytes == old(buf.bytes)
    ensures out.list == Reversed(Hits(w, old(buf.bytes), sub, Strings(Drop(t, j0)))) + old(out.list)
    decreases t, 1
  {
    hide Matches, Strings, HitsFrom, Hits, FnMatch, Reversed;
    MatchesNode(file, node, t);
    ghost var u := Drop(t, j0);
    ghost var base := buf.bytes;
    var j, pushed := j0, 0;
    while j < |node.prefix|
      invariant j0 <= j <= |t.prefix| && pushed == j - j0
      invariant buf.bytes == base + t.prefix[j0..j] && SPACE !in t.prefix[j0..j]
      invariant out.list == old(out.list)
    {
      var ch := node.prefix[j];
      if ch == SPACE {
        assert u.prefix[..j - j0] == t.prefix[j0..j];
        HitsInside(w, base, sub, u, j - j0);
        assert Drop(u, j - j0 + 1) == Drop(t, j + 1);
        Match(w, file, node, j + 1, buf, sub, out, t);
        buf.PopChars(pushed);
        return;
      }
      assert t.prefix[j0..j + 1] == t.prefix[j0..j] + [ch];
      buf.PushChar(ch);
      pushed := pushed + 1;
      j := j + 1;
    }
    assert t.prefix[j0..j] == u.prefix;
    AllKids(w, file, node, buf, sub, out, base, t, u);
    buf.PopChars(pushed);
  }

  /** The children's part: u is the node without the characters that were collected before. */
  method AllKids<A>(w: Matcher, file: seq<Byte>, node: NodeF, buf: Buffer, sub: seq<int>, out: Values,
                    ghost base: seq<int>,
                    ghost t: Trie<A>, ghost u: Trie<A>)
    requires Matches(file, node, t) && u == t.(prefix := u.prefix) && buf.bytes == base + u.prefix && SPACE !in u.prefix
    modifies buf, out
    ensures buf.bytes == old(buf.bytes)
    ensures out.list == Reversed(Hits(w, base, sub, Strings(u))) + old(out.list)
    decreases t, 0
  {
    hide Stored, KidMatches, Span, Strings, HitsFrom, KidHits, Hits, FnMatch, Reversed;
    ghost var target := Reversed(Hits(w, base, sub, Strings(u))) + out.list;
    SpanBounds(t.kids.Keys, node.first, node.last);
    HitsStart(w, base, sub, u, node.first, node.last);
    var ch := node.first;
    while ch <= node.last
      invariant 1 <= ch <= CHILDMAX && (node.first <= node.last ==> ch <= node.last + 1)
      invariant buf.bytes == base + u.prefix
      invariant Reversed(HitsFrom(w, base, sub, u, ch)) + out.list == target
    {
      HitsStep(w, base, sub, u, ch);
      OntoCat(KidHits(w, base, sub, u, ch), HitsFrom(w, base, sub, u, ch + 1), out.list);
      OntoFew([], out.list);
      HitsKid(w, base, sub, u, ch);
      var child := ReadChild(file, node, ch, t);
      if child.Node? {
        DropNone(Child(t, ch));
        if ch == SPACE {
          Match(w, file, child.node, 0, buf, sub, out, Child(t, ch));
        } else {
          buf.PushChar(ch);
          All(w, file, child.node, 0, buf, sub, out, Child(t, ch));
          buf.PopChars(1);
        }
      }
      ch := ch + 1;
    }
    SpanAbove(t.kids.Keys, node.first, node.last, ch);
    HitsEnd(w, base, sub, u, ch);
    OntoFew([], out.list);
  }
}
