/**
  Wildcard search of index.c: the stored keys are patterns.  The search walks down the patterns
  character by character and, where it meets a wildcard, hands the rest to fnmatch.  For a '?' that
  lies on an edge of the trie it hands over '*' instead, and if the key itself has the wildcard
  there, it also goes on behind the edge.
 */
module IndexWild {
  import opened Sequences
  import opened TrieSpec
  import opened IndexTree
  import opened IndexFile
  import opened IndexSearch
  import opened IndexList
  import opened WildValues

  // ----- what is found for one string -----

  /** Character n of a string is not inside a piece: a node has its child there. */
  predicate OnEdge<A>(t: Trie<A>, s: seq<int>, n: nat)
    decreases n
  {
    var m := |t.prefix|;
    if n <= m then n == m
    else m < |s| && s[m] in t.kids && OnEdge(Child(t, s[m]), s[m + 1..], n - m - 1)
  }

  function Edges<A>(t: Trie<A>, s: seq<int>): (e: seq<bool>)
    ensures |e| == |s|
  {
    seq(|s|, i requires 0 <= i < |s| => OnEdge(t, s, i))
  }

  /** A wildcard on an edge as the search hands it to fnmatch. */
  function HandedOn(c: int): int {
    if c == QUESTION then STAR else c
  }

  /**
    The values found for the stored string s, of which e says what positions lie on edges: its value
    if fnmatch accepts the rest from a wildcard on, what follows a space at which the key ends, and
    both if the key has a wildcard that is on an edge.
   */
  function Picks(w: Matcher, key: seq<int>, s: seq<int>, e: seq<bool>): seq<seq<int>>
    requires |e| == |s|
  {
    if s == [] then []
    else if Wild(s[0]) then
      Hits(w, [if e[0] then HandedOn(s[0]) else s[0]], key, [s[1..]])
      + (if e[0] && key != [] && key[0] == s[0] then Picks(w, key[1..], s[1..], e[1..]) else [])
    else if s[0] == SPACE && key == [] then [s[1..]]
    else if key != [] && key[0] == s[0] then Picks(w, key[1..], s[1..], e[1..])
    else []
  }

  /** No wildcard. */
  predicate Tame(p: seq<int>) {
    forall i :: 0 <= i < |p| ==> !Wild(p[i])
  }

  /** Text that pattern and key share. */
  lemma {:induction false} PicksBehind(w: Matcher, p: seq<int>, k: seq<int>, s: seq<int>, e: seq<bool>)
    requires Tame(p) && |e| == |p| + |s|
    ensures Picks(w, p + k, p + s, e) == Picks(w, k, s, e[|p|..])
  {
    hide Hits;
    if p == [] {
      assert p + k == k && p + s == s && e[0..] == e;
    } else {
      PicksBehind(w, p[1..], k, s, e[1..]);
      assert (p + k)[1..] == p[1..] + k && (p + s)[1..] == p[1..] + s;
      assert e[1..][|p[1..]|..] == e[|p|..];
    }
  }

  /** The key ends, or differs, at a character that is no wildcard. */
  lemma PicksAt(w: Matcher, p: seq<int>, c: int, k: seq<int>, s: seq<int>, e: seq<bool>)
    requires Tame(p) && !Wild(c) && |e| == |p| + 1 + |s| && (k == [] || k[0] != c)
    ensures Picks(w, p + k, p + [c] + s, e) == if c == SPACE && k == [] then [s] else []
  {
    PicksBehind(w, p, k, [c] + s, e);
    assert p + [c] + s == p + ([c] + s);
    assert ([c] + s)[1..] == s;
  }

  /** A wildcard behind shared text. */
  lemma PicksWild(w: Matcher, p: seq<int>, c: int, k: seq<int>, s: seq<int>, e: seq<bool>)
    requires Tame(p) && Wild(c) && |e| == |p| + 1 + |s|
    ensures Picks(w, p + k, p + [c] + s, e) ==
      Hits(w, [if e[|p|] then HandedOn(c) else c], k, [s])
      + (if e[|p|] && k != [] && k[0] == c then Picks(w, k[1..], s, e[|p| + 1..]) else [])
  {
    hide Hits;
    PicksBehind(w, p, k, [c] + s, e);
    assert p + [c] + s == p + ([c] + s);
    assert ([c] + s)[1..] == s && e[|p|..][1..] == e[|p| + 1..];
  }

  /** The edges of a string below a child. */
  lemma EdgesBelow<A>(t: Trie<A>, c: int, s: seq<int>)
    requires c in t.kids
    ensures var e, m := Edges(t, t.prefix + [c] + s), |t.prefix|;
      |e| == m + 1 + |s| && e[m] && e[m + 1..] == Edges(Child(t, c), s)
  {
    var x, e, m := t.prefix + [c] + s, Edges(t, t.prefix + [c] + s), |t.prefix|;
    assert x[m] == c && x[m + 1..] == s;
    assert forall i :: 0 <= i < |s| ==> e[m + 1..][i] == OnEdge(t, x, m + 1 + i) == OnEdge(Child(t, c), s, i);
  }

  // ----- what is found for many -----

  /** The values found for those strings of the trie t that are listed. */
  function Found<A>(w: Matcher, key: seq<int>, t: Trie<A>, ss: seq<seq<int>>): seq<seq<int>> {
    if ss == [] then [] else Picks(w, key, ss[0], Edges(t, ss[0])) + Found(w, key, t, ss[1..])
  }

  lemma {:induction false} FoundCat<A>(w: Matcher, key: seq<int>, t: Trie<A>, a: seq<seq<int>>, b: seq<seq<int>>)
    ensures Found(w, key, t, a + b) == Found(w, key, t, a) + Found(w, key, t, b)
  {
    hide Picks, Edges;
    if a == [] {
      assert a + b == b;
    } else {
      assert (a + b)[1..] == a[1..] + b;
      FoundCat(w, key, t, a[1..], b);
    }
  }

  /** Below a child on which the key goes on, nothing changes. */
  lemma {:induction false} FoundNext<A>(w: Matcher, k: seq<int>, t: Trie<A>, c: int, ss: seq<seq<int>>)
    requires Tame(t.prefix) && !Wild(c) && c in t.kids
    ensures Found(w, t.prefix + [c] + k, t, Prepend(t.prefix + [c], ss)) == Found(w, k, Child(t, c), ss)
  {
    hide Picks, Edges, Prepend;
    var p := t.prefix + [c];
    if ss != [] {
      PrependTail(p, ss);
      EdgesBelow(t, c, ss[0]);
      PicksBehind(w, p, k, ss[0], Edges(t, p + ss[0]));
      FoundNext(w, k, t, c, ss[1..]);
    }
  }

  /** Below a child that is no wildcard, at which the key ends or differs. */
  lemma {:induction false} FoundLast<A>(w: Matcher, k: seq<int>, t: Trie<A>, c: int, ss: seq<seq<int>>)
    requires Tame(t.prefix) && !Wild(c) && c in t.kids && (k == [] || k[0] != c)
    ensures Found(w, t.prefix + k, t, Prepend(t.prefix + [c], ss)) == if c == SPACE && k == [] then ss else []
  {
    hide Picks, Edges, Prepend;
    if ss != [] {
      PrependTail(t.prefix + [c], ss);
      EdgesBelow(t, c, ss[0]);
      PicksAt(w, t.prefix, c, k, ss[0], Edges(t, t.prefix + [c] + ss[0]));
      FoundLast(w, k, t, c, ss[1..]);
      assert ss == [ss[0]] + ss[1..];
    }
  }

  /** What is found going on behind a wildcard that the key has. */
  function GoneOn<A>(w: Matcher, k: seq<int>, t: Trie<A>, c: int, ss: seq<seq<int>>): seq<seq<int>>
    requires c in t.kids
  {
    if k != [] && k[0] == c then Found(w, k[1..], Child(t, c), ss) else []
  }

  /** Below a wildcard on an edge the rest of the key is tried; a key with that wildcard also goes on. */
  lemma {:induction false} FoundWild<A>(w: Matcher, k: seq<int>, t: Trie<A>, c: int, ss: seq<seq<int>>)
    requires Tame(t.prefix) && Wild(c) && c in t.kids
    ensures multiset(Found(w, t.prefix + k, t, Prepend(t.prefix + [c], ss))) ==
      multiset(Hits(w, [HandedOn(c)], k, ss) + GoneOn(w, k, t, c, ss))
  {
    hide Picks, Edges, Prepend, Hits, Found, GoneOn;
    if ss == [] {
      NoneFound(w, k, t, c);
    } else {
      FoundWild(w, k, t, c, ss[1..]);
      OneWild(w, k, t, c, ss);
      HitsCat(w, [HandedOn(c)], k, [ss[0]], ss[1..]);
      assert ss == [ss[0]] + ss[1..];
      Reorder(Hits(w, [HandedOn(c)], k, [ss[0]]), GoneOn(w, k, t, c, [ss[0]]),
              Hits(w, [HandedOn(c)], k, ss[1..]), GoneOn(w, k, t, c, ss[1..]));
    }
  }

  lemma OneWild<A>(w: Matcher, k: seq<int>, t: Trie<A>, c: int, ss: seq<seq<int>>)
    requires Tame(t.prefix) && Wild(c) && c in t.kids && ss != []
    ensures var p := t.prefix + [c];
      Found(w, t.prefix + k, t, Prepend(p, ss)) ==
      Hits(w, [HandedOn(c)], k, [ss[0]]) + GoneOn(w, k, t, c, [ss[0]]) + Found(w, t.prefix + k, t, Prepend(p, ss[1..]))
    ensures GoneOn(w, k, t, c, ss) == GoneOn(w, k, t, c, [ss[0]]) + GoneOn(w, k, t, c, ss[1..])
  {
    hide Picks, Edges, Prepend, Hits;
    var p := t.prefix + [c];
    PrependTail(p, ss);
    EdgesBelow(t, c, ss[0]);
    PicksWild(w, t.prefix, c, k, ss[0], Edges(t, p + ss[0]));
    assert ss == [ss[0]] + ss[1..] && [ss[0]][1..] == [];
    if k != [] && k[0] == c {
      assert Found(w, k[1..], Child(t, c), [ss[0]]) == Picks(w, k[1..], ss[0], Edges(Child(t, c), ss[0]));
      FoundCat(w, k[1..], Child(t, c), [ss[0]], ss[1..]);
    }
  }

  lemma Reorder<T>(a: seq<T>, b: seq<T>, c: seq<T>, d: seq<T>)
    ensures multiset(a + b) + multiset(c + d) == multiset((a + c) + (b + d))
  {}

  /** The string that ends at the piece has no value. */
  lemma NoValue<A>(w: Matcher, k: seq<int>, t: Trie<A>)
    requires Tame(t.prefix)
    ensures multiset(Found(w, t.prefix + k, t, Strings(t))) == FoundFrom(w, t.prefix + k, t, 1)
  {
    hide Edges;
    var own := if t.isEnd then [t.prefix] else [];
    FoundCat(w, t.prefix + k, t, own, KidStrings(t, 1));
    if t.isEnd {
      PicksBehind(w, t.prefix, k, [], Edges(t, t.prefix));
      assert t.prefix + [] == t.prefix;
      assert own[1..] == [];
    }
  }

  // ----- what is found through one child -----

  ghost function KidFound<A>(w: Matcher, key: seq<int>, t: Trie<A>, d: int): multiset<seq<int>>
    requires 1 <= d < CHILDMAX
  {
    multiset(Found(w, key, t, OneKid(t, d)))
  }

  /** Through the children from character c on. */
  ghost function FoundFrom<A>(w: Matcher, key: seq<int>, t: Trie<A>, c: int): multiset<seq<int>>
    requires 1 <= c <= CHILDMAX
  {
    multiset(Found(w, key, t, KidStrings(t, c)))
  }

  lemma FoundStep<A>(w: Matcher, key: seq<int>, t: Trie<A>, c: int)
    requires 1 <= c < CHILDMAX
    ensures FoundFrom(w, key, t, c) == KidFound(w, key, t, c) + FoundFrom(w, key, t, c + 1)
  {
    FoundCat(w, key, t, OneKid(t, c), KidStrings(t, c + 1));
  }

  /** What the search tries below child d, if that is a wildcard; k is the key behind the piece. */
  ghost function Tries<A>(w: Matcher, k: seq<int>, t: Trie<A>, d: int): seq<seq<int>> {
    if Wild(d) && d in t.kids then Hits(w, [HandedOn(d)], k, Strings(Child(t, d))) else []
  }

  ghost function Tried<A>(w: Matcher, k: seq<int>, t: Trie<A>, d: int): multiset<seq<int>> {
    multiset(Tries(w, k, t, d))
  }

  /** What it finds going on to child d, or, at a space where the key ends, below it. */
  ghost function Onward<A>(w: Matcher, k: seq<int>, t: Trie<A>, d: int): multiset<seq<int>> {
    if d !in t.kids then multiset{}
    else if k == [] then if d == SPACE then multiset(Strings(Child(t, d))) else multiset{}
    else if k[0] == d then multiset(Found(w, k[1..], Child(t, d), Strings(Child(t, d))))
    else multiset{}
  }

  lemma KidParts<A>(w: Matcher, k: seq<int>, t: Trie<A>, d: int)
    requires Tame(t.prefix) && 1 <= d < CHILDMAX
    ensures KidFound(w, t.prefix + k, t, d) == Tried(w, k, t, d) + Onward(w, k, t, d)
  {
    hide Found, Hits, Prepend, Strings;
    if d in t.kids {
      var ss := Strings(Child(t, d));
      if Wild(d) {
        FoundWild(w, k, t, d, ss);
      } else if k != [] && k[0] == d {
        assert t.prefix + k == t.prefix + [d] + k[1..];
        FoundNext(w, k[1..], t, d, ss);
      } else {
        FoundLast(w, k, t, d, ss);
      }
    } else {
      NoneFound(w, k, t, d);
    }
  }

  lemma NoneFound<A>(w: Matcher, k: seq<int>, t: Trie<A>, c: int)
    ensures Found(w, t.prefix + k, t, Prepend(t.prefix + [c], [])) == Found(w, t.prefix + k, t, []) == []
    ensures Hits(w, [HandedOn(c)], k, []) == [] && (c in t.kids ==> GoneOn(w, k, t, c, []) == [])
  {}

  /** The parts of child d, if it is among the children from c on. */
  ghost function TriedFrom<A>(w: Matcher, k: seq<int>, t: Trie<A>, c: int, d: int): multiset<seq<int>> {
    if c <= d then Tried(w, k, t, d) else multiset{}
  }

  ghost function OnwardFrom<A>(w: Matcher, k: seq<int>, t: Trie<A>, c: int, d: int): multiset<seq<int>> {
    if c <= d then Onward(w, k, t, d) else multiset{}
  }

  /** Only the children for the wildcards, and the one where the key goes on, can contribute. */
  lemma {:induction false} Collect<A>(w: Matcher, k: seq<int>, t: Trie<A>, c: int)
    requires Tame(t.prefix) && 1 <= c <= CHILDMAX
    ensures FoundFrom(w, t.prefix + k, t, c) ==
            TriedFrom(w, k, t, c, STAR) + TriedFrom(w, k, t, c, QUESTION) + TriedFrom(w, k, t, c, BRACKET)
            + OnwardFrom(w, k, t, c, if k == [] then SPACE else k[0])
    decreases CHILDMAX - c
  {
    hide KidFound, Tried, Onward, TriedFrom, OnwardFrom, FoundFrom;
    var x := if k == [] then SPACE else k[0];
    if c < CHILDMAX {
      FoundStep(w, t.prefix + k, t, c);
      KidParts(w, k, t, c);
      Collect(w, k, t, c + 1);
      PartStep(w, k, t, c, STAR);
      PartStep(w, k, t, c, QUESTION);
      PartStep(w, k, t, c, BRACKET);
      PartStep(w, k, t, c, x);
    } else {
      PartNone(w, k, t);
    }
  }

  lemma PartStep<A>(w: Matcher, k: seq<int>, t: Trie<A>, c: int, d: int)
    ensures TriedFrom(w, k, t, c, d) == if c == d then Tried(w, k, t, d) else TriedFrom(w, k, t, c + 1, d)
    ensures OnwardFrom(w, k, t, c, d) == if c == d then Onward(w, k, t, d) else OnwardFrom(w, k, t, c + 1, d)
    ensures TriedFrom(w, k, t, c + 1, c) == OnwardFrom(w, k, t, c + 1, c) == multiset{}
    ensures !Wild(c) ==> Tried(w, k, t, c) == multiset{}
    ensures c != (if k == [] then SPACE else k[0]) ==> Onward(w, k, t, c) == multiset{}
  {}

  lemma PartNone<A>(w: Matcher, k: seq<int>, t: Trie<A>)
    ensures FoundFrom(w, t.prefix + k, t, CHILDMAX) == multiset{}
    ensures forall d :: TriedFrom(w, k, t, CHILDMAX, d) == OnwardFrom(w, k, t, CHILDMAX, d) == multiset{}
  {}

  /** Behind a piece the key has: the wildcard children, and the end of the key or its next character. */
  lemma RestSplit<A>(w: Matcher, k: seq<int>, t: Trie<A>)
    requires Tame(t.prefix) && CString(k)
    ensures multiset(Found(w, t.prefix + k, t, Strings(t))) ==
      Tried(w, k, t, STAR) + Tried(w, k, t, QUESTION) + Tried(w, k, t, BRACKET) + (
        if k == [] then Onward(w, k, t, SPACE)
        else if k[0] in t.kids then multiset(Found(w, k[1..], Child(t, k[0]), Strings(Child(t, k[0])))) else multiset{})
  {
    hide Found, Strings, Tried;
    NoValue(w, k, t);
    Collect(w, k, t, 1);
  }

  // ----- the order of the walk -----

  /** The values in the order in which the search comes to them; k is the rest of the key. */
  ghost function Walk<A>(w: Matcher, k: seq<int>, t: Trie<A>): seq<seq<int>>
    decreases |k|
  {
    if t.prefix <= k && Tame(t.prefix) then WalkBehind(w, k[|t.prefix|..], t) else Found(w, k, t, Strings(t))
  }

  /** Behind the piece: below '*', '?' and '[', then below the space at the end of the key, or onward. */
  ghost function WalkBehind<A>(w: Matcher, k: seq<int>, t: Trie<A>): seq<seq<int>>
    decreases |k|, 0
  {
    Tries(w, k, t, STAR) + Tries(w, k, t, QUESTION) + Tries(w, k, t, BRACKET) + (
      if k == [] then if SPACE in t.kids then Strings(Child(t, SPACE)) else []
      else if k[0] in t.kids then Walk(w, k[1..], Child(t, k[0])) else [])
  }

  /** The walk comes to all that is found, and to nothing else. */
  lemma {:induction false} WalkFound<A>(w: Matcher, k: seq<int>, t: Trie<A>)
    requires CString(k)
    ensures multiset(Walk(w, k, t)) == multiset(Found(w, k, t, Strings(t)))
    decreases |k|
  {
    hide Found, Strings, Tries;
    if t.prefix <= k && Tame(t.prefix) {
      var r := k[|t.prefix|..];
      assert k == t.prefix + r;
      RestSplit(w, r, t);
      if r != [] && r[0] in t.kids { WalkFound(w, r[1..], Child(t, r[0])); }
    }
  }

  // ----- inside a piece -----

  /** A wildcard inside the piece. */
  lemma {:induction false} FoundInside<A>(w: Matcher, k: seq<int>, t: Trie<A>, j: nat, ss: seq<seq<int>>)
    requires j < |t.prefix| && Tame(t.prefix[..j]) && Wild(t.prefix[j])
    requires forall s: seq<int> :: s in ss ==> t.prefix[j..] <= s
    ensures Found(w, t.prefix[..j] + k, t, Prepend(t.prefix[..j], ss)) == Hits(w, [], k, ss)
  {
    hide Picks, FnMatch, Prepend, KeyOf, ValOf;
    var p, c := t.prefix[..j], t.prefix[j];
    if ss != [] {
      PrependTail(p, ss);
      assert ss[0] in ss;
      var s := ss[0][1..];
      assert ss[0][0] == c && ss[0] == [c] + s && p + ss[0] == p + [c] + s;
      PicksWild(w, p, c, k, s, Edges(t, p + ss[0]));
      KeyPrefix([c], s);
      assert Hits(w, [c], k, [s]) == Hits(w, [], k, [ss[0]]) by {
        assert [s][1..] == [] && [ss[0]][1..] == [];
        assert [] + KeyOf(ss[0]) == KeyOf(ss[0]);
      }
      forall s: seq<int> | s in ss[1..] ensures t.prefix[j..] <= s { assert s in ss; }
      FoundInside(w, k, t, j, ss[1..]);
      HitsCat(w, [], k, [ss[0]], ss[1..]);
      assert ss == [ss[0]] + ss[1..];
    }
  }

  lemma StringsPrefix<A>(t: Trie<A>, s: seq<int>)
    requires s in Strings(t)
    ensures t.prefix <= s
  {
    hide Strings;
    StringsAre(t, s);
    HasPrefix(t, s);
  }

  /** A wildcard inside a piece whose first j characters the key has. */
  lemma WildInside<A>(w: Matcher, k: seq<int>, t: Trie<A>, j: nat)
    requires j < |t.prefix| && j <= |k| && t.prefix[..j] == k[..j] && Tame(t.prefix[..j]) && Wild(t.prefix[j])
    ensures Found(w, k, t, Strings(t)) == Hits(w, [], k[j..], Strings(Drop(t, j)))
  {
    hide Found, Hits, Strings, Prepend;
    var u := Drop(t, j);
    forall s: seq<int> | s in Strings(u) ensures t.prefix[j..] <= s { StringsPrefix(u, s); }
    DropStrings(t, j);
    assert k == t.prefix[..j] + k[j..];
    FoundInside(w, k[j..], t, j, Strings(u));
  }

  /** The key ends, or differs, at a character of the piece that is no wildcard. */
  lemma {:induction false} FoundStop<A>(w: Matcher, k: seq<int>, t: Trie<A>, j: nat, ss: seq<seq<int>>)
    requires j < |t.prefix| && Tame(t.prefix[..j]) && !Wild(t.prefix[j]) && (k == [] || k[0] != t.prefix[j])
    ensures Found(w, t.prefix[..j] + k, t, Prepend(t.prefix[..j + 1], ss)) ==
      if t.prefix[j] == SPACE && k == [] then ss else []
  {
    hide Picks, Prepend;
    var p, c := t.prefix[..j], t.prefix[j];
    assert t.prefix[..j + 1] == p + [c];
    if ss != [] {
      PrependTail(p + [c], ss);
      PicksAt(w, p, c, k, ss[0], Edges(t, p + [c] + ss[0]));
      FoundStop(w, k, t, j, ss[1..]);
      assert ss == [ss[0]] + ss[1..];
    }
  }

  lemma StopInside<A>(w: Matcher, k: seq<int>, t: Trie<A>, j: nat)
    requires j < |t.prefix| && j <= |k| && t.prefix[..j] == k[..j] && Tame(t.prefix[..j]) && !Wild(t.prefix[j])
    requires t.prefix[j] != CharAt(k, j)
    ensures Found(w, k, t, Strings(t)) == if t.prefix[j] == SPACE && j == |k| then Strings(Drop(t, j + 1)) else []
  {
    hide Found, Strings, Prepend;
    DropStrings(t, j + 1);
    assert k == t.prefix[..j] + k[j..];
    FoundStop(w, k[j..], t, j, Strings(Drop(t, j + 1)));
  }

  lemma NoKeyLeft(w: Matcher, k: seq<int>)
    ensures FnMatch(w, [], k) <==> k == []
  {}

  // ----- the search -----

  /** One child whose edge is a wildcard: `pushed` is what the code collects for the edge. */
  method WildChild<A>(w: Matcher, file: seq<Byte>, node: NodeF, ch: int, pushed: int, buf: Buffer, sub: seq<int>,
                      out: Values, ghost t: Trie<A>)
    requires Matches(file, node, t)
    modifies buf, out
    ensures buf.bytes == old(buf.bytes)
    ensures out.list ==
      Reversed(if ch in t.kids then Hits(w, old(buf.bytes) + [pushed], sub, Strings(Child(t, ch))) else [])
      + old(out.list)
  {
    hide Hits, Strings, Stored, Reversed;
    OntoFew([], out.list);
    var child := ReadChild(file, node, ch, t);
    if child.Node? {
      buf.PushChar(pushed);
      DropNone(Child(t, ch));
      All(w, file, child.node, 0, buf, sub, out, Child(t, ch));
      buf.PopChars(1);
    }
  }

  /** The children whose edges are wildcards. */
  method WildChildren<A>(w: Matcher, file: seq<Byte>, node: NodeF, buf: Buffer, sub: seq<int>, out: Values,
                         ghost t: Trie<A>)
    requires Matches(file, node, t) && buf.bytes == []
    modifies buf, out
    ensures buf.bytes == []
    ensures out.list ==
      Reversed(Tries(w, sub, t, STAR) + Tries(w, sub, t, QUESTION) + Tries(w, sub, t, BRACKET)) + old(out.list)
  {
    hide Hits, Strings, Matches, Reversed;
    OntoCat(Tries(w, sub, t, STAR) + Tries(w, sub, t, QUESTION), Tries(w, sub, t, BRACKET), out.list);
    OntoCat(Tries(w, sub, t, STAR), Tries(w, sub, t, QUESTION), out.list);
    assert [] + [STAR] == [STAR] && [] + [BRACKET] == [BRACKET];
    WildChild(w, file, node, STAR, STAR, buf, sub, out, t);
    WildChild(w, file, node, QUESTION, STAR, buf, sub, out, t);
    WildChild(w, file, node, BRACKET, BRACKET, buf, sub, out, t);
  }

  /** The end of the key: the values below the space. */
  method LastChild<A>(w: Matcher, file: seq<Byte>, node: NodeF, buf: Buffer, out: Values, ghost t: Trie<A>)
    requires Matches(file, node, t) && buf.bytes == []
    modifies out
    ensures out.list == Reversed(if SPACE in t.kids then Strings(Child(t, SPACE)) else []) + old(out.list)
  {
    hide Hits, Strings, Matches, FnMatch, Reversed;
    OntoFew([], out.list);
    var child := ReadChild(file, node, SPACE, t);
    if child.Node? {
      NoKeyLeft(w, []);
      DropNone(Child(t, SPACE));
      Match(w, file, child.node, 0, buf, [], out, Child(t, SPACE));
    }
  }

  /**
    Inside a piece: `done` says that the rest of the search has been decided there, j is the
    number of characters that agree.
   */
  method ScanPiece<A>(w: Matcher, file: seq<Byte>, node: NodeF, buf: Buffer, key: seq<int>, i: nat, out: Values,
                      ghost t: Trie<A>)
    returns (done: bool, j: nat)
    requires Matches(file, node, t) && i <= |key| && CString(key) && buf.bytes == []
    modifies buf, out
    ensures buf.bytes == []
    ensures done ==> out.list == Reversed(Walk(w, key[i..], t)) + old(out.list)
    ensures !done ==>
      out.list == old(out.list) && j == |t.prefix| && i + j <= |key| && t.prefix == key[i..i + j] && Tame(t.prefix)
  {
    hide FnMatch, Hits, Found, Strings, Matches, Walk, Reversed;
    ghost var k := key[i..];
    MatchesNode(file, node, t);
    OntoFew([], out.list);
    j := 0;
    while j < |node.prefix|
      invariant j <= |t.prefix| && i + j <= |key| && t.prefix[..j] == k[..j] && Tame(t.prefix[..j])
      invariant buf.bytes == [] && out.list == old(out.list)
    {
      var ch := node.prefix[j];
      if ch == STAR || ch == QUESTION || ch == BRACKET {
        WildInside(w, k, t, j);
        WalkStops(w, k, t, j);
        All(w, file, node, j, buf, key[i + j..], out, t);
        return true, j;
      }
      if ch == SPACE && CharAt(key, i + j) == 0 {
        assert t.prefix[..j] == k;
        StopInside(w, k, t, j);
        WalkStops(w, k, t, j);
        NoKeyLeft(w, key[i + j..]);
        Match(w, file, node, j + 1, buf, key[i + j..], out, t);
        return true, j;
      }
      if ch != CharAt(key, i + j) {
        StopInside(w, k, t, j);
        WalkStops(w, k, t, j);
        return true, j;
      }
      assert t.prefix[..j + 1] == t.prefix[..j] + [ch];
      j := j + 1;
    }
    assert t.prefix[..j] == t.prefix;
    done := false;
  }

  /** Level 2: walks down the literal part of the patterns. */
  method SearchWildNode<A>(w: Matcher, file: seq<Byte>, root: NodeF, buf: Buffer, key: seq<int>, out: Values,
                           ghost t: Trie<A>)
    requires Matches(file, root, t) && buf.bytes == [] && CString(key)
    modifies buf, out
    ensures buf.bytes == []
    ensures out.list == Reversed(Walk(w, key, t)) + old(out.list)
  {
    hide FnMatch, Found, Strings, Tries, Matches, Tame, Walk, CharAt, Reversed;
    var node, i := root, 0;
    ghost var tn, target := t, Reversed(Walk(w, key, t)) + out.list;
    assert key[0..] == key;
    OntoFew([], out.list);
    while true
      invariant Matches(file, node, tn)
      invariant i <= |key| && buf.bytes == []
      invariant Reversed(Walk(w, key[i..], tn)) + out.list == target
      decreases |key| - i
    {
      var done, j := ScanPiece(w, file, node, buf, key, i, out, tn);
      if done {
        return;
      }
      ghost var before := out.list;
      WalkGoesOn(w, key, i, j, tn, before);
      i := i + j;
      WildChildren(w, file, node, buf, key[i..], out, tn);
      if i == |key| {
        LastChild(w, file, node, buf, out, tn);
        return;
      }
      var child := ReadChild(file, node, key[i], tn);
      if !child.Node? {
        return;
      }
      node, tn := child.node, Child(tn, key[i]);
      i := i + 1;
    }
  }

  /** The walk ends inside a piece. */
  lemma WalkStops<A>(w: Matcher, k: seq<int>, t: Trie<A>, j: nat)
    requires j < |t.prefix| && (Wild(t.prefix[j]) || t.prefix[j] != CharAt(k, j))
    ensures Walk(w, k, t) == Found(w, k, t, Strings(t))
  {}

  /** The walk goes on behind a piece: first the wildcards, then the rest. */
  lemma WalkGoesOn<A>(w: Matcher, key: seq<int>, i: nat, j: nat, t: Trie<A>, list: seq<seq<int>>)
    requires Tame(t.prefix) && i + j <= |key| && j == |t.prefix| && t.prefix == key[i..i + j]
    ensures var k := key[i + j..];
      var wild := Tries(w, k, t, STAR) + Tries(w, k, t, QUESTION) + Tries(w, k, t, BRACKET);
      var rest :=
        if k == [] then if SPACE in t.kids then Strings(Child(t, SPACE)) else []
        else if k[0] in t.kids then Walk(w, key[i + j + 1..], Child(t, k[0])) else [];
      Reversed(Walk(w, key[i..], t)) + list == Reversed(rest) + (Reversed(wild) + list)
  {
    hide Tries, Strings, Reversed;
    var k := key[i + j..];
    assert key[i..][j..] == k && t.prefix <= key[i..];
    var wild := Tries(w, k, t, STAR) + Tries(w, k, t, QUESTION) + Tries(w, k, t, BRACKET);
    var rest :=
      if k == [] then if SPACE in t.kids then Strings(Child(t, SPACE)) else []
      else if k[0] in t.kids then Walk(w, key[i + j + 1..], Child(t, k[0])) else [];
    if k != [] { assert k[1..] == key[i + j + 1..]; }
    assert Walk(w, key[i..], t) == wild + rest;
    OntoCat(wild, rest, list);
  }

  /**
    index_searchwild: for each stored string the values that the search picks for it, those it came
    to last in front.
   */
  method SearchWild<A>(w: Matcher, file: seq<Byte>, key: seq<int>, ghost t: Trie<A>) returns (out: Values)
    requires IndexOf(file, t) && CString(key)
    ensures out.list == Reversed(Walk(w, key, t))
    ensures multiset(out.list) == multiset(Found(w, key, t, Strings(t)))
  {
    hide Found, Strings, Walk, Reversed;
    WalkFound(w, key, t);
    ReversedMultiset(Walk(w, key, t));
    var root := ReadRoot(file, t);
    var buf := new Buffer();
    out := new Values();
    SearchWildNode(w, file, root.node, buf, key, out, t);
  }
}
