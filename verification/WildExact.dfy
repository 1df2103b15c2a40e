/**
  What index.c's wildcard search finds against what fnmatch accepts: the position of the first '?'
  in terms of the stored strings alone, and the exact condition under which the search is right.
 */
module WildExact {
  import opened TrieSpec
  import opened IndexTree
  import opened IndexSearch
  import opened IndexList
  import opened IndexSize
  import opened WildValues
  import opened IndexWild
  import opened ShellPattern

  // ----- edges, without the trie -----

  /** The two strings part at position n. */
  predicate PartAt(s: seq<int>, o: seq<int>, n: nat) {
    n < |s| && n <= |o| && o[..n] == s[..n] && (|o| == n || o[n] != s[n])
  }

  /** Position n of a stored string lies on an edge: it comes first, or another string parts there. */
  predicate EdgeAt(all: seq<seq<int>>, s: seq<int>, n: nat) {
    n == 0 || exists o :: o in all && PartAt(s, o, n)
  }

  ghost predicate Forks<A>(t: Trie<A>, s: seq<int>, n: nat) {
    exists o: seq<int> :: Has(t, o) && PartAt(s, o, n)
  }

  /** At the end of a piece there is a string that ends there or goes on differently. */
  lemma ForkHere<A>(t: Trie<A>, s: seq<int>)
    requires Alive(t) && Has(t, s) && |t.prefix| < |s|
    ensures Forks(t, s, |t.prefix|)
  {
    hide Has, Least;
    HasPrefix(t, s);
    HasEnd(t);
    if t.isEnd {
      assert PartAt(s, t.prefix, |t.prefix|);
    } else {
      var c := s[|t.prefix|];
      HasShape(t, s);
      var d := OtherKey(t.kids.Keys, c);
      AliveKids(t);
      var below := Least(t.kids[d]);
      LeastIsLeast(t.kids[d], below);
      HasKid(t, d, below);
      var o := t.prefix + [d] + below;
      assert o[|t.prefix|] == d && o[..|t.prefix|] == t.prefix;
      assert PartAt(s, o, |t.prefix|);
    }
  }

  lemma ForkInside<A>(t: Trie<A>, s: seq<int>, n: nat)
    requires Has(t, s) && n < |t.prefix|
    ensures !Forks(t, s, n)
  {
    hide Has;
    HasPrefix(t, s);
    forall o: seq<int> | Has(t, o) ensures !PartAt(s, o, n) {
      HasPrefix(t, o);
      assert o[n] == t.prefix[n] == s[n];
    }
  }

  lemma ForkBelow<A>(t: Trie<A>, s: seq<int>, n: nat)
    requires Has(t, s) && |t.prefix| < n < |s|
    ensures s[|t.prefix|] in t.kids && Has(Child(t, s[|t.prefix|]), s[|t.prefix| + 1..])
    ensures Forks(t, s, n) <==> Forks(Child(t, s[|t.prefix|]), s[|t.prefix| + 1..], n - |t.prefix| - 1)
  {
    hide Has;
    HasShape(t, s);
    var m := |t.prefix|;
    var c, u := s[m], s[m + 1..];
    if Forks(t, s, n) {
      var o: seq<int> :| Has(t, o) && PartAt(s, o, n);
      HasShape(t, o);
      assert o[m] == o[..n][m] == s[..n][m] == c;
      var v := o[m + 1..];
      assert v[..n - m - 1] == o[..n][m + 1..] == s[..n][m + 1..] == u[..n - m - 1];
      assert PartAt(u, v, n - m - 1);
    }
    if Forks(Child(t, c), u, n - m - 1) {
      var v: seq<int> :| Has(Child(t, c), v) && PartAt(u, v, n - m - 1);
      HasKid(t, c, v);
      var o := t.prefix + [c] + v;
      assert o[..n] == t.prefix + [c] + v[..n - m - 1] == t.prefix + [c] + u[..n - m - 1] == s[..n];
      assert PartAt(s, o, n);
    }
  }

  lemma {:induction false} EdgeForks<A>(t: Trie<A>, s: seq<int>, n: nat)
    requires Compact(t) && Has(t, s) && n < |s| && (Fit(t) || |t.prefix| < n)
    ensures OnEdge(t, s, n) <==> Forks(t, s, n)
    decreases n
  {
    hide Has, Forks;
    var m := |t.prefix|;
    if n < m {
      ForkInside(t, s, n);
    } else if n == m {
      ForkHere(t, s);
    } else {
      ForkBelow(t, s, n);
      EdgeForks(Child(t, s[m]), s[m + 1..], n - m - 1);
    }
  }

  /** In an index, whether a position lies on an edge depends on the stored strings alone. */
  lemma OnEdgeStrings<A>(t: Trie<A>, all: seq<seq<int>>, s: seq<int>, n: nat)
    requires Compact(t) && t.prefix == [] && (forall o :: Has(t, o) <==> o in all) && s in all && n < |s|
    ensures OnEdge(t, s, n) <==> EdgeAt(all, s, n)
  {
    hide Has;
    if n > 0 {
      EdgeForks(t, s, n);
    }
  }

  // ----- what is found, without the trie -----

  /** Which positions of a string lie on edges, if `all` is what the index holds. */
  function EdgesAt(all: seq<seq<int>>, s: seq<int>): (e: seq<bool>)
    ensures |e| == |s|
  {
    seq(|s|, i requires 0 <= i < |s| => EdgeAt(all, s, i))
  }

  /** The values found for the strings ss, for any key. */
  function FoundAmong(w: Matcher, key: seq<int>, all: seq<seq<int>>, ss: seq<seq<int>>): seq<seq<int>> {
    if ss == [] then [] else Picks(w, key, ss[0], EdgesAt(all, ss[0])) + FoundAmong(w, key, all, ss[1..])
  }

  lemma {:induction false} FoundStrings<A>(w: Matcher, key: seq<int>, t: Trie<A>, all: seq<seq<int>>, ss: seq<seq<int>>)
    requires Indexes(t, all) && forall s: seq<int> :: s in ss ==> s in all
    ensures Found(w, key, t, ss) == FoundAmong(w, key, all, ss)
  {
    hide Has, Picks, EdgeAt, OnEdge, Compact;
    if ss != [] {
      assert ss[0] in ss;
      forall i | 0 <= i < |ss[0]|
        ensures OnEdge(t, ss[0], i) == EdgeAt(all, ss[0], i)
      {
        OnEdgeStrings(t, all, ss[0], i);
      }
      assert Edges(t, ss[0]) == EdgesAt(all, ss[0]);
      FoundStrings(w, key, t, all, ss[1..]);
    }
  }

  // ----- how the search reads a string, if the key is plain -----

  /** Where the literal part of a string's key ends: at its first wildcard, or behind the key. */
  function WildAt(s: seq<int>): (n: nat)
    ensures n <= |s| && Literal(s[..n]) && (n < |s| ==> Wild(s[n]) || s[n] == SPACE)
  {
    if s == [] || s[0] == SPACE || Wild(s[0]) then 0
    else
      assert forall n: nat :: n <= |s| - 1 ==> s[..n + 1] == [s[0]] + s[1..][..n];
      1 + WildAt(s[1..])
  }

  /** The key's first wildcard is a '?'. */
  predicate Asks(s: seq<int>) {
    WildAt(s) < |s| && s[WildAt(s)] == QUESTION
  }

  /** A '?' read as '*', if it lies on an edge. */
  function AsRead(s: seq<int>, edge: bool): seq<int> {
    if Asks(s) && edge then s[WildAt(s) := STAR] else s
  }

  /** The string has a value, and its key, as the search reads it, matches. */
  predicate Accepts(w: Matcher, key: seq<int>, s: seq<int>, edge: bool) {
    SPACE in s && FnMatch(w, KeyOf(AsRead(s, edge)), key)
  }

  lemma ReadLater(c: int, s: seq<int>, edge: bool)
    requires !Wild(c) && c != SPACE
    ensures WildAt([c] + s) == 1 + WildAt(s) && AsRead([c] + s, edge) == [c] + AsRead(s, edge)
  {
    var x := [c] + s;
    assert x[1..] == s;
    assert WildAt(s) < |s| ==> x[1 + WildAt(s)] == s[WildAt(s)];
    assert Asks(s) ==> x[1 + WildAt(s) := STAR] == [c] + s[WildAt(s) := STAR];
  }

  /** For a plain key at most one value is picked, and only if the pattern is accepted. */
  lemma {:induction false} PicksPlain(w: Matcher, key: seq<int>, s: seq<int>, e: seq<bool>)
    requires PlainKey(key) && |e| == |s|
    ensures Picks(w, key, s, e) == if Accepts(w, key, s, WildAt(s) < |s| && e[WildAt(s)]) then [ValOf(s)] else []
    decreases |s|
  {
    if s == [] {
    } else if Wild(s[0]) {
      PicksFirst(w, key, s, e);
    } else if s[0] == SPACE {
      KeySpace(s[1..]);
      assert s == [SPACE] + s[1..];
    } else {
      PicksLater(w, key, s, e);
    }
  }

  lemma ReadFirst(s: seq<int>, edge: bool)
    requires s != [] && Wild(s[0])
    ensures WildAt(s) == 0 && AsRead(s, edge) == [if edge then HandedOn(s[0]) else s[0]] + s[1..]
  {
    assert s == [s[0]] + s[1..];
  }

  lemma HitsOne(w: Matcher, c: int, key: seq<int>, s: seq<int>)
    ensures Hits(w, [c], key, [s]) == if SPACE in s && FnMatch(w, [c] + KeyOf(s), key) then [ValOf(s)] else []
  {
    hide FnMatch, KeyOf, ValOf;
    assert [s][1..] == [];
  }

  lemma PicksFirst(w: Matcher, key: seq<int>, s: seq<int>, e: seq<bool>)
    requires PlainKey(key) && |e| == |s| && s != [] && Wild(s[0])
    ensures Picks(w, key, s, e) == if Accepts(w, key, s, e[0]) then [ValOf(s)] else []
  {
    hide FnMatch, KeyOf, ValOf, AsRead, Hits;
    var c := if e[0] then HandedOn(s[0]) else s[0];
    ReadFirst(s, e[0]);
    HitsOne(w, c, key, s[1..]);
    KeyPrefix([c], s[1..]);
    KeyPrefix([s[0]], s[1..]);
    assert s == [s[0]] + s[1..];
    assert key != [] ==> key[0] != s[0];
  }

  lemma {:induction false} PicksLater(w: Matcher, key: seq<int>, s: seq<int>, e: seq<bool>)
    requires PlainKey(key) && |e| == |s| && s != [] && !Wild(s[0]) && s[0] != SPACE
    ensures Picks(w, key, s, e) == if Accepts(w, key, s, WildAt(s) < |s| && e[WildAt(s)]) then [ValOf(s)] else []
    decreases |s|, 0
  {
    hide KeyOf, ValOf;
    var c, r := s[0], s[1..];
    assert s == [c] + r;
    var edge := WildAt(r) < |r| && e[1..][WildAt(r)];
    ReadLater(c, r, edge);
    KeyPrefix([c], AsRead(r, edge));
    KeyPrefix([c], r);
    assert ([c] + KeyOf(AsRead(r, edge)))[1..] == KeyOf(AsRead(r, edge));
    if key != [] && key[0] == c {
      PicksPlain(w, key[1..], r, e[1..]);
    }
  }

  /** A string as the search reads it, if `all` is what the index holds. */
  function Seen(all: seq<seq<int>>, s: seq<int>): seq<int> {
    AsRead(s, EdgeAt(all, s, WildAt(s)))
  }

  /** The values of the strings that are accepted. */
  function Accepted(w: Matcher, key: seq<int>, all: seq<seq<int>>, ss: seq<seq<int>>): seq<seq<int>> {
    if ss == [] then []
    else (if FnMatch(w, KeyOf(Seen(all, ss[0])), key) then [ValOf(ss[0])] else []) + Accepted(w, key, all, ss[1..])
  }

  /** For a plain key, each string whose pattern is accepted counts once, with its value. */
  lemma {:induction false} FoundPlain(w: Matcher, key: seq<int>, all: seq<seq<int>>, ss: seq<seq<int>>)
    requires PlainKey(key) && forall s: seq<int> :: s in ss ==> SPACE in s
    ensures FoundAmong(w, key, all, ss) == Accepted(w, key, all, ss)
  {
    hide Picks, FnMatch, KeyOf, ValOf, EdgeAt, PlainKey;
    if ss != [] {
      assert ss[0] in ss;
      PicksPlain(w, key, ss[0], EdgesAt(all, ss[0]));
      FoundPlain(w, key, all, ss[1..]);
    }
  }

  /** The values that should be found: those of the strings whose pattern matches. */
  function Matching(key: seq<int>, ss: seq<seq<int>>): seq<seq<int>> {
    if ss == [] then []
    else (if Glob(KeyOf(ss[0]), key) then [ValOf(ss[0])] else []) + Matching(key, ss[1..])
  }

  // ----- one string -----

  /** The pattern's text up to its first wildcard, and the rest. */
  function Lead(s: seq<int>): seq<int> { s[..WildAt(s)] }

  function Behind(s: seq<int>): seq<int>
    requires SPACE in s
  {
    KeyParts(s);
    KeyOf(s)[WildAt(s)..]
  }

  lemma KeyParts(s: seq<int>)
    requires SPACE in s
    ensures WildAt(s) <= |KeyOf(s)| && KeyOf(s) == s[..WildAt(s)] + KeyOf(s)[WildAt(s)..]
    ensures KeyOf(s)[WildAt(s)..] == [] || Wild(KeyOf(s)[WildAt(s)..][0])
    ensures Asks(s) <==> KeyOf(s)[WildAt(s)..] != [] && KeyOf(s)[WildAt(s)..][0] == QUESTION
  {
    var n, l := WildAt(s), KeyLen(s);
    assert s[..|s|] == s;
    assert forall i :: 0 <= i < n ==> s[..n][i] == s[i] && s[i] != SPACE;
    assert forall i :: 0 <= i < l ==> s[..l][i] == s[i] && s[i] != SPACE;
  }

  /** The rest as the search reads it. */
  function BehindRead(s: seq<int>, edge: bool): seq<int>
    requires SPACE in s
  {
    KeyParts(s);
    if Asks(s) && edge then [STAR] + Behind(s)[1..] else Behind(s)
  }

  lemma ReadParts(s: seq<int>, edge: bool)
    requires SPACE in s
    ensures KeyOf(AsRead(s, edge)) == Lead(s) + BehindRead(s, edge)
  {
    hide KeyOf;
    KeyParts(s);
    if Asks(s) && edge {
      var n, k := WildAt(s), KeyOf(s);
      KeyRest(s, n);
      var t := s[n + 1..];
      assert s[n := STAR] == s[..n] + [STAR] + t;
      KeyPrefix(s[..n] + [STAR], t);
    }
  }

  lemma KeyRest(s: seq<int>, n: nat)
    requires SPACE in s && n < |KeyOf(s)|
    ensures n < |s| && KeyOf(s)[n + 1..] == KeyOf(s[n + 1..])
  {
    var p := s[..n + 1];
    assert s == p + s[n + 1..];
    assert forall i :: 0 <= i < |p| ==> p[i] == KeyOf(s)[i];
    KeyPrefix(p, s[n + 1..]);
  }

  /**
    The search tries a stored pattern differently from fnmatch on some key: its first wildcard is a
    '?' on an edge, or a backslash comes before it; and the rest is a pattern that some key matches.
   */
  predicate Misread(s: seq<int>, edge: bool)
    requires SPACE in s
  {
    Live(Behind(s)) && ((Asks(s) && edge) || !Unescaped(s))
  }

  predicate Unescaped(s: seq<int>) {
    BACKSLASH !in Lead(s)
  }

  /** The search and fnmatch on a pattern and a key, part by part. */
  lemma BothParts(s: seq<int>, edge: bool, key: seq<int>)
    requires SPACE in s && PlainKey(key)
    ensures FnMatch(Glob, KeyOf(AsRead(s, edge)), key) <==>
      Lead(s) <= key && Glob(BehindRead(s, edge), key[|Lead(s)|..])
    ensures Glob(KeyOf(s), key) <==> Closed(Lead(s)) && Text(Lead(s)) <= key && Glob(Behind(s), key[|Text(Lead(s))|..])
  {
    hide Glob, KeyOf, Closed, Text;
    KeyParts(s);
    ReadParts(s, edge);
    TriedLiteral(Glob, Lead(s), BehindRead(s, edge), key);
    GlobLiteral(Lead(s), Behind(s), key);
    if Lead(s) <= key { TriedRest(BehindRead(s, edge), key[|Lead(s)|..]); }
  }

  lemma TriedRest(p: seq<int>, key: seq<int>)
    requires p == [] || Wild(p[0])
    ensures FnMatch(Glob, p, key) <==> Glob(p, key)
  {}

  lemma LiveRead(s: seq<int>, edge: bool)
    requires SPACE in s
    ensures Live(BehindRead(s, edge)) <==> Live(Behind(s))
  {
    KeyParts(s);
    if Asks(s) {
      LiveQuestion(Behind(s));
      assert ([STAR] + Behind(s)[1..])[1..] == Behind(s)[1..];
    }
  }

  lemma LiveQuestion(p: seq<int>)
    requires p != [] && p[0] == QUESTION
    ensures Live(p) <==> Live(p[1..])
    ensures forall k: seq<int> :: Glob(p, k) <==> k != [] && Glob(p[1..], k[1..])
  {
    assert Plain(97) && Takes(p, 97);
  }

  lemma ReadWell(s: seq<int>, edge: bool, key: seq<int>)
    requires SPACE in s && !Misread(s, edge) && PlainKey(key)
    ensures FnMatch(Glob, KeyOf(AsRead(s, edge)), key) <==> Glob(KeyOf(s), key)
  {
    hide Glob, KeyOf, FnMatch, Live, AsRead, Closed;
    BothParts(s, edge, key);
    LiveRead(s, edge);
    if !Live(Behind(s)) {
      NoneMatches(Behind(s), key, |Text(Lead(s))|);
      NoneMatches(BehindRead(s, edge), key, |Lead(s)|);
    } else {
      assert BehindRead(s, edge) == Behind(s) && Text(Lead(s)) == Lead(s);
    }
  }

  lemma NoneMatches(p: seq<int>, key: seq<int>, m: nat)
    requires !Live(p) && PlainKey(key)
    ensures m <= |key| ==> !Glob(p, key[m..])
  {
    hide Glob, Live;
    if m <= |key| && Glob(p, key[m..]) { MatchedLive(p, key[m..]); }
  }

  /** For '*' in the place of '?' nothing is lost and the shortest match is gained. */
  lemma StarForQuestion(p: seq<int>, k: seq<int>)
    requires p != [] && p[0] == QUESTION
    ensures Glob(p, k) ==> Glob([STAR] + p[1..], k)
    ensures Glob(p[1..], k) && |k| == Shortest(p[1..]) ==> Glob([STAR] + p[1..], k) && !Glob(p, k)
  {
    var q := [STAR] + p[1..];
    assert q[1..] == p[1..];
    LiveQuestion(p);
    if k != [] && Glob(p[1..], k[1..]) { GlobLength(p[1..], k[1..]); }
  }

  lemma SplitKey(l: seq<int>, k: seq<int>)
    requires Literal(l) && CString(l) && PlainKey(k)
    ensures PlainKey(l + k) && l <= l + k && (l + k)[|l|..] == k
  {}

  lemma TextPlain(l: seq<int>)
    requires Literal(l) && CString(l)
    ensures Literal(Text(l)) && CString(Text(l))
  {
    var t := Text(l);
    forall i | 0 <= i < |t| ensures !Wild(t[i]) && t[i] != SPACE && 0 < t[i] < 256 { assert t[i] in l; }
  }

  /** Three keys on which the search and fnmatch disagree: the '?' takes no character, */
  lemma KeyWithout(s: seq<int>) returns (key: seq<int>)
    requires SPACE in s && CString(s) && Asks(s) && Live(Behind(s)) && Unescaped(s)
    ensures PlainKey(key) && FnMatch(Glob, KeyOf(AsRead(s, true)), key) && !Glob(KeyOf(s), key)
  {
    hide Glob, KeyOf, FnMatch, Live, Closed, PlainKey, AsRead;
    KeyParts(s);
    LiveQuestion(Behind(s));
    var k := LiveKey(Behind(s)[1..]);
    StarForQuestion(Behind(s), k);
    key := Lead(s) + k;
    SplitKey(Lead(s), k);
    BothParts(s, true, key);
  }

  /** the backslashes are in the key, */
  lemma KeyEscaped(s: seq<int>, edge: bool) returns (key: seq<int>)
    requires SPACE in s && CString(s) && Live(Behind(s)) && !Closed(Lead(s))
    ensures PlainKey(key) && FnMatch(Glob, KeyOf(AsRead(s, edge)), key) && !Glob(KeyOf(s), key)
  {
    hide Glob, KeyOf, FnMatch, Live, Closed, PlainKey, AsRead;
    LiveRead(s, edge);
    var k := LiveKey(BehindRead(s, edge));
    key := Lead(s) + k;
    SplitKey(Lead(s), k);
    BothParts(s, edge, key);
  }

  /** or they are not in the key. */
  lemma KeyUnescaped(s: seq<int>, edge: bool) returns (key: seq<int>)
    requires SPACE in s && CString(s) && Live(Behind(s)) && Closed(Lead(s)) && !Unescaped(s)
    ensures PlainKey(key) && Glob(KeyOf(s), key) && !FnMatch(Glob, KeyOf(AsRead(s, edge)), key)
  {
    hide Glob, KeyOf, FnMatch, Live, Closed, PlainKey, AsRead;
    var l, p, t := Lead(s), Behind(s), Text(Lead(s));
    KeyParts(s);
    TextPlain(l);
    if Asks(s) && edge {
      LiveQuestion(p);
      var rest := LiveKey(p[1..]);
      var k := [if l[|t|] == 97 then 98 else 97] + rest;
      assert k[1..] == rest;
      PlainFront(k);
      key := t + k;
      SplitKey(t, k);
      assert key[|t|] != l[|t|];
    } else {
      var k := LiveKey(p);
      key := t + k;
      SplitKey(t, k);
      ShortEscaped(l, p, key);
    }
    BothParts(s, edge, key);
  }

  lemma PlainFront(k: seq<int>)
    requires k != [] && (k[0] == 97 || k[0] == 98) && PlainKey(k[1..])
    ensures PlainKey(k)
  {
    assert k == [k[0]] + k[1..];
  }

  lemma ShortEscaped(l: seq<int>, p: seq<int>, key: seq<int>)
    requires BACKSLASH in l && Closed(l) && |key| == |Text(l)| + Shortest(p)
    ensures !(l <= key && Glob(p, key[|l|..]))
  {
    if l <= key && Glob(p, key[|l|..]) { GlobLength(p, key[|l|..]); }
  }

  /** The search treats a stored pattern as fnmatch does on every key, or misreads it. */
  lemma ReadExact(s: seq<int>, edge: bool)
    requires SPACE in s && CString(s)
    ensures (forall key :: PlainKey(key) ==> (FnMatch(Glob, KeyOf(AsRead(s, edge)), key) <==> Glob(KeyOf(s), key))) <==>
      !Misread(s, edge)
  {
    hide Glob, KeyOf, FnMatch, AsRead, PlainKey;
    if Misread(s, edge) {
      var key;
      if Unescaped(s) {
        key := KeyWithout(s);
      } else if Closed(Lead(s)) {
        key := KeyUnescaped(s, edge);
      } else {
        key := KeyEscaped(s, edge);
      }
    } else {
      forall key | PlainKey(key)
        ensures FnMatch(Glob, KeyOf(AsRead(s, edge)), key) <==> Glob(KeyOf(s), key)
      {
        ReadWell(s, edge, key);
      }
    }
  }

  // ----- all strings -----

  predicate RightlyRead(all: seq<seq<int>>, s: seq<int>) {
    SPACE in s && !Misread(s, EdgeAt(all, s, WildAt(s)))
  }

  lemma {:induction false} AcceptedRight(key: seq<int>, all: seq<seq<int>>, ss: seq<seq<int>>)
    requires PlainKey(key) && forall s :: s in ss ==> RightlyRead(all, s)
    ensures Accepted(Glob, key, all, ss) == Matching(key, ss)
  {
    hide FnMatch, Glob, KeyOf, ValOf, AsRead, EdgeAt, PlainKey, Misread;
    if ss != [] {
      assert ss[0] in ss;
      ReadWell(ss[0], EdgeAt(all, ss[0], WildAt(ss[0])), key);
      AcceptedRight(key, all, ss[1..]);
    }
  }

  /** Without backslashes nothing is missed. */
  lemma NothingMissed(s: seq<int>, edge: bool, key: seq<int>)
    requires SPACE in s && Unescaped(s) && PlainKey(key) && Glob(KeyOf(s), key)
    ensures FnMatch(Glob, KeyOf(AsRead(s, edge)), key)
  {
    hide Glob, KeyOf, FnMatch, AsRead, Closed, PlainKey;
    KeyParts(s);
    BothParts(s, edge, key);
    if Asks(s) { StarForQuestion(Behind(s), key[|Lead(s)|..]); }
  }

  lemma {:induction false} AcceptedAtLeast(key: seq<int>, all: seq<seq<int>>, ss: seq<seq<int>>)
    requires PlainKey(key) && forall s :: s in ss ==> SPACE in s && Unescaped(s)
    ensures |Accepted(Glob, key, all, ss)| >= |Matching(key, ss)|
    ensures (exists s :: s in ss && FnMatch(Glob, KeyOf(Seen(all, s)), key) && !Glob(KeyOf(s), key)) ==>
              |Accepted(Glob, key, all, ss)| > |Matching(key, ss)|
  {
    hide FnMatch, Glob, KeyOf, ValOf, AsRead, EdgeAt, PlainKey, Unescaped;
    if ss != [] {
      if Glob(KeyOf(ss[0]), key) { NothingMissed(ss[0], EdgeAt(all, ss[0], WildAt(ss[0])), key); }
      AcceptedAtLeast(key, all, ss[1..]);
    }
  }

  ghost predicate AllRight(all: seq<seq<int>>, ss: seq<seq<int>>) {
    forall key :: PlainKey(key) ==> multiset(Accepted(Glob, key, all, ss)) == multiset(Matching(key, ss))
  }

  /** No other stored string has the same value. */
  predicate Alone(ss: seq<seq<int>>, s: seq<int>) {
    forall o :: o in ss && ValOf(o) == ValOf(s) ==> o == s
  }

  /** The value of a string that is alone with it shows whether the string was found. */
  lemma {:induction false} AloneShows(w: Matcher, key: seq<int>, all: seq<seq<int>>, ss: seq<seq<int>>, s: seq<int>)
    requires Alone(ss, s)
    ensures ValOf(s) in Accepted(w, key, all, ss) <==> s in ss && FnMatch(w, KeyOf(Seen(all, s)), key)
    ensures ValOf(s) in Matching(key, ss) <==> s in ss && Glob(KeyOf(s), key)
  {
    hide FnMatch, Glob, KeyOf, ValOf, Seen;
    if ss != [] { AloneShows(w, key, all, ss[1..], s); }
  }

  /**
    The values found are the right ones for every key if no pattern is misread: no first wildcard
    is a '?' on an edge and none comes behind a backslash, unless the rest matches no key at all.
    And only if: a pattern that is misread shows in the values of some key when there are no such
    backslashes at all, or when no other string has its value.
   */
  lemma SearchExact(all: seq<seq<int>>, ss: seq<seq<int>>)
    requires forall s :: s in ss ==> CString(s) && SPACE in s
    ensures (forall s :: s in ss ==> RightlyRead(all, s)) ==> AllRight(all, ss)
    ensures AllRight(all, ss) ==>
      forall s :: s in ss && ((forall o :: o in ss ==> Unescaped(o)) || Alone(ss, s)) ==> RightlyRead(all, s)
  {
    hide FnMatch, Glob, KeyOf, ValOf, AsRead, EdgeAt, PlainKey, Unescaped, Misread, Accepted, Matching, Alone;
    if forall s :: s in ss ==> RightlyRead(all, s) {
      forall key | PlainKey(key)
        ensures multiset(Accepted(Glob, key, all, ss)) == multiset(Matching(key, ss))
      {
        AcceptedRight(key, all, ss);
      }
    }
    forall s | s in ss && !RightlyRead(all, s) && ((forall o :: o in ss ==> Unescaped(o)) || Alone(ss, s))
      ensures !AllRight(all, ss)
    {
      if Alone(ss, s) { WrongKeyAlone(all, ss, s); } else { WrongKey(all, ss, s); }
    }
  }

  lemma WrongKeyAlone(all: seq<seq<int>>, ss: seq<seq<int>>, s: seq<int>)
    requires s in ss && CString(s) && SPACE in s && !RightlyRead(all, s) && Alone(ss, s)
    ensures !AllRight(all, ss)
  {
    hide FnMatch, Glob, KeyOf, ValOf, AsRead, EdgeAt, PlainKey, Misread, Accepted, Matching, Alone;
    ReadExact(s, EdgeAt(all, s, WildAt(s)));
    var key :| PlainKey(key) && !(FnMatch(Glob, KeyOf(Seen(all, s)), key) <==> Glob(KeyOf(s), key));
    AloneShows(Glob, key, all, ss, s);
    assert ValOf(s) in multiset(Accepted(Glob, key, all, ss)) <==> ValOf(s) !in multiset(Matching(key, ss));
  }

  lemma WrongKey(all: seq<seq<int>>, ss: seq<seq<int>>, s: seq<int>)
    requires forall s :: s in ss ==> CString(s) && SPACE in s && Unescaped(s)
    requires s in ss && !RightlyRead(all, s)
    ensures !AllRight(all, ss)
  {
    hide FnMatch, Glob, KeyOf, ValOf, AsRead, EdgeAt, PlainKey, Live, Accepted, Matching;
    var key := KeyWithout(s);
    AcceptedAtLeast(key, all, ss);
    assert |multiset(Accepted(Glob, key, all, ss))| == |Accepted(Glob, key, all, ss)|;
    assert |multiset(Matching(key, ss))| == |Matching(key, ss)|;
  }
}
