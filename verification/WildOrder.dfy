/**
  In which order index.c's wildcard search comes to the stored strings, told from the strings alone:
  in front of its first wildcard a string goes before another if it has a wildcard where the other
  has none, and behind the first wildcard, as among wildcards, in ascending order.
 */
module WildOrder {
  import opened Sequences
  import opened TrieSpec
  import opened IndexTree
  import opened IndexFile
  import opened IndexSearch
  import opened IndexList
  import opened WildValues
  import opened IndexWild
  import opened ShellPattern

  // ----- the order -----

  predicate Goes(a: seq<int>, b: seq<int>) {
    if b == [] then false
    else if a == [] then true
    else if a[0] != b[0] then CharGoes(a[0], b[0])
    else if Wild(a[0]) || a[0] == SPACE then LexLT(a[1..], b[1..])
    else Goes(a[1..], b[1..])
  }

  /** Wildcards first, and ascending. */
  predicate CharGoes(c: int, d: int) {
    if Wild(c) != Wild(d) then Wild(c) else c < d
  }

  predicate InWalkOrder(ss: seq<seq<int>>) {
    forall i, j :: 0 <= i < j < |ss| ==> Goes(ss[i], ss[j])
  }

  lemma {:induction false} GoesBehind(p: seq<int>, a: seq<int>, b: seq<int>)
    requires Literal(p)
    ensures Goes(p + a, p + b) <==> Goes(a, b)
  {
    hide LexLT;
    if p == [] {
      assert p + a == a && p + b == b;
    } else {
      GoesBehind(p[1..], a, b);
      assert (p + a)[1..] == p[1..] + a && (p + b)[1..] == p[1..] + b;
    }
  }

  /** Strings that part at a character behind literal text. */
  lemma GoesParted(p: seq<int>, c: int, a: seq<int>, d: int, b: seq<int>)
    requires Literal(p) && c != d && CharGoes(c, d)
    ensures Goes(p + [c] + a, p + [d] + b)
  {
    GoesBehind(p, [c] + a, [d] + b);
    assert p + [c] + a == p + ([c] + a) && p + [d] + b == p + ([d] + b);
  }

  /** Behind a wildcard or a space only the ascending order counts. */
  lemma GoesSorted(p: seq<int>, c: int, a: seq<int>, b: seq<int>)
    requires Literal(p) && (Wild(c) || c == SPACE)
    ensures Goes(p + [c] + a, p + [c] + b) <==> LexLT(a, b)
  {
    hide LexLT;
    GoesBehind(p, [c] + a, [c] + b);
    assert p + [c] + a == p + ([c] + a) && p + [c] + b == p + ([c] + b);
    assert ([c] + a)[1..] == a && ([c] + b)[1..] == b;
  }

  lemma GoesOnce(a: seq<int>)
    ensures !Goes(a, a)
  {
    if a != [] && !Wild(a[0]) && a[0] != SPACE { GoesOnce(a[1..]); }
  }

  lemma {:induction false} GoesOneWay(a: seq<int>, b: seq<int>)
    requires Goes(a, b)
    ensures !Goes(b, a)
  {
    if a != [] && b != [] && a[0] == b[0] {
      if Wild(a[0]) || a[0] == SPACE { LexOneWay(a[1..], b[1..]); } else { GoesOneWay(a[1..], b[1..]); }
    }
  }

  lemma {:induction false} LexOneWay(a: seq<int>, b: seq<int>)
    ensures LexLE(a, b) && LexLE(b, a) ==> a == b
  {
    if a != [] && b != [] {
      LexOneWay(a[1..], b[1..]);
      assert a == [a[0]] + a[1..] && b == [b[0]] + b[1..];
    }
  }

  lemma OrderCat(a: seq<seq<int>>, b: seq<seq<int>>)
    requires InWalkOrder(a) && InWalkOrder(b) && forall x, y :: x in a && y in b ==> Goes(x, y)
    ensures InWalkOrder(a + b)
  {
    hide Goes;
    var s := a + b;
    forall i, j | 0 <= i < j < |s| ensures Goes(s[i], s[j]) {
      if j >= |a| && i < |a| { assert a[i] in a && b[j - |a|] in b; }
    }
  }

  lemma OrderFew(s: seq<int>)
    ensures InWalkOrder([]) && InWalkOrder([s])
  {}

  lemma OrderPrepend(p: seq<int>, ss: seq<seq<int>>)
    requires Literal(p) && InWalkOrder(ss)
    ensures InWalkOrder(Prepend(p, ss))
  {
    hide Goes;
    forall i, j | 0 <= i < j < |ss| ensures Goes(Prepend(p, ss)[i], Prepend(p, ss)[j]) { GoesBehind(p, ss[i], ss[j]); }
  }

  lemma OrderSorted(p: seq<int>, c: int, ss: seq<seq<int>>)
    requires Literal(p) && (Wild(c) || c == SPACE) && Ascending(ss)
    ensures InWalkOrder(Prepend(p + [c], ss))
  {
    hide Goes, LexLT;
    forall i, j | 0 <= i < j < |ss| ensures Goes(Prepend(p + [c], ss)[i], Prepend(p + [c], ss)[j]) {
      GoesSorted(p, c, ss[i], ss[j]);
    }
  }

  /** There is only one such order of the same strings. */
  lemma {:induction false} OrderUnique(a: seq<seq<int>>, b: seq<seq<int>>)
    requires InWalkOrder(a) && InWalkOrder(b) && forall s: seq<int> :: s in a <==> s in b
    ensures a == b
    decreases |a|
  {
    hide Goes;
    if b != [] { assert b[0] in b; }
    if a != [] {
      assert a[0] in a && a[0] in b;
      assert b[0] in b && b[0] in a;
      var i :| 0 <= i < |a| && a[i] == b[0];
      var j :| 0 <= j < |b| && b[j] == a[0];
      if i > 0 && j > 0 { GoesOneWay(a[0], b[0]); }
      GoesOnce(a[0]);
      forall s: seq<int> ensures s in a[1..] <==> s in b[1..] { TailHas(a, s); TailHas(b, s); }
      OrderUnique(a[1..], b[1..]);
      assert a == [a[0]] + a[1..] && b == [b[0]] + b[1..];
    }
  }

  lemma TailHas(a: seq<seq<int>>, s: seq<int>)
    requires InWalkOrder(a) && a != []
    ensures s in a[1..] <==> s in a && s != a[0]
  {
    hide Goes;
    if s in a[1..] {
      var i :| 0 <= i < |a[1..]| && a[1..][i] == s;
      assert Goes(a[0], a[i + 1]);
      GoesOnce(s);
    }
  }

  // ----- the strings of a trie in this order -----

  /** The strings of a trie in the order of the walk. */
  function WalkStrings<A>(t: Trie<A>): seq<seq<int>>
    decreases t, CHILDMAX + 1
  {
    if !Literal(t.prefix) then Strings(t)
    else
      (if t.isEnd then [t.prefix] else [])
      + WalkKid(t, STAR) + WalkKid(t, QUESTION) + WalkKid(t, BRACKET) + WalkKids(t, 1)
  }

  function WalkKid<A>(t: Trie<A>, c: int): seq<seq<int>>
    decreases t, 0
  {
    if c !in t.kids then []
    else Prepend(t.prefix + [c], if Wild(c) || c == SPACE then Strings(Child(t, c)) else WalkStrings(Child(t, c)))
  }

  /** Through the children from character c on that are no wildcards. */
  function WalkKids<A>(t: Trie<A>, c: int): seq<seq<int>>
    requires 1 <= c <= CHILDMAX
    decreases t, CHILDMAX + 1 - c
  {
    if c == CHILDMAX then [] else (if Wild(c) then [] else WalkKid(t, c)) + WalkKids(t, c + 1)
  }

  lemma {:induction false} WalkStringsAre<A>(t: Trie<A>, s: seq<int>)
    ensures s in WalkStrings(t) <==> Has(t, s)
    decreases t, CHILDMAX + 1
  {
    hide Has, Strings, WalkKid, WalkKids;
    StringsAre(t, s);
    if Literal(t.prefix) {
      HasEnd(t);
      WalkKidIs(t, STAR, s);
      WalkKidIs(t, QUESTION, s);
      WalkKidIs(t, BRACKET, s);
      WalkKidsAre(t, 1, s);
      if Has(t, s) { HasShape(t, s); }
      ViaHas(t, s);
    }
  }

  /** The string goes through child c. */
  ghost predicate Via<A>(t: Trie<A>, c: int, s: seq<int>) {
    t.prefix + [c] <= s && KidHas(t, c, s[|t.prefix| + 1..])
  }

  lemma ViaHas<A>(t: Trie<A>, s: seq<int>)
    ensures forall c :: Via(t, c, s) ==> Has(t, s) && 1 <= c < CHILDMAX && |t.prefix| < |s| && s[|t.prefix|] == c
    ensures Has(t, s) && s != t.prefix ==> Via(t, s[|t.prefix|], s)
  {
    hide Has, Via;
    forall c | Via(t, c, s) ensures Has(t, s) && 1 <= c < CHILDMAX && |t.prefix| < |s| && s[|t.prefix|] == c {
      ViaIs(t, c, s);
    }
    if Has(t, s) && s != t.prefix { HasVia(t, s); }
  }

  lemma ViaIs<A>(t: Trie<A>, c: int, s: seq<int>)
    requires Via(t, c, s)
    ensures Has(t, s) && 1 <= c < CHILDMAX && |t.prefix| < |s| && s[|t.prefix|] == c
  {
    hide Has;
    assert s == t.prefix + [c] + s[|t.prefix| + 1..];
    HasKid(t, c, s[|t.prefix| + 1..]);
  }

  lemma HasVia<A>(t: Trie<A>, s: seq<int>)
    requires Has(t, s) && s != t.prefix
    ensures |t.prefix| < |s| && Via(t, s[|t.prefix|], s)
  {
    hide Has;
    HasShape(t, s);
  }

  lemma {:induction false} WalkKidIs<A>(t: Trie<A>, c: int, s: seq<int>)
    ensures s in WalkKid(t, c) <==> Via(t, c, s)
    decreases t, 0
  {
    hide Has, Prepend, Strings, WalkStrings;
    if c in t.kids {
      var p := t.prefix + [c];
      var r := if p <= s then s[|p|..] else [];
      var ss := if Wild(c) || c == SPACE then Strings(Child(t, c)) else WalkStrings(Child(t, c));
      StringsAre(Child(t, c), r);
      WalkStringsAre(Child(t, c), r);
      PrependIn(p, ss, r);
      if p <= s { assert s == p + r; }
    }
  }

  lemma {:induction false} WalkKidsAre<A>(t: Trie<A>, c: int, s: seq<int>)
    requires 1 <= c <= CHILDMAX
    ensures s in WalkKids(t, c) <==> exists d :: c <= d < CHILDMAX && !Wild(d) && Via(t, d, s)
    decreases t, CHILDMAX + 1 - c
  {
    hide Via, WalkKid;
    if c < CHILDMAX {
      WalkKidIs(t, c, s);
      WalkKidsAre(t, c + 1, s);
    }
  }

  lemma KidGoes<A>(t: Trie<A>, c: int, d: int, x: seq<int>, y: seq<int>)
    requires Literal(t.prefix) && Via(t, c, x) && Via(t, d, y) && c != d && CharGoes(c, d)
    ensures Goes(x, y)
  {
    var n := |t.prefix| + 1;
    assert x == t.prefix + [c] + x[n..] && y == t.prefix + [d] + y[n..];
    GoesParted(t.prefix, c, x[n..], d, y[n..]);
  }

  lemma OwnGoes<A>(t: Trie<A>, c: int, y: seq<int>)
    requires Literal(t.prefix) && Via(t, c, y)
    ensures Goes(t.prefix, y)
  {
    var n := |t.prefix|;
    assert y == t.prefix + [c] + y[n + 1..] == t.prefix + ([c] + y[n + 1..]) && t.prefix == t.prefix + [];
    GoesBehind(t.prefix, [], [c] + y[n + 1..]);
  }

  lemma {:induction false} WalkOrdered<A>(t: Trie<A>)
    ensures InWalkOrder(WalkStrings(t))
    decreases t, CHILDMAX + 1
  {
    hide Goes, Strings, WalkKid, WalkKids, InWalkOrder, Via;
    if !Literal(t.prefix) {
      SortedOrdered(t);
    } else {
      OrderFew(t.prefix);
      var own := if t.isEnd then [t.prefix] else [];
      KidOrdered(t, STAR);
      KidOrdered(t, QUESTION);
      KidOrdered(t, BRACKET);
      KidsOrdered(t, 1);
      var a, b, c, d := WalkKid(t, STAR), WalkKid(t, QUESTION), WalkKid(t, BRACKET), WalkKids(t, 1);
      forall x, y | x in own && y in a ensures Goes(x, y) { WalkKidIs(t, STAR, y); OwnGoes(t, STAR, y); }
      OrderCat(own, a);
      forall x, y | x in own + a && y in b ensures Goes(x, y) { FrontGoes(t, STAR, QUESTION, x, y); }
      OrderCat(own + a, b);
      forall x, y | x in own + a + b && y in c ensures Goes(x, y) {
        FrontGoes(t, if x in b then QUESTION else STAR, BRACKET, x, y);
      }
      OrderCat(own + a + b, c);
      forall x, y | x in own + a + b + c && y in d ensures Goes(x, y) {
        WalkKidsAre(t, 1, y);
        var e :| 1 <= e < CHILDMAX && !Wild(e) && Via(t, e, y);
        WalkKidIs(t, e, y);
        FrontGoes(t, if x in c then BRACKET else if x in b then QUESTION else STAR, e, x, y);
      }
      OrderCat(own + a + b + c, d);
    }
  }

  /** What comes at the node itself, or through an earlier child, goes before. */
  lemma FrontGoes<A>(t: Trie<A>, c: int, d: int, x: seq<int>, y: seq<int>)
    requires Literal(t.prefix) && y in WalkKid(t, d) && c != d && CharGoes(c, d)
    requires x == t.prefix || x in WalkKid(t, c)
    ensures Goes(x, y)
  {
    hide Via, WalkKid, Goes, CharGoes;
    WalkKidIs(t, d, y);
    if x == t.prefix {
      OwnGoes(t, d, y);
    } else {
      WalkKidIs(t, c, x);
      KidGoes(t, c, d, x, y);
    }
  }

  lemma {:induction false} KidOrdered<A>(t: Trie<A>, c: int)
    requires Literal(t.prefix)
    ensures InWalkOrder(WalkKid(t, c))
    decreases t, 0
  {
    hide Goes, Strings, WalkStrings, Prepend, InWalkOrder;
    OrderFew([]);
    if c in t.kids {
      if Wild(c) || c == SPACE {
        StringsAscending(Child(t, c));
        OrderSorted(t.prefix, c, Strings(Child(t, c)));
      } else {
        WalkOrdered(Child(t, c));
        OrderPrepend(t.prefix + [c], WalkStrings(Child(t, c)));
      }
    }
  }

  lemma {:induction false} KidsOrdered<A>(t: Trie<A>, c: int)
    requires Literal(t.prefix) && 1 <= c <= CHILDMAX
    ensures InWalkOrder(WalkKids(t, c))
    decreases t, CHILDMAX + 1 - c
  {
    hide Goes, WalkKid, Via, InWalkOrder;
    OrderFew([]);
    if c < CHILDMAX {
      KidOrdered(t, c);
      KidsOrdered(t, c + 1);
      var a := if Wild(c) then [] else WalkKid(t, c);
      forall x, y | x in a && y in WalkKids(t, c + 1) ensures Goes(x, y) {
        WalkKidIs(t, c, x);
        WalkKidsAre(t, c + 1, y);
        var d :| c + 1 <= d < CHILDMAX && !Wild(d) && Via(t, d, y);
        KidGoes(t, c, d, x, y);
      }
      OrderCat(a, WalkKids(t, c + 1));
    }
  }

  /** A piece with a wildcard or a space in it. */
  lemma SortedOrdered<A>(t: Trie<A>)
    requires !Literal(t.prefix)
    ensures InWalkOrder(Strings(t))
  {
    hide Goes, Strings, LexLT;
    StringsAscending(t);
    var ss := Strings(t);
    var n := FirstSpecial(t.prefix);
    var p, c := t.prefix[..n], t.prefix[n];
    forall i, j | 0 <= i < j < |ss| ensures Goes(ss[i], ss[j]) {
      var a, b := ss[i], ss[j];
      StringsPrefix(t, a);
      StringsPrefix(t, b);
      assert a == p + [c] + a[n + 1..] && b == p + [c] + b[n + 1..];
      GoesSorted(p, c, a[n + 1..], b[n + 1..]);
      LexLater(p + [c], a[n + 1..], b[n + 1..]);
    }
  }

  lemma FirstSpecial(p: seq<int>) returns (n: nat)
    requires !Literal(p)
    ensures n < |p| && Literal(p[..n]) && (Wild(p[n]) || p[n] == SPACE)
  {
    assert p[..|p|] == p;
    n := 0;
    while !Wild(p[n]) && p[n] != SPACE
      invariant n < |p| && Literal(p[..n])
      decreases |p| - n
    {
      assert p[..n + 1] == p[..n] + [p[n]];
      n := n + 1;
    }
  }

  lemma LexLater(p: seq<int>, a: seq<int>, b: seq<int>)
    requires LexLT(p + a, p + b)
    ensures LexLT(a, b)
  {
    LexPrefix(p, a, b);
    assert (p + a)[|p|..] == a && (p + b)[|p|..] == b;
  }

  // ----- the walk follows it -----

  /** Strings whose piece the key does not have. */
  lemma {:induction false} FoundApart<A>(w: Matcher, k: seq<int>, t: Trie<A>, ss: seq<seq<int>>)
    requires Literal(t.prefix) && !(t.prefix <= k) && forall s: seq<int> :: s in ss ==> t.prefix <= s
    ensures Found(w, k, t, ss) == []
  {
    hide Picks;
    if ss != [] {
      var s := ss[0];
      assert s in ss;
      var j := FirstApart(t.prefix, k);
      assert k == t.prefix[..j] + k[j..] && s == t.prefix[..j] + [t.prefix[j]] + s[j + 1..];
      PicksAt(w, t.prefix[..j], t.prefix[j], k[j..], s[j + 1..], Edges(t, s));
      forall x: seq<int> | x in ss[1..] ensures t.prefix <= x { assert x in ss; }
      FoundApart(w, k, t, ss[1..]);
    }
  }

  lemma FirstApart(p: seq<int>, k: seq<int>) returns (j: nat)
    requires !(p <= k)
    ensures j < |p| && j <= |k| && p[..j] == k[..j] && (j == |k| || k[j] != p[j])
  {
    assert p[..|p|] == p;
    j := 0;
    while j < |k| && k[j] == p[j]
      invariant j < |p| && j <= |k| && p[..j] == k[..j]
      decreases |p| - j
    {
      assert p[..j + 1] == p[..j] + [p[j]] && k[..j + 1] == k[..j] + [k[j]];
      j := j + 1;
    }
  }

  /** A wildcard on an edge, for a key that does not have it. */
  lemma {:induction false} FoundTried<A>(w: Matcher, k: seq<int>, t: Trie<A>, c: int, ss: seq<seq<int>>)
    requires Tame(t.prefix) && Wild(c) && c in t.kids && (k == [] || k[0] != c)
    ensures Found(w, t.prefix + k, t, Prepend(t.prefix + [c], ss)) == Hits(w, [HandedOn(c)], k, ss)
  {
    hide Picks, Edges, Prepend, Hits, Found;
    if ss == [] {
      NoneFound(w, k, t, c);
    } else {
      FoundTried(w, k, t, c, ss[1..]);
      OneWild(w, k, t, c, ss);
      HitsCat(w, [HandedOn(c)], k, [ss[0]], ss[1..]);
      assert ss == [ss[0]] + ss[1..];
    }
  }

  /** What is found going on to child c. */
  ghost function Beyond<A>(w: Matcher, k: seq<int>, t: Trie<A>, c: int): seq<seq<int>> {
    if c !in t.kids || c != (if k == [] then SPACE else k[0]) then []
    else if k == [] then Strings(Child(t, c))
    else Found(w, k[1..], Child(t, c), WalkStrings(Child(t, c)))
  }

  lemma FoundBeyond<A>(w: Matcher, k: seq<int>, t: Trie<A>, c: int)
    requires Literal(t.prefix) && PlainKey(k) && !Wild(c)
    ensures Found(w, t.prefix + k, t, WalkKid(t, c)) == Beyond(w, k, t, c)
  {
    hide Found, Prepend, Strings, WalkStrings;
    if c in t.kids {
      var ss := if c == SPACE then Strings(Child(t, c)) else WalkStrings(Child(t, c));
      if k != [] && k[0] == c {
        assert t.prefix + k == t.prefix + [c] + k[1..];
        FoundNext(w, k[1..], t, c, ss);
      } else {
        FoundLast(w, k, t, c, ss);
      }
    } else {
      FoundNothing(w, t.prefix + k, t);
    }
  }

  lemma FoundNothing<A>(w: Matcher, key: seq<int>, t: Trie<A>)
    ensures Found(w, key, t, []) == []
  {}

  /** Only one of the children that are no wildcards contributes. */
  lemma {:induction false} FoundBelow<A>(w: Matcher, k: seq<int>, t: Trie<A>, c: int)
    requires Literal(t.prefix) && PlainKey(k) && 1 <= c <= CHILDMAX
    ensures var x := if k == [] then SPACE else k[0];
      Found(w, t.prefix + k, t, WalkKids(t, c)) == if c <= x < CHILDMAX then Beyond(w, k, t, x) else []
    decreases CHILDMAX - c
  {
    hide Found, WalkKid;
    if c == CHILDMAX {
      FoundNothing(w, t.prefix + k, t);
    } else {
      FoundBelow(w, k, t, c + 1);
      FoundCat(w, t.prefix + k, t, if Wild(c) then [] else WalkKid(t, c), WalkKids(t, c + 1));
      if Wild(c) { FoundNothing(w, t.prefix + k, t); } else { FoundBeyond(w, k, t, c); }
    }
  }

  lemma FoundTries<A>(w: Matcher, k: seq<int>, t: Trie<A>, c: int)
    requires Literal(t.prefix) && PlainKey(k) && Wild(c)
    ensures Found(w, t.prefix + k, t, WalkKid(t, c)) == Tries(w, k, t, c)
  {
    hide Found, Hits, Prepend, Strings;
    if c in t.kids { FoundTried(w, k, t, c, Strings(Child(t, c))); } else { FoundNothing(w, t.prefix + k, t); }
  }

  /** The string that ends at the piece has no value. */
  lemma FoundOwn<A>(w: Matcher, k: seq<int>, t: Trie<A>)
    requires Tame(t.prefix)
    ensures Found(w, t.prefix + k, t, [t.prefix]) == []
  {
    PicksBehind(w, t.prefix, k, [], Edges(t, t.prefix));
    assert t.prefix + [] == t.prefix && [t.prefix][1..] == [];
  }

  /** For a plain key the search comes to the stored strings in the order of the walk. */
  lemma {:induction false} WalkPlain<A>(w: Matcher, k: seq<int>, t: Trie<A>)
    requires PlainKey(k)
    ensures Walk(w, k, t) == Found(w, k, t, WalkStrings(t))
    decreases |k|
  {
    hide Found, WalkKid, WalkKids, Tries, Strings;
    if t.prefix <= k && Tame(t.prefix) {
      var r := k[|t.prefix|..];
      assert k == t.prefix + r && Literal(t.prefix);
      WalkParts(w, r, t);
      if r != [] && r[0] in t.kids { WalkPlain(w, r[1..], Child(t, r[0])); }
    } else if Literal(t.prefix) {
      forall s: seq<int> | s in Strings(t) ensures t.prefix <= s { StringsPrefix(t, s); }
      forall s: seq<int> | s in WalkStrings(t) ensures t.prefix <= s { WalkStringsAre(t, s); HasPrefix(t, s); }
      FoundApart(w, k, t, Strings(t));
      FoundApart(w, k, t, WalkStrings(t));
    }
  }

  lemma WalkParts<A>(w: Matcher, k: seq<int>, t: Trie<A>)
    requires Literal(t.prefix) && PlainKey(k)
    ensures Found(w, t.prefix + k, t, WalkStrings(t)) ==
      Tries(w, k, t, STAR) + Tries(w, k, t, QUESTION) + Tries(w, k, t, BRACKET)
      + Beyond(w, k, t, if k == [] then SPACE else k[0])
  {
    hide Found, WalkKid, WalkKids, Tries, Beyond;
    var key := t.prefix + k;
    var own := if t.isEnd then [t.prefix] else [];
    var a, b, c, d := WalkKid(t, STAR), WalkKid(t, QUESTION), WalkKid(t, BRACKET), WalkKids(t, 1);
    FoundCat(w, key, t, own + a + b + c, d);
    FoundCat(w, key, t, own + a + b, c);
    FoundCat(w, key, t, own + a, b);
    FoundCat(w, key, t, own, a);
    FoundOwn(w, k, t);
    FoundNothing(w, key, t);
    FoundTries(w, k, t, STAR);
    FoundTries(w, k, t, QUESTION);
    FoundTries(w, k, t, BRACKET);
    FoundBelow(w, k, t, 1);
    NoKid(w, k, t);
  }

  lemma NoKid<A>(w: Matcher, k: seq<int>, t: Trie<A>)
    requires PlainKey(k)
    ensures var x := if k == [] then SPACE else k[0];
      x >= 1 && (x >= CHILDMAX ==> Beyond(w, k, t, x) == [])
  {}
}
