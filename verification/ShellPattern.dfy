/**
  Shell patterns as fnmatch reads them: ordinary characters, '*', '?', bracket expressions with
  ranges, and backslash escapes.
 */
module ShellPattern {
  import opened TrieSpec
  import opened IndexTree
  import opened WildValues

  const BACKSLASH: int := 92
  const CLOSE: int := 93
  const DASH: int := 45
  const BANG: int := 33
  const CARET: int := 94

  /** The first closing bracket from position i on. */
  function CloseAt(p: seq<int>, i: nat): (n: nat)
    ensures i < |p| ==> i <= n <= |p|
    decreases |p| - i
  {
    if i >= |p| then |p| else if p[i] == CLOSE then i else CloseAt(p, i + 1)
  }

  /** Where the items of a bracket expression at the front of p start. */
  function ItemsAt(p: seq<int>): nat {
    if 1 < |p| && (p[1] == BANG || p[1] == CARET) then 2 else 1
  }

  /** Its closing bracket; one that comes first is an item itself. */
  function Closing(p: seq<int>): nat { CloseAt(p, ItemsAt(p) + 1) }

  predicate IsBracket(p: seq<int>) {
    p != [] && p[0] == BRACKET && Closing(p) < |p|
  }

  predicate Listed(items: seq<int>, x: int)
    decreases |items|
  {
    items != [] && (
      if 3 <= |items| && items[1] == DASH then items[0] <= x <= items[2] || Listed(items[3..], x)
      else items[0] == x || Listed(items[1..], x))
  }

  predicate InBracket(p: seq<int>, x: int)
    requires IsBracket(p)
  {
    Listed(p[ItemsAt(p)..Closing(p)], x) != (ItemsAt(p) == 2)
  }

  /** The front item of a pattern, other than '*', takes the character x. */
  predicate Takes(p: seq<int>, x: int)
    requires p != []
  {
    if p[0] == QUESTION then true
    else if IsBracket(p) then InBracket(p, x)
    else if p[0] == BACKSLASH then |p| > 1 && p[1] == x
    else p[0] == x
  }

  /** The length of the front item. */
  function Front(p: seq<int>): (n: nat)
    requires p != []
    ensures 1 <= n <= |p|
  {
    if IsBracket(p) then Closing(p) + 1
    else if p[0] == BACKSLASH && |p| > 1 then 2
    else 1
  }

  predicate Glob(p: seq<int>, key: seq<int>)
    decreases |p| + |key|
  {
    if p == [] then key == []
    else if p[0] == STAR then Glob(p[1..], key) || (key != [] && Glob(p, key[1..]))
    else key != [] && Takes(p, key[0]) && Glob(p[Front(p)..], key[1..])
  }

  // ----- patterns that some key matches -----

  /** A key: no wildcard, bracket or space, and no NUL. */
  predicate PlainKey(key: seq<int>) {
    CString(key) && Literal(key)
  }

  /** A character of a key. */
  predicate Plain(x: int) {
    0 < x < 256 && !Wild(x) && x != SPACE
  }

  predicate TakesPlain(p: seq<int>)
    requires p != []
  {
    exists x :: 0 < x < 256 && Plain(x) && Takes(p, x)
  }

  /** Every item takes some character of a key. */
  predicate Live(p: seq<int>)
    decreases |p|
  {
    p == [] || if p[0] == STAR then Live(p[1..]) else TakesPlain(p) && Live(p[Front(p)..])
  }

  /** The number of items that take a character. */
  function Shortest(p: seq<int>): nat
    decreases |p|
  {
    if p == [] then 0 else if p[0] == STAR then Shortest(p[1..]) else 1 + Shortest(p[Front(p)..])
  }

  lemma {:induction false} GlobLength(p: seq<int>, key: seq<int>)
    requires Glob(p, key)
    ensures |key| >= Shortest(p)
    decreases |p| + |key|
  {
    if p != [] {
      if p[0] != STAR {
        GlobLength(p[Front(p)..], key[1..]);
      } else if Glob(p[1..], key) {
        GlobLength(p[1..], key);
      } else {
        GlobLength(p, key[1..]);
      }
    }
  }

  /** A live pattern matches a key of the least length. */
  lemma {:induction false} LiveKey(p: seq<int>) returns (key: seq<int>)
    requires Live(p)
    ensures PlainKey(key) && Glob(p, key) && |key| == Shortest(p)
    decreases |p|
  {
    key := [];
    if p != [] {
      if p[0] == STAR {
        key := LiveKey(p[1..]);
      } else {
        var x :| 0 < x < 256 && Plain(x) && Takes(p, x);
        var rest := LiveKey(p[Front(p)..]);
        key := [x] + rest;
        assert key[1..] == rest;
      }
    }
  }

  /** A pattern is live exactly when some key matches it. */
  lemma {:induction false} LiveIff(p: seq<int>)
    ensures Live(p) <==> exists key :: PlainKey(key) && Glob(p, key)
  {
    if Live(p) {
      var key := LiveKey(p);
    }
    forall key | PlainKey(key) && Glob(p, key) ensures Live(p) { MatchedLive(p, key); }
  }

  lemma {:induction false} MatchedLive(p: seq<int>, key: seq<int>)
    requires PlainKey(key) && Glob(p, key)
    ensures Live(p)
    decreases |p| + |key|
  {
    if p != [] {
      if p[0] != STAR {
        assert Plain(key[0]) && Takes(p, key[0]);
        MatchedLive(p[Front(p)..], key[1..]);
      } else if Glob(p[1..], key) {
        MatchedLive(p[1..], key);
      } else {
        MatchedLive(p, key[1..]);
      }
    }
  }

  // ----- the literal part -----

  /** No backslash is the last character it could escape. */
  predicate Closed(l: seq<int>) {
    l == [] || if l[0] == BACKSLASH then |l| > 1 && Closed(l[2..]) else Closed(l[1..])
  }

  /** Literal text without the backslashes that escape something. */
  function Text(l: seq<int>): (r: seq<int>)
    ensures |r| <= |l|
    ensures BACKSLASH in l && Closed(l) ==> |r| < |l|
    ensures BACKSLASH !in l ==> r == l && Closed(l)
    ensures forall x :: x in r ==> x in l
  {
    if l == [] then []
    else if l[0] == BACKSLASH && |l| > 1 then [l[1]] + Text(l[2..])
    else [l[0]] + Text(l[1..])
  }

  lemma PrefixStep(t: seq<int>, key: seq<int>)
    requires t != [] && key != []
    ensures t <= key <==> t[0] == key[0] && t[1..] <= key[1..]
    ensures t <= key ==> key[1..][|t[1..]|..] == key[|t|..]
  {
    if t[0] == key[0] && t[1..] <= key[1..] { assert t == [t[0]] + t[1..] && key == [key[0]] + key[1..]; }
  }

  /** fnmatch on a pattern with literal text in front. */
  lemma {:induction false} GlobLiteral(l: seq<int>, p: seq<int>, key: seq<int>)
    requires Literal(l) && (p == [] || Wild(p[0])) && PlainKey(key)
    ensures Glob(l + p, key) <==> Closed(l) && Text(l) <= key && Glob(p, key[|Text(l)|..])
    decreases |l|
  {
    var lp, t := l + p, Text(l);
    if l == [] {
      assert lp == p && key[0..] == key;
    } else {
      assert !IsBracket(lp);
      var m := if l[0] == BACKSLASH && |l| > 1 then 2 else 1;
      assert lp[m..] == l[m..] + p;
      if key != [] {
        GlobLiteral(l[m..], p, key[1..]);
        assert t[1..] == Text(l[m..]);
        PrefixStep(t, key);
      }
    }
  }

  /** The search's own comparison of the literal part. */
  lemma {:induction false} TriedLiteral(w: Matcher, l: seq<int>, p: seq<int>, key: seq<int>)
    requires Literal(l)
    ensures FnMatch(w, l + p, key) <==> l <= key && FnMatch(w, p, key[|l|..])
  {
    if l == [] {
      assert l + p == p && key[0..] == key;
    } else {
      assert (l + p)[1..] == l[1..] + p;
      if key != [] {
        TriedLiteral(w, l[1..], p, key[1..]);
        PrefixStep(l, key);
      }
    }
  }

  // ----- examples -----

  /** "[a-c]x*", "[!a-c]", "[]]" and "\\?". */
  lemma GlobExamples()
    ensures Glob([91, 97, 45, 99, 93, 120, 42], [98, 120, 121]) && !Glob([91, 97, 45, 99, 93, 120, 42], [100, 120])
    ensures Glob([91, 33, 97, 45, 99, 93], [100]) && !Glob([91, 33, 97, 45, 99, 93], [98])
    ensures Glob([91, 93, 93], [93]) && !Glob([91, 93, 93], [91])
    ensures Glob([92, 63], [63]) && !Glob([92, 63], [97])
  {
    RangeExample();
    NegatedExample();
    OddExamples();
  }

  lemma Rest(p: seq<int>, n: nat, key: seq<int>)
    requires p != [] && p[0] != STAR && n == Front(p) && n <= |p|
    ensures key == [] ==> !Glob(p, key)
    ensures key != [] ==> (Glob(p, key) <==> Takes(p, key[0]) && Glob(p[n..], key[1..]))
  {}

  lemma RangeExample()
    ensures Glob([91, 97, 45, 99, 93, 120, 42], [98, 120, 121]) && !Glob([91, 97, 45, 99, 93, 120, 42], [100, 120])
  {
    var p: seq<int>, key: seq<int> := [91, 97, 45, 99, 93, 120, 42], [98, 120, 121];
    assert CloseAt(p, 2) == 4;
    assert p[1..4] == [97, 45, 99];
    assert [97, 45, 99][3..] == [];
    assert p[5..] == [120, 42] && key[1..] == [120, 121];
    assert [120, 42][1..] == [42] && [120, 121][1..] == [121] && [42][1..] == [] && [121][1..] == [];
    Rest(p, 5, key);
    Rest([120, 42], 1, [120, 121]);
    assert Glob([], []) && Glob([42], []) && Glob([42], [121]);
    Rest(p, 5, [100, 120]);
  }

  lemma NegatedExample()
    ensures Glob([91, 33, 97, 45, 99, 93], [100]) && !Glob([91, 33, 97, 45, 99, 93], [98])
  {
    var p: seq<int> := [91, 33, 97, 45, 99, 93];
    assert CloseAt(p, 3) == 5;
    assert p[2..5] == [97, 45, 99];
    assert [97, 45, 99][3..] == [];
    assert p[6..] == [] && [100][1..] == [];
    Rest(p, 6, [100]);
    Rest(p, 6, [98]);
  }

  lemma OddExamples()
    ensures Glob([91, 93, 93], [93]) && !Glob([91, 93, 93], [91])
    ensures Glob([92, 63], [63]) && !Glob([92, 63], [97])
  {
    var p: seq<int>, q: seq<int> := [91, 93, 93], [92, 63];
    assert CloseAt(p, 2) == 2;
    assert p[1..2] == [93] && [93][1..] == [] && p[3..] == [] && q[2..] == [] && [63][1..] == [];
    Rest(p, 3, [93]);
    Rest(p, 3, [91]);
    Rest(q, 2, [63]);
    Rest(q, 2, [97]);
  }
}
